/** XDR streams over stdio files (gpsee_xdrfile.c). A "raw" chunk is handed out to be
    filled in later: it is written behind, by the operation that comes next. */
module XdrFile {

  type byte = x: int | 0 <= x < 256
  type uint32 = x: int | 0 <= x < 0x1_0000_0000

  /** The bytes of a word as they lie in memory, on a machine of either byte order. */
  function WordBytes(v: uint32, big: bool): (s: seq<byte>)
    ensures |s| == 4
  {
    var b0, b1, b2, b3 := v % 256, v / 256 % 256, v / 256 / 256 % 256, v / 256 / 256 / 256;
    if big then [b3, b2, b1, b0] else [b0, b1, b2, b3]
  }

  function Compose(b3: byte, b2: byte, b1: byte, b0: byte): uint32 {
    ((b3 * 256 + b2) * 256 + b1) * 256 + b0
  }

  function BytesWord(s: seq<byte>, big: bool): (v: uint32)
    requires |s| == 4
  {
    if big then Compose(s[0], s[1], s[2], s[3]) else Compose(s[3], s[2], s[1], s[0])
  }

  lemma WordRoundTrip(v: uint32, big: bool)
    ensures BytesWord(WordBytes(v, big), big) == v
  {
  }

  lemma ComposeDecomposes(b3: byte, b2: byte, b1: byte, b0: byte)
    ensures WordBytes(Compose(b3, b2, b1, b0), false) == [b0, b1, b2, b3]
    ensures WordBytes(Compose(b3, b2, b1, b0), true) == [b3, b2, b1, b0]
  {
    var v := Compose(b3, b2, b1, b0);
    assert v / 256 == (b3 * 256 + b2) * 256 + b1;
    assert v / 256 / 256 == b3 * 256 + b2;
  }

  lemma BytesRoundTrip(s: seq<byte>, big: bool)
    requires |s| == 4
    ensures WordBytes(BytesWord(s, big), big) == s
  {
    if big {
      ComposeDecomposes(s[0], s[1], s[2], s[3]);
    } else {
      ComposeDecomposes(s[3], s[2], s[1], s[0]);
    }
  }

  /** The first byte is the least significant, or on a big-endian machine the most. */
  lemma WordIsSum(v: uint32, big: bool)
    ensures var s := WordBytes(v, big);
      v == if big then s[3] as int + 256 * s[2] as int + 65536 * s[1] as int + 16777216 * s[0] as int
           else s[0] as int + 256 * s[1] as int + 65536 * s[2] as int + 16777216 * s[3] as int
  {
  }

  /** FILE */
  class File {
    var data: seq<byte>
    var pos: nat
    var open: bool

    constructor (data: seq<byte>)
      ensures this.data == data && pos == 0 && open
    {
      this.data, pos, open := data, 0, true;
    }

    ghost predicate Valid()
      reads this
    {
      pos <= |data|
    }

    /** fwrite, at the end of the file. */
    method Write(s: seq<byte>)
      requires pos == |data|
      modifies `data, `pos
      ensures data == old(data) + s && pos == |data|
    {
      data := data + s;
      pos := |data|;
    }

    /** fread: as many bytes as there are, but at most n. */
    method Read(n: nat) returns (s: seq<byte>)
      requires Valid()
      modifies `pos
      ensures Valid() && pos == old(pos) + |s| && s == data[old(pos)..pos]
      ensures |s| == n || (|s| < n && pos == |data|)
    {
      var end := if pos + n <= |data| then pos + n else |data|;
      s := data[pos..end];
      pos := end;
    }
  }

  /** struct XDRFile, without a memory map. */
  class Xdr {
    const encode: bool
    const ownFile: bool
    const big: bool            // the byte order of the machine
    var f: File?
    var raw: array?<byte>
    var rawlen: nat
    var rawsize: nat
    var rawlive: bool

    constructor (f: File, encode: bool, ownFile: bool, big: bool)
      requires f.Valid() && (encode ==> f.pos == |f.data|)
      ensures Valid() && this.f == f && this.encode == encode && this.ownFile == ownFile && this.big == big
      ensures raw == null && !rawlive
    {
      this.f, this.encode, this.ownFile, this.big := f, encode, ownFile, big;
      raw, rawlive, rawlen, rawsize := null, false, 0, 0;
    }

    ghost predicate Valid()
      reads this, f, raw
    {
      && rawsize == (if raw == null then 0 else raw.Length)
      && (raw != null ==> rawlen <= rawsize)
      && (f != null ==> f.Valid() && (encode ==> f.pos == |f.data|))
      && (f == null ==> raw == null)
    }

    /** What has been written, and what is in a chunk that is still to be. */
    ghost function Stream(): seq<byte>
      requires Valid() && f != null
      reads this, f, raw
    {
      f.data + if encode && rawlive && raw != null then raw[..rawlen] else []
    }

    /** xdrfile_commit_raw */
    method CommitRaw()
      requires Valid()
      modifies `rawlive, if f == null then {} else {f}
      ensures Valid() && (encode ==> !rawlive || raw == null)
      ensures f != null && encode ==> Stream() == old(Stream()) && f.open == old(f.open)
      ensures f != null && !encode ==>
        f.data == old(f.data) && f.pos == old(f.pos) && f.open == old(f.open) && rawlive == old(rawlive)
    {
      if rawlive && raw != null && encode {
        f.Write(raw[..rawlen]);
        rawlive := false;
      }
    }

    /** xdrfile_setbytes, and the end of xdrfile_set32. */
    method SetBytes(s: seq<byte>) returns (ok: bool)
      requires Valid() && encode
      modifies `rawlive, if f == null then {} else {f}
      ensures Valid() && ok == (f != null)
      ensures ok ==> Stream() == old(Stream()) + s && f.open == old(f.open)
    {
      CommitRaw();
      if f == null {
        return false;
      }
      f.Write(s);
      return true;
    }

    method Set32(v: uint32) returns (ok: bool)
      requires Valid() && encode
      modifies `rawlive, if f == null then {} else {f}
      ensures Valid() && ok == (f != null)
      ensures ok ==> Stream() == old(Stream()) + WordBytes(v, big) && f.open == old(f.open)
      ensures ok ==> |Stream()| == |old(Stream())| + 4 && var s := Stream()[|old(Stream())|..];
        v == if big then s[3] as int + 256 * s[2] as int + 65536 * s[1] as int + 16777216 * s[0] as int
             else s[0] as int + 256 * s[1] as int + 65536 * s[2] as int + 16777216 * s[3] as int
    {
      hide WordBytes;
      ok := SetBytes(WordBytes(v, big));
      WordIsSum(v, big);
      assert ok ==> Stream()[|old(Stream())|..] == WordBytes(v, big);
    }

    /** xdrfile_getbytes: all the bytes asked for, or failure at the end of the file. */
    method GetBytes(n: nat) returns (ok: bool, s: seq<byte>)
      requires Valid() && !encode
      modifies `rawlive, if f == null then {} else {f}
      ensures Valid() && (f == null ==> !ok)
      ensures f != null ==> f.data == old(f.data) && f.open == old(f.open) && ok == (old(f.pos) + n <= |f.data|)
      ensures ok ==> |s| == n && f.pos == old(f.pos) + n && s == f.data[old(f.pos)..f.pos]
    {
      s := [];
      CommitRaw();
      if f == null {
        return false, [];
      }
      s := f.Read(n);
      ok := |s| == n;
    }

    method Get32() returns (ok: bool, v: uint32)
      requires Valid() && !encode
      modifies `rawlive, if f == null then {} else {f}
      ensures Valid() && (f == null ==> !ok)
      ensures f != null ==> f.data == old(f.data) && f.open == old(f.open) && ok == (old(f.pos) + 4 <= |f.data|)
      ensures ok ==> f.pos == old(f.pos) + 4 && f.data[old(f.pos)..f.pos] == WordBytes(v, big)
      ensures ok ==> var s := f.data[old(f.pos)..f.pos];
        v == if big then s[3] as int + 256 * s[2] as int + 65536 * s[1] as int + 16777216 * s[0] as int
             else s[0] as int + 256 * s[1] as int + 65536 * s[2] as int + 16777216 * s[3] as int
    {
      hide WordBytes, BytesWord;
      var s;
      ok, s := GetBytes(4);
      v := 0;
      if ok {
        v := BytesWord(s, big);
        BytesRoundTrip(s, big);
        WordIsSum(v, big);
      }
    }

    /** The buffer for a chunk of n bytes: the one there is, if it is large enough. For a
        chunk of no bytes, there may be none. */
    method Reserve(n: nat)
      requires Valid() && f != null
      modifies `raw, `rawsize, `rawlen, `rawlive
      ensures Valid() && rawlen == n && rawlive && (raw == old(raw) || fresh(raw))
      ensures raw == null <==> n == 0 && old(raw) == null
    {
      if n > rawsize {
        raw := new byte[n];
        rawsize := n;
      }
      rawlen := n;
      rawlive := true;
    }

    method Fill(s: seq<byte>)
      requires Valid() && |s| <= rawlen && (raw == null ==> s == [])
      modifies if raw == null then {} else {raw}
      ensures Valid() && (raw != null ==> raw[..|s|] == s)
    {
      forall i | 0 <= i < |s| {
        raw[i] := s[i];
      }
    }

    /** xdrfile_raw. When encoding, the chunk is part of the stream from now on, whatever
        it comes to hold; when decoding, it holds what comes next in the file. There is
        none at the end of the file, nor if no bytes are asked for before there is a buffer. */
    method Raw(n: nat) returns (chunk: array?<byte>)
      requires Valid() && f != null
      modifies this, f, if raw == null then {} else {raw}
      ensures Valid() && f == old(f) && f.open == old(f.open) && (raw == old(raw) || fresh(raw))
      ensures chunk != null ==> chunk == raw && chunk.Length >= n
      ensures raw == null <==> n == 0 && old(raw) == null
      ensures encode ==> (chunk == null <==> n == 0 && old(raw) == null) && f.data == old(Stream())
      ensures encode ==> Stream() == old(Stream()) + if chunk == null then [] else chunk[..n]
      ensures !encode ==> f.data == old(f.data)
      ensures !encode ==> (chunk == null <==> (n == 0 && old(raw) == null) || old(f.pos) + n > |f.data|)
      ensures !encode && chunk != null ==> f.pos == old(f.pos) + n && chunk[..n] == f.data[old(f.pos)..f.pos]
    {
      CommitRaw();
      Reserve(n);
      if !encode {
        var s := f.Read(n);
        Fill(s);
        if |s| < n {
          return null;
        }
      }
      return raw;
    }

    /** xdrfile_finalize: nothing of the stream is lost. */
    method Finalize()
      requires Valid() && f != null
      modifies this, f
      ensures Valid() && f == null && raw == null
      ensures encode ==> old(f).data == old(Stream())
      ensures !encode ==> old(f).data == old(f.data)
      ensures old(f).open == (old(f.open) && !ownFile)
    {
      CommitRaw();
      if raw != null {
        raw := null;
        rawsize := 0;
      }
      if ownFile {
        f.open := false;
      }
      f := null;
    }
  }

  // -------------------------------------------------------- schedules

  /** One operation, with its payload; and without, as the decoder knows it. */
  datatype Op = Word(v: uint32) | Chunk(s: seq<byte>) | RawChunk(s: seq<byte>)
  datatype Shape = WordShape | ChunkShape(n: nat) | RawShape(n: nat)

  function OpBytes(op: Op, big: bool): seq<byte> {
    match op
    case Word(v) => WordBytes(v, big)
    case Chunk(s) => s
    case RawChunk(s) => s
  }

  function OpShape(op: Op): Shape {
    match op
    case Word(_) => WordShape
    case Chunk(s) => ChunkShape(|s|)
    case RawChunk(s) => RawShape(|s|)
  }

  function Size(shape: Shape): nat {
    match shape
    case WordShape => 4
    case ChunkShape(n) => n
    case RawShape(n) => n
  }

  function Payload(ops: seq<Op>, big: bool): (s: seq<byte>) {
    if ops == [] then [] else Payload(ops[..|ops| - 1], big) + OpBytes(ops[|ops| - 1], big)
  }

  function Shapes(ops: seq<Op>): (r: seq<Shape>)
    ensures |r| == |ops| && forall i :: 0 <= i < |ops| ==> r[i] == OpShape(ops[i])
  {
    seq(|ops|, i requires 0 <= i < |ops| => OpShape(ops[i]))
  }

  function Total(shapes: seq<Shape>): nat {
    if shapes == [] then 0 else Total(shapes[..|shapes| - 1]) + Size(shapes[|shapes| - 1])
  }

  /** A raw chunk that is not empty leaves a buffer behind. */
  predicate NeedsBuffer(shape: Shape) {
    shape.RawShape? && shape.n > 0
  }

  ghost predicate HasBuffer(shapes: seq<Shape>) {
    exists i :: 0 <= i < |shapes| && NeedsBuffer(shapes[i])
  }

  /** Every empty raw chunk comes after one that is not empty. */
  ghost predicate Proper(shapes: seq<Shape>) {
    forall i :: 0 <= i < |shapes| && shapes[i] == RawShape(0) ==> HasBuffer(shapes[..i])
  }

  lemma {:induction false} ProperNext(shapes: seq<Shape>, i: nat)
    requires i < |shapes|
    ensures HasBuffer(shapes[..i + 1]) <==> HasBuffer(shapes[..i]) || NeedsBuffer(shapes[i])
    ensures Proper(shapes[..i + 1]) <==> Proper(shapes[..i]) && (shapes[i] == RawShape(0) ==> HasBuffer(shapes[..i]))
  {
    var s, t := shapes[..i], shapes[..i + 1];
    assert t[i] == shapes[i] && t[..i] == s && forall j :: 0 <= j < i ==> t[j] == s[j] && t[..j] == s[..j];
    if HasBuffer(s) {
      var j :| 0 <= j < i && NeedsBuffer(s[j]);
      assert NeedsBuffer(t[j]);
    }
    if NeedsBuffer(shapes[i]) {
      assert NeedsBuffer(t[i]);
    }
  }

  lemma {:induction false} ProperUpTo(shapes: seq<Shape>, i: nat)
    requires i <= |shapes| && Proper(shapes)
    ensures Proper(shapes[..i])
  {
    forall j | 0 <= j < i && shapes[..i][j] == RawShape(0)
      ensures HasBuffer(shapes[..i][..j])
    {
      assert shapes[..i][..j] == shapes[..j];
    }
  }

  lemma {:induction false} PayloadSize(ops: seq<Op>, big: bool)
    ensures |Payload(ops, big)| == Total(Shapes(ops))
  {
    if ops != [] {
      PayloadSize(ops[..|ops| - 1], big);
      assert Shapes(ops)[..|ops| - 1] == Shapes(ops[..|ops| - 1]);
    }
  }

  lemma {:induction false} PayloadNext(ops: seq<Op>, op: Op, big: bool)
    ensures Payload(ops + [op], big) == Payload(ops, big) + OpBytes(op, big)
    ensures Shapes(ops + [op]) == Shapes(ops) + [OpShape(op)]
  {
    assert (ops + [op])[..|ops|] == ops;
  }

  lemma {:induction false} PayloadUpTo(ops: seq<Op>, i: int, big: bool)
    requires 0 <= i < |ops|
    ensures Payload(ops[..i + 1], big) == Payload(ops[..i], big) + OpBytes(ops[i], big)
  {
    assert ops[..i + 1][..i] == ops[..i];
  }

  lemma {:induction false} TotalUpTo(shapes: seq<Shape>, i: int)
    requires 0 <= i <= |shapes|
    ensures Total(shapes[..i]) <= Total(shapes)
    ensures i < |shapes| ==> Total(shapes[..i + 1]) == Total(shapes[..i]) + Size(shapes[i])
  {
    if i < |shapes| {
      assert shapes[..i + 1][..i] == shapes[..i];
      if i < |shapes| - 1 {
        TotalUpTo(shapes[..|shapes| - 1], i);
        assert shapes[..|shapes| - 1][..i] == shapes[..i];
      }
    } else {
      assert shapes[..i] == shapes;
    }
  }

  lemma OpIsUnique(op: Op, op': Op, big: bool)
    requires OpShape(op) == OpShape(op') && OpBytes(op, big) == OpBytes(op', big)
    ensures op == op'
  {
    if op.Word? {
      WordRoundTrip(op.v, big);
      WordRoundTrip(op'.v, big);
    }
  }

  lemma Cut(a: seq<byte>, b: seq<byte>, a': seq<byte>, b': seq<byte>)
    requires a + b == a' + b' && |a| == |a'|
    ensures a == a' && b == b'
  {
    assert a == (a + b)[..|a|] && a' == (a' + b')[..|a'|];
    assert b == (a + b)[|a|..] && b' == (a' + b')[|a'|..];
  }

  /** A schedule and a payload leave no choice as to the operations. */
  lemma {:induction false} PayloadIsUnique(ops: seq<Op>, ops': seq<Op>, big: bool)
    requires Shapes(ops) == Shapes(ops') && Payload(ops, big) == Payload(ops', big)
    ensures ops == ops'
  {
    hide Total, WordBytes, Payload;
    assert |ops| == |Shapes(ops)| == |Shapes(ops')| == |ops'|;
    if ops != [] {
      var n := |ops| - 1;
      assert ops[..n + 1] == ops && ops'[..n + 1] == ops';
      PayloadUpTo(ops, n, big);
      PayloadUpTo(ops', n, big);
      assert Shapes(ops)[n] == Shapes(ops')[n];
      assert Shapes(ops[..n]) == Shapes(ops)[..n] == Shapes(ops'[..n]);
      PayloadSize(ops[..n], big);
      PayloadSize(ops'[..n], big);
      Cut(Payload(ops[..n], big), OpBytes(ops[n], big), Payload(ops'[..n], big), OpBytes(ops'[n], big));
      OpIsUnique(ops[n], ops'[n], big);
      PayloadIsUnique(ops[..n], ops'[..n], big);
      assert ops == ops[..n] + [ops[n]] && ops' == ops'[..n] + [ops'[n]];
    }
  }

  ghost function Buffer(x: Xdr): set<object>
    reads x
  {
    if x.raw == null then {} else {x.raw}
  }

  /** A client that encodes: it fills in each raw chunk before its next operation, and
      takes it for a failure if it is not given one. */
  method EncodeOp(x: Xdr, op: Op) returns (ok: bool)
    requires x.Valid() && x.encode && x.f != null
    modifies x, x.f, Buffer(x)
    ensures x.Valid() && x.f == old(x.f) && x.f.open == old(x.f.open) && (x.raw == old(x.raw) || fresh(x.raw))
    ensures ok == (OpShape(op) == RawShape(0) ==> old(x.raw) != null)
    ensures x.raw != null <==> old(x.raw) != null || NeedsBuffer(OpShape(op))
    ensures x.Stream() == old(x.Stream()) + if ok then OpBytes(op, x.big) else []
  {
    match op
    case Word(v) =>
      ok := x.Set32(v);
    case Chunk(s) =>
      ok := x.SetBytes(s);
    case RawChunk(s) =>
      var chunk := x.Raw(|s|);
      ok := chunk != null;
      if ok {
        forall i | 0 <= i < |s| {
          chunk[i] := s[i];
        }
        assert chunk[..|s|] == s;
      }
  }

  /** A run of the encoder so far: the first i operations are in the stream. */
  ghost predicate Encoding(x: Xdr, before: seq<byte>, ops: seq<Op>, i: int)
    reads x, x.f, Buffer(x)
  {
    && 0 <= i <= |ops| && x.Valid() && x.encode && x.f != null
    && x.Stream() == before + Payload(ops[..i], x.big)
    && (x.raw != null <==> HasBuffer(Shapes(ops)[..i])) && Proper(Shapes(ops)[..i])
  }

  method EncodeNext(x: Xdr, ghost before: seq<byte>, ops: seq<Op>, i: int) returns (ok: bool)
    requires Encoding(x, before, ops, i) && i < |ops|
    modifies x, x.f, Buffer(x)
    ensures x.f == old(x.f) && x.f.open == old(x.f.open) && (x.raw == old(x.raw) || fresh(x.raw))
    ensures x.Valid() && ok == Proper(Shapes(ops)[..i + 1])
    ensures if ok then Encoding(x, before, ops, i + 1) else x.Stream() == before + Payload(ops[..i], x.big)
  {
    hide Payload, Proper, HasBuffer;
    ok := EncodeOp(x, ops[i]);
    ProperNext(Shapes(ops), i);
    PayloadUpTo(ops, i, x.big);
  }

  /** A whole run of the encoder. It gets as far as the first empty raw chunk that no other
      raw chunk comes before, and the file then is the payloads up to there, in order. */
  method EncodeAll(f: File, ownFile: bool, big: bool, ops: seq<Op>) returns (ok: bool, ghost done: nat)
    requires f.Valid() && f.pos == |f.data|
    modifies f
    ensures done <= |ops| && ok == (done == |ops|) == Proper(Shapes(ops))
    ensures !ok ==> Proper(Shapes(ops)[..done]) && !Proper(Shapes(ops)[..done + 1])
    ensures f.data == old(f.data) + Payload(ops[..done], big) && f.open == (old(f.open) && !ownFile)
  {
    hide Payload, Proper, HasBuffer;
    var x := new Xdr(f, true, ownFile, big);
    var i := 0;
    NothingEncoded(ops, big);
    assert x.Stream() == old(f.data) + Payload(ops[..0], big);
    while i < |ops|
      invariant Encoding(x, old(f.data), ops, i)
      invariant x.f == f && f.open == old(f.open) && (x.raw == null || fresh(x.raw)) && x.big == big
      invariant x.ownFile == ownFile
    {
      ok := EncodeNext(x, old(f.data), ops, i);
      if !ok {
        if Proper(Shapes(ops)) {
          ProperUpTo(Shapes(ops), i + 1);
        }
        x.Finalize();
        return false, i;
      }
      i := i + 1;
    }
    assert Shapes(ops)[..i] == Shapes(ops);
    x.Finalize();
    return true, i;
  }

  lemma {:induction false} NothingEncoded(ops: seq<Op>, big: bool)
    ensures Payload(ops[..0], big) == [] && !HasBuffer(Shapes(ops)[..0]) && Proper(Shapes(ops)[..0])
  {
  }

  /** One operation of the decoder. */
  method DecodeOp(x: Xdr, shape: Shape) returns (ok: bool, op: Op)
    requires x.Valid() && !x.encode && x.f != null
    modifies x, x.f, Buffer(x)
    ensures x.Valid() && x.f == old(x.f) && x.f.data == old(x.f.data) && (x.raw == old(x.raw) || fresh(x.raw))
    ensures x.f.open == old(x.f.open)
    ensures ok == (old(x.f.pos) + Size(shape) <= |x.f.data| && (shape == RawShape(0) ==> old(x.raw) != null))
    ensures x.raw != null <==> old(x.raw) != null || NeedsBuffer(shape)
    ensures ok ==> OpShape(op) == shape && x.f.pos == old(x.f.pos) + Size(shape)
    ensures ok ==> OpBytes(op, x.big) == x.f.data[old(x.f.pos)..x.f.pos]
  {
    op := Word(0);
    match shape
    case WordShape =>
      var v;
      ok, v := x.Get32();
      op := Word(v);
    case ChunkShape(n) =>
      var s;
      ok, s := x.GetBytes(n);
      op := Chunk(s);
    case RawShape(n) =>
      var chunk := x.Raw(n);
      ok := chunk != null;
      if ok {
        op := RawChunk(chunk[..n]);
      }
  }

  /** The decoder is at pos, having delivered ops from what follows start. */
  ghost predicate Delivered(data: seq<byte>, start: nat, pos: nat, ops: seq<Op>, shapes: seq<Shape>, big: bool) {
    && |ops| <= |shapes| && start <= pos <= |data|
    && Shapes(ops) == shapes[..|ops|] && pos == start + Total(shapes[..|ops|])
    && Payload(ops, big) == data[start..pos]
  }

  lemma {:induction false} DeliveredNext(data: seq<byte>, start: nat, pos: nat, pos': nat, ops: seq<Op>, op: Op,
      shapes: seq<Shape>, big: bool)
    requires Delivered(data, start, pos, ops, shapes, big) && |ops| < |shapes| && pos <= pos' <= |data|
    requires OpShape(op) == shapes[|ops|] && pos' == pos + Size(shapes[|ops|]) && OpBytes(op, big) == data[pos..pos']
    ensures Delivered(data, start, pos', ops + [op], shapes, big)
  {
    hide Payload, Total;
    TotalUpTo(shapes, |ops|);
    PayloadNext(ops, op, big);
    assert shapes[..|ops| + 1] == shapes[..|ops|] + [shapes[|ops|]];
    assert Payload(ops + [op], big) == data[start..pos] + data[pos..pos'] == data[start..pos'];
    assert Total(shapes[..|ops + [op]|]) == Total(shapes[..|ops|]) + Size(shapes[|ops|]);
  }

  /** Until now every operation has been delivered. */
  ghost predicate Decoding(x: Xdr, data: seq<byte>, start: nat, ops: seq<Op>, shapes: seq<Shape>)
    reads x, x.f, Buffer(x)
  {
    && x.Valid() && !x.encode && x.f != null && x.f.data == data
    && Delivered(data, start, x.f.pos, ops, shapes, x.big)
    && (x.raw != null <==> HasBuffer(shapes[..|ops|])) && Proper(shapes[..|ops|])
  }

  method DecodeNext(x: Xdr, ghost data: seq<byte>, ghost start: nat, ops: seq<Op>, shapes: seq<Shape>)
    returns (ok: bool, more: seq<Op>)
    requires Decoding(x, data, start, ops, shapes) && |ops| < |shapes|
    modifies x, x.f, Buffer(x)
    ensures x.f == old(x.f) && x.f.data == data && (x.raw == old(x.raw) || fresh(x.raw)) && x.Valid()
    ensures x.f.open == old(x.f.open)
    ensures ok == (start + Total(shapes[..|ops| + 1]) <= |data| && Proper(shapes[..|ops| + 1]))
    ensures ok ==> |more| == |ops| + 1 && Decoding(x, data, start, more, shapes)
  {
    hide Payload, Proper, HasBuffer, Total;
    ghost var pos := x.f.pos;
    TotalUpTo(shapes, |ops|);
    ProperNext(shapes, |ops|);
    var op;
    ok, op := DecodeOp(x, shapes[|ops|]);
    more := ops;
    if ok {
      DeliveredNext(data, start, pos, x.f.pos, ops, op, shapes, x.big);
      more := ops + [op];
    }
  }

  lemma {:induction false} NothingDelivered(data: seq<byte>, start: nat, shapes: seq<Shape>, big: bool)
    requires start <= |data|
    ensures Delivered(data, start, start, [], shapes, big) && !HasBuffer(shapes[..0]) && Proper(shapes[..0])
  {
  }

  /** If the schedule is too much for the file up to some point, it is too much as a whole. */
  lemma {:induction false} TooMuch(shapes: seq<Shape>, i: nat, room: int)
    requires i <= |shapes| && !(Total(shapes[..i]) <= room && Proper(shapes[..i]))
    ensures !(Total(shapes) <= room && Proper(shapes))
  {
    TotalUpTo(shapes, i);
    if Proper(shapes) {
      ProperUpTo(shapes, i);
    }
  }

  /** A whole run of the decoder: it succeeds exactly if the file holds enough, and no empty
      raw chunk comes before the others; and then what it delivers are the bytes of the
      file, in order; however it ends, the file is closed exactly if it is owned. */
  method DecodeAll(f: File, ownFile: bool, big: bool, shapes: seq<Shape>) returns (ok: bool, ops: seq<Op>)
    requires f.Valid()
    modifies f
    ensures f.data == old(f.data) && ok == (old(f.pos) + Total(shapes) <= |f.data| && Proper(shapes))
    ensures f.open == (old(f.open) && !ownFile)
    ensures ok ==> Shapes(ops) == shapes && Payload(ops, big) == f.data[old(f.pos)..old(f.pos) + Total(shapes)]
  {
    hide Payload, Proper, HasBuffer, Total, Delivered;
    var x := new Xdr(f, false, ownFile, big);
    ops := [];
    NothingDelivered(f.data, f.pos, shapes, big);
    while |ops| < |shapes|
      invariant |ops| <= |shapes| && Decoding(x, old(f.data), old(f.pos), ops, shapes)
      invariant x.f == f && (x.raw == null || fresh(x.raw)) && x.big == big && x.ownFile == ownFile
      invariant f.open == old(f.open)
      decreases |shapes| - |ops|
    {
      ghost var i := |ops| + 1;
      ok, ops := DecodeNext(x, old(f.data), old(f.pos), ops, shapes);
      if !ok {
        TooMuch(shapes, i, |f.data| - old(f.pos));
        x.Finalize();
        return;
      }
    }
    AllDelivered(f.data, old(f.pos), f.pos, ops, shapes, big);
    x.Finalize();
    ok := true;
  }

  lemma {:induction false} AllDelivered(data: seq<byte>, start: nat, pos: nat, ops: seq<Op>, shapes: seq<Shape>,
      big: bool)
    requires Delivered(data, start, pos, ops, shapes, big) && |ops| == |shapes|
    ensures shapes[..|ops|] == shapes && start + Total(shapes) <= |data|
    ensures Shapes(ops) == shapes && Payload(ops, big) == data[start..start + Total(shapes)]
  {
    assert shapes[..|ops|] == shapes;
  }

  /** What can be encoded comes back, operation by operation, to a decoder with the same
      schedule; and it can unless an empty raw chunk comes before the others. */
  method RoundTrip(ops: seq<Op>, ownFile: bool, big: bool) returns (ok: bool, ops': seq<Op>)
    ensures ok == Proper(Shapes(ops)) && (ok ==> ops' == ops)
  {
    hide Payload, Proper, Total;
    var out := new File([]);
    ghost var done;
    ok, done := EncodeAll(out, ownFile, big, ops);
    ops' := [];
    if ok {
      assert ops[..done] == ops;
      var file := new File(out.data);
      PayloadSize(ops, big);
      ok, ops' := DecodeAll(file, ownFile, big, Shapes(ops));
      PayloadIsUnique(ops, ops', big);
    }
  }

  /** An empty raw chunk at the start cannot be encoded. */
  method EmptyChunkFirst(big: bool) returns (ok: bool)
    ensures !ok
  {
    ghost var shapes := Shapes([RawChunk([])]);
    assert shapes[0] == RawShape(0) && shapes[..0] == [];
    var f := new File([]);
    ghost var done;
    ok, done := EncodeAll(f, true, big, [RawChunk([])]);
  }
}
