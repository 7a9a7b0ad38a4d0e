/** The base 64 codec of the binary module (modules/binary/base64.c:49-58, 305-460),
    against section 4 of RFC 4648. */
module Base64 {

  type byte = x: int | 0 <= x < 256

  const EOF := -1
  const NUL := '\0'

  // ------------------------------------------------- what the RFC says

  predicate IsDigit(d: int) {
    0 <= d < 64
  }

  predicate AreDigits(d: seq<int>) {
    forall i :: 0 <= i < |d| ==> IsDigit(d[i])
  }

  /** Table 1 of the RFC. */
  const UPPER := "ABCDEFGHIJKLMNOPQRSTUVWXYZ"
  const LOWER := "abcdefghijklmnopqrstuvwxyz"
  const FIGURES := "0123456789"
  const TABLE := UPPER + LOWER + FIGURES + "+/"

  /** The same, as a function. */
  function Digit(d: int): (c: char)
    requires IsDigit(d)
    ensures DigitOf(c) == d
  {
    if d < 26 then (d + 'A' as int) as char
    else if d < 52 then (d - 26 + 'a' as int) as char
    else if d < 62 then (d - 52 + '0' as int) as char
    else if d == 62 then '+'
    else '/'
  }

  lemma DigitIsUpper(d: int)
    requires 0 <= d < 26
    ensures |UPPER| == 26 && Digit(d) == UPPER[d]
  {
    hide DigitOf;
    assert UPPER[d] as int == d + 65;
  }

  lemma DigitIsLower(d: int)
    requires 0 <= d < 26
    ensures |LOWER| == 26 && Digit(26 + d) == LOWER[d]
  {
    hide DigitOf;
    assert LOWER[d] as int == d + 97;
  }

  lemma DigitIsFigure(d: int)
    requires 0 <= d < 10
    ensures |FIGURES| == 10 && Digit(52 + d) == FIGURES[d]
  {
  }

  lemma DigitIsTable(d: int)
    requires IsDigit(d)
    ensures |TABLE| == 64 && Digit(d) == TABLE[d]
  {
    hide DigitOf;
    if d < 26 {
      DigitIsUpper(d);
    } else if d < 52 {
      DigitIsLower(d - 26);
    } else if d < 62 {
      DigitIsFigure(d - 52);
    }
  }

  /** The same table, read backwards; -1 for what is not in it. */
  function DigitOf(c: char): (d: int)
    ensures d == -1 || IsDigit(d)
  {
    if 'A' <= c <= 'Z' then c as int - 'A' as int
    else if 'a' <= c <= 'z' then c as int - 'a' as int + 26
    else if '0' <= c <= '9' then c as int - '0' as int + 52
    else if c == '+' then 62
    else if c == '/' then 63
    else -1
  }

  /** A row of bytes as one number, the first the most significant; and of digits. */
  function FromBytes(x: seq<byte>): nat {
    if x == [] then 0 else FromBytes(x[..|x| - 1]) * 256 + x[|x| - 1]
  }

  function FromDigits(d: seq<int>): nat
    requires AreDigits(d)
  {
    if d == [] then 0 else FromDigits(d[..|d| - 1]) * 64 + d[|d| - 1]
  }

  /** The k last bytes of a number; and digits. */
  function ToBytes(n: nat, k: nat): (x: seq<byte>)
    ensures |x| == k
  {
    if k == 0 then [] else ToBytes(n / 256, k - 1) + [n % 256]
  }

  function ToDigits(n: nat, k: nat): (d: seq<int>)
    ensures |d| == k && AreDigits(d)
  {
    if k == 0 then [] else ToDigits(n / 64, k - 1) + [n % 64]
  }

  function Text(d: seq<int>): (s: string)
    requires AreDigits(d)
    ensures |s| == |d| && forall i :: 0 <= i < |d| ==> s[i] == Digit(d[i])
  {
    seq(|d|, i requires 0 <= i < |d| => Digit(d[i]))
  }

  /** Section 4: groups of three bytes, of 24 bits, become four digits. One or two last
      bytes are filled up with zero bits to a whole number of digits, and with padding
      to a whole group. */
  function Encoding(x: seq<byte>): (r: string) {
    if x == [] then ""
    else if |x| < 3 then Text(ToDigits(FromBytes(x + [0, 0, 0][..3 - |x|]), 4)[..|x| + 1]) + "=="[..3 - |x|]
    else Text(ToDigits(FromBytes(x[..3]), 4)) + Encoding(x[3..])
  }

  /** The whole bytes in a row of digits. */
  function Bytes(d: seq<int>): (r: seq<byte>)
    requires AreDigits(d)
  {
    if |d| < 4 then ToBytes(FromDigits(d + [0, 0, 0, 0][..4 - |d|]), 3)[..|d| * 6 / 8]
    else ToBytes(FromDigits(d[..4]), 3) + Bytes(d[4..])
  }

  /** The digits with which a text begins. */
  function Digits(s: string): (d: seq<int>)
    ensures |d| <= |s| && AreDigits(d)
  {
    if s == "" then [] else
      var v := DigitOf(s[0]);
      if v == -1 then [] else [v] + Digits(s[1..])
  }

  /** What the decoder makes of a text: the bytes of its leading digits; when padding
      follows the first digit of a group, that digit makes a byte too. */
  function Decoding(s: string): (r: seq<byte>) {
    var d := Digits(s);
    var n := |d|;
    Bytes(d) + if n < |s| && s[n] == '=' && n % 4 == 1 then [d[n - 1] * 4 % 256] else []
  }

  // ------------------------------------------------------- round trip

  function Digits4(a: byte, b: byte, c: byte): (d: seq<int>)
    ensures |d| == 4 && AreDigits(d)
  {
    [a / 4, a % 4 * 16 + b / 16, b % 16 * 4 + c / 64, c % 64]
  }

  function Bytes3(d0: int, d1: int, d2: int, d3: int): (x: seq<byte>)
    requires IsDigit(d0) && IsDigit(d1) && IsDigit(d2) && IsDigit(d3)
    ensures |x| == 3
  {
    [d0 * 4 + d1 / 16, d1 % 16 * 16 + d2 / 4, d2 % 4 * 64 + d3]
  }

  lemma {:induction false} FromBytesNext(x: seq<byte>, b: byte)
    ensures FromBytes(x + [b]) == FromBytes(x) * 256 + b
  {
    assert (x + [b])[..|x|] == x;
  }

  lemma {:induction false} FromDigitsNext(d: seq<int>, v: int)
    requires AreDigits(d) && IsDigit(v)
    ensures AreDigits(d + [v]) && FromDigits(d + [v]) == FromDigits(d) * 64 + v
  {
    assert (d + [v])[..|d|] == d;
  }

  lemma {:induction false} ToBytesNext(n: nat, b: byte, k: nat)
    ensures ToBytes(n * 256 + b, k + 1) == ToBytes(n, k) + [b]
  {
  }

  lemma {:induction false} ToDigitsNext(n: nat, v: int, k: nat)
    requires IsDigit(v)
    ensures ToDigits(n * 64 + v, k + 1) == ToDigits(n, k) + [v]
  {
  }

  lemma {:induction false} FromThreeBytes(a: byte, b: byte, c: byte)
    ensures FromBytes([a, b, c]) == (a * 256 + b) * 256 + c
  {
    FromBytesNext([], a);
    FromBytesNext([a], b);
    FromBytesNext([a, b], c);
    assert [] + [a] == [a] && [a] + [b] == [a, b] && [a, b] + [c] == [a, b, c];
  }

  lemma {:induction false} FromFourDigits(a: int, b: int, c: int, d: int)
    requires IsDigit(a) && IsDigit(b) && IsDigit(c) && IsDigit(d)
    ensures AreDigits([a, b, c, d]) && FromDigits([a, b, c, d]) == ((a * 64 + b) * 64 + c) * 64 + d
  {
    FromDigitsNext([], a);
    FromDigitsNext([a], b);
    FromDigitsNext([a, b], c);
    FromDigitsNext([a, b, c], d);
    assert [] + [a] == [a] && [a] + [b] == [a, b] && [a, b] + [c] == [a, b, c] && [a, b, c] + [d] == [a, b, c, d];
  }

  lemma {:induction false} ToFourDigits(n: nat, a: int, b: int, c: int, d: int)
    requires IsDigit(a) && IsDigit(b) && IsDigit(c) && IsDigit(d) && n == ((a * 64 + b) * 64 + c) * 64 + d
    ensures ToDigits(n, 4) == [a, b, c, d]
  {
    hide ToDigits;
    ToDigitsNext(0, a, 0);
    ToDigitsNext(a, b, 1);
    ToDigitsNext(a * 64 + b, c, 2);
    ToDigitsNext((a * 64 + b) * 64 + c, d, 3);
    assert [] + [a] + [b] + [c] + [d] == [a, b, c, d];
  }

  lemma {:induction false} ToThreeBytes(n: nat, a: byte, b: byte, c: byte)
    requires n == (a * 256 + b) * 256 + c
    ensures ToBytes(n, 3) == [a, b, c]
  {
    hide ToBytes;
    ToBytesNext(0, a, 0);
    ToBytesNext(a, b, 1);
    ToBytesNext(a * 256 + b, c, 2);
    assert [] + [a] + [b] + [c] == [a, b, c];
  }

  /** 24 bits, cut wherever three bytes or four digits begin. */
  lemma TwentyFourBits(a: int, a': int, b: int, b': int, c: int, c': int)
    ensures ((a * 4 + a') * 256 + (b * 16 + b')) * 256 + (c * 64 + c')
      == ((a * 64 + (a' * 16 + b)) * 64 + (b' * 4 + c)) * 64 + c'
  {
  }

  lemma {:induction false} CutToDigits(x: byte, y: byte, z: byte, a: int, a': int, b: int, b': int, c: int, c': int)
    requires x == a * 4 + a' && y == b * 16 + b' && z == c * 64 + c'
    requires IsDigit(a) && 0 <= a' < 4 && 0 <= b < 16 && 0 <= b' < 16 && 0 <= c < 4 && IsDigit(c')
    ensures ToDigits(FromBytes([x, y, z]), 4) == [a, a' * 16 + b, b' * 4 + c, c']
  {
    hide ToDigits, FromBytes;
    FromThreeBytes(x, y, z);
    TwentyFourBits(a, a', b, b', c, c');
    ToFourDigits(FromBytes([x, y, z]), a, a' * 16 + b, b' * 4 + c, c');
  }

  lemma {:induction false} CutToBytes(p: int, q: int, r: int, s: int, a': int, b: int, b': int, c: int)
    requires IsDigit(p) && IsDigit(q) && IsDigit(r) && IsDigit(s) && q == a' * 16 + b && r == b' * 4 + c
    requires 0 <= a' < 4 && 0 <= b < 16 && 0 <= b' < 16 && 0 <= c < 4
    ensures ToBytes(FromDigits([p, q, r, s]), 3) == [p * 4 + a', b * 16 + b', c * 64 + s]
  {
    hide ToBytes, FromDigits;
    FromFourDigits(p, q, r, s);
    TwentyFourBits(p, a', b, b', c, s);
    ToThreeBytes(FromDigits([p, q, r, s]), p * 4 + a', b * 16 + b', c * 64 + s);
  }

  lemma Cut(n: byte)
    ensures n == n / 4 * 4 + n % 4 && 0 <= n / 4 < 64 && 0 <= n % 4 < 4 && (n < 64 ==> n / 4 < 16)
    ensures n == n / 16 * 16 + n % 16 && 0 <= n / 16 < 16 && 0 <= n % 16 < 16 && (n < 64 ==> n / 16 < 4)
    ensures n == n / 64 * 64 + n % 64 && 0 <= n / 64 < 4 && 0 <= n % 64 < 64
  {
  }

  /** Regrouping 24 bits, from eights into sixes and back, in closed form. */
  lemma {:induction false} GroupToDigits(a: byte, b: byte, c: byte)
    ensures ToDigits(FromBytes([a, b, c]), 4) == Digits4(a, b, c)
  {
    hide ToDigits, FromBytes;
    Cut(a);
    Cut(b);
    Cut(c);
    CutToDigits(a, b, c, a / 4, a % 4, b / 16, b % 16, c / 64, c % 64);
  }

  lemma {:induction false} GroupToBytes(d0: int, d1: int, d2: int, d3: int)
    requires IsDigit(d0) && IsDigit(d1) && IsDigit(d2) && IsDigit(d3)
    ensures ToBytes(FromDigits([d0, d1, d2, d3]), 3) == Bytes3(d0, d1, d2, d3)
  {
    hide ToBytes, FromDigits;
    Cut(d1);
    Cut(d2);
    CutToBytes(d0, d1, d2, d3, d1 / 16, d1 % 16, d2 / 4, d2 % 4);
  }

  /** s, filled up with zeros. */
  function At(s: seq<int>, i: nat): int {
    if i < |s| then s[i] else 0
  }

  /** The four digits for one to three bytes. */
  function DigitsFor(x: seq<byte>): (d: seq<int>)
    requires |x| <= 3
    ensures |d| == 4 && AreDigits(d)
  {
    Digits4(At(x, 0), At(x, 1), At(x, 2))
  }

  /** The three bytes for up to four digits. */
  function BytesFor(d: seq<int>): (x: seq<byte>)
    requires AreDigits(d) && |d| <= 4
    ensures |x| == 3
  {
    Bytes3(At(d, 0), At(d, 1), At(d, 2), At(d, 3))
  }

  lemma FilledTo3(x: seq<byte>)
    requires |x| <= 3
    ensures |x| == 3 ==> x[..3] == [At(x, 0), At(x, 1), At(x, 2)] && x[3..] == []
    ensures |x| < 3 ==> x + [0, 0, 0][..3 - |x|] == [At(x, 0), At(x, 1), At(x, 2)]
  {
  }

  lemma FilledTo4(d: seq<int>)
    requires |d| <= 4
    ensures |d| == 4 ==> d[..4] == [At(d, 0), At(d, 1), At(d, 2), At(d, 3)] && d[4..] == []
    ensures |d| < 4 ==> d + [0, 0, 0, 0][..4 - |d|] == [At(d, 0), At(d, 1), At(d, 2), At(d, 3)]
  {
  }

  lemma {:induction false} ShortEncoding(x: seq<byte>)
    requires 1 <= |x| <= 3
    ensures Encoding(x) == Text(DigitsFor(x)[..|x| + 1]) + "=="[..3 - |x|]
  {
    FilledTo3(x);
    GroupToDigits(At(x, 0), At(x, 1), At(x, 2));
    assert |x| == 3 ==> DigitsFor(x)[..4] == DigitsFor(x);
  }

  lemma {:induction false} ShortBytes(d: seq<int>)
    requires AreDigits(d) && |d| <= 4
    ensures Bytes(d) == BytesFor(d)[..|d| * 6 / 8]
  {
    FilledTo4(d);
    GroupToBytes(At(d, 0), At(d, 1), At(d, 2), At(d, 3));
    EmptyBytes([]);
  }

  lemma {:induction false} EmptyBytes(d: seq<int>)
    requires d == []
    ensures Bytes(d) == []
  {
  }

  lemma RegroupingIsExact(x: seq<byte>)
    requires 1 <= |x| <= 3
    ensures BytesFor(DigitsFor(x)[..|x| + 1])[..|x|] == x
  {
  }

  lemma {:induction false} DigitsOfText(t: seq<int>, s: string)
    requires AreDigits(t)
    ensures Digits(Text(t) + s) == t + Digits(s)
  {
    hide Digit, DigitOf, Text;
    if t == [] {
      assert Text(t) + s == s;
    } else {
      DigitsOfText(t[1..], s);
      assert (Text(t) + s)[0] == Digit(t[0]) && (Text(t) + s)[1..] == Text(t[1..]) + s;
    }
  }

  lemma {:induction false} PadEnds(s: string)
    requires s == "" || s[0] == '='
    ensures Digits(s) == []
  {
  }

  lemma {:induction false} EncodingOfFirst(x: seq<byte>)
    requires |x| >= 3
    ensures Encoding(x) == Encoding(x[..3]) + Encoding(x[3..])
  {
    assert x[..3][..3] == x[..3] && x[..3][3..] == [];
  }

  lemma {:induction false} BytesOfFirst(d: seq<int>, rest: seq<int>)
    requires AreDigits(d) && AreDigits(rest) && |d| == 4
    ensures AreDigits(d + rest) && Bytes(d + rest) == Bytes(d) + Bytes(rest)
  {
    assert (d + rest)[..4] == d && (d + rest)[4..] == rest && d[..4] == d && d[4..] == [];
    EmptyBytes([]);
  }

  lemma {:induction false} ShortRoundTrip(x: seq<byte>)
    requires 1 <= |x| <= 3
    ensures Digits(Encoding(x)) == DigitsFor(x)[..|x| + 1] && Bytes(DigitsFor(x)[..|x| + 1]) == x
  {
    ShortEncoding(x);
    DigitsOfText(DigitsFor(x)[..|x| + 1], "=="[..3 - |x|]);
    PadEnds("=="[..3 - |x|]);
    ShortBytes(DigitsFor(x)[..|x| + 1]);
    RegroupingIsExact(x);
  }

  lemma FourMore(k: nat)
    ensures (4 + k) % 4 == k % 4
  {
  }

  /** How many digits n bytes take. */
  function DigitCount(n: nat): (k: nat)
    ensures k % 4 != 1
  {
    if n == 0 then 0
    else if n < 3 then n + 1
    else
      var k := DigitCount(n - 3);
      FourMore(k);
      4 + k
  }

  lemma {:induction false} LongRoundTrip(x: seq<byte>)
    requires |x| >= 3
    ensures var d := Digits(Encoding(x[3..]));
      |Digits(Encoding(x))| == 4 + |d| && Bytes(Digits(Encoding(x))) == x[..3] + Bytes(d)
  {
    var d, rest := DigitsFor(x[..3]), Encoding(x[3..]);
    EncodingOfFirst(x);
    ShortEncoding(x[..3]);
    ShortRoundTrip(x[..3]);
    assert d[..4] == d;
    assert Encoding(x) == Text(d) + rest;
    DigitsOfText(d, rest);
    BytesOfFirst(d, Digits(rest));
  }

  /** The digits of an encoding are enough for exactly the bytes encoded. */
  lemma {:induction false} EncodingDecodes(x: seq<byte>)
    ensures |Digits(Encoding(x))| == DigitCount(|x|) && Bytes(Digits(Encoding(x))) == x
  {
    if x == [] {
      EmptyBytes([]);
    } else if |x| < 3 {
      ShortRoundTrip(x);
    } else {
      EncodingDecodes(x[3..]);
      LongRoundTrip(x);
      assert x == x[..3] + x[3..];
    }
  }

  /** Decoding an encoding gives back the bytes. */
  lemma {:induction false} RoundTrip(x: seq<byte>)
    ensures Decoding(Encoding(x)) == x
  {
    EncodingDecodes(x);
  }

  lemma {:induction false} EncodingLength(x: seq<byte>)
    ensures |Encoding(x)| == (|x| + 2) / 3 * 4
  {
    if |x| >= 3 {
      EncodingLength(x[3..]);
    }
  }

  // ------------------------------------------------------------ the code

  function Run(first: char, n: nat): (r: string)
    requires first as int + n < 128
    ensures |r| == n && forall i :: 0 <= i < n ==> r[i] as int == first as int + i
  {
    seq(n, i requires 0 <= i < n => (first as int + i) as char)
  }

  /** B64_ALPHABET: the 64 digits, and the padding character after them. */
  const ALPHABET: string := Run('A', 26) + Run('a', 26) + Run('0', 10) + "+/="

  /** strchr: where c is first found in s, or -1. */
  function Strchr(s: string, c: char): (r: int)
    ensures -1 <= r < |s|
    ensures r == -1 ==> c !in s
    ensures r != -1 ==> s[r] == c && forall i :: 0 <= i < r ==> s[i] != c
  {
    if s == "" then -1
    else if s[0] == c then 0
    else
      var r := Strchr(s[1..], c);
      if r == -1 then -1 else r + 1
  }

  lemma AlphabetIsTable(d: int)
    requires IsDigit(d)
    ensures ALPHABET[d] == Digit(d)
  {
  }

  lemma {:induction false} StrchrReadsTable(c: char)
    ensures c == '=' ==> Strchr(ALPHABET, c) == 64
    ensures c != '=' ==> Strchr(ALPHABET, c) == DigitOf(c)
  {
    var r, d := Strchr(ALPHABET, c), DigitOf(c);
    if IsDigit(r) {
      AlphabetIsTable(r);
    }
    if IsDigit(d) {
      AlphabetIsTable(d);
    }
  }

  // Shifts and masks of bytes, as arithmetic.

  lemma OrIsPlus(x: bv8, y: bv8)
    requires (x & 3 == 0 && y < 4) || (x & 15 == 0 && y < 16) || (x & 63 == 0 && y < 64)
    ensures (x | y) as int == x as int + y as int
  {
  }

  lemma RightBy2(a: bv8)
    ensures (a >> 2) as int == a as int / 4
  {
  }

  lemma RightBy4(a: bv8)
    ensures (a >> 4) as int == a as int / 16
  {
  }

  lemma RightBy6(a: bv8)
    ensures (a >> 6) as int == a as int / 64
  {
  }

  lemma Low2(a: bv8)
    ensures (a & 3) as int == a as int % 4
  {
  }

  lemma Low4(a: bv8)
    ensures (a & 15) as int == a as int % 16
  {
  }

  lemma Low6(a: bv8)
    ensures (a & 63) as int == a as int % 64
  {
  }

  lemma Times4(a: bv8)
    requires a < 64
    ensures (a << 2) as int == a as int * 4
  {
  }

  lemma Times16(a: bv8)
    requires a < 16
    ensures (a << 4) as int == a as int * 16
  {
  }

  lemma Times64(a: bv8)
    requires a < 4
    ensures (a << 6) as int == a as int * 64
  {
  }

  lemma LeftBy2(a: bv8)
    ensures (a << 2) as int == a as int % 64 * 4
  {
    Low6(a);
    Times4(a & 63);
    assert a << 2 == (a & 63) << 2;
  }

  lemma LeftBy4(a: bv8)
    ensures (a << 4) as int == a as int % 16 * 16
  {
    Low4(a);
    Times16(a & 15);
    assert a << 4 == (a & 15) << 4;
  }

  lemma LeftBy6(a: bv8)
    ensures (a << 6) as int == a as int % 4 * 64
  {
    Low2(a);
    Times64(a & 3);
    assert a << 6 == (a & 3) << 6;
  }

  /** B64_ALPHABET[bits] */
  method Lookup(bits: bv8) returns (c: char)
    requires bits as int < 64
    ensures c == Digit(bits as int)
  {
    AlphabetIsTable(bits as int);
    c := ALPHABET[bits as int];
  }

  lemma ByteIsBits(a: byte)
    ensures a as bv8 as int == a
  {
    assert a % 256 == a;
  }

  method Bits(a: byte) returns (v: bv8)
    ensures v as int == a
  {
    ByteIsBits(a);
    v := a as bv8;
  }

  method FirstDigit(a: byte) returns (d: char)
    ensures d == Digit(a / 4)
  {
    var v := Bits(a);
    RightBy2(v);
    d := Lookup(v >> 2);
  }

  method SecondDigit(a: byte, b: byte) returns (d: char)
    ensures d == Digit(a % 4 * 16 + b / 16)
  {
    var v, w;
    v := Bits(a);
    w := Bits(b);
    Low2(v);
    Times16(v & 3);
    RightBy4(w);
    OrIsPlus((v & 3) << 4, w >> 4);
    d := Lookup(((v & 3) << 4) | (w >> 4));
  }

  method ThirdDigit(b: byte, c: byte) returns (d: char)
    ensures d == Digit(b % 16 * 4 + c / 64)
  {
    var v, w;
    v := Bits(b);
    w := Bits(c);
    Low4(v);
    Times4(v & 15);
    RightBy6(w);
    OrIsPlus((v & 15) << 2, w >> 6);
    d := Lookup(((v & 15) << 2) | (w >> 6));
  }

  method FourthDigit(c: byte) returns (d: char)
    ensures d == Digit(c % 64)
  {
    var v := Bits(c);
    Low6(v);
    d := Lookup(v & 63);
  }

  lemma DigitsForFew(a: byte, b: byte, c: byte)
    ensures DigitsFor([a])[..2] == [a / 4, a % 4 * 16]
    ensures DigitsFor([a, b])[..3] == [a / 4, a % 4 * 16 + b / 16, b % 16 * 4]
    ensures DigitsFor([a, b, c])[..4] == [a / 4, a % 4 * 16 + b / 16, b % 16 * 4 + c / 64, c % 64]
  {
  }

  lemma {:induction false} EncodingOf1(a: byte)
    ensures Encoding([a]) == [Digit(a / 4), Digit(a % 4 * 16), '=', '=']
  {
    hide Encoding, Digit, DigitsFor;
    ShortEncoding([a]);
    DigitsForFew(a, 0, 0);
  }

  lemma {:induction false} EncodingOf2(a: byte, b: byte)
    ensures Encoding([a, b]) == [Digit(a / 4), Digit(a % 4 * 16 + b / 16), Digit(b % 16 * 4), '=']
  {
    hide Encoding, Digit, DigitsFor;
    ShortEncoding([a, b]);
    DigitsForFew(a, b, 0);
  }

  lemma {:induction false} EncodingOf3(a: byte, b: byte, c: byte)
    ensures Encoding([a, b, c]) ==
      [Digit(a / 4), Digit(a % 4 * 16 + b / 16), Digit(b % 16 * 4 + c / 64), Digit(c % 64)]
  {
    hide Encoding, Digit, DigitsFor;
    ShortEncoding([a, b, c]);
    DigitsForFew(a, b, c);
  }

  lemma {:induction false} NothingToEncode(x: seq<byte>)
    ensures x == [] ==> Encoding(x) == ""
  {
  }

  lemma TestDigits()
    ensures Digit(25) == 'Z' && Digit(32) == 'g' && Digit(38) == 'm' && Digit(60) == '8' && Digit(61) == '9'
    ensures Digit(47) == 'v' && Digit(24) == 'Y' && Digit(5) == 'F' && Digit(50) == 'y' && Digit(62) == '+'
    ensures Digit(63) == '/'
  {
  }

  /** Test vectors of section 10 of the RFC, for "f", "fo" and "foo". */
  lemma {:induction false} TestVectors()
    ensures Encoding([102]) == "Zg==" && Encoding([102, 111]) == "Zm8=" && Encoding([102, 111, 111]) == "Zm9v"
  {
    hide Encoding, Digit;
    TestDigits();
    EncodingOf1(102);
    EncodingOf2(102, 111);
    EncodingOf3(102, 111, 111);
  }

  /** And for "foobar". */
  lemma {:induction false} LongTestVector()
    ensures Encoding([102, 111, 111, 98, 97, 114]) == "Zm9vYmFy"
  {
    hide Encoding, Digit;
    var x: seq<byte> := [102, 111, 111, 98, 97, 114];
    assert x[..3] == [102, 111, 111] && x[3..] == [98, 97, 114];
    EncodingOfFirst(x);
    TestVectors();
    TestDigits();
    EncodingOf3(98, 97, 114);
    assert Encoding([98, 97, 114]) == "YmFy";
  }

  lemma {:induction false} LastTwoDigits()
    ensures Encoding([0xfb, 0xff]) == "+/8="
  {
    hide Encoding, Digit;
    TestDigits();
    EncodingOf2(0xfb, 0xff);
  }

  /** b64_encode_3bytes: up to three bytes; EOF stands where there is none. */
  method Encode3Bytes(c: array<int>) returns (enc: string)
    requires c.Length == 3 && 0 <= c[0] < 256 && EOF <= c[1] < 256 && EOF <= c[2] < 256
    ensures |enc| == 4
    ensures c[1] != EOF && c[2] != EOF ==> enc == Encoding([c[0], c[1], c[2]])
    ensures c[1] != EOF && c[2] == EOF ==> enc == Encoding([c[0], c[1]])
    ensures c[1] == EOF ==> enc == Encoding([c[0]])
  {
    hide Encoding, Digit;
    var d0 := FirstDigit(c[0]);
    if c[1] == EOF {
      EncodingOf1(c[0]);
      var d1 := SecondDigit(c[0], 0);
      return [d0, d1, '=', '='];
    }
    var d1 := SecondDigit(c[0], c[1]);
    if c[2] == EOF {
      EncodingOf2(c[0], c[1]);
      var d2 := ThirdDigit(c[1], 0);
      return [d0, d1, d2, '='];
    }
    EncodingOf3(c[0], c[1], c[2]);
    var d2 := ThirdDigit(c[1], c[2]);
    var d3 := FourthDigit(c[2]);
    return [d0, d1, d2, d3];
  }

  lemma {:induction false} FirstAndRest(x: seq<byte>, y: seq<byte>)
    requires |x| >= 3
    ensures Encoding(x + y) == Encoding(x[..3]) + Encoding(x[3..] + y)
  {
    EncodingOfFirst(x + y);
    assert (x + y)[..3] == x[..3] && (x + y)[3..] == x[3..] + y;
  }

  lemma Regrouped(r: string, s: string, t: string)
    ensures r + (s + t) == r + s + t
  {
  }

  lemma {:induction false} EncodingOfGroups(x: seq<byte>, y: seq<byte>, g: nat)
    requires |x| == 3 * g
    ensures Encoding(x + y) == Encoding(x) + Encoding(y)
  {
    if g == 0 {
      assert x + y == y;
    } else {
      FirstAndRest(x, y);
      EncodingOfFirst(x);
      EncodingOfGroups(x[3..], y, g - 1);
      Regrouped(Encoding(x[..3]), Encoding(x[3..]), Encoding(y));
    }
  }

  /** memcpy(out + at, enc, 4) */
  method Put(out: array<char>, at: nat, enc: string)
    requires |enc| == 4 && at + 4 <= out.Length
    modifies out
    ensures out[..at + 4] == old(out[..at]) + enc
    ensures forall i :: at + 4 <= i < out.Length ==> out[i] == old(out[i])
  {
    out[at], out[at + 1], out[at + 2], out[at + 3] := enc[0], enc[1], enc[2], enc[3];
  }

  /** The first g groups are in out, and the k bytes after them in c. */
  ghost predicate Buffered(x: seq<byte>, g: nat, k: nat, c: array<int>, written: string)
    reads c
  {
    && c.Length == 3 && k <= 3 && 3 * g + k <= |x|
    && (forall j :: 0 <= j < k ==> c[j] == x[3 * g + j])
    && |written| == 4 * g && written == Encoding(x[..3 * g])
  }

  lemma {:induction false} GroupWritten(x: seq<byte>, g: nat, c: array<int>, written: string, enc: string)
    requires Buffered(x, g, 3, c, written) && enc == Encoding([c[0], c[1], c[2]]) && |enc| == 4
    ensures Buffered(x, g + 1, 0, c, written + enc)
  {
    assert x[..3 * (g + 1)] == x[..3 * g] + [c[0], c[1], c[2]];
    EncodingOfGroups(x[..3 * g], [c[0], c[1], c[2]], g);
  }

  method Flush(c: array<int>, out: array<char>, outLen: nat, ghost x: seq<byte>, ghost g: nat)
    requires outLen == 4 * g && outLen + 4 <= out.Length && Buffered(x, g, 3, c, out[..outLen])
    modifies out
    ensures Buffered(x, g + 1, 0, c, out[..outLen + 4])
    ensures forall i :: outLen + 4 <= i < out.Length ==> out[i] == old(out[i])
  {
    var enc := Encode3Bytes(c);
    GroupWritten(x, g, c, out[..outLen], enc);
    Put(out, outLen, enc);
  }

  lemma PlaceInGroup(i: nat, g: nat)
    requires 3 * g <= i < 3 * g + 3
    ensures i % 3 == i - 3 * g
  {
  }

  /** c[i % 3] = in[i] */
  method Take(c: array<int>, i: nat, b: byte, ghost x: seq<byte>, ghost g: nat, ghost written: string)
    requires 3 * g <= i < 3 * g + 3 && i < |x| && b == x[i] && Buffered(x, g, i - 3 * g, c, written)
    modifies c
    ensures Buffered(x, g, i + 1 - 3 * g, c, written)
  {
    PlaceInGroup(i, g);
    c[i % 3] := b;
  }

  lemma {:induction false} NothingBuffered(x: seq<byte>, c: array<int>)
    requires c.Length == 3
    ensures Buffered(x, 0, 0, c, "")
  {
  }

  lemma GroupIsFull(i: nat, g: nat)
    requires 3 * g <= i <= 3 * g + 3 && (i == 0 || 3 * g < i)
    ensures i != 0 && i % 3 == 0 <==> i == 3 * g + 3
  {
  }

  lemma RoomForGroup(n: nat, g: nat, size: nat)
    requires 3 * g < n && size >= (n + 2) / 3 * 4 + 1
    ensures 4 * g + 4 < size
  {
  }

  /** The loop of binary_to_b64. A group is written when the byte after it comes in, so
      at the end the last one to three bytes are still in c. */
  method EncodeGroups(data: array<byte>, out: array<char>) returns (outLen: nat, c: array<int>, ghost g: nat)
    requires data.Length > 0 && out.Length >= (data.Length + 2) / 3 * 4 + 1
    modifies out
    ensures fresh(c) && outLen == 4 * g && 3 * g < data.Length <= 3 * g + 3 && outLen + 4 < out.Length
    ensures Buffered(data[..], g, data.Length - 3 * g, c, out[..outLen])
    ensures forall i :: outLen <= i < out.Length ==> out[i] == old(out[i])
  {
    hide Encoding, Buffered;
    outLen, g := 0, 0;
    c := new int[3];
    ghost var x := data[..];
    NothingBuffered(x, c);
    for i := 0 to data.Length
      invariant outLen == 4 * g && 3 * g <= i <= 3 * g + 3 && (i == 0 || 3 * g < i)
      invariant Buffered(x, g, i - 3 * g, c, out[..outLen])
      invariant x == data[..] && forall j :: outLen <= j < out.Length ==> out[j] == old(out[j])
    {
      GroupIsFull(i, g);
      if i != 0 && i % 3 == 0 {
        RoomForGroup(data.Length, g, out.Length);
        Flush(c, out, outLen, x, g);
        outLen := outLen + 4;
        g := g + 1;
      }
      Take(c, i, data[i], x, g, out[..outLen]);
    }
    RoomForGroup(data.Length, g, out.Length);
  }

  lemma {:induction false} FullGroup(a: byte, b: byte, c: byte)
    ensures Encoding([a, b, c]) == Text(Digits4(a, b, c))
  {
    ShortEncoding([a, b, c]);
    assert Digits4(a, b, c)[..4] == Digits4(a, b, c);
  }

  /** The first switch of binary_to_b64: the last group is filled up with zeros, and written. */
  method WriteLast(c: array<int>, k: nat, out: array<char>, outLen: nat)
    requires c.Length == 3 && 1 <= k <= 3 && outLen + 4 < out.Length
    requires forall j :: 0 <= j < k ==> 0 <= c[j] < 256
    modifies c, out
    ensures out[..outLen + 4] == old(out[..outLen])
      + Text(Digits4(old(c[0]), if k > 1 then old(c[1]) else 0, if k > 2 then old(c[2]) else 0))
    ensures forall i :: outLen + 4 <= i < out.Length ==> out[i] == old(out[i])
  {
    if k == 1 {
      c[1] := 0;
    }
    if k < 3 {
      c[2] := 0;
    }
    FullGroup(c[0], c[1], c[2]);
    var enc := Encode3Bytes(c);
    Put(out, outLen, enc);
  }

  /** The second switch: padding goes over what zeros have produced. */
  method PadLast(k: nat, out: array<char>, outLen: nat)
    requires 1 <= k <= 3 && outLen + 4 < out.Length
    modifies out
    ensures out[..outLen + 4] == old(out[..outLen + k + 1]) + "=="[..3 - k] && out[outLen + 4] == NUL
    ensures forall i :: outLen + 5 <= i < out.Length ==> out[i] == old(out[i])
  {
    if k == 1 {
      out[outLen + 2] := '=';
    }
    if k < 3 {
      out[outLen + 3] := '=';
    }
    out[outLen + 4] := NUL;
  }

  lemma TextOfFirst(d: seq<int>, k: nat)
    requires AreDigits(d) && k <= |d|
    ensures Text(d[..k]) == Text(d)[..k]
  {
  }

  /** Zero bytes give the same digits as no bytes, where no padding is due. */
  lemma {:induction false} LastGroup(x: seq<byte>)
    requires 1 <= |x| <= 3
    ensures Text(DigitsFor(x))[..|x| + 1] + "=="[..3 - |x|] == Encoding(x)
  {
    ShortEncoding(x);
    TextOfFirst(DigitsFor(x), |x| + 1);
  }

  /** The end of binary_to_b64, for the k bytes that are left. */
  method Finish(c: array<int>, k: nat, out: array<char>, outLen: nat, ghost last: seq<byte>)
    requires c.Length == 3 && 1 <= k <= 3 && outLen + 4 < out.Length
    requires |last| == k && forall j :: 0 <= j < k ==> c[j] == last[j]
    modifies c, out
    ensures out[..outLen + 4] == old(out[..outLen]) + Encoding(last) && out[outLen + 4] == NUL
    ensures forall i :: outLen + 5 <= i < out.Length ==> out[i] == old(out[i])
  {
    ghost var head, z := out[..outLen], Text(DigitsFor(last));
    WriteLast(c, k, out, outLen);
    LastGroup(last);
    assert out[..outLen + 4] == head + z;
    assert out[..outLen + k + 1] == head + z[..k + 1];
    PadLast(k, out, outLen);
    Regrouped(head, z[..k + 1], "=="[..3 - k]);
  }

  lemma {:induction false} GroupsAndRest(x: seq<byte>, g: nat)
    requires 3 * g <= |x|
    ensures Encoding(x) == Encoding(x[..3 * g]) + Encoding(x[3 * g..])
  {
    EncodingOfGroups(x[..3 * g], x[3 * g..], g);
    assert x == x[..3 * g] + x[3 * g..];
  }

  /** Where the terminating NUL goes. */
  function EncodedLength(n: nat): nat {
    (n + 2) / 3 * 4
  }

  lemma LastGroupSize(n: nat, g: nat)
    requires 3 * g < n <= 3 * g + 3
    ensures (if n % 3 == 0 then 3 else n % 3) == n - 3 * g && EncodedLength(n) == 4 * g + 4
  {
  }

  /** What binary_to_b64 returns, or that it has written through a null pointer. Given no
      bytes, it encodes a group that nobody has written, and stores it beyond the bounds
      that the caller is told to provide; outLen is what it returns if it gets there. */
  datatype Written = Written(outLen: nat) | Undefined(outLen: nat) | NullDereference

  /** What is returned for n bytes: the padding is not counted, nor is a last group that
      has none. */
  function Returned(n: nat): int {
    EncodedLength(n) - if n % 3 == 0 then 4 else 3 - n % 3
  }

  /** binary_to_b64: the encoding of the data, and a NUL, within the bounds the caller
      is told to provide. Without a buffer it fails where the NUL should go. */
  method BinaryToB64(data: array<byte>, out: array?<char>) returns (r: Written)
    requires out != null ==> out.Length >= EncodedLength(data.Length) + 1
    modifies if out == null then {} else {out}
    ensures r.NullDereference? <==> out == null
    ensures r.Undefined? <==> out != null && data.Length == 0
    ensures r.Undefined? ==> r.outLen == 0
    ensures r.Written? ==> r.outLen == Returned(data.Length)
    ensures var n := EncodedLength(data.Length);
      r.Written? ==>
        out[..n] == Encoding(data[..]) && out[n] == NUL && forall i :: n < i < out.Length ==> out[i] == old(out[i])
  {
    hide Encoding;
    if out == null {
      return NullDereference;
    }
    if data.Length == 0 {
      return Undefined(0);
    }
    var outLen, c;
    ghost var g;
    outLen, c, g := EncodeGroups(data, out);
    ghost var x := data[..];
    var k := if data.Length % 3 == 0 then 3 else data.Length % 3;
    LastGroupSize(data.Length, g);
    GroupsAndRest(x, g);
    Finish(c, k, out, outLen, x[3 * g..]);
    r := Written(if k == 3 then outLen else outLen + k + 1);
  }

  lemma NeverReturned(n: nat)
    ensures n > 0 ==> Returned(n) < EncodedLength(n)
  {
  }

  /** The documentation has it return the number of bytes written, or that would have been
      written. It never does, whether or not the NUL is counted, unless there are none to
      encode. */
  method NeverTheLength(data: array<byte>, out: array?<char>) returns (r: Written)
    requires out != null ==> out.Length >= EncodedLength(data.Length) + 1
    modifies if out == null then {} else {out}
    ensures r.Written? ==> r.outLen < |Encoding(data[..])|
    ensures !r.NullDereference? ==> (r.outLen == |Encoding(data[..])| <==> data.Length == 0)
  {
    hide Encoding;
    EncodingLength(data[..]);
    NeverReturned(data.Length);
    r := BinaryToB64(data, out);
  }

  // ---------------------------------------------------------- decoding

  /** What the digit at the end of d adds: the bits that did not fit in the last byte. */
  function Leftover(d: seq<int>): (b: byte)
    requires AreDigits(d) && |d| % 4 != 0
  {
    var v := d[|d| - 1];
    if |d| % 4 == 1 then v * 4 else if |d| % 4 == 2 then v % 16 * 16 else v % 4 * 64
  }

  /** The byte that one more digit completes. */
  function Completed(d: seq<int>, v: int): (b: byte)
    requires AreDigits(d) && |d| % 4 != 0 && IsDigit(v)
  {
    Leftover(d) + if |d| % 4 == 1 then v / 16 else if |d| % 4 == 2 then v / 4 else v
  }

  lemma FirstBytes(d: seq<int>)
    requires AreDigits(d) && |d| <= 4
    ensures |d| > 1 ==> BytesFor(d)[..1] == [d[0] * 4 + d[1] / 16]
    ensures |d| > 2 ==> BytesFor(d)[..2] == [d[0] * 4 + d[1] / 16, d[1] % 16 * 16 + d[2] / 4]
    ensures |d| > 3 ==>
      BytesFor(d)[..3] == [d[0] * 4 + d[1] / 16, d[1] % 16 * 16 + d[2] / 4, d[2] % 4 * 64 + d[3]]
  {
  }

  lemma CompletedIs(d: seq<int>, v: int)
    requires AreDigits(d) && IsDigit(v) && 1 <= |d| < 4
    ensures |d| == 1 ==> Completed(d, v) == d[0] * 4 + v / 16
    ensures |d| == 2 ==> Completed(d, v) == d[1] % 16 * 16 + v / 4
    ensures |d| == 3 ==> Completed(d, v) == d[2] % 4 * 64 + v
  {
  }

  lemma BytesForNext(d: seq<int>, e: seq<int>, v: int)
    requires AreDigits(d) && IsDigit(v) && |d| < 4 && e == d + [v]
    ensures AreDigits(e)
    ensures |d| == 0 ==> BytesFor(e)[..0] == BytesFor(d)[..0]
    ensures |d| == 1 ==> BytesFor(e)[..1] == BytesFor(d)[..0] + [Completed(d, v)]
    ensures |d| == 2 ==> BytesFor(e)[..2] == BytesFor(d)[..1] + [Completed(d, v)]
    ensures |d| == 3 ==> BytesFor(e)[..3] == BytesFor(d)[..2] + [Completed(d, v)]
  {
    hide BytesFor, Completed;
    FirstBytes(d);
    FirstBytes(e);
    if d != [] {
      CompletedIs(d, v);
    }
  }

  lemma {:induction false} ShortBytesNext(d: seq<int>, v: int)
    requires AreDigits(d) && IsDigit(v) && |d| < 4
    ensures AreDigits(d + [v])
    ensures |d| == 0 ==> Bytes(d + [v]) == Bytes(d)
    ensures |d| != 0 ==> Bytes(d + [v]) == Bytes(d) + [Completed(d, v)]
  {
    var e := d + [v];
    BytesForNext(d, e, v);
    ShortBytes(d);
    ShortBytes(e);
    if |d| == 0 {
      assert Bytes(e) == BytesFor(e)[..0] && Bytes(d) == BytesFor(d)[..0];
    } else if |d| == 1 {
      assert Bytes(e) == BytesFor(e)[..1] && Bytes(d) == BytesFor(d)[..0];
    } else if |d| == 2 {
      assert Bytes(e) == BytesFor(e)[..2] && Bytes(d) == BytesFor(d)[..1];
    } else {
      assert Bytes(e) == BytesFor(e)[..3] && Bytes(d) == BytesFor(d)[..2];
    }
  }

  lemma SamePlace(n: nat)
    requires n >= 4
    ensures (n - 4) % 4 == n % 4
  {
  }

  lemma CompletedInGroup(d: seq<int>, v: int)
    requires AreDigits(d) && IsDigit(v) && |d| > 4
    ensures |d[4..]| % 4 == |d| % 4
    ensures |d| % 4 != 0 ==> Completed(d[4..], v) == Completed(d, v)
  {
    SamePlace(|d|);
    assert d[4..][|d| - 5] == d[|d| - 1];
  }

  lemma {:induction false} BytesNext(d: seq<int>, v: int)
    requires AreDigits(d) && IsDigit(v)
    ensures AreDigits(d + [v])
    ensures |d| % 4 == 0 ==> Bytes(d + [v]) == Bytes(d)
    ensures |d| % 4 != 0 ==> Bytes(d + [v]) == Bytes(d) + [Completed(d, v)]
  {
    hide Completed, Leftover, Bytes;
    if |d| < 4 {
      ShortBytesNext(d, v);
    } else {
      BytesNext(d[4..], v);
      if |d| > 4 {
        CompletedInGroup(d, v);
      }
      BytesOfFirst(d[..4], d[4..]);
      BytesOfFirst(d[..4], d[4..] + [v]);
      assert d == d[..4] + d[4..] && d + [v] == d[..4] + (d[4..] + [v]);
    }
  }

  lemma {:induction false} BytesLength(d: seq<int>)
    requires AreDigits(d)
    ensures |Bytes(d)| == |d| * 6 / 8
  {
    if |d| >= 4 {
      BytesLength(d[4..]);
    }
  }

  lemma {:induction false} DigitsEnd(s: string, d: seq<int>)
    requires |d| <= |s| && forall i :: 0 <= i < |d| ==> DigitOf(s[i]) == d[i] && IsDigit(d[i])
    requires |d| == |s| || DigitOf(s[|d|]) == -1
    ensures Digits(s) == d
  {
    if d != [] {
      DigitsEnd(s[1..], d[1..]);
    }
  }

  /** Padding after the first digit of a group: the digit makes a byte all the same. */
  lemma {:induction false} OddPadding(c: char)
    requires IsDigit(DigitOf(c))
    ensures Decoding([c, '=', '=', '=']) == [DigitOf(c) * 4 % 256]
  {
    var s, d := [c, '=', '=', '='], [DigitOf(c)];
    DigitsEnd(s, d);
    ShortBytes(d);
  }

  method Regroup1(value: bv8, leftover: bv8) returns (emit: bv8, left: bv8)
    requires value as int < 64 && leftover as int % 4 == 0
    ensures emit as int == leftover as int + value as int / 16 && left as int == value as int % 16 * 16
  {
    RightBy4(value);
    LeftBy4(value);
    Low2(leftover);
    OrIsPlus(leftover, value >> 4);
    assert (value >> 4) | leftover == leftover | (value >> 4);
    emit, left := (value >> 4) | leftover, value << 4;
  }

  method Regroup2(value: bv8, leftover: bv8) returns (emit: bv8, left: bv8)
    requires value as int < 64 && leftover as int % 16 == 0
    ensures emit as int == leftover as int + value as int / 4 && left as int == value as int % 4 * 64
  {
    RightBy2(value);
    LeftBy6(value);
    Low4(leftover);
    OrIsPlus(leftover, value >> 2);
    assert (value >> 2) | leftover == leftover | (value >> 2);
    emit, left := (value >> 2) | leftover, value << 6;
  }

  method Regroup3(value: bv8, leftover: bv8) returns (emit: bv8)
    requires value as int < 64 && leftover as int % 64 == 0
    ensures emit as int == leftover as int + value as int
  {
    Low6(leftover);
    OrIsPlus(leftover, value);
    assert value | leftover == leftover | value;
    emit := value | leftover;
  }

  method Regroup0(value: bv8) returns (left: bv8)
    requires value as int < 64
    ensures left as int == value as int * 4
  {
    LeftBy2(value);
    left := value << 2;
  }

  /** The switch on the place in a quartet. */
  method Regroup(value: bv8, leftover: bv8, place: nat) returns (emit: bv8, left: bv8)
    requires place < 4 && value as int < 64
    requires (place == 1 ==> leftover as int % 4 == 0) && (place == 2 ==> leftover as int % 16 == 0)
    requires (place == 3 ==> leftover as int % 64 == 0)
    ensures place == 0 ==> left as int == value as int * 4
    ensures place == 1 ==> emit as int == leftover as int + value as int / 16 && left as int == value as int % 16 * 16
    ensures place == 2 ==> emit as int == leftover as int + value as int / 4 && left as int == value as int % 4 * 64
    ensures place == 3 ==> emit as int == leftover as int + value as int
  {
    emit, left := 0, 0;
    if place == 0 {
      left := Regroup0(value);
    } else if place == 1 {
      emit, left := Regroup1(value, leftover);
    } else if place == 2 {
      emit, left := Regroup2(value, leftover);
    } else {
      emit := Regroup3(value, leftover);
    }
  }

  /** After the first digits of a text, d, the decoder has written their bytes; what is
      left of the last digit is in leftover. */
  ghost predicate Decoded(text: string, d: seq<int>, written: seq<byte>, leftover: int) {
    && |d| <= |text| && AreDigits(d) && (forall i :: 0 <= i < |d| ==> DigitOf(text[i]) == d[i])
    && written == Bytes(d) && |written| == |d| * 6 / 8
    && (|d| % 4 != 0 ==> leftover == Leftover(d))
  }

  lemma LeftoverNext(d: seq<int>, v: int)
    requires AreDigits(d) && IsDigit(v)
    ensures AreDigits(d + [v])
    ensures |d| % 4 == 0 ==> Leftover(d + [v]) == v * 4
    ensures |d| % 4 == 1 ==> Leftover(d + [v]) == v % 16 * 16
    ensures |d| % 4 == 2 ==> Leftover(d + [v]) == v % 4 * 64
  {
  }

  lemma LeftoverIsLow(d: seq<int>)
    requires AreDigits(d) && |d| % 4 != 0
    ensures |d| % 4 == 1 ==> Leftover(d) % 4 == 0
    ensures |d| % 4 == 2 ==> Leftover(d) % 16 == 0
    ensures |d| % 4 == 3 ==> Leftover(d) % 64 == 0
  {
  }

  lemma EmitsCompleted(d: seq<int>, leftover: int, v: int, emit: byte)
    requires AreDigits(d) && IsDigit(v) && |d| % 4 != 0 && leftover == Leftover(d)
    requires |d| % 4 == 1 ==> emit == leftover + v / 16
    requires |d| % 4 == 2 ==> emit == leftover + v / 4
    requires |d| % 4 == 3 ==> emit == leftover + v
    ensures emit == Completed(d, v)
  {
  }

  lemma {:induction false} DecodedNext(text: string, d: seq<int>, written: seq<byte>, leftover: int, v: int,
      emit: byte, left: int)
    requires Decoded(text, d, written, leftover) && |d| < |text| && IsDigit(v) && DigitOf(text[|d|]) == v
    requires |d| % 4 != 0 ==> emit == Completed(d, v)
    requires AreDigits(d + [v]) && (|d + [v]| % 4 != 0 ==> left == Leftover(d + [v]))
    ensures Decoded(text, d + [v], if |d| % 4 == 0 then written else written + [emit], left)
  {
    var e := d + [v];
    assert |e| <= |text| && AreDigits(e) && forall i :: 0 <= i < |e| ==> DigitOf(text[i]) == e[i];
    BytesNext(d, v);
    var written' := if |d| % 4 == 0 then written else written + [emit];
    assert written' == Bytes(e);
    BytesLength(e);
  }

  /** One more digit: the switch, and what it emits. */
  method DecodeDigit(value: bv8, leftover: bv8, place: nat, ghost text: string, ghost d: seq<int>,
      ghost written: seq<byte>)
    returns (emit: bv8, left: bv8)
    requires Decoded(text, d, written, leftover as int) && place == |d| % 4
    requires |d| < |text| && value as int < 64 && DigitOf(text[|d|]) == value as int
    ensures Decoded(text, d + [value as int], if place == 0 then written else written + [emit as int], left as int)
  {
    if place != 0 {
      LeftoverIsLow(d);
    }
    emit, left := Regroup(value, leftover, place);
    LeftoverNext(d, value as int);
    assert place == 3 ==> |d + [value as int]| % 4 == 0;
    if place != 0 {
      EmitsCompleted(d, leftover as int, value as int, emit as int);
    }
    DecodedNext(text, d, written, leftover as int, value as int, emit as int, left as int);
  }

  /** A C string of length n. */
  ghost predicate IsString(b64: array<char>, n: nat)
    reads b64
  {
    n < b64.Length && b64[n] == NUL && forall i :: 0 <= i < n ==> b64[i] != NUL
  }

  lemma {:induction false} NothingDecoded(text: string)
    ensures Decoded(text, [], [], 0)
  {
    EmptyBytes([]);
  }

  lemma SixEighths(m: nat, n: nat)
    requires m <= n
    ensures m * 6 / 8 <= n * 6 / 8
  {
  }

  lemma {:induction false} DecodingOf(text: string, d: seq<int>, written: seq<byte>, leftover: int)
    requires Decoded(text, d, written, leftover) && (|d| == |text| || DigitOf(text[|d|]) == -1)
    ensures |written| <= |text| * 6 / 8
    ensures Decoding(text) == written + if |d| < |text| && text[|d|] == '=' && |d| % 4 == 1 then [leftover] else []
  {
    hide Bytes, DigitOf;
    DigitsEnd(text, d);
    SixEighths(|d|, |text|);
  }

  /** The body of the loop in b64_to_binary, for a digit. */
  method DecodeStep(alpha: int, p: nat, count: nat, leftover: bv8, buf: array<byte>, ghost text: string,
      ghost d: seq<int>)
    returns (count': nat, leftover': bv8)
    requires IsDigit(alpha) && p == |d| < |text| && DigitOf(text[p]) == alpha && buf.Length >= |text| * 6 / 8
    requires count <= buf.Length && Decoded(text, d, buf[..count], leftover as int)
    modifies buf
    ensures count <= count' <= buf.Length && Decoded(text, d + [alpha], buf[..count'], leftover' as int)
    ensures forall i :: count' <= i < buf.Length ==> buf[i] == old(buf[i])
  {
    var value := Bits(alpha);
    var emit;
    ghost var written := buf[..count];
    emit, leftover' := DecodeDigit(value, leftover, p % 4, text, d, written);
    count' := count;
    if p % 4 != 0 {
      buf[count] := emit as int;
      count' := count + 1;
      assert buf[..count'] == written + [emit as int];
    }
  }

  lemma RoomForOneMore(p: nat, n: nat)
    requires p % 4 == 1 && p < n
    ensures p * 6 / 8 < n * 6 / 8
  {
  }

  /** The same, for padding: the end. */
  method DecodePad(p: nat, count: nat, leftover: bv8, buf: array<byte>, ghost text: string, ghost d: seq<int>)
    returns (count': nat)
    requires p == |d| < |text| && text[p] == '=' && buf.Length >= |text| * 6 / 8
    requires count <= buf.Length && Decoded(text, d, buf[..count], leftover as int)
    modifies buf
    ensures count <= count' <= |text| * 6 / 8 && buf[..count'] == Decoding(text)
    ensures forall i :: count' <= i < buf.Length ==> buf[i] == old(buf[i])
  {
    ghost var written := buf[..count];
    DecodingOf(text, d, written, leftover as int);
    count' := count;
    if p % 4 == 1 {
      RoomForOneMore(p, |text|);
      buf[count] := leftover as int;
      count' := count + 1;
      assert buf[..count'] == written + [leftover as int];
    }
  }

  /** b64_to_binary, into a buffer of the caller's: what is left of buf beyond the bytes
      decoded is as it was, except that its first byte is cleared at the start. */
  method B64ToBinary(b64: array<char>, ghost n: nat, buf: array<byte>) returns (count: nat)
    requires IsString(b64, n) && buf.Length >= 1 && buf.Length >= n * 6 / 8
    modifies buf
    ensures count <= n * 6 / 8 && buf[..count] == Decoding(b64[..n])
    ensures forall i :: count <= i < buf.Length ==> buf[i] == if i == 0 then 0 else old(buf[i])
  {
    hide Decoded, Decoding, Digits, DigitOf;
    var p, leftover := 0, 0;
    ghost var d, text, finished := [], b64[..n], false;
    count := 0;
    buf[0] := 0;
    ghost var start := buf[..];
    NothingDecoded(text);
    while b64[p] != NUL && Strchr(ALPHABET, b64[p]) != -1
      invariant p <= n && |d| == p && count <= buf.Length && !finished
      invariant Decoded(text, d, buf[..count], leftover as int)
      invariant forall i :: count <= i < buf.Length ==> buf[i] == start[i]
      decreases n - p
    {
      StrchrReadsTable(b64[p]);
      if b64[p] == '=' {
        count := DecodePad(p, count, leftover, buf, text, d);
        finished := true;
        break;
      }
      var alpha := Strchr(ALPHABET, b64[p]);
      count, leftover := DecodeStep(alpha, p, count, leftover, buf, text, d);
      d := d + [alpha];
      p := p + 1;
    }
    if !finished {
      StrchrReadsTable(b64[p]);
      DecodingOf(text, d, buf[..count], leftover as int);
    }
  }

  /** b64_to_binary, with a buffer given or not; n is strlen(b64). */
  method Decode(b64: array<char>, n: nat, given: array?<byte>) returns (buf: array<byte>, count: nat)
    requires IsString(b64, n) && (given != null ==> given.Length >= 1 && given.Length >= n * 6 / 8)
    modifies if given == null then {} else {given}
    ensures if given == null then fresh(buf) else buf == given
    ensures count <= buf.Length && buf[..count] == Decoding(b64[..n])
  {
    if given == null {
      buf := new byte[n * 6 / 8 + 1];
    } else {
      buf := given;
    }
    count := B64ToBinary(b64, n, buf);
  }

  lemma {:induction false} NoNulInside(x: seq<byte>)
    ensures NUL !in Encoding(x)
  {
    if 1 <= |x| <= 3 {
      ShortEncoding(x);
      assert DigitOf(NUL) == -1;
    } else if |x| > 3 {
      EncodingOfFirst(x);
      NoNulInside(x[..3]);
      NoNulInside(x[3..]);
    }
  }

  /** JS_NewStringCopyZ */
  method CopyZ(b64: array<char>, ghost n: nat) returns (s: string)
    requires IsString(b64, n)
    ensures s == b64[..n]
  {
    s := [];
    var i := 0;
    while b64[i] != NUL
      invariant i <= n && s == b64[..i]
      decreases n - i
    {
      s := s + [b64[i]];
      i := i + 1;
    }
  }

  /** toBase64 of the binary module, on the contents of a ByteThing. */
  method ToBase64(data: array<byte>) returns (s: string)
    ensures s == Encoding(data[..])
  {
    hide Encoding;
    NothingToEncode(data[..]);
    NoNulInside(data[..]);
    if data.Length == 0 {
      return "";
    }
    ghost var n := EncodedLength(data.Length);
    var out := new char[EncodedLength(data.Length) + 1];
    var _ := BinaryToB64(data, out);
    assert forall i :: 0 <= i < n ==> out[i] == Encoding(data[..])[i];
    s := CopyZ(out, n);
  }

  /** fromBase64, on a C string; n is strlen(b64). The buffer has the size that callers are
      told to provide, which is not the one the decoder takes for its own buffers, and it
      is enough for every text. */
  method FromBase64(b64: array<char>, n: nat) returns (buf: array<byte>, count: nat)
    requires IsString(b64, n)
    ensures fresh(buf) && buf.Length == n / 4 * 3 + 2 && count <= buf.Length && buf[..count] == Decoding(b64[..n])
  {
    buf := new byte[n / 4 * 3 + 2];
    count := B64ToBinary(b64, n, buf);
  }

  /** Out and back again: decoding what toBase64 gives, gives the data. */
  method ThereAndBack(data: array<byte>) returns (back: array<byte>, count: nat)
    ensures fresh(back) && count == data.Length <= back.Length && back[..count] == data[..]
  {
    hide Encoding, Decoding;
    var s := ToBase64(data);
    NoNulInside(data[..]);
    RoundTrip(data[..]);
    var b64 := new char[|s| + 1](i requires 0 <= i <= |s| => if i < |s| then s[i] else NUL);
    assert b64[..|s|] == s;
    back, count := FromBase64(b64, |s|);
    assert |back[..count]| == |data[..]|;
  }
}
