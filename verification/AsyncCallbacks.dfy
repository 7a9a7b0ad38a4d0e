/** The list of asynchronous callbacks (gpsee.c:390-429, 472-624): linked in place, in
    descending order of the contexts, so that the entries of a context are neighbours. */
module AsyncCallbacks {

  /** struct GPSEEAsyncCallback; a context is its address. */
  class Entry {
    const cx: int
    var next: Entry?

    constructor (cx: int)
      ensures this.cx == cx && next == null
    {
      this.cx := cx;
      next := null;
    }
  }

  /** What comes of removing an entry. */
  datatype Outcome = Removed | NullDereference

  ghost function After(s: seq<Entry>, i: int): Entry?
    requires 0 <= i < |s|
  {
    if i + 1 < |s| then s[i + 1] else null
  }

  ghost predicate Linked(s: seq<Entry>)
    reads s`next
  {
    forall i {:trigger s[i].next} :: 0 <= i < |s| ==> s[i].next == After(s, i)
  }

  ghost predicate Distinct(s: seq<Entry>) {
    forall i, j :: 0 <= i < j < |s| ==> s[i] != s[j]
  }

  ghost predicate Descending(s: seq<Entry>) {
    forall i, j :: 0 <= i < j < |s| ==> s[i].cx >= s[j].cx
  }

  ghost function Contexts(s: seq<Entry>): set<int> {
    set e | e in s :: e.cx
  }

  /** The entries of the other contexts. */
  ghost function Without(s: seq<Entry>, cx: int): seq<Entry> {
    if s == [] then [] else (if s[0].cx == cx then [] else [s[0]]) + Without(s[1..], cx)
  }

  ghost function Only(s: seq<Entry>, cx: int): seq<Entry> {
    if s == [] then [] else (if s[0].cx == cx then [s[0]] else []) + Only(s[1..], cx)
  }

  lemma {:induction false} WithoutIsFilter(s: seq<Entry>, cx: int)
    ensures forall e :: e in Without(s, cx) <==> e in s && e.cx != cx
    ensures forall e :: e in Only(s, cx) <==> e in s && e.cx == cx
    ensures |Without(s, cx)| + |Only(s, cx)| == |s|
  {
    if s != [] {
      WithoutIsFilter(s[1..], cx);
      assert s == [s[0]] + s[1..];
    }
  }

  lemma {:induction false} OthersAreKept(s: seq<Entry>, cx: int)
    requires forall e :: e in s ==> e.cx != cx
    ensures Without(s, cx) == s && Only(s, cx) == []
  {
    if s != [] {
      OthersAreKept(s[1..], cx);
      assert s == [s[0]] + s[1..];
    }
  }

  lemma {:induction false} OwnAreTaken(s: seq<Entry>, cx: int)
    requires forall e :: e in s ==> e.cx == cx
    ensures Without(s, cx) == [] && Only(s, cx) == s
  {
    if s != [] {
      OwnAreTaken(s[1..], cx);
      assert s == [s[0]] + s[1..];
    }
  }

  lemma {:induction false} WithoutStep(s: seq<Entry>, cx: int)
    ensures Without(s, cx) == if s == [] then [] else (if s[0].cx == cx then [] else [s[0]]) + Without(s[1..], cx)
  {
  }

  lemma {:induction false} WithoutOfParts(s: seq<Entry>, t: seq<Entry>, cx: int)
    ensures Without(s + t, cx) == Without(s, cx) + Without(t, cx)
  {
    hide Without;
    WithoutStep(s, cx);
    if s == [] {
      assert s + t == t;
    } else {
      var h := if s[0].cx == cx then [] else [s[0]];
      WithoutOfParts(s[1..], t, cx);
      WithoutStep(s + t, cx);
      assert (s + t)[0] == s[0] && (s + t)[1..] == s[1..] + t;
      assert h + (Without(s[1..], cx) + Without(t, cx)) == (h + Without(s[1..], cx)) + Without(t, cx);
    }
  }

  lemma {:induction false} OnlyStep(s: seq<Entry>, cx: int)
    ensures Only(s, cx) == if s == [] then [] else (if s[0].cx == cx then [s[0]] else []) + Only(s[1..], cx)
  {
  }

  lemma {:induction false} OnlyOfParts(s: seq<Entry>, t: seq<Entry>, cx: int)
    ensures Only(s + t, cx) == Only(s, cx) + Only(t, cx)
  {
    hide Only;
    OnlyStep(s, cx);
    if s == [] {
      assert s + t == t;
    } else {
      var h := if s[0].cx == cx then [s[0]] else [];
      OnlyOfParts(s[1..], t, cx);
      OnlyStep(s + t, cx);
      assert (s + t)[0] == s[0] && (s + t)[1..] == s[1..] + t;
      assert h + (Only(s[1..], cx) + Only(t, cx)) == (h + Only(s[1..], cx)) + Only(t, cx);
    }
  }

  lemma {:induction false} SegmentIsTaken(s: seq<Entry>, i: int, j: int, cx: int)
    requires 0 <= i <= j <= |s|
    requires forall k :: 0 <= k < |s| ==> (s[k].cx == cx <==> i <= k < j)
    ensures Without(s, cx) == s[..i] + s[j..] && Only(s, cx) == s[i..j]
  {
    hide Without, Only;
    assert s == s[..i] + (s[i..j] + s[j..]);
    WithoutOfParts(s[..i], s[i..j] + s[j..], cx);
    WithoutOfParts(s[i..j], s[j..], cx);
    OnlyOfParts(s[..i], s[i..j] + s[j..], cx);
    OnlyOfParts(s[i..j], s[j..], cx);
    OthersAreKept(s[..i], cx);
    OwnAreTaken(s[i..j], cx);
    OthersAreKept(s[j..], cx);
  }

  /** What being sorted is for: if the entries of a context start at i and end before j,
      they are all there is of it. */
  lemma {:induction false} SegmentIsAll(s: seq<Entry>, i: int, j: int, cx: int)
    requires Descending(s) && 0 <= i <= j <= |s|
    requires forall k :: 0 <= k < i ==> s[k].cx != cx
    requires forall k :: i <= k < j ==> s[k].cx == cx
    requires i < j || i == |s|
    requires j < |s| ==> s[j].cx != cx
    ensures Without(s, cx) == s[..i] + s[j..] && Only(s, cx) == s[i..j]
  {
    assert i < j ==> s[i].cx == cx;
    assert forall k :: j <= k < |s| ==> s[j].cx >= s[k].cx && s[k].cx != cx;
    SegmentIsTaken(s, i, j, cx);
  }

  lemma {:induction false} InsertedAndTakenOut(was: seq<Entry>, i: nat, e: Entry)
    requires i <= |was| && e !in was
    ensures var s := was[..i] + [e] + was[i..];
      forall k :: 0 <= k < |s| && s[k] == e ==> k == i && s[..k] + s[k + 1..] == was
    ensures i == 0 ==> was[..i] + [e] + was[i..] == [e] + was
  {
    var s := was[..i] + [e] + was[i..];
    assert s[..i] + s[i + 1..] == was by {
      assert s[..i] == was[..i] && s[i + 1..] == was[i..];
    }
    forall k | 0 <= k < |s| && k != i
      ensures s[k] != e
    {
      assert s[k] == if k < i then was[k] else was[k - 1];
    }
  }

  lemma {:induction false} FirstForContext(s: seq<Entry>, k: nat, cx: int)
    requires Descending(s) && k <= |s| && forall j :: 0 <= j < |s| ==> (s[j].cx > cx <==> j < k)
    ensures k == |s| || s[k].cx != cx <==> cx !in Contexts(s)
  {
    assert forall j :: k <= j < |s| ==> s[k].cx >= s[j].cx;
    assert k < |s| && s[k].cx == cx ==> s[k] in s;
  }

  class Callbacks {
    var head: Entry?               // grt->asyncCallbacks
    ghost var entries: seq<Entry>  // the list
    ghost var freed: seq<Entry>    // what has been freed, in that order

    constructor ()
      ensures Valid() && entries == [] && freed == []
    {
      head, entries, freed := null, [], [];
    }

    ghost predicate Valid()
      reads this, entries`next
    {
      && head == (if entries == [] then null else entries[0])
      && Linked(entries) && Distinct(entries) && Descending(entries)
      && Distinct(freed) && (forall e :: e in entries ==> e !in freed)
    }

    /** *pp, where pp is the head of the list or the next field of an entry. */
    function At(owner: Entry?): Entry?
      reads this, owner
    {
      if owner == null then head else owner.next
    }

    /** Where in the list pp is. */
    ghost predicate Position(owner: Entry?, i: int)
      requires Valid()
      reads this, entries`next
    {
      0 <= i <= |entries| && owner == if i == 0 then null else entries[i - 1]
    }

    lemma AtPosition(owner: Entry?, i: int)
      requires Valid() && Position(owner, i)
      ensures At(owner) == if i < |entries| then entries[i] else null
    {
    }

    lemma InsertedIsLinked(was: seq<Entry>, i: int, newcb: Entry)
      requires 0 <= i <= |was| && newcb.next == (if i < |was| then was[i] else null)
      requires forall j {:trigger was[j].next} :: 0 <= j < |was| ==>
        was[j].next == if j == i - 1 then newcb else After(was, j)
      ensures Linked(was[..i] + [newcb] + was[i..])
    {
      ghost var s := was[..i] + [newcb] + was[i..];
      forall j | 0 <= j < |s|
        ensures s[j].next == After(s, j)
      {
        if j < i {
          assert s[j] == was[j];
        } else if j > i {
          assert s[j] == was[j - 1];
        }
      }
    }

    lemma InsertedIsSorted(was: seq<Entry>, i: int, newcb: Entry)
      requires Distinct(was) && Descending(was) && 0 <= i <= |was| && newcb !in was
      requires forall j :: 0 <= j < |was| ==> if j < i then was[j].cx > newcb.cx else was[j].cx <= newcb.cx
      ensures Distinct(was[..i] + [newcb] + was[i..]) && Descending(was[..i] + [newcb] + was[i..])
    {
    }

    /** newcb goes into the slot of pp, before what was there. */
    method Link(newcb: Entry, owner: Entry?, ghost i: int)
      requires Valid() && Position(owner, i) && newcb !in entries && newcb !in freed
      requires forall j :: 0 <= j < |entries| ==> if j < i then entries[j].cx > newcb.cx else entries[j].cx <= newcb.cx
      modifies this, newcb`next, (if owner == null then {} else {owner})`next
      ensures Valid() && freed == old(freed) && entries == old(entries)[..i] + [newcb] + old(entries)[i..]
      ensures newcb.next == if i < |old(entries)| then old(entries)[i] else null
    {
      newcb.next := At(owner);
      if owner == null {
        head := newcb;
      } else {
        owner.next := newcb;
      }
      InsertedIsLinked(entries, i, newcb);
      InsertedIsSorted(entries, i, newcb);
      entries := entries[..i] + [newcb] + entries[i..];
    }

    /** gpsee_addAsyncCallback. Whether this is the first entry for its context is read
        off the next one alone. */
    method Add(cx: int) returns (newcb: Entry, first: bool, ghost k: nat)
      requires Valid()
      modifies this, entries`next
      ensures Valid() && fresh(newcb) && newcb.cx == cx && freed == old(freed)
      ensures k <= |old(entries)| && entries == old(entries)[..k] + [newcb] + old(entries)[k..]
      ensures forall j :: 0 <= j < |old(entries)| ==> (old(entries)[j].cx > cx <==> j < k)
      ensures first <==> cx !in Contexts(old(entries))
    {
      hide Contexts;
      newcb := new Entry(cx);
      var pp: Entry? := null;
      k := 0;
      while At(pp) != null && At(pp).cx > cx
        invariant Valid() && Position(pp, k) && entries == old(entries)
        invariant forall j :: 0 <= j < k ==> entries[j].cx > cx
        decreases |entries| - k
      {
        pp := At(pp);
        k := k + 1;
      }
      AtPosition(pp, k);
      assert pp != null ==> pp in entries;
      Link(newcb, pp, k);
      first := newcb.next == null || newcb.next.cx != cx;
      FirstForContext(old(entries), k, cx);
    }

    lemma CutOutIsLinked(was: seq<Entry>, i: int, j: int)
      requires 0 <= i <= j <= |was|
      requires forall k {:trigger was[k].next} :: 0 <= k < |was| && k != i - 1 ==> was[k].next == After(was, k)
      requires i > 0 ==> was[i - 1].next == if j < |was| then was[j] else null
      ensures Linked(was[..i] + was[j..])
    {
      ghost var s := was[..i] + was[j..];
      forall k | 0 <= k < |s|
        ensures s[k].next == After(s, k)
      {
        assert s[k] == was[if k < i then k else k + j - i];
      }
    }

    lemma CutOutIsSorted(was: seq<Entry>, i: int, j: int)
      requires Distinct(was) && Descending(was) && 0 <= i <= j <= |was|
      ensures Distinct(was[..i] + was[j..]) && Descending(was[..i] + was[j..])
    {
    }

    /** Entries i to j leave the list: the slot of owner now leads to what came after them. */
    method Unlink(owner: Entry?, rest: Entry?, ghost i: int, ghost j: int)
      requires Valid() && Position(owner, i) && i <= j <= |entries|
        && rest == if j < |entries| then entries[j] else null
      modifies this`head, this`entries, (if owner == null then {} else {owner})`next
      ensures Valid() && entries == old(entries)[..i] + old(entries)[j..]
    {
      if owner == null {
        head := rest;
      } else {
        owner.next := rest;
      }
      CutOutIsLinked(entries, i, j);
      CutOutIsSorted(entries, i, j);
      entries := entries[..i] + entries[j..];
    }

    method Free(cb: Entry)
      requires Valid() && cb !in entries && cb !in freed
      modifies `freed
      ensures Valid() && freed == old(freed) + [cb]
    {
      freed := freed + [cb];
    }

    /** The search of gpsee_removeAsyncCallback, which looks only at next fields: it runs
        off the end of the list exactly when the entry is not there, or is the head. */
    method FindBefore(hnd: Entry) returns (cb: Entry?, ghost k: int)
      requires Valid()
      ensures cb == null <==> hnd !in entries || hnd == head
      ensures cb != null ==> 0 <= k < |entries| - 1 && cb == entries[k] && entries[k + 1] == hnd
    {
      cb, k := head, 0;
      while cb != null && cb.next != hnd
        invariant 0 <= k <= |entries| && cb == if k < |entries| then entries[k] else null
        invariant forall j :: 1 <= j <= k && j < |entries| ==> entries[j] != hnd
        decreases |entries| - k
      {
        cb := cb.next;
        k := k + 1;
      }
    }

    /** gpsee_removeAsyncCallback. Where the search finds nothing, what follows goes
        through a null pointer: for an entry that is not in the list, and for its head. */
    method Remove(hnd: Entry) returns (outcome: Outcome)
      requires Valid()
      modifies this, entries`next
      ensures Valid() && (outcome.NullDereference? <==> hnd !in old(entries) || hnd == old(head))
      ensures outcome.NullDereference? ==> entries == old(entries) && freed == old(freed)
      ensures outcome.Removed? ==> freed == old(freed) + [hnd] && hnd !in entries
      ensures outcome.Removed? ==> exists k ::
        0 < k < |old(entries)| && old(entries)[k] == hnd && entries == old(entries)[..k] + old(entries)[k + 1..]
    {
      var cb;
      ghost var k;
      cb, k := FindBefore(hnd);
      if cb == null {
        return NullDereference;
      }
      assert cb in entries;
      Unlink(cb, cb.next.next, k + 1, k + 2);
      assert old(entries)[k + 1] == hnd;
      Free(hnd);
      return Removed;
    }

    /** Removing an entry right after adding it undoes the addition, if some entry is for a
        higher context. Otherwise it is the head, and cannot be removed. */
    method AddAndRemove(cx: int) returns (newcb: Entry, outcome: Outcome)
      requires Valid()
      modifies this, entries`next
      ensures Valid() && newcb.cx == cx && (outcome.Removed? <==> exists e :: e in old(entries) && e.cx > cx)
      ensures outcome.Removed? ==> entries == old(entries) && freed == old(freed) + [newcb]
      ensures outcome.NullDereference? ==> entries == [newcb] + old(entries) && freed == old(freed)
    {
      var first;
      ghost var k;
      ghost var was := entries;
      newcb, first, k := Add(cx);
      assert entries[k] == newcb;
      assert k > 0 ==> was[0] in was && was[0].cx > cx;
      outcome := Remove(newcb);
      InsertedAndTakenOut(was, k, newcb);
    }

    /** Into the empty list, an entry is added that then cannot be removed. */
    static method LoneEntryStays(cx: int) returns (list: Callbacks, newcb: Entry, outcome: Outcome)
      ensures outcome.NullDereference? && list.Valid() && list.entries == [newcb] && newcb.cx == cx
    {
      list := new Callbacks();
      newcb, outcome := list.AddAndRemove(cx);
    }

    /** The first slot whose entry has, or has not, the given context. */
    method Skip(start: Entry?, cx: int, own: bool, ghost from: int) returns (pp: Entry?, ghost i: int)
      requires Valid() && Position(start, from)
      ensures Position(pp, i) && from <= i
      ensures forall k :: from <= k < i ==> (entries[k].cx == cx) == own
      ensures i < |entries| ==> (entries[i].cx == cx) != own
    {
      pp, i := start, from;
      while At(pp) != null && (At(pp).cx == cx) == own
        invariant Position(pp, i) && from <= i
        invariant forall k :: from <= k < i ==> (entries[k].cx == cx) == own
        decreases |entries| - i
      {
        pp := At(pp);
        i := i + 1;
      }
    }

    /** The last loop of gpsee_removeAsyncCallbackContext, from the first entry of the
        removed segment to the one that owns the slot where the segment ended. */
    method FreeSegment(first: Entry, last: Entry, ghost segment: seq<Entry>)
      requires Valid() && segment != [] && first == segment[0] && last == segment[|segment| - 1]
      requires Distinct(segment) && forall e :: e in segment ==> e !in entries && e !in freed
      requires forall k :: 0 <= k < |segment| - 1 ==> segment[k].next == segment[k + 1]
      modifies `freed
      ensures Valid() && freed == old(freed) + segment
    {
      var freeme: Entry? := first;
      ghost var k := 0;
      while freeme != null
        invariant 0 <= k < |segment| && freeme == segment[k]
        invariant Valid() && freed == old(freed) + segment[..k]
        decreases |segment| - k
      {
        var next := freeme.next;
        Free(freeme);
        assert freed == old(freed) + segment[..k + 1];
        if freeme == last {
          break;
        }
        freeme := next;
        k := k + 1;
      }
      assert segment[..|segment|] == segment;
    }

    lemma SegmentIsApart(i: int, j: int)
      requires Valid() && 0 <= i <= j <= |entries|
      ensures Distinct(entries[i..j])
      ensures forall e :: e in entries[i..j] ==> e !in entries[..i] + entries[j..] && e !in freed
      ensures forall k :: 0 <= k < j - i - 1 ==> entries[i..j][k].next == entries[i..j][k + 1]
    {
      forall k | 0 <= k < j - i - 1
        ensures entries[i..j][k].next == entries[i..j][k + 1]
      {
        assert entries[i + k].next == After(entries, i + k);
      }
    }

    /** The segment between two slots is unlinked at once, and then freed. */
    method RemoveSegment(cb: Entry?, cc: Entry, ghost i: int, ghost j: int)
      requires Valid() && Position(cb, i) && Position(cc, j) && i < j
      modifies this`head, this`entries, this`freed, (if cb == null then {} else {cb})`next
      ensures Valid() && entries == old(entries)[..i] + old(entries)[j..] && freed == old(freed) + old(entries)[i..j]
    {
      AtPosition(cb, i);
      AtPosition(cc, j);
      SegmentIsApart(i, j);
      ghost var segment := entries[i..j];
      var freeme := At(cb);
      Unlink(cb, At(cc), i, j);
      FreeSegment(freeme, cc, segment);
    }

    /** gpsee_removeAsyncCallbackContext: exactly the entries of the context leave the
        list, and each of them is freed once. */
    method RemoveContext(cx: int, destroying: bool)
      requires Valid()
      modifies this, entries`next
      ensures Valid()
      ensures !destroying ==> entries == old(entries) && freed == old(freed)
      ensures destroying ==> entries == Without(old(entries), cx) && freed == old(freed) + Only(old(entries), cx)
    {
      if !destroying {
        return;
      }
      var cb, cc;
      ghost var i, j;
      cb, i := Skip(null, cx, false, 0);
      AtPosition(cb, i);
      var freeme := At(cb);
      if freeme == null {
        OthersAreKept(entries, cx);
        return;
      }
      cc, j := Skip(cb, cx, true, i);
      SegmentIsAll(entries, i, j, cx);
      RemoveSegment(cb, cc, i, j);
    }

    /** One pass of gpsee_asyncCallbackTriggerThreadFunc: each context that has an entry
        is triggered, once. */
    method TriggerPass() returns (triggered: seq<int>)
      requires Valid()
      ensures forall i, j :: 0 <= i < j < |triggered| ==> triggered[i] > triggered[j]
      ensures forall cx :: cx in triggered <==> cx in Contexts(entries)
    {
      triggered := [];
      var cb := head;
      if cb != null {
        var cx := cb.cx;
        triggered := [cx];
        cb := cb.next;
        ghost var k := 1;
        while cb != null
          invariant 1 <= k <= |entries| && cb == if k < |entries| then entries[k] else null
          invariant triggered != [] && triggered[|triggered| - 1] == cx == entries[k - 1].cx
          invariant forall i, j :: 0 <= i < j < |triggered| ==> triggered[i] > triggered[j]
          invariant forall c :: c in triggered <==> c in Contexts(entries[..k])
          decreases |entries| - k
        {
          assert entries[..k + 1] == entries[..k] + [cb];
          if cx != cb.cx {
            cx := cb.cx;
            triggered := triggered + [cx];
          }
          cb := cb.next;
          k := k + 1;
        }
        assert entries[..k] == entries;
      }
    }

    /** removeAllAsyncCallbacks_unlocked */
    method RemoveAll()
      requires Valid()
      modifies this
      ensures Valid() && entries == [] && freed == old(freed) + old(entries)
    {
      var cb := head;
      ghost var all, k := entries, 0;
      while cb != null
        invariant 0 <= k <= |all| && cb == if k < |all| then all[k] else null
        invariant freed == old(freed) + all[..k] && all == entries == old(entries)
        decreases |all| - k
      {
        var d := cb.next;
        freed := freed + [cb];
        assert all[..k + 1] == all[..k] + [cb];
        cb := d;
        k := k + 1;
      }
      assert all[..k] == all && forall e :: e in all ==> e in old(entries);
      assert forall i :: 0 <= i < |all| ==> all[i] in all;
      head, entries := null, [];
    }
  }
}
