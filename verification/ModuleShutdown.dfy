/** The end of a realm's module system: fini functions are asked until they agree, or
    forced, and then the memo is emptied (gpsee_modules.c:1841-1923, 2001-2025). */
module ModuleShutdown {
  import opened ModuleMemo
  import opened ModuleSystem

  /** What markModuleUnused leaves of a handle without a fini function. */
  ghost predicate Unused(h: Handle)
    reads h`fini, h`loaded, h`scope, h`exports
  {
    !h.fini && !h.loaded && h.scope == NULL && h.exports == NULL
  }

  /** The memoised handles whose fini function is still due. */
  ghost function Due(realm: Realm): set<Handle>
    reads realm.modules`nodes, realm.modules.nodes`fini
  {
    set h | h in realm.modules.nodes && h.fini
  }

  /** One round of calls, over handles in the order s: those due are called, once each,
      and the ones in yes answer that they are done. */
  ghost function Calls(s: seq<Handle>, due: set<Handle>, force: bool, yes: set<Handle>): seq<FiniCall> {
    if s == [] then [] else
      var h := s[|s| - 1];
      Calls(s[..|s| - 1], due, force, yes) + if h in due then [FiniCall(h, force, h in yes)] else []
  }

  /** How many of them that leaves. */
  ghost function Dangling(s: seq<Handle>, due: set<Handle>, yes: set<Handle>): nat {
    if s == [] then 0 else
      var h := s[|s| - 1];
      Dangling(s[..|s| - 1], due, yes) + if h in due && h !in yes then 1 else 0
  }

  /** h's fini function has said it was done, or was forced. */
  ghost predicate Finished(log: seq<FiniCall>, h: Handle) {
    exists i :: 0 <= i < |log| && log[i].handle == h && (log[i].done || log[i].force)
  }

  lemma {:induction false} CallsDepend(s: seq<Handle>, due: set<Handle>, force: bool, yes: set<Handle>,
      yes': set<Handle>)
    requires forall h :: h in s ==> (h in yes <==> h in yes')
    ensures Calls(s, due, force, yes) == Calls(s, due, force, yes')
    ensures Dangling(s, due, yes) == Dangling(s, due, yes')
  {
    if s != [] {
      CallsDepend(s[..|s| - 1], due, force, yes, yes');
    }
  }

  lemma {:induction false} CallsNext(all: seq<Handle>, i: int, due: set<Handle>, force: bool, yes: set<Handle>,
      yes': set<Handle>)
    requires ByName(all) && 0 <= i < |all| && yes <= Elems(all[..i])
    requires yes' == yes || yes' == yes + {all[i]}
    ensures all[i] !in all[..i] && yes' <= Elems(all[..i + 1])
    ensures Calls(all[..i + 1], due, force, yes')
         == Calls(all[..i], due, force, yes) + if all[i] in due then [FiniCall(all[i], force, all[i] in yes')] else []
    ensures Dangling(all[..i + 1], due, yes')
         == Dangling(all[..i], due, yes) + if all[i] in due && all[i] !in yes' then 1 else 0
  {
    ElemsNext(all, i);
    assert all[..i + 1][..i] == all[..i];
    CallsDepend(all[..i], due, force, yes, yes');
  }

  lemma OneMore(some: set<Handle>, due: set<Handle>, yes: set<Handle>, h: Handle)
    requires h !in some
    ensures |due * (some + {h}) - yes| == |due * some - yes| + if h in due && h !in yes then 1 else 0
  {
    assert due * (some + {h}) - yes == (due * some - yes) + if h in due && h !in yes then {h} else {};
  }

  lemma {:induction false} DanglingCounts(s: seq<Handle>, due: set<Handle>, yes: set<Handle>)
    requires ByName(s)
    ensures Dangling(s, due, yes) == |due * Elems(s) - yes|
  {
    if s != [] {
      var t, h := s[..|s| - 1], s[|s| - 1];
      DanglingCounts(t, due, yes);
      ElemsNext(s, |s| - 1);
      OneMore(Elems(t), due, yes, h);
      assert s[..|s|] == s;
    }
  }

  lemma DanglingIsRest(s: seq<Handle>, due: set<Handle>, yes: set<Handle>)
    requires ByName(s) && due <= Elems(s)
    ensures Dangling(s, due, yes) == |due - yes|
  {
    DanglingCounts(s, due, yes);
    assert due * Elems(s) == due;
  }

  lemma {:induction false} WhoAnsweredIsFinished(before: seq<FiniCall>, s: seq<Handle>, due: set<Handle>, force: bool,
      yes: set<Handle>, h: Handle)
    requires h in s && h in due && (h in yes || force)
    ensures Finished(before + Calls(s, due, force, yes), h)
  {
    ghost var log := before + Calls(s, due, force, yes);
    if h == s[|s| - 1] {
      assert log[|log| - 1].handle == h;
    } else {
      WhoAnsweredIsFinished(before, s[..|s| - 1], due, force, yes, h);
      ghost var less := before + Calls(s[..|s| - 1], due, force, yes);
      var i :| 0 <= i < |less| && less[i].handle == h && (less[i].done || less[i].force);
      assert log[i] == less[i];
    }
  }

  /** module->fini(...), and what is done about its answer. */
  method AskOne(realm: Realm, h: Handle) returns (dangling: bool)
    requires realm.Valid() && h in realm.modules.nodes
    modifies realm`log, h`fini, h`loaded, h`scope, h`exports
    ensures realm.Valid() && dangling == h.fini
    ensures if dangling then old(h.fini) else Unused(h)
    ensures realm.log == old(realm.log) + (if old(h.fini) then [FiniCall(h, false, !dangling)] else [])
  {
    hide Realm.Ledger, Memo.Valid;
    realm.Parts();
    if h.fini {
      var done: bool := *;
      realm.log := realm.log + [FiniCall(h, false, done)];
      if !done {
        return true;
      }
      h.fini := false;
    }
    realm.MarkModuleUnused(h);
    return false;
  }

  method ForceOne(realm: Realm, h: Handle) returns (ghost done: bool)
    requires realm.Valid() && h in realm.modules.nodes && h.fini
    modifies realm`log, h`fini, h`loaded, h`scope, h`exports
    ensures realm.Valid() && Unused(h)
    ensures realm.log == old(realm.log) + [FiniCall(h, true, done)]
  {
    hide Realm.Ledger, Memo.Valid;
    realm.Parts();
    var answer: bool := *;
    done := answer;
    realm.log := realm.log + [FiniCall(h, true, answer)];
    h.fini := false;
    realm.MarkModuleUnused(h);
  }

  /** Where a walk over the memo in order is, after i steps: at x. */
  ghost predicate Walking(realm: Realm, all: seq<Handle>, i: int, x: Handle?)
    reads realm`nextToken, realm`unreachable, realm`handles, realm`queued, realm`destroyed, realm`minted
    reads realm`log, realm`events, realm`runs
    reads realm.modules, realm.modules.nodes`left, realm.modules.nodes`right, realm.modules.nodes`up
    reads realm.modules.nodes`lo, realm.modules.nodes`hi
    reads realm.queued`next, realm.handles`released, realm.modules.nodes`fini
  {
    && realm.Valid() && realm.modules.Inorder() == all && ByName(all) && Elems(all) == realm.modules.nodes
    && 0 <= i <= |all| && x == if i < |all| then all[i] else null
  }

  method First(realm: Realm) returns (x: Handle?)
    requires realm.Valid()
    modifies realm.modules`root, realm.modules`lo, realm.modules`hi
    modifies realm.modules.nodes`left, realm.modules.nodes`right, realm.modules.nodes`up
    modifies realm.modules.nodes`lo, realm.modules.nodes`hi
    ensures Walking(realm, old(realm.modules.Inorder()), 0, x)
  {
    x := realm.modules.MinMax(-1);
    realm.modules.InorderLists();
  }

  method Following(realm: Realm, x: Handle, ghost all: seq<Handle>, ghost i: int) returns (next: Handle?)
    requires Walking(realm, all, i, x)
    modifies realm.modules`root, realm.modules`lo, realm.modules`hi
    modifies realm.modules.nodes`left, realm.modules.nodes`right, realm.modules.nodes`up
    modifies realm.modules.nodes`lo, realm.modules.nodes`hi
    ensures Walking(realm, all, i + 1, next)
  {
    next := realm.modules.NextAt(x, i);
  }

  /** After i steps of a round: what is still due, and what the answers were. */
  ghost predicate Round(all: seq<Handle>, i: int, due: set<Handle>, agreed: set<Handle>)
    requires 0 <= i <= |all|
    reads all`fini, all`loaded, all`scope, all`exports
  {
    && (forall j {:trigger all[j].fini} :: 0 <= j < i ==> all[j].fini || Unused(all[j]))
    && (forall j {:trigger all[j].fini} :: 0 <= j < |all| ==> (all[j].fini <==> all[j] in due && all[j] !in agreed))
  }

  method AskNext(realm: Realm, x: Handle, ghost all: seq<Handle>, ghost i: int, ghost due: set<Handle>,
      ghost agreed: set<Handle>)
    returns (stays: bool, ghost agreed': set<Handle>)
    requires Walking(realm, all, i, x) && Round(all, i, due, agreed) && x !in agreed
    modifies realm`log, x`fini, x`loaded, x`scope, x`exports
    ensures Walking(realm, all, i, x) && Round(all, i + 1, due, agreed')
    ensures (stays ==> x in due) && agreed' == if x in due && !stays then agreed + {x} else agreed
    ensures realm.log == old(realm.log) + if x in due then [FiniCall(x, false, x in agreed')] else []
  {
    hide Realm.Valid;
    assert all[i] == x && x in Elems(all) && (x.fini <==> x in due);
    assert forall j :: 0 <= j < |all| && j != i ==> all[j] != x;
    stays := AskOne(realm, x);
    agreed' := if x in due && !stays then agreed + {x} else agreed;
  }

  /** The calls of a round, and how many have not agreed, after i steps. */
  ghost predicate Progress(before: seq<FiniCall>, log: seq<FiniCall>, all: seq<Handle>, i: int, due: set<Handle>,
      agreed: set<Handle>, dangling: nat) {
    && 0 <= i <= |all| && due <= Elems(all) && agreed <= Elems(all[..i])
    && log == before + Calls(all[..i], due, false, agreed)
    && dangling == Dangling(all[..i], due, agreed)
  }

  lemma ProgressNext(before: seq<FiniCall>, log: seq<FiniCall>, log': seq<FiniCall>, all: seq<Handle>, i: int,
      due: set<Handle>, agreed: set<Handle>, agreed': set<Handle>, dangling: nat, stays: bool)
    requires ByName(all) && i < |all| && Progress(before, log, all, i, due, agreed, dangling)
    requires (stays ==> all[i] in due) && agreed' == if all[i] in due && !stays then agreed + {all[i]} else agreed
    requires log' == log + if all[i] in due then [FiniCall(all[i], false, all[i] in agreed')] else []
    ensures Progress(before, log', all, i + 1, due, agreed', if stays then dangling + 1 else dangling)
  {
    CallsNext(all, i, due, false, agreed, agreed');
  }

  ghost predicate Asking(realm: Realm, before: seq<FiniCall>, all: seq<Handle>, i: int, due: set<Handle>,
      agreed: set<Handle>, dangling: nat, x: Handle?)
    reads realm`nextToken, realm`unreachable, realm`handles, realm`queued, realm`destroyed, realm`minted
    reads realm`log, realm`events, realm`runs
    reads realm.modules, realm.modules.nodes`left, realm.modules.nodes`right, realm.modules.nodes`up
    reads realm.modules.nodes`lo, realm.modules.nodes`hi
    reads realm.queued`next, realm.handles`released, realm.modules.nodes`fini
    reads all`fini, all`loaded, all`scope, all`exports
  {
    && Walking(realm, all, i, x) && Round(all, i, due, agreed)
    && Progress(before, realm.log, all, i, due, agreed, dangling)
  }

  method AskAndCount(realm: Realm, x: Handle, ghost before: seq<FiniCall>, ghost all: seq<Handle>, ghost i: int,
      ghost due: set<Handle>, ghost agreed: set<Handle>, dangling: nat)
    returns (ghost agreed': set<Handle>, dangling': nat)
    requires Walking(realm, all, i, x) && Round(all, i, due, agreed)
    requires Progress(before, realm.log, all, i, due, agreed, dangling)
    modifies realm`log, x`fini, x`loaded, x`scope, x`exports
    ensures Walking(realm, all, i, x) && Round(all, i + 1, due, agreed')
    ensures Progress(before, realm.log, all, i + 1, due, agreed', dangling')
  {
    ElemsNext(all, i);
    var stays;
    stays, agreed' := AskNext(realm, x, all, i, due, agreed);
    dangling' := if stays then dangling + 1 else dangling;
    ProgressNext(before, old(realm.log), realm.log, all, i, due, agreed, agreed', dangling, stays);
  }

  method AskStep(realm: Realm, x: Handle, ghost before: seq<FiniCall>, ghost all: seq<Handle>, ghost i: int,
      ghost due: set<Handle>, ghost agreed: set<Handle>, dangling: nat)
    returns (next: Handle?, ghost agreed': set<Handle>, dangling': nat)
    requires Asking(realm, before, all, i, due, agreed, dangling, x)
    modifies realm`log, realm.modules`root, realm.modules`lo, realm.modules`hi, x`fini, x`loaded, x`scope, x`exports
    modifies realm.modules.nodes`left, realm.modules.nodes`right, realm.modules.nodes`up
    modifies realm.modules.nodes`lo, realm.modules.nodes`hi
    ensures Asking(realm, before, all, i + 1, due, agreed', dangling', next)
  {
    hide Walking, Round, Progress;
    agreed', dangling' := AskAndCount(realm, x, before, all, i, due, agreed, dangling);
    next := Following(realm, x, all, i);
  }

  lemma {:induction false} RoundIsOver(realm: Realm, all: seq<Handle>, due: set<Handle>, agreed: set<Handle>)
    requires Walking(realm, all, |all|, null) && Round(all, |all|, due, agreed) && due <= Elems(all)
    ensures all[..|all|] == all && Due(realm) == due - agreed && Dangling(all[..|all|], due, agreed) == |Due(realm)|
    ensures forall h :: h in realm.modules.nodes ==> h.fini || Unused(h)
  {
    assert all[..|all|] == all;
    assert forall h :: h in realm.modules.nodes ==> h in Elems(all);
    DanglingIsRest(all, due, agreed);
    assert Due(realm) == due - agreed;
  }

  method AskFrom(realm: Realm, start: Handle?, ghost all: seq<Handle>, ghost due: set<Handle>)
    returns (dangling: nat, ghost agreed: set<Handle>)
    requires Asking(realm, realm.log, all, 0, due, {}, 0, start)
    modifies realm`log, realm.modules`root, realm.modules`lo, realm.modules`hi
    modifies realm.modules.nodes`left, realm.modules.nodes`right, realm.modules.nodes`up
    modifies realm.modules.nodes`lo, realm.modules.nodes`hi
    modifies realm.modules.nodes`fini, realm.modules.nodes`loaded
    modifies realm.modules.nodes`scope, realm.modules.nodes`exports
    ensures Asking(realm, old(realm.log), all, |all|, due, agreed, dangling, null)
  {
    var x := start;
    ghost var i := 0;
    dangling, agreed := 0, {};
    while x != null
      invariant Asking(realm, old(realm.log), all, i, due, agreed, dangling, x)
      decreases |all| - i
    {
      x, agreed, dangling := AskStep(realm, x, old(realm.log), all, i, due, agreed, dangling);
      i := i + 1;
    }
  }

  /** One round of the shutdown: every fini function that is due is asked, without force. */
  method AskAll(realm: Realm) returns (dangling: nat, ghost agreed: set<Handle>)
    requires realm.Valid()
    modifies realm`log, realm.modules`root, realm.modules`lo, realm.modules`hi
    modifies realm.modules.nodes`left, realm.modules.nodes`right, realm.modules.nodes`up
    modifies realm.modules.nodes`lo, realm.modules.nodes`hi
    modifies realm.modules.nodes`fini, realm.modules.nodes`loaded
    modifies realm.modules.nodes`scope, realm.modules.nodes`exports
    ensures realm.Valid() && dangling == |Due(realm)| && Due(realm) == old(Due(realm)) - agreed
    ensures forall h :: h in realm.modules.nodes ==> h.fini || Unused(h)
    ensures realm.log == old(realm.log) + Calls(old(realm.modules.Inorder()), old(Due(realm)), false, agreed)
  {
    ghost var all, due := realm.modules.Inorder(), Due(realm);
    var x := First(realm);
    dangling, agreed := AskFrom(realm, x, all, due);
    RoundIsOver(realm, all, due, agreed);
  }

  // ----------------------------------------------------------- by force

  /** After i steps of the round that forces the fini functions still due. */
  ghost predicate Forced(all: seq<Handle>, i: int, due: set<Handle>)
    requires 0 <= i <= |all|
    reads all`fini, all`loaded, all`scope, all`exports
  {
    && (forall j {:trigger all[j].fini} :: 0 <= j < |all| ==> all[j].fini || Unused(all[j]))
    && (forall j {:trigger all[j].fini} :: 0 <= j < |all| ==> (all[j].fini <==> i <= j && all[j] in due))
  }

  ghost predicate Forcing(realm: Realm, before: seq<FiniCall>, all: seq<Handle>, i: int, due: set<Handle>,
      yes: set<Handle>, x: Handle?)
    reads realm`nextToken, realm`unreachable, realm`handles, realm`queued, realm`destroyed, realm`minted
    reads realm`log, realm`events, realm`runs
    reads realm.modules, realm.modules.nodes`left, realm.modules.nodes`right, realm.modules.nodes`up
    reads realm.modules.nodes`lo, realm.modules.nodes`hi
    reads realm.queued`next, realm.handles`released, realm.modules.nodes`fini
    reads all`fini, all`loaded, all`scope, all`exports
  {
    && Walking(realm, all, i, x) && Forced(all, i, due)
    && yes <= Elems(all[..i]) && realm.log == before + Calls(all[..i], due, true, yes)
  }

  method ForceNext(realm: Realm, x: Handle, ghost all: seq<Handle>, ghost i: int, ghost due: set<Handle>,
      ghost yes: set<Handle>)
    returns (ghost yes': set<Handle>)
    requires Walking(realm, all, i, x) && Forced(all, i, due) && x !in yes
    modifies realm`log, x`fini, x`loaded, x`scope, x`exports
    ensures Walking(realm, all, i, x) && Forced(all, i + 1, due)
    ensures yes' == yes || yes' == yes + {x}
    ensures realm.log == old(realm.log) + if x in due then [FiniCall(x, true, x in yes')] else []
  {
    hide Realm.Valid;
    assert all[i] == x && x in Elems(all) && (x.fini <==> x in due);
    assert forall j :: 0 <= j < |all| && j != i ==> all[j] != x;
    yes' := yes;
    if x.fini {
      ghost var done := ForceOne(realm, x);
      yes' := if done then yes + {x} else yes;
    }
  }

  method ForceAndRecord(realm: Realm, x: Handle, ghost before: seq<FiniCall>, ghost all: seq<Handle>, ghost i: int,
      ghost due: set<Handle>, ghost yes: set<Handle>)
    returns (ghost yes': set<Handle>)
    requires Forcing(realm, before, all, i, due, yes, x)
    modifies realm`log, x`fini, x`loaded, x`scope, x`exports
    ensures Walking(realm, all, i, x) && Forced(all, i + 1, due)
    ensures yes' <= Elems(all[..i + 1]) && realm.log == before + Calls(all[..i + 1], due, true, yes')
  {
    hide Realm.Valid, Forced;
    ElemsNext(all, i);
    yes' := ForceNext(realm, x, all, i, due, yes);
    CallsNext(all, i, due, true, yes, yes');
  }

  method ForceStep(realm: Realm, x: Handle, ghost before: seq<FiniCall>, ghost all: seq<Handle>, ghost i: int,
      ghost due: set<Handle>, ghost yes: set<Handle>)
    returns (next: Handle?, ghost yes': set<Handle>)
    requires Forcing(realm, before, all, i, due, yes, x)
    modifies realm`log, realm.modules`root, realm.modules`lo, realm.modules`hi, x`fini, x`loaded, x`scope, x`exports
    modifies realm.modules.nodes`left, realm.modules.nodes`right, realm.modules.nodes`up
    modifies realm.modules.nodes`lo, realm.modules.nodes`hi
    ensures Forcing(realm, before, all, i + 1, due, yes', next)
  {
    hide Walking, Forced;
    yes' := ForceAndRecord(realm, x, before, all, i, due, yes);
    next := Following(realm, x, all, i);
  }

  method ForceFrom(realm: Realm, start: Handle?, ghost all: seq<Handle>, ghost due: set<Handle>)
    returns (ghost yes: set<Handle>)
    requires Forcing(realm, realm.log, all, 0, due, {}, start)
    modifies realm`log, realm.modules`root, realm.modules`lo, realm.modules`hi
    modifies realm.modules.nodes`left, realm.modules.nodes`right, realm.modules.nodes`up
    modifies realm.modules.nodes`lo, realm.modules.nodes`hi
    modifies realm.modules.nodes`fini, realm.modules.nodes`loaded
    modifies realm.modules.nodes`scope, realm.modules.nodes`exports
    ensures Forcing(realm, old(realm.log), all, |all|, due, yes, null)
  {
    var x := start;
    ghost var i := 0;
    yes := {};
    while x != null
      invariant Forcing(realm, old(realm.log), all, i, due, yes, x)
      decreases |all| - i
    {
      x, yes := ForceStep(realm, x, old(realm.log), all, i, due, yes);
      i := i + 1;
    }
  }

  lemma ForceStarts(realm: Realm, all: seq<Handle>)
    requires Elems(all) == realm.modules.nodes && forall h :: h in realm.modules.nodes ==> h.fini || Unused(h)
    ensures Forced(all, 0, Due(realm))
  {
    assert forall j :: 0 <= j < |all| ==> all[j] in Elems(all);
  }

  lemma ForceIsOver(realm: Realm, all: seq<Handle>, due: set<Handle>)
    requires Elems(all) == realm.modules.nodes && Forced(all, |all|, due)
    ensures all[..|all|] == all && forall h :: h in realm.modules.nodes ==> Unused(h)
  {
    forall h | h in realm.modules.nodes
      ensures Unused(h)
    {
      assert h in Elems(all);
      var j :| 0 <= j < |all| && all[j] == h;
      assert all[j].fini || Unused(all[j]);
    }
  }

  /** The last round: every fini function still due is called with force, whatever it says. */
  method ForceAll(realm: Realm) returns (ghost yes: set<Handle>)
    requires realm.Valid() && forall h :: h in realm.modules.nodes ==> h.fini || Unused(h)
    modifies realm`log, realm.modules`root, realm.modules`lo, realm.modules`hi
    modifies realm.modules.nodes`left, realm.modules.nodes`right, realm.modules.nodes`up
    modifies realm.modules.nodes`lo, realm.modules.nodes`hi
    modifies realm.modules.nodes`fini, realm.modules.nodes`loaded
    modifies realm.modules.nodes`scope, realm.modules.nodes`exports
    ensures realm.Valid() && forall h :: h in realm.modules.nodes ==> Unused(h)
    ensures realm.log == old(realm.log) + Calls(old(realm.modules.Inorder()), old(Due(realm)), true, yes)
  {
    ghost var all, due := realm.modules.Inorder(), Due(realm);
    var x := First(realm);
    ForceStarts(realm, all);
    yes := ForceFrom(realm, x, all, due);
    ForceIsOver(realm, all, due);
  }

  // ---------------------------------------------------- round after round

  /** What every round keeps: a handle whose fini is not due is no longer used. */
  ghost predicate Settled(realm: Realm)
    reads realm.modules`nodes, realm.modules.nodes`fini, realm.modules.nodes`loaded, realm.modules.nodes`scope
    reads realm.modules.nodes`exports
  {
    forall h :: h in realm.modules.nodes ==> h.fini || Unused(h)
  }

  /** JS_GC, between two rounds: it takes no handle whose fini is due. */
  method Collect(realm: Realm)
    requires realm.Valid() && Settled(realm)
    modifies realm`unreachable, realm`queued, realm`destroyed, realm`events, realm`log
    modifies realm.modules`root, realm.modules`lo, realm.modules`hi, realm.modules`nodes
    modifies realm.modules.nodes`left, realm.modules.nodes`right, realm.modules.nodes`up
    modifies realm.modules.nodes`lo, realm.modules.nodes`hi
    modifies realm.modules.nodes`released, realm.modules.nodes`fini, realm.modules.nodes`scope
    modifies realm.modules.nodes`exports, realm.modules.nodes`loaded, realm.modules.nodes`next
    ensures realm.Valid() && Settled(realm) && Due(realm) == old(Due(realm)) && realm.log == old(realm.log)
    ensures realm.modules.nodes <= old(realm.modules.nodes) && realm.queued == [] && realm.Onward()
  {
    hide Realm.Valid;
    var picks: set<Handle> := *;
    realm.CollectGarbage({}, picks);
    assert forall h :: h in old(realm.modules.nodes) && old(h.fini) ==> h in realm.modules.nodes;
    assert forall h :: h in realm.modules.nodes && !h.fini ==> !old(h.fini) && old(Unused(h));
  }

  lemma RoundFinishes(before: seq<FiniCall>, all: seq<Handle>, due: set<Handle>, force: bool, yes: set<Handle>)
    requires due <= Elems(all)
    ensures forall h :: h in due && (h in yes || force) ==> Finished(before + Calls(all, due, force, yes), h)
  {
    forall h | h in due && (h in yes || force)
      ensures Finished(before + Calls(all, due, force, yes), h)
    {
      assert h in Elems(all);
      WhoAnsweredIsFinished(before, all, due, force, yes, h);
    }
  }

  lemma {:induction false} CallsAreAlike(s: seq<Handle>, due: set<Handle>, force: bool, yes: set<Handle>)
    ensures forall c :: c in Calls(s, due, force, yes) ==> c.force == force
  {
    if s != [] {
      CallsAreAlike(s[..|s| - 1], due, force, yes);
    }
  }

  /** No call in log, from the first n on, is with force. */
  ghost predicate Gently(log: seq<FiniCall>, n: nat) {
    forall i :: n <= i < |log| ==> !log[i].force
  }

  /** AskAll, in terms of who is finished. */
  method AskRound(realm: Realm) returns (dangling: nat)
    requires realm.Valid()
    modifies realm`log, realm.modules`root, realm.modules`lo, realm.modules`hi
    modifies realm.modules.nodes`left, realm.modules.nodes`right, realm.modules.nodes`up
    modifies realm.modules.nodes`lo, realm.modules.nodes`hi
    modifies realm.modules.nodes`fini, realm.modules.nodes`loaded
    modifies realm.modules.nodes`scope, realm.modules.nodes`exports
    ensures realm.Valid() && Settled(realm) && dangling == |Due(realm)| && Due(realm) <= old(Due(realm))
    ensures old(realm.log) <= realm.log && Gently(realm.log, |old(realm.log)|)
    ensures forall h :: h in old(Due(realm)) ==> h in Due(realm) || Finished(realm.log, h)
  {
    ghost var all, due := realm.modules.Inorder(), Due(realm);
    realm.modules.InorderLists();
    ghost var agreed;
    dangling, agreed := AskAll(realm);
    RoundFinishes(old(realm.log), all, due, false, agreed);
    CallsAreAlike(all, due, false, agreed);
  }

  method ForceRound(realm: Realm)
    requires realm.Valid() && Settled(realm)
    modifies realm`log, realm.modules`root, realm.modules`lo, realm.modules`hi
    modifies realm.modules.nodes`left, realm.modules.nodes`right, realm.modules.nodes`up
    modifies realm.modules.nodes`lo, realm.modules.nodes`hi
    modifies realm.modules.nodes`fini, realm.modules.nodes`loaded
    modifies realm.modules.nodes`scope, realm.modules.nodes`exports
    ensures realm.Valid() && Settled(realm) && Due(realm) == {} && old(realm.log) <= realm.log
    ensures forall h :: h in old(Due(realm)) ==> Finished(realm.log, h)
  {
    ghost var all, due := realm.modules.Inorder(), Due(realm);
    realm.modules.InorderLists();
    ghost var yes := ForceAll(realm);
    RoundFinishes(old(realm.log), all, due, true, yes);
  }

  /** How many handles were dangling after each round: fewer each time, until there is
      none, or until a round changed nothing and the rest were forced. */
  ghost predicate WindsDown(rounds: seq<nat>, forced: bool) {
    && |rounds| > 0
    && (forall i, j :: 0 <= i < j < |rounds| - 1 ==> rounds[i] > rounds[j])
    && var n := |rounds| - 1;
       if forced then n > 0 && rounds[n] == rounds[n - 1] > 0
       else rounds[n] == 0 && forall i :: 0 <= i < n ==> rounds[i] > 0
  }

  /** The memo does not become empty, nothing is left on the unreachable list, and what
      has happened is not undone. */
  twostate predicate Remaining(realm: Realm)
    reads realm`handles, realm`queued, realm`destroyed, realm`log, realm`events, realm`runs, realm`minted
    reads realm.modules`nodes
  {
    && (realm.modules.nodes == {} ==> old(realm.modules.nodes) == {})
    && (old(realm.queued) == [] ==> realm.queued == [])
    && old(realm.handles) <= realm.handles && old(realm.log) <= realm.log && old(realm.events) <= realm.events
    && old(realm.runs) <= realm.runs && old(realm.minted) <= realm.minted && old(realm.destroyed) <= realm.destroyed
  }

  /** A round, and a collection if it left anything dangling. */
  method AskAndCollect(realm: Realm) returns (dangling: nat)
    requires realm.Valid()
    modifies realm`unreachable, realm`queued, realm`destroyed, realm`events, realm`log
    modifies realm.modules`root, realm.modules`lo, realm.modules`hi, realm.modules`nodes
    modifies realm.modules.nodes`left, realm.modules.nodes`right, realm.modules.nodes`up
    modifies realm.modules.nodes`lo, realm.modules.nodes`hi
    modifies realm.modules.nodes`released, realm.modules.nodes`fini, realm.modules.nodes`scope
    modifies realm.modules.nodes`exports, realm.modules.nodes`loaded, realm.modules.nodes`next
    ensures realm.Valid() && Settled(realm) && realm.modules.nodes <= old(realm.modules.nodes)
    ensures dangling == |Due(realm)| && Due(realm) <= old(Due(realm))
    ensures old(realm.log) <= realm.log && Gently(realm.log, |old(realm.log)|)
    ensures forall h :: h in old(Due(realm)) ==> h in Due(realm) || Finished(realm.log, h)
    ensures Remaining(realm) && (dangling == 0 ==> realm.modules.nodes == old(realm.modules.nodes))
    ensures dangling > 0 ==> realm.queued == []
  {
    hide Realm.Valid, Settled, Finished;
    dangling := AskRound(realm);
    if dangling > 0 {
      Collect(realm);
    }
  }

  lemma FinishedStays(log: seq<FiniCall>, more: seq<FiniCall>, due: set<Handle>, left: set<Handle>)
    requires log <= more && forall h :: h in due ==> h in left || Finished(log, h)
    ensures forall h :: h in due ==> h in left || Finished(more, h)
  {
    forall h | h in due && h !in left
      ensures Finished(more, h)
    {
      var i :| 0 <= i < |log| && log[i].handle == h && (log[i].done || log[i].force);
      assert more[i] == log[i];
    }
  }

  ghost predicate StillWinding(rounds: seq<nat>, dangling: nat, due: nat) {
    && (forall i, j :: 0 <= i < j < |rounds| ==> rounds[i] > rounds[j])
    && (forall i :: 0 <= i < |rounds| ==> rounds[i] > 0)
    && if rounds == [] then dangling == 0 else dangling == rounds[|rounds| - 1] == due
  }

  /** One turn of the loop in gpsee_shutdownModuleSystem. */
  method ShutdownTurn(realm: Realm, last: nat) returns (dangling: nat, forced: bool)
    requires realm.Valid()
    modifies realm`unreachable, realm`queued, realm`destroyed, realm`events, realm`log
    modifies realm.modules`root, realm.modules`lo, realm.modules`hi, realm.modules`nodes
    modifies realm.modules.nodes`left, realm.modules.nodes`right, realm.modules.nodes`up
    modifies realm.modules.nodes`lo, realm.modules.nodes`hi
    modifies realm.modules.nodes`released, realm.modules.nodes`fini, realm.modules.nodes`scope
    modifies realm.modules.nodes`exports, realm.modules.nodes`loaded, realm.modules.nodes`next
    ensures realm.Valid() && Settled(realm) && realm.modules.nodes <= old(realm.modules.nodes)
    ensures forced <==> dangling == last > 0
    ensures if forced then Due(realm) == {} else dangling == |Due(realm)| && Due(realm) <= old(Due(realm))
    ensures old(realm.log) <= realm.log && (!forced ==> Gently(realm.log, |old(realm.log)|))
    ensures forall h :: h in old(Due(realm)) ==> h in Due(realm) || Finished(realm.log, h)
    ensures Remaining(realm) && (dangling == 0 ==> realm.modules.nodes == old(realm.modules.nodes))
    ensures dangling > 0 ==> realm.queued == []
  {
    hide Realm.Valid, Settled, Gently, Finished, Due;
    dangling := AskAndCollect(realm);
    forced := dangling > 0 && dangling == last;
    if forced {
      ghost var log, left := realm.log, Due(realm);
      ForceRound(realm);
      FinishedStays(log, realm.log, old(Due(realm)), left);
    }
  }

  /** The calls made and the answers got so far, when due was due at the start and left
      is due now. */
  ghost predicate WindingDown(before: seq<FiniCall>, log: seq<FiniCall>, due: set<Handle>, left: set<Handle>,
      rounds: seq<nat>, dangling: nat, forced: bool, again: bool) {
    && before <= log && (!forced ==> Gently(log, |before|))
    && (forall h :: h in due ==> h in left || Finished(log, h))
    && if again then !forced && StillWinding(rounds, dangling, |left|) else left == {} && WindsDown(rounds, forced)
  }

  lemma TurnWindsDown(before: seq<FiniCall>, log: seq<FiniCall>, log': seq<FiniCall>, due: set<Handle>,
      left: set<Handle>, left': set<Handle>, rounds: seq<nat>, dangling: nat, dangling': nat, forced: bool)
    requires WindingDown(before, log, due, left, rounds, dangling, false, true)
    requires log <= log' && (!forced ==> Gently(log', |log|)) && (forced <==> dangling' == dangling > 0)
    requires if forced then left' == {} else dangling' == |left'| && left' <= left
    requires forall h :: h in left ==> h in left' || Finished(log', h)
    ensures WindingDown(before, log', due, left', rounds + [dangling'], dangling', forced, dangling' > 0 && !forced)
    ensures !forced && dangling' > 0 ==> |left'| < |left| + if rounds == [] then 1 else 0
  {
    FinishedStays(log, log', due, left);
    if !forced {
      SubsetIsSmaller(left', left);
    }
  }

  lemma NotBegun(log: seq<FiniCall>, due: set<Handle>)
    ensures WindingDown(log, log, due, due, [], 0, false, true)
  {
  }

  lemma Over(realm: Realm, before: seq<FiniCall>, due: set<Handle>, rounds: seq<nat>, dangling: nat, forced: bool,
      again: bool)
    requires realm.Valid() && Settled(realm) && !again
    requires WindingDown(before, realm.log, due, Due(realm), rounds, dangling, forced, again)
    ensures WindingDown(before, realm.log, due, {}, rounds, 0, forced, false) && NoRepeat(realm.log)
    ensures forall h :: h in realm.modules.nodes ==> Unused(h)
  {
    assert forall h :: h in realm.modules.nodes ==> h !in Due(realm);
  }

  /** gpsee_shutdownModuleSystem. It ends, whatever the fini functions answer; every fini
      function that was due has agreed, or been forced after a round that changed nothing. */
  method Shutdown(realm: Realm) returns (ghost rounds: seq<nat>, forced: bool)
    requires realm.Valid()
    modifies realm`unreachable, realm`queued, realm`destroyed, realm`events, realm`log
    modifies realm.modules`root, realm.modules`lo, realm.modules`hi, realm.modules`nodes
    modifies realm.modules.nodes`left, realm.modules.nodes`right, realm.modules.nodes`up
    modifies realm.modules.nodes`lo, realm.modules.nodes`hi
    modifies realm.modules.nodes`released, realm.modules.nodes`fini, realm.modules.nodes`scope
    modifies realm.modules.nodes`exports, realm.modules.nodes`loaded, realm.modules.nodes`next
    ensures realm.Valid() && realm.modules.nodes <= old(realm.modules.nodes)
    ensures forall h :: h in realm.modules.nodes ==> Unused(h)
    ensures WindingDown(old(realm.log), realm.log, old(Due(realm)), {}, rounds, 0, forced, false) && NoRepeat(realm.log)
    ensures Remaining(realm) && (|rounds| == 1 ==> realm.modules.nodes == old(realm.modules.nodes))
    ensures realm.Onward() && (|rounds| > 1 ==> realm.queued == [])
  {
    hide Realm.Valid, Settled, WindingDown, Finished, Gently, NoRepeat;
    var dangling, again := 0, true;
    rounds, forced := [], false;
    NotBegun(realm.log, Due(realm));
    while again
      invariant realm.Valid() && realm.modules.nodes <= old(realm.modules.nodes)
      invariant WindingDown(old(realm.log), realm.log, old(Due(realm)), Due(realm), rounds, dangling, forced, again)
      invariant if again then !forced else Settled(realm)
      invariant Remaining(realm) && (rounds == [] ==> dangling == 0)
      invariant |rounds| > 1 || (|rounds| == 1 && again) ==> realm.queued == []
      invariant |rounds| == 0 || (|rounds| == 1 && !again) ==> realm.modules.nodes == old(realm.modules.nodes)
      decreases again, |Due(realm)| + if rounds == [] then 1 else 0
    {
      ghost var log, left, last := realm.log, Due(realm), dangling;
      dangling, forced := ShutdownTurn(realm, dangling);
      again := dangling > 0 && !forced;
      TurnWindsDown(old(realm.log), log, realm.log, old(Due(realm)), left, Due(realm), rounds, last, dangling, forced);
      rounds := rounds + [dangling];
    }
    Over(realm, old(realm.log), old(Due(realm)), rounds, dangling, forced, again);
    realm.ReleasedForGood();
  }

  // ------------------------------------------------------------ cleanup

  ghost function Reversed(s: seq<Handle>): (r: seq<Handle>)
    ensures |r| == |s| && forall i :: 0 <= i < |s| ==> r[i] == s[|s| - 1 - i]
  {
    if s == [] then [] else [s[|s| - 1]] + Reversed(s[..|s| - 1])
  }

  /** The memo holds what is left of all after i removals, in order, and the list what
      was removed, last first. */
  ghost predicate Emptying(realm: Realm, all: seq<Handle>, i: int, queue: seq<Handle>, x: Handle?)
    reads realm`nextToken, realm`unreachable, realm`handles, realm`queued, realm`destroyed, realm`minted
    reads realm`log, realm`events, realm`runs
    reads realm.modules, realm.modules.nodes`left, realm.modules.nodes`right, realm.modules.nodes`up
    reads realm.modules.nodes`lo, realm.modules.nodes`hi
    reads realm.queued`next, realm.handles`released, realm.modules.nodes`fini
  {
    && 0 <= i <= |all| && Walking(realm, all[i..], 0, x) && realm.queued == Reversed(all[..i]) + queue
  }

  /** The rest of a list by name, as a list of its own. */
  lemma {:induction false} RestByName(all: seq<Handle>, i: int)
    requires ByName(all) && 0 <= i < |all|
    ensures ByName(all[i + 1..]) && Elems(all[i + 1..]) == Elems(all[i..]) - {all[i]}
  {
    ElemsOfRest(all[i..]);
    assert all[i..][1..] == all[i + 1..];
  }

  lemma {:induction false} RestOfMemo(memo: Memo, all: seq<Handle>, i: int)
    requires memo.Valid() && ByName(all) && 0 <= i < |all| && memo.nodes == Elems(all[i..]) - {all[i]}
    ensures memo.Inorder() == all[i + 1..] && Elems(all[i + 1..]) == memo.nodes
  {
    memo.InorderLists();
    RestByName(all, i);
    hide Memo.Valid, Memo.Inorder, ByName;
    ByNameIsUnique(memo.Inorder(), all[i + 1..]);
  }

  lemma {:induction false} ReversedNext(all: seq<Handle>, i: int, queue: seq<Handle>)
    requires 0 <= i < |all|
    ensures [all[i]] + (Reversed(all[..i]) + queue) == Reversed(all[..i + 1]) + queue
  {
    assert all[..i + 1][..i] == all[..i];
  }

  twostate predicate OnRecord(realm: Realm)
    reads realm`log, realm`events
  {
    old(realm.log) <= realm.log && old(realm.events) <= realm.events
  }

  /** finalizeModuleScope, whose handle must have no fini function left to run. */
  method FinaliseModuleScope(realm: Realm, h: Handle)
    requires realm.Valid() && h in realm.modules.nodes && !h.fini
    modifies realm`unreachable, realm`queued, realm`events, realm`log
    modifies realm.modules`root, realm.modules`lo, realm.modules`hi, realm.modules`nodes
    modifies realm.modules.nodes`left, realm.modules.nodes`right, realm.modules.nodes`up
    modifies realm.modules.nodes`lo, realm.modules.nodes`hi
    modifies h`released, h`fini, h`scope, h`exports, h`loaded, h`next
    ensures realm.Valid() && realm.queued == [h] + old(realm.queued)
    ensures realm.modules.nodes == old(realm.modules.nodes) - {h}
    ensures realm.log == old(realm.log) && OnRecord(realm)
  {
    assert h in realm.handles;
    realm.ReleaseModuleHandle(h);
  }

  lemma {:induction false} OneIsReleased(realm: Realm, all: seq<Handle>, i: int, queue: seq<Handle>, next: Handle?)
    requires realm.Valid() && ByName(all) && 0 <= i < |all| && next == if i + 1 < |all| then all[i + 1] else null
    requires realm.modules.nodes == Elems(all[i..]) - {all[i]}
    requires realm.queued == [all[i]] + (Reversed(all[..i]) + queue)
    ensures Emptying(realm, all, i + 1, queue, next)
  {
    RestOfMemo(realm.modules, all, i);
    ReversedNext(all, i, queue);
  }

  /** Where a memoised handle has a scope, its fini function is not due. */
  ghost predicate Cleanable(realm: Realm)
    reads realm.modules`nodes, realm.modules.nodes`scope, realm.modules.nodes`fini
  {
    forall h :: h in realm.modules.nodes && h.scope != NULL ==> !h.fini
  }

  method ReleaseOne(realm: Realm, h: Handle)
    requires realm.Valid() && h in realm.modules.nodes && (h.scope != NULL ==> !h.fini)
    modifies realm`unreachable, realm`queued, realm`events, realm`log
    modifies realm.modules`root, realm.modules`lo, realm.modules`hi, realm.modules`nodes
    modifies realm.modules.nodes`left, realm.modules.nodes`right, realm.modules.nodes`up
    modifies realm.modules.nodes`lo, realm.modules.nodes`hi
    modifies h`released, h`fini, h`scope, h`exports, h`loaded, h`next
    ensures realm.Valid() && realm.queued == [h] + old(realm.queued)
    ensures realm.modules.nodes == old(realm.modules.nodes) - {h}
    ensures !old(h.fini) ==> realm.log == old(realm.log)
    ensures OnRecord(realm)
  {
    if h.scope != NULL {
      FinaliseModuleScope(realm, h);
    } else {
      assert h in realm.handles;
      realm.ReleaseModuleHandle(h);
    }
  }

  method ReleaseQuietly(realm: Realm, h: Handle)
    requires realm.Valid() && h in realm.modules.nodes && Cleanable(realm)
    modifies realm`unreachable, realm`queued, realm`events, realm`log
    modifies realm.modules`root, realm.modules`lo, realm.modules`hi, realm.modules`nodes
    modifies realm.modules.nodes`left, realm.modules.nodes`right, realm.modules.nodes`up
    modifies realm.modules.nodes`lo, realm.modules.nodes`hi
    modifies h`released, h`fini, h`scope, h`exports, h`loaded, h`next
    ensures realm.Valid() && realm.queued == [h] + old(realm.queued)
    ensures realm.modules.nodes == old(realm.modules.nodes) - {h}
    ensures Cleanable(realm) && (old(Due(realm)) == {} ==> Due(realm) == {} && realm.log == old(realm.log))
    ensures OnRecord(realm)
  {
    assert h.fini ==> h in Due(realm);
    ReleaseOne(realm, h);
    assert Due(realm) <= old(Due(realm));
  }

  /** ReleaseOne, as a step of emptying the memo. */
  method ReleaseFirst(realm: Realm, h: Handle, ghost all: seq<Handle>, ghost i: int, ghost queue: seq<Handle>,
      ghost next: Handle?)
    requires realm.Valid() && Cleanable(realm) && ByName(all) && 0 <= i < |all| && h == all[i]
    requires realm.modules.nodes == Elems(all[i..]) && realm.queued == Reversed(all[..i]) + queue
    requires next == if i + 1 < |all| then all[i + 1] else null
    modifies realm`unreachable, realm`queued, realm`events, realm`log
    modifies realm.modules`root, realm.modules`lo, realm.modules`hi, realm.modules`nodes
    modifies realm.modules.nodes`left, realm.modules.nodes`right, realm.modules.nodes`up
    modifies realm.modules.nodes`lo, realm.modules.nodes`hi
    modifies h`released, h`fini, h`scope, h`exports, h`loaded, h`next
    ensures Emptying(realm, all, i + 1, queue, next) && realm.modules.nodes < old(realm.modules.nodes)
    ensures Cleanable(realm) && (old(Due(realm)) == {} ==> Due(realm) == {} && realm.log == old(realm.log))
    ensures OnRecord(realm)
  {
    ReleaseQuietly(realm, h);
    OneIsReleased(realm, all, i, queue, next);
  }

  method CleanupStep(realm: Realm, h: Handle, ghost all: seq<Handle>, ghost i: int, ghost queue: seq<Handle>)
    returns (next: Handle?)
    requires Emptying(realm, all, i, queue, h) && ByName(all) && Cleanable(realm)
    modifies realm`unreachable, realm`queued, realm`events, realm`log
    modifies realm.modules`root, realm.modules`lo, realm.modules`hi, realm.modules`nodes
    modifies realm.modules.nodes`left, realm.modules.nodes`right, realm.modules.nodes`up
    modifies realm.modules.nodes`lo, realm.modules.nodes`hi
    modifies h`released, h`fini, h`scope, h`exports, h`loaded, h`next
    ensures Emptying(realm, all, i + 1, queue, next) && Cleanable(realm)
    ensures realm.modules.nodes <= old(realm.modules.nodes)
    ensures i < |all|
    ensures old(Due(realm)) == {} ==> Due(realm) == {} && realm.log == old(realm.log)
    ensures OnRecord(realm)
  {
    hide Realm.Valid, Cleanable, Due, Reversed, ByName, Memo.Inorder;
    assert h in Elems(all[i..]);
    next := Following(realm, h, all[i..], 0);
    ReleaseFirst(realm, h, all, i, queue, next);
  }

  method CleanupFrom(realm: Realm, start: Handle?, ghost all: seq<Handle>, ghost queue: seq<Handle>)
    requires Emptying(realm, all, 0, queue, start) && ByName(all) && Cleanable(realm)
    modifies realm`unreachable, realm`queued, realm`events, realm`log
    modifies realm.modules`root, realm.modules`lo, realm.modules`hi, realm.modules`nodes
    modifies realm.modules.nodes`left, realm.modules.nodes`right, realm.modules.nodes`up
    modifies realm.modules.nodes`lo, realm.modules.nodes`hi
    modifies realm.modules.nodes`released, realm.modules.nodes`fini, realm.modules.nodes`scope
    modifies realm.modules.nodes`exports, realm.modules.nodes`loaded, realm.modules.nodes`next
    ensures Emptying(realm, all, |all|, queue, null)
    ensures old(Due(realm)) == {} ==> realm.log == old(realm.log)
    ensures OnRecord(realm)
  {
    hide Emptying, Cleanable, Due;
    var x := start;
    ghost var i := 0;
    while x != null
      invariant Emptying(realm, all, i, queue, x) && Cleanable(realm) && realm.modules.nodes <= old(realm.modules.nodes)
      invariant old(Due(realm)) == {} ==> Due(realm) == {} && realm.log == old(realm.log)
      invariant OnRecord(realm)
      decreases |all| - i
    {
      EmptyingAt(realm, all, i, queue, x);
      x := CleanupStep(realm, x, all, i, queue);
      i := i + 1;
    }
    EmptyingAt(realm, all, i, queue, x);
  }

  lemma EmptyingAt(realm: Realm, all: seq<Handle>, i: int, queue: seq<Handle>, x: Handle?)
    requires Emptying(realm, all, i, queue, x)
    ensures if x == null then i == |all| else x in realm.modules.nodes
  {
    assert x != null ==> x in Elems(all[i..]);
  }

  lemma {:induction false} EmptyingBegins(realm: Realm, all: seq<Handle>, queue: seq<Handle>, x: Handle?)
    requires Walking(realm, all, 0, x) && realm.queued == queue
    ensures Emptying(realm, all, 0, queue, x) && ByName(all)
  {
    assert all[0..] == all && Reversed(all[..0]) + queue == queue;
  }

  lemma {:induction false} EmptyingEnds(realm: Realm, all: seq<Handle>, queue: seq<Handle>)
    requires Emptying(realm, all, |all|, queue, null)
    ensures realm.Valid() && realm.modules.nodes == {} && realm.queued == Reversed(all) + queue
  {
    assert all[..|all|] == all && all[|all|..] == [];
  }

  /** gpsee_moduleSystemCleanup: although the successor is taken before each removal, the
      memo ends empty, with its handles on the list in descending order of their names. */
  method Cleanup(realm: Realm)
    requires realm.Valid() && Cleanable(realm)
    modifies realm`unreachable, realm`queued, realm`events, realm`log
    modifies realm.modules`root, realm.modules`lo, realm.modules`hi, realm.modules`nodes
    modifies realm.modules.nodes`left, realm.modules.nodes`right, realm.modules.nodes`up
    modifies realm.modules.nodes`lo, realm.modules.nodes`hi
    modifies realm.modules.nodes`released, realm.modules.nodes`fini, realm.modules.nodes`scope
    modifies realm.modules.nodes`exports, realm.modules.nodes`loaded, realm.modules.nodes`next
    ensures realm.Valid() && realm.modules.nodes == {} && realm.Onward()
    ensures realm.queued == Reversed(old(realm.modules.Inorder())) + old(realm.queued)
    ensures old(Due(realm)) == {} ==> realm.log == old(realm.log)
  {
    hide Realm.Valid, Cleanable, Due, Emptying, Walking;
    realm.Parts();
    ghost var all, queue := realm.modules.Inorder(), realm.queued;
    var x := First(realm);
    EmptyingBegins(realm, all, queue, x);
    CleanupFrom(realm, x, all, queue);
    EmptyingEnds(realm, all, queue);
    realm.ReleasedForGood();
  }

  /** JS_GC, where the collector picks certain handles, and then the shutdown: it leaves
      nothing in the memo exactly if that collection took everything. */
  method CollectAndShutDown(realm: Realm, picks: set<Handle>) returns (ghost rounds: seq<nat>)
    requires realm.Valid()
    modifies realm`unreachable, realm`queued, realm`destroyed, realm`events, realm`log
    modifies realm.modules`root, realm.modules`lo, realm.modules`hi, realm.modules`nodes
    modifies realm.modules.nodes`left, realm.modules.nodes`right, realm.modules.nodes`up
    modifies realm.modules.nodes`lo, realm.modules.nodes`hi
    modifies realm.modules.nodes`released, realm.modules.nodes`fini, realm.modules.nodes`scope
    modifies realm.modules.nodes`exports, realm.modules.nodes`loaded, realm.modules.nodes`next
    ensures realm.Valid() && Cleanable(realm) && Due(realm) == {} && realm.queued == [] && realm.Onward()
    ensures forall h :: h in realm.modules.nodes ==> Unused(h)
    ensures forall h :: h in old(Due(realm)) ==> Finished(realm.log, h)
    ensures var stay := old(realm.modules.nodes) - old(realm.Taken(realm.modules.nodes, picks, {}));
      realm.modules.nodes <= stay && (realm.modules.nodes == {} ==> stay == {})
      && (|rounds| == 1 ==> realm.modules.nodes == stay)
  {
    realm.CollectGarbage({}, picks);
    assert forall h :: h in old(Due(realm)) ==> h in Due(realm);
    var forced;
    rounds, forced := Shutdown(realm);
  }

  /** Destroying the contexts of the realm collects once more, where the collector picks
      certain handles; nothing drains the list any more. */
  method CollectLate(realm: Realm, late: set<Handle>) returns (ghost first: seq<Handle>)
    requires realm.Valid() && Cleanable(realm) && Due(realm) == {}
    modifies realm`unreachable, realm`queued, realm`events, realm`log
    modifies realm.modules`root, realm.modules`lo, realm.modules`hi, realm.modules`nodes
    modifies realm.modules.nodes`left, realm.modules.nodes`right, realm.modules.nodes`up
    modifies realm.modules.nodes`lo, realm.modules.nodes`hi
    modifies realm.modules.nodes`released, realm.modules.nodes`fini, realm.modules.nodes`scope
    modifies realm.modules.nodes`exports, realm.modules.nodes`loaded, realm.modules.nodes`next
    ensures realm.Valid() && Cleanable(realm) && Due(realm) == {} && realm.log == old(realm.log) && realm.Onward()
    ensures Elems(first) == old(realm.Taken(realm.modules.nodes, late, {})) && realm.queued == first + old(realm.queued)
    ensures realm.modules.nodes == old(realm.modules.nodes) - Elems(first)
  {
    hide Realm.Valid, Realm.Taken, Elems;
    var all := realm.ListMemo();
    first := realm.FinaliseSome(all, late, {});
    realm.ReleasedForGood();
  }

  lemma AllTaken(realm: Realm, picks: set<Handle>)
    ensures realm.modules.nodes - realm.Taken(realm.modules.nodes, picks, {}) == {}
      <==> forall h :: h in realm.modules.nodes ==> h in picks && (h.loaded || h.scope == NULL) && !h.fini
  {
    var stay := realm.modules.nodes - realm.Taken(realm.modules.nodes, picks, {});
    assert forall h :: h in realm.modules.nodes && !(h in picks && realm.Collectable(h, {})) ==> h in stay;
  }

  lemma UnusedAreTaken(realm: Realm, picks: set<Handle>)
    requires forall h :: h in realm.modules.nodes ==> Unused(h)
    ensures realm.Taken(realm.modules.nodes, picks, {}) == realm.modules.nodes * picks
  {
  }

  lemma WhatIsLeft(realm: Realm, left: set<Handle>)
    requires realm.Valid() && realm.modules.nodes == {} && realm.handles == left + realm.destroyed
    requires left !! realm.destroyed
    ensures Elems(realm.queued) == left && (realm.destroyed == realm.handles <==> left == {})
  {
  }

  lemma {:induction false} ReversedElems(s: seq<Handle>)
    ensures Elems(Reversed(s)) == Elems(s)
  {
    var r := Reversed(s);
    forall h | h in s
      ensures h in r
    {
      var i :| 0 <= i < |s| && s[i] == h;
      assert r[|s| - 1 - i] == h;
    }
  }

  /** gpsee_destroyRealm, after the shutdown: those that the late collection takes are on
      the list before the rest. */
  method TearDown(realm: Realm, late: set<Handle>) returns (ghost rest: seq<Handle>, ghost first: seq<Handle>)
    requires realm.Valid() && Cleanable(realm) && Due(realm) == {}
    modifies realm`unreachable, realm`queued, realm`events, realm`log
    modifies realm.modules`root, realm.modules`lo, realm.modules`hi, realm.modules`nodes
    modifies realm.modules.nodes`left, realm.modules.nodes`right, realm.modules.nodes`up
    modifies realm.modules.nodes`lo, realm.modules.nodes`hi
    modifies realm.modules.nodes`released, realm.modules.nodes`fini, realm.modules.nodes`scope
    modifies realm.modules.nodes`exports, realm.modules.nodes`loaded, realm.modules.nodes`next
    ensures realm.Valid() && realm.modules.nodes == {} && realm.log == old(realm.log) && realm.Onward()
    ensures realm.queued == rest + first + old(realm.queued)
    ensures Elems(first) == old(realm.Taken(realm.modules.nodes, late, {}))
    ensures Elems(rest) == old(realm.modules.nodes) - Elems(first)
  {
    hide Realm.Valid, Realm.Taken, Cleanable, Due, Reversed, Elems, ByName, Memo.Inorder, Memo.Valid;
    first := CollectLate(realm, late);
    realm.Parts();
    realm.modules.InorderLists();
    ReversedElems(realm.modules.Inorder());
    rest := Reversed(realm.modules.Inorder());
    Cleanup(realm);
  }

  /** The module system's part of gpsee_destroyRealm. The callback that drains the list is
      gone by the time of the cleanup, so what is then in the memo stays on the list. Every
      handle gets destroyed exactly if the collection at the start takes the whole memo:
      what it does not take, because the collector passes over it or its fini function is
      still due, keeps some handle in the memo to the end. The last on the list are those
      that the late collection takes. */
  method DestroyRealm(realm: Realm, picks: set<Handle>, late: set<Handle>)
    returns (ghost rounds: seq<nat>, ghost left: set<Handle>, ghost last: seq<Handle>)
    requires realm.Valid()
    modifies realm`unreachable, realm`queued, realm`destroyed, realm`events, realm`log
    modifies realm.modules`root, realm.modules`lo, realm.modules`hi, realm.modules`nodes
    modifies realm.modules.nodes`left, realm.modules.nodes`right, realm.modules.nodes`up
    modifies realm.modules.nodes`lo, realm.modules.nodes`hi
    modifies realm.modules.nodes`released, realm.modules.nodes`fini, realm.modules.nodes`scope
    modifies realm.modules.nodes`exports, realm.modules.nodes`loaded, realm.modules.nodes`next
    ensures realm.Valid() && realm.modules.nodes == {} && realm.Onward()
    ensures forall h :: h in old(Due(realm)) ==> Finished(realm.log, h)
    ensures Elems(realm.queued) == left && left !! realm.destroyed && left + realm.destroyed == realm.handles
    ensures left <= old(realm.modules.nodes) - old(realm.Taken(realm.modules.nodes, picks, {}))
    ensures |rounds| == 1 ==> left == old(realm.modules.nodes) - old(realm.Taken(realm.modules.nodes, picks, {}))
    ensures Elems(last) == left * late
      && |last| <= |realm.queued| && realm.queued[|realm.queued| - |last|..] == last
    ensures realm.destroyed == realm.handles
      <==> forall h :: h in old(realm.modules.nodes) ==>
        h in picks && (old(h.loaded) || old(h.scope) == NULL) && !old(h.fini)
  {
    hide Realm.Valid, Cleanable, Finished, Due, Realm.Taken, Realm.Collectable;
    AllTaken(realm, picks);
    rounds := CollectAndShutDown(realm, picks);
    left := realm.modules.nodes;
    realm.WhereEverythingIs();
    UnusedAreTaken(realm, late);
    ghost var rest;
    rest, last := TearDown(realm, late);
    assert realm.queued == rest + last;
    WhatIsLeft(realm, left);
  }
}
