/** Whole runs of a realm, from its creation to its destruction: whatever is required, in
    whatever order, and whatever the collector and the fini functions do. */
module ModuleRun {
  import opened ModuleMemo
  import opened ModuleWorld
  import opened ModuleAccounts
  import opened ModuleSystem
  import opened ModuleShutdown

  /** What is on record at some point of a run. */
  datatype Record = Record(log: seq<FiniCall>, events: seq<Event>, runs: seq<Run>, minted: seq<Minted>)

  predicate Precedes(a: Record, b: Record) {
    a.log <= b.log && a.events <= b.events && a.runs <= b.runs && a.minted <= b.minted
  }

  ghost function RecordOf(realm: Realm): Record
    reads realm`log, realm`events, realm`runs, realm`minted
  {
    Record(realm.log, realm.events, realm.runs, realm.minted)
  }

  /** Every record continues those before it. */
  ghost predicate History(past: seq<Record>) {
    forall i, j :: 0 <= i < j < |past| ==> Precedes(past[i], past[j])
  }

  ghost predicate NoneTwice<T>(s: seq<T>) {
    forall i, j :: 0 <= i < j < |s| ==> s[i] != s[j]
  }

  lemma {:induction false} HistoryGoesOn(past: seq<Record>, now: Record)
    requires History(past) && past != [] && Precedes(past[|past| - 1], now)
    ensures History(past + [now])
  {
  }

  /** Every handle that was put on the unreachable list has been destroyed. */
  ghost predicate NothingWaits(events: seq<Event>) {
    forall i :: 0 <= i < |events| && events[i].Queued? ==> Destroyed(events[i].handle) in events
  }

  lemma EmptyListMeansNothingWaits(realm: Realm)
    requires realm.Valid() && realm.queued == []
    ensures NothingWaits(realm.events)
  {
    var events := realm.events;
    forall i | 0 <= i < |events| && events[i].Queued?
      ensures Destroyed(events[i].handle) in events
    {
      assert events[i] in events;
    }
  }

  /** x are the exports that were made for h. */
  ghost predicate MadeFor(minted: seq<Minted>, h: Handle, x: Token) {
    exists i :: 0 <= i < |minted| && minted[i].handle == h && minted[i].exports == x
  }

  /** No exports were made twice, nor two for one handle. */
  ghost predicate AllDifferent(minted: seq<Minted>) {
    forall i, j :: 0 <= i < j < |minted| ==>
      minted[i].handle != minted[j].handle && minted[i].exports != minted[j].exports
  }

  /** What a require came to, and the exports it returned: those made for its handle, and
      if code was executed, for a handle that was made for that. */
  ghost predicate Issued(world: World, before: seq<Minted>, after: seq<Minted>, t: Trace, given: Token) {
    && (!t.Collected? && Succeeds(world, t) ==> !t.Refused? && MadeFor(after, t.handle, given))
    && (t.Executed? ==> forall i :: 0 <= i < |before| ==> before[i].handle != t.handle)
  }

  lemma IssuedWhenReady(realm: Realm, h: Handle, x: Token)
    requires realm.Ready({}, map[]) && h in realm.Now() && realm.Now()[h] == x
    ensures MadeFor(realm.minted, h, x)
  {
    var i :| 0 <= i < |realm.minted| && realm.minted[i] == Minted(h, h.scope, h.exports);
  }

  lemma MintedForHandles(realm: Realm)
    requires realm.Ready({}, map[])
    ensures AllDifferent(realm.minted)
    ensures forall i :: 0 <= i < |realm.minted| ==> realm.minted[i].handle in realm.handles
  {
  }

  /** One action, where no module's code is running: somebody requires a module, or the
      collector runs. */
  method Act(realm: Realm, action: Stmt) returns (given: Token, ghost t: Trace)
    requires realm.Ready({}, map[])
    modifies realm, realm.modules, realm.handles
    ensures realm.Ready({}, map[]) && realm.Onward() && fresh(realm.handles - old(realm.handles))
    ensures Answers(action, t) && realm.Told({}, old(realm.Now()), t, Succeeds(realm.world, t))
    ensures !t.Collected? && Succeeds(realm.world, t) ==>
      !t.Refused? && t.handle in realm.Now() && realm.Now()[t.handle] == given
    ensures action.Collect? ==> NothingWaits(realm.events)
    ensures Issued(realm.world, old(realm.minted), realm.minted, t, given) && AllDifferent(realm.minted)
  {
    hide Realm.Ready, Realm.Now, Realm.Valid, MadeFor, AllDifferent, Succeeds, Proper;
    MintedForHandles(realm);
    match action
    case Require(name, _) =>
      var ok, exports, account := realm.Require(name);
      given, t := exports, account;
      if ok {
        IssuedWhenReady(realm, t.handle, given);
      }
      MintedForHandles(realm);
    case Collect =>
      given := NULL;
      t := realm.CollectWhileRunning({}, map[]);
      realm.IsValid({}, map[]);
      EmptyListMeansNothingWaits(realm);
      MintedForHandles(realm);
  }

  /** ts accounts for the first actions, whatever their outcomes, from an empty realm on to
      one where now is loaded; given are the exports that the requires returned. */
  ghost predicate Accounts(world: World, actions: seq<Stmt>, ts: seq<Trace>, given: seq<Token>, runs: seq<Run>,
      now: Held) {
    && |ts| == |given| <= |actions| && AllProper(world, {}, map[], ts)
    && runs == RunsOfAll(world, ts) && now == AfterAll(world, map[], ts)
    && (forall i :: 0 <= i < |ts| ==> Answers(actions[i], ts[i]))
    && (forall i :: 0 <= i < |ts| ==> Given(world, ts, given, i))
  }

  /** The i-th require, if it succeeded, returned the exports of its module. */
  ghost predicate Given(world: World, ts: seq<Trace>, given: seq<Token>, i: int)
    requires 0 <= i < |ts| == |given|
  {
    !ts[i].Collected? && Succeeds(world, ts[i]) ==>
      var after := AfterAll(world, map[], ts[..i + 1]);
      !ts[i].Refused? && ts[i].handle in after && after[ts[i].handle] == given[i]
  }

  lemma {:induction false} AccountsNext(world: World, actions: seq<Stmt>, ts: seq<Trace>, given: seq<Token>,
      runs: seq<Run>, now: Held, t: Trace, x: Token)
    requires Accounts(world, actions, ts, given, runs, now) && |ts| < |actions| && Answers(actions[|ts|], t)
    requires Proper(world, {}, now, t)
    requires !t.Collected? && Succeeds(world, t) ==>
      !t.Refused? && t.handle in LoadedAfter(world, now, t) && LoadedAfter(world, now, t)[t.handle] == x
    ensures Accounts(world, actions, ts + [t], given + [x], runs + RunsOf(world, t), LoadedAfter(world, now, t))
  {
    hide Proper, AllProper, RunsOf, RunsOfAll, Answers, Succeeds, AfterAll, LoadedAfter;
    RunsOfNext(world, [], ts, t);
    AfterNext(world, {}, map[], ts, t);
    assert [] + RunsOfAll(world, ts) == RunsOfAll(world, ts);
    assert [] + RunsOfAll(world, ts + [t]) == RunsOfAll(world, ts + [t]);
    forall i | 0 <= i < |ts + [t]|
      ensures Given(world, ts + [t], given + [x], i)
    {
      if i < |ts| {
        assert Given(world, ts, given, i) && (ts + [t])[..i + 1] == ts[..i + 1];
      } else {
        assert (ts + [t])[..i + 1] == ts + [t];
      }
    }
  }

  lemma {:induction false} NothingYet(world: World, actions: seq<Stmt>, now: Record)
    ensures History([now]) && Accounts(world, actions, [], [], [], map[]) && Orderly(world, actions, [now], [], [])
  {
  }

  /** After each collection nothing waits, and each require issued the exports of its module. */
  ghost predicate Orderly(world: World, actions: seq<Stmt>, past: seq<Record>, ts: seq<Trace>, given: seq<Token>) {
    && |ts| == |given| <= |actions| && |ts| < |past|
    && forall i :: 0 <= i < |ts| ==>
      && (actions[i].Collect? ==> NothingWaits(past[i + 1].events))
      && Issued(world, past[i].minted, past[i + 1].minted, ts[i], given[i])
  }

  lemma {:induction false} OrderlyNext(world: World, actions: seq<Stmt>, past: seq<Record>, ts: seq<Trace>,
      given: seq<Token>, now: Record, t: Trace, x: Token)
    requires Orderly(world, actions, past, ts, given) && |past| == |ts| + 1 && |ts| < |actions|
    requires actions[|ts|].Collect? ==> NothingWaits(now.events)
    requires Issued(world, past[|ts|].minted, now.minted, t, x)
    ensures Orderly(world, actions, past + [now], ts + [t], given + [x])
  {
    hide NothingWaits, Issued;
  }

  method ActAll(realm: Realm, actions: seq<Stmt>)
    returns (given: seq<Token>, ghost past: seq<Record>, ghost ts: seq<Trace>)
    requires realm.Ready({}, map[]) && realm.runs == [] && realm.minted == [] && realm.Now() == map[]
    modifies realm, realm.modules, realm.handles
    ensures realm.Ready({}, map[]) && |past| == |actions| + 1 && fresh(realm.handles - old(realm.handles))
    ensures History(past) && past[0] == old(RecordOf(realm)) && past[|actions|] == RecordOf(realm)
    ensures |ts| == |given| == |actions| && Accounts(realm.world, actions, ts, given, realm.runs, realm.Now())
    ensures Orderly(realm.world, actions, past, ts, given) && AllDifferent(realm.minted)
  {
    hide Realm.Ready, Realm.Now, Proper, RunsOf, RunsOfAll, Answers, History, Accounts, LoadedAfter, NothingWaits;
    hide Issued, Orderly, AllDifferent, Succeeds;
    MintedForHandles(realm);
    given, past, ts := [], [RecordOf(realm)], [];
    NothingYet(realm.world, actions, RecordOf(realm));
    for i := 0 to |actions|
      invariant realm.Ready({}, map[]) && fresh(realm.handles - old(realm.handles)) && |past| == i + 1 == |ts| + 1
      invariant History(past) && past[0] == old(RecordOf(realm)) && past[i] == RecordOf(realm)
      invariant Accounts(realm.world, actions, ts, given, realm.runs, realm.Now())
      invariant AllDifferent(realm.minted) && |given| == i && Orderly(realm.world, actions, past, ts, given)
    {
      ghost var now := realm.Now();
      ghost var t;
      var x;
      x, t := Act(realm, actions[i]);
      AccountsNext(realm.world, actions, ts, given, past[i].runs, now, t, x);
      HistoryGoesOn(past, RecordOf(realm));
      OrderlyNext(realm.world, actions, past, ts, given, RecordOf(realm), t, x);
      given, past, ts := given + [x], past + [RecordOf(realm)], ts + [t];
    }
  }

  /** Modules are singletons, over a whole run: once a require has succeeded, later ones of
      the same name return the same exports, run nothing, and never fail, until an account
      says that a collection took the module. */
  lemma {:induction false} SameExportsAgain(world: World, actions: seq<Stmt>, ts: seq<Trace>, given: seq<Token>,
      runs: seq<Run>, now: Held, i: nat, j: nat)
    requires Accounts(world, actions, ts, given, runs, now) && i < j < |ts|
    requires !ts[i].Collected? && !ts[j].Collected? && ts[i].name == ts[j].name && Succeeds(world, ts[i])
    requires !ts[i].Refused? ==> !AnyTakes(ts[i + 1..j], ts[i].handle)
    ensures !ts[i].Refused? && ts[j] == Reused(ts[i].name, ts[i].handle) && given[j] == given[i]
  {
    hide AllProper, AfterAll, LoadedAfter;
    var h := ts[i].handle;
    assert Given(world, ts, given, i) && Given(world, ts, given, j);
    ProperAt(world, {}, map[], ts, i);
    GivenAsItIs(world, {}, map[], ts, h, i + 1, j);
    ProperAt(world, {}, map[], ts, j);
    ReusedIsProper(world, {}, AfterAll(world, map[], ts[..j]), h);
  }

  lemma Issue(a: Record, b: Record, h: Handle, x: Token)
    requires Precedes(a, b) && MadeFor(a.minted, h, x)
    ensures MadeFor(b.minted, h, x)
  {
    var i :| 0 <= i < |a.minted| && a.minted[i].handle == h && a.minted[i].exports == x;
    assert b.minted[i] == a.minted[i];
  }

  lemma OneEach(minted: seq<Minted>, h: Handle, k: Handle, x: Token, y: Token)
    requires AllDifferent(minted) && MadeFor(minted, h, x) && MadeFor(minted, k, y)
    ensures x == y <==> h == k
  {
    var i :| 0 <= i < |minted| && minted[i].handle == h && minted[i].exports == x;
    var j :| 0 <= j < |minted| && minted[j].handle == k && minted[j].exports == y;
  }

  lemma {:induction false} HandleOfName(world: World, actions: seq<Stmt>, ts: seq<Trace>, given: seq<Token>,
      runs: seq<Run>, now: Held, i: nat)
    requires Accounts(world, actions, ts, given, runs, now) && i < |ts| && !ts[i].Collected? && !ts[i].Refused?
    ensures ts[i].handle.cname == ts[i].name
  {
    ProperAt(world, {}, map[], ts, i);
  }

  /** Over a whole run, two requires that succeed return the same exports exactly if they
      were given the same handle. So modules of different names never share their exports;
      and one that is executed gets exports that no require has returned before. */
  lemma {:induction false} OwnExports(world: World, actions: seq<Stmt>, ts: seq<Trace>, given: seq<Token>,
      runs: seq<Run>, now: Held, past: seq<Record>, i: nat, j: nat)
    requires Accounts(world, actions, ts, given, runs, now) && |past| > |ts| && History(past) && i < j < |ts|
    requires Orderly(world, actions, past, ts, given) && AllDifferent(past[j + 1].minted)
    requires !ts[i].Collected? && !ts[j].Collected? && Succeeds(world, ts[i]) && Succeeds(world, ts[j])
    ensures !ts[i].Refused? && !ts[j].Refused? && (given[i] == given[j] <==> ts[i].handle == ts[j].handle)
    ensures ts[i].name != ts[j].name || ts[j].Executed? ==> given[i] != given[j]
  {
    assert |given| == |ts|;
    hide Accounts, AllDifferent;
    Issue(past[i + 1], past[j + 1], ts[i].handle, given[i]);
    OneEach(past[j + 1].minted, ts[i].handle, ts[j].handle, given[i], given[j]);
    HandleOfName(world, actions, ts, given, runs, now, i);
    HandleOfName(world, actions, ts, given, runs, now, j);
    if ts[j].Executed? && i + 1 < j {
      Issue(past[i + 1], past[j], ts[i].handle, given[i]);
    }
  }

  lemma {:induction false} StillOrderly(world: World, actions: seq<Stmt>, past: seq<Record>, ts: seq<Trace>,
      given: seq<Token>, now: Record)
    requires Orderly(world, actions, past, ts, given)
    ensures Orderly(world, actions, past + [now], ts, given)
  {
    hide NothingWaits, Issued;
  }

  lemma WhatTheRecordSays(realm: Realm)
    requires realm.Valid() && realm.modules.nodes == {}
    ensures NoRepeat(realm.log) && NoneTwice(realm.events) && NoneTwice(realm.runs) && AllDifferent(realm.minted)
    ensures forall h :: h in realm.handles ==> Queued(h) in realm.events
    ensures forall h :: h in realm.handles ==> (Destroyed(h) in realm.events <==> h in realm.destroyed)
    ensures realm.destroyed !! Elems(realm.queued) && realm.handles == realm.destroyed + Elems(realm.queued)
  {
  }

  /** Between requires, what is memoised is what is loaded. */
  lemma MemoIsLoaded(realm: Realm)
    requires realm.Ready({}, map[])
    ensures realm.Now().Keys == realm.modules.nodes
    ensures forall h :: h in realm.modules.nodes ==> h.loaded && h.fini == HasFini(realm.world, h.cname)
    ensures forall h :: h in realm.modules.nodes ==> (HasFini(realm.world, h.cname) <==> h in Due(realm))
  {
    hide Realm.Valid;
  }

  /** A whole run. Its history starts empty and each action only adds to it; the code that
      has run is what the accounts of the actions say; and in the end no fini function has
      been called after it was forced or had agreed, no handle has been queued or destroyed
      twice, every handle has been queued, the destruction of exactly those destroyed is on
      record, and no init function and no script has run twice. Every handle is destroyed
      exactly if the collector picked all that was loaded in the end, and none of that had
      a fini function; and those that had one have been finished. */
  method Lifetime(world: World, actions: seq<Stmt>)
    returns (realm: Realm, given: seq<Token>, picks: set<Handle>, ghost past: seq<Record>, ghost ts: seq<Trace>,
      ghost now: Held)
    ensures |past| == |actions| + 2 && History(past)
    ensures past[0] == Record([], [], [], []) && past[|actions| + 1] == RecordOf(realm)
    ensures |ts| == |given| == |actions| && Accounts(world, actions, ts, given, past[|actions|].runs, now)
    ensures Orderly(world, actions, past, ts, given)
    ensures realm.runs == past[|actions|].runs
    ensures NoRepeat(realm.log) && NoneTwice(realm.events) && NoneTwice(realm.runs) && AllDifferent(realm.minted)
    ensures forall h :: h in realm.handles ==> Queued(h) in realm.events
    ensures forall h :: h in realm.handles ==> (Destroyed(h) in realm.events <==> h in realm.destroyed)
    ensures realm.destroyed !! Elems(realm.queued) && realm.handles == realm.destroyed + Elems(realm.queued)
    ensures realm.destroyed == realm.handles <==> forall h :: h in now ==> h in picks && !HasFini(world, h.cname)
    ensures forall h :: h in now && HasFini(world, h.cname) ==> Finished(realm.log, h)
  {
    hide Realm.Ready, Realm.Valid, Accounts, History, NoRepeat, NoneTwice, Orderly, AllDifferent;
    hide Realm.Now, Realm.Taken, Finished, Due, HasFini;
    realm := new Realm(world);
    EmptyHolds(realm);
    given, past, ts := ActAll(realm, actions);
    now := realm.Now();
    MemoIsLoaded(realm);
    realm.IsValid({}, map[]);
    realm.Parts();
    picks := *;
    var late: set<Handle> := *;
    var _, _, _ := DestroyRealm(realm, picks, late);
    HistoryGoesOn(past, RecordOf(realm));
    StillOrderly(world, actions, past, ts, given, RecordOf(realm));
    past := past + [RecordOf(realm)];
    WhatTheRecordSays(realm);
  }

  lemma EmptyHolds(realm: Realm)
    requires realm.modules.nodes == {}
    ensures realm.Now() == map[] && Distinct(map[])
  {
  }

  /** gpsee_destroyRealm, where the collector picks all that there is. */
  method DestroyPickingAll(realm: Realm)
    requires realm.Valid()
    modifies realm`unreachable, realm`queued, realm`destroyed, realm`events, realm`log
    modifies realm.modules`root, realm.modules`lo, realm.modules`hi, realm.modules`nodes
    modifies realm.modules.nodes`left, realm.modules.nodes`right, realm.modules.nodes`up
    modifies realm.modules.nodes`lo, realm.modules.nodes`hi
    modifies realm.modules.nodes`released, realm.modules.nodes`fini, realm.modules.nodes`scope
    modifies realm.modules.nodes`exports, realm.modules.nodes`loaded, realm.modules.nodes`next
    ensures realm.Valid() && realm.modules.nodes == {}
    ensures realm.destroyed == realm.handles <==>
      forall h :: h in old(realm.modules.nodes) ==> (old(h.loaded) || old(h.scope) == NULL) && !old(h.fini)
    ensures forall h :: h in old(realm.modules.nodes) && old(h.fini) ==> Finished(realm.log, h)
  {
    hide Realm.Valid, Realm.Taken, Finished;
    var all := realm.ListMemo();
    var picks := set h | h in all;
    var late: set<Handle> := *;
    assert picks == realm.modules.nodes;
    assert forall h :: h in realm.modules.nodes && h.fini ==> h in Due(realm);
    var _, _, _ := DestroyRealm(realm, picks, late);
  }

  /** Modules that are scripts have no fini functions: whatever was required, nothing is
      left if the collector picks all that there is. */
  method OnlyScripts(world: World, actions: seq<Stmt>) returns (realm: Realm)
    requires forall n :: n in world ==> world[n].Disk? && world[n].dso.NoDso?
    ensures realm.destroyed == realm.handles && realm.modules.nodes == {}
  {
    hide Realm.Ready, Realm.Valid, Realm.Now, Accounts, History, Issued, AllDifferent, NothingWaits, Finished;
    realm := new Realm(world);
    EmptyHolds(realm);
    var given;
    ghost var past, ts;
    given, past, ts := ActAll(realm, actions);
    realm.IsValid({}, map[]);
    realm.Parts();
    MemoIsLoaded(realm);
    DestroyPickingAll(realm);
  }

  lemma {:induction false} EmptyBodySucceeds(world: World, running: set<int>, now: Held, t: Trace)
    requires Proper(world, running, now, t) && !t.Collected? && now == map[]
    requires Runnable(world, t.name) && !HasScript(world, t.name)
    ensures Succeeds(world, t)
  {
  }

  lemma DueIsNotTaken(realm: Realm, h: Handle)
    requires realm.Ready({}, map[]) && h in realm.Now() && HasFini(realm.world, h.cname)
    ensures h in realm.modules.nodes && h.fini
  {
  }

  lemma {:induction false} AnswersWithItsHandle(world: World, running: set<int>, now: Held, t: Trace)
    requires Proper(world, running, now, t) && !t.Collected? && !t.Refused?
    ensures t.handle.cname == t.name
  {
  }

  /** One internal module; and one native module on disk. */
  const ONE_INTERNAL: World := map[0 := Internal([])]
  const ONE_NATIVE: World := map[0 := Disk(Dso(true, [], true), NoJs)]

  /** A realm with one module, which has been required. Its fini function is due. */
  method OneModule(world: World) returns (realm: Realm, ghost h: Handle)
    requires world == ONE_INTERNAL || world == ONE_NATIVE
    ensures fresh(realm) && fresh(realm.modules) && fresh(realm.handles) && realm.Ready({}, map[])
    ensures realm.world == world && h in realm.modules.nodes && h.cname == 0 && h.loaded && h.fini
  {
    hide Realm.Ready, Proper, Succeeds, RunsOf;
    realm := new Realm(world);
    assert realm.Now() == map[];
    ghost var t;
    var ok, exports;
    ok, exports, t := realm.Require(0);
    EmptyBodySucceeds(realm.world, {}, map[], t);
    AnswersWithItsHandle(realm.world, {}, map[], t);
    DueIsNotTaken(realm, t.handle);
    h := t.handle;
  }

  /** The realm is left with handles that are never destroyed, whatever the collector
      picks, even after nothing but one require of the only module there is. */
  method OneModuleIsLeft() returns (realm: Realm)
    ensures realm.world == ONE_INTERNAL && realm.modules.nodes == {}
    ensures realm.queued != [] && realm.destroyed != realm.handles
  {
    hide Realm.Ready, Realm.Valid;
    ghost var h;
    realm, h := OneModule(ONE_INTERNAL);
    realm.IsValid({}, map[]);
    realm.Parts();
    var picks: set<Handle> := *;
    var late: set<Handle> := *;
    var _, left, _ := DestroyRealm(realm, picks, late);
  }

  /** The fini function of a native module is called, until it agrees or with force. */
  method NativeFiniIsCalled() returns (realm: Realm)
    ensures realm.world == ONE_NATIVE
    ensures exists i ::
      0 <= i < |realm.log| && realm.log[i].handle.cname == 0 && (realm.log[i].done || realm.log[i].force)
  {
    hide Realm.Ready, Realm.Valid;
    ghost var h;
    realm, h := OneModule(ONE_NATIVE);
    realm.IsValid({}, map[]);
    realm.Parts();
    assert h in Due(realm);
    var picks: set<Handle> := *;
    var late: set<Handle> := *;
    var _, _, _ := DestroyRealm(realm, picks, late);
    assert Finished(realm.log, h);
  }

  /** A script that requires, without catching, a module whose script throws. */
  const UNCAUGHT: World := map[
    0 := Disk(NoDso, Js([Require(1, false)], false)),
    1 := Disk(NoDso, Js([], true))]

  lemma {:induction false} UncaughtFails(t: Trace)
    requires Proper(UNCAUGHT, {}, map[], t) && !t.Collected? && t.name == 0
    ensures !Succeeds(UNCAUGHT, t)
  {
    var inner, start := {} + {0}, map[][t.handle := t.exports];
    assert t.first == [];
    NothingFollows(UNCAUGHT, inner, start, 0);
    ProperAt(UNCAUGHT, inner, start, t.steps, 0);
    assert Answers(Require(1, false), t.steps[0]);
  }

  /** Whatever the collector does, requiring it fails, and neither module is loaded. */
  method FailureIsPassedOn() returns (realm: Realm, ok: bool)
    ensures !ok && realm.world == UNCAUGHT && !Has(realm.Now(), 0)
  {
    hide Realm.Ready, Proper, Succeeds, RunsOf, LoadedAfter, Realm.Now;
    realm := new Realm(UNCAUGHT);
    EmptyHolds(realm);
    ghost var t;
    var exports;
    ok, exports, t := realm.Require(0);
    UncaughtFails(t);
    LoadedIfItSucceeds(UNCAUGHT, {}, map[], t);
  }

  /** A script that catches what its require throws, where there is no such module. */
  const CAUGHT: World := map[0 := Disk(NoDso, Js([Require(1, true)], false))]

  /** It is loaded all the same. */
  method FailureIsCaught() returns (realm: Realm, ok: bool)
    ensures ok && realm.world == CAUGHT && Has(realm.Now(), 0)
  {
    hide Realm.Ready, Proper, Succeeds, RunsOf, LoadedAfter, Realm.Now;
    realm := new Realm(CAUGHT);
    EmptyHolds(realm);
    ghost var t;
    var exports;
    ok, exports, t := realm.Require(0);
    ExecutedIfThereIsCode(CAUGHT, {}, map[], t);
    CaughtSucceeds(CAUGHT, {}, map[], t);
    LoadedIfItSucceeds(CAUGHT, {}, map[], t);
  }

  /** An init function that requires one module, and a script that requires two, of which
      the first throws. */
  const ORDERED: World := map[
    0 := Disk(Dso(true, [Require(3, false)], false), Js([Require(1, false), Require(2, false)], false)),
    1 := Disk(NoDso, Js([], true)),
    2 := Disk(NoDso, Js([], false)),
    3 := Disk(NoDso, Js([], false))]

  predicate IsScriptOf(r: Run, name: int) {
    r.ScriptOf? && r.handle.cname == name
  }

  lemma {:induction false} OnlyItsScript(running: set<int>, now: Held, t: Trace)
    requires Proper(ORDERED, running, now, t) && !t.Collected? && t.name in {1, 2, 3} && !Has(now, t.name)
    ensures |RunsOf(ORDERED, t)| == 1 && IsScriptOf(RunsOf(ORDERED, t)[0], t.name)
    ensures Succeeds(ORDERED, t) <==> t.name != 1
  {
    assert t.first == [] && t.steps == [];
  }

  lemma {:induction false} RunsOfOne(world: World, t: Trace)
    ensures RunsOfAll(world, [t]) == RunsOf(world, t)
  {
    assert [t][..0] == [];
  }

  lemma {:induction false} StepsInOrder(t: Trace)
    requires Proper(ORDERED, {}, map[], t) && !t.Collected? && t.name == 0
    ensures t.Executed? && t.handle.cname == 0 && |t.first| == |t.steps| == 1 && !Succeeds(ORDERED, t)
    ensures |RunsOf(ORDERED, t.first[0])| == 1 && IsScriptOf(RunsOf(ORDERED, t.first[0])[0], 3)
    ensures |RunsOf(ORDERED, t.steps[0])| == 1 && IsScriptOf(RunsOf(ORDERED, t.steps[0])[0], 1)
  {
    hide RunsOf, AllProper;
    var inner, start := {} + {0}, map[][t.handle := t.exports];
    var now := AfterAll(ORDERED, start, t.first);
    assert AllProper(ORDERED, inner, start, t.first) && AllProper(ORDERED, inner, now, t.steps);
    StepsOfInit(ORDERED, {}, map[], t, [Require(3, false)]);
    StepsOfScript(ORDERED, {}, map[], t);
    ProperAt(ORDERED, inner, start, t.first, 0);
    ProperAt(ORDERED, inner, now, t.steps, 0);
    OnlyItsScript(inner, start, t.first[0]);
    OnlyItsScript(inner, now, t.steps[0]);
  }

  lemma {:induction false} BothRun(t: Trace)
    requires t.Executed? && t.name == 0 && |t.first| == |t.steps| == 1
    ensures RunsOf(ORDERED, t) ==
      ([InitOf(t.handle)] + RunsOf(ORDERED, t.first[0])) + ([ScriptOf(t.handle)] + RunsOf(ORDERED, t.steps[0]))
  {
    hide RunsOfAll;
    assert t.first == [t.first[0]] && t.steps == [t.steps[0]];
    RunsOfOne(ORDERED, t.first[0]);
    RunsOfOne(ORDERED, t.steps[0]);
  }

  /** The init function comes first, then the script, each with what it requires; and
      what comes after the failure is never started. */
  lemma {:induction false} InWrittenOrder(t: Trace)
    requires Proper(ORDERED, {}, map[], t) && !t.Collected? && t.name == 0
    ensures var runs := RunsOf(ORDERED, t);
      && |runs| == 4 && runs[0].InitOf? && runs[0].handle.cname == 0
      && IsScriptOf(runs[1], 3) && IsScriptOf(runs[2], 0) && IsScriptOf(runs[3], 1)
  {
    StepsInOrder(t);
    hide Proper, Succeeds, RunsOf;
    BothRun(t);
  }

  method StopsAtFailure() returns (realm: Realm, ok: bool)
    ensures !ok && realm.world == ORDERED && |realm.runs| == 4
    ensures realm.runs[0].InitOf? && realm.runs[0].handle.cname == 0
    ensures IsScriptOf(realm.runs[1], 3) && IsScriptOf(realm.runs[2], 0) && IsScriptOf(realm.runs[3], 1)
  {
    hide Realm.Ready, Proper, Succeeds, RunsOf, LoadedAfter, Realm.Now;
    realm := new Realm(ORDERED);
    EmptyHolds(realm);
    ghost var t;
    var exports;
    ok, exports, t := realm.Require(0);
    StepsInOrder(t);
    InWrittenOrder(t);
    assert realm.runs == RunsOf(ORDERED, t);
  }
}
