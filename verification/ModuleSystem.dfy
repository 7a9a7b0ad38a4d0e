/** The life of module handles in a realm: acquired into the memo, loaded once,
    released onto the unreachable list, destroyed by a collection (gpsee_modules.c). */
module ModuleSystem {
  import opened ModuleMemo
  import opened ModuleWorld

  datatype FiniCall = FiniCall(handle: Handle, force: bool, done: bool)

  /** What befalls a handle: it is put on the unreachable list, and it is destroyed. */
  datatype Event = Queued(handle: Handle) | Destroyed(handle: Handle)

  /** The objects made for a handle. */
  datatype Minted = Minted(handle: Handle, scope: Token, exports: Token)

  /** No fini function runs again after it was forced, or said it was done. */
  ghost predicate NoRepeat(log: seq<FiniCall>) {
    forall i, j :: 0 <= i < j < |log| && log[i].handle == log[j].handle ==> !log[i].force && !log[i].done
  }

  /** An invariant that proofs take, and give, as one condition. */
  ghost predicate Whole(b: bool) {
    b
  }

  /** The object was made for some handle. */
  ghost predicate OnceMade(minted: seq<Minted>, x: Token) {
    exists i :: 0 <= i < |minted| && (minted[i].scope == x || minted[i].exports == x)
  }

  ghost function After(s: seq<Handle>, i: int): Handle?
    requires 0 <= i < |s|
  {
    if i + 1 < |s| then s[i + 1] else null
  }

  /** What stays as it is on a handle whose code is running. */
  datatype Pin = Pin(exports: Token, script: bool)

  lemma SubsetIsSmaller<T>(a: set<T>, b: set<T>)
    requires a <= b
    ensures |a| <= |b|
  {
    assert b == a + (b - a);
  }

  lemma OneMoreTaken(all: set<Handle>, taken: set<Handle>, done: set<Handle>, h: Handle)
    requires h !in done
    ensures all - taken * (done + {h}) == (all - taken * done) - if h in taken then {h} else {}
    ensures taken * (done + {h}) == (if h in taken then {h} else {}) + taken * done
  {
  }

  class Realm {
    const world: World
    const modules: Memo
    var nextToken: Token
    var lockDepth: nat                    // requireLockDepth
    ghost var nesting: nat                // how many modules' code is running
    ghost var deepest: nat                // the most that has been
    var unreachable: Handle?              // unreachableModule_llist
    ghost var handles: set<Handle>        // every handle there has been
    ghost var queued: seq<Handle>         // those on the unreachable list, first to last
    ghost var destroyed: set<Handle>
    ghost var log: seq<FiniCall>          // each call of a fini function, ever
    ghost var events: seq<Event>          // each queueing and each destruction, ever
    ghost var runs: seq<Run>
    ghost var minted: seq<Minted>         // the scope and exports of each handle, ever

    constructor (world: World)
      ensures Ready({}, map[]) && modules.nodes == {} && queued == [] && destroyed == {} && handles == {}
      ensures log == [] && events == [] && runs == [] && minted == []
      ensures fresh(modules) && this.world == world && lockDepth == 0
    {
      this.world := world;
      modules := new Memo();
      nextToken, lockDepth, nesting, deepest := 1, 0, 0, 0;
      unreachable := null;
      handles, queued, destroyed, log, events, runs, minted := {}, [], {}, [], [], [], [];
      new;
      hide Ready;
      Begun();
    }

    lemma Begun()
      requires modules.Valid() && modules.nodes == {} && handles == {} && queued == [] && destroyed == {}
      requires log == [] && events == [] && runs == [] && minted == [] && unreachable == null && nextToken != NULL
      requires nesting == 0 && deepest == 0
      ensures Ready({}, map[])
    {
    }

    ghost predicate Listed()
      reads `unreachable, `queued, queued`next
    {
      && unreachable == (if queued == [] then null else queued[0])
      && forall i {:trigger After(queued, i)} :: 0 <= i < |queued| ==> queued[i].next == After(queued, i)
    }

    /** Each handle is in exactly one place, once. */
    ghost predicate Placed()
      reads `handles, `queued, `destroyed, modules`nodes, handles`released
    {
      && handles == modules.nodes + Elems(queued) + destroyed
      && (forall i, j :: 0 <= i < j < |queued| ==> queued[i] != queued[j])
      && (forall h {:trigger h in queued} :: h in queued ==> h !in modules.nodes && h !in destroyed)
      && modules.nodes !! destroyed
      && (forall h {:trigger h.released} :: h in handles ==> (h.released <==> h !in modules.nodes))
    }

    /** The log has no repetition, and cannot get one as long as only handles in the
        memo whose fini is still set are asked. */
    ghost predicate Logged()
      reads `log, `handles, modules`nodes, modules.nodes`fini
    {
      && NoRepeat(log)
      && (forall i :: 0 <= i < |log| ==> log[i].handle in handles)
      && (forall i :: 0 <= i < |log| && log[i].handle in modules.nodes && log[i].handle.fini ==>
        !log[i].force && !log[i].done)
    }

    /** No handle has been queued twice or destroyed twice, and where a handle is now is
        what has happened to it. */
    ghost predicate Recorded()
      reads `events, `handles, `destroyed, modules`nodes
    {
      && (forall i, j :: 0 <= i < j < |events| ==> events[i] != events[j])
      && (forall i :: 0 <= i < |events| ==> events[i].handle in handles)
      && (forall h {:trigger Queued(h) in events} :: h in handles ==> (Queued(h) in events <==> h !in modules.nodes))
      && (forall h {:trigger Destroyed(h) in events} :: h in handles ==> (Destroyed(h) in events <==> h in destroyed))
    }

    /** No init function and no script has run twice. */
    ghost predicate RunOnce()
      reads `runs, `handles
    {
      && (forall i, j :: 0 <= i < j < |runs| ==> runs[i] != runs[j])
      && (forall i :: 0 <= i < |runs| ==> runs[i].handle in handles)
    }

    /** No object was made twice, and what is made next will be new. */
    ghost predicate Coined()
      reads `minted, `nextToken, `handles
    {
      && nextToken != NULL
      && (forall i :: 0 <= i < |minted| ==> minted[i].handle in handles)
      && (forall i :: 0 <= i < |minted| ==> NULL < minted[i].scope < minted[i].exports < nextToken)
      && (forall i, j :: 0 <= i < j < |minted| ==>
        minted[i].handle != minted[j].handle && minted[i].exports < minted[j].scope)
    }

    /** Where the handles are, and what has happened. */
    ghost predicate Ledger()
      reads `nextToken, `unreachable, `handles, `queued, `destroyed, `events, `runs, `minted
      reads modules`nodes, queued`next, handles`released
    {
      Whole(Listed() && Placed() && Recorded() && RunOnce() && Coined())
    }

    ghost predicate Valid()
      reads `nextToken, `unreachable, `handles, `queued, `destroyed, `log, `events, `runs, `minted
      reads modules, modules.nodes`left, modules.nodes`right, modules.nodes`up, modules.nodes`lo, modules.nodes`hi
      reads queued`next, handles`released, modules.nodes`fini
    {
      Whole(modules.Valid() && Ledger() && Logged())
    }

    /** Until shutdown, a memoised handle not flagged loaded has not been run or asked to
        finish, and each has the objects that were made for it. */
    ghost predicate Loadable()
      reads `log, `runs, `minted, modules`nodes, modules.nodes`loaded, modules.nodes`exports, modules.nodes`scope
      reads modules.nodes`script
    {
      && (forall h {:trigger h.script} :: h in modules.nodes && h.script ==> h.cname in world && ScriptOf(h) !in runs)
      && (forall i :: 0 <= i < |runs| && runs[i].handle in modules.nodes ==> runs[i].handle.loaded)
      && (forall h {:trigger h.exports} :: h in modules.nodes ==>
        h.exports != NULL && Minted(h, h.scope, h.exports) in minted)
      && (forall i :: 0 <= i < |log| && log[i].handle in modules.nodes ==> log[i].handle.loaded)
    }

    /** Every memoised handle is loaded, but for the one being loaded; and one that is
        loaded still has the fini function it was loaded with. */
    ghost predicate AllLoaded(but: Handle?)
      reads modules`nodes, modules.nodes`loaded, modules.nodes`fini
    {
      && (forall h {:trigger h.loaded} :: h in modules.nodes && h != but ==> h.loaded)
      && (forall h {:trigger h.loaded} :: h in modules.nodes && h.loaded ==> h.fini == HasFini(world, h.cname))
    }

    /** What is loaded, with its exports. */
    ghost function Now(): Held
      reads modules`nodes, modules.nodes`loaded, modules.nodes`exports
    {
      map h | h in modules.nodes && h.loaded :: h.exports
    }

    /** The modules whose code is running stay in the memo, flagged loaded, with their
        exports, and with their script if that is yet to come. */
    ghost predicate Pinned(pins: map<Handle, Pin>)
      reads modules`nodes, modules.nodes`loaded, modules.nodes`exports, modules.nodes`script
    {
      forall h {:trigger h in pins} :: h in pins ==>
        h in modules.nodes && h.loaded && Pin(h.exports, h.script) == pins[h]
    }

    ghost predicate InOrder(pins: map<Handle, Pin>)
      reads `nextToken, `unreachable, `handles, `queued, `destroyed, `log, `events, `runs, `minted
      reads modules, modules.nodes`left, modules.nodes`right, modules.nodes`up, modules.nodes`lo, modules.nodes`hi
      reads queued`next, handles`released, modules.nodes`fini, modules.nodes`loaded, modules.nodes`exports
      reads modules.nodes`scope, modules.nodes`script
    {
      Whole(Valid() && Loadable() && Pinned(pins))
    }

    lemma Parts()
      requires Valid()
      ensures modules.Valid() && Coined() && modules.nodes <= handles
    {
    }

    /** No two memoised handles have an object in common. */
    lemma NothingInCommon(h: Handle, k: Handle)
      requires Valid() && Loadable() && h in modules.nodes && k in modules.nodes && h != k
      ensures {h.scope, h.exports} !! {k.scope, k.exports} && h.scope != h.exports && NULL !in {h.scope, h.exports}
    {
      hide Listed, Placed, Recorded, RunOnce, Logged;
      Parts();
      assert Minted(h, h.scope, h.exports) in minted && Minted(k, k.scope, k.exports) in minted;
      var i :| 0 <= i < |minted| && minted[i] == Minted(h, h.scope, h.exports);
      var j :| 0 <= j < |minted| && minted[j] == Minted(k, k.scope, k.exports);
      assert if i < j then minted[i].exports < minted[j].scope else minted[j].exports < minted[i].scope;
    }

    /** Different modules have different exports. */
    lemma OwnExports(running: set<int>, pins: map<Handle, Pin>)
      requires Ready(running, pins)
      ensures forall h, k :: h in Now() && k in Now() && h != k ==> Now()[h] != Now()[k]
    {
      hide Valid;
      forall h, k | h in Now() && k in Now() && h != k
        ensures Now()[h] != Now()[k]
      {
        NothingInCommon(h, k);
      }
    }

    lemma WhereEverythingIs()
      requires Valid() && queued == []
      ensures handles == modules.nodes + destroyed && modules.nodes !! destroyed
    {
    }

    /** markModuleUnused: a fini that is still due is forced; what it answers is up to it. */
    method MarkModuleUnused(h: Handle)
      requires modules.Valid()
      modifies `log, h`fini, h`scope, h`exports, h`loaded
      ensures modules.Valid()
      ensures !h.loaded && h.scope == NULL && h.exports == NULL && (h.fini ==> old(h.fini))
      ensures var due := old(h.loaded && h.exports != NULL && h.fini);
        if due then log == old(log) + [FiniCall(h, true, !h.fini)] else log == old(log) && h.fini == old(h.fini)
    {
      if h.loaded && h.exports != NULL && h.fini {
        var done: bool := *;
        log := log + [FiniCall(h, true, done)];
        if done {
          h.fini := false;
        }
      }
      h.scope := NULL;
      h.exports := NULL;
      h.loaded := false;
    }

    /** h has gone from the memo to the head of the unreachable list. */
    twostate predicate Moved(new h: Handle)
      reads this, modules, modules.nodes`left, modules.nodes`right, modules.nodes`up, modules.nodes`lo, modules.nodes`hi
      reads handles`next, handles`released, handles`fini
    {
      && old(Valid()) && modules.Valid() && runs == old(runs) && nextToken == old(nextToken) && h in old(modules.nodes)
      && minted == old(minted)
      && modules.nodes == old(modules.nodes) - {h}
      && queued == [h] + old(queued) && handles == old(handles) && destroyed == old(destroyed) && unreachable == h
        && h.next == old(unreachable) && h.released
      && Elems(queued) == {h} + Elems(old(queued)) && events == old(events) + [Queued(h)]
      && (forall k :: k in old(handles) && k != h ==>
        k.next == old(k.next) && k.released == old(k.released) && k.fini == old(k.fini))
      && (log == old(log) || (old(h.fini) && exists done :: log == old(log) + [FiniCall(h, true, done)]))
    }

    twostate lemma MovedListed(new h: Handle)
      requires Moved(h)
      ensures Listed()
    {
      ghost var was := old(queued);
      forall i | 0 <= i < |queued|
        ensures queued[i].next == After(queued, i)
      {
        if i > 0 {
          assert queued[i] == was[i - 1] && was[i - 1] in was && was[i - 1] in old(Elems(queued)) && was[i - 1] != h;
          assert After(was, i - 1) == After(queued, i);
        }
      }
    }

    twostate lemma MovedPlaced(new h: Handle)
      requires Moved(h)
      ensures Placed()
    {
      assert forall i :: 1 <= i < |queued| ==> queued[i] == old(queued)[i - 1];
      forall k | k in queued
        ensures k !in modules.nodes && k !in destroyed && k.released
      {
        assert k in Elems(queued);
        assert k != h ==> k in old(queued);
      }
    }

    twostate lemma MovedLogged(new h: Handle)
      requires Moved(h)
      ensures Logged()
    {
      assert old(h in modules.nodes);
    }

    twostate lemma MovedRecorded(new h: Handle)
      requires Moved(h)
      ensures Recorded()
    {
      assert old(h in handles) && old(Queued(h) !in events);
      forall k | k in handles
        ensures Queued(k) in events <==> k !in modules.nodes
        ensures Destroyed(k) in events <==> k in destroyed
      {
        assert Queued(k) in events <==> Queued(k) in old(events) || k == h;
      }
    }

    /** The move keeps every handle in one place, and every record without repetition. */
    twostate lemma MovedValid(new h: Handle)
      requires Moved(h)
      ensures Valid()
    {
      MovedListed(h);
      MovedPlaced(h);
      MovedLogged(h);
      MovedRecorded(h);
    }

    method Enqueue(h: Handle)
      modifies `unreachable, `queued, `events, h`next
      ensures unreachable == h && h.next == old(unreachable) && queued == [h] + old(queued)
      ensures Elems(queued) == {h} + Elems(old(queued)) && events == old(events) + [Queued(h)]
    {
      h.next := unreachable;
      unreachable := h;
      ElemsOfCons(h, queued);
      queued := [h] + queued;
      events := events + [Queued(h)];
    }

    method Forget(h: Handle)
      requires modules.Valid() && h in modules.nodes
      modifies modules`root, modules`lo, modules`hi, modules`nodes
      modifies modules.nodes`left, modules.nodes`right, modules.nodes`up, modules.nodes`lo, modules.nodes`hi
      ensures modules.Valid() && modules.nodes == old(modules.nodes) - {h}
    {
      modules.DistinctNames();
      var _ := modules.Remove(h);
    }

    /** The second half of releaseModuleHandle, once the handle is out of the memo. */
    method Retire(h: Handle)
      requires modules.Valid()
      modifies `unreachable, `queued, `events, `log, h`fini, h`scope, h`exports, h`loaded, h`next
      ensures modules.Valid() && !h.loaded && h.scope == NULL && h.exports == NULL && (h.fini ==> old(h.fini))
      ensures unreachable == h && h.next == old(unreachable) && queued == [h] + old(queued)
      ensures Elems(queued) == {h} + Elems(old(queued)) && events == old(events) + [Queued(h)]
      ensures log == old(log)
        + if old(h.loaded && h.exports != NULL && h.fini) then [FiniCall(h, true, !h.fini)] else []
    {
      MarkModuleUnused(h);
      Enqueue(h);
    }

    /** releaseModuleHandle, from the point where the handle turns out not to be released. */
    method ReleaseNow(h: Handle)
      requires Valid() && h in modules.nodes
      modifies `unreachable, `queued, `events, `log, modules`root, modules`lo, modules`hi, modules`nodes
      modifies modules.nodes`left, modules.nodes`right, modules.nodes`up, modules.nodes`lo, modules.nodes`hi
      modifies h`released, h`fini, h`scope, h`exports, h`loaded, h`next
      ensures Moved(h) && !h.loaded && h.scope == NULL && h.exports == NULL
      ensures log == old(log)
        + if old(h.loaded && h.exports != NULL && h.fini) then [FiniCall(h, true, !h.fini)] else []
    {
      assert h in handles;
      h.released := true;
      Forget(h);
      Retire(h);
    }

    /** releaseModuleHandle: out of the memo, onto the unreachable list; once. */
    method ReleaseModuleHandle(h: Handle)
      requires Valid() && h in handles && h !in destroyed
      modifies `unreachable, `queued, `events, `log, modules`root, modules`lo, modules`hi, modules`nodes
      modifies modules.nodes`left, modules.nodes`right, modules.nodes`up, modules.nodes`lo, modules.nodes`hi
      modifies h`released, h`fini, h`scope, h`exports, h`loaded, h`next
      ensures Valid() && h.released
      ensures old(h.released) ==> unchanged(`queued, `events, `log, modules`nodes, h)
      ensures !old(h.released) ==> Moved(h) && !h.loaded && h.scope == NULL && h.exports == NULL
      ensures !old(h.released) ==>
        log == old(log) + if old(h.loaded && h.exports != NULL && h.fini) then [FiniCall(h, true, !h.fini)] else []
    {
      if h.released {
        return;
      }
      ReleaseNow(h);
      MovedValid(h);
    }

    /** h alone has left the memo; its fini may have been called. */
    twostate predicate Left(new h: Handle)
      reads `handles, `runs, `log, `events, `minted, modules`nodes, modules.nodes`loaded, modules.nodes`exports
      reads modules.nodes`scope, modules.nodes`fini, modules.nodes`script
    {
      && modules.nodes == old(modules.nodes) - {h} && handles == old(handles) && runs == old(runs)
      && minted == old(minted) && events == old(events) + [Queued(h)]
      && old(log) <= log && (forall i :: |old(log)| <= i < |log| ==> log[i].handle == h)
      && (forall k :: k in modules.nodes ==> k.loaded == old(k.loaded) && k.exports == old(k.exports))
      && (forall k :: k in modules.nodes ==>
        k.scope == old(k.scope) && k.fini == old(k.fini) && k.script == old(k.script))
    }

    /** releaseModuleHandle, of a handle that is still memoised. */
    method Leave(h: Handle)
      requires Valid() && h in modules.nodes
      modifies `unreachable, `queued, `events, `log, modules`root, modules`lo, modules`hi, modules`nodes
      modifies modules.nodes`left, modules.nodes`right, modules.nodes`up, modules.nodes`lo, modules.nodes`hi
      modifies h`released, h`fini, h`scope, h`exports, h`loaded, h`next
      ensures Valid() && queued == [h] + old(queued) && Left(h)
      ensures log == old(log)
        + if old(h.loaded && h.exports != NULL && h.fini) then [FiniCall(h, true, !h.fini)] else []
    {
      assert h in handles && !h.released;
      ReleaseModuleHandle(h);
    }

    lemma QueueAdvances(q: seq<Handle>)
      requires |q| > 0
      ensures Elems(q) == {q[0]} + Elems(q[1..])
      ensures forall i {:trigger After(q[1..], i)} :: 0 <= i < |q| - 1 ==> After(q[1..], i) == After(q, i + 1)
    {
      assert q == [q[0]] + q[1..];
    }

    /** The first handle of the list has been destroyed, and the list starts after it. */
    twostate predicate Advanced()
      reads `handles, `queued, `destroyed, `events, `unreachable, modules`nodes
    {
      && |old(queued)| > 0 && queued == old(queued)[1..] && handles == old(handles)
      && destroyed == old(destroyed) + {old(queued)[0]} && events == old(events) + [Destroyed(old(queued)[0])]
      && unreachable == After(old(queued), 0) && modules.nodes == old(modules.nodes)
    }

    twostate lemma AdvancedListed()
      requires old(Valid()) && Advanced() && forall h :: h in old(queued) ==> h.next == old(h.next)
      ensures Listed()
    {
      ghost var q := old(queued);
      QueueAdvances(q);
      forall i | 0 <= i < |queued|
        ensures queued[i].next == After(queued, i)
      {
        assert q[i + 1] in q && old(q[i + 1].next) == After(q, i + 1);
      }
    }

    twostate lemma AdvancedPlaced()
      requires old(Valid()) && Advanced() && forall h :: h in old(handles) ==> h.released == old(h.released)
      ensures Placed() && Recorded()
    {
      ghost var q := old(queued);
      QueueAdvances(q);
      assert q[0] in q && forall i :: 0 <= i < |queued| ==> queued[i] == q[i + 1];
      assert q[0] in handles && Destroyed(q[0]) !in old(events);
      forall k | k in handles
        ensures Queued(k) in events <==> k !in modules.nodes
        ensures Destroyed(k) in events <==> k in destroyed
      {
        assert Destroyed(k) in events <==> Destroyed(k) in old(events) || k == q[0];
      }
    }

    twostate lemma AdvancedValid()
      requires old(Valid()) && Advanced() && modules.Valid() && Logged() && RunOnce() && Coined()
      requires forall h :: h in old(handles) ==> h.next == old(h.next) && h.released == old(h.released)
      ensures Valid()
    {
      assert forall h :: h in old(queued) ==> h in old(Elems(queued));
      AdvancedListed();
      AdvancedPlaced();
    }

    /** destroyModuleHandle, of the first handle of the list: it had not been destroyed
        before, every other handle stays where it is, and what is returned is the next
        handle of the list. */
    method DestroyModuleHandle(h: Handle) returns (next: Handle?)
      requires Valid() && h == unreachable
      modifies `queued, `destroyed, `events
      ensures h !in old(destroyed) && h in destroyed && h !in queued && h !in modules.nodes
      ensures forall k :: k in handles && k != h ==>
        (k in queued <==> k in old(queued)) && (k in destroyed <==> k in old(destroyed))
      ensures next == if queued == [] then null else queued[0]
      ensures queued == old(queued)[1..] && destroyed == old(destroyed) + {h} && events == old(events) + [Destroyed(h)]
    {
      assert h == queued[0] && h in queued && queued == [h] + queued[1..];
      assert h.next == After(queued, 0);
      next := h.next;
      destroyed := destroyed + {h};
      events := events + [Destroyed(h)];
      queued := queued[1..];
    }

    method DrainOne()
      requires Valid() && unreachable != null
      modifies `unreachable, `queued, `destroyed, `events
      ensures Valid() && Advanced()
    {
      assert After(queued, 0) == if |queued| > 1 then queued[1] else null;
      unreachable := DestroyModuleHandle(unreachable);
      AdvancedValid();
    }

    /** The end of a collection: every handle on the unreachable list is destroyed. */
    method Drain()
      requires Valid()
      modifies `unreachable, `queued, `destroyed, `events
      ensures Valid() && queued == [] && destroyed == old(destroyed) + Elems(old(queued)) && old(events) <= events
    {
      while unreachable != null
        invariant Valid() && old(events) <= events
        invariant destroyed + Elems(queued) == old(destroyed) + Elems(old(queued))
        decreases |queued|
      {
        QueueAdvances(queued);
        DrainOne();
      }
    }

    method FindModuleHandle(cname: int) returns (h: Handle?)
      requires Valid()
      modifies modules`root, modules`lo, modules`hi
      modifies modules.nodes`left, modules.nodes`right, modules.nodes`up, modules.nodes`lo, modules.nodes`hi
      ensures Valid()
      ensures h != null ==> h in modules.nodes && h.cname == cname
      ensures h == null ==> forall k :: k in modules.nodes ==> k.cname != cname
    {
      var tmp := new Handle(cname);
      h := modules.Find(tmp);
    }

    /** A new handle h has been memoised. */
    twostate predicate Added(new h: Handle)
      reads this, modules, modules.nodes`left, modules.nodes`right, modules.nodes`up, modules.nodes`lo, modules.nodes`hi
      reads handles`next, handles`released, handles`fini, handles`loaded, handles`exports, handles`scope
      reads handles`script, h
    {
      && old(Valid() && Loadable()) && modules.Valid() && h !in old(handles)
      && Coined() && minted == old(minted) + [Minted(h, h.scope, h.exports)]
      && modules.nodes == old(modules.nodes) + {h} && handles == old(handles) + {h} && queued == old(queued)
      && destroyed == old(destroyed) && unreachable == old(unreachable)
      && log == old(log) && events == old(events) && runs == old(runs)
      && !h.released && !h.loaded && h.exports != NULL && !h.script
      && (forall k :: k in old(handles) ==>
        k.next == old(k.next) && k.released == old(k.released) && k.fini == old(k.fini))
      && (forall k :: k in old(handles) ==>
            k.loaded == old(k.loaded) && k.exports == old(k.exports) && k.script == old(k.script))
      && (forall k :: k in old(handles) ==> k.scope == old(k.scope))
    }

    twostate lemma AddedValid(new h: Handle)
      requires Added(h)
      ensures Valid() && Loadable()
    {
      assert forall k :: k in queued ==> k in Elems(queued);
      assert Queued(h) !in events && Destroyed(h) !in events;
    }

    method Memoise(h: Handle)
      requires modules.Valid() && forall k :: k in modules.nodes ==> k.cname != h.cname
      modifies modules`root, modules`lo, modules`hi, modules`nodes
      modifies modules.nodes`left, modules.nodes`right, modules.nodes`up, modules.nodes`lo, modules.nodes`hi
      modifies h`left, h`right, h`up, h`lo, h`hi
      ensures unchanged(h`loaded, h`released, h`exports, h`scope, h`init, h`fini, h`script)
      ensures modules.Valid() && modules.nodes == old(modules.nodes) + {h}
    {
      var other := modules.Insert(h);
    }

    /** Handles may be added, but only new ones, and nothing that has happened is undone
        or forgotten. */
    twostate predicate Kept()
      reads `handles, `log, `events, `runs, `minted, `destroyed, `nesting
    {
      && old(handles) <= handles && fresh(handles - old(handles))
      && old(log) <= log && old(events) <= events && old(runs) <= runs && old(minted) <= minted
      && old(destroyed) <= destroyed && nesting == old(nesting)
    }

    /** h is the memoised handle of that name, or a new one that has been memoised. */
    twostate predicate Acquired(cname: int, new h: Handle)
      reads `handles, modules`nodes, h
    {
      && h in modules.nodes && h.cname == cname
      && modules.nodes == old(modules.nodes) + {h} && handles == old(handles) + {h}
      && (h !in old(modules.nodes) ==>
            && fresh(h) && !h.loaded && !h.init && !h.fini && !h.script && !OnceMade(old(minted), h.scope)
            && !OnceMade(old(minted), h.exports) && h.scope != h.exports
            && (forall k :: k in old(modules.nodes) ==> k.cname != cname))
    }

    /** acquireModuleHandle: the memoised handle of that name, or a new one with a new scope. */
    method AcquireModuleHandle(cname: int) returns (h: Handle)
      requires Valid() && Loadable()
      modifies `nextToken, `handles, `minted, modules`root, modules`lo, modules`hi, modules`nodes
      modifies modules.nodes`left, modules.nodes`right, modules.nodes`up, modules.nodes`lo, modules.nodes`hi
      ensures Valid() && Loadable() && Acquired(cname, h) && Kept()
    {
      hide Valid, Loadable;
      Parts();
      var found := FindModuleHandle(cname);
      if found != null {
        return found;
      }
      h := AddHandle(cname);
    }

    method AddHandle(cname: int) returns (h: Handle)
      requires Valid() && Loadable() && forall k :: k in modules.nodes ==> k.cname != cname
      modifies `nextToken, `handles, `minted, modules`root, modules`lo, modules`hi, modules`nodes
      modifies modules.nodes`left, modules.nodes`right, modules.nodes`up, modules.nodes`lo, modules.nodes`hi
      ensures Valid() && Loadable() && fresh(h) && h.cname == cname
      ensures modules.nodes == old(modules.nodes) + {h} && handles == old(handles) + {h}
      ensures !h.loaded && h.exports != NULL && !h.init && !h.fini && !h.script
      ensures minted == old(minted) + [Minted(h, h.scope, h.exports)] && h.scope != h.exports
      ensures !OnceMade(old(minted), h.scope) && !OnceMade(old(minted), h.exports)
    {
      hide Valid, Loadable, Coined;
      Parts();
      h := NewHandle(cname);
      Memoise(h);
      AddedValid(h);
    }

    /** A new handle gets a scope and exports that no handle has ever had. */
    method NewHandle(cname: int) returns (h: Handle)
      requires Coined()
      modifies `nextToken, `handles, `minted
      ensures fresh(h) && h.cname == cname && h.scope != NULL && h.exports != NULL && h.scope != h.exports
      ensures !h.loaded && !h.released && !h.init && !h.fini && !h.script && handles == old(handles) + {h}
      ensures Coined() && minted == old(minted) + [Minted(h, h.scope, h.exports)]
      ensures !OnceMade(old(minted), h.scope) && !OnceMade(old(minted), h.exports)
    {
      h := new Handle(cname);
      h.scope, h.exports := nextToken, nextToken + 1;
      nextToken := nextToken + 2;
      handles := handles + {h};
      minted := minted + [Minted(h, h.scope, h.exports)];
    }

    /** Nothing is undone or forgotten: what has happened stays on record, a handle that
        was released stays released, and one that was destroyed stays destroyed. */
    twostate predicate Onward()
      reads `handles, `log, `events, `runs, `minted, `destroyed, handles`released
    {
      && old(handles) <= handles && old(log) <= log && old(events) <= events && old(runs) <= runs
      && old(minted) <= minted && old(destroyed) <= destroyed
      && forall h :: h in old(handles) && old(h.released) ==> h.released
    }

    /** The record of events is what makes it so. */
    twostate lemma ReleasedForGood()
      requires old(Valid()) && Valid() && old(handles) <= handles && old(events) <= events
      ensures forall h :: h in old(handles) && old(h.released) ==> h.released
    {
      forall h | h in old(handles) && old(h.released)
        ensures h.released
      {
        assert Queued(h) in old(events) && Queued(h) in events;
      }
    }

    // ------------------------------------------------------- collections

    /** What a collection may finalise: the scope of a module that is loaded, or no
        longer used, whose fini is done, and that no running script keeps alive. */
    predicate Collectable(h: Handle, running: set<int>)
      reads h`loaded, h`scope, h`fini
    {
      (h.loaded || h.scope == NULL) && !h.fini && h.cname !in running
    }

    /** Handles may have left the memo; those still in it are as they were. */
    twostate predicate Thinned()
      reads modules`nodes, `handles, `log, `events, `runs, `minted
      reads modules.nodes`loaded, modules.nodes`exports, modules.nodes`scope, modules.nodes`fini, modules.nodes`script
    {
      && modules.nodes <= old(modules.nodes) && handles == old(handles)
      && log == old(log) && old(events) <= events && runs == old(runs) && minted == old(minted)
      && (forall k {:trigger k in modules.nodes} :: k in modules.nodes ==>
        k.loaded == old(k.loaded) && k.exports == old(k.exports))
      && (forall k {:trigger k in modules.nodes} :: k in modules.nodes ==>
        k.scope == old(k.scope) && k.fini == old(k.fini) && k.script == old(k.script))
    }

    /** The same, where those that have left have their fini done and are not among the
        names given. */
    twostate predicate Shrunk(running: set<int>)
      reads modules`nodes, `handles, `log, `events, `runs, `minted
      reads modules.nodes`loaded, modules.nodes`exports, modules.nodes`scope, modules.nodes`fini, modules.nodes`script
    {
      && Thinned()
      && (forall k {:trigger k in old(modules.nodes)} ::
        k in old(modules.nodes) && (old(k.fini) || k.cname in running) ==> k in modules.nodes)
    }

    method CollectOne(h: Handle, running: set<int>)
      requires Valid() && h in modules.nodes && !h.fini && h.cname !in running
      modifies `unreachable, `queued, `events, `log, modules`root, modules`lo, modules`hi, modules`nodes
      modifies modules.nodes`left, modules.nodes`right, modules.nodes`up, modules.nodes`lo, modules.nodes`hi
      modifies h`released, h`fini, h`scope, h`exports, h`loaded, h`next
      ensures Valid() && modules.nodes == old(modules.nodes) - {h} && Shrunk(running) && queued == [h] + old(queued)
    {
      Leave(h);
    }

    method ListMemo() returns (all: seq<Handle>)
      requires Valid()
      modifies modules`root, modules`lo, modules`hi
      modifies modules.nodes`left, modules.nodes`right, modules.nodes`up, modules.nodes`lo, modules.nodes`hi
      ensures Valid() && Elems(all) == modules.nodes && ByName(all)
    {
      all := modules.Foreach();
    }

    /** Those of s that the collector picks and may take. */
    ghost function Taken(s: set<Handle>, picks: set<Handle>, running: set<int>): set<Handle>
      reads s`loaded, s`scope, s`fini
    {
      set h | h in s && h in picks && Collectable(h, running)
    }

    /** One scope, if the collector picks it and may take it. */
    method FinaliseOne(h: Handle, picks: set<Handle>, running: set<int>)
      requires Valid() && h in modules.nodes
      modifies `unreachable, `queued, `events, `log, modules`root, modules`lo, modules`hi, modules`nodes
      modifies modules.nodes`left, modules.nodes`right, modules.nodes`up, modules.nodes`lo, modules.nodes`hi
      modifies h`released, h`fini, h`scope, h`exports, h`loaded, h`next
      ensures Valid() && Shrunk(running)
      ensures modules.nodes == old(modules.nodes) - if h in picks && old(Collectable(h, running)) then {h} else {}
      ensures queued == (if h in picks && old(Collectable(h, running)) then [h] else []) + old(queued)
    {
      if h in picks && Collectable(h, running) {
        CollectOne(h, running);
      }
    }

    lemma WhoIsTaken(picks: set<Handle>, running: set<int>)
      ensures forall h :: h in modules.nodes ==>
        (h in Taken(modules.nodes, picks, running) <==> h in picks && Collectable(h, running))
      ensures Taken(modules.nodes, picks, running) <= modules.nodes
      ensures forall h :: h in modules.nodes ==>
        (Collectable(h, running) <==> (h.loaded || h.scope == NULL) && !h.fini && h.cname !in running)
    {
    }

    /** The collector goes over all scopes; those it finalises are first on the list. */
    method FinaliseSome(all: seq<Handle>, picks: set<Handle>, running: set<int>) returns (ghost first: seq<Handle>)
      requires Valid() && Elems(all) == modules.nodes && ByName(all)
      modifies `unreachable, `queued, `events, `log, modules`root, modules`lo, modules`hi, modules`nodes
      modifies modules.nodes`left, modules.nodes`right, modules.nodes`up, modules.nodes`lo, modules.nodes`hi
      modifies modules.nodes`released, modules.nodes`fini, modules.nodes`scope
      modifies modules.nodes`exports, modules.nodes`loaded, modules.nodes`next
      ensures Valid() && Shrunk(running)
      ensures modules.nodes == old(modules.nodes) - old(Taken(modules.nodes, picks, running))
      ensures queued == first + old(queued) && Elems(first) == old(Taken(modules.nodes, picks, running))
    {
      hide Valid, ByName, Elems, Taken;
      first := [];
      WhoIsTaken(picks, running);
      ghost var taken := Taken(modules.nodes, picks, running);
      var i := 0;
      while i < |all|
        invariant 0 <= i <= |all| && Valid() && Thinned()
        invariant modules.nodes == old(modules.nodes) - taken * Elems(all[..i])
        invariant queued == first + old(queued) && Elems(first) == taken * Elems(all[..i])
      {
        ElemsNext(all, i);
        InElems(all, i);
        OneMoreTaken(old(modules.nodes), taken, Elems(all[..i]), all[i]);
        FinaliseOne(all[i], picks, running);
        if all[i] in taken {
          ElemsOfCons(all[i], first);
          first := [all[i]] + first;
        }
        i := i + 1;
      }
      assert all[..i] == all;
    }

    method FinaliseAndDrain(all: seq<Handle>, picks: set<Handle>, running: set<int>)
      requires Valid() && Elems(all) == modules.nodes && ByName(all)
      modifies `unreachable, `queued, `destroyed, `events, `log, modules`root, modules`lo, modules`hi, modules`nodes
      modifies modules.nodes`left, modules.nodes`right, modules.nodes`up, modules.nodes`lo, modules.nodes`hi
      modifies modules.nodes`released, modules.nodes`fini, modules.nodes`scope
      modifies modules.nodes`exports, modules.nodes`loaded, modules.nodes`next
      ensures Valid() && Shrunk(running) && queued == [] && old(destroyed) <= destroyed
      ensures modules.nodes == old(modules.nodes) - old(Taken(modules.nodes, picks, running))
      ensures old(modules.nodes) <= modules.nodes + destroyed
    {
      hide Valid, Taken, Elems;
      Parts();
      ghost var _ := FinaliseSome(all, picks, running);
      Drain();
      WhereEverythingIs();
    }

    /** A collection: those scopes that may be finalised, and that the collector picks,
        are, and then the unreachable list is drained. */
    method CollectGarbage(running: set<int>, picks: set<Handle>)
      requires Valid()
      modifies `unreachable, `queued, `destroyed, `events, `log, modules`root, modules`lo, modules`hi, modules`nodes
      modifies modules.nodes`left, modules.nodes`right, modules.nodes`up, modules.nodes`lo, modules.nodes`hi
      modifies modules.nodes`released, modules.nodes`fini, modules.nodes`scope
      modifies modules.nodes`exports, modules.nodes`loaded, modules.nodes`next
      ensures Valid() && Shrunk(running) && queued == [] && Onward()
      ensures modules.nodes == old(modules.nodes) - old(Taken(modules.nodes, picks, running))
      ensures forall h :: h in old(modules.nodes) ==>
        if h in picks && (old(h.loaded) || old(h.scope) == NULL) && !old(h.fini) && h.cname !in running
        then h in destroyed else h in modules.nodes
    {
      hide Valid, Taken, Elems, Collectable;
      WhoIsTaken(picks, running);
      var all := ListMemo();
      FinaliseAndDrain(all, picks, running);
      ReleasedForGood();
    }

    // ----------------------------------------------------------- loading

    method SetFunctions(h: Handle, init: bool, fini: bool)
      requires Valid() && Loadable() && h in modules.nodes && !h.loaded
      modifies h`init, h`fini
      ensures Valid() && Loadable() && h.init == init && h.fini == fini
    {
      assert forall i :: 0 <= i < |log| ==> log[i].handle != h;
      h.init := init;
      h.fini := fini;
    }

    /** h is the memoised handle of that name, and nothing has been loaded or lost. */
    twostate predicate Located(name: int, new h: Handle)
      reads this, modules`nodes, modules.nodes`loaded, modules.nodes`exports
    {
      h in modules.nodes && h.cname == name && Now() == old(Now())
    }

    lemma UniqueName(h: Handle)
      requires Valid() && h in modules.nodes
      ensures forall k :: k in modules.nodes && k.cname == h.cname ==> k == h
    {
      modules.DistinctNames();
    }

    /** A handle that no loader has dealt with yet, and that there was not before. */
    twostate predicate BrandNew(new h: Handle)
      reads h`init, h`fini, h`script
    {
      h !in old(handles) && !h.init && !h.fini && !h.script
    }

    twostate lemma AcquiredIsFine(name: int, new h: Handle)
      requires old(AllLoaded(null) && modules.nodes <= handles) && Acquired(name, h)
      requires forall k :: k in old(modules.nodes) ==> k.loaded == old(k.loaded) && k.exports == old(k.exports)
      requires forall k :: k in old(modules.nodes) ==> k.fini == old(k.fini)
      ensures AllLoaded(h) && Located(name, h) && (!h.loaded ==> BrandNew(h))
    {
    }

    /** acquireModuleHandle, as seen by whoever loads a module. */
    method Locate(name: int, ghost pins: map<Handle, Pin>) returns (h: Handle)
      requires InOrder(pins) && AllLoaded(null)
      modifies `nextToken, `handles, `minted, modules`root, modules`lo, modules`hi, modules`nodes
      modifies modules.nodes`left, modules.nodes`right, modules.nodes`up, modules.nodes`lo, modules.nodes`hi
      ensures InOrder(pins) && AllLoaded(h) && Kept() && Located(name, h) && (!h.loaded ==> BrandNew(h))
    {
      hide Valid, Loadable, AllLoaded, Located, Kept;
      Parts();
      h := AcquireModuleHandle(name);
      AcquiredIsFine(name, h);
    }

    twostate lemma LeftIsFine(new h: Handle, pins: map<Handle, Pin>)
      requires h in old(modules.nodes) && h !in pins && Left(h)
      requires old(Loadable() && Pinned(pins) && AllLoaded(h))
      ensures Loadable() && Pinned(pins) && AllLoaded(null) && Now() == old(Now()) - {h}
    {
    }

    /** No handle of that name is memoised. */
    ghost predicate Absent(name: int)
      reads modules`nodes
    {
      forall h :: h in modules.nodes ==> h.cname != name
    }

    /** releaseModuleHandle, on a module that could not be loaded. */
    method GiveUp(h: Handle, ghost pins: map<Handle, Pin>)
      requires InOrder(pins) && AllLoaded(h) && h in modules.nodes && h !in pins
      modifies `unreachable, `queued, `events, `log, modules`root, modules`lo, modules`hi, modules`nodes
      modifies modules.nodes`left, modules.nodes`right, modules.nodes`up, modules.nodes`lo, modules.nodes`hi
      modifies h`released, h`fini, h`scope, h`exports, h`loaded, h`next
      ensures InOrder(pins) && AllLoaded(null) && unchanged(`handles, `runs) && Kept()
      ensures modules.nodes == old(modules.nodes) - {h} && Absent(h.cname) && Now() == old(Now()) - {h}
    {
      hide Valid;
      UniqueName(h);
      Leave(h);
      LeftIsFine(h, pins);
    }

    /** What the loaders have set on a handle. */
    ghost predicate Equipped(h: Handle)
      reads h`init, h`fini, h`script
    {
      h.init == HasInit(world, h.cname) && h.fini == HasFini(world, h.cname) && h.script == HasScript(world, h.cname)
    }

    /** loadInternalModule: null if no internal module has that name. */
    method LoadInternalModule(name: int, ghost pins: map<Handle, Pin>) returns (h: Handle?)
      requires InOrder(pins) && AllLoaded(null)
      modifies `nextToken, `handles, `minted, `unreachable, `queued, `events, `log, modules, handles
      ensures InOrder(pins) && AllLoaded(h) && Kept()
      ensures h == null <==> !(name in world && world[name].Internal?)
      ensures Now() == old(Now()) && (h != null ==> Located(name, h))
      ensures h != null && !h.loaded ==> h !in old(handles) && h.init && h.fini && !h.script
    {
      hide Valid;
      Parts();
      if !(name in world && world[name].Internal?) {
        return null;
      }
      h := Locate(name, pins);
      Parts();
      if !h.loaded {
        SetFunctions(h, true, true);
      }
    }

    /** The loaders of one file name after another: the native library first, then the
        script. False as soon as one of them fails. */
    method RunLoaders(h: Handle) returns (ok: bool)
      requires Valid() && Loadable() && !h.init && !h.fini && !h.script
      requires h in modules.nodes && !h.loaded && h.cname in world && world[h.cname].Disk?
      modifies h`init, h`fini, h`script
      ensures Valid() && Loadable() && ok == (!world[h.cname].dso.BadDso? && !world[h.cname].js.BadJs?)
      ensures var dso := world[h.cname].dso;
        ok ==> h.init == (dso.Dso? && dso.init) && h.fini == (dso.Dso? && dso.fini)
      ensures ok ==> h.script == world[h.cname].js.Js?
    {
      hide Valid;
      var def := world[h.cname];
      if def.dso.BadDso? {
        return false;
      }
      if def.dso.Dso? {
        SetFunctions(h, def.dso.init, def.dso.fini);
      }
      if def.js.BadJs? {
        return false;
      }
      if def.js.Js? {
        h.script := true;
      }
      return true;
    }

    lemma NotHeld(h: Handle)
      requires !h.loaded
      ensures Now() - {h} == Now()
    {
    }

    method LoadFound(h: Handle, ghost pins: map<Handle, Pin>) returns (ok: bool)
      requires InOrder(pins) && AllLoaded(h) && !h.init && !h.fini && !h.script
      requires h in modules.nodes && !h.loaded && h.cname in world && world[h.cname].Disk?
      modifies `unreachable, `queued, `events, `log, modules`root, modules`lo, modules`hi, modules`nodes
      modifies modules.nodes`left, modules.nodes`right, modules.nodes`up, modules.nodes`lo, modules.nodes`hi
      modifies h`released, h`fini, h`scope, h`exports, h`loaded, h`next, h`init, h`script
      ensures InOrder(pins) && Kept() && unchanged(`handles) && ok == !IsBad(world, h.cname) && Now() == old(Now())
      ensures ok ==> modules.nodes == old(modules.nodes) && !h.loaded && AllLoaded(h) && Equipped(h)
      ensures !ok ==> modules.nodes == old(modules.nodes) - {h} && AllLoaded(null) && Absent(h.cname)
    {
      hide Valid, Now;
      NotHeld(h);
      ok := RunLoaders(h);
      if !ok {
        GiveUp(h, pins);
      }
    }

    /** What a module that was looked for and found is like: the one that was loaded, or a
        new handle with the module's functions and script. */
    twostate predicate Found(name: int, new h: Handle)
      reads this, modules`nodes, modules.nodes`loaded, modules.nodes`exports, h
    {
      Located(name, h) && (!h.loaded ==> h !in old(handles) && Equipped(h) && !IsBad(world, name))
    }

    /** loadDiskModule, from a canonical name on: null if nothing of that name loads. */
    method LoadDiskModule(name: int, ghost pins: map<Handle, Pin>) returns (h: Handle?)
      requires InOrder(pins) && AllLoaded(null) && (name in world ==> !world[name].Internal?)
      modifies `nextToken, `handles, `minted, `unreachable, `queued, `events, `log, modules, handles
      ensures InOrder(pins) && AllLoaded(h) && Kept() && Now() == old(Now())
      ensures h != null ==> Found(name, h) && HasCode(world, name)
      ensures h == null && HasCode(world, name) ==> IsBad(world, name) && Absent(name)
    {
      h := null;
      if HasCode(world, name) {
        h := LocateAndLoad(name, pins);
      }
    }

    method LocateAndLoad(name: int, ghost pins: map<Handle, Pin>) returns (h: Handle?)
      requires InOrder(pins) && AllLoaded(null) && name in world && world[name].Disk?
      modifies `nextToken, `handles, `minted, `unreachable, `queued, `events, `log, modules, handles
      ensures InOrder(pins) && AllLoaded(h) && Kept() && Now() == old(Now())
      ensures h != null ==> Found(name, h)
      ensures h == null ==> IsBad(world, name) && Absent(name)
    {
      h := Locate(name, pins);
      if !h.loaded {
        assert Kept();
        var ok := LoadFound(h, pins);
        h := if ok then h else null;
      }
    }

    /** loadInternalModule, and if that finds nothing, loadDiskModule. */
    method FindCode(name: int, ghost pins: map<Handle, Pin>) returns (h: Handle?)
      requires InOrder(pins) && AllLoaded(null)
      modifies `nextToken, `handles, `minted, `unreachable, `queued, `events, `log, modules, handles
      ensures InOrder(pins) && AllLoaded(h) && Kept() && Now() == old(Now())
      ensures h != null ==> Found(name, h) && HasCode(world, name)
      ensures h == null && HasCode(world, name) ==> IsBad(world, name) && Absent(name)
    {
      h := LoadInternalModule(name, pins);
      if h == null {
        assert Kept();
        h := LoadDiskModule(name, pins);
      }
    }

    // ------------------------------------------------------ running code

    ghost predicate NeverRun(h: Handle)
      reads `runs
    {
      forall i :: 0 <= i < |runs| ==> runs[i].handle != h
    }

    /** The modules whose code is running, all of which are in the world. */
    ghost predicate RunningNames(running: set<int>, pins: map<Handle, Pin>) {
      && running <= world.Keys
      && (forall h :: h in pins ==> h.cname in running)
      && (forall n :: n in running ==> exists h :: h in pins && h.cname == n)
    }

    /** InOrder, for the modules whose code is running, while h is being loaded. */
    ghost predicate Standing(running: set<int>, pins: map<Handle, Pin>, h: Handle?)
      reads `deepest, `nesting, `nextToken, `unreachable, `handles, `queued, `destroyed, `log, `events, `runs, `minted
      reads modules, modules.nodes`left, modules.nodes`right, modules.nodes`up, modules.nodes`lo, modules.nodes`hi
      reads queued`next, handles`released, modules.nodes`fini, modules.nodes`loaded, modules.nodes`exports
      reads modules.nodes`scope, modules.nodes`script
    {
      Whole(InOrder(pins) && AllLoaded(h) && RunningNames(running, pins) && nesting == |running| && deepest <= |world|)
    }

    /** The same, where what is loaded had something to run. */
    ghost predicate Loading(running: set<int>, pins: map<Handle, Pin>, h: Handle?)
      reads `deepest, `nesting, `nextToken, `unreachable, `handles, `queued, `destroyed, `log, `events, `runs, `minted
      reads modules, modules.nodes`left, modules.nodes`right, modules.nodes`up, modules.nodes`lo, modules.nodes`hi
      reads queued`next, handles`released, modules.nodes`fini, modules.nodes`loaded, modules.nodes`exports
      reads modules.nodes`scope, modules.nodes`script
    {
      Standing(running, pins, h) && Live(world, Now())
    }

    /** The same, with no module half loaded. */
    ghost predicate Ready(running: set<int>, pins: map<Handle, Pin>)
      reads `deepest, `nesting, `nextToken, `unreachable, `handles, `queued, `destroyed, `log, `events, `runs, `minted
      reads modules, modules.nodes`left, modules.nodes`right, modules.nodes`up, modules.nodes`lo, modules.nodes`hi
      reads queued`next, handles`released, modules.nodes`fini, modules.nodes`loaded, modules.nodes`exports
      reads modules.nodes`scope, modules.nodes`script
    {
      Loading(running, pins, null)
    }

    /** module->flags |= mhf_loaded */
    method FlagLoaded(h: Handle, running: set<int>, ghost pins: map<Handle, Pin>)
      requires Standing(running, pins, h) && h in modules.nodes && !h.loaded && Equipped(h)
      modifies h`loaded
      ensures Standing(running, pins, null) && h.loaded && NeverRun(h)
      ensures !Has(old(Now()), h.cname) && Now() == old(Now())[h := h.exports]
    {
      hide Valid;
      UniqueName(h);
      assert NeverRun(h) && forall i :: 0 <= i < |log| ==> log[i].handle != h;
      h.loaded := true;
      assert Loadable() && Pinned(pins) && AllLoaded(null);
    }

    ghost method Note(r: Run)
      requires Valid() && Loadable() && r.handle in modules.nodes && r.handle.loaded && r !in runs
      requires r.ScriptOf? ==> !r.handle.script
      modifies `runs
      ensures Valid() && Loadable() && runs == old(runs) + [r]
    {
      hide Listed, Placed, Recorded, Logged, Coined;
      Parts();
      runs := runs + [r];
      assert RunOnce();
    }

    ghost method NoteRun(r: Run, running: set<int>, pins: map<Handle, Pin>)
      requires Ready(running, pins) && r.handle in pins && r !in runs && (r.ScriptOf? ==> !r.handle.script)
      modifies `runs
      ensures Ready(running, pins) && runs == old(runs) + [r]
    {
      hide Valid, Loadable, AllLoaded, RunningNames, Now, Live;
      Note(r);
    }

    twostate lemma ScriptTaken(new h: Handle, pins: map<Handle, Pin>, new more: map<Handle, Pin>)
      requires h in pins && more == pins[h := Pin(pins[h].exports, false)]
      requires old(Loadable() && Pinned(pins) && AllLoaded(null)) && unchanged(`log, `runs, `minted, modules`nodes)
      requires !h.script && forall k :: k in modules.nodes ==> k.scope == old(k.scope)
      requires forall k :: k in modules.nodes ==>
        && k.loaded == old(k.loaded) && k.exports == old(k.exports) && (k != h ==> k.script == old(k.script))
        && k.fini == old(k.fini)
      ensures Loadable() && Pinned(more) && AllLoaded(null)
    {
      forall k | k in more
        ensures k in modules.nodes && k.loaded && Pin(k.exports, k.script) == more[k]
      {
        assert k in pins;
      }
    }

    method TakeScript(h: Handle, ghost pins: map<Handle, Pin>, ghost more: map<Handle, Pin>)
      requires Valid() && Loadable() && Pinned(pins) && AllLoaded(null)
      requires h in pins && h.script && more == pins[h := Pin(pins[h].exports, false)]
      modifies h`script
      ensures InOrder(more) && AllLoaded(null) && !h.script && ScriptOf(h) !in runs
    {
      assert ScriptOf(h) !in runs;
      h.script := false;
      ScriptTaken(h, pins, more);
    }

    /** The script is taken out of the handle before it runs. */
    method StartScript(h: Handle, running: set<int>, ghost pins: map<Handle, Pin>)
      requires Ready(running, pins) && h in pins && h.script
      modifies `runs, h`script
      ensures Ready(running, pins[h := Pin(pins[h].exports, false)]) && runs == old(runs) + [ScriptOf(h)]
    {
      hide Now, Live, Valid, Loadable, Pinned;
      ghost var more := pins[h := Pin(pins[h].exports, false)];
      Repinned(h, running, pins, more);
      TakeScript(h, pins, more);
      NoteRun(ScriptOf(h), running, more);
    }

    lemma Repinned(h: Handle, running: set<int>, pins: map<Handle, Pin>, more: map<Handle, Pin>)
      requires RunningNames(running, pins) && h in pins && more.Keys == pins.Keys
      ensures RunningNames(running, more)
    {
      assert forall k :: k in more <==> k in pins;
    }

    lemma PinnedNames(h: Handle, pin: Pin, running: set<int>, pins: map<Handle, Pin>)
      requires RunningNames(running, pins) && h.cname in world
      ensures RunningNames(running + {h.cname}, pins[h := pin])
    {
      ghost var more := pins[h := pin];
      forall n | n in running + {h.cname}
        ensures exists k :: k in more && k.cname == n
      {
        if n == h.cname {
          assert h in more;
        } else {
          var k :| k in pins && k.cname == n;
          assert k in more;
        }
      }
    }

    /** One more module's code is running. */
    ghost method EnterModule(h: Handle, running: set<int>, pins: map<Handle, Pin>)
      requires Ready(running, pins) && h in modules.nodes && h.loaded && h !in pins
      requires h.cname in world && h.cname !in running
      modifies `nesting, `deepest
      ensures Ready(running + {h.cname}, pins[h := Pin(h.exports, h.script)]) && nesting == old(nesting) + 1
    {
      hide Valid, Loadable, Now, Live, AllLoaded;
      nesting := nesting + 1;
      deepest := if deepest < nesting then nesting else deepest;
      SubsetIsSmaller(running + {h.cname}, world.Keys);
      PinnedNames(h, Pin(h.exports, h.script), running, pins);
      assert Pinned(pins[h := Pin(h.exports, h.script)]);
    }

    ghost method LeaveModule(h: Handle, pin: Pin, running: set<int>, pins: map<Handle, Pin>)
      requires Ready(running + {h.cname}, pins[h := pin]) && h !in pins
      requires RunningNames(running, pins) && h.cname !in running
      modifies `nesting
      ensures Ready(running, pins) && nesting == old(nesting) - 1
      ensures h in modules.nodes && h.loaded && h.exports == pin.exports
    {
      hide Valid, Loadable, AllLoaded, Now, Live;
      assert h in pins[h := pin] && forall k :: k in pins ==> k in pins[h := pin];
      nesting := nesting - 1;
      assert Pinned(pins);
    }

    /** The init function, if there is one; what becomes of it does not matter. */
    method RunInit(h: Handle, running: set<int>, ghost pins: map<Handle, Pin>) returns (ghost first: seq<Trace>)
      requires Ready(running, pins) && h in pins && NeverRun(h) && h.init == HasInit(world, h.cname)
      modifies this, modules, handles
      ensures Ready(running, pins) && Kept() && lockDepth == old(lockDepth)
      ensures Follows(world, InitBody(world, h.cname), first) && AllProper(world, running, old(Now()), first)
      ensures runs == old(runs) + if HasInit(world, h.cname) then [InitOf(h)] + RunsOfAll(world, first) else []
      ensures Now() == AfterAll(world, old(Now()), first)
      decreases world.Keys - running, 1
    {
      hide Ready, Follows, AllProper, RunsOfAll, AfterAll, Now;
      NothingFollows(world, running, Now(), h.cname);
      assert runs == runs + [];
      first := [];
      if h.init {
        NoteRun(InitOf(h), running, pins);
        assert Kept();
        var _, done := ExecuteStmts(InitBody(world, h.cname), running, pins);
        first := done;
      }
    }

    /** JS_ExecuteScript, on what the top level of the script does. */
    method RunScript(h: Handle, running: set<int>, ghost pins: map<Handle, Pin>)
      returns (ok: bool, ghost steps: seq<Trace>)
      requires Ready(running, pins) && h in pins && h.script && HasScript(world, h.cname)
      modifies this, modules, handles
      ensures Ready(running, pins[h := Pin(pins[h].exports, false)]) && Kept() && lockDepth == old(lockDepth)
      ensures Follows(world, Body(world, h.cname), steps) && AllProper(world, running, old(Now()), steps)
      ensures ok <==> Completes(world, Body(world, h.cname), steps) && !Throws(world, h.cname)
      ensures runs == old(runs) + ([ScriptOf(h)] + RunsOfAll(world, steps))
      ensures Now() == AfterAll(world, old(Now()), steps)
      decreases world.Keys - running, 1
    {
      hide Ready, Follows, AllProper, RunsOfAll, Completes, AfterAll, Now;
      PinHolds(h, running, pins);
      StartScript(h, running, pins);
      assert Kept();
      ok, steps := ExecuteStmts(Body(world, h.cname), running, pins[h := Pin(pins[h].exports, false)]);
      ok := ok && !Throws(world, h.cname);
    }

    lemma IsValid(running: set<int>, pins: map<Handle, Pin>)
      requires Ready(running, pins)
      ensures Valid()
    {
    }

    lemma PinHolds(h: Handle, running: set<int>, pins: map<Handle, Pin>)
      requires Ready(running, pins)
      ensures RunningNames(running, pins)
      ensures h in pins ==> h in modules.nodes && h in handles && h.loaded && Pin(h.exports, h.script) == pins[h]
    {
    }

    /** Where what was loaded is before, t is a proper account of executing a module, which
        is loaded still, and ok is how its code ended. */
    twostate predicate Ran(running: set<int>, new before: Held, new t: Trace, ok: bool)
      reads `runs, modules`nodes, modules.nodes`loaded, modules.nodes`exports
    {
      && t.Executed? && Proper(world, running, before, t) && ok == Succeeds(world, t)
      && runs == old(runs) + RunsOf(world, t) && Now() == AfterCode(world, before, t)
    }

    /** The module's code, once the module is among those running. */
    method RunCode(h: Handle, running: set<int>, ghost outer: set<int>, ghost pins: map<Handle, Pin>,
        ghost before: Held) returns (ok: bool, ghost t: Trace)
      requires running == outer + {h.cname} && h.cname !in outer && Ready(running, pins) && h in pins && NeverRun(h)
      requires Runnable(world, h.cname) && !Has(before, h.cname) && Now() == before[h := pins[h].exports]
      requires h.init == HasInit(world, h.cname) && pins[h].script == HasScript(world, h.cname)
      modifies this, modules, handles
      ensures Ready(running, pins[h := Pin(pins[h].exports, false)]) && Kept() && lockDepth == old(lockDepth)
      ensures Ran(outer, before, t, ok) && t.name == h.cname && t.handle == h
      decreases world.Keys - running, 2
    {
      hide Ready, Proper, Succeeds, Follows, AllProper, Completes, RunsOf, RunsOfAll, AfterAll, Now, Has;
      ghost var first := RunInit(h, running, pins);
      PinHolds(h, running, pins);
      assert Kept();
      ok := true;
      ghost var steps := [];
      if h.script {
        ok, steps := RunScript(h, running, pins);
      } else {
        assert pins == pins[h := Pin(pins[h].exports, false)];
        NothingFollows(world, running, Now(), h.cname);
      }
      t := Executed(h.cname, h, pins[h].exports, first, steps);
      ExecutedIsProper(world, outer, before, t, ok);
    }

    /** initializeModule: the init function, then the script, each once. */
    method InitializeModule(h: Handle, running: set<int>, ghost pins: map<Handle, Pin>, ghost before: Held)
      returns (ok: bool, ghost t: Trace)
      requires Ready(running, pins) && h in modules.nodes && h.loaded && h !in pins && NeverRun(h)
      requires Runnable(world, h.cname) && h.cname !in running
      requires !Has(before, h.cname) && Now() == before[h := h.exports]
      requires h.init == HasInit(world, h.cname) && h.script == HasScript(world, h.cname)
      modifies this, modules, handles
      ensures Ready(running, pins) && Kept() && lockDepth == old(lockDepth)
      ensures h in modules.nodes && h.loaded && h.exports == old(h.exports)
      ensures Ran(running, before, t, ok) && t.name == h.cname && t.handle == h
      decreases world.Keys - running, 0, 0
    {
      hide Ready, Proper, Succeeds, RunsOf, AfterCode, Now, Has;
      ghost var pin := Pin(h.exports, h.script);
      PinHolds(h, running, pins);
      EnterModule(h, running, pins);
      ok, t := RunCode(h, running + {h.cname}, running, pins[h := pin], before);
      assert pins[h := pin][h := Pin(pin.exports, false)] == pins[h := Pin(pin.exports, false)];
      LeaveModule(h, Pin(pin.exports, false), running, pins);
    }

    method ExecuteStmts(body: seq<Stmt>, running: set<int>, ghost pins: map<Handle, Pin>)
      returns (ok: bool, ghost steps: seq<Trace>)
      requires Ready(running, pins)
      modifies this, modules, handles
      ensures Ready(running, pins) && Kept() && lockDepth == old(lockDepth)
      ensures Follows(world, body, steps) && AllProper(world, running, old(Now()), steps)
      ensures ok == Completes(world, body, steps)
      ensures runs == old(runs) + RunsOfAll(world, steps) && Now() == AfterAll(world, old(Now()), steps)
      decreases world.Keys - running, 0, 10
    {
      hide Ready, Recounts, Follows, AllProper, Completes, RunsOfAll, AfterAll, Now;
      ghost var before := Now();
      ok, steps := true, [];
      RecountsNone(world, running, before, body);
      assert runs == runs + [];
      var i := 0;
      while i < |body| && ok
        invariant Ready(running, pins) && Kept() && lockDepth == old(lockDepth)
        invariant i == |steps| && i <= |body| && Recounts(world, running, before, body, steps, ok)
        invariant runs == old(runs) + RunsOfAll(world, steps) && Now() == AfterAll(world, before, steps)
        decreases |body| - i
      {
        ok, steps := ExecuteNext(body, i, old(runs), before, steps, running, pins);
        i := i + 1;
      }
      RecountsAll(world, running, before, body, steps, ok);
    }

    method ExecuteNext(body: seq<Stmt>, i: nat, ghost started: seq<Run>, ghost before: Held, ghost past: seq<Trace>,
        running: set<int>, ghost pins: map<Handle, Pin>) returns (ok: bool, ghost steps: seq<Trace>)
      requires Ready(running, pins) && i == |past| < |body| && Recounts(world, running, before, body, past, true)
      requires runs == started + RunsOfAll(world, past) && Now() == AfterAll(world, before, past)
      modifies this, modules, handles
      ensures Ready(running, pins) && Kept() && lockDepth == old(lockDepth)
      ensures |steps| == i + 1 && Recounts(world, running, before, body, steps, ok)
      ensures runs == started + RunsOfAll(world, steps) && Now() == AfterAll(world, before, steps)
      decreases world.Keys - running, 0, 9
    {
      hide Ready, Recounts, RunsOfAll, RunsOf, Proper, GoesOn, Answers, Kept, AfterAll, LoadedAfter, Now;
      ghost var t;
      ok, t := ExecuteStmt(body[i], running, pins);
      RecountsNext(world, running, before, body, past, t);
      RunsOfNext(world, started, past, t);
      steps := past + [t];
    }

    method ExecuteStmt(stmt: Stmt, running: set<int>, ghost pins: map<Handle, Pin>)
      returns (ok: bool, ghost t: Trace)
      requires Ready(running, pins)
      modifies this, modules, handles
      ensures Ready(running, pins) && Kept() && lockDepth == old(lockDepth)
      ensures Answers(stmt, t) && Told(running, old(Now()), t, Succeeds(world, t)) && ok == GoesOn(world, stmt, t)
      ensures if stmt.Require? && !stmt.caught then ok == Succeeds(world, t) else ok
      ensures stmt.Collect? ==> queued == []
      decreases world.Keys - running, 0, 8
    {
      hide Ready, Now;
      match stmt
      case Require(n, caught) =>
        var loaded, _, account := LoadModule(n, running, pins);
        ok, t := loaded || caught, account;
      case Collect =>
        t := CollectWhileRunning(running, pins);
        ok := true;
    }

    twostate lemma ShrunkIsFine(new running: set<int>, pins: map<Handle, Pin>)
      requires old(Ready(running, pins)) && Shrunk(running) && Valid() && unchanged(`deepest, `nesting)
      ensures Standing(running, pins, null)
    {
      hide Valid, Now, Live;
      assert Loadable() && AllLoaded(null) && Pinned(pins);
    }

    /** What a collection has taken was not running, and had no fini function. */
    twostate lemma ShrunkIsCollected(new running: set<int>, new gone: set<Handle>)
      requires old(AllLoaded(null)) && Shrunk(running) && gone == old(Now()).Keys - modules.nodes
      ensures gone <= old(Now()).Keys && Now() == old(Now()) - gone
      ensures forall h :: h in gone ==> h.cname !in running && !HasFini(world, h.cname)
    {
    }

    /** A collection, while code is running; what it takes is accounted for. */
    method CollectWhileRunning(running: set<int>, ghost pins: map<Handle, Pin>) returns (ghost t: Trace)
      requires Ready(running, pins)
      modifies `unreachable, `queued, `destroyed, `events, `log, modules, handles
      ensures Ready(running, pins) && Kept() && Onward() && queued == []
      ensures t.Collected? && Told(running, old(Now()), t, true)
    {
      hide Valid, Loadable, AllLoaded, Pinned, RunningNames, Now, Live, Shrunk, Proper, Succeeds, RunsOf, LoadedAfter;
      var picks: set<Handle> := *;
      Parts();
      CollectGarbage(running, picks);
      ShrunkIsFine(running, pins);
      ghost var gone := old(Now()).Keys - modules.nodes;
      ShrunkIsCollected(running, gone);
      LiveWithout(world, old(Now()), gone);
      CollectedIsProper(world, running, old(Now()), gone);
      t := Collected(gone);
      assert runs == runs + [];
    }

    method RequireLock()
      modifies `lockDepth
      ensures lockDepth == old(lockDepth) + 1
    {
      lockDepth := lockDepth + 1;
    }

    method RequireUnlock()
      requires lockDepth > 0
      modifies `lockDepth
      ensures lockDepth == old(lockDepth) - 1
    {
      lockDepth := lockDepth - 1;
    }

    /** Where what was loaded is before, t is a proper account of what has been done; ok is
        how it ended, what was started is what t lists, and what is loaded is what it leaves. */
    twostate predicate Told(running: set<int>, new before: Held, new t: Trace, ok: bool)
      reads `runs, modules`nodes, modules.nodes`loaded, modules.nodes`exports
    {
      && Proper(world, running, before, t) && ok == Succeeds(world, t)
      && runs == old(runs) + RunsOf(world, t) && Now() == LoadedAfter(world, before, t)
    }

    /** The same for requiring the module of that name; and it is loaded now, with these
        exports, or else it is not in the memo. */
    twostate predicate Ended(name: int, running: set<int>, new before: Held, new t: Trace, ok: bool, exports: Token)
      reads `runs, modules`nodes, modules.nodes`loaded, modules.nodes`exports
    {
      && !t.Collected? && t.name == name && Told(running, before, t, ok)
      && (ok ==> !t.Refused? && t.handle in Now() && Now()[t.handle] == exports)
      && (!ok ==> exports == NULL) && (!ok && HasCode(world, name) ==> Absent(name))
    }

    /** The way out of gpsee_loadModule when a module could not be initialised. */
    method GiveUpAndUnlock(h: Handle, running: set<int>, ghost pins: map<Handle, Pin>)
      requires Standing(running, pins, null) && Live(world, Now() - {h})
      requires h in modules.nodes && h !in pins && lockDepth > 0
      modifies `lockDepth, `unreachable, `queued, `events, `log, modules`root, modules`lo, modules`hi, modules`nodes
      modifies modules.nodes`left, modules.nodes`right, modules.nodes`up, modules.nodes`lo, modules.nodes`hi
      modifies h`released, h`fini, h`scope, h`exports, h`loaded, h`next
      ensures Ready(running, pins) && Kept() && lockDepth == old(lockDepth) - 1 && Absent(h.cname)
      ensures Now() == old(Now()) - {h} && unchanged(`runs)
    {
      hide Valid, Loadable, Pinned, Kept, Absent, Now, Live;
      GiveUp(h, pins);
      RequireUnlock();
    }

    /** The end of gpsee_loadModule, once the module's code has run. */
    method Conclude(h: Handle, ok: bool, running: set<int>, ghost pins: map<Handle, Pin>) returns (exports: Token)
      requires Ready(running, pins) && h in modules.nodes && h.loaded && h !in pins && lockDepth > 0
      modifies `lockDepth, `unreachable, `queued, `events, `log, modules`root, modules`lo, modules`hi, modules`nodes
      modifies modules.nodes`left, modules.nodes`right, modules.nodes`up, modules.nodes`lo, modules.nodes`hi
      modifies h`released, h`fini, h`scope, h`exports, h`loaded, h`next
      ensures Ready(running, pins) && Kept() && lockDepth == old(lockDepth) - 1 && unchanged(`runs)
      ensures if ok then Now() == old(Now()) && h in Now() && Now()[h] == exports
              else Now() == old(Now()) - {h} && Absent(h.cname) && exports == NULL
    {
      hide Standing;
      if !ok {
        GiveUpAndUnlock(h, running, pins);
        return NULL;
      }
      RequireUnlock();
      return h.exports;
    }

    lemma LoadingHandles(h: Handle?, running: set<int>, pins: map<Handle, Pin>)
      requires Standing(running, pins, h)
      ensures modules.nodes <= handles
    {
    }

    /** gpsee_loadModule, once the module is flagged loaded and has something to run. */
    method RunFlagged(h: Handle, running: set<int>, ghost pins: map<Handle, Pin>, ghost before: Held)
      returns (ok: bool, exports: Token, ghost t: Trace)
      requires Ready(running, pins) && h in modules.nodes && h.loaded && h !in pins && NeverRun(h)
      requires Runnable(world, h.cname) && h.cname !in running && lockDepth > 0
      requires !Has(before, h.cname) && Now() == before[h := h.exports]
      requires h.init == HasInit(world, h.cname) && h.script == HasScript(world, h.cname)
      modifies this, modules, handles
      ensures Ready(running, pins) && Kept() && lockDepth == old(lockDepth) - 1
      ensures t.Executed? && Ended(h.cname, running, before, t, ok, exports) && t.handle == h
      decreases world.Keys - running, 0, 1
    {
      hide Standing, Live, Proper, Succeeds, RunsOf, AfterCode, Now, Has;
      LoadingHandles(null, running, pins);
      ok, t := InitializeModule(h, running, pins, before);
      LoadingHandles(null, running, pins);
      assert Kept();
      exports := Conclude(h, ok, running, pins);
    }

    /** gpsee_loadModule, once the module is flagged loaded. */
    method LoadFlagged(h: Handle, running: set<int>, ghost pins: map<Handle, Pin>, ghost before: Held)
      returns (ok: bool, exports: Token, ghost t: Trace)
      requires Standing(running, pins, null) && Live(world, before)
      requires h in modules.nodes && h.loaded && h !in pins && NeverRun(h)
      requires !Has(before, h.cname) && Now() == before[h := h.exports]
      requires Equipped(h) && !IsBad(world, h.cname) && h.cname !in running && lockDepth > 0
      modifies this, modules, handles
      ensures Ready(running, pins) && Kept() && lockDepth == old(lockDepth) - 1
      ensures !t.Reused? && Ended(h.cname, running, before, t, ok, exports) && (t.Executed? ==> t.handle == h)
      decreases world.Keys - running, 0, 2
    {
      hide Standing, Kept, Now, Proper, Succeeds, RunsOf, LoadedAfter;
      LoadingHandles(null, running, pins);
      assert h !in before;
      if !h.init && !h.script {
        assert before[h := h.exports] - {h} == before;
        RefusedIsProper(world, running, before, h.cname);
        assert runs == runs + [];
        GiveUpAndUnlock(h, running, pins);
        ok, exports, t := false, NULL, Refused(h.cname);
      } else {
        ok, exports, t := RunFlagged(h, running, pins, before);
      }
    }

    /** gpsee_loadModule, from the point where a handle turns out not to be loaded. It is
        flagged loaded before any of its code runs. */
    method LoadFresh(h: Handle, running: set<int>, ghost pins: map<Handle, Pin>)
      returns (ok: bool, exports: Token, ghost t: Trace)
      requires Loading(running, pins, h) && h in modules.nodes && !h.loaded && Equipped(h) && !IsBad(world, h.cname)
      requires h.cname !in running && h !in pins && lockDepth > 0
      modifies this, modules, handles
      ensures Ready(running, pins) && Kept() && lockDepth == old(lockDepth) - 1
      ensures !t.Reused? && Ended(h.cname, running, old(Now()), t, ok, exports) && (t.Executed? ==> t.handle == h)
      decreases world.Keys - running, 0, 3
    {
      hide Ready, Standing, Live, Proper, Succeeds, RunsOf, Absent, Now, Has, LoadedAfter;
      LoadingHandles(h, running, pins);
      ghost var before := Now();
      FlagLoaded(h, running, pins);
      ok, exports, t := LoadFlagged(h, running, pins, before);
    }

    lemma LoadedIsReady(h: Handle, running: set<int>, pins: map<Handle, Pin>)
      requires Loading(running, pins, h) && h.loaded
      ensures Ready(running, pins) && (h in modules.nodes ==> h in Now() && Runnable(world, h.cname))
    {
      hide Valid, Loadable, Pinned;
    }

    lemma NotRunning(h: Handle, running: set<int>, pins: map<Handle, Pin>)
      requires Loading(running, pins, h) && h in modules.nodes && !h.loaded
      ensures h.cname !in running && h !in pins
    {
      UniqueName(h);
    }

    /** gpsee_loadModule, once the handle is known: modules are singletons. */
    method UseHandle(h: Handle, running: set<int>, ghost pins: map<Handle, Pin>)
      returns (ok: bool, exports: Token, ghost t: Trace)
      requires Loading(running, pins, h) && h in modules.nodes && lockDepth > 0
      requires !h.loaded ==> Equipped(h) && !IsBad(world, h.cname)
      modifies this, modules, handles
      ensures Ready(running, pins) && Kept() && lockDepth == old(lockDepth) - 1
      ensures Ended(h.cname, running, old(Now()), t, ok, exports)
      ensures if old(h.loaded) then t == Reused(h.cname, h) && exports == old(h.exports) else !t.Reused?
      ensures t.Executed? ==> t.handle == h
      decreases world.Keys - running, 0, 4
    {
      hide Ready, Standing, Live, Proper, Succeeds, RunsOf, LoadedAfter;
      LoadingHandles(h, running, pins);
      if h.loaded {
        LoadedIsReady(h, running, pins);
        ReusedIsProper(world, running, Now(), h);
        assert runs == runs + [];
        RequireUnlock();
        return true, h.exports, Reused(h.cname, h);
      }
      NotRunning(h, running, pins);
      ok, exports, t := LoadFresh(h, running, pins);
    }

    /** gpsee_loadModule, once the module has been looked for. */
    method UseModule(h: Handle?, name: int, running: set<int>, ghost pins: map<Handle, Pin>)
      returns (ok: bool, exports: Token, ghost t: Trace)
      requires Loading(running, pins, h) && lockDepth > 0
      requires h != null ==> h in modules.nodes && h.cname == name
      requires h != null && !h.loaded ==> Equipped(h) && !IsBad(world, name)
      requires h == null && HasCode(world, name) ==> IsBad(world, name) && Absent(name)
      modifies this, modules, handles
      ensures Ready(running, pins) && Kept() && lockDepth == old(lockDepth) - 1
      ensures Ended(name, running, old(Now()), t, ok, exports)
      ensures t.Executed? ==> h != null && !old(h != null && h.loaded) && t.handle == h
      decreases world.Keys - running, 0, 5
    {
      hide Standing, Live, Proper, Succeeds, RunsOf, LoadedAfter;
      if h == null {
        RefusedIsProper(world, running, Now(), name);
        assert runs == runs + [];
        RequireUnlock();
        return false, NULL, Refused(name);
      }
      ok, exports, t := UseHandle(h, running, pins);
    }

    /** FindCode, in terms of what is loaded. */
    method FindModule(name: int, running: set<int>, ghost pins: map<Handle, Pin>) returns (h: Handle?)
      requires Ready(running, pins)
      modifies `nextToken, `handles, `minted, `unreachable, `queued, `events, `log, modules, handles
      ensures Loading(running, pins, h) && Kept() && Now() == old(Now())
      ensures h != null ==> h in modules.nodes && h.cname == name && HasCode(world, name)
      ensures h != null && !h.loaded ==> h !in old(handles) && Equipped(h) && !IsBad(world, name)
      ensures h == null && HasCode(world, name) ==> IsBad(world, name) && Absent(name)
    {
      hide Valid, Loadable, Pinned, Now, Live;
      h := FindCode(name, pins);
    }

    /** gpsee_loadModule, between the lock and the end. */
    method LoadLocked(name: int, running: set<int>, ghost pins: map<Handle, Pin>)
      returns (ok: bool, exports: Token, ghost t: Trace)
      requires Ready(running, pins) && lockDepth > 0
      modifies this, modules, handles
      ensures Ready(running, pins) && Kept() && lockDepth == old(lockDepth) - 1
      ensures Ended(name, running, old(Now()), t, ok, exports) && (t.Executed? ==> t.handle !in old(handles))
      decreases world.Keys - running, 0, 6
    {
      hide Ready, Loading, Proper, Succeeds, RunsOf, Now, LoadedAfter;
      var h := FindModule(name, running, pins);
      assert Kept() && runs == old(runs);
      ok, exports, t := UseModule(h, name, running, pins);
    }

    /** gpsee_loadModule. It ends for every world; a module that is already loaded comes
        back as it is, even to a script it is itself waiting for; otherwise the outcome
        is that of its code, which a new handle is made for; what is loaded after that is
        what the account says; and
        whatever happens on the way, nothing is undone, and the lock is as deep as it was. */
    method LoadModule(name: int, running: set<int>, ghost pins: map<Handle, Pin>)
      returns (ok: bool, exports: Token, ghost t: Trace)
      requires Ready(running, pins)
      modifies this, modules, handles
      ensures Ready(running, pins) && Kept() && Onward() && lockDepth == old(lockDepth)
      ensures Ended(name, running, old(Now()), t, ok, exports) && (t.Executed? ==> t.handle !in old(handles))
      decreases world.Keys - running, 0, 7
    {
      hide Ready, Valid, Proper, Succeeds, RunsOf, Now, LoadedAfter;
      IsValid(running, pins);
      RequireLock();
      ok, exports, t := LoadLocked(name, running, pins);
      IsValid(running, pins);
      ReleasedForGood();
    }

    /** require, called by whoever runs no module's code. */
    method Require(name: int) returns (ok: bool, exports: Token, ghost t: Trace)
      requires Ready({}, map[])
      modifies this, modules, handles
      ensures Ready({}, map[]) && Kept() && Onward() && lockDepth == old(lockDepth)
      ensures Ended(name, {}, old(Now()), t, ok, exports) && (t.Executed? ==> t.handle !in old(handles))
    {
      hide Ready, Ended, Kept, Onward;
      ok, exports, t := LoadModule(name, {}, map[]);
    }
  }
}
