/** What the accounts of requires mean: how they come out, what they leave loaded, and that
    modules are singletons. */
module ModuleAccounts {
  import opened ModuleMemo
  import opened ModuleWorld

  // ---------------------------------------------------------- outcomes

  /** A script that has been followed completes, or has stopped at a statement that failed. */
  lemma {:induction false} FollowedOrStopped(world: World, body: seq<Stmt>, steps: seq<Trace>)
    requires Follows(world, body, steps)
    ensures Completes(world, body, steps) <==> steps == [] || GoesOn(world, body[|steps| - 1], steps[|steps| - 1])
  {
  }

  lemma {:induction false} ProperAt(world: World, running: set<int>, now: Held, ts: seq<Trace>, i: nat)
    requires AllProper(world, running, now, ts) && i < |ts|
    ensures AllProper(world, running, now, ts[..i])
    ensures Proper(world, running, AfterAll(world, now, ts[..i]), ts[i])
    ensures AfterAll(world, now, ts[..i + 1]) == LoadedAfter(world, AfterAll(world, now, ts[..i]), ts[i])
    decreases |ts|
  {
    var n := |ts| - 1;
    if i < n {
      ProperAt(world, running, now, ts[..n], i);
      assert ts[..n][..i] == ts[..i] && ts[..n][..i + 1] == ts[..i + 1];
    } else {
      assert ts[..i + 1] == ts;
    }
  }

  /** Whether a module's code is executed is a matter of what there is of that name: an
      internal module, or files none of which is bad, with an init function or a script. */
  lemma {:induction false} ExecutedIfThereIsCode(world: World, running: set<int>, now: Held, t: Trace)
    requires Proper(world, running, now, t) && !t.Collected? && !Has(now, t.name)
    ensures t.Executed? <==>
      t.name in world && match world[t.name]
        case Internal(_) => true
        case Disk(dso, js) => !dso.BadDso? && !js.BadJs? && ((dso.Dso? && dso.init) || js.Js?)
  {
  }

  /** The i-th step of a script is what its i-th statement asks for; and it is the last
      exactly if there is no next statement, or if it fails and is not caught. */
  lemma {:induction false} StepsOfScript(world: World, running: set<int>, now: Held, t: Trace)
    requires Proper(world, running, now, t) && t.Executed?
    requires t.name in world && world[t.name].Disk? && world[t.name].js.Js?
    ensures var body := world[t.name].js.body;
      |t.steps| <= |body| && forall i :: 0 <= i < |t.steps| ==>
        && (if body[i].Collect? then t.steps[i].Collected?
            else !t.steps[i].Collected? && t.steps[i].name == body[i].name)
        && (i == |t.steps| - 1 <==>
              i == |body| - 1 || (!Succeeds(world, t.steps[i]) && body[i].Require? && !body[i].caught))
    ensures world[t.name].js.body != [] ==> t.steps != []
  {
    var body, n := world[t.name].js.body, |t.steps|;
    assert body == Body(world, t.name);
    forall i | 0 <= i < n
      ensures Answers(body[i], t.steps[i])
      ensures i == n - 1 <==> i == |body| - 1 || (!Succeeds(world, t.steps[i]) && body[i].Require? && !body[i].caught)
    {
      assert i < n - 1 ==> GoesOn(world, body[i], t.steps[i]);
    }
  }

  /** The same for the code of an init function; and without one, nothing is done. */
  lemma {:induction false} StepsOfInit(world: World, running: set<int>, now: Held, t: Trace, code: seq<Stmt>)
    requires Proper(world, running, now, t) && t.Executed? && t.name in world
    requires code == match world[t.name]
      case Internal(c) => c
      case Disk(dso, _) => if dso.Dso? && dso.init then dso.code else []
    ensures |t.first| <= |code| && forall i :: 0 <= i < |t.first| ==>
      && (if code[i].Collect? then t.first[i].Collected? else !t.first[i].Collected? && t.first[i].name == code[i].name)
      && (i == |t.first| - 1 <==>
            i == |code| - 1 || (!Succeeds(world, t.first[i]) && code[i].Require? && !code[i].caught))
    ensures code != [] ==> t.first != []
  {
    var n := |t.first|;
    assert code == InitBody(world, t.name);
    forall i | 0 <= i < n
      ensures Answers(code[i], t.first[i])
      ensures i == n - 1 <==> i == |code| - 1 || (!Succeeds(world, t.first[i]) && code[i].Require? && !code[i].caught)
    {
      assert i < n - 1 ==> GoesOn(world, code[i], t.first[i]);
    }
  }

  /** An executed module fails exactly if it has a script that stops at a require that
      fails and is not caught, or that throws at its end. */
  lemma {:induction false} HowItEnds(world: World, running: set<int>, now: Held, t: Trace)
    requires Proper(world, running, now, t) && t.Executed?
    ensures t.name in world
    ensures !(world[t.name].Disk? && world[t.name].js.Js?) ==> Succeeds(world, t) && t.steps == []
    ensures world[t.name].Disk? && world[t.name].js.Js? ==>
      var js, n := world[t.name].js, |t.steps|;
      n <= |js.body| && (!Succeeds(world, t) <==>
        || js.throws
        || (n > 0 && !Succeeds(world, t.steps[n - 1]) && js.body[n - 1].Require? && !js.body[n - 1].caught))
  {
    if world[t.name].Disk? && world[t.name].js.Js? {
      var js, n := world[t.name].js, |t.steps|;
      StepsOfScript(world, running, now, t);
      FollowedOrStopped(world, js.body, t.steps);
    }
  }

  /** Where every require is caught, and nothing is thrown, loading the module succeeds. */
  lemma {:induction false} CaughtSucceeds(world: World, running: set<int>, now: Held, t: Trace)
    requires Proper(world, running, now, t) && t.Executed? && world[t.name].Disk? && world[t.name].js.Js?
    requires var js := world[t.name].js;
      !js.throws && forall i :: 0 <= i < |js.body| && js.body[i].Require? ==> js.body[i].caught
    ensures Succeeds(world, t) && |t.steps| == |world[t.name].js.body|
  {
    HowItEnds(world, running, now, t);
    StepsOfScript(world, running, now, t);
  }

  /** What a failure comes down to: along the requires that were not caught, each of which
      stopped the script before it. */
  ghost function Blame(world: World, t: Trace): Trace
    decreases t
  {
    if t.Executed? && t.steps != [] && !Completes(world, Body(world, t.name), t.steps)
    then Blame(world, t.steps[|t.steps| - 1])
    else t
  }

  /** A require fails exactly if it comes down to a module that cannot be had, or to one
      whose script gets to its end and throws there. */
  lemma {:induction false} BlameIsRight(world: World, running: set<int>, now: Held, t: Trace)
    requires Proper(world, running, now, t)
    ensures var b := Blame(world, t);
      !Succeeds(world, t) <==>
        || (b.Refused? && !Runnable(world, b.name))
        || (b.Executed? && Completes(world, Body(world, b.name), b.steps) && Throws(world, b.name))
    decreases t
  {
    if t.Executed? {
      var body, n := Body(world, t.name), |t.steps|;
      FollowedOrStopped(world, body, t.steps);
      if n > 0 && !Completes(world, body, t.steps) {
        assert !GoesOn(world, body[n - 1], t.steps[n - 1]);
        var start := AfterAll(world, now[t.handle := t.exports], t.first);
        ProperAt(world, running + {t.name}, start, t.steps, n - 1);
        BlameIsRight(world, running + {t.name}, AfterAll(world, start, t.steps[..n - 1]), t.steps[n - 1]);
      }
    }
  }

  // -------------------------------------------------- what stays loaded

  /** A collection has taken h. */
  ghost predicate Takes(t: Trace, h: Handle)
    decreases t
  {
    match t
    case Collected(gone) => h in gone
    case Reused(_, _) => false
    case Refused(_) => false
    case Executed(_, _, _, first, steps) =>
      || (exists i :: 0 <= i < |first| && Takes(first[i], h))
      || (exists i :: 0 <= i < |steps| && Takes(steps[i], h))
  }

  ghost predicate AnyTakes(ts: seq<Trace>, h: Handle) {
    exists i :: 0 <= i < |ts| && Takes(ts[i], h)
  }

  /** What is loaded stays loaded, with the same exports, until a collection takes it: no
      require does, whatever it comes to. And no collection takes what is running. */
  lemma {:induction false} Stays(world: World, running: set<int>, now: Held, t: Trace, h: Handle)
    requires Proper(world, running, now, t) && h in now && (h.cname in running || !Takes(t, h))
    ensures h in LoadedAfter(world, now, t) && LoadedAfter(world, now, t)[h] == now[h]
    decreases t, 0
  {
    if t.Executed? {
      assert t.handle != h;
      var start := now[t.handle := t.exports];
      AllStay(world, running + {t.name}, start, t.first, h);
      AllStay(world, running + {t.name}, AfterAll(world, start, t.first), t.steps, h);
    }
  }

  lemma {:induction false} AllStay(world: World, running: set<int>, now: Held, ts: seq<Trace>, h: Handle)
    requires AllProper(world, running, now, ts) && h in now && (h.cname in running || !AnyTakes(ts, h))
    ensures h in AfterAll(world, now, ts) && AfterAll(world, now, ts)[h] == now[h]
    decreases ts, 1
  {
    if ts != [] {
      var n := |ts| - 1;
      assert forall i :: 0 <= i < n ==> ts[..n][i] == ts[i];
      AllStay(world, running, now, ts[..n], h);
      Stays(world, running, AfterAll(world, now, ts[..n]), ts[n], h);
    }
  }

  /** No two handles of one name are loaded. */
  ghost predicate Distinct(now: Held) {
    forall h, k :: h in now && k in now && h.cname == k.cname ==> h == k
  }

  lemma {:induction false} FirstOfName(now: Held, h: Handle, x: Token)
    requires Distinct(now) && !Has(now, h.cname)
    ensures Distinct(now[h := x])
  {
    assert forall k :: k in now ==> k.cname != h.cname;
  }

  lemma {:induction false} DistinctStays(world: World, running: set<int>, now: Held, t: Trace)
    requires Proper(world, running, now, t) && Distinct(now)
    ensures Distinct(LoadedAfter(world, now, t))
    decreases t, 0
  {
    if t.Executed? {
      var start := now[t.handle := t.exports];
      FirstOfName(now, t.handle, t.exports);
      AllDistinct(world, running + {t.name}, start, t.first);
      AllDistinct(world, running + {t.name}, AfterAll(world, start, t.first), t.steps);
    }
  }

  lemma {:induction false} AllDistinct(world: World, running: set<int>, now: Held, ts: seq<Trace>)
    requires AllProper(world, running, now, ts) && Distinct(now)
    ensures Distinct(AfterAll(world, now, ts))
    decreases ts, 1
  {
    if ts != [] {
      var n := |ts| - 1;
      AllDistinct(world, running, now, ts[..n]);
      DistinctStays(world, running, AfterAll(world, now, ts[..n]), ts[n]);
    }
  }

  /** The module itself is loaded throughout its own code. */
  lemma {:induction false} LoadedByItself(world: World, running: set<int>, now: Held, t: Trace)
    requires Proper(world, running, now, t) && t.Executed? && Distinct(now)
    ensures var after := AfterCode(world, now, t);
      t.handle in after && after[t.handle] == t.exports && Distinct(after)
  {
    var start := now[t.handle := t.exports];
    FirstOfName(now, t.handle, t.exports);
    AllStay(world, running + {t.name}, start, t.first, t.handle);
    AllDistinct(world, running + {t.name}, start, t.first);
    AllStay(world, running + {t.name}, AfterAll(world, start, t.first), t.steps, t.handle);
    AllDistinct(world, running + {t.name}, AfterAll(world, start, t.first), t.steps);
  }

  lemma {:induction false} WithoutOne(now: Held, h: Handle)
    requires Distinct(now) && h in now
    ensures forall n :: Has(now - {h}, n) <==> Has(now, n) && n != h.cname
  {
    forall n
      ensures Has(now - {h}, n) <==> Has(now, n) && n != h.cname
    {
      if Has(now, n) && n != h.cname {
        var k :| k in now && k.cname == n;
        assert k in now - {h};
      }
      if k :| k in now - {h} && k.cname == n {
        assert k in now;
      }
    }
  }

  /** A require succeeds exactly if it leaves the module loaded. */
  lemma {:induction false} LoadedIfItSucceeds(world: World, running: set<int>, now: Held, t: Trace)
    requires Proper(world, running, now, t) && !t.Collected? && HasCode(world, t.name) && Distinct(now)
    ensures Succeeds(world, t) <==> Has(LoadedAfter(world, now, t), t.name)
    ensures Succeeds(world, t) ==> t.handle in LoadedAfter(world, now, t)
  {
    if t.Executed? {
      LoadedByItself(world, running, now, t);
      WithoutOne(AfterCode(world, now, t), t.handle);
    }
  }

  // -------------------------------------- the world decides the outcome

  /** The same names are loaded. */
  ghost predicate Alike(a: Held, b: Held) {
    forall n :: Has(a, n) <==> Has(b, n)
  }

  /** No collection took anything that was loaded. */
  ghost predicate Undisturbed(t: Trace)
    decreases t
  {
    match t
    case Collected(gone) => gone == {}
    case Reused(_, _) => true
    case Refused(_) => true
    case Executed(_, _, _, first, steps) =>
      && (forall i :: 0 <= i < |first| ==> Undisturbed(first[i]))
      && (forall i :: 0 <= i < |steps| ==> Undisturbed(steps[i]))
  }

  /** The same account, but for the handles and their exports. */
  ghost predicate Similar(s: Trace, t: Trace)
    decreases s
  {
    match s
    case Collected(_) => t.Collected?
    case Reused(n, _) => t.Reused? && t.name == n
    case Refused(n) => t.Refused? && t.name == n
    case Executed(n, _, _, first, steps) =>
      && t.Executed? && t.name == n && |t.first| == |first| && |t.steps| == |steps|
      && (forall i :: 0 <= i < |first| ==> Similar(first[i], t.first[i]))
      && (forall i :: 0 <= i < |steps| ==> Similar(steps[i], t.steps[i]))
  }

  lemma {:induction false} WithOne(now: Held, h: Handle, x: Token, n: int)
    ensures Has(now[h := x], n) <==> Has(now, n) || n == h.cname
  {
    if Has(now, n) {
      var k :| k in now && k.cname == n;
      assert k in now[h := x];
    }
    assert h in now[h := x];
  }

  lemma {:induction false} OneMoreAlike(a: Held, b: Held, h: Handle, k: Handle, x: Token, y: Token)
    requires Alike(a, b) && h.cname == k.cname
    ensures Alike(a[h := x], b[k := y])
  {
    var a', b' := a[h := x], b[k := y];
    forall n
      ensures Has(a', n) <==> Has(b', n)
    {
      WithOne(a, h, x, n);
      WithOne(b, k, y, n);
    }
  }

  lemma {:induction false} SameKind(world: World, running: set<int>, a: Held, b: Held, s: Trace, t: Trace)
    requires Proper(world, running, a, s) && Proper(world, running, b, t) && !s.Collected? && !t.Collected?
    requires s.name == t.name && (Has(a, s.name) <==> Has(b, s.name))
    ensures (s.Reused? <==> t.Reused?) && (s.Refused? <==> t.Refused?) && (s.Executed? <==> t.Executed?)
  {
  }

  lemma {:induction false} SameEnd(a: Held, b: Held, h: Handle, k: Handle)
    requires Distinct(a) && Distinct(b) && Alike(a, b) && h in a && k in b && h.cname == k.cname
    ensures Alike(a - {h}, b - {k})
  {
    WithoutOne(a, h);
    WithoutOne(b, k);
  }

  lemma {:induction false} SimilarEnd(world: World, s: Trace, t: Trace)
    requires s.Executed? && t.Executed? && s.name == t.name && |s.steps| == |t.steps|
    requires forall i :: 0 <= i < |s.steps| ==> Succeeds(world, s.steps[i]) == Succeeds(world, t.steps[i])
    ensures Succeeds(world, s) == Succeeds(world, t)
  {
  }

  lemma {:induction false} NothingYet(world: World, now: Held)
    ensures AfterAll(world, now, []) == now
  {
  }

  lemma {:induction false} SamePrefix(world: World, running: set<int>, a: Held, b: Held, body: seq<Stmt>,
      ss: seq<Trace>, ts: seq<Trace>, k: nat)
    requires Distinct(a) && Distinct(b) && Alike(a, b)
    requires AllProper(world, running, a, ss) && AllProper(world, running, b, ts)
    requires forall i :: 0 <= i < |ss| ==> Undisturbed(ss[i])
    requires forall i :: 0 <= i < |ts| ==> Undisturbed(ts[i])
    requires Follows(world, body, ss) && Follows(world, body, ts) && k <= |ss| && k <= |ts|
    ensures Alike(AfterAll(world, a, ss[..k]), AfterAll(world, b, ts[..k]))
    ensures forall i :: 0 <= i < k ==> Similar(ss[i], ts[i]) && Succeeds(world, ss[i]) == Succeeds(world, ts[i])
    decreases ss, k
  {
    hide Alike, Distinct, LoadedAfter, AfterAll, Proper, AllProper, Similar, Succeeds, Undisturbed;
    if k == 0 {
      assert ss[..k] == [] && ts[..k] == [];
      NothingYet(world, a);
      NothingYet(world, b);
    } else {
      var i := k - 1;
      SamePrefix(world, running, a, b, body, ss, ts, i);
      ProperAt(world, running, a, ss, i);
      ProperAt(world, running, b, ts, i);
      AllDistinct(world, running, a, ss[..i]);
      AllDistinct(world, running, b, ts[..i]);
      assert Answers(body[i], ss[i]) && Answers(body[i], ts[i]);
      SameOutcome(world, running, AfterAll(world, a, ss[..i]), AfterAll(world, b, ts[..i]), ss[i], ts[i]);
    }
  }

  lemma {:induction false} SameSteps(world: World, running: set<int>, a: Held, b: Held, body: seq<Stmt>,
      ss: seq<Trace>, ts: seq<Trace>)
    requires Distinct(a) && Distinct(b) && Alike(a, b)
    requires AllProper(world, running, a, ss) && AllProper(world, running, b, ts)
    requires forall i :: 0 <= i < |ss| ==> Undisturbed(ss[i])
    requires forall i :: 0 <= i < |ts| ==> Undisturbed(ts[i])
    requires Follows(world, body, ss) && Follows(world, body, ts)
    ensures |ss| == |ts| && Alike(AfterAll(world, a, ss), AfterAll(world, b, ts))
    ensures Distinct(AfterAll(world, a, ss)) && Distinct(AfterAll(world, b, ts))
    ensures forall i :: 0 <= i < |ss| ==> Similar(ss[i], ts[i]) && Succeeds(world, ss[i]) == Succeeds(world, ts[i])
    decreases ss, |ss| + 1
  {
    var k := if |ss| < |ts| then |ss| else |ts|;
    SamePrefix(world, running, a, b, body, ss, ts, k);
    assert k > 0 ==> GoesOn(world, body[k - 1], ss[k - 1]) == GoesOn(world, body[k - 1], ts[k - 1]);
    assert |ss| == |ts|;
    assert ss[..k] == ss && ts[..k] == ts;
    AllDistinct(world, running, a, ss);
    AllDistinct(world, running, b, ts);
  }

  lemma {:induction false} SameExecution(world: World, running: set<int>, a: Held, b: Held, s: Trace, t: Trace)
    requires Distinct(a) && Distinct(b) && Alike(a, b) && s.Executed? && t.Executed? && s.name == t.name
    requires Proper(world, running, a, s) && Proper(world, running, b, t) && Undisturbed(s) && Undisturbed(t)
    ensures Similar(s, t) && Succeeds(world, s) == Succeeds(world, t)
    ensures Alike(LoadedAfter(world, a, s), LoadedAfter(world, b, t))
    decreases s, 0
  {
    hide Alike, Distinct, Has, Follows, Succeeds, AllProper, AfterAll;
    var n, inner := s.name, running + {s.name};
    var a0, b0 := a[s.handle := s.exports], b[t.handle := t.exports];
    OneMoreAlike(a, b, s.handle, t.handle, s.exports, t.exports);
    LoadedByItself(world, running, a, s);
    LoadedByItself(world, running, b, t);
    FirstOfName(a, s.handle, s.exports);
    FirstOfName(b, t.handle, t.exports);
    SameSteps(world, inner, a0, b0, InitBody(world, n), s.first, t.first);
    var a1, b1 := AfterAll(world, a0, s.first), AfterAll(world, b0, t.first);
    SameSteps(world, inner, a1, b1, Body(world, n), s.steps, t.steps);
    SameEnd(AfterCode(world, a, s), AfterCode(world, b, t), s.handle, t.handle);
    SimilarEnd(world, s, t);
  }

  /** Where the same names are loaded, and no collection interferes, requiring a module
      comes out the same way, by the same steps, and leaves the same names loaded: the
      outcome is decided by the world. */
  lemma {:induction false} SameOutcome(world: World, running: set<int>, a: Held, b: Held, s: Trace, t: Trace)
    requires Distinct(a) && Distinct(b) && Alike(a, b)
    requires Proper(world, running, a, s) && Proper(world, running, b, t) && Undisturbed(s) && Undisturbed(t)
    requires if s.Collected? then t.Collected? else !t.Collected? && s.name == t.name
    ensures Similar(s, t) && Succeeds(world, s) == Succeeds(world, t)
    ensures Alike(LoadedAfter(world, a, s), LoadedAfter(world, b, t))
    decreases s, 1
  {
    hide AfterCode;
    if s.Collected? {
      assert a - {} == a && b - {} == b;
    } else {
      assert Has(a, s.name) <==> Has(b, s.name);
      SameKind(world, running, a, b, s, t);
      if s.Executed? {
        SameExecution(world, running, a, b, s, t);
      }
    }
  }

  // ------------------------------------------------ modules are singletons

  lemma {:induction false} OneMoreTakes(ts: seq<Trace>, h: Handle, i: nat, j: nat)
    requires i < j <= |ts|
    ensures AnyTakes(ts[i..j - 1], h) || Takes(ts[j - 1], h) ==> AnyTakes(ts[i..j], h)
  {
    var less, more := ts[i..j - 1], ts[i..j];
    assert more[j - 1 - i] == ts[j - 1];
    if AnyTakes(less, h) {
      var k :| 0 <= k < |less| && Takes(less[k], h);
      assert more[k] == less[k];
    }
  }

  lemma {:induction false} StaysUntil(world: World, running: set<int>, now: Held, ts: seq<Trace>, h: Handle,
      i: nat, j: nat)
    requires AllProper(world, running, now, ts) && i <= j <= |ts| && !AnyTakes(ts[i..j], h)
    requires h in AfterAll(world, now, ts[..i])
    ensures h in AfterAll(world, now, ts[..j])
    ensures AfterAll(world, now, ts[..j])[h] == AfterAll(world, now, ts[..i])[h]
    decreases j - i
  {
    if i < j {
      OneMoreTakes(ts, h, i, j);
      StaysUntil(world, running, now, ts, h, i, j - 1);
      ProperAt(world, running, now, ts, j - 1);
      Stays(world, running, AfterAll(world, now, ts[..j - 1]), ts[j - 1], h);
    }
  }

  /** Once a module is loaded, with handle h, requiring it gives h again, as it is and with
      nothing run, for as long as no collection takes it. */
  lemma {:induction false} GivenAsItIs(world: World, running: set<int>, now: Held, ts: seq<Trace>, h: Handle,
      i: nat, j: nat)
    requires AllProper(world, running, now, ts) && Distinct(now) && i <= j < |ts| && !AnyTakes(ts[i..j], h)
    requires h in AfterAll(world, now, ts[..i]) && Runnable(world, h.cname)
    requires !ts[j].Collected? && ts[j].name == h.cname
    ensures ts[j] == Reused(h.cname, h) && h in AfterAll(world, now, ts[..j])
    ensures AfterAll(world, now, ts[..j])[h] == AfterAll(world, now, ts[..i])[h]
  {
    StaysUntil(world, running, now, ts, h, i, j);
    ProperAt(world, running, now, ts, j);
    AllDistinct(world, running, now, ts[..j]);
    assert Has(AfterAll(world, now, ts[..j]), h.cname);
  }

  /** In t, however deep, every require of h's name gives h. */
  ghost predicate GivesOnly(t: Trace, h: Handle)
    decreases t
  {
    match t
    case Collected(_) => true
    case Reused(n, k) => n == h.cname ==> k == h
    case Refused(n) => n != h.cname
    case Executed(n, _, _, first, steps) =>
      && n != h.cname
      && (forall i :: 0 <= i < |first| ==> GivesOnly(first[i], h))
      && (forall i :: 0 <= i < |steps| ==> GivesOnly(steps[i], h))
  }

  /** The same for whatever the code of other modules requires, and for what a module that
      is still running is asked for: cycles end at the module that is loaded. */
  lemma {:induction false} AlwaysGiven(world: World, running: set<int>, now: Held, t: Trace, h: Handle)
    requires Proper(world, running, now, t) && Distinct(now) && h in now && Runnable(world, h.cname)
    requires h.cname in running || !Takes(t, h)
    ensures GivesOnly(t, h)
    decreases t, 0
  {
    if t.Executed? {
      var start, inner := now[t.handle := t.exports], running + {t.name};
      assert t.name != h.cname && t.handle != h;
      FirstOfName(now, t.handle, t.exports);
      AllGiven(world, inner, start, t.first, h);
      AllStay(world, inner, start, t.first, h);
      AllDistinct(world, inner, start, t.first);
      AllGiven(world, inner, AfterAll(world, start, t.first), t.steps, h);
    }
  }

  lemma {:induction false} AllGiven(world: World, running: set<int>, now: Held, ts: seq<Trace>, h: Handle)
    requires AllProper(world, running, now, ts) && Distinct(now) && h in now && Runnable(world, h.cname)
    requires h.cname in running || !AnyTakes(ts, h)
    ensures forall i :: 0 <= i < |ts| ==> GivesOnly(ts[i], h)
    decreases ts, 1
  {
    if ts != [] {
      var n := |ts| - 1;
      assert forall i :: 0 <= i < n ==> ts[..n][i] == ts[i];
      AllGiven(world, running, now, ts[..n], h);
      AllStay(world, running, now, ts[..n], h);
      AllDistinct(world, running, now, ts[..n]);
      AlwaysGiven(world, running, AfterAll(world, now, ts[..n]), ts[n], h);
    }
  }
}
