/** What the names of modules stand for, and what it comes to when one is required:
    an account of which code runs, in which order, and with what outcome. */
module ModuleWorld {
  import opened ModuleMemo

  /** A script requires modules, perhaps catching what that throws; a collection may
      happen in between. The same goes for the code of a native module. */
  datatype Stmt = Require(name: int, caught: bool) | Collect

  /** A native module has an init and a fini function if its library exports them. */
  datatype Dso = NoDso | BadDso | Dso(init: bool, code: seq<Stmt>, fini: bool)
  datatype Js = NoJs | BadJs | Js(body: seq<Stmt>, throws: bool)
  datatype ModuleDef = Internal(code: seq<Stmt>) | Disk(dso: Dso, js: Js)

  type World = map<int, ModuleDef>

  /** There is a file, or an internal module, of that name. */
  predicate HasCode(world: World, name: int) {
    name in world && (world[name].Internal? || !world[name].dso.NoDso? || !world[name].js.NoJs?)
  }

  predicate HasInit(world: World, name: int) {
    name in world && (world[name].Internal? || (world[name].dso.Dso? && world[name].dso.init))
  }

  predicate HasFini(world: World, name: int) {
    name in world && (world[name].Internal? || (world[name].dso.Dso? && world[name].dso.fini))
  }

  predicate HasScript(world: World, name: int) {
    name in world && world[name].Disk? && world[name].js.Js?
  }

  /** One of the loaders fails on it. */
  predicate IsBad(world: World, name: int) {
    name in world && world[name].Disk? && (world[name].dso.BadDso? || world[name].js.BadJs?)
  }

  /** A module that has something to run, with nothing wrong with it. */
  predicate Runnable(world: World, name: int) {
    (HasInit(world, name) || HasScript(world, name)) && !IsBad(world, name)
  }

  /** What the init function does, and what the script does. */
  function InitBody(world: World, name: int): seq<Stmt> {
    if !HasInit(world, name) then [] else if world[name].Internal? then world[name].code else world[name].dso.code
  }

  function Body(world: World, name: int): seq<Stmt> {
    if HasScript(world, name) then world[name].js.body else []
  }

  predicate Throws(world: World, name: int) {
    HasScript(world, name) && world[name].js.throws
  }

  // ---------------------------------------------------------- accounts

  /** The handles that are loaded, with their exports. */
  type Held = map<Handle, Token>

  /** A module of that name is loaded. */
  ghost predicate Has(now: Held, name: int) {
    exists h :: h in now && h.cname == name
  }

  /** What is loaded had something to run, and nothing was wrong with it. */
  ghost predicate Live(world: World, now: Held) {
    forall h :: h in now ==> Runnable(world, h.cname)
  }

  /** What a statement came to. A collection takes some handles that were loaded. A module
      that is required is given as it is, or cannot be had, or has its code executed: init
      function first, then the script, each statement by statement as far as it got. */
  datatype Trace =
    | Collected(gone: set<Handle>)
    | Reused(name: int, handle: Handle)
    | Refused(name: int)
    | Executed(name: int, handle: Handle, exports: Token, first: seq<Trace>, steps: seq<Trace>)

  /** Whether the require of which t is the account has succeeded. */
  predicate Succeeds(world: World, t: Trace) {
    match t
    case Collected(_) => true
    case Reused(_, _) => true
    case Refused(_) => false
    case Executed(n, _, _, _, steps) =>
      && |steps| == |Body(world, n)| && !Throws(world, n)
      && forall i :: 0 <= i < |steps| ==> Succeeds(world, steps[i]) || Catches(Body(world, n)[i])
  }

  predicate Catches(stmt: Stmt) {
    stmt.Require? && stmt.caught
  }

  /** Control goes on after the statement. */
  predicate GoesOn(world: World, stmt: Stmt, t: Trace) {
    Succeeds(world, t) || Catches(stmt)
  }

  predicate Answers(stmt: Stmt, t: Trace) {
    match stmt
    case Require(n, _) => !t.Collected? && t.name == n
    case Collect => t.Collected?
  }

  /** steps account for the statements of body, up to the end or to the first that fails. */
  predicate Follows(world: World, body: seq<Stmt>, steps: seq<Trace>) {
    && |steps| <= |body|
    && (forall i :: 0 <= i < |steps| ==> Answers(body[i], steps[i]))
    && (forall i :: 0 <= i < |steps| - 1 ==> GoesOn(world, body[i], steps[i]))
    && (|steps| < |body| ==> steps != [] && !GoesOn(world, body[|steps| - 1], steps[|steps| - 1]))
  }

  predicate Completes(world: World, body: seq<Stmt>, steps: seq<Trace>) {
    |steps| == |body| && forall i :: 0 <= i < |steps| ==> GoesOn(world, body[i], steps[i])
  }

  /** What is loaded after the code of a module has run; it is itself flagged loaded before. */
  ghost function AfterCode(world: World, now: Held, t: Trace): Held
    requires t.Executed?
    decreases t, 0
  {
    AfterAll(world, AfterAll(world, now[t.handle := t.exports], t.first), t.steps)
  }

  /** What is loaded after t; a module that fails is not. */
  ghost function LoadedAfter(world: World, now: Held, t: Trace): Held
    decreases t, 1
  {
    match t
    case Collected(gone) => now - gone
    case Reused(_, _) => now
    case Refused(_) => now
    case Executed(_, h, _, _, _) =>
      if Succeeds(world, t) then AfterCode(world, now, t) else AfterCode(world, now, t) - {h}
  }

  ghost function AfterAll(world: World, now: Held, ts: seq<Trace>): Held
    decreases ts, 2
  {
    if ts == [] then now else LoadedAfter(world, AfterAll(world, now, ts[..|ts| - 1]), ts[|ts| - 1])
  }

  /** t is an account that the world allows, where the modules in now are loaded and the
      code of those in running is running. A module is given as it is exactly if it is
      loaded. A collection takes none that has a fini function or whose code is running. */
  ghost predicate Proper(world: World, running: set<int>, now: Held, t: Trace)
    decreases t, 0
  {
    match t
    case Collected(gone) =>
      gone <= now.Keys && forall h :: h in gone ==> h.cname !in running && !HasFini(world, h.cname)
    case Reused(n, h) => Runnable(world, n) && h in now && h.cname == n
    case Refused(n) => !Runnable(world, n) && (HasCode(world, n) ==> !Has(now, n))
    case Executed(n, h, x, first, steps) =>
      && Runnable(world, n) && h.cname == n && n !in running && !Has(now, n)
      && Follows(world, InitBody(world, n), first) && Follows(world, Body(world, n), steps)
      && AllProper(world, running + {n}, now[h := x], first)
      && AllProper(world, running + {n}, AfterAll(world, now[h := x], first), steps)
  }

  ghost predicate AllProper(world: World, running: set<int>, now: Held, ts: seq<Trace>)
    decreases ts, 1
  {
    ts == [] || (
      && AllProper(world, running, now, ts[..|ts| - 1])
      && Proper(world, running, AfterAll(world, now, ts[..|ts| - 1]), ts[|ts| - 1]))
  }

  /** steps account for the first statements of body; ok says that nothing has stopped it. */
  ghost predicate Recounts(world: World, running: set<int>, now: Held, body: seq<Stmt>, steps: seq<Trace>, ok: bool) {
    && |steps| <= |body| && AllProper(world, running, now, steps)
    && (forall i :: 0 <= i < |steps| ==> Answers(body[i], steps[i]))
    && (forall i :: 0 <= i < |steps| - 1 ==> GoesOn(world, body[i], steps[i]))
    && (ok <==> steps == [] || GoesOn(world, body[|steps| - 1], steps[|steps| - 1]))
  }

  /** An init function or a script that was started. */
  datatype Run = InitOf(handle: Handle) | ScriptOf(handle: Handle)

  /** What was started, in order. */
  ghost function RunsOf(world: World, t: Trace): seq<Run>
    decreases t
  {
    if !t.Executed? then [] else
      (if HasInit(world, t.name) then [InitOf(t.handle)] + RunsOfAll(world, t.first) else [])
      + if HasScript(world, t.name) then [ScriptOf(t.handle)] + RunsOfAll(world, t.steps) else []
  }

  ghost function RunsOfAll(world: World, ts: seq<Trace>): seq<Run>
    decreases ts
  {
    if ts == [] then [] else RunsOfAll(world, ts[..|ts| - 1]) + RunsOf(world, ts[|ts| - 1])
  }

  // ------------------------------------------------ how accounts are made

  lemma {:induction false} RecountsNone(world: World, running: set<int>, now: Held, body: seq<Stmt>)
    ensures Recounts(world, running, now, body, [], true)
    ensures RunsOfAll(world, []) == [] && AfterAll(world, now, []) == now
  {
  }

  lemma {:induction false} NothingFollows(world: World, running: set<int>, now: Held, name: int)
    ensures AllProper(world, running, now, []) && RunsOfAll(world, []) == [] && AfterAll(world, now, []) == now
    ensures !HasInit(world, name) ==> Follows(world, InitBody(world, name), [])
    ensures !HasScript(world, name) ==>
      Follows(world, Body(world, name), []) && Completes(world, Body(world, name), []) && !Throws(world, name)
  {
  }

  lemma {:induction false} RefusedIsProper(world: World, running: set<int>, now: Held, name: int)
    ensures !Runnable(world, name) && (HasCode(world, name) ==> !Has(now, name)) ==>
      Proper(world, running, now, Refused(name))
    ensures !Succeeds(world, Refused(name)) && RunsOf(world, Refused(name)) == []
    ensures LoadedAfter(world, now, Refused(name)) == now
  {
  }

  lemma {:induction false} ReusedIsProper(world: World, running: set<int>, now: Held, h: Handle)
    ensures Runnable(world, h.cname) && h in now ==> Proper(world, running, now, Reused(h.cname, h))
    ensures Succeeds(world, Reused(h.cname, h)) && RunsOf(world, Reused(h.cname, h)) == []
    ensures LoadedAfter(world, now, Reused(h.cname, h)) == now
  {
  }

  lemma {:induction false} CollectedIsProper(world: World, running: set<int>, now: Held, gone: set<Handle>)
    requires gone <= now.Keys && forall h :: h in gone ==> h.cname !in running && !HasFini(world, h.cname)
    ensures Proper(world, running, now, Collected(gone)) && Succeeds(world, Collected(gone))
    ensures RunsOf(world, Collected(gone)) == [] && LoadedAfter(world, now, Collected(gone)) == now - gone
  {
  }

  lemma LiveWithout(world: World, now: Held, gone: set<Handle>)
    requires Live(world, now)
    ensures Live(world, now - gone)
  {
  }

  lemma {:induction false} ExecutedIsProper(world: World, running: set<int>, now: Held, t: Trace, ok: bool)
    requires t.Executed? && Runnable(world, t.name) && t.handle.cname == t.name
    requires t.name !in running && !Has(now, t.name)
    requires Follows(world, InitBody(world, t.name), t.first) && Follows(world, Body(world, t.name), t.steps)
    requires AllProper(world, running + {t.name}, now[t.handle := t.exports], t.first)
    requires AllProper(world, running + {t.name}, AfterAll(world, now[t.handle := t.exports], t.first), t.steps)
    requires ok <==> Completes(world, Body(world, t.name), t.steps) && !Throws(world, t.name)
    ensures Proper(world, running, now, t) && ok == Succeeds(world, t)
    ensures RunsOf(world, t) ==
      (if HasInit(world, t.name) then [InitOf(t.handle)] + RunsOfAll(world, t.first) else [])
      + if HasScript(world, t.name) then [ScriptOf(t.handle)] + RunsOfAll(world, t.steps) else []
  {
  }

  lemma {:induction false} AfterNext(world: World, running: set<int>, now: Held, ts: seq<Trace>, t: Trace)
    ensures AfterAll(world, now, ts + [t]) == LoadedAfter(world, AfterAll(world, now, ts), t)
    ensures AllProper(world, running, now, ts + [t]) <==>
      AllProper(world, running, now, ts) && Proper(world, running, AfterAll(world, now, ts), t)
  {
    assert (ts + [t])[..|ts|] == ts;
  }

  lemma {:induction false} RunsOfNext(world: World, before: seq<Run>, ts: seq<Trace>, t: Trace)
    ensures before + RunsOfAll(world, ts + [t]) == before + RunsOfAll(world, ts) + RunsOf(world, t)
  {
    assert (ts + [t])[..|ts|] == ts;
  }

  lemma {:induction false} RecountsNext(world: World, running: set<int>, now: Held, body: seq<Stmt>,
      steps: seq<Trace>, t: Trace)
    requires Recounts(world, running, now, body, steps, true) && |steps| < |body| && Answers(body[|steps|], t)
    requires Proper(world, running, AfterAll(world, now, steps), t)
    ensures Recounts(world, running, now, body, steps + [t], GoesOn(world, body[|steps|], t))
    ensures AfterAll(world, now, steps + [t]) == LoadedAfter(world, AfterAll(world, now, steps), t)
  {
    hide AllProper, AfterAll, LoadedAfter, Proper, GoesOn, Answers;
    AfterNext(world, running, now, steps, t);
  }

  lemma {:induction false} RecountsAll(world: World, running: set<int>, now: Held, body: seq<Stmt>,
      steps: seq<Trace>, ok: bool)
    requires Recounts(world, running, now, body, steps, ok) && (ok ==> |steps| == |body|)
    ensures Follows(world, body, steps) && AllProper(world, running, now, steps) && ok == Completes(world, body, steps)
  {
    hide AllProper;
  }
}
