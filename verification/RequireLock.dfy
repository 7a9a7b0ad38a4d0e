/** The lock around require (gpsee_modules.c:308-371), run by any number of
    threads whose atomic steps interleave in any order. A compare-and-swap is one
    step; an increment or decrement of the depth is a read and a later write. */
module RequireLock {

  datatype Owner = Nobody | Thread(id: int)

  datatype PC =
    | Outside                   // not in requireLock or requireUnlock
    | TrySelf                   // before CAS(thread, me, me)
    | TryFree                   // before CAS(thread, NULL, me)
    | Sleeping                  // in PR_Sleep, after that CAS failed
    | IncRead | IncWrite(d: int)
    | DecRead | DecWrite(d: int)
    | TestZero                  // before the test of the depth
    | Release                   // before CAS(thread, me, NULL)
    | Crashed                   // an assertion failed

  /** nest is the number of locks the thread has been given and not yet given back. */
  datatype Local = Local(pc: PC, nest: int)

  datatype State = State(thread: Owner, depth: int, locals: map<int, Local>)

  datatype Call = Lock | Unlock

  /** What thread t's next atomic step does; the call matters only when it is outside. */
  function Step(s: State, t: int, call: Call): State
    requires t in s.locals
  {
    var l := s.locals[t];
    match l.pc
    case Outside =>
      if call == Lock then Goto(s, t, TrySelf)
      else if l.nest == 0 then s                          // unlocks are paired with locks
      else Goto(s, t, DecRead)
    case TrySelf => Goto(s, t, if s.thread == Thread(t) then IncRead else TryFree)
    case TryFree =>
      if s.thread == Nobody then Goto(s.(thread := Thread(t)), t, IncRead) else Goto(s, t, Sleeping)
    case Sleeping => Goto(s, t, TryFree)
    case IncRead => Goto(s, t, IncWrite(s.depth))
    case IncWrite(d) => s.(depth := d + 1, locals := s.locals[t := Local(Outside, l.nest + 1)])
    case DecRead =>
      if s.depth == 0 || s.thread != Thread(t) then Goto(s, t, Crashed) else Goto(s, t, DecWrite(s.depth))
    case DecWrite(d) => s.(depth := d - 1, locals := s.locals[t := Local(TestZero, l.nest - 1)])
    case TestZero => Goto(s, t, if s.depth == 0 then Release else Outside)
    case Release =>
      if s.thread == Thread(t) then Goto(s.(thread := Nobody), t, Outside) else Goto(s, t, Crashed)
    case Crashed => s
  }

  function Goto(s: State, t: int, pc: PC): State
    requires t in s.locals
  {
    s.(locals := s.locals[t := s.locals[t].(pc := pc)])
  }

  predicate Initial(s: State) {
    s.thread == Nobody && s.depth == 0 && forall t :: t in s.locals ==> s.locals[t] == Local(Outside, 0)
  }

  /** A run: at each point some thread takes a step. */
  ghost predicate Run(r: seq<State>) {
    && |r| > 0 && Initial(r[0])
    && forall i :: 0 <= i < |r| - 1 ==> Successor(r[i], r[i + 1])
  }

  ghost predicate Successor(s: State, s': State) {
    exists t, call :: t in s.locals && s' == Step(s, t, call)
  }

  /** Thread t is between the compare-and-swap that took the lock and the one that frees it. */
  predicate Holds(s: State, t: int)
    requires t in s.locals
  {
    s.locals[t].nest > 0 || s.locals[t].pc.IncRead? || s.locals[t].pc.IncWrite? || s.locals[t].pc.TestZero?
      || s.locals[t].pc.Release?
  }

  ghost predicate Consistent(s: State, t: int)
    requires t in s.locals
  {
    var l := s.locals[t];
    && l.nest >= 0 && !l.pc.Crashed?
    && (Holds(s, t) <==> s.thread == Thread(t))
    && (Holds(s, t) ==> s.depth == l.nest)
    && (l.pc.TryFree? || l.pc.Sleeping? ==> l.nest == 0)
    && (l.pc.IncWrite? ==> l.pc.d == l.nest)
    && (l.pc.DecRead? ==> l.nest > 0)
    && (l.pc.DecWrite? ==> l.pc.d == l.nest > 0)
    && (l.pc.Release? ==> l.nest == 0)
  }

  ghost predicate Inv(s: State) {
    && (s.thread == Nobody ==> s.depth == 0)
    && (s.thread != Nobody ==> s.thread.id in s.locals)
    && forall t {:trigger Consistent(s, t)} :: t in s.locals ==> Consistent(s, t)
  }

  lemma StepKeepsInv(s: State, t: int, call: Call)
    requires Inv(s) && t in s.locals
    ensures Inv(Step(s, t, call))
  {
    var s' := Step(s, t, call);
    assert Consistent(s, t);
    forall u | u in s'.locals
      ensures Consistent(s', u)
    {
      assert Consistent(s, u);
    }
  }

  lemma {:induction false} RunKeepsInv(r: seq<State>)
    requires Run(r)
    ensures Inv(r[|r| - 1])
    decreases |r|
  {
    if |r| > 1 {
      var before := r[..|r| - 1];
      forall i | 0 <= i < |before| - 1
        ensures Successor(before[i], before[i + 1])
      {
        assert before[i] == r[i] && before[i + 1] == r[i + 1];
      }
      RunKeepsInv(before);
      var s := r[|r| - 2];
      assert before[|before| - 1] == s;
      assert Successor(s, r[|r| - 1]);
      var t, call :| t in s.locals && r[|r| - 1] == Step(s, t, call);
      StepKeepsInv(s, t, call);
    }
  }

  /** In every reachable state: at most one thread has the lock, and it is the one
      recorded; the depth is that thread's nesting; a free lock has depth 0; and
      no assertion has failed, and what they assert is true, in particular that the
      releasing swap will find the thread. */
  lemma LockIsSafe(r: seq<State>, t: int, u: int)
    requires Run(r) && var s := r[|r| - 1]; t in s.locals && u in s.locals
    ensures var s := r[|r| - 1];
      && (Holds(s, t) && Holds(s, u) ==> t == u)
      && (Holds(s, t) <==> s.thread == Thread(t))
      && (Holds(s, t) ==> s.depth == s.locals[t].nest)
      && (s.thread == Nobody ==> s.depth == 0 && !Holds(s, t))
      && !s.locals[t].pc.Crashed?
      && (s.locals[t].pc.DecRead? ==> s.depth != 0 && s.thread == Thread(t))
      && (s.locals[t].pc.Release? ==> s.depth == 0 && s.thread == Thread(t))
  {
    RunKeepsInv(r);
    assert Consistent(r[|r| - 1], t) && Consistent(r[|r| - 1], u);
  }

  /** Only the thread that has the lock reads or writes the depth. */
  lemma DepthIsPrivate(r: seq<State>, t: int, call: Call)
    requires Run(r) && t in r[|r| - 1].locals
    ensures var s := r[|r| - 1];
      var pc := s.locals[t].pc;
      (pc.IncRead? || pc.DecRead? || pc.TestZero? || Step(s, t, call).depth != s.depth) ==> s.thread == Thread(t)
  {
    RunKeepsInv(r);
    assert Consistent(r[|r| - 1], t);
  }

  /** What the other threads do, in any number of steps. */
  ghost predicate OthersRun(r: seq<State>, t: int) {
    && |r| > 0
    && forall i :: 0 <= i < |r| - 1 ==> OtherStep(r[i], r[i + 1], t)
  }

  ghost predicate OtherStep(s: State, s': State, t: int) {
    exists u, call :: u in s.locals && u != t && s' == Step(s, u, call)
  }

  /** While t has the lock, no other thread changes the lock or the depth. */
  lemma {:induction false} OthersLeaveItAlone(r: seq<State>, t: int)
    requires OthersRun(r, t) && Inv(r[0]) && t in r[0].locals && Holds(r[0], t)
    ensures var s := r[|r| - 1];
      Inv(s) && t in s.locals && s.locals[t] == r[0].locals[t] && s.thread == Thread(t) && s.depth == r[0].depth
    decreases |r|
  {
    assert Consistent(r[0], t);
    if |r| > 1 {
      assert OtherStep(r[0], r[1], t);
      var u, call :| u in r[0].locals && u != t && r[1] == Step(r[0], u, call);
      assert Consistent(r[0], u);
      StepKeepsInv(r[0], u, call);
      var rest := r[1..];
      forall i | 0 <= i < |rest| - 1
        ensures OtherStep(rest[i], rest[i + 1], t)
      {
        assert rest[i] == r[i + 1] && rest[i + 1] == r[i + 2];
      }
      OthersLeaveItAlone(rest, t);
    }
  }

  /** A thread that has the lock gets it again at once, whatever the others do
      between its steps, and the depth grows by one; it never has to wait. */
  lemma Reentry(a: seq<State>, b: seq<State>, c: seq<State>, t: int)
    requires OthersRun(a, t) && Inv(a[0]) && t in a[0].locals && Holds(a[0], t) && a[0].locals[t].pc == TrySelf
    requires OthersRun(b, t) && var s := a[|a| - 1]; t in s.locals && b[0] == Step(s, t, Lock)
    requires OthersRun(c, t) && var s := b[|b| - 1]; t in s.locals && c[0] == Step(s, t, Lock)
    ensures var s := c[|c| - 1];
      t in s.locals && s.locals[t].pc.IncWrite? && Step(s, t, Lock).depth == a[0].depth + 1
      && Step(s, t, Lock).locals[t] == Local(Outside, a[0].locals[t].nest + 1)
  {
    OthersLeaveItAlone(a, t);
    StepKeepsInv(a[|a| - 1], t, Lock);
    OthersLeaveItAlone(b, t);
    assert Consistent(b[|b| - 1], t);
    StepKeepsInv(b[|b| - 1], t, Lock);
    OthersLeaveItAlone(c, t);
    assert Consistent(c[|c| - 1], t);
  }

  // ---------------------------------------------------------- progress

  /** A step of a thread, with the call it makes if it is outside. */
  datatype Move = Move(t: int, call: Call)

  ghost predicate CanMove(s: State, ms: seq<Move>) {
    forall i :: 0 <= i < |ms| ==> ms[i].t in s.locals
  }

  lemma StepKeepsThreads(s: State, t: int, call: Call)
    requires t in s.locals
    ensures Step(s, t, call).locals.Keys == s.locals.Keys
    ensures forall u :: u in s.locals && u != t ==> Step(s, t, call).locals[u] == s.locals[u]
  {
  }

  /** The state after some moves. */
  ghost function After(s: State, ms: seq<Move>): (r: State)
    requires CanMove(s, ms)
    ensures r.locals.Keys == s.locals.Keys
    decreases ms
  {
    if ms == [] then s else
      StepKeepsThreads(s, ms[0].t, ms[0].call);
      After(Step(s, ms[0].t, ms[0].call), ms[1..])
  }

  lemma NoMoves(s: State)
    ensures CanMove(s, []) && After(s, []) == s
  {
  }

  lemma {:induction false} AfterBoth(s: State, a: seq<Move>, b: seq<Move>)
    requires CanMove(s, a) && CanMove(s, b)
    ensures CanMove(s, a + b) && After(s, a + b) == After(After(s, a), b)
    decreases a
  {
    if a == [] {
      assert a + b == b;
    } else {
      assert (a + b)[1..] == a[1..] + b;
      StepKeepsThreads(s, a[0].t, a[0].call);
      AfterBoth(Step(s, a[0].t, a[0].call), a[1..], b);
    }
  }

  /** How many of the moves are t's. */
  ghost function Turns(ms: seq<Move>, t: int): nat {
    if ms == [] then 0 else (if ms[0].t == t then 1 else 0) + Turns(ms[1..], t)
  }

  /** t makes no other call. */
  ghost predicate OnlyCalls(ms: seq<Move>, t: int, call: Call) {
    forall i :: 0 <= i < |ms| && ms[i].t == t ==> ms[i].call == call
  }

  /** The compare-and-swap of a thread that tries for a free lock gives it the lock. */
  lemma FreeIsTaken(r: seq<State>, t: int, call: Call)
    requires Run(r) && var s := r[|r| - 1]; t in s.locals && s.thread == Nobody && s.locals[t].pc == TryFree
    ensures var s' := Step(r[|r| - 1], t, call);
      s'.thread == Thread(t) && t in s'.locals && Holds(s', t) && s'.locals[t].pc == IncRead
  {
    RunKeepsInv(r);
    StepKeepsInv(r[|r| - 1], t, call);
  }

  /** Inside requireLock. */
  predicate IsLocking(pc: PC) {
    pc in {TrySelf, TryFree, Sleeping, IncRead} || pc.IncWrite?
  }

  /** A thread that is to get the lock does not come back without it: at each step it goes
      on, or it is outside, has the lock, and is one deeper. It goes to sleep exactly if
      it has found the lock taken. */
  lemma LocksOrGoesOn(r: seq<State>, t: int, call: Call)
    requires Run(r) && t in r[|r| - 1].locals && IsLocking(r[|r| - 1].locals[t].pc)
    ensures var s, s' := r[|r| - 1], Step(r[|r| - 1], t, call);
      && t in s'.locals
      && (IsLocking(s'.locals[t].pc) ==> s'.locals[t].nest == s.locals[t].nest)
      && (!IsLocking(s'.locals[t].pc) ==> s'.thread == Thread(t) && s'.depth == s.locals[t].nest + 1)
      && (!IsLocking(s'.locals[t].pc) ==> s'.locals[t] == Local(Outside, s.locals[t].nest + 1))
      && (s'.locals[t].pc.Sleeping? <==> s.locals[t].pc.TryFree? && s.thread != Nobody)
  {
    RunKeepsInv(r);
    assert Consistent(r[|r| - 1], t);
    StepKeepsInv(r[|r| - 1], t, call);
    assert Consistent(Step(r[|r| - 1], t, call), t);
  }

  ghost function Repeat(m: Move, n: nat): seq<Move> {
    if n == 0 then [] else [m] + Repeat(m, n - 1)
  }

  lemma {:induction false} RepeatNext(s: State, m: Move, n: nat)
    requires m.t in s.locals && CanMove(Step(s, m.t, m.call), Repeat(m, n))
    ensures CanMove(s, Repeat(m, n + 1))
    ensures After(s, Repeat(m, n + 1)) == After(Step(s, m.t, m.call), Repeat(m, n))
  {
    StepKeepsThreads(s, m.t, m.call);
    assert Repeat(m, n + 1)[1..] == Repeat(m, n);
  }

  /** Where a thread that takes a free lock is after k steps. */
  ghost function Locking(k: nat): Local {
    match k
    case 0 => Local(Outside, 0)
    case 1 => Local(TrySelf, 0)
    case 2 => Local(TryFree, 0)
    case 3 => Local(IncRead, 0)
    case 4 => Local(IncWrite(0), 0)
    case _ => Local(Outside, 1)
  }

  lemma LockStep(s: State, t: int, k: nat)
    requires Inv(s) && t in s.locals && s.locals[t] == Locking(k) && k < 5 && (k < 3 ==> s.thread == Nobody)
    ensures var s' := Step(s, t, Lock);
      Inv(s') && t in s'.locals && s'.locals[t] == Locking(k + 1) && (k < 2 ==> s'.thread == Nobody)
  {
    assert Consistent(s, t);
    StepKeepsInv(s, t, Lock);
  }

  lemma {:induction false} LockingEnds(s: State, t: int, k: nat)
    requires Inv(s) && t in s.locals && s.locals[t] == Locking(k) && k <= 5 && (k < 3 ==> s.thread == Nobody)
    ensures var ms := Repeat(Move(t, Lock), 5 - k);
      CanMove(s, ms) && Inv(After(s, ms)) && t in After(s, ms).locals && After(s, ms).locals[t] == Local(Outside, 1)
    decreases 5 - k
  {
    hide After, Inv;
    if k == 5 {
      NoMoves(s);
    } else {
      LockStep(s, t, k);
      LockingEnds(Step(s, t, Lock), t, k + 1);
      RepeatNext(s, Move(t, Lock), 4 - k);
    }
  }

  /** A thread alone locks a free lock in five steps. */
  lemma LockAlone(r: seq<State>, t: int)
    requires Run(r) && var s := r[|r| - 1]; t in s.locals && s.thread == Nobody && s.locals[t].pc == Outside
    ensures var s, ms := r[|r| - 1], Repeat(Move(t, Lock), 5);
      CanMove(s, ms) && var e := After(s, ms);
      e.thread == Thread(t) && e.depth == 1 && t in e.locals && e.locals[t] == Local(Outside, 1)
  {
    var s, ms := r[|r| - 1], Repeat(Move(t, Lock), 5);
    RunKeepsInv(r);
    assert Consistent(s, t);
    LockingEnds(s, t, 0);
    assert Consistent(After(s, ms), t);
  }

  /** Where a thread that held the lock n deep is after k steps of unlocking. */
  ghost function Unlocking(n: int, k: nat): Local {
    match k
    case 0 => Local(Outside, n)
    case 1 => Local(DecRead, n)
    case 2 => Local(DecWrite(n), n)
    case 3 => Local(TestZero, n - 1)
    case _ => Local(if k == 4 && n == 1 then Release else Outside, n - 1)
  }

  lemma UnlockStep(s: State, t: int, n: int, k: nat)
    requires Inv(s) && t in s.locals && n > 0 && s.locals[t] == Unlocking(n, k) && k < if n == 1 then 5 else 4
    ensures t in Step(s, t, Unlock).locals && Step(s, t, Unlock).locals[t] == Unlocking(n, k + 1)
  {
    assert Consistent(s, t);
  }

  lemma {:induction false} UnlockingEnds(s: State, ms: seq<Move>, t: int, n: int, k: nat)
    requires Inv(s) && CanMove(s, ms) && OnlyCalls(ms, t, Unlock) && ms != [] && ms[|ms| - 1].t == t
    requires t in s.locals && n > 0 && s.locals[t] == Unlocking(n, k) && k + Turns(ms, t) == if n == 1 then 5 else 4
    ensures var e := After(s, ms);
      && Inv(e) && t in e.locals && e.locals[t] == Local(Outside, n - 1) && e.depth == n - 1
      && (e.thread == Nobody <==> n == 1) && (n > 1 ==> e.thread == Thread(t))
    decreases ms
  {
    var u, call, rest := ms[0].t, ms[0].call, ms[1..];
    var s' := Step(s, u, call);
    StepKeepsThreads(s, u, call);
    StepKeepsInv(s, u, call);
    if u == t {
      UnlockStep(s, t, n, k);
    }
    if rest != [] {
      UnlockingEnds(s', rest, t, n, if u == t then k + 1 else k);
    } else {
      assert Turns(rest, t) == 0 && After(s, ms) == s';
      assert Consistent(s, t) && Consistent(s', t);
    }
  }

  /** Unlocking ends, whatever the others do between its steps: after four steps of its
      own, or five if that frees the lock, the thread is outside, one less deep, and the
      lock is free exactly if it was one deep. */
  lemma UnlockEnds(r: seq<State>, ms: seq<Move>, t: int)
    requires Run(r) && t in r[|r| - 1].locals && CanMove(r[|r| - 1], ms)
    requires OnlyCalls(ms, t, Unlock) && ms != [] && ms[|ms| - 1].t == t
    requires var l := r[|r| - 1].locals[t];
      l.pc == Outside && l.nest > 0 && Turns(ms, t) == if l.nest == 1 then 5 else 4
    ensures var s, e := r[|r| - 1], After(r[|r| - 1], ms);
      var n := s.locals[t].nest;
      && t in e.locals && e.locals[t] == Local(Outside, n - 1) && e.depth == s.depth - 1 == n - 1
      && (e.thread == Nobody <==> n == 1) && (n > 1 ==> e.thread == Thread(t))
  {
    var s := r[|r| - 1];
    RunKeepsInv(r);
    assert Consistent(s, t);
    UnlockingEnds(s, ms, t, s.locals[t].nest, 0);
  }

  /** How many steps the holder is from giving the lock up. */
  ghost function Distance(l: Local): int {
    match l.pc
    case TrySelf => 4 * l.nest + 7
    case IncRead => 4 * l.nest + 6
    case IncWrite(_) => 4 * l.nest + 5
    case Outside => 4 * l.nest
    case DecRead => 4 * l.nest - 1
    case DecWrite(_) => 4 * l.nest - 2
    case TestZero => 4 * l.nest + 1
    case _ => 0
  }

  lemma HolderGoesOn(s: State, u: int)
    requires Inv(s) && u in s.locals && Holds(s, u)
    ensures var s' := Step(s, u, Unlock);
      u in s'.locals
      && if Holds(s', u) then 0 <= Distance(s'.locals[u]) < Distance(s.locals[u]) else s'.thread == Nobody
  {
    assert Consistent(s, u);
  }

  /** A thread that has the lock can give it up, on its own. */
  lemma {:induction false} CanGiveUp(s: State, u: int) returns (ms: seq<Move>)
    requires Inv(s) && u in s.locals && Holds(s, u)
    ensures CanMove(s, ms) && var e := After(s, ms);
      Inv(e) && e.thread == Nobody
      && forall t :: t in s.locals && t != u ==> t in e.locals && e.locals[t] == s.locals[t]
    decreases Distance(s.locals[u])
  {
    var s' := Step(s, u, Unlock);
    StepKeepsThreads(s, u, Unlock);
    StepKeepsInv(s, u, Unlock);
    HolderGoesOn(s, u);
    var rest := [];
    if Holds(s', u) {
      rest := CanGiveUp(s', u);
    }
    ms := [Move(u, Unlock)] + rest;
    assert ms[1..] == rest;
  }

  /** From where it is, t takes a lock that is free. */
  lemma TakesFree(s: State, t: int) returns (ms: seq<Move>)
    requires Inv(s) && t in s.locals && s.thread == Nobody
    requires s.locals[t].pc in {TrySelf, TryFree, Sleeping}
    ensures CanMove(s, ms) && t in After(s, ms).locals && Holds(After(s, ms), t)
  {
    var m := Move(t, Lock);
    var s' := Step(s, t, Lock);
    assert [m][1..] == [] && [m, m][1..] == [m] && After(s', []) == s' && After(s', [m]) == Step(s', t, Lock);
    ms := if s.locals[t].pc == TryFree then [m] else [m, m];
  }

  /** Nobody is locked out: whatever has happened, a thread that waits for the lock gets it
      in some continuation of the run. */
  lemma NobodyIsLockedOut(r: seq<State>, t: int) returns (ms: seq<Move>)
    requires Run(r) && var s := r[|r| - 1]; t in s.locals && s.locals[t].pc in {TrySelf, TryFree, Sleeping}
    ensures var s := r[|r| - 1];
      CanMove(s, ms) && t in After(s, ms).locals && Holds(After(s, ms), t)
  {
    var s := r[|r| - 1];
    RunKeepsInv(r);
    assert Consistent(s, t);
    if s.thread == Nobody {
      ms := TakesFree(s, t);
    } else if s.thread == Thread(t) {
      ms := [];
    } else {
      assert Consistent(s, s.thread.id);
      var first := CanGiveUp(s, s.thread.id);
      var second := TakesFree(After(s, first), t);
      AfterBoth(s, first, second);
      ms := first + second;
    }
  }
}
