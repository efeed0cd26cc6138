/** What the spinlock promises a thread that waits for it: that it can get in, not that it will. */
module LockProgress {
  import opened Pages
  import opened Spinlock

  predicate Within(schedule: seq<(nat, Call)>, threads: nat) {
    forall k :: 0 <= k < |schedule| ==> schedule[k].0 < threads
  }

  // ----- every call can return -----

  lemma {:induction false} RunConcat(w: World, init: Pool, a: seq<(nat, Call)>, b: seq<(nat, Call)>)
    requires Inv(w, init) && Within(a, |w.threads|)
    requires Within(b, |w.threads|)
    ensures Inv(Run(w, init, a), init) && |Run(w, init, a).threads| == |w.threads|
    ensures Within(a + b, |w.threads|)
    ensures Run(w, init, a + b) == Run(Run(w, init, a), init, b)
    decreases |a|
  {
    if a == [] {
      assert a + b == b;
    } else {
      StepKeeps(w, init, a[0].0, a[0].1);
      assert (a + b)[1..] == a[1..] + b;
      RunConcat(Step(w, a[0].0, a[0].1), init, a[1..], b);
    }
  }

  /** From `w` to `w'` thread `t` came out of its call: that is the last one finished, and the lock is free. */
  predicate CameOut(w: World, w': World, t: nat)
    requires t < |w.threads| && !w.threads[t].Idle?
  {
    && |w'.threads| == |w.threads| && w'.threads[t].Idle? && !w'.locked
    && |w'.history| > |w.history| && w'.history[|w'.history| - 1].call == w.threads[t].call
  }

  /** A schedule that brings the call of thread `t` to its end. */
  ghost predicate Returns(w: World, init: Pool, t: nat, schedule: seq<(nat, Call)>)
    requires Inv(w, init) && t < |w.threads| && !w.threads[t].Idle?
  {
    Within(schedule, |w.threads|) && CameOut(w, Run(w, init, schedule), t)
  }

  lemma ReturnsCons(w: World, init: Pool, t: nat, step: (nat, Call), rest: seq<(nat, Call)>)
    requires Inv(w, init) && t < |w.threads| && !w.threads[t].Idle? && step.0 < |w.threads|
    requires Inv(Step(w, step.0, step.1), init)
    requires var w' := Step(w, step.0, step.1);
      && |w'.threads| == |w.threads| && !w'.threads[t].Idle? && w'.threads[t].call == w.threads[t].call
      && |w'.history| >= |w.history| && Returns(w', init, t, rest)
    ensures Returns(w, init, t, [step] + rest)
  {
    assert ([step] + rest)[1..] == rest;
  }

  lemma LeavingReturns(w: World, init: Pool, t: nat, call: Call)
    requires Inv(w, init) && t < |w.threads| && w.threads[t].Leaving?
    ensures Returns(w, init, t, [(t, call)])
  {
    StepKeeps(w, init, t, call);
    assert [(t, call)][1..] == [];
    assert Run(w, init, [(t, call)]) == Step(w, t, call);
  }

  /** A step inside the lock comes closer to leaving. */
  lemma AccessCloser(w: World, t: nat, call: Call)
    requires t < |w.threads| && PcOk(w.pool, w.threads[t]) && Inside(w.threads[t]) && !w.threads[t].Leaving?
    ensures var w' := Step(w, t, call);
      && |w'.threads| == |w.threads| && PcOk(w'.pool, w'.threads[t]) && Inside(w'.threads[t])
      && w'.threads[t].call == w.threads[t].call && w'.history == w.history
      && Measure(w'.pool, w'.threads[t]) < Measure(w.pool, w.threads[t])
  {
  }

  /** The thread inside gets out by its own steps. */
  lemma {:induction false} InsideReturns(w: World, init: Pool, t: nat, call: Call) returns (schedule: seq<(nat, Call)>)
    requires Inv(w, init) && t < |w.threads| && Inside(w.threads[t])
    ensures Returns(w, init, t, schedule) && Solo(schedule, t)
    decreases Measure(w.pool, w.threads[t])
  {
    if w.threads[t].Leaving? {
      LeavingReturns(w, init, t, call);
      schedule := [(t, call)];
    } else {
      StepKeeps(w, init, t, call);
      AccessCloser(w, t, call);
      var rest := InsideReturns(Step(w, t, call), init, t, call);
      ReturnsCons(w, init, t, (t, call), rest);
      schedule := [(t, call)] + rest;
    }
  }

  /** With the lock free a thread that wants it can get in and out. */
  lemma WaitingReturns(w: World, init: Pool, t: nat, call: Call) returns (schedule: seq<(nat, Call)>)
    requires Inv(w, init) && t < |w.threads| && !w.locked && (w.threads[t].Trying? || w.threads[t].Spinning?)
    ensures Returns(w, init, t, schedule)
  {
    StepKeeps(w, init, t, call);
    var w' := Step(w, t, call);
    var rest;
    if w.threads[t].Trying? {
      rest := InsideReturns(w', init, t, call);
    } else {
      StepKeeps(w', init, t, call);
      var inner := InsideReturns(Step(w', t, call), init, t, call);
      ReturnsCons(w', init, t, (t, call), inner);
      rest := [(t, call)] + inner;
    }
    schedule := [(t, call)] + rest;
    ReturnsCons(w, init, t, (t, call), rest);
  }

  ghost predicate Solo(schedule: seq<(nat, Call)>, t: nat) {
    forall k :: 0 <= k < |schedule| ==> schedule[k].0 == t
  }

  /** Steps of one thread leave the others where they are. */
  lemma {:induction false} SoloOthers(w: World, init: Pool, t: nat, u: nat, schedule: seq<(nat, Call)>)
    requires Inv(w, init) && t < |w.threads| && u < |w.threads| && u != t && Solo(schedule, t)
    ensures var w' := Run(w, init, schedule);
      && Inv(w', init) && |w'.threads| == |w.threads| && w'.threads[u] == w.threads[u]
      && |w'.history| >= |w.history|
    decreases |schedule|
  {
    if schedule != [] {
      StepKeeps(w, init, t, schedule[0].1);
      OwnStep(w, t, u, schedule[0].1);
      SoloOthers(Step(w, t, schedule[0].1), init, t, u, schedule[1..]);
    }
  }

  lemma OwnStep(w: World, t: nat, u: nat, call: Call)
    requires t < |w.threads| && u < |w.threads| && u != t && PcOk(w.pool, w.threads[t])
    ensures var w' := Step(w, t, call); |w'.threads| == |w.threads| && w'.threads[u] == w.threads[u]
    ensures |Step(w, t, call).history| >= |w.history|
  {
  }

  lemma ReturnsAfter(w: World, init: Pool, t: nat, a: seq<(nat, Call)>, b: seq<(nat, Call)>)
    requires Inv(w, init) && t < |w.threads| && !w.threads[t].Idle?
    requires Within(a, |w.threads|)
    requires var m := Run(w, init, a);
      && Inv(m, init) && |m.threads| == |w.threads| && m.threads[t] == w.threads[t] && |m.history| >= |w.history|
      && Returns(m, init, t, b)
    ensures Returns(w, init, t, a + b)
  {
    RunConcat(w, init, a, b);
    CameOutLater(w, Run(w, init, a), Run(w, init, a + b), t);
  }

  lemma CameOutLater(w: World, m: World, w': World, t: nat)
    requires t < |w.threads| == |m.threads| && m.threads[t] == w.threads[t] && |m.history| >= |w.history|
    requires !w.threads[t].Idle? && CameOut(m, w', t)
    ensures CameOut(w, w', t)
  {
  }

  /** From every state of the invariant some schedule takes any given call to its end. */
  lemma CallReturns(w: World, init: Pool, t: nat, call: Call) returns (schedule: seq<(nat, Call)>)
    requires Inv(w, init) && t < |w.threads| && !w.threads[t].Idle?
    ensures Returns(w, init, t, schedule)
  {
    if Inside(w.threads[t]) {
      schedule := InsideReturns(w, init, t, call);
    } else if !w.locked {
      schedule := WaitingReturns(w, init, t, call);
    } else {
      var h :| 0 <= h < |w.threads| && Inside(w.threads[h]);
      var a := InsideReturns(w, init, h, call);
      SoloOthers(w, init, h, t, a);
      var b := WaitingReturns(Run(w, init, a), init, t, call);
      ReturnsAfter(w, init, t, a, b);
      schedule := a + b;
    }
  }

  /** The lock never deadlocks: in every state an interleaving reaches, every call under way can still be
  brought to its end. */
  lemma NeverDeadlocks(threads: nat, init: Pool, schedule: seq<(nat, Call)>, t: nat)
    requires PoolInv(init) && t < threads
    requires Within(schedule, threads)
    ensures (StartInv(threads, init);
      var w := Run(Spinlock.Start(threads, init), init, schedule);
      && Inv(w, init) && |w.threads| == threads
      && (w.threads[t].Idle? || exists more: seq<(nat, Call)> :: Returns(w, init, t, more)))
  {
    StartInv(threads, init);
    RunConcat(Spinlock.Start(threads, init), init, schedule, []);
    var w := Run(Spinlock.Start(threads, init), init, schedule);
    if !w.threads[t].Idle? {
      var more := CallReturns(w, init, t, w.threads[t].call);
      assert Returns(w, init, t, more);
    }
  }

  // ----- but a call need not return -----

  /** One round in which thread 1 only spins: thread 0 makes a whole call, and the lock is free again. */
  function Round(c: Call): seq<(nat, Call)> {
    [(0, c), (0, c), (1, c), (0, c), (0, c)]
  }

  /** The states of a round, one step each. */
  lemma RoundSteps(w: World, c: Call)
    requires |w.threads| == 2 && !w.locked && w.threads[0].Idle? && w.threads[1].Spinning?
    requires PcOk(w.pool, w.threads[0]) && PcOk(w.pool, w.threads[1]) && c == FreeCall(0, -1)
    ensures var w2 := w.(locked := true, threads := w.threads[0 := Check(c)]);
      var w4 := w.(locked := true, threads := w.threads[0 := Leaving(c, -1)]);
      && Step(w, 0, c) == w.(threads := w.threads[0 := Trying(c)])
      && Step(w.(threads := w.threads[0 := Trying(c)]), 0, c) == w2
      && Step(w2, 1, c) == w2 && Step(w2, 0, c) == w4
      && Step(w4, 0, c) == w.(history := w.history + [Done(c, -1)])
  {
    assert w.threads[0 := Idle] == w.threads;
  }

  /** Thread 0 gets in, and thread 1 finds the lock taken. */
  lemma RoundEnters(w: World, init: Pool, c: Call, w2: World)
    requires Inv(w, init) && |w.threads| == 2 && !w.locked && w.threads[0].Idle? && w.threads[1].Spinning?
    requires c == FreeCall(0, -1) && w2 == w.(locked := true, threads := w.threads[0 := Check(c)])
    ensures Within([(0, c), (0, c), (1, c)], 2) && Inv(w2, init)
    ensures Run(w, init, [(0, c), (0, c), (1, c)]) == w2
  {
    RoundSteps(w, c);
    Unfold(w, init, (0, c), [(0, c), (1, c)]);
    Unfold(w.(threads := w.threads[0 := Trying(c)]), init, (0, c), [(1, c)]);
    Unfold(w2, init, (1, c), []);
    assert [(0, c), (0, c), (1, c)] == [(0, c)] + [(0, c), (1, c)];
    assert [(0, c), (1, c)] == [(0, c)] + [(1, c)];
    assert [(1, c)] == [(1, c)] + [];
  }

  /** Thread 0 finds nothing to free and gets out. */
  lemma RoundLeaves(w: World, init: Pool, c: Call, w2: World)
    requires |w.threads| == 2 && !w.locked && w.threads[0].Idle? && w.threads[1].Spinning?
    requires PcOk(w.pool, w.threads[0]) && PcOk(w.pool, w.threads[1]) && Inv(w2, init)
    requires c == FreeCall(0, -1) && w2 == w.(locked := true, threads := w.threads[0 := Check(c)])
    ensures Within([(0, c), (0, c)], 2)
    ensures Run(w2, init, [(0, c), (0, c)]) == w.(history := w.history + [Done(c, -1)])
  {
    RoundSteps(w, c);
    Unfold(w2, init, (0, c), [(0, c)]);
    Unfold(w.(locked := true, threads := w.threads[0 := Leaving(c, -1)]), init, (0, c), []);
    assert [(0, c), (0, c)] == [(0, c)] + [(0, c)];
    assert [(0, c)] == [(0, c)] + [];
  }

  lemma RoundSpins(w: World, init: Pool, c: Call)
    requires Inv(w, init) && |w.threads| == 2 && !w.locked && w.threads[0].Idle? && w.threads[1].Spinning?
    requires c == FreeCall(0, -1)
    ensures Within(Round(c), 2)
    ensures Run(w, init, Round(c)) == w.(history := w.history + [Done(c, -1)])
  {
    var w2 := w.(locked := true, threads := w.threads[0 := Check(c)]);
    RoundEnters(w, init, c, w2);
    RoundLeaves(w, init, c, w2);
    RunConcat(w, init, [(0, c), (0, c), (1, c)], [(0, c), (0, c)]);
    assert Round(c) == [(0, c), (0, c), (1, c)] + [(0, c), (0, c)];
  }

  lemma Unfold(w: World, init: Pool, step: (nat, Call), rest: seq<(nat, Call)>)
    requires Inv(w, init) && step.0 < |w.threads| && Within(rest, |w.threads|)
    ensures Within([step] + rest, |w.threads|)
    ensures var w' := Step(w, step.0, step.1);
      && Inv(w', init) && |w'.threads| == |w.threads| && Run(w, init, [step] + rest) == Run(w', init, rest)
  {
    StepKeeps(w, init, step.0, step.1);
    assert ([step] + rest)[1..] == rest;
  }

  lemma RoundKeeps(w: World, init: Pool, c: Call)
    requires Inv(w, init) && |w.threads| == 2 && !w.locked && w.threads[0].Idle? && w.threads[1].Spinning?
    requires c == FreeCall(0, -1)
    ensures Inv(w.(history := w.history + [Done(c, -1)]), init)
  {
    RoundSpins(w, init, c);
    RunKeeps(w, init, Round(c));
  }

  lemma RoundFirst(w: World, init: Pool, c: Call, rest: seq<(nat, Call)>)
    requires Inv(w, init) && |w.threads| == 2 && !w.locked && w.threads[0].Idle? && w.threads[1].Spinning?
    requires c == FreeCall(0, -1) && Within(rest, 2) && Inv(w.(history := w.history + [Done(c, -1)]), init)
    ensures Within(Round(c) + rest, 2)
    ensures Run(w, init, Round(c) + rest) == Run(w.(history := w.history + [Done(c, -1)]), init, rest)
  {
    RoundSpins(w, init, c);
    RunConcat(w, init, Round(c), rest);
  }

  lemma SpunOnce(w: World, w': World, d: Done, n: nat)
    requires n > 0 && Spun(w.(history := w.history + [d]), w', n - 1)
    ensures Spun(w, w', n)
  {
  }

  /** Rounds of the kind above, `n` of them. */
  function Rounds(c: Call, n: nat): seq<(nat, Call)> {
    if n == 0 then [] else Round(c) + Rounds(c, n - 1)
  }

  /** The lock is not fair: however long it goes on, a thread that takes its turns can keep spinning while
  another makes call after call. */
  lemma {:induction false} CanStarve(w: World, init: Pool, c: Call, n: nat)
    requires Inv(w, init) && |w.threads| == 2 && !w.locked && w.threads[0].Idle? && w.threads[1].Spinning?
    requires c == FreeCall(0, -1)
    ensures Within(Rounds(c, n), 2)
    ensures Spun(w, Run(w, init, Rounds(c, n)), n)
    decreases n
  {
    if n > 0 {
      var w' := w.(history := w.history + [Done(c, -1)]);
      RoundKeeps(w, init, c);
      CanStarve(w', init, c, n - 1);
      RoundFirst(w, init, c, Rounds(c, n - 1));
      SpunOnce(w, Run(w', init, Rounds(c, n - 1)), Done(c, -1), n);
    }
  }

  /** Every thread is where it was, the lock is free, and `n` more calls were made. */
  predicate Spun(w: World, w': World, n: nat) {
    w'.threads == w.threads && !w'.locked && |w'.history| == |w.history| + n
  }
}
