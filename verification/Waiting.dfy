/** How long a ready task waits, and what a task's standing says about the time it has used. */
module Waiting {
  import opened SchedulerState
  import opened Mlfq

  // ----- the measure -----

  /** The ticks task `t` can take before it stands behind a task of level `l`, and one more for the idle
  tick that follows if it ends.  What work it has left does not matter: more can be handed out any time.
  With `b` there is a margin for the refill a boost may give it. */
  function Cost(t: Tcb, l: int, b: bool): int {
    (if t.quantum < 1 then 1 else t.quantum)
    + (if t.level == 0 && l == 2 then Quantum(1) else 0)
    + Extra(l, b)
  }

  function Extra(l: int, b: bool): int {
    if b && l > 0 then 4 else 1
  }

  function Costs(ts: seq<Tcb>, pids: seq<int>, l: int, b: bool): int
    requires forall k :: 0 <= k < |pids| ==> 0 <= pids[k] < |ts|
  {
    if pids == [] then 0 else Cost(ts[pids[0]], l, b) + Costs(ts, pids[1..], l, b)
  }

  lemma {:induction false} CostsSame(ts: seq<Tcb>, ts': seq<Tcb>, pids: seq<int>, l: int, b: bool)
    requires forall k :: 0 <= k < |pids| ==> 0 <= pids[k] < |ts| && pids[k] < |ts'|
    requires forall k :: 0 <= k < |pids| ==> Cost(ts[pids[k]], l, b) == Cost(ts'[pids[k]], l, b)
    ensures Costs(ts, pids, l, b) == Costs(ts', pids, l, b)
  {
    if pids != [] { CostsSame(ts, ts', pids[1..], l, b); }
  }

  lemma {:induction false} CostsSnoc(ts: seq<Tcb>, pids: seq<int>, pid: int, l: int, b: bool)
    requires forall k :: 0 <= k < |pids| ==> 0 <= pids[k] < |ts|
    requires 0 <= pid < |ts|
    ensures Costs(ts, pids + [pid], l, b) == Costs(ts, pids, l, b) + Cost(ts[pid], l, b)
  {
    if pids == [] {
      assert pids + [pid] == [pid];
    } else {
      assert (pids + [pid])[1..] == pids[1..] + [pid];
      CostsSnoc(ts, pids[1..], pid, l, b);
    }
  }

  lemma {:induction false} CostsBound(ts: seq<Tcb>, pids: seq<int>, l: int, b: bool)
    requires forall k :: 0 <= k < |pids| ==> 0 <= pids[k] < |ts| && QuantumOk(ts[pids[k]])
    ensures 0 <= Costs(ts, pids, l, b) <= if b then 20 * |pids| else 17 * |pids|
  {
    if pids != [] { CostsBound(ts, pids[1..], l, b); }
  }

  lemma {:induction false} CostsConcat(ts: seq<Tcb>, p: seq<int>, q: seq<int>, l: int, b: bool)
    requires forall k :: 0 <= k < |p| ==> 0 <= p[k] < |ts|
    requires forall k :: 0 <= k < |q| ==> 0 <= q[k] < |ts|
    ensures Costs(ts, p + q, l, b) == Costs(ts, p, l, b) + Costs(ts, q, l, b)
  {
    if p == [] {
      assert p + q == q;
    } else {
      assert (p + q)[1..] == p[1..] + q;
      CostsConcat(ts, p[1..], q, l, b);
    }
  }

  lemma {:induction false} CostsLess(ts: seq<Tcb>, ts': seq<Tcb>, pids: seq<int>, l: int, l': int, b: bool)
    requires forall k :: 0 <= k < |pids| ==> 0 <= pids[k] < |ts| && pids[k] < |ts'|
    requires forall k :: 0 <= k < |pids| ==> Cost(ts'[pids[k]], l', b) <= Cost(ts[pids[k]], l, b)
    ensures Costs(ts', pids, l', b) <= Costs(ts, pids, l, b)
  {
    if pids != [] { CostsLess(ts, ts', pids[1..], l, l', b); }
  }

  /** Task `pid` stands at position `j` of the queue of level `l`. */
  ghost predicate StandsAt(s: Sys, pid: int, l: int, j: int)
    requires |s.queues| == NUM_QUEUES
  {
    0 <= l < NUM_QUEUES && 0 <= j < |s.queues[l]| && s.queues[l][j] == pid
  }

  /** What stands before position `j` of level `l`, queue by queue. */
  function Before(s: Sys, l: int, j: int, q: int): seq<int>
    requires |s.queues| == NUM_QUEUES
    requires 0 <= l < NUM_QUEUES && 0 <= j <= |s.queues[l]| && 0 <= q < NUM_QUEUES
  {
    if q < l then s.queues[q] else if q == l then s.queues[l][..j] else []
  }

  ghost predicate Queued(s: Sys) {
    |s.queues| == NUM_QUEUES && PidsInRange(s)
  }

  ghost function Ahead(s: Sys, l: int, j: int, b: bool): int
    requires Queued(s) && 0 <= l < NUM_QUEUES && 0 <= j <= |s.queues[l]|
  {
    Costs(s.tasks, Before(s, l, j, 0), l, b)
    + Costs(s.tasks, Before(s, l, j, 1), l, b)
    + Costs(s.tasks, Before(s, l, j, 2), l, b)
  }

  /** An explicit bound on the ticks until the task at position `j` of level `l` is dispatched. */
  ghost function WaitTime(s: Sys, l: int, j: int, b: bool): int
    requires Queued(s) && CurrentInRange(s) && 0 <= l < NUM_QUEUES && 0 <= j <= |s.queues[l]|
  {
    Ahead(s, l, j, b) + if s.current == -1 then 1 else Cost(s.tasks[s.current], l, b)
  }

  // ----- one tick takes at least one off the measure -----

  /** Dispatching the head of queue `q` leaves the other costs before a position as they were. */
  lemma DispatchCosts(s: Sys, l: int, j: int, q: int, p: int, b: bool)
    requires WellFormed(s) && Queued(s) && s.current == -1
    requires 0 <= l < NUM_QUEUES && 0 <= j < |s.queues[l]|
    requires q == TopQueue(s.queues) && 0 <= q <= l && (q == l ==> 0 < j)
    requires 0 <= p < NUM_QUEUES && Queued(Schedule(s))
    ensures Costs(s.tasks, Before(s, l, j, p), l, b)
         == Costs(Schedule(s).tasks, Before(Schedule(s), l, if q == l then j - 1 else j, p), l, b)
          + if p == q then Cost(Schedule(s).tasks[Schedule(s).current], l, b) else 0
  {
    var s' := Schedule(s);
    var a, a' := Before(s, l, j, p), Before(s', l, if q == l then j - 1 else j, p);
    assert a' == if p == q then a[1..] else a;
    assert p == q ==> a[0] == s'.current;
    CostsSame(s.tasks, s'.tasks, a', l, b);
  }

  /** Dispatching either picks the task, or moves the cost of one other from the queues to the processor. */
  lemma ScheduleWait(s: Sys, pid: int, l: int, j: int, b: bool) returns (j': int)
    requires WellFormed(s) && Queued(s) && s.current == -1 && StandsAt(s, pid, l, j)
    requires Queued(Schedule(s)) && CurrentInRange(Schedule(s))
    ensures Schedule(s).current == pid
      || (StandsAt(Schedule(s), pid, l, j') && WaitTime(Schedule(s), l, j', b) == Ahead(s, l, j, b))
  {
    var q := TopQueue(s.queues);
    j' := if q == l then j - 1 else j;
    if q == l && j == 0 {
      assert Schedule(s).current == pid;
    } else {
      assert StandsAt(Schedule(s), pid, l, j');
      DispatchCosts(s, l, j, q, 0, b);
      DispatchCosts(s, l, j, q, 1, b);
      DispatchCosts(s, l, j, q, 2, b);
    }
  }

  lemma RequeueCosts(s: Sys, full: bool, l: int, j: int, q: int, b: bool)
    requires WellFormed(s) && Queued(s) && 0 <= s.current < |s.tasks| && 0 <= s.tasks[s.current].level < NUM_QUEUES
    requires 0 <= l < NUM_QUEUES && 0 <= j <= |s.queues[l]| && Queued(Requeued(s, full)) && 0 <= q < NUM_QUEUES
    requires forall k :: 0 <= k < |s.queues[q]| ==> s.queues[q][k] != s.current
    ensures var t := Yielded(s.tasks[s.current], full);
      Costs(Requeued(s, full).tasks, Before(Requeued(s, full), l, j, q), l, b)
      == Costs(s.tasks, Before(s, l, j, q), l, b) + if q == t.level && t.level < l then Cost(t, l, b) else 0
  {
    var s', t, a := Requeued(s, full), Yielded(s.tasks[s.current], full), Before(s, l, j, q);
    forall k | 0 <= k < |a| ensures 0 <= a[k] < |s.tasks| && s'.tasks[a[k]] == s.tasks[a[k]] {
      assert a[k] == s.queues[q][k];
    }
    CostsSame(s.tasks, s'.tasks, a, l, b);
    if q == t.level && q < l {
      assert Before(s', l, j, q) == a + [s.current];
      CostsSnoc(s'.tasks, a, s.current, l, b);
    } else {
      assert Before(s', l, j, q) == a;
    }
  }

  /** Putting a task back costs what it may still take before the waiting task's level is reached. */
  lemma RequeueWait(s: Sys, full: bool, l: int, j: int, b: bool)
    requires WellFormed(s) && Queued(s) && 0 <= s.current < |s.tasks| && 0 <= s.tasks[s.current].level < NUM_QUEUES
    requires 0 <= l < NUM_QUEUES && 0 <= j <= |s.queues[l]| && Queued(Requeued(s, full))
    requires forall q, k :: 0 <= q < NUM_QUEUES && 0 <= k < |s.queues[q]| ==> s.queues[q][k] != s.current
    ensures Ahead(Requeued(s, full), l, j, b) == Ahead(s, l, j, b)
      + var t := Yielded(s.tasks[s.current], full); if t.level < l then Cost(t, l, b) else 0
  {
    RequeueCosts(s, full, l, j, 0, b);
    RequeueCosts(s, full, l, j, 1, b);
    RequeueCosts(s, full, l, j, 2, b);
  }

  /** Changing only the running task leaves what is ahead as it was. */
  lemma AheadSame(s: Sys, s': Sys, l: int, j: int, b: bool)
    requires Queued(s) && Queued(s') && s'.queues == s.queues && |s'.tasks| == |s.tasks|
    requires 0 <= l < NUM_QUEUES && 0 <= j <= |s.queues[l]|
    requires forall q, k :: 0 <= q < NUM_QUEUES && 0 <= k < |s.queues[q]| ==>
      s.tasks[s.queues[q][k]] == s'.tasks[s.queues[q][k]]
    ensures Ahead(s', l, j, b) == Ahead(s, l, j, b)
  {
    CostsSame(s.tasks, s'.tasks, Before(s, l, j, 0), l, b);
    CostsSame(s.tasks, s'.tasks, Before(s, l, j, 1), l, b);
    CostsSame(s.tasks, s'.tasks, Before(s, l, j, 2), l, b);
  }

  /** A tick dispatches the waiting task or shortens its wait. */
  lemma TickWait(s: Sys, pid: int, l: int, j: int, b: bool) returns (j': int)
    requires QueueInv(s) && StandsAt(s, pid, l, j)
    ensures Queued(s) && CurrentInRange(s) && QueueInv(Tick(s)) && Queued(Tick(s)) && CurrentInRange(Tick(s))
    ensures Tick(s).current == pid
      || (StandsAt(Tick(s), pid, l, j') && WaitTime(Tick(s), l, j', b) < WaitTime(s, l, j, b))
    ensures WaitTime(s, l, j, b) >= 1
  {
    InvRanges(s);
    TickKeeps(s);
    InvRanges(Tick(s));
    AheadBound(s, l, j, b);
    if s.current == -1 {
      ScheduleKeeps(s);
      j' := ScheduleWait(s, pid, l, j, b);
    } else {
      var t := s.tasks[s.current];
      NotQueued(s);
      if t.work == 1 {
        j' := j;
        AheadSame(s, Tick(s), l, j, b);
      } else {
        j' := WorkWait(s, pid, l, j, b);
      }
    }
  }

  lemma NotQueued(s: Sys)
    requires QueueInv(s) && s.current != -1
    ensures forall q, k :: 0 <= q < NUM_QUEUES && 0 <= k < |s.queues[q]| ==> s.queues[q][k] != s.current
  {
    forall q, k | 0 <= q < NUM_QUEUES && 0 <= k < |s.queues[q]| ensures s.queues[q][k] != s.current {
      assert QueuedAt(s, s.queues[q][k], q);
    }
  }

  lemma AheadBound(s: Sys, l: int, j: int, b: bool)
    requires QueueInv(s) && Queued(s) && 0 <= l < NUM_QUEUES && 0 <= j <= |s.queues[l]|
    ensures var n := |Before(s, l, j, 0)| + |Before(s, l, j, 1)| + |Before(s, l, j, 2)|;
      0 <= Ahead(s, l, j, b) <= if b then 20 * n else 17 * n
  {
    forall q, k | 0 <= q < NUM_QUEUES && 0 <= k < |s.queues[q]| ensures QuantumOk(s.tasks[s.queues[q][k]]) {
      assert QueuedAt(s, s.queues[q][k], q);
      assert TaskPlaced(s, s.queues[q][k]);
    }
    CostsBound(s.tasks, Before(s, l, j, 0), l, b);
    CostsBound(s.tasks, Before(s, l, j, 1), l, b);
    CostsBound(s.tasks, Before(s, l, j, 2), l, b);
  }

  /** The running task is put back and the next one dispatched. */
  lemma ExpireWait(s: Sys, pid: int, l: int, j: int, b: bool) returns (j': int)
    requires WellFormed(s) && Queued(s) && CurrentInRange(s) && s.current != -1 && StandsAt(s, pid, l, j)
    requires forall q, k :: 0 <= q < NUM_QUEUES && 0 <= k < |s.queues[q]| ==> s.queues[q][k] != s.current
    requires QueueInv(Requeued(s, true))
    ensures Queued(Requeued(s, true)) && Queued(Yield(s, true)) && CurrentInRange(Yield(s, true))
    ensures Yield(s, true).current == pid || (StandsAt(Yield(s, true), pid, l, j') &&
      WaitTime(Yield(s, true), l, j', b) == Ahead(s, l, j, b)
        + var t := Yielded(s.tasks[s.current], true); if t.level < l then Cost(t, l, b) else 0)
  {
    var m := Requeued(s, true);
    InvRanges(m);
    ScheduleKeeps(m);
    InvRanges(Schedule(m));
    RequeueWait(s, true, l, j, b);
    j' := ScheduleWait(m, pid, l, j, b);
  }

  lemma WorkWait(s: Sys, pid: int, l: int, j: int, b: bool) returns (j': int)
    requires QueueInv(s) && StandsAt(s, pid, l, j) && s.current != -1 && s.tasks[s.current].work != 1
    ensures Queued(s) && CurrentInRange(s) && Queued(Tick(s)) && CurrentInRange(Tick(s))
    ensures Tick(s).current == pid
      || (StandsAt(Tick(s), pid, l, j') && WaitTime(Tick(s), l, j', b) < WaitTime(s, l, j, b))
  {
    InvRanges(s);
    NotQueued(s);
    ExpireKeeps(s);
    assert TaskPlaced(s, s.current);
    var s' := s.(tasks := s.tasks[s.current := Worked(s.tasks[s.current])]);
    AheadSame(s, s', l, j, b);
    j' := j;
    if s.tasks[s.current].quantum <= 1 {
      j' := ExpireWait(s', pid, l, j, b);
    } else {
      InvRanges(s');
    }
  }
}
