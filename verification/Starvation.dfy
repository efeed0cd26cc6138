/** Why the boost prevents starvation: whatever else happens, a task in the top queue gets its turn. */
module Starvation {
  import opened SchedulerState
  import opened Mlfq
  import opened Waiting
  import opened Runs

  function CountTicks(ops: seq<Op>): nat {
    if ops == [] then 0 else (if ops[0].OpTick? then 1 else 0) + CountTicks(ops[1..])
  }

  /** Task `pid` is running in some state of the run, the first and the last included. */
  ghost predicate GetsTurn(s: Sys, ops: seq<Op>, total: seq<int>, pid: int)
    requires Sound(s, total) && AllowedRun(s, ops, total)
    decreases |ops|
  {
    s.current == pid || (ops != [] && (StepSound(s, ops[0], total); GetsTurn(Apply(s, ops[0]), ops[1..], total, pid)))
  }

  /** A new task stands before whatever is below the top queue, and changes nothing else that is ahead. */
  lemma CreateCosts(s: Sys, max: seq<int>, l: int, j: int, q: int, b: bool)
    requires QueueInv(s) && |max| == |s.available| && NewPid(s) != -1 && Queued(s) && Queued(Create(s, max))
    requires 0 <= l < NUM_QUEUES && 0 <= j <= |s.queues[l]| && 0 <= q < NUM_QUEUES
    ensures Costs(Create(s, max).tasks, Before(Create(s, max), l, j, q), l, b)
         == Costs(s.tasks, Before(s, l, j, q), l, b) + if q == 0 < l then Cost(Fresh(max), l, b) else 0
  {
    var s', a := Create(s, max), Before(s, l, j, q);
    forall k | 0 <= k < |a| ensures a[k] != NewPid(s) {
      assert a[k] == s.queues[q][k];
      assert QueuedAt(s, s.queues[q][k], q);
    }
    CostsSame(s.tasks, s'.tasks, a, l, b);
    if q == 0 < l {
      CostsSnoc(s'.tasks, a, NewPid(s), l, b);
    } else {
      assert Before(s', l, j, q) == a;
    }
  }

  /** A new task adds to the wait of those below the top queue, and to nobody else's. */
  lemma CreateWait(s: Sys, max: seq<int>, pid: int, l: int, j: int, b: bool)
    requires QueueInv(s) && |max| == |s.available| && StandsAt(s, pid, l, j)
    ensures QueueInv(Create(s, max)) && Queued(s) && CurrentInRange(s)
    ensures Queued(Create(s, max)) && CurrentInRange(Create(s, max)) && StandsAt(Create(s, max), pid, l, j)
    ensures WaitTime(Create(s, max), l, j, b) <= WaitTime(s, l, j, b) + if l == 0 then 0 else 16
  {
    CreateKeeps(s, max);
    InvRanges(s);
    InvRanges(Create(s, max));
    if NewPid(s) != -1 {
      CreateCosts(s, max, l, j, 0, b);
      CreateCosts(s, max, l, j, 1, b);
      CreateCosts(s, max, l, j, 2, b);
    }
  }

  /** What stands before position `j` of level `l` stands before the same task in the line. */
  lemma LinePlace(s: Sys, pid: int, l: int, j: int) returns (k: int)
    requires |s.queues| == NUM_QUEUES && StandsAt(s, pid, l, j)
    ensures 0 <= k < |Line(s)| && Line(s)[k] == pid
    ensures Line(s)[..k] == Before(s, l, j, 0) + Before(s, l, j, 1) + Before(s, l, j, 2)
  {
    k := |Before(s, l, j, 0)| + |Before(s, l, j, 1)| + |Before(s, l, j, 2)|;
  }

  /** A boosted task costs no more than the margin it was given. */
  lemma BoostCosts(s: Sys, pids: seq<int>, l: int, q: int, b: bool)
    requires QueueInv(s) && (b || l == 0) && 0 <= q <= l < NUM_QUEUES
    requires forall k :: 0 <= k < |pids| ==> 0 <= pids[k] < |s.tasks| && QueuedAt(s, pids[k], q)
    ensures Costs(Boost(s).tasks, pids, 0, b) <= Costs(s.tasks, pids, l, b)
  {
    BoostKeeps(s);
    forall k | 0 <= k < |pids| ensures Cost(Boost(s).tasks[pids[k]], 0, b) <= Cost(s.tasks[pids[k]], l, b) {
      assert QueuedAt(s, pids[k], q);
    }
    CostsLess(s.tasks, Boost(s).tasks, pids, l, 0, b);
  }

  /** What is ahead of a place in the line costs no more after a boost. */
  lemma BoostAhead(s: Sys, l: int, j: int, b: bool)
    requires QueueInv(s) && Queued(s) && (b || l == 0) && 0 <= l < NUM_QUEUES && 0 <= j <= |s.queues[l]|
    ensures QueueInv(Boost(s)) && Queued(Boost(s))
    ensures var p := Before(s, l, j, 0) + Before(s, l, j, 1) + Before(s, l, j, 2);
      (forall k :: 0 <= k < |p| ==> 0 <= p[k] < |Boost(s).tasks|)
      && Costs(Boost(s).tasks, p, 0, b) <= Ahead(s, l, j, b)
  {
    BoostKeeps(s);
    InvRanges(Boost(s));
    var ts := Boost(s).tasks;
    var p0, p1, p2 := Before(s, l, j, 0), Before(s, l, j, 1), Before(s, l, j, 2);
    CostsConcat(ts, p0 + p1, p2, 0, b);
    CostsConcat(ts, p0, p1, 0, b);
    BoostCosts(s, p0, l, 0, b);
    if l >= 1 { BoostCosts(s, p1, l, 1, b); }
    if l >= 2 { BoostCosts(s, p2, l, 2, b); }
  }

  /** A boost moves a task to the top queue and does not lengthen its wait. */
  lemma BoostWait(s: Sys, pid: int, l: int, j: int, b: bool) returns (j': int)
    requires QueueInv(s) && StandsAt(s, pid, l, j) && (b || l == 0)
    ensures QueueInv(Boost(s)) && Queued(s) && CurrentInRange(s) && Queued(Boost(s)) && CurrentInRange(Boost(s))
    ensures StandsAt(Boost(s), pid, 0, j') && WaitTime(Boost(s), 0, j', b) <= WaitTime(s, l, j, b)
  {
    BoostKeeps(s);
    InvRanges(s);
    InvRanges(Boost(s));
    j' := LinePlace(s, pid, l, j);
    BoostAhead(s, l, j, b);
    assert Before(Boost(s), 0, j', 0) == Line(s)[..j'];
  }

  /** The two states have the same queues, and every task the same standing. */
  ghost predicate SameStanding(s: Sys, s': Sys) {
    && s'.queues == s.queues && s'.current == s.current && |s'.tasks| == |s.tasks|
    && forall i :: 0 <= i < |s.tasks| ==>
         s'.tasks[i].level == s.tasks[i].level && s'.tasks[i].quantum == s.tasks[i].quantum
  }

  lemma TableCosts(s: Sys, s': Sys, l: int, j: int, q: int, b: bool)
    requires Queued(s) && Queued(s') && SameStanding(s, s')
    requires 0 <= l < NUM_QUEUES && 0 <= j <= |s.queues[l]| && 0 <= q < NUM_QUEUES
    ensures Costs(s'.tasks, Before(s', l, j, q), l, b) == Costs(s.tasks, Before(s, l, j, q), l, b)
  {
    CostsSame(s.tasks, s'.tasks, Before(s, l, j, q), l, b);
  }

  /** Operations on resources and work leave every wait as it is, at any level. */
  lemma TableWait(s: Sys, s': Sys, pid: int, l: int, j: int, b: bool)
    requires QueueInv(s) && QueueInv(s') && StandsAt(s, pid, l, j) && SameStanding(s, s')
    ensures Queued(s) && CurrentInRange(s) && Queued(s') && CurrentInRange(s')
    ensures StandsAt(s', pid, l, j) && WaitTime(s', l, j, b) == WaitTime(s, l, j, b)
  {
    InvRanges(s);
    InvRanges(s');
    TableCosts(s, s', l, j, 0, b);
    TableCosts(s, s', l, j, 1, b);
    TableCosts(s, s', l, j, 2, b);
  }

  predicate OnTables(op: Op) {
    op.OpRequest? || op.OpRelease? || op.OpTerminate? || op.OpSetWork?
  }

  lemma TableOp(s: Sys, op: Op, total: seq<int>)
    requires Sound(s, total) && Allowed(s, op, total) && OnTables(op)
    ensures Applicable(s, op) && SameStanding(s, Apply(s, op))
  {
  }

  /** A dispatch by hand, when the scheduler is idle, does not lengthen a wait. */
  lemma DispatchWait(s: Sys, pid: int, l: int, j: int, b: bool) returns (j': int)
    requires QueueInv(s) && StandsAt(s, pid, l, j) && (s.current == -1 || Line(s) == [])
    ensures Queued(s) && CurrentInRange(s) && Queued(Schedule(s)) && CurrentInRange(Schedule(s))
    ensures Schedule(s).current == pid
      || (StandsAt(Schedule(s), pid, l, j') && WaitTime(Schedule(s), l, j', b) <= WaitTime(s, l, j, b))
  {
    InvRanges(s);
    assert s.queues[l][j] in Line(s);
    ScheduleKeeps(s);
    InvRanges(Schedule(s));
    j' := ScheduleWait(s, pid, l, j, b);
  }

  /** No yield, early or not, lengthens a wait: what a task gives up it does not get back. */
  lemma YieldWait(s: Sys, full: bool, pid: int, l: int, j: int, b: bool) returns (j': int)
    requires QueueInv(s) && StandsAt(s, pid, l, j)
    ensures Queued(s) && CurrentInRange(s) && Queued(Yield(s, full)) && CurrentInRange(Yield(s, full))
    ensures Yield(s, full).current == pid
      || (StandsAt(Yield(s, full), pid, l, j') && WaitTime(Yield(s, full), l, j', b) <= WaitTime(s, l, j, b))
  {
    InvRanges(s);
    YieldKeeps(s, full);
    InvRanges(Yield(s, full));
    j' := j;
    if s.current != -1 {
      var m := Requeued(s, full);
      RequeuedKeeps(s, full);
      InvRanges(m);
      NotQueued(s);
      assert TaskPlaced(s, s.current);
      RequeueWait(s, full, l, j, b);
      ScheduleKeeps(m);
      j' := ScheduleWait(m, pid, l, j, b);
    }
  }

  /** Everything but creating and boosting. */
  predicate Quiet(op: Op) {
    !op.OpCreate? && !op.OpBoost?
  }

  /** What an operation can add to the wait of a task of level `l`. */
  function Delay(op: Op, l: int): nat {
    if op.OpCreate? && l > 0 then 16 else 0
  }

  function Delays(ops: seq<Op>, l: int): nat {
    if ops == [] then 0 else Delay(ops[0], l) + Delays(ops[1..], l)
  }

  /** No operation but a creation lengthens the wait of a ready task, and that one not in the top queue; a
  tick shortens it. */
  lemma OpWait(s: Sys, op: Op, total: seq<int>, pid: int, l: int, j: int, b: bool) returns (l': int, j': int)
    requires Sound(s, total) && Allowed(s, op, total) && StandsAt(s, pid, l, j) && (b || l == 0 || Quiet(op))
    ensures Applicable(s, op) && Sound(Apply(s, op), total)
    ensures Queued(s) && CurrentInRange(s) && Queued(Apply(s, op)) && CurrentInRange(Apply(s, op))
    ensures l' == l || l' == 0
    ensures Apply(s, op).current == pid || (StandsAt(Apply(s, op), pid, l', j') &&
      WaitTime(Apply(s, op), l', j', b) <= WaitTime(s, l, j, b) + Delay(op, l) - if op.OpTick? then 1 else 0)
  {
    StepSound(s, op, total);
    l', j' := l, j;
    if OnTables(op) {
      TableOp(s, op, total);
      TableWait(s, Apply(s, op), pid, l, j, b);
    } else {
      l', j' := QueueOpWait(s, op, pid, l, j, b);
    }
  }

  lemma QueueOpWait(s: Sys, op: Op, pid: int, l: int, j: int, b: bool) returns (l': int, j': int)
    requires QueueInv(s) && Applicable(s, op) && StandsAt(s, pid, l, j) && (b || l == 0 || Quiet(op)) && !OnTables(op)
    requires op.OpSchedule? ==> s.current == -1 || Line(s) == []
    ensures Queued(s) && CurrentInRange(s) && Queued(Apply(s, op)) && CurrentInRange(Apply(s, op))
    ensures l' == l || l' == 0
    ensures Apply(s, op).current == pid || (StandsAt(Apply(s, op), pid, l', j') &&
      WaitTime(Apply(s, op), l', j', b) <= WaitTime(s, l, j, b) + Delay(op, l) - if op.OpTick? then 1 else 0)
  {
    l', j' := l, j;
    match op
    case OpCreate(max) => CreateWait(s, max, pid, l, j, b);
    case OpTick => j' := TickWait(s, pid, l, j, b);
    case OpYield(full) => j' := YieldWait(s, full, pid, l, j, b);
    case OpBoost =>
      l' := 0;
      j' := BoostWait(s, pid, l, j, b);
    case OpSchedule => j' := DispatchWait(s, pid, l, j, b);
  }

  lemma {:induction false} DelaysBelow(ops: seq<Op>, l: int)
    ensures Delays(ops, 0) <= Delays(ops, l)
  {
    if ops != [] { DelaysBelow(ops[1..], l); }
  }

  /** Every ready task is dispatched within its wait time and what is added to it. */
  lemma {:induction false} DispatchedWithin(s: Sys, ops: seq<Op>, total: seq<int>, pid: int, l: int, j: int, b: bool)
    requires Sound(s, total) && AllowedRun(s, ops, total) && Queued(s) && CurrentInRange(s) && StandsAt(s, pid, l, j)
    requires b || l == 0 || forall op :: op in ops ==> Quiet(op)
    requires WaitTime(s, l, j, b) + Delays(ops, l) <= CountTicks(ops)
    ensures GetsTurn(s, ops, total, pid)
    decreases |ops|
  {
    WaitPositive(s, l, j, b);
    var l', j' := OpWait(s, ops[0], total, pid, l, j, b);
    if Apply(s, ops[0]).current != pid {
      DelaysBelow(ops[1..], l);
      DispatchedWithin(Apply(s, ops[0]), ops[1..], total, pid, l', j', b);
    }
  }

  lemma WaitPositive(s: Sys, l: int, j: int, b: bool)
    requires QueueInv(s) && Queued(s) && CurrentInRange(s) && 0 <= l < NUM_QUEUES && 0 <= j < |s.queues[l]|
    ensures 1 <= WaitTime(s, l, j, b) <= (if b then 20 else 17) * (|AliveSet(s)| - 1) + 1
  {
    AheadBound(s, l, j, b);
    QueuesFit(s);
    if s.current != -1 { assert TaskPlaced(s, s.current); }
  }

  lemma {:induction false} NoDelay(ops: seq<Op>, l: int)
    requires l == 0 || forall op :: op in ops ==> Quiet(op)
    ensures Delays(ops, l) == 0
  {
    if ops != [] {
      assert ops[0] in ops && forall op :: op in ops[1..] ==> op in ops;
      NoDelay(ops[1..], l);
    }
  }

  function CountCreates(ops: seq<Op>): nat {
    if ops == [] then 0 else (if ops[0].OpCreate? then 1 else 0) + CountCreates(ops[1..])
  }

  lemma {:induction false} DelaysCount(ops: seq<Op>, l: int)
    ensures Delays(ops, l) <= 16 * CountCreates(ops)
  {
    if ops != [] { DelaysCount(ops[1..], l); }
  }

  lemma Place(s: Sys, pid: int) returns (l: int, j: int)
    requires QueueInv(s) && 0 <= pid < |s.tasks| && s.tasks[pid].state == Ready
    ensures StandsAt(s, pid, l, j) && Queued(s) && CurrentInRange(s)
  {
    InvRanges(s);
    assert TaskPlaced(s, pid);
    l := s.tasks[pid].level;
    j :| 0 <= j < |s.queues[l]| && s.queues[l][j] == pid;
  }

  /** With `n` live tasks no ready task waits longer than 17 * (n - 1) + 1 ticks for its turn, whatever
  resources and work are handed out and however tasks yield meanwhile. */
  lemma BoundedWait(s: Sys, ops: seq<Op>, total: seq<int>, pid: int)
    requires Sound(s, total) && AllowedRun(s, ops, total)
    requires 0 <= pid < |s.tasks| && s.tasks[pid].state == Ready
    requires forall op :: op in ops ==> Quiet(op)
    requires 17 * (|AliveSet(s)| - 1) + 1 <= CountTicks(ops)
    ensures GetsTurn(s, ops, total, pid)
  {
    var l, j := Place(s, pid);
    WaitPositive(s, l, j, false);
    NoDelay(ops, l);
    DispatchedWithin(s, ops, total, pid, l, j, false);
  }

  /** In every run at all, boosts and creations included, a ready task gets its turn within
  20 * (n - 1) + 1 ticks and 16 more for each task created. */
  lemma EveryRunBounded(s: Sys, ops: seq<Op>, total: seq<int>, pid: int)
    requires Sound(s, total) && AllowedRun(s, ops, total)
    requires 0 <= pid < |s.tasks| && s.tasks[pid].state == Ready
    requires 20 * (|AliveSet(s)| - 1) + 1 + 16 * CountCreates(ops) <= CountTicks(ops)
    ensures GetsTurn(s, ops, total, pid)
  {
    var l, j := Place(s, pid);
    WaitPositive(s, l, j, true);
    DelaysCount(ops, l);
    DispatchedWithin(s, ops, total, pid, l, j, true);
  }

  // ----- the top queue -----

  predicate TopOk(t: Tcb) {
    QuantumOk(t) && t.level == 0
  }

  lemma {:induction false} TopCosts(ts: seq<Tcb>, pids: seq<int>)
    requires forall k :: 0 <= k < |pids| ==> 0 <= pids[k] < |ts| && TopOk(ts[pids[k]])
    ensures 0 <= Costs(ts, pids, 0, false) <= 5 * |pids|
  {
    if pids != [] { TopCosts(ts, pids[1..]); }
  }

  lemma TopWait(s: Sys, j: int)
    requires QueueInv(s) && Queued(s) && CurrentInRange(s) && 0 <= j < |s.queues[0]|
    ensures WaitTime(s, 0, j, false) <= 5 * j + 17
  {
    forall k | 0 <= k < j ensures TopOk(s.tasks[s.queues[0][k]]) {
      assert QueuedAt(s, s.queues[0][k], 0);
      assert TaskPlaced(s, s.queues[0][k]);
    }
    TopCosts(s.tasks, s.queues[0][..j]);
    if s.current != -1 { assert TaskPlaced(s, s.current); }
  }

  /** A task at position `j` of the top queue is dispatched within 5 * j + 17 ticks, whatever is done
  meanwhile: however many tasks are created, however often tasks yield or are boosted or given new work, and
  whatever resources change hands. */
  lemma StarvationFree(s: Sys, ops: seq<Op>, total: seq<int>, pid: int, j: int)
    requires Sound(s, total) && AllowedRun(s, ops, total) && StandsAt(s, pid, 0, j)
    requires 5 * j + 17 <= CountTicks(ops)
    ensures GetsTurn(s, ops, total, pid)
  {
    InvRanges(s);
    TopWait(s, j);
    NoDelay(ops, 0);
    DispatchedWithin(s, ops, total, pid, 0, j, false);
  }

  /** After a boost every ready task stands in the top queue, so none of them starves: with `n` live tasks
  each is dispatched within 5 * n + 12 ticks of any operation. */
  lemma BoostPreventsStarvation(s: Sys, ops: seq<Op>, total: seq<int>, pid: int)
    requires Sound(s, total) && 0 <= pid < |s.tasks| && s.tasks[pid].state == Ready
    requires (StepSound(s, OpBoost, total); AllowedRun(Boost(s), ops, total))
    requires 5 * |AliveSet(s)| + 12 <= CountTicks(ops)
    ensures (StepSound(s, OpBoost, total); GetsTurn(Boost(s), ops, total, pid))
  {
    StepSound(s, OpBoost, total);
    BoostKeeps(s);
    assert TaskPlaced(s, pid);
    assert pid in Line(s);
    var j :| 0 <= j < |Line(s)| && Line(s)[j] == pid;
    QueuesFit(s);
    StarvationFree(Boost(s), ops, total, pid, j);
  }
}
