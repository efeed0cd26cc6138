/** What holds in every state a run of the scheduler's operations can reach. */
module Runs {
  import opened SchedulerState
  import opened Banker
  import opened Mlfq

  datatype Op =
    | OpCreate(max: seq<int>)
    | OpRequest(pid: int, v: seq<int>)
    | OpRelease(pid: int, v: seq<int>)
    | OpTerminate(pid: int)
    | OpSetWork(pid: int, units: int)
    | OpTick
    | OpYield(full: bool)
    | OpBoost
    | OpSchedule

  ghost predicate Applicable(s: Sys, op: Op) {
    && WellFormed(s)
    && (op.OpCreate? ==> |op.max| == |s.available|)
    && ((op.OpRequest? || op.OpRelease?) ==> |op.v| == |s.available|)
    && ((op.OpTick? || op.OpYield? || op.OpSchedule?) ==> PidsInRange(s) && CurrentInRange(s))
  }

  ghost function Apply(s: Sys, op: Op): Sys
    requires Applicable(s, op)
  {
    match op
    case OpCreate(max) => Create(s, max)
    case OpRequest(pid, v) => Request(s, pid, v)
    case OpRelease(pid, v) => Release(s, pid, v)
    case OpTerminate(pid) => Terminate(s, pid)
    case OpSetWork(pid, units) => SetWork(s, pid, units)
    case OpTick => Tick(s)
    case OpYield(full) => Yield(s, full)
    case OpBoost => Boost(s)
    case OpSchedule => Schedule(s)
  }

  // ----- what scheduling leaves alone -----

  /** The two states agree on everything the resource accounts depend on. */
  ghost predicate SameAccounts(s: Sys, s': Sys) {
    && |s'.queues| == |s.queues| && |s'.tasks| == |s.tasks|
    && s'.available == s.available && s'.count == s.count
    && forall i :: 0 <= i < |s.tasks| ==>
         var (t, t') := (s.tasks[i], s'.tasks[i]);
         (t.state == Terminated <==> t'.state == Terminated) &&
         t'.maxDemand == t.maxDemand && t'.allocation == t.allocation && t'.need == t.need
  }

  lemma {:induction false} FreedFrame(ts: seq<Tcb>, ts': seq<Tcb>, done: set<int>, r: nat)
    requires |ts| == |ts'|
    requires forall i :: 0 <= i < |ts| ==> ts[i].allocation == ts'[i].allocation
    ensures Freed(ts, done, r) == Freed(ts', done, r)
  {
    if ts != [] { FreedFrame(ts[..|ts| - 1], ts'[..|ts| - 1], done, r); }
  }

  lemma AccountsFrame(s: Sys, s': Sys, total: seq<int>)
    requires BankerInv(s, total) && Safe(s) && SameAccounts(s, s')
    ensures BankerInv(s', total) && Safe(s')
  {
    forall done: set<int>, r: nat ensures Freed(s'.tasks, done, r) == Freed(s.tasks, done, r) {
      FreedFrame(s.tasks, s'.tasks, done, r);
    }
    assert Slots(s') == Slots(s);
    assert forall i :: Alive(s', i) <==> Alive(s, i);
    assert AliveSet(s') == AliveSet(s);
    forall i | 0 <= i < |s'.tasks| ensures TcbOk(s'.tasks[i], |total|) {
      assert TcbOk(s.tasks[i], |total|);
    }
    var order :| Completion(s, order);
    forall k | 0 <= k < |order| ensures CanFinish(s', order[k], Elems(order[..k])) {
      assert CanFinish(s, order[k], Elems(order[..k]));
    }
    assert Completion(s', order);
  }

  lemma ScheduleAccounts(s: Sys)
    requires QueueInv(s)
    ensures PidsInRange(s) && SameAccounts(s, Schedule(s))
  {
    InvRanges(s);
  }

  lemma RequeuedAccounts(s: Sys, full: bool)
    requires WellFormed(s) && 0 <= s.current < |s.tasks| && 0 <= s.tasks[s.current].level < NUM_QUEUES
    requires s.tasks[s.current].state == Running
    ensures SameAccounts(s, Requeued(s, full))
  {
  }

  lemma YieldAccounts(s: Sys, total: seq<int>, full: bool)
    requires QueueInv(s) && BankerInv(s, total) && Safe(s)
    ensures PidsInRange(s) && CurrentInRange(s)
    ensures BankerInv(Yield(s, full), total) && Safe(Yield(s, full))
  {
    InvRanges(s);
    if s.current != -1 {
      RequeuedAccounts(s, full);
      AccountsFrame(s, Requeued(s, full), total);
      RequeuedKeeps(s, full);
      ScheduleAccounts(Requeued(s, full));
      AccountsFrame(Requeued(s, full), Yield(s, full), total);
    }
  }

  lemma BoostAccounts(s: Sys)
    requires QueueInv(s)
    ensures SameAccounts(s, Boost(s))
  {
  }

  lemma TickAccounts(s: Sys, total: seq<int>)
    requires QueueInv(s) && BankerInv(s, total) && Safe(s)
    ensures PidsInRange(s) && CurrentInRange(s)
    ensures BankerInv(Tick(s), total) && Safe(Tick(s))
  {
    InvRanges(s);
    if s.current == -1 {
      ScheduleAccounts(s);
      AccountsFrame(s, Schedule(s), total);
    } else if s.tasks[s.current].work == 1 {
      var s' := s.(tasks := s.tasks[s.current := s.tasks[s.current].(work := 0)]);
      AccountsFrame(s, s', total);
      TerminateSafe(s', total, s.current);
      AccountsFrame(Terminate(s', s.current), Tick(s), total);
    } else {
      WorkAccounts(s, total);
    }
  }

  lemma WorkAccounts(s: Sys, total: seq<int>)
    requires QueueInv(s) && BankerInv(s, total) && Safe(s)
    requires s.current != -1 && s.tasks[s.current].work != 1 && PidsInRange(s) && CurrentInRange(s)
    ensures BankerInv(Tick(s), total) && Safe(Tick(s))
  {
    var s' := s.(tasks := s.tasks[s.current := Worked(s.tasks[s.current])]);
    AccountsFrame(s, s', total);
    if s.tasks[s.current].quantum <= 1 {
      var m := Requeued(s', true);
      ExpireKeeps(s);
      RequeuedAccounts(s', true);
      AccountsFrame(s', m, total);
      ScheduleAccounts(m);
      AccountsFrame(m, Tick(s), total);
    }
  }

  // ----- runs -----

  ghost predicate Sound(s: Sys, total: seq<int>) {
    BankerInv(s, total) && Safe(s) && QueueInv(s)
  }

  ghost predicate VectorOk(v: seq<int>, total: seq<int>) {
    |v| == |total| && forall r :: 0 <= r < |v| ==> 0 <= v[r]
  }

  /** What callers owe the resource operations: no negative amounts, no demand beyond the system. */
  ghost predicate Proper(op: Op, total: seq<int>) {
    match op
    case OpCreate(max) => VectorOk(max, total) && Leq(max, total)
    case OpRequest(_, v) => VectorOk(v, total)
    case OpRelease(_, v) => VectorOk(v, total)
    case _ => true
  }

  /** ... and what they owe the queues: no kill from outside, no dispatch over a running task. */
  ghost predicate Allowed(s: Sys, op: Op, total: seq<int>) {
    && Proper(op, total)
    && (op.OpTerminate? ==> !Alive(s, op.pid))
    && (op.OpSchedule? ==> s.current == -1 || (|s.queues| == NUM_QUEUES && Line(s) == []))
  }

  /** The resource operations, with terminations of any task at any time, keep the accounts and safety. */
  lemma AccountsStep(s: Sys, op: Op, total: seq<int>)
    requires BankerInv(s, total) && Safe(s) && Proper(op, total)
    requires op.OpCreate? || op.OpRequest? || op.OpRelease? || op.OpTerminate? || op.OpSetWork?
    ensures BankerInv(Apply(s, op), total) && Safe(Apply(s, op))
  {
    match op
    case OpCreate(max) =>
      if NewPid(s) != -1 {
        CreateInv(s, total, max);
        CreateSafe(s, total, max);
      }
    case OpRequest(pid, v) => RequestSafe(s, total, pid, v);
    case OpRelease(pid, v) => ReleaseSafe(s, total, pid, v);
    case OpTerminate(pid) => TerminateSafe(s, total, pid);
    case OpSetWork(pid, units) => AccountsFrame(s, SetWork(s, pid, units), total);
    case _ =>
  }

  lemma RequestKeeps(s: Sys, pid: int, v: seq<int>)
    requires QueueInv(s) && |v| == |s.available|
    ensures QueueInv(Request(s, pid, v))
  {
    StandingKeeps(s, Request(s, pid, v));
  }

  lemma ReleaseKeeps(s: Sys, pid: int, v: seq<int>)
    requires QueueInv(s) && |v| == |s.available|
    ensures QueueInv(Release(s, pid, v))
  {
    StandingKeeps(s, Release(s, pid, v));
  }

  /** Every allowed operation keeps the queues. */
  lemma QueueStep(s: Sys, op: Op, total: seq<int>)
    requires QueueInv(s) && |total| == |s.available| && Allowed(s, op, total)
    ensures Applicable(s, op) && QueueInv(Apply(s, op))
  {
    InvRanges(s);
    match op
    case OpCreate(max) => CreateKeeps(s, max);
    case OpRequest(pid, v) => RequestKeeps(s, pid, v);
    case OpRelease(pid, v) => ReleaseKeeps(s, pid, v);
    case OpTerminate(pid) => TerminateKeepsIff(s, pid);
    case OpSetWork(pid, units) => StandingKeeps(s, SetWork(s, pid, units));
    case OpTick => TickKeeps(s);
    case OpYield(full) => YieldKeeps(s, full);
    case OpBoost => BoostKeeps(s);
    case OpSchedule => ScheduleKeepsIff(s);
  }

  /** Every allowed operation keeps the accounts, safety and the queues. */
  lemma StepSound(s: Sys, op: Op, total: seq<int>)
    requires Sound(s, total) && Allowed(s, op, total)
    ensures Applicable(s, op) && Sound(Apply(s, op), total)
  {
    QueueStep(s, op, total);
    match op
    case OpTick => TickAccounts(s, total);
    case OpYield(full) => YieldAccounts(s, total, full);
    case OpBoost =>
      BoostAccounts(s);
      AccountsFrame(s, Boost(s), total);
    case OpSchedule =>
      ScheduleAccounts(s);
      AccountsFrame(s, Schedule(s), total);
    case _ => AccountsStep(s, op, total);
  }

  ghost predicate AllowedRun(s: Sys, ops: seq<Op>, total: seq<int>)
    requires Sound(s, total)
    decreases |ops|
  {
    ops == [] ||
    (Allowed(s, ops[0], total) && (StepSound(s, ops[0], total); AllowedRun(Apply(s, ops[0]), ops[1..], total)))
  }

  /** The state after a run; every state on the way is sound. */
  ghost function Run(s: Sys, ops: seq<Op>, total: seq<int>): (s': Sys)
    requires Sound(s, total) && AllowedRun(s, ops, total)
    ensures Sound(s', total)
    decreases |ops|
  {
    if ops == [] then s else
      StepSound(s, ops[0], total);
      Run(Apply(s, ops[0]), ops[1..], total)
  }

  lemma InitSound(slots: nat, total: seq<int>)
    requires forall r :: 0 <= r < |total| ==> 0 <= total[r]
    ensures Sound(Init(slots, total), total)
    ensures var s := Init(slots, total);
      |s.tasks| == slots && AliveSet(s) == {} && Line(s) == [] && s.current == -1 && s.available == total
  {
    var s := Init(slots, total);
    assert AliveSet(s) == {};
    forall r | 0 <= r < |total| ensures Freed(s.tasks, Slots(s), r) == 0 {
      FreedSame(s.tasks, Slots(s), {}, r);
      FreedNone(s.tasks, r);
    }
    assert Completion(s, []);
    assert forall i :: 0 <= i < |s.tasks| ==> TaskPlaced(s, i);
  }

  /** Whatever was done to a fresh scheduler, everyone can still be served to the end. */
  lemma ReachableDeadlockFree(slots: nat, total: seq<int>, ops: seq<Op>)
    requires forall r :: 0 <= r < |total| ==> 0 <= total[r]
    requires (InitSound(slots, total); AllowedRun(Init(slots, total), ops, total))
    ensures (InitSound(slots, total);
      exists order: seq<int> :: DrivesToEnd(Run(Init(slots, total), ops, total), total, order))
  {
    InitSound(slots, total);
    DeadlockFree(Run(Init(slots, total), ops, total), total);
  }

  /** The resource operations alone, killing included, form runs of their own. */
  ghost predicate AccountsRun(s: Sys, ops: seq<Op>, s': Sys)
    requires WellFormed(s)
    decreases |ops|
  {
    if ops == [] then s' == s else
      var op := ops[0];
      && (op.OpCreate? || op.OpRequest? || op.OpRelease? || op.OpTerminate? || op.OpSetWork?)
      && Applicable(s, op)
      && WellFormed(Apply(s, op))
      && AccountsRun(Apply(s, op), ops[1..], s')
  }

  lemma {:induction false} AccountsRunSafe(s: Sys, ops: seq<Op>, s': Sys, total: seq<int>)
    requires BankerInv(s, total) && Safe(s) && AccountsRun(s, ops, s')
    requires forall op :: op in ops ==> Proper(op, total)
    ensures BankerInv(s', total) && Safe(s')
    decreases |ops|
  {
    if ops != [] {
      AccountsStep(s, ops[0], total);
      AccountsRunSafe(Apply(s, ops[0]), ops[1..], s', total);
    }
  }

  // ----- draining, with the accounts -----

  lemma {:induction false} TicksSound(s: Sys, total: seq<int>, n: nat)
    requires Sound(s, total)
    ensures Sound(Ticks(s, n), total)
    decreases n
  {
    if n > 0 {
      StepSound(s, OpTick, total);
      TicksSound(Tick(s), total, n - 1);
    }
  }

  /** Started idle with finite work and only ticked, the system is empty from tick "work plus number of
  tasks" on and not before, and from then on everything is available again. */
  lemma DrainsAndReturns(s: Sys, total: seq<int>, n: nat)
    requires Sound(s, total) && FiniteWork(s) && s.current == -1
    ensures AliveSet(Ticks(s, n)) == {} <==> TotalWork(s) + |AliveSet(s)| <= n
    ensures TotalWork(s) + |AliveSet(s)| <= n ==> Ticks(s, n).available == total
  {
    DrainExact(s, n);
    IdleDrainTime(s);
    TicksSound(s, total, n);
    if AliveSet(Ticks(s, n)) == {} {
      NoneAlive(Ticks(s, n), total);
    }
  }
}
