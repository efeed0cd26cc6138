/** What a task's level, quantum and work say about its own history, in every run. */
module Allotment {
  import opened SchedulerState
  import opened Mlfq
  import opened Runs

  /** What a task has used of its allotment and what work it has left.  `used` counts 4 ticks for the top
  level, 8 for the next, and every tick at the lowest. */
  datatype Account = Gone | Holding(used: int, work: int)

  function AccountOf(t: Tcb): Account {
    if t.state == Terminated then Gone
    else Holding((if t.level == 0 then 4 else if t.level == 1 then 12 else 28) - t.quantum, t.work)
  }

  /** What an operation means to one task. */
  datatype Event = Born | Ran | GaveUp | Lifted | Given(units: int) | Nothing

  function EventOf(s: Sys, op: Op, pid: int): Event {
    match op
    case OpCreate(_) => if NewPid(s) == pid then Born else Nothing
    case OpTick => if s.current == pid then Ran else Nothing
    case OpYield(full) => if full && s.current == pid then GaveUp else Nothing
    case OpBoost => if s.current != pid then Lifted else Nothing
    case OpSetWork(p, units) => if p == pid then Given(units) else Nothing
    case _ => Nothing
  }

  function After(a: Account, e: Event): Account {
    match a
    case Gone => if e.Born? then Holding(0, -1) else Gone
    case Holding(used, work) =>
      match e
      case Born => Holding(0, -1)
      case Ran => if work == 1 then Gone else Holding(used + 1, if work > 0 then work - 1 else work)
      case GaveUp => Holding(if used < 4 then 4 else if used < 12 then 12 else used, work)
      case Lifted => Holding(if used < 4 then used else 0, work)
      case Given(units) => Holding(used, units)
      case Nothing => a
  }

  /** A live task's level and quantum can be read off its account: it is at the lowest level from its 12th
  tick on. */
  lemma AccountTells(s: Sys, pid: int)
    requires QueueInv(s) && Alive(s, pid)
    ensures var (t, a) := (s.tasks[pid], AccountOf(s.tasks[pid]));
      && a.Holding? && a.used >= 0 && a.work == t.work
      && t.level == (if a.used < 4 then 0 else if a.used < 12 then 1 else 2)
      && t.quantum == (if a.used < 4 then 4 - a.used else if a.used < 12 then 12 - a.used else 28 - a.used)
  {
    assert TaskPlaced(s, pid);
  }

  /** A task starts with nothing used, without end, at the end of the top queue. */
  lemma CreatedStanding(s: Sys, max: seq<int>)
    requires QueueInv(s) && |max| == |s.available| && NewPid(s) != -1
    ensures var (s', pid) := (Create(s, max), NewPid(s));
      && !Alive(s, pid) && Alive(s', pid) && AccountOf(s'.tasks[pid]) == Holding(0, -1)
      && s'.queues[0] == s.queues[0] + [pid] && s'.queues[1..] == s.queues[1..]
      && (forall i :: 0 <= i < |s.tasks| && i != pid ==> s'.tasks[i] == s.tasks[i])
  {
  }

  /** Dispatching touches only a task's state, and ends no one. */
  lemma ScheduleAccount(s: Sys, pid: int)
    requires QueueInv(s) && PidsInRange(s) && 0 <= pid < |s.tasks|
    ensures |Schedule(s).tasks| == |s.tasks| && AccountOf(Schedule(s).tasks[pid]) == AccountOf(s.tasks[pid])
  {
  }

  lemma YieldAccount(s: Sys, full: bool, pid: int)
    requires QueueInv(s) && PidsInRange(s) && CurrentInRange(s) && 0 <= pid < |s.tasks|
    ensures |Yield(s, full).tasks| == |s.tasks|
    ensures AccountOf(Yield(s, full).tasks[pid]) == After(AccountOf(s.tasks[pid]), EventOf(s, OpYield(full), pid))
  {
    if s.current != -1 {
      assert TaskPlaced(s, s.current);
      RequeuedKeeps(s, full);
      InvRanges(Requeued(s, full));
      ScheduleAccount(Requeued(s, full), pid);
    }
  }

  lemma TickAccount(s: Sys, pid: int)
    requires QueueInv(s) && PidsInRange(s) && CurrentInRange(s) && 0 <= pid < |s.tasks|
    ensures |Tick(s).tasks| == |s.tasks|
    ensures AccountOf(Tick(s).tasks[pid]) == After(AccountOf(s.tasks[pid]), EventOf(s, OpTick, pid))
  {
    if s.current == -1 {
      ScheduleAccount(s, pid);
    } else {
      assert TaskPlaced(s, s.current);
      if s.tasks[s.current].work != 1 && s.tasks[s.current].quantum <= 1 {
        ExpireKeeps(s);
        var m := Requeued(s.(tasks := s.tasks[s.current := Worked(s.tasks[s.current])]), true);
        InvRanges(m);
        ScheduleAccount(m, pid);
      }
    }
  }

  lemma BoostAccount(s: Sys, pid: int)
    requires QueueInv(s) && 0 <= pid < |s.tasks|
    ensures AccountOf(Boost(s).tasks[pid]) == After(AccountOf(s.tasks[pid]), EventOf(s, OpBoost, pid))
  {
    BoostKeeps(s);
    assert TaskPlaced(s, pid);
  }

  /** Handing out resources or work, and creating, touches no other task's account. */
  lemma TableAccount(s: Sys, op: Op, pid: int)
    requires Applicable(s, op) && 0 <= pid < |s.tasks|
    requires op.OpCreate? || op.OpRequest? || op.OpRelease? || op.OpSetWork? || (op.OpTerminate? && !Alive(s, op.pid))
    ensures |Apply(s, op).tasks| == |s.tasks|
    ensures AccountOf(Apply(s, op).tasks[pid]) == After(AccountOf(s.tasks[pid]), EventOf(s, op, pid))
  {
    match op
    case OpCreate(max) => assert NewPid(s) == pid ==> Apply(s, op).tasks[pid] == Fresh(max);
    case OpRequest(p, v) => assert pid != p ==> Apply(s, op).tasks[pid] == s.tasks[pid];
    case OpRelease(p, v) => assert pid != p ==> Apply(s, op).tasks[pid] == s.tasks[pid];
    case _ =>
  }

  lemma AccountStep(s: Sys, op: Op, total: seq<int>, pid: int)
    requires Sound(s, total) && Allowed(s, op, total) && Applicable(s, op) && 0 <= pid < |s.tasks|
    ensures |Apply(s, op).tasks| == |s.tasks|
    ensures AccountOf(Apply(s, op).tasks[pid]) == After(AccountOf(s.tasks[pid]), EventOf(s, op, pid))
  {
    match op
    case OpTick => TickAccount(s, pid);
    case OpYield(full) => YieldAccount(s, full, pid);
    case OpBoost => BoostAccount(s, pid);
    case OpSchedule => ScheduleAccount(s, pid);
    case _ => TableAccount(s, op, pid);
  }

  /** What a run meant to one task. */
  ghost function History(s: Sys, ops: seq<Op>, total: seq<int>, pid: int): (h: seq<Event>)
    requires Sound(s, total) && AllowedRun(s, ops, total)
    ensures |h| == |ops|
    decreases |ops|
  {
    if ops == [] then [] else
      StepSound(s, ops[0], total);
      [EventOf(s, ops[0], pid)] + History(Apply(s, ops[0]), ops[1..], total, pid)
  }

  function AfterAll(a: Account, history: seq<Event>): Account
    decreases |history|
  {
    if history == [] then a else AfterAll(After(a, history[0]), history[1..])
  }

  /** In every run, whatever the other tasks do: whether a task lives, its level, its quantum and its work
  follow from its own history alone. */
  lemma {:induction false} AccountExact(s: Sys, ops: seq<Op>, total: seq<int>, pid: int)
    requires Sound(s, total) && AllowedRun(s, ops, total) && 0 <= pid < |s.tasks|
    ensures |Run(s, ops, total).tasks| == |s.tasks|
    ensures AccountOf(Run(s, ops, total).tasks[pid]) == AfterAll(AccountOf(s.tasks[pid]), History(s, ops, total, pid))
    decreases |ops|
  {
    if ops != [] {
      StepSound(s, ops[0], total);
      AccountStep(s, ops[0], total, pid);
      AccountExact(Apply(s, ops[0]), ops[1..], total, pid);
    }
  }

  // ----- the allotment cannot be gamed -----

  /** Ran, or nothing to the task itself: early yields, whatever others do, a boost while it runs. */
  predicate Steady(e: Event) {
    e.Ran? || e.Nothing?
  }

  function TimesRan(history: seq<Event>): nat {
    if history == [] then 0 else (if history[0].Ran? then 1 else 0) + TimesRan(history[1..])
  }

  lemma {:induction false} SteadyUse(a: Account, history: seq<Event>)
    requires a.Holding? && forall e :: e in history ==> Steady(e)
    requires 0 < a.work ==> TimesRan(history) < a.work
    ensures AfterAll(a, history)
         == Holding(a.used + TimesRan(history), if a.work > 0 then a.work - TimesRan(history) else a.work)
    decreases |history|
  {
    if history != [] {
      assert history[0] in history && forall e :: e in history[1..] ==> e in history;
      SteadyUse(After(a, history[0]), history[1..]);
    }
  }

  /** Between boosts and its own full-quantum yields, every tick a task runs for counts, and nothing else
  does: yielding early gains nothing, and it reaches the lowest level after exactly 12 of its own ticks. */
  lemma AllotmentExact(s: Sys, ops: seq<Op>, total: seq<int>, pid: int)
    requires Sound(s, total) && AllowedRun(s, ops, total) && Alive(s, pid)
    requires forall e :: e in History(s, ops, total, pid) ==> Steady(e)
    requires 0 < s.tasks[pid].work ==> TimesRan(History(s, ops, total, pid)) < s.tasks[pid].work
    ensures Alive(Run(s, ops, total), pid)
    ensures var c := AccountOf(s.tasks[pid]).used + TimesRan(History(s, ops, total, pid));
      var t := Run(s, ops, total).tasks[pid];
      && t.level == (if c < 4 then 0 else if c < 12 then 1 else 2)
      && t.quantum == (if c < 4 then 4 - c else if c < 12 then 12 - c else 28 - c)
  {
    AccountExact(s, ops, total, pid);
    SteadyUse(AccountOf(s.tasks[pid]), History(s, ops, total, pid));
    AccountTells(Run(s, ops, total), pid);
  }
}
