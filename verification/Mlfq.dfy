/** The multi-level feedback queue: its structure, how long it takes to drain, how long a task waits. */
module Mlfq {
  import opened SchedulerState

  // ----- the structure -----

  ghost predicate QueuedAt(s: Sys, pid: int, q: int) {
    0 <= pid < |s.tasks| && s.tasks[pid].state == Ready && s.tasks[pid].level == q
  }

  predicate QuantumOk(t: Tcb) {
    && 0 <= t.level < NUM_QUEUES
    && t.quantum <= Quantum(t.level)
    && (t.level < NUM_QUEUES - 1 ==> 1 <= t.quantum)
  }

  /** A ready task stands in the queue of its own level; the running task is `current`; nothing is blocked. */
  ghost predicate TaskPlaced(s: Sys, i: int)
    requires |s.queues| == NUM_QUEUES && 0 <= i < |s.tasks|
  {
    var t := s.tasks[i];
    match t.state
    case Ready => QuantumOk(t) && i in s.queues[t.level]
    case Running => QuantumOk(t) && i == s.current
    case Blocked => false
    case Terminated => true
  }

  ghost predicate QueueInv(s: Sys) {
    && WellFormed(s)
    && (forall q, k :: 0 <= q < NUM_QUEUES && 0 <= k < |s.queues[q]| ==> QueuedAt(s, s.queues[q][k], q))
    && (forall q :: 0 <= q < NUM_QUEUES ==> Distinct(s.queues[q]))
    && (forall i :: 0 <= i < |s.tasks| ==> TaskPlaced(s, i))
    && (s.current == -1 || (0 <= s.current < |s.tasks| && s.tasks[s.current].state == Running))
  }

  lemma InvRanges(s: Sys)
    requires QueueInv(s)
    ensures PidsInRange(s) && CurrentInRange(s)
    ensures forall q, k :: 0 <= q < NUM_QUEUES && 0 <= k < |s.queues[q]| ==> s.tasks[s.queues[q][k]].state == Ready
  {
    forall q, k | 0 <= q < NUM_QUEUES && 0 <= k < |s.queues[q]| ensures QueuedAt(s, s.queues[q][k], q) {
    }
    if s.current != -1 { assert TaskPlaced(s, s.current); }
  }

  /** Everything that is queued, in the order of dispatch. */
  function Line(s: Sys): seq<int>
    requires |s.queues| == NUM_QUEUES
  {
    s.queues[0] + s.queues[1] + s.queues[2]
  }

  lemma LineDistinct(s: Sys)
    requires QueueInv(s)
    ensures Distinct(Line(s))
    ensures forall k :: 0 <= k < |Line(s)| ==> 0 <= Line(s)[k] < |s.tasks| && s.tasks[Line(s)[k]].state == Ready
  {
    var a, b, c := s.queues[0], s.queues[1], s.queues[2];
    forall k | 0 <= k < |Line(s)| ensures exists q :: 0 <= q < NUM_QUEUES && QueuedAt(s, Line(s)[k], q) {
      assert Line(s)[k] == if k < |a| then a[k] else if k < |a| + |b| then b[k - |a|] else c[k - |a| - |b|];
      assert QueuedAt(s, Line(s)[k], if k < |a| then 0 else if k < |a| + |b| then 1 else 2);
    }
    forall i, j | 0 <= i < j < |Line(s)| ensures Line(s)[i] != Line(s)[j] {
      var qi := if i < |a| then 0 else if i < |a| + |b| then 1 else 2;
      var qj := if j < |a| then 0 else if j < |a| + |b| then 1 else 2;
      assert QueuedAt(s, Line(s)[i], qi) && QueuedAt(s, Line(s)[j], qj);
    }
  }

  lemma {:induction false} DistinctFits(o: seq<int>, within: set<int>)
    requires Distinct(o) && Elems(o) <= within
    ensures |o| <= |within|
  {
    if o != [] {
      var init := o[..|o| - 1];
      assert o == init + [o[|o| - 1]];
      assert o[|o| - 1] in Elems(o);
      assert Elems(init) <= within - {o[|o| - 1]};
      DistinctFits(init, within - {o[|o| - 1]});
    }
  }

  lemma {:induction false} DistinctOnce(o: seq<int>, x: int)
    requires Distinct(o)
    ensures multiset(o)[x] == if x in o then 1 else 0
  {
    if o != [] {
      assert o == [o[0]] + o[1..];
      DistinctOnce(o[1..], x);
    }
  }

  /** A ready task is queued exactly once over all queues; a running or terminated one is not queued. */
  lemma QueuedExactlyOnce(s: Sys, pid: int)
    requires QueueInv(s) && 0 <= pid < |s.tasks|
    ensures multiset(Line(s))[pid] == if s.tasks[pid].state == Ready then 1 else 0
    ensures s.tasks[pid].state == Ready ==> pid in s.queues[s.tasks[pid].level]
    ensures s.tasks[pid].state == Running <==> s.current == pid
  {
    LineDistinct(s);
    DistinctOnce(Line(s), pid);
    assert TaskPlaced(s, pid);
    if s.tasks[pid].state == Ready {
      assert pid in Line(s);
    }
  }

  /** The queues together never hold more than the live tasks, less the running one. */
  lemma QueuesFit(s: Sys)
    requires QueueInv(s)
    ensures |s.queues[0]| + |s.queues[1]| + |s.queues[2]| + (if s.current == -1 then 0 else 1)
         <= |AliveSet(s)| <= |s.tasks|
  {
    LineDistinct(s);
    var all := if s.current == -1 then Line(s) else Line(s) + [s.current];
    assert Elems(all) <= AliveSet(s) by {
      forall x | x in all ensures x in AliveSet(s) {
        assert Alive(s, x);
      }
    }
    DistinctFits(all, AliveSet(s));
    AliveFits(s);
  }

  lemma AliveFits(s: Sys)
    ensures |AliveSet(s)| <= |s.tasks|
  {
    SetBelow(AliveSet(s), |s.tasks|);
  }

  lemma {:induction false} SetBelow(a: set<int>, n: nat)
    requires forall x :: x in a ==> 0 <= x < n
    ensures |a| <= n
  {
    if n == 0 {
      assert forall x :: x in a ==> false;
      assert a == {};
    } else {
      SetBelow(a - {n - 1}, n - 1);
      assert n - 1 in a ==> |a| == |a - {n - 1}| + 1;
      assert n - 1 !in a ==> a - {n - 1} == a;
    }
  }

  /** A free slot leaves room at the end of the top queue. */
  lemma CreateHasRoom(s: Sys)
    requires QueueInv(s) && NewPid(s) != -1
    ensures |s.queues[0]| < |s.tasks|
  {
    QueuesFit(s);
    var pid := NewPid(s);
    assert pid !in AliveSet(s);
    SetBelow(AliveSet(s) + {pid}, |s.tasks|);
  }

  // ----- every operation keeps the structure -----

  lemma CreateKeeps(s: Sys, max: seq<int>)
    requires QueueInv(s) && |max| == |s.available|
    ensures QueueInv(Create(s, max))
  {
    var s', pid := Create(s, max), NewPid(s);
    if pid != -1 {
      assert s'.queues[0][|s.queues[0]|] == pid;
      forall i | 0 <= i < |s'.tasks| ensures TaskPlaced(s', i) {
        assert TaskPlaced(s, i);
        assert forall x :: x in s.queues[0] ==> x in s'.queues[0];
      }
    }
  }

  lemma ScheduleKeeps(s: Sys)
    requires QueueInv(s) && s.current == -1
    ensures QueueInv(Schedule(s))
  {
    var s', q := Schedule(s), TopQueue(s.queues);
    if q != -1 {
      var pid := s.queues[q][0];
      forall i | 0 <= i < |s'.tasks| ensures TaskPlaced(s', i) {
        assert TaskPlaced(s, i);
        if i != pid {
          assert i in s.queues[q] ==> i in s.queues[q][1..];
        }
      }
      forall p, k | 0 <= p < NUM_QUEUES && 0 <= k < |s'.queues[p]| ensures QueuedAt(s', s'.queues[p][k], p) {
        if p == q {
          assert s'.queues[p][k] == s.queues[q][k + 1];
          assert QueuedAt(s, s.queues[q][k + 1], q);
        } else {
          assert QueuedAt(s, s.queues[p][k], p);
          assert QueuedAt(s, s.queues[q][0], q);
        }
      }
    }
  }

  /** A dispatch takes the first in line: the longest-queued task of the highest non-empty level. */
  lemma ScheduleTakesFirst(s: Sys)
    requires QueueInv(s)
    ensures PidsInRange(s)
    ensures Line(s) == [] ==> Schedule(s) == s
    ensures Line(s) != [] ==> Schedule(s).current == Line(s)[0] && Line(Schedule(s)) == Line(s)[1..]
  {
    InvRanges(s);
  }

  lemma RequeuedKeeps(s: Sys, full: bool)
    requires QueueInv(s) && s.current != -1
    ensures CurrentInRange(s) && QueueInv(Requeued(s, full))
  {
    assert TaskPlaced(s, s.current);
    var s' := Requeued(s, full);
    var l := s'.tasks[s.current].level;
    assert s'.queues[l][|s.queues[l]|] == s.current;
    forall i | 0 <= i < |s'.tasks| ensures TaskPlaced(s', i) {
      assert TaskPlaced(s, i);
      assert forall x :: x in s.queues[l] ==> x in s'.queues[l];
    }
  }

  lemma YieldKeeps(s: Sys, full: bool)
    requires QueueInv(s)
    ensures CurrentInRange(s) && QueueInv(Yield(s, full))
  {
    if s.current != -1 {
      assert TaskPlaced(s, s.current);
      RequeuedKeeps(s, full);
      ScheduleKeeps(Requeued(s, full));
    }
  }

  /** The tasks a boost touches are the ready ones below the top level. */
  lemma BoostTouches(s: Sys)
    requires QueueInv(s)
    ensures forall i :: 0 <= i < |s.tasks| ==>
      (i in s.queues[1] + s.queues[2] <==> s.tasks[i].state == Ready && s.tasks[i].level != 0)
  {
    var low := s.queues[1] + s.queues[2];
    forall i | 0 <= i < |s.tasks|
      ensures i in low <==> s.tasks[i].state == Ready && s.tasks[i].level != 0
    {
      assert TaskPlaced(s, i);
      if i in low {
        var k :| 0 <= k < |low| && low[k] == i;
        assert QueuedAt(s, i, if k < |s.queues[1]| then 1 else 2);
      }
    }
  }

  /** A boost appends the lower queues, in order, to the top one, and touches only the tasks in them. */
  lemma BoostKeeps(s: Sys)
    requires QueueInv(s)
    ensures QueueInv(Boost(s))
    ensures Boost(s).queues == [Line(s), [], []] && Boost(s).current == s.current
    ensures forall i :: 0 <= i < |s.tasks| ==>
      var t := s.tasks[i];
      Boost(s).tasks[i] == if t.state == Ready && t.level != 0 then t.(level := 0, quantum := Quantum(0)) else t
  {
    BoostTouches(s);
    LineDistinct(s);
    assert Boost(s).queues[0] == Line(s);
    forall i | 0 <= i < |s.tasks| ensures TaskPlaced(Boost(s), i) {
      assert TaskPlaced(s, i);
    }
  }

  /** The running task ends: what `Tick` does when the last unit of work is done. */
  lemma CompleteKeeps(s: Sys)
    requires QueueInv(s) && s.current != -1
    ensures var m := s.(tasks := s.tasks[s.current := s.tasks[s.current].(work := 0)]);
      QueueInv(Terminate(m, s.current).(current := -1))
  {
    var s' := Terminate(s.(tasks := s.tasks[s.current := s.tasks[s.current].(work := 0)]), s.current).(current := -1);
    forall i | 0 <= i < |s'.tasks| ensures TaskPlaced(s', i) {
      assert TaskPlaced(s, i);
    }
    forall q, k | 0 <= q < NUM_QUEUES && 0 <= k < |s'.queues[q]| ensures QueuedAt(s', s'.queues[q][k], q) {
      assert QueuedAt(s, s.queues[q][k], q);
    }
  }

  /** Counting one tick, and expiring if the allotment is used up. */
  lemma ExpireKeeps(s: Sys)
    requires QueueInv(s) && s.current != -1
    ensures var t := s.tasks[s.current];
      var s' := s.(tasks := s.tasks[s.current := Worked(t)]);
      CurrentInRange(s) && CurrentInRange(s') && PidsInRange(s') && WellFormed(s') &&
      (t.quantum > 1 ==> QueueInv(s')) &&
      (t.quantum <= 1 ==> QueueInv(Requeued(s', true)))
  {
    var t := s.tasks[s.current];
    var s' := s.(tasks := s.tasks[s.current := Worked(t)]);
    assert TaskPlaced(s, s.current);
    assert forall q, k :: 0 <= q < NUM_QUEUES && 0 <= k < |s.queues[q]| ==> QueuedAt(s, s.queues[q][k], q);
    if t.quantum > 1 {
      forall i | 0 <= i < |s'.tasks| ensures TaskPlaced(s', i) { assert TaskPlaced(s, i); }
    } else {
      var s'' := Requeued(s', true);
      var l := s''.tasks[s.current].level;
      assert s''.queues[l][|s.queues[l]|] == s.current;
      forall i | 0 <= i < |s''.tasks| ensures TaskPlaced(s'', i) {
        assert TaskPlaced(s, i);
        assert forall x :: x in s.queues[l] ==> x in s''.queues[l];
      }
    }
  }

  lemma TickKeeps(s: Sys)
    requires QueueInv(s)
    ensures CurrentInRange(s) && QueueInv(Tick(s))
  {
    if s.current == -1 {
      ScheduleKeeps(s);
    } else {
      assert TaskPlaced(s, s.current);
      var t := s.tasks[s.current];
      if t.work == 1 {
        CompleteKeeps(s);
      } else {
        ExpireKeeps(s);
        if t.quantum <= 1 {
          ScheduleKeeps(Requeued(s.(tasks := s.tasks[s.current := Worked(t)]), true));
        }
      }
    }
  }

  /** Operations that touch neither the queues nor a task's state and standing keep the structure. */
  lemma StandingKeeps(s: Sys, s': Sys)
    requires QueueInv(s) && WellFormed(s')
    requires s'.queues == s.queues && s'.current == s.current && |s'.tasks| == |s.tasks|
    requires forall i :: 0 <= i < |s.tasks| ==>
      var (t, t') := (s.tasks[i], s'.tasks[i]);
      t'.state == t.state && t'.level == t.level && t'.quantum == t.quantum
    ensures QueueInv(s')
  {
    forall i | 0 <= i < |s'.tasks| ensures TaskPlaced(s', i) { assert TaskPlaced(s, i); }
    forall q, k | 0 <= q < NUM_QUEUES && 0 <= k < |s'.queues[q]| ensures QueuedAt(s', s'.queues[q][k], q) {
      assert QueuedAt(s, s.queues[q][k], q);
    }
  }

  // ----- two operations that keep it only sometimes -----

  /** Dispatching keeps the structure exactly when nothing runs yet, or there is nothing to dispatch. */
  lemma ScheduleKeepsIff(s: Sys)
    requires QueueInv(s)
    ensures QueueInv(Schedule(s)) <==> s.current == -1 || Line(s) == []
  {
    if s.current == -1 {
      ScheduleKeeps(s);
    } else if Line(s) != [] {
      var q := TopQueue(s.queues);
      assert QueuedAt(s, s.queues[q][0], q);
      assert Schedule(s).tasks[s.current].state == Running;
      assert !TaskPlaced(Schedule(s), s.current);
    }
  }

  /** Terminating a task from outside never takes it out of the queues, nor off the processor: it keeps
  the structure exactly when the task is already dead and nothing is done. */
  lemma TerminateKeepsIff(s: Sys, pid: int)
    requires QueueInv(s)
    ensures QueueInv(Terminate(s, pid)) <==> !Alive(s, pid)
  {
    if Alive(s, pid) {
      var s' := Terminate(s, pid);
      assert TaskPlaced(s, pid);
      if s.tasks[pid].state == Ready {
        var q := s.tasks[pid].level;
        var k :| 0 <= k < |s.queues[q]| && s.queues[q][k] == pid;
        assert !QueuedAt(s', s'.queues[q][k], q);
      }
    }
  }

  // ----- draining -----

  function Sum(f: Tcb -> int, ts: seq<Tcb>): int {
    if ts == [] then 0 else Sum(f, ts[..|ts| - 1]) + f(ts[|ts| - 1])
  }

  lemma {:induction false} SumUpdate(f: Tcb -> int, ts: seq<Tcb>, i: nat, t: Tcb)
    requires i < |ts|
    ensures Sum(f, ts[i := t]) == Sum(f, ts) + f(t) - f(ts[i])
  {
    var last := |ts| - 1;
    if i < last {
      assert ts[i := t][..last] == ts[..last][i := t];
      SumUpdate(f, ts[..last], i, t);
    } else {
      assert ts[i := t][..last] == ts[..last];
    }
  }

  function WorkOf(t: Tcb): int {
    if t.state == Terminated then 0 else t.work
  }

  function LiveOf(t: Tcb): int {
    if t.state == Terminated then 0 else 1
  }

  /** The work all live tasks still have to do. */
  function TotalWork(s: Sys): int {
    Sum(WorkOf, s.tasks)
  }

  ghost function LiveBelow(s: Sys, n: nat): set<int>
    requires n <= |s.tasks|
  {
    set i | 0 <= i < n && Alive(s, i)
  }

  lemma LiveStep(s: Sys, n: nat)
    requires 0 < n <= |s.tasks|
    ensures LiveBelow(s, n) == LiveBelow(s, n - 1) + (if Alive(s, n - 1) then {n - 1} else {})
    ensures n - 1 !in LiveBelow(s, n - 1)
  {
  }

  lemma SumSnoc(f: Tcb -> int, ts: seq<Tcb>, n: nat)
    requires 0 < n <= |ts|
    ensures Sum(f, ts[..n]) == Sum(f, ts[..n - 1]) + f(ts[n - 1])
  {
    assert ts[..n][..n - 1] == ts[..n - 1];
  }

  lemma {:induction false} LiveCount(s: Sys, n: nat)
    requires n <= |s.tasks|
    ensures Sum(LiveOf, s.tasks[..n]) == |LiveBelow(s, n)|
  {
    if n > 0 {
      LiveCount(s, n - 1);
      SumSnoc(LiveOf, s.tasks, n);
      LiveStep(s, n);
    }
  }

  /** Every live task has a positive, finite amount of work left. */
  ghost predicate FiniteWork(s: Sys) {
    forall i :: Alive(s, i) ==> s.tasks[i].work >= 1
  }

  /** The ticks until the last task ends: all the work, and one dispatching tick per task still to start. */
  function DrainTime(s: Sys): int {
    TotalWork(s) + Sum(LiveOf, s.tasks) - if s.current == -1 then 0 else 1
  }

  lemma ScheduleDrain(s: Sys)
    requires QueueInv(s) && s.current == -1
    ensures TotalWork(Schedule(s)) == TotalWork(s)
    ensures Sum(LiveOf, Schedule(s).tasks) == Sum(LiveOf, s.tasks)
    ensures FiniteWork(s) ==> FiniteWork(Schedule(s))
    ensures Schedule(s).current == -1 <==> Line(s) == []
  {
    var q := TopQueue(s.queues);
    if q != -1 {
      var pid := s.queues[q][0];
      assert QueuedAt(s, pid, q);
      SumUpdate(WorkOf, s.tasks, pid, s.tasks[pid].(state := Running));
      SumUpdate(LiveOf, s.tasks, pid, s.tasks[pid].(state := Running));
      assert forall i :: Alive(Schedule(s), i) ==> Alive(s, i);
    }
  }

  lemma NobodyQueued(s: Sys)
    requires QueueInv(s) && s.current == -1
    ensures Line(s) == [] <==> AliveSet(s) == {}
  {
    if Line(s) == [] {
      forall i ensures !Alive(s, i) {
        if 0 <= i < |s.tasks| { assert TaskPlaced(s, i); }
      }
    } else {
      LineDistinct(s);
      assert Line(s)[0] in AliveSet(s);
    }
  }

  lemma DrainPositive(s: Sys)
    requires QueueInv(s) && FiniteWork(s)
    ensures DrainTime(s) >= 0
    ensures DrainTime(s) == 0 <==> AliveSet(s) == {}
  {
    SumsPositive(s, |s.tasks|);
    assert s.tasks[..|s.tasks|] == s.tasks;
    assert AliveSet(s) == {} <==> forall i :: 0 <= i < |s.tasks| ==> !Alive(s, i) by {
      assert forall i :: Alive(s, i) ==> i in AliveSet(s);
    }
    if s.current != -1 {
      assert Alive(s, s.current) && s.current in AliveSet(s);
      assert Sum(LiveOf, s.tasks) >= 1;
    }
  }

  lemma {:induction false} SumsPositive(s: Sys, n: nat)
    requires FiniteWork(s) && n <= |s.tasks|
    ensures Sum(WorkOf, s.tasks[..n]) >= Sum(LiveOf, s.tasks[..n]) >= 0
    ensures Sum(LiveOf, s.tasks[..n]) == 0 <==> forall i :: 0 <= i < n ==> !Alive(s, i)
    ensures Sum(LiveOf, s.tasks[..n]) == 0 ==> Sum(WorkOf, s.tasks[..n]) == 0
  {
    if n > 0 {
      SumsPositive(s, n - 1);
      assert s.tasks[..n][..n - 1] == s.tasks[..n - 1];
      assert Alive(s, n - 1) <==> s.tasks[n - 1].state != Terminated;
    }
  }

  /** While a task is left, every tick takes exactly one off the drain time, whatever it does. */
  lemma TickDrains(s: Sys)
    requires QueueInv(s) && FiniteWork(s)
    ensures CurrentInRange(s) && QueueInv(Tick(s)) && FiniteWork(Tick(s))
    ensures DrainTime(Tick(s)) == if AliveSet(s) == {} then 0 else DrainTime(s) - 1
  {
    TickKeeps(s);
    DrainPositive(s);
    if s.current == -1 {
      ScheduleDrain(s);
      NobodyQueued(s);
    } else {
      assert Alive(s, s.current) && s.current in AliveSet(s);
      var t := s.tasks[s.current];
      if t.work == 1 {
        CompleteDrains(s);
      } else {
        ExpireDrains(s);
      }
    }
  }

  lemma CompleteDrains(s: Sys)
    requires QueueInv(s) && FiniteWork(s) && s.current != -1 && s.tasks[s.current].work == 1 && CurrentInRange(s)
    ensures FiniteWork(Tick(s)) && DrainTime(Tick(s)) == DrainTime(s) - 1
  {
    var t := s.tasks[s.current];
    var ts := s.tasks[s.current := t.(work := 0)];
    var t' := Tick(s).tasks[s.current];
    assert Tick(s).tasks == s.tasks[s.current := t'];
    SumUpdate(WorkOf, s.tasks, s.current, t');
    SumUpdate(LiveOf, s.tasks, s.current, t');
    assert forall i :: Alive(Tick(s), i) ==> Alive(s, i);
  }

  /** Neither counting a tick of finite work nor requeueing ends a task. */
  lemma RequeueDrains(s: Sys)
    requires WellFormed(s) && FiniteWork(s) && 0 <= s.current < |s.tasks| && 0 <= s.tasks[s.current].level < NUM_QUEUES
    requires s.tasks[s.current].state == Running
    ensures FiniteWork(Requeued(s, true))
    ensures DrainTime(Requeued(s, true)) == DrainTime(s) + 1
  {
    var y := Yielded(s.tasks[s.current], true);
    SumUpdate(WorkOf, s.tasks, s.current, y);
    SumUpdate(LiveOf, s.tasks, s.current, y);
    assert forall i :: Alive(Requeued(s, true), i) ==> Alive(s, i);
  }

  lemma WorkDrains(s: Sys)
    requires FiniteWork(s) && 0 <= s.current < |s.tasks|
    requires s.tasks[s.current].state == Running && s.tasks[s.current].work > 1
    ensures var s' := s.(tasks := s.tasks[s.current := Worked(s.tasks[s.current])]);
      FiniteWork(s') && DrainTime(s') == DrainTime(s) - 1
  {
    var t' := Worked(s.tasks[s.current]);
    SumUpdate(WorkOf, s.tasks, s.current, t');
    SumUpdate(LiveOf, s.tasks, s.current, t');
    assert forall i :: Alive(s.(tasks := s.tasks[s.current := t']), i) ==> Alive(s, i);
  }

  lemma ExpireDrains(s: Sys)
    requires QueueInv(s) && FiniteWork(s) && s.current != -1 && s.tasks[s.current].work > 1 && CurrentInRange(s)
    ensures FiniteWork(Tick(s)) && DrainTime(Tick(s)) == DrainTime(s) - 1
  {
    var s' := s.(tasks := s.tasks[s.current := Worked(s.tasks[s.current])]);
    WorkDrains(s);
    ExpireKeeps(s);
    if s.tasks[s.current].quantum <= 1 {
      var m := Requeued(s', true);
      RequeueDrains(s');
      ScheduleDrain(m);
      assert s.current in m.queues[m.tasks[s.current].level];
    }
  }

  ghost function Ticks(s: Sys, n: nat): (s': Sys)
    requires QueueInv(s)
    ensures QueueInv(s')
    decreases n
  {
    if n == 0 then s else
      TickKeeps(s);
      Ticks(Tick(s), n - 1)
  }

  /** From any state whose tasks all have finite work, running only ticks, the last task ends at tick
  `DrainTime` and not before, whatever demotions and rotations happen in between. */
  lemma {:induction false} DrainExact(s: Sys, n: nat)
    requires QueueInv(s) && FiniteWork(s)
    ensures FiniteWork(Ticks(s, n))
    ensures AliveSet(Ticks(s, n)) == {} <==> DrainTime(s) <= n
    decreases n
  {
    DrainPositive(s);
    if n > 0 {
      TickDrains(s);
      DrainExact(Tick(s), n - 1);
    }
  }

  /** Started idle, the drain time is the sum of the tasks' work plus the number of tasks. */
  lemma IdleDrainTime(s: Sys)
    requires QueueInv(s) && s.current == -1
    ensures DrainTime(s) == TotalWork(s) + |AliveSet(s)|
  {
    LiveCount(s, |s.tasks|);
    assert s.tasks[..|s.tasks|] == s.tasks;
    assert AliveSet(s) == LiveBelow(s, |s.tasks|);
  }
}
