/** The scheduler's statics as one value, and what each of its functions does to that value.

The number of task slots is `|tasks|` and the number of resources `|available|`; both are
parameters of the model.  `Scheduler.dfy` holds the in-place form, proved against these functions.
*/
module SchedulerState {

  const NUM_QUEUES := 3

  function Quantum(level: int): int {
    if level == 0 then 4 else if level == 1 then 8 else 16
  }

  datatype TaskState = Ready | Running | Blocked | Terminated

  datatype Tcb = Tcb(
    state: TaskState,
    level: int,
    quantum: int,
    work: int,
    maxDemand: seq<int>,
    allocation: seq<int>,
    need: seq<int>)

  datatype Sys = Sys(
    tasks: seq<Tcb>,
    count: int,
    current: int,
    queues: seq<seq<int>>,
    available: seq<int>)

  // ----- vectors -----

  predicate Leq(a: seq<int>, b: seq<int>)
    requires |a| == |b|
  {
    forall r :: 0 <= r < |a| ==> a[r] <= b[r]
  }

  function Add(a: seq<int>, b: seq<int>): seq<int>
    requires |a| == |b|
  {
    seq(|a|, r requires 0 <= r < |a| => a[r] + b[r])
  }

  function Sub(a: seq<int>, b: seq<int>): seq<int>
    requires |a| == |b|
  {
    seq(|a|, r requires 0 <= r < |a| => a[r] - b[r])
  }

  function Zeros(n: nat): seq<int> {
    seq(n, _ => 0)
  }

  // ----- shape -----

  predicate Shaped(t: Tcb, resources: nat) {
    |t.maxDemand| == |t.allocation| == |t.need| == resources
  }

  ghost predicate WellFormed(s: Sys) {
    && |s.queues| == NUM_QUEUES
    && (forall i :: 0 <= i < |s.tasks| ==> Shaped(s.tasks[i], |s.available|))
  }

  predicate Alive(s: Sys, pid: int) {
    0 <= pid < |s.tasks| && s.tasks[pid].state != Terminated
  }

  function AliveSet(s: Sys): set<int> {
    set i | 0 <= i < |s.tasks| && Alive(s, i)
  }

  // ----- safety of an allocation state -----

  function Held(t: Tcb, r: nat): int {
    if r < |t.allocation| then t.allocation[r] else 0
  }

  /** What the slots in `done` hold of resource `r`. */
  ghost function Freed(ts: seq<Tcb>, done: set<int>, r: nat): int {
    if ts == [] then 0 else
      var last := |ts| - 1;
      Freed(ts[..last], done, r) + if last in done then Held(ts[last], r) else 0
  }

  function Elems(order: seq<int>): set<int> {
    set x | x in order
  }

  ghost predicate Distinct(order: seq<int>) {
    forall i, j :: 0 <= i < j < |order| ==> order[i] != order[j]
  }

  /** Task `pid` could run to its end once the tasks in `done` have given back what they hold. */
  ghost predicate CanFinish(s: Sys, pid: int, done: set<int>)
    requires WellFormed(s) && 0 <= pid < |s.tasks|
  {
    forall r :: 0 <= r < |s.available| ==> s.tasks[pid].need[r] <= s.available[r] + Freed(s.tasks, done, r)
  }

  /** Finishing the listed tasks one after the other is possible. */
  ghost predicate Feasible(s: Sys, order: seq<int>)
    requires WellFormed(s)
  {
    && Distinct(order)
    && (forall k :: 0 <= k < |order| ==> Alive(s, order[k]))
    && (forall k :: 0 <= k < |order| ==> CanFinish(s, order[k], Elems(order[..k])))
  }

  ghost predicate Completion(s: Sys, order: seq<int>)
    requires WellFormed(s)
  {
    Feasible(s, order) && forall i :: Alive(s, i) ==> i in order
  }

  /** Some order lets every task that is not terminated reach its maximum demand. */
  ghost predicate Safe(s: Sys)
    requires WellFormed(s)
  {
    exists order: seq<int> :: Completion(s, order)
  }

  // ----- the operations -----

  function Init(slots: nat, available: seq<int>): Sys {
    var z := Zeros(|available|);
    Sys(seq(slots, _ => Tcb(Terminated, 0, 0, 0, z, z, z)), 0, -1, [[], [], []], available)
  }

  /** The first terminated slot at or after `from`, or the number of slots. */
  function FirstFree(ts: seq<Tcb>, from: nat): (i: nat)
    requires from <= |ts|
    ensures from <= i <= |ts|
    ensures i < |ts| ==> ts[i].state == Terminated
    ensures forall j :: from <= j < i ==> ts[j].state != Terminated
    decreases |ts| - from
  {
    if from == |ts| || ts[from].state == Terminated then from else FirstFree(ts, from + 1)
  }

  function Fresh(max: seq<int>): Tcb {
    Tcb(Ready, 0, Quantum(0), -1, max, Zeros(|max|), max)
  }

  /** The pid `Create` answers with: a free slot, or -1. */
  function NewPid(s: Sys): int {
    var i := FirstFree(s.tasks, 0);
    if s.count >= |s.tasks| || i == |s.tasks| then -1 else i
  }

  ghost function Create(s: Sys, max: seq<int>): Sys
    requires WellFormed(s) && |max| == |s.available|
  {
    var pid := NewPid(s);
    if pid == -1 then s
    else s.(tasks := s.tasks[pid := Fresh(max)],
            count := s.count + 1,
            queues := s.queues[0 := s.queues[0] + [pid]])
  }

  ghost function Terminate(s: Sys, pid: int): Sys
    requires WellFormed(s)
  {
    if !Alive(s, pid) then s
    else
      var t := s.tasks[pid];
      s.(available := Add(s.available, t.allocation),
         tasks := s.tasks[pid := t.(state := Terminated, allocation := Zeros(|t.allocation|))],
         count := s.count - 1)
  }

  /** The allocation tried by a request, granted or not. */
  ghost function Trial(s: Sys, pid: int, v: seq<int>): Sys
    requires WellFormed(s) && |v| == |s.available| && 0 <= pid < |s.tasks|
  {
    var t := s.tasks[pid];
    s.(available := Sub(s.available, v),
       tasks := s.tasks[pid := t.(allocation := Add(t.allocation, v), need := Sub(t.need, v))])
  }

  ghost predicate Granted(s: Sys, pid: int, v: seq<int>)
    requires WellFormed(s) && |v| == |s.available|
  {
    && Alive(s, pid)
    && Leq(v, s.tasks[pid].need)
    && Leq(v, s.available)
    && WellFormed(Trial(s, pid, v))
    && Safe(Trial(s, pid, v))
  }

  ghost function Request(s: Sys, pid: int, v: seq<int>): Sys
    requires WellFormed(s) && |v| == |s.available|
  {
    if Granted(s, pid, v) then Trial(s, pid, v) else s
  }

  /** The part of `v` a release gives back: each component only if the task holds that much. */
  function Returned(v: seq<int>, allocation: seq<int>): seq<int>
    requires |v| == |allocation|
  {
    seq(|v|, r requires 0 <= r < |v| => if v[r] > allocation[r] then 0 else v[r])
  }

  ghost function Release(s: Sys, pid: int, v: seq<int>): Sys
    requires WellFormed(s) && |v| == |s.available|
  {
    if !Alive(s, pid) then s
    else
      var t := s.tasks[pid];
      var d := Returned(v, t.allocation);
      s.(available := Add(s.available, d),
         tasks := s.tasks[pid := t.(allocation := Sub(t.allocation, d), need := Add(t.need, d))])
  }

  /** The highest non-empty queue, or -1. */
  function TopQueue(queues: seq<seq<int>>): (q: int)
    requires |queues| == NUM_QUEUES
  {
    if queues[0] != [] then 0 else if queues[1] != [] then 1 else if queues[2] != [] then 2 else -1
  }

  ghost predicate PidsInRange(s: Sys) {
    forall q, k :: 0 <= q < |s.queues| && 0 <= k < |s.queues[q]| ==> 0 <= s.queues[q][k] < |s.tasks|
  }

  ghost function Schedule(s: Sys): Sys
    requires WellFormed(s) && PidsInRange(s)
  {
    var q := TopQueue(s.queues);
    if q == -1 then s
    else
      var pid := s.queues[q][0];
      s.(queues := s.queues[q := s.queues[q][1..]],
         current := pid,
         tasks := s.tasks[pid := s.tasks[pid].(state := Running)])
  }

  /** What a yield makes of the yielding task. */
  function Yielded(t: Tcb, usedFullQuantum: bool): Tcb {
    if usedFullQuantum && t.level < NUM_QUEUES - 1
    then t.(state := Ready, level := t.level + 1, quantum := Quantum(t.level + 1))
    else t.(state := Ready)
  }

  /** A yield before it dispatches: the task is back at the tail of its queue. */
  ghost function Requeued(s: Sys, usedFullQuantum: bool): Sys
    requires WellFormed(s) && 0 <= s.current < |s.tasks|
    requires 0 <= s.tasks[s.current].level < NUM_QUEUES
  {
    var t := Yielded(s.tasks[s.current], usedFullQuantum);
    s.(tasks := s.tasks[s.current := t],
       queues := s.queues[t.level := s.queues[t.level] + [s.current]],
       current := -1)
  }

  ghost predicate CurrentInRange(s: Sys) {
    s.current == -1 || (0 <= s.current < |s.tasks| && 0 <= s.tasks[s.current].level < NUM_QUEUES)
  }

  ghost function Yield(s: Sys, usedFullQuantum: bool): Sys
    requires WellFormed(s) && PidsInRange(s) && CurrentInRange(s)
  {
    if s.current == -1 then s else Schedule(Requeued(s, usedFullQuantum))
  }

  function Boosted(t: Tcb): Tcb {
    t.(level := 0, quantum := Quantum(0))
  }

  ghost function Boost(s: Sys): Sys
    requires WellFormed(s)
  {
    var low := s.queues[1] + s.queues[2];
    s.(tasks := seq(|s.tasks|, i requires 0 <= i < |s.tasks| =>
                      if i in low then Boosted(s.tasks[i]) else s.tasks[i]),
       queues := [s.queues[0] + low, [], []])
  }

  /** One tick of work and quantum for the running task. */
  function Worked(t: Tcb): Tcb {
    t.(work := if t.work > 0 then t.work - 1 else t.work, quantum := t.quantum - 1)
  }

  ghost function Tick(s: Sys): Sys
    requires WellFormed(s) && PidsInRange(s) && CurrentInRange(s)
  {
    if s.current == -1 then Schedule(s)
    else
      var t := s.tasks[s.current];
      if t.work == 1 then
        Terminate(s.(tasks := s.tasks[s.current := t.(work := 0)]), s.current).(current := -1)
      else
        var s' := s.(tasks := s.tasks[s.current := Worked(t)]);
        if t.quantum - 1 <= 0 then Yield(s', true) else s'
  }

  ghost function SetWork(s: Sys, pid: int, units: int): Sys {
    if !Alive(s, pid) then s else s.(tasks := s.tasks[pid := s.tasks[pid].(work := units)])
  }
}
