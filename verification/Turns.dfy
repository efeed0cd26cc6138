/** Who runs when: how long a dispatched task keeps the processor, and who comes after it. */
module Turns {
  import opened SchedulerState
  import opened Mlfq

  /** Everything queued at level `l` or above, in the order of dispatch. */
  function UpTo(s: Sys, l: int): seq<int>
    requires |s.queues| == NUM_QUEUES
  {
    if l == 0 then s.queues[0] else if l == 1 then s.queues[0] + s.queues[1] else Line(s)
  }

  /** Everything queued below level `l`. */
  function Beyond(s: Sys, l: int): seq<int>
    requires |s.queues| == NUM_QUEUES
  {
    if l == 0 then s.queues[1] + s.queues[2] else if l == 1 then s.queues[2] else []
  }

  predicate LastIs(queue: seq<int>, pid: int) {
    queue != [] && queue[|queue| - 1] == pid
  }

  /** The running task of `s` gave up the processor to those queued at level `l` or above, and stands behind
  them, last at level `l`: whoever is first of these runs in `s'`, and nobody else's place, standing or work
  is changed. */
  ghost predicate HandsOver(s: Sys, s': Sys, l: int)
    requires |s.queues| == |s'.queues| == NUM_QUEUES && 0 <= l < NUM_QUEUES
  {
    && |s'.tasks| == |s.tasks| && s'.available == s.available && s'.count == s.count
    && [s'.current] + Line(s') == UpTo(s, l) + [s.current] + Beyond(s, l)
    && (s'.current != s.current ==> LastIs(s'.queues[l], s.current))
    && (forall i :: 0 <= i < |s.tasks| && i != s.current ==>
         s'.tasks[i] == if i == s'.current then s.tasks[i].(state := Running) else s.tasks[i])
  }

  /** The level a yield leaves a task at. */
  function LevelAfter(level: int, full: bool): (l: int)
    ensures 0 <= level < 3 ==> level <= l < 3
  {
    if full && level < 2 then level + 1 else level
  }

  /** Appending to the queue of level `l` puts a pid behind everything up to that level. */
  lemma TailOfLevel(s: Sys, m: Sys, l: int, pid: int)
    requires |s.queues| == NUM_QUEUES && 0 <= l < NUM_QUEUES
    requires m.queues == s.queues[l := s.queues[l] + [pid]]
    ensures Line(m) == UpTo(s, l) + [pid] + Beyond(s, l)
  {
    if l == 0 {
      assert Line(m) == s.queues[0] + [pid] + (s.queues[1] + s.queues[2]);
    } else if l == 1 {
      assert Line(m) == s.queues[0] + s.queues[1] + [pid] + s.queues[2];
    } else {
      assert Line(m) == Line(s) + [pid] + [];
    }
  }

  /** Who stands last in its queue still does after a dispatch of somebody else. */
  lemma StaysLast(m: Sys, l: int, pid: int)
    requires WellFormed(m) && PidsInRange(m) && 0 <= l < NUM_QUEUES && LastIs(m.queues[l], pid)
    ensures Schedule(m).current != pid ==> LastIs(Schedule(m).queues[l], pid)
  {
    var q := TopQueue(m.queues);
    if q == l && m.queues[l][0] != pid {
      assert |m.queues[l]| > 1;
      assert Schedule(m).queues[l] == m.queues[l][1..];
    }
  }

  lemma DispatchLine(m: Sys)
    requires QueueInv(m) && Line(m) != []
    ensures PidsInRange(m) && [Schedule(m).current] + Line(Schedule(m)) == Line(m)
  {
    ScheduleTakesFirst(m);
    assert Line(m) == [Line(m)[0]] + Line(m)[1..];
  }

  lemma DispatchTasks(m: Sys)
    requires QueueInv(m) && Line(m) != []
    ensures PidsInRange(m) && |Schedule(m).tasks| == |m.tasks|
    ensures Schedule(m).available == m.available && Schedule(m).count == m.count
    ensures forall i :: 0 <= i < |m.tasks| ==>
      Schedule(m).tasks[i] == if i == Schedule(m).current then m.tasks[i].(state := Running) else m.tasks[i]
  {
    InvRanges(m);
  }

  /** A state whose running task was put back at level `l` hands over by dispatching. */
  lemma DispatchHandsOver(s: Sys, m: Sys, l: int)
    requires WellFormed(s) && QueueInv(m) && 0 <= s.current < |s.tasks| == |m.tasks|
    requires 0 <= l < NUM_QUEUES && LastIs(m.queues[l], s.current)
    requires m.available == s.available && m.count == s.count
    requires Line(m) == UpTo(s, l) + [s.current] + Beyond(s, l)
    requires forall i :: 0 <= i < |s.tasks| && i != s.current ==> m.tasks[i] == s.tasks[i]
    ensures PidsInRange(m) && HandsOver(s, Schedule(m), l)
    ensures Schedule(m).tasks[s.current]
         == m.tasks[s.current].(state := if Schedule(m).current == s.current then Running else m.tasks[s.current].state)
  {
    DispatchLine(m);
    DispatchTasks(m);
    StaysLast(m, l, s.current);
  }

  lemma Heads(x: int, rest: seq<int>, up: seq<int>, c: int, beyond: seq<int>)
    requires [x] + rest == up + [c] + beyond
    ensures x == if up == [] then c else up[0]
    ensures rest == if up == [] then beyond else up[1..] + [c] + beyond
  {
    var whole := up + [c] + beyond;
    assert whole[0] == x && whole[1..] == rest;
  }

  /** Who is first after a hand-over. The one that handed over runs on exactly if nobody stands at its level
  or above; otherwise the first of those runs. */
  lemma FirstAfter(s: Sys, s': Sys, l: int)
    requires QueueInv(s) && s.current != -1 && 0 <= l < NUM_QUEUES && |s'.queues| == NUM_QUEUES && HandsOver(s, s', l)
    ensures s'.current == if UpTo(s, l) == [] then s.current else UpTo(s, l)[0]
    ensures s'.current == s.current <==> UpTo(s, l) == []
  {
    Heads(s'.current, Line(s'), UpTo(s, l), s.current, Beyond(s, l));
    LineDistinct(s);
    if UpTo(s, l) != [] { assert UpTo(s, l)[0] == Line(s)[0]; }
  }

  /** A yield, early or not: the yielder is put behind everyone ready at or above the level it comes to, the
  first of these runs, and all others keep their order. */
  lemma YieldHandsOver(s: Sys, full: bool)
    requires QueueInv(s) && s.current != -1
    ensures PidsInRange(s) && CurrentInRange(s) && QueueInv(Yield(s, full))
    ensures 0 <= s.tasks[s.current].level < NUM_QUEUES
    ensures var (t, l, s') := (s.tasks[s.current], LevelAfter(s.tasks[s.current].level, full), Yield(s, full));
      && HandsOver(s, s', l)
      && s'.current == (if UpTo(s, l) == [] then s.current else UpTo(s, l)[0])
      && (s'.current == s.current <==> UpTo(s, l) == [])
      && s'.tasks[s.current] == t.(state := if s'.current == s.current then Running else Ready, level := l,
                                   quantum := if l != t.level then Quantum(l) else t.quantum)
  {
    assert TaskPlaced(s, s.current);
    InvRanges(s);
    YieldKeeps(s, full);
    RequeuedKeeps(s, full);
    var l := LevelAfter(s.tasks[s.current].level, full);
    TailOfLevel(s, Requeued(s, full), l, s.current);
    DispatchHandsOver(s, Requeued(s, full), l);
    FirstAfter(s, Yield(s, full), l);
  }

  /** Nobody to yield, nothing happens: a yield does not dispatch. */
  lemma IdleYield(s: Sys, full: bool)
    requires QueueInv(s) && s.current == -1
    ensures PidsInRange(s) && CurrentInRange(s) && Yield(s, full) == s
  {
    InvRanges(s);
  }

  // ----- slices -----

  /** The ticks a dispatched task runs for: its quantum, at least one, or its work if that is less. */
  function Slice(t: Tcb): (n: int)
    ensures n >= 1
  {
    var q := if t.quantum < 1 then 1 else t.quantum;
    if 0 < t.work < q then t.work else q
  }

  /** The task after it has run for `k` ticks. */
  function RanFor(t: Tcb, k: int): Tcb {
    t.(quantum := t.quantum - k, work := if t.work > 0 then t.work - k else t.work)
  }

  /** Until its slice is over the running task keeps the processor, and everything else stays as it is. */
  lemma {:induction false} SliceKept(s: Sys, k: nat)
    requires QueueInv(s) && s.current != -1 && k < Slice(s.tasks[s.current])
    ensures Ticks(s, k) == s.(tasks := s.tasks[s.current := RanFor(s.tasks[s.current], k)])
    decreases k
  {
    var c, t := s.current, s.tasks[s.current];
    if k == 0 {
      assert s.tasks[c := RanFor(t, 0)] == s.tasks;
    } else {
      TickKeeps(s);
      InvRanges(s);
      assert Tick(s).tasks[c] == RanFor(t, 1);
      SliceKept(Tick(s), k - 1);
      assert RanFor(RanFor(t, 1), k - 1) == RanFor(t, k);
      assert Tick(s).tasks[c := RanFor(t, k)] == s.tasks[c := RanFor(t, k)];
    }
  }

  /** The running task after its slice, when its allotment expired: demoted and refilled above the lowest level. */
  function Expired(t: Tcb, again: bool): Tcb {
    var l := LevelAfter(t.level, true);
    RanFor(t, Slice(t)).(state := if again then Running else Ready, level := l,
                         quantum := if l != t.level then Quantum(l) else t.quantum - Slice(t))
  }

  lemma ExpiryDispatches(s: Sys, m: Sys)
    requires QueueInv(s) && s.current != -1 && CurrentInRange(s) && s.tasks[s.current].quantum <= 1
    requires WellFormed(Ran(s)) && CurrentInRange(Ran(s)) && m == Requeued(Ran(s), true) && QueueInv(m)
    ensures PidsInRange(m) && HandsOver(s, Schedule(m), LevelAfter(s.tasks[s.current].level, true))
    ensures Schedule(m).tasks[s.current]
         == m.tasks[s.current].(state := if Schedule(m).current == s.current then Running else Ready)
  {
    var l := LevelAfter(s.tasks[s.current].level, true);
    TailOfLevel(s, m, l, s.current);
    DispatchHandsOver(s, m, l);
  }

  /** The state with one tick counted against the running task. */
  function Ran(s: Sys): Sys
    requires 0 <= s.current < |s.tasks|
  {
    s.(tasks := s.tasks[s.current := Worked(s.tasks[s.current])])
  }

  lemma ExpiryTick(s: Sys)
    requires QueueInv(s) && s.current != -1
    requires s.tasks[s.current].quantum <= 1 && s.tasks[s.current].work != 1
    ensures PidsInRange(s) && CurrentInRange(s) && WellFormed(Ran(s)) && CurrentInRange(Ran(s))
    ensures var m := Requeued(Ran(s), true); QueueInv(m) && PidsInRange(m) && Tick(s) == Schedule(m)
  {
    InvRanges(s);
    ExpireKeeps(s);
    InvRanges(Requeued(Ran(s), true));
  }

  lemma ExpiredIs(s: Sys, again: bool)
    requires 0 <= s.current < |s.tasks| && 0 <= s.tasks[s.current].level < NUM_QUEUES && WellFormed(Ran(s))
    requires s.tasks[s.current].quantum <= 1 && s.tasks[s.current].work != 1
    ensures Requeued(Ran(s), true).tasks[s.current].(state := if again then Running else Ready)
         == Expired(s.tasks[s.current], again)
  {
  }

  /** The last tick of a slice, when the work is not done: the allotment expires. */
  lemma ExpiryHandsOver(s: Sys)
    requires QueueInv(s) && s.current != -1
    requires s.tasks[s.current].quantum <= 1 && s.tasks[s.current].work != 1
    ensures PidsInRange(s) && CurrentInRange(s)
    ensures HandsOver(s, Tick(s), LevelAfter(s.tasks[s.current].level, true))
    ensures Tick(s).tasks[s.current] == Expired(s.tasks[s.current], Tick(s).current == s.current)
  {
    ExpiryTick(s);
    ExpiryDispatches(s, Requeued(Ran(s), true));
    ExpiredIs(s, Tick(s).current == s.current);
  }

  lemma TicksOnce(s: Sys)
    requires QueueInv(s)
    ensures PidsInRange(s) && CurrentInRange(s) && Ticks(s, 1) == Tick(s)
  {
    InvRanges(s);
    TickKeeps(s);
    assert Ticks(Tick(s), 0) == Tick(s);
  }

  /** The first tick of a slice of several only counts. */
  lemma SliceStep(s: Sys)
    requires QueueInv(s) && s.current != -1 && Slice(s.tasks[s.current]) > 1
    ensures var (t, s') := (s.tasks[s.current], Ticks(s, 1));
      && s' == s.(tasks := s.tasks[s.current := RanFor(t, 1)])
      && Slice(s'.tasks[s.current]) == Slice(t) - 1
      && Ticks(s, Slice(t)) == Ticks(s', Slice(t) - 1)
  {
    SliceKept(s, 1);
    TicksOnce(s);
  }

  /** After its slice the running task has ended, if its work was as short; the processor is then idle and
  everyone else's place is unchanged. */
  lemma {:induction false} SliceCompletes(s: Sys)
    requires QueueInv(s) && s.current != -1
    requires Slice(s.tasks[s.current]) == s.tasks[s.current].work
    ensures var s' := Ticks(s, Slice(s.tasks[s.current]));
      && |s'.tasks| == |s.tasks| && s'.current == -1 && s'.queues == s.queues
      && s'.tasks[s.current].state == Terminated
      && s'.available == Add(s.available, s.tasks[s.current].allocation)
      && forall i :: 0 <= i < |s.tasks| && i != s.current ==> s'.tasks[i] == s.tasks[i]
    decreases Slice(s.tasks[s.current])
  {
    TicksOnce(s);
    if Slice(s.tasks[s.current]) > 1 {
      SliceStep(s);
      SliceCompletes(Ticks(s, 1));
    }
  }

  lemma {:induction false} SliceExpires(s: Sys)
    requires QueueInv(s) && s.current != -1
    requires Slice(s.tasks[s.current]) != s.tasks[s.current].work
    ensures 0 <= s.tasks[s.current].level < NUM_QUEUES
    ensures var (t, s') := (s.tasks[s.current], Ticks(s, Slice(s.tasks[s.current])));
      && HandsOver(s, s', LevelAfter(t.level, true))
      && s'.tasks[s.current] == Expired(t, s'.current == s.current)
    decreases Slice(s.tasks[s.current])
  {
    TicksOnce(s);
    assert TaskPlaced(s, s.current);
    var t := s.tasks[s.current];
    if Slice(t) == 1 {
      ExpiryHandsOver(s);
    } else {
      SliceStep(s);
      var m := Ticks(s, 1);
      SliceExpires(m);
      SameHandOver(s, m, Ticks(s, Slice(t)), LevelAfter(t.level, true));
      SameExpiry(t, Ticks(s, Slice(t)).current == s.current);
    }
  }

  /** Otherwise it stands behind everyone ready at or above the level it comes to, and the first of these
  runs; it runs on exactly if there is none. */
  lemma SliceHandsOver(s: Sys)
    requires QueueInv(s) && s.current != -1
    requires Slice(s.tasks[s.current]) != s.tasks[s.current].work
    ensures 0 <= s.tasks[s.current].level < NUM_QUEUES
    ensures var (t, l, s') := (s.tasks[s.current], LevelAfter(s.tasks[s.current].level, true),
                               Ticks(s, Slice(s.tasks[s.current])));
      && HandsOver(s, s', l)
      && s'.current == (if UpTo(s, l) == [] then s.current else UpTo(s, l)[0])
      && (s'.current == s.current <==> UpTo(s, l) == [])
      && s'.tasks[s.current] == Expired(t, s'.current == s.current)
  {
    SliceExpires(s);
    FirstAfter(s, Ticks(s, Slice(s.tasks[s.current])), LevelAfter(s.tasks[s.current].level, true));
  }

  lemma SameExpiry(t: Tcb, again: bool)
    requires Slice(t) > 1 && Slice(t) != t.work
    ensures Expired(RanFor(t, 1), again) == Expired(t, again)
  {
  }

  /** What the running task itself was like does not matter to a hand-over. */
  lemma SameHandOver(s: Sys, m: Sys, s': Sys, l: int)
    requires 0 <= s.current < |s.tasks| && |s.queues| == |s'.queues| == NUM_QUEUES
    requires 0 <= l < NUM_QUEUES
    requires |m.tasks| == |s.tasks| && m == s.(tasks := s.tasks[s.current := m.tasks[s.current]])
    requires HandsOver(m, s', l)
    ensures HandsOver(s, s', l) && UpTo(s, l) == UpTo(m, l)
  {
  }

  /** An idle tick dispatches the first in line. */
  lemma IdleTick(s: Sys)
    requires QueueInv(s) && s.current == -1
    ensures Line(s) == [] ==> Ticks(s, 1) == s
    ensures Line(s) != [] ==> [Ticks(s, 1).current] + Line(Ticks(s, 1)) == Line(s)
  {
    ScheduleTakesFirst(s);
    TicksOnce(s);
    if Line(s) != [] { assert Line(s) == [Line(s)[0]] + Line(s)[1..]; }
  }
}
