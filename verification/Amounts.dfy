/** What the resource operations move, and when a request is denied. */
module Amounts {
  import opened SchedulerState
  import opened Banker
  import opened Mlfq

  /** From `s` to `s'` the pid got `d` from the pool, of each resource as much as `d` says; nothing else changed. */
  ghost predicate Moves(s: Sys, s': Sys, pid: int, d: seq<int>) {
    && 0 <= pid < |s.tasks| == |s'.tasks| && |d| == |s.available| == |s'.available|
    && WellFormed(s) && WellFormed(s')
    && s'.count == s.count && s'.current == s.current && s'.queues == s.queues
    && (forall i :: 0 <= i < |s.tasks| && i != pid ==> s'.tasks[i] == s.tasks[i])
    && (var (t, t') := (s.tasks[pid], s'.tasks[pid]);
        && t' == t.(allocation := t'.allocation, need := t'.need)
        && forall r :: 0 <= r < |d| ==>
             s.available[r] - s'.available[r] == t'.allocation[r] - t.allocation[r] == t.need[r] - t'.need[r] == d[r])
  }

  lemma SameEntries(a: seq<int>, b: seq<int>)
    requires |a| == |b| && forall r :: 0 <= r < |a| ==> a[r] == b[r]
    ensures a == b
  {
  }

  /** Moving something there and back changes nothing. */
  lemma MovesBack(s: Sys, m: Sys, s': Sys, pid: int, d: seq<int>, e: seq<int>)
    requires Moves(s, m, pid, d) && Moves(m, s', pid, e) && forall r :: 0 <= r < |d| ==> d[r] + e[r] == 0
    ensures s' == s
  {
    var t, u, t' := s.tasks[pid], m.tasks[pid], s'.tasks[pid];
    forall r | 0 <= r < |d|
      ensures s'.available[r] == s.available[r] && t'.allocation[r] == t.allocation[r] && t'.need[r] == t.need[r]
    {
      assert s.available[r] - m.available[r] == d[r] && m.available[r] - s'.available[r] == e[r];
      assert u.allocation[r] - t.allocation[r] == d[r] && t'.allocation[r] - u.allocation[r] == e[r];
      assert t.need[r] - u.need[r] == d[r] && u.need[r] - t'.need[r] == e[r];
    }
    SameEntries(s'.available, s.available);
    SameEntries(t'.allocation, t.allocation);
    SameEntries(t'.need, t.need);
    assert s'.tasks == s.tasks;
  }

  // ----- requests -----

  /** A granted request moves exactly the amounts asked for. */
  lemma RequestMoves(s: Sys, pid: int, v: seq<int>)
    requires WellFormed(s) && |v| == |s.available| && Granted(s, pid, v)
    ensures Moves(s, Request(s, pid, v), pid, v)
  {
  }

  /** Granted all it needs, a task holds its maximum demand and needs nothing more. */
  lemma FullGrantFills(s: Sys, total: seq<int>, pid: int)
    requires BankerInv(s, total) && Alive(s, pid) && Granted(s, pid, s.tasks[pid].need)
    ensures var t := Request(s, pid, s.tasks[pid].need).tasks[pid];
      t.allocation == s.tasks[pid].maxDemand && forall r :: 0 <= r < |t.need| ==> t.need[r] == 0
  {
    assert TcbOk(s.tasks[pid], |total|);
    RequestMoves(s, pid, s.tasks[pid].need);
    SameEntries(Request(s, pid, s.tasks[pid].need).tasks[pid].allocation, s.tasks[pid].maxDemand);
  }

  /** A request within need and availability is denied exactly when its grant would leave some tasks of which,
  the others gone, none could ever finish. */
  lemma DeniedIffDeadlock(s: Sys, total: seq<int>, pid: int, v: seq<int>)
    requires BankerInv(s, total) && Alive(s, pid) && |v| == |total|
    requires Leq(v, s.tasks[pid].need) && Leq(v, s.available)
    requires forall r :: 0 <= r < |v| ==> -s.tasks[pid].allocation[r] <= v[r]
    ensures WellFormed(Trial(s, pid, v)) && Moves(s, Trial(s, pid, v), pid, v)
    ensures !Granted(s, pid, v) <==> exists done: set<int> :: Stuck(Trial(s, pid, v), done)
  {
    TrialInv(s, total, pid, v);
    SafeIffNotStuck(Trial(s, pid, v));
  }

  // ----- releases -----

  /** A release moves back, of each resource, all of the amount named if the pid holds it, else nothing. */
  lemma ReleaseMoves(s: Sys, pid: int, v: seq<int>, d: seq<int>)
    requires WellFormed(s) && |v| == |d| == |s.available| && Alive(s, pid)
    requires forall r :: 0 <= r < |v| ==> d[r] == if v[r] <= s.tasks[pid].allocation[r] then -v[r] else 0
    ensures Moves(s, Release(s, pid, v), pid, d)
  {
  }

  function Negated(v: seq<int>): (d: seq<int>)
    ensures |d| == |v| && forall r :: 0 <= r < |v| ==> d[r] == -v[r]
  {
    seq(|v|, r requires 0 <= r < |v| => -v[r])
  }

  /** Releasing what was just granted restores every table. */
  lemma ReleaseUndoesRequest(s: Sys, total: seq<int>, pid: int, v: seq<int>)
    requires BankerInv(s, total) && |v| == |total| && Granted(s, pid, v)
    requires forall r :: 0 <= r < |v| ==> 0 <= v[r]
    ensures WellFormed(Request(s, pid, v)) && Release(Request(s, pid, v), pid, v) == s
  {
    assert TcbOk(s.tasks[pid], |total|);
    RequestMoves(s, pid, v);
    var m, d := Request(s, pid, v), Negated(v);
    forall r | 0 <= r < |v| ensures v[r] <= m.tasks[pid].allocation[r] {
      assert m.tasks[pid].allocation[r] - s.tasks[pid].allocation[r] == v[r];
    }
    ReleaseMoves(m, pid, v, d);
    MovesBack(s, m, Release(m, pid, v), pid, v, d);
  }

  /** ... and granting again what was just released. */
  lemma RequestUndoesRelease(s: Sys, total: seq<int>, pid: int, v: seq<int>)
    requires BankerInv(s, total) && Safe(s) && |v| == |total| && Alive(s, pid)
    requires forall r :: 0 <= r < |v| ==> 0 <= v[r] <= s.tasks[pid].allocation[r]
    ensures WellFormed(Release(s, pid, v)) && Request(Release(s, pid, v), pid, v) == s
  {
    assert TcbOk(s.tasks[pid], |total|);
    var m, d := Release(s, pid, v), Negated(v);
    ReleaseMoves(s, pid, v, d);
    forall r | 0 <= r < |v| ensures v[r] <= m.tasks[pid].need[r] && v[r] <= m.available[r] {
      assert s.tasks[pid].need[r] - m.tasks[pid].need[r] == -v[r] && s.available[r] - m.available[r] == -v[r];
    }
    TrialMoves(m, pid, v);
    MovesBack(s, m, Trial(m, pid, v), pid, d, v);
    assert Granted(m, pid, v);
  }

  lemma TrialMoves(s: Sys, pid: int, v: seq<int>)
    requires WellFormed(s) && |v| == |s.available| && 0 <= pid < |s.tasks|
    ensures WellFormed(Trial(s, pid, v)) && Moves(s, Trial(s, pid, v), pid, v)
  {
  }

  /** Releasing all it holds leaves a task with nothing, its whole maximum still to ask for, and the pool
  larger by just that. */
  lemma ReleaseAll(s: Sys, total: seq<int>, pid: int)
    requires BankerInv(s, total) && Alive(s, pid)
    ensures var (held, s') := (s.tasks[pid].allocation, Release(s, pid, s.tasks[pid].allocation));
      && s'.tasks[pid].need == s.tasks[pid].maxDemand
      && forall r :: 0 <= r < |held| ==>
           s'.tasks[pid].allocation[r] == 0 && s'.available[r] == s.available[r] + held[r]
  {
    assert TcbOk(s.tasks[pid], |total|);
    var held := s.tasks[pid].allocation;
    var d := Negated(held);
    ReleaseMoves(s, pid, held, d);
    SameEntries(Release(s, pid, held).tasks[pid].need, s.tasks[pid].maxDemand);
  }

  // ----- creating and ending tasks -----

  /** A task is refused exactly when every slot is taken; otherwise it gets the first slot that is not. */
  lemma RefusedIffFull(s: Sys, total: seq<int>)
    requires BankerInv(s, total)
    ensures NewPid(s) == -1 <==> forall i :: 0 <= i < |s.tasks| ==> Alive(s, i)
    ensures NewPid(s) != -1 ==> 0 <= NewPid(s) < |s.tasks| && !Alive(s, NewPid(s))
    ensures forall i :: 0 <= i < NewPid(s) ==> Alive(s, i)
  {
    var free := FirstFree(s.tasks, 0);
    assert forall i :: 0 <= i < free ==> Alive(s, i);
    if i :| 0 <= i < |s.tasks| && !Alive(s, i) {
      assert free <= i;
      SetBelow(AliveSet(s) + {i}, |s.tasks|);
    } else {
      assert free < |s.tasks| ==> !Alive(s, free);
    }
  }

  /** A new task may ask for all of its demand and holds nothing; nothing leaves the pool. */
  lemma CreateGivesNothing(s: Sys, max: seq<int>)
    requires WellFormed(s) && |max| == |s.available| && NewPid(s) != -1
    ensures var (s', pid) := (Create(s, max), NewPid(s));
      && s'.available == s.available && s'.current == s.current
      && s'.tasks[pid].maxDemand == s'.tasks[pid].need == max
      && |s'.tasks[pid].allocation| == |max| && forall r :: 0 <= r < |max| ==> s'.tasks[pid].allocation[r] == 0
  {
  }

  /** Refused creation, and any other operation on a pid that is not alive, changes nothing. */
  lemma NothingHappens(s: Sys, max: seq<int>, pid: int, units: int)
    requires WellFormed(s) && |max| == |s.available|
    ensures NewPid(s) == -1 ==> Create(s, max) == s
    ensures !Alive(s, pid) ==> Request(s, pid, max) == s && Release(s, pid, max) == s
    ensures !Alive(s, pid) ==> Terminate(s, pid) == s && SetWork(s, pid, units) == s
  {
  }

  /** Ending a live task returns all it holds to the pool and touches no other task, queued or not. */
  lemma TerminateReturns(s: Sys, pid: int)
    requires WellFormed(s) && Alive(s, pid)
    ensures var s' := Terminate(s, pid);
      && AliveSet(s') == AliveSet(s) - {pid} && s'.count == s.count - 1
      && s'.queues == s.queues && s'.current == s.current
      && (forall i :: 0 <= i < |s.tasks| && i != pid ==> s'.tasks[i] == s.tasks[i])
      && (forall r :: 0 <= r < |s.available| ==> s'.available[r] == s.available[r] + s.tasks[pid].allocation[r])
  {
    assert forall i :: Alive(Terminate(s, pid), i) <==> Alive(s, i) && i != pid;
  }
}
