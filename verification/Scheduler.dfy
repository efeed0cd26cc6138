/** The scheduler in the form the kernel runs it: fixed tables, updated in place.

Every operation is proved to do to the tables what its namesake in `SchedulerState` does to their value.
*/
module Scheduler {
  import opened SchedulerState
  import opened Banker
  import opened Mlfq

  class Kernel {
    const tasks: array<Tcb>
    const available: array<int>
    const queues: array2<int>
    const queueCounts: array<int>
    var taskCount: int
    var currentPid: int

    ghost predicate Valid()
      reads this, tasks, available, queueCounts
    {
      && available != queueCounts
      && RowsOk()
      && queues.Length1 == tasks.Length
      && (forall i :: 0 <= i < tasks.Length ==> Shaped(tasks[i], available.Length))
    }

    ghost function Row(q: int): (row: seq<int>)
      requires 0 <= q < queues.Length0 && q < queueCounts.Length && 0 <= queueCounts[q] <= queues.Length1
      reads queueCounts, queues
      ensures |row| == queueCounts[q]
      ensures forall k :: 0 <= k < |row| ==> row[k] == queues[q, k]
    {
      seq(queueCounts[q], k requires 0 <= q < queues.Length0 && 0 <= k < queues.Length1 reads queues => queues[q, k])
    }

    ghost predicate RowsOk()
      reads queueCounts
    {
      && queues.Length0 == queueCounts.Length == NUM_QUEUES
      && (forall q :: 0 <= q < NUM_QUEUES ==> 0 <= queueCounts[q] <= queues.Length1)
    }

    ghost function Rows(): seq<seq<int>>
      requires RowsOk()
      reads queueCounts, queues
    {
      [Row(0), Row(1), Row(2)]
    }

    ghost function View(): (s: Sys)
      requires Valid()
      reads this, tasks, available, queueCounts, queues
      ensures WellFormed(s)
    {
      Sys(tasks[..], taskCount, currentPid, Rows(), available[..])
    }

    constructor (slots: nat, resources: seq<int>)
      ensures Valid() && View() == Init(slots, resources)
      ensures fresh(tasks) && fresh(available) && fresh(queues) && fresh(queueCounts)
    {
      var z := Zeros(|resources|);
      tasks := new Tcb[slots](_ => Tcb(Terminated, 0, 0, 0, z, z, z));
      available := new int[|resources|](i requires 0 <= i < |resources| => resources[i]);
      queues := new int[NUM_QUEUES, slots]((_, _) => 0);
      queueCounts := new int[NUM_QUEUES](_ => 0);
      taskCount, currentPid := 0, -1;
      new;
      assert tasks[..] == Init(slots, resources).tasks;
      assert available[..] == resources;
      assert Row(0) == [] && Row(1) == [] && Row(2) == [];
    }

    method TaskCreate(max: seq<int>) returns (pid: int)
      requires Valid() && |max| == available.Length
      requires NewPid(View()) == -1 || queueCounts[0] < tasks.Length
      modifies this`taskCount, tasks, queues, queueCounts
      ensures Valid() && pid == NewPid(old(View())) && View() == Create(old(View()), max)
    {
      if taskCount >= tasks.Length {
        return -1;
      }
      for i := 0 to tasks.Length
        invariant FirstFree(tasks[..], i) == FirstFree(tasks[..], 0)
        invariant Valid() && View() == old(View()) && tasks[..] == old(tasks[..]) && taskCount == old(taskCount)
        invariant queueCounts[0] == old(queueCounts[0])
      {
        if tasks[i].state == Terminated {
          InstallTask(i, max);
          EnqueueAt(0, i);
          taskCount := taskCount + 1;
          return i;
        }
      }
      return -1;
    }

    /** Fills a free slot. */
    method InstallTask(i: nat, max: seq<int>)
      requires Valid() && |max| == available.Length && i < tasks.Length
      modifies tasks
      ensures Valid() && tasks[..] == old(tasks[..])[i := Fresh(max)]
    {
      tasks[i] := tasks[i].(state := Ready, level := 0, quantum := Quantum(0), work := -1);
      for r := 0 to available.Length
        invariant Valid()
        invariant forall j :: 0 <= j < tasks.Length && j != i ==> tasks[j] == old(tasks[j])
        invariant var t := tasks[i];
          t == Fresh(max).(maxDemand := t.maxDemand, allocation := t.allocation, need := t.need)
        invariant forall k :: 0 <= k < r ==>
          tasks[i].maxDemand[k] == tasks[i].need[k] == max[k] && tasks[i].allocation[k] == 0
      {
        var t := tasks[i];
        tasks[i] := t.(maxDemand := t.maxDemand[r := max[r]],
                       allocation := t.allocation[r := 0],
                       need := t.need[r := max[r]]);
      }
      assert tasks[i].maxDemand == max && tasks[i].need == max && tasks[i].allocation == Zeros(|max|);
    }

    /** Appends to a queue. */
    method EnqueueAt(q: nat, pid: int)
      requires RowsOk() && q < NUM_QUEUES && queueCounts[q] < queues.Length1
      modifies queues, queueCounts
      ensures RowsOk() && Rows() == old(Rows())[q := old(Rows())[q] + [pid]]
      ensures forall p :: 0 <= p < NUM_QUEUES && p != q ==> queueCounts[p] == old(queueCounts[p])
    {
      queues[q, queueCounts[q]] := pid;
      queueCounts[q] := queueCounts[q] + 1;
      assert Row(q) == old(Row(q)) + [pid];
      assert forall p :: 0 <= p < NUM_QUEUES && p != q ==> Row(p) == old(Row(p));
    }

    method TaskTerminate(pid: int)
      requires Valid()
      modifies this`taskCount, tasks, available
      ensures Valid() && View() == Terminate(old(View()), pid)
    {
      if pid < 0 || pid >= tasks.Length || tasks[pid].state == Terminated {
        return;
      }
      ghost var t0 := tasks[pid];
      for r := 0 to available.Length
        invariant Valid()
        invariant forall j :: 0 <= j < tasks.Length && j != pid ==> tasks[j] == old(tasks[j])
        invariant tasks[pid] == t0.(allocation := tasks[pid].allocation) && taskCount == old(taskCount)
        invariant forall k :: 0 <= k < available.Length ==>
          tasks[pid].allocation[k] == (if k < r then 0 else t0.allocation[k])
          && available[k] == old(available[k]) + if k < r then t0.allocation[k] else 0
      {
        var t := tasks[pid];
        available[r] := available[r] + t.allocation[r];
        tasks[pid] := t.(allocation := t.allocation[r := 0]);
      }
      tasks[pid] := tasks[pid].(state := Terminated);
      taskCount := taskCount - 1;
      ghost var want := Terminate(old(View()), pid);
      assert tasks[pid].allocation == Zeros(|t0.allocation|);
      assert tasks[..] == want.tasks;
      assert available[..] == want.available;
      assert View().queues == want.queues;
    }

    // ----- the Banker's algorithm -----

    /** Whether what is in `work` covers what task `i` may still ask for. */
    method CanSatisfy(i: nat, work: array<int>) returns (can: bool)
      requires Valid() && i < tasks.Length && work.Length == available.Length
      ensures can <==> forall r :: 0 <= r < work.Length ==> tasks[i].need[r] <= work[r]
    {
      for r := 0 to available.Length
        invariant forall k :: 0 <= k < r ==> tasks[i].need[k] <= work[k]
      {
        if tasks[i].need[r] > work[r] {
          return false;
        }
      }
      return true;
    }

    /** Adds what task `i` holds to `work`. */
    method Reclaim(i: nat, work: array<int>)
      requires Valid() && i < tasks.Length && work.Length == available.Length
      requires work != available && work != queueCounts
      modifies work
      ensures forall r :: 0 <= r < work.Length ==> work[r] == old(work[r]) + tasks[i].allocation[r]
    {
      for r := 0 to available.Length
        invariant forall k :: 0 <= k < work.Length ==>
          work[k] == old(work[k]) + if k < r then tasks[i].allocation[k] else 0
      {
        work[r] := work[r] + tasks[i].allocation[r];
      }
    }

    /** One pass over the slots, letting every task finish that can. */
    method Scan(work: array<int>, finish: array<bool>, ghost s: Sys, ghost order: seq<int>, n: int)
      returns (found: bool, count: int, ghost done: seq<int>)
      requires Valid() && s == View() && Progress(s, work[..], finish[..], order, n)
      requires work != available && work != queueCounts
      modifies work, finish
      ensures Progress(s, work[..], finish[..], done, count)
      ensures found ==> count > n
      ensures !found ==> count == n && NoneCan(s, Elems(done), tasks.Length)
    {
      found, count, done := false, n, order;
      for i := 0 to tasks.Length
        invariant Valid() && s.tasks == tasks[..]
        invariant Progress(s, work[..], finish[..], done, count)
        invariant found ==> count > n
        invariant !found ==> count == n && NoneCan(s, Elems(done), i)
      {
        if !finish[i] {
          var canSatisfy := CanSatisfy(i, work);
          assert canSatisfy <==> CanFinish(s, i, Elems(done));
          if canSatisfy {
            LetFinish(i, work, finish, s, done, count);
            found := true;
            count := count + 1;
            done := done + [i];
          }
        }
      }
    }

    /** Task `i` finishes and gives back what it holds. */
    method LetFinish(i: nat, work: array<int>, finish: array<bool>,
                     ghost s: Sys, ghost done: seq<int>, ghost count: int)
      requires Valid() && s.tasks == tasks[..] && Progress(s, work[..], finish[..], done, count)
      requires work != available && work != queueCounts
      requires i < finish.Length && !finish[i] && CanFinish(s, i, Elems(done))
      modifies work, finish
      ensures Progress(s, work[..], finish[..], done + [i], count + 1)
    {
      ghost var work0, finish0 := work[..], finish[..];
      Reclaim(i, work);
      finish[i] := true;
      ProgressStep(s, work0, finish0, done, count, work[..], i);
      assert finish[..] == finish0[i := true];
    }

    /** No live task among the first `n` slots and outside `done` can finish. */
    static ghost predicate NoneCan(s: Sys, done: set<int>, n: int)
      requires WellFormed(s)
    {
      forall j :: 0 <= j < n && Alive(s, j) && j !in done ==> !CanFinish(s, j, done)
    }

    /** The test's working copies: what is free, and who needs no more. */
    method Snapshot() returns (work: array<int>, finish: array<bool>)
      requires Valid()
      ensures fresh(work) && fresh(finish)
      ensures Progress(View(), work[..], finish[..], [], 0)
    {
      work := new int[available.Length];
      for r := 0 to available.Length
        invariant forall k :: 0 <= k < r ==> work[k] == available[k]
      {
        work[r] := available[r];
      }
      finish := new bool[tasks.Length];
      for i := 0 to tasks.Length
        invariant forall j :: 0 <= j < i ==> finish[j] == (tasks[j].state == Terminated)
        invariant work[..] == available[..]
      {
        finish[i] := tasks[i].state == Terminated;
      }
      ProgressStart(View(), work[..], finish[..]);
    }

    /** What the greedy test is exact for: nobody holds a negative amount, and the count misses no live task. */
    ghost predicate Testable()
      requires Valid()
      reads this, tasks, available, queueCounts, queues
    {
      NonNegative(View()) && taskCount >= |AliveSet(View())|
    }

    /** In any state the greedy test answers yes only if the state is safe, and in a testable one also if it is. */
    method IsSafeState() returns (safe: bool)
      requires Valid()
      ensures safe ==> Safe(View())
      ensures Testable() ==> (safe <==> Safe(View()))
    {
      ghost var s := View();
      var work, finish := Snapshot();
      var count := 0;
      ghost var order: seq<int> := [];
      var found := true;
      while count < taskCount && found
        invariant Valid() && View() == s
        invariant Progress(s, work[..], finish[..], order, count)
        invariant !found ==> NoneCan(s, Elems(order), tasks.Length)
        decreases taskCount - count, found
      {
        found, count, order := Scan(work, finish, s, order, count);
      }
      for i := 0 to tasks.Length
        invariant forall j :: 0 <= j < i ==> finish[j]
      {
        if !finish[i] {
          if Testable() { Unfinished(s, work[..], finish[..], order, count, i, found); }
          return false;
        }
      }
      Finished(s, work[..], finish[..], order, count);
      return true;
    }

    static lemma Unfinished(s: Sys, work: seq<int>, finish: seq<bool>, order: seq<int>, count: int, i: nat, found: bool)
      requires Progress(s, work, finish, order, count) && NonNegative(s)
      requires i < |finish| && !finish[i]
      requires found ==> count >= |AliveSet(s)|
      requires !found ==> NoneCan(s, Elems(order), |s.tasks|)
      ensures !Safe(s)
    {
      assert Alive(s, i) && i in AliveSet(s);
      AllDone(s, order);
      assert Stuck(s, Elems(order));
      StuckIsUnsafe(s, Elems(order));
    }

    static lemma Finished(s: Sys, work: seq<int>, finish: seq<bool>, order: seq<int>, count: int)
      requires Progress(s, work, finish, order, count)
      requires forall i :: 0 <= i < |finish| ==> finish[i]
      ensures Safe(s)
    {
      assert forall x :: x in order <==> x in Elems(order);
      assert Completion(s, order);
    }

    static lemma ProgressStart(s: Sys, work: seq<int>, finish: seq<bool>)
      requires WellFormed(s) && work == s.available && |finish| == |s.tasks|
      requires forall i :: 0 <= i < |finish| ==> finish[i] == (s.tasks[i].state == Terminated)
      ensures Progress(s, work, finish, [], 0)
    {
      assert Elems([]) == {};
      forall r | 0 <= r < |work| ensures Freed(s.tasks, {}, r) == 0 {
        FreedNone(s.tasks, r);
      }
    }

    /** The loop state of the safety test after the tasks in `order` were let finish. */
    static ghost predicate Progress(s: Sys, work: seq<int>, finish: seq<bool>, order: seq<int>, count: int) {
      && WellFormed(s)
      && |work| == |s.available| && |finish| == |s.tasks|
      && Feasible(s, order)
      && count == |order|
      && (forall i :: 0 <= i < |finish| ==> (finish[i] <==> !Alive(s, i) || i in Elems(order)))
      && (forall r :: 0 <= r < |work| ==> work[r] == s.available[r] + Freed(s.tasks, Elems(order), r))
    }

    static lemma ProgressStep(s: Sys, work: seq<int>, finish: seq<bool>, order: seq<int>, count: int,
                              work': seq<int>, i: nat)
      requires Progress(s, work, finish, order, count)
      requires i < |finish| && !finish[i] && CanFinish(s, i, Elems(order))
      requires |work'| == |work| && forall r :: 0 <= r < |work| ==> work'[r] == work[r] + s.tasks[i].allocation[r]
      ensures Progress(s, work', finish[i := true], order + [i], count + 1)
    {
      assert forall x :: x in order <==> x in Elems(order);
      FeasibleSnoc(s, order, i);
    }

    /** As many finished as there are live tasks: all of them. */
    static lemma AllDone(s: Sys, order: seq<int>)
      requires WellFormed(s) && Feasible(s, order)
      ensures |order| <= |AliveSet(s)|
      ensures |order| == |AliveSet(s)| ==> Elems(order) == AliveSet(s)
    {
      assert Elems(order) <= AliveSet(s);
      DistinctFits(order, AliveSet(s));
      DistinctSize(order);
      if |order| == |AliveSet(s)| && Elems(order) != AliveSet(s) {
        var x :| x in AliveSet(s) && x !in Elems(order);
        DistinctFits(order, AliveSet(s) - {x});
        assert false;
      }
    }

    static lemma {:induction false} DistinctSize(o: seq<int>)
      requires Distinct(o)
      ensures |Elems(o)| == |o|
    {
      if o != [] {
        var init := o[..|o| - 1];
        DistinctSize(init);
        assert o == init + [o[|o| - 1]];
        assert Elems(o) == Elems(init) + {o[|o| - 1]};
      }
    }

    /** The tables while the resources below `r` have been moved for task `pid`: `d` left the pool for it. */
    ghost predicate Moved(s: Sys, pid: int, d: seq<int>, r: int)
      reads this, tasks, available, queues, queueCounts
      requires WellFormed(s) && 0 <= pid < |s.tasks| && |d| == |s.available|
    {
      && Valid() && available.Length == |s.available| && tasks.Length == |s.tasks|
      && View().queues == s.queues && taskCount == s.count && currentPid == s.current
      && (forall j :: 0 <= j < tasks.Length && j != pid ==> tasks[j] == s.tasks[j])
      && tasks[pid] == s.tasks[pid].(allocation := tasks[pid].allocation, need := tasks[pid].need)
      && (forall k :: 0 <= k < available.Length ==>
           var moved := if k < r then d[k] else 0;
           available[k] == s.available[k] - moved
           && tasks[pid].allocation[k] == s.tasks[pid].allocation[k] + moved
           && tasks[pid].need[k] == s.tasks[pid].need[k] - moved)
    }

    lemma MovedAll(s: Sys, pid: int, d: seq<int>)
      requires WellFormed(s) && 0 <= pid < |s.tasks| && |d| == |s.available|
      requires Moved(s, pid, d, |d|)
      ensures View() == Trial(s, pid, d)
    {
      var want := Trial(s, pid, d);
      assert tasks[pid].allocation == want.tasks[pid].allocation;
      assert tasks[pid].need == want.tasks[pid].need;
      assert tasks[..] == want.tasks;
      assert available[..] == want.available;
    }

    /** The trial allocation. */
    method Allocate(pid: int, request: seq<int>)
      requires Valid() && 0 <= pid < tasks.Length && |request| == available.Length
      modifies tasks, available
      ensures Valid() && View() == Trial(old(View()), pid, request)
    {
      ghost var s := View();
      for r := 0 to available.Length
        invariant Moved(s, pid, request, r)
      {
        var t := tasks[pid];
        available[r] := available[r] - request[r];
        tasks[pid] := t.(allocation := t.allocation[r := t.allocation[r] + request[r]],
                         need := t.need[r := t.need[r] - request[r]]);
      }
      MovedAll(s, pid, request);
    }

    /** Takes the trial back. */
    method Rollback(pid: int, request: seq<int>)
      requires Valid() && 0 <= pid < tasks.Length && |request| == available.Length
      modifies tasks, available
      ensures Valid() && View() == Trial(old(View()), pid, Sub(Zeros(|request|), request))
    {
      ghost var s := View();
      ghost var d := Sub(Zeros(|request|), request);
      for r := 0 to available.Length
        invariant Moved(s, pid, d, r)
      {
        var t := tasks[pid];
        available[r] := available[r] + request[r];
        tasks[pid] := t.(allocation := t.allocation[r := t.allocation[r] - request[r]],
                         need := t.need[r := t.need[r] + request[r]]);
      }
      MovedAll(s, pid, d);
    }

    /** The request takes back no more than the pid holds. */
    ghost predicate TakesNoDebt(pid: int, request: seq<int>)
      requires Valid() && |request| == available.Length
      reads this, tasks, available, queueCounts, queues
    {
      Alive(View(), pid) ==> forall r :: 0 <= r < |request| ==> -tasks[pid].allocation[r] <= request[r]
    }

    /** Any call grants the whole request, and then its trial is safe, or leaves every table as it was.  In a
    testable state it grants exactly the requests whose trial is safe, if they leave no negative holding. */
    method RequestResources(pid: int, request: seq<int>) returns (granted: bool)
      requires Valid() && |request| == available.Length
      modifies tasks, available
      ensures Valid()
      ensures granted ==> Granted(old(View()), pid, request)
      ensures View() == if granted then Trial(old(View()), pid, request) else old(View())
      ensures old(Testable() && TakesNoDebt(pid, request)) ==> (granted <==> Granted(old(View()), pid, request))
    {
      if pid < 0 || pid >= tasks.Length || tasks[pid].state == Terminated {
        return false;
      }
      for r := 0 to available.Length
        invariant forall k :: 0 <= k < r ==> request[k] <= tasks[pid].need[k] && request[k] <= available[k]
      {
        if request[r] > tasks[pid].need[r] || request[r] > available[r] {
          return false;
        }
      }
      ghost var s := View();
      Allocate(pid, request);
      assert AliveSet(View()) == AliveSet(s);
      var safe := IsSafeState();
      if safe {
        return true;
      }
      Rollback(pid, request);
      TrialUndone(s, pid, request);
      return false;
    }

    static lemma TrialUndone(s: Sys, pid: int, v: seq<int>)
      requires WellFormed(s) && 0 <= pid < |s.tasks| && |v| == |s.available|
      ensures WellFormed(Trial(s, pid, v)) && Trial(Trial(s, pid, v), pid, Sub(Zeros(|v|), v)) == s
    {
      var s' := Trial(Trial(s, pid, v), pid, Sub(Zeros(|v|), v));
      assert s'.available == s.available;
      assert s'.tasks[pid].allocation == s.tasks[pid].allocation;
      assert s'.tasks[pid].need == s.tasks[pid].need;
      assert s'.tasks == s.tasks;
    }

    method ReleaseResources(pid: int, release: seq<int>)
      requires Valid() && |release| == available.Length
      modifies tasks, available
      ensures Valid() && View() == Release(old(View()), pid, release)
    {
      if pid < 0 || pid >= tasks.Length || tasks[pid].state == Terminated {
        return;
      }
      ghost var s := View();
      ghost var d := Sub(Zeros(|release|), Returned(release, s.tasks[pid].allocation));
      for r := 0 to available.Length
        invariant Moved(s, pid, d, r)
      {
        if release[r] > tasks[pid].allocation[r] {
          MovedNothing(s, pid, d, r);
          continue;
        }
        GiveBack(s, pid, d, r, release[r]);
      }
      MovedAll(s, pid, d);
      ReleaseIsTrial(s, pid, release);
    }

    lemma MovedNothing(s: Sys, pid: int, d: seq<int>, r: int)
      requires WellFormed(s) && 0 <= pid < |s.tasks| && |d| == |s.available|
      requires 0 <= r < |d| && d[r] == 0 && Moved(s, pid, d, r)
      ensures Moved(s, pid, d, r + 1)
    {
    }

    /** Returns `amount` of one resource to the pool. */
    method GiveBack(ghost s: Sys, pid: int, ghost d: seq<int>, r: nat, amount: int)
      requires WellFormed(s) && 0 <= pid < |s.tasks| && |d| == |s.available|
      requires r < |d| && d[r] == -amount && Moved(s, pid, d, r)
      modifies tasks, available
      ensures Moved(s, pid, d, r + 1)
    {
      var t := tasks[pid];
      available[r] := available[r] + amount;
      tasks[pid] := t.(allocation := t.allocation[r := t.allocation[r] - amount],
                       need := t.need[r := t.need[r] + amount]);
    }

    // ----- the queues -----

    /** Picks the head of the highest non-empty queue and shifts the rest of that queue up. */
    method Dispatch()
      requires Valid() && PidsInRange(View())
      modifies this`currentPid, tasks, queues, queueCounts
      ensures Valid() && View() == Schedule(old(View()))
    {
      var nextPid := -1;
      ghost var s := View();
      for q := 0 to NUM_QUEUES
        invariant View() == s && Valid() && nextPid == -1
        invariant forall p :: 0 <= p < q ==> queueCounts[p] == 0
      {
        if queueCounts[q] > 0 {
          assert TopQueue(s.queues) == q by { assert forall p :: 0 <= p < NUM_QUEUES ==> s.queues[p] == Row(p); }
          nextPid := queues[q, 0];
          ShiftQueue(q);
          assert s.queues[q][0] == nextPid;
          break;
        }
      }
      if nextPid != -1 {
        RunNext(nextPid);
      }
    }

    /** The task becomes the running one. */
    method RunNext(pid: int)
      requires Valid() && 0 <= pid < tasks.Length
      modifies this`currentPid, tasks
      ensures Valid()
      ensures var s := old(View());
        View() == s.(current := pid, tasks := s.tasks[pid := s.tasks[pid].(state := Running)])
    {
      currentPid := pid;
      tasks[currentPid] := tasks[currentPid].(state := Running);
    }

    method ShiftQueue(q: nat)
      requires RowsOk() && q < NUM_QUEUES && queueCounts[q] > 0
      modifies queues, queueCounts
      ensures RowsOk() && Rows() == old(Rows())[q := old(Rows())[q][1..]]
    {
      for i := 0 to queueCounts[q] - 1
        invariant queueCounts[..] == old(queueCounts[..])
        invariant forall k :: 0 <= k < old(queueCounts[q]) ==>
          queues[q, k] == if k < i then old(queues[q, k + 1]) else old(queues[q, k])
        invariant forall p, k :: 0 <= p < NUM_QUEUES && p != q && 0 <= k < queues.Length1 ==>
          queues[p, k] == old(queues[p, k])
      {
        queues[q, i] := queues[q, i + 1];
      }
      queueCounts[q] := queueCounts[q] - 1;
      assert Row(q) == old(Row(q))[1..];
      assert forall p :: 0 <= p < NUM_QUEUES && p != q ==> Row(p) == old(Row(p));
    }

    method TaskYield(usedFullQuantum: bool)
      requires Valid() && PidsInRange(View()) && CurrentInRange(View())
      requires currentPid == -1 || (forall q :: 0 <= q < NUM_QUEUES ==> queueCounts[q] < tasks.Length)
      modifies this`currentPid, tasks, queues, queueCounts
      ensures Valid() && View() == Yield(old(View()), usedFullQuantum)
    {
      if currentPid == -1 {
        return;
      }
      ghost var s := View();
      Requeue(usedFullQuantum);
      RequeuedInRange(s, usedFullQuantum);
      Dispatch();
    }

    static lemma RequeuedInRange(s: Sys, full: bool)
      requires WellFormed(s) && PidsInRange(s) && CurrentInRange(s) && s.current != -1
      ensures PidsInRange(Requeued(s, full))
    {
      var s' := Requeued(s, full);
      forall p, k | 0 <= p < NUM_QUEUES && 0 <= k < |s'.queues[p]| ensures 0 <= s'.queues[p][k] < |s'.tasks| {
        assert s'.queues[p][k] == if k < |s.queues[p]| then s.queues[p][k] else s.current;
      }
    }

    /** The running task becomes ready, one level down if it used its full quantum. */
    method Demote(usedFullQuantum: bool)
      requires Valid() && 0 <= currentPid < tasks.Length
      modifies tasks
      ensures var t := Yielded(old(tasks[currentPid]), usedFullQuantum);
        Valid() && View() == old(View()).(tasks := old(View()).tasks[currentPid := t])
    {
      ghost var ts := tasks[..];
      tasks[currentPid] := tasks[currentPid].(state := Ready);
      if usedFullQuantum {
        if tasks[currentPid].level < NUM_QUEUES - 1 {
          tasks[currentPid] := tasks[currentPid].(level := tasks[currentPid].level + 1);
          tasks[currentPid] := tasks[currentPid].(quantum := Quantum(tasks[currentPid].level));
        }
      }
      assert tasks[..] == ts[currentPid := Yielded(ts[currentPid], usedFullQuantum)];
    }

    /** The running task, demoted if it used its full quantum, goes to the tail of its queue. */
    method Requeue(usedFullQuantum: bool)
      requires Valid() && CurrentInRange(View()) && currentPid != -1
      requires forall q :: 0 <= q < NUM_QUEUES ==> queueCounts[q] < tasks.Length
      modifies this`currentPid, tasks, queues, queueCounts
      ensures Valid() && View() == Requeued(old(View()), usedFullQuantum)
    {
      Demote(usedFullQuantum);
      var q := tasks[currentPid].level;
      EnqueueAt(q, currentPid);
      currentPid := -1;
    }

    method SystemTick()
      requires Valid() && PidsInRange(View()) && CurrentInRange(View())
      requires currentPid == -1 || (forall q :: 0 <= q < NUM_QUEUES ==> queueCounts[q] < tasks.Length)
      modifies this, tasks, available, queues, queueCounts
      ensures Valid() && View() == Tick(old(View()))
    {
      if currentPid != -1 {
        ghost var s := View();
        if tasks[currentPid].work > 0 {
          UpdateCurrent(tasks[currentPid].(work := tasks[currentPid].work - 1));
          if tasks[currentPid].work == 0 {
            Complete();
            return;
          }
        }
        UpdateCurrent(tasks[currentPid].(quantum := tasks[currentPid].quantum - 1));
        assert View() == s.(tasks := s.tasks[s.current := Worked(s.tasks[s.current])]);
        if tasks[currentPid].quantum <= 0 {
          TaskYield(true);
        }
      } else {
        Dispatch();
      }
    }

    /** The running task has done all its work. */
    method Complete()
      requires Valid() && 0 <= currentPid < tasks.Length
      modifies this, tasks, available
      ensures Valid() && View() == Terminate(old(View()), old(currentPid)).(current := -1)
    {
      TaskTerminate(currentPid);
      currentPid := -1;
    }

    method UpdateCurrent(t: Tcb)
      requires Valid() && 0 <= currentPid < tasks.Length && Shaped(t, available.Length)
      modifies tasks
      ensures Valid() && View() == old(View()).(tasks := old(View()).tasks[currentPid := t])
    {
      tasks[currentPid] := t;
    }

    /** Moves the lower queues to the end of the top one, task by task. */
    method PriorityBoost()
      requires Valid() && PidsInRange(View())
      requires queueCounts[0] + queueCounts[1] + queueCounts[2] <= tasks.Length
      modifies tasks, queues, queueCounts
      ensures Valid() && View() == Boost(old(View()))
    {
      ghost var s := View();
      LiftQueue(1);
      ghost var m := View();
      assert |m.queues[0]| == queueCounts[0] && |m.queues[2]| == queueCounts[2];
      LiftQueue(2);
      BoostInTwo(s);
    }

    /** Moves one lower queue. */
    method LiftQueue(q: nat)
      requires Valid() && 1 <= q < NUM_QUEUES && PidsInRange(View())
      requires queueCounts[0] + queueCounts[q] <= tasks.Length
      modifies tasks, queues, queueCounts
      ensures Valid() && View() == Emptied(old(View()), q)
    {
      ghost var s := View();
      LiftedNone(s, q);
      for i := 0 to queueCounts[q]
        invariant Valid() && View() == Lifted(s, q, i)
      {
        assert View().queues[q] == Row(q) == s.queues[q] && |View().queues[0]| == queueCounts[0];
        assert queues[q, i] == s.queues[q][i];
        LiftOne(q, i);
        LiftedStep(s, q, i);
      }
      ClearQueue(q);
    }

    method ClearQueue(q: nat)
      requires RowsOk() && q < NUM_QUEUES
      modifies queueCounts
      ensures RowsOk() && Rows() == old(Rows())[q := []]
    {
      queueCounts[q] := 0;
      assert Row(q) == [];
      assert forall p :: 0 <= p < NUM_QUEUES && p != q ==> Row(p) == old(Row(p));
    }

    /** The task at position `i` of queue `q` is boosted and appended to the top queue. */
    method LiftOne(q: nat, i: nat)
      requires Valid() && 1 <= q < NUM_QUEUES && i < queueCounts[q] && queueCounts[0] < tasks.Length
      requires 0 <= queues[q, i] < tasks.Length
      modifies tasks, queues, queueCounts
      ensures Valid() && View() == LiftedAt(old(View()), old(queues[q, i]))
    {
      var pid := queues[q, i];
      ghost var s := View();
      tasks[pid] := tasks[pid].(level := 0);
      tasks[pid] := tasks[pid].(quantum := Quantum(0));
      assert View() == s.(tasks := s.tasks[pid := Boosted(s.tasks[pid])]);
      EnqueueAt(0, pid);
    }

    static ghost function LiftedAt(s: Sys, pid: int): Sys
      requires |s.queues| == NUM_QUEUES && 0 <= pid < |s.tasks|
    {
      s.(tasks := s.tasks[pid := Boosted(s.tasks[pid])], queues := s.queues[0 := s.queues[0] + [pid]])
    }

    /** A state with the first `i` tasks of queue `q` boosted and appended to the top queue. */
    static ghost function Lifted(s: Sys, q: int, i: int): Sys
      requires WellFormed(s) && 1 <= q < NUM_QUEUES && 0 <= i <= |s.queues[q]|
    {
      s.(tasks := seq(|s.tasks|, j requires 0 <= j < |s.tasks| =>
                        if j in s.queues[q][..i] then Boosted(s.tasks[j]) else s.tasks[j]),
         queues := s.queues[0 := s.queues[0] + s.queues[q][..i]])
    }

    static lemma LiftedNone(s: Sys, q: int)
      requires WellFormed(s) && 1 <= q < NUM_QUEUES
      ensures Lifted(s, q, 0) == s
    {
      assert s.queues[0] + s.queues[q][..0] == s.queues[0];
      assert Lifted(s, q, 0).tasks == s.tasks;
      assert Lifted(s, q, 0).queues == s.queues;
    }

    static lemma LiftedStep(s: Sys, q: int, i: int)
      requires WellFormed(s) && PidsInRange(s) && 1 <= q < NUM_QUEUES && 0 <= i < |s.queues[q]|
      ensures Lifted(s, q, i + 1) == LiftedAt(Lifted(s, q, i), s.queues[q][i])
    {
      assert s.queues[q][..i + 1] == s.queues[q][..i] + [s.queues[q][i]];
      var a, b := Lifted(s, q, i + 1), LiftedAt(Lifted(s, q, i), s.queues[q][i]);
      assert a.queues[0] == b.queues[0];
      assert a.queues == b.queues;
      assert a.tasks == b.tasks;
    }

    static ghost function Emptied(s: Sys, q: int): Sys
      requires WellFormed(s) && 1 <= q < NUM_QUEUES
    {
      var s' := Lifted(s, q, |s.queues[q]|);
      s'.(queues := s'.queues[q := []])
    }

    static lemma BoostInTwo(s: Sys)
      requires WellFormed(s)
      ensures WellFormed(Emptied(s, 1)) && Emptied(Emptied(s, 1), 2) == Boost(s)
    {
      var m := Emptied(s, 1);
      var s' := Emptied(m, 2);
      assert s.queues[1][..|s.queues[1]|] == s.queues[1];
      assert m.queues[2] == s.queues[2];
      assert s.queues[2][..|s.queues[2]|] == s.queues[2];
      assert s'.tasks == Boost(s).tasks;
      assert s'.queues[0] == s.queues[0] + (s.queues[1] + s.queues[2]);
      assert s'.queues == Boost(s).queues;
    }

    method TaskSetWork(pid: int, units: int)
      requires Valid()
      modifies tasks
      ensures Valid() && View() == SetWork(old(View()), pid, units)
    {
      if pid < 0 || pid >= tasks.Length || tasks[pid].state == Terminated {
        return;
      }
      tasks[pid] := tasks[pid].(work := units);
    }
  }
}
