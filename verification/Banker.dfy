/** The Banker's algorithm: the safety test, what keeps a state safe, and what safety buys. */
module Banker {
  import opened SchedulerState

  // ----- sums of allocations -----

  lemma {:induction false} FreedMonotone(ts: seq<Tcb>, a: set<int>, b: set<int>, r: nat)
    requires a <= b
    requires forall i :: 0 <= i < |ts| ==> Held(ts[i], r) >= 0
    ensures Freed(ts, a, r) <= Freed(ts, b, r)
  {
    if ts != [] {
      FreedMonotone(ts[..|ts| - 1], a, b, r);
    }
  }

  /** Replacing slot `p` changes the sum by what that slot's holding changed. */
  lemma {:induction false} FreedUpdate(ts: seq<Tcb>, p: nat, t: Tcb, done: set<int>, r: nat)
    requires p < |ts|
    ensures Freed(ts[p := t], done, r)
         == Freed(ts, done, r) + if p in done then Held(t, r) - Held(ts[p], r) else 0
  {
    var last := |ts| - 1;
    if p < last {
      assert ts[p := t][..last] == ts[..last][p := t];
      FreedUpdate(ts[..last], p, t, done, r);
    } else {
      assert ts[p := t][..last] == ts[..last];
    }
  }

  lemma {:induction false} FreedSame(ts: seq<Tcb>, a: set<int>, b: set<int>, r: nat)
    requires forall i :: 0 <= i < |ts| ==> (i in a <==> i in b) || Held(ts[i], r) == 0
    ensures Freed(ts, a, r) == Freed(ts, b, r)
  {
    if ts != [] {
      FreedSame(ts[..|ts| - 1], a, b, r);
    }
  }

  lemma {:induction false} FreedInsert(ts: seq<Tcb>, done: set<int>, p: nat, r: nat)
    requires p < |ts| && p !in done
    ensures Freed(ts, done + {p}, r) == Freed(ts, done, r) + Held(ts[p], r)
  {
    var last := |ts| - 1;
    if p < last {
      FreedInsert(ts[..last], done, p, r);
    } else {
      FreedSame(ts[..last], done + {p}, done, r);
    }
  }

  // ----- the invariant -----

  predicate IsSlot(s: Sys, i: int) {
    0 <= i < |s.tasks|
  }

  function Slots(s: Sys): set<int> {
    set i | 0 <= i < |s.tasks| && IsSlot(s, i)
  }

  ghost predicate Conserved(s: Sys, total: seq<int>)
    requires |total| == |s.available|
  {
    forall r :: 0 <= r < |total| ==> s.available[r] + Freed(s.tasks, Slots(s), r) == total[r]
  }

  ghost predicate TcbOk(t: Tcb, resources: nat) {
    && Shaped(t, resources)
    && (forall r :: 0 <= r < resources ==> t.allocation[r] >= 0 && t.need[r] >= 0)
    && (forall r :: 0 <= r < resources ==>
         if t.state == Terminated then t.allocation[r] == 0
         else t.allocation[r] + t.need[r] == t.maxDemand[r])
  }

  /** Nothing is negative, every live task has allocation + need = maximum, nothing is lost. */
  ghost predicate BankerInv(s: Sys, total: seq<int>) {
    && WellFormed(s)
    && |total| == |s.available|
    && (forall r :: 0 <= r < |total| ==> s.available[r] >= 0)
    && (forall i :: 0 <= i < |s.tasks| ==> TcbOk(s.tasks[i], |total|))
    && Conserved(s, total)
    && s.count == |AliveSet(s)|
  }

  ghost predicate NonNegative(s: Sys) {
    forall i, r: nat :: 0 <= i < |s.tasks| ==> Held(s.tasks[i], r) >= 0
  }

  // ----- safety as the absence of a deadlocked set -----

  /** Once the tasks in `done` are out of the way some task remains, and none that remains can finish. */
  ghost predicate Stuck(s: Sys, done: set<int>)
    requires WellFormed(s)
  {
    && (exists i :: Alive(s, i) && i !in done)
    && (forall i :: Alive(s, i) && i !in done ==> !CanFinish(s, i, done))
  }

  /** The exchange argument: once no remaining task can finish, no other choice would have helped. */
  lemma {:induction false} StuckIsUnsafe(s: Sys, done: set<int>)
    requires WellFormed(s) && NonNegative(s) && Stuck(s, done)
    ensures !Safe(s)
  {
    var i :| Alive(s, i) && i !in done;
    forall order: seq<int> ensures !Completion(s, order) {
      if Completion(s, order) {
        assert i in order;
        var k := 0;
        while order[k] in done
          invariant 0 <= k < |order|
          invariant forall j :: 0 <= j < k ==> order[j] in done
          invariant i in order[k..]
          decreases |order| - k
        {
          k := k + 1;
        }
        forall r | 0 <= r < |s.available|
          ensures s.tasks[order[k]].need[r] <= s.available[r] + Freed(s.tasks, done, r)
        {
          FreedMonotone(s.tasks, Elems(order[..k]), done, r);
        }
      }
    }
  }

  /** A feasible order grows by any task that can finish after it. */
  lemma {:induction false} FeasibleSnoc(s: Sys, order: seq<int>, i: int)
    requires WellFormed(s) && Feasible(s, order)
    requires Alive(s, i) && i !in order && CanFinish(s, i, Elems(order))
    ensures Feasible(s, order + [i])
    ensures Elems(order + [i]) == Elems(order) + {i}
    ensures forall r: nat ::
      Freed(s.tasks, Elems(order + [i]), r) == Freed(s.tasks, Elems(order), r) + Held(s.tasks[i], r)
  {
    var o := order + [i];
    forall k | 0 <= k < |o| ensures CanFinish(s, o[k], Elems(o[..k])) {
      assert o[..k] == order[..k];
      if k == |order| { assert order[..k] == order; }
    }
    assert Elems(o) == Elems(order) + {i};
    forall r: nat ensures Freed(s.tasks, Elems(o), r) == Freed(s.tasks, Elems(order), r) + Held(s.tasks[i], r) {
      FreedInsert(s.tasks, Elems(order), i, r);
    }
  }

  /** Greedy choice finishes everyone when no set is stuck. */
  lemma {:induction false} GreedyCompletes(s: Sys, order: seq<int>)
    requires WellFormed(s) && Feasible(s, order)
    requires forall done: set<int> :: !Stuck(s, done)
    ensures Safe(s)
    decreases AliveSet(s) - Elems(order)
  {
    if i :| Alive(s, i) && i !in order {
      assert !Stuck(s, Elems(order));
      var j :| Alive(s, j) && j !in Elems(order) && CanFinish(s, j, Elems(order));
      FeasibleSnoc(s, order, j);
      GreedyCompletes(s, order + [j]);
    } else {
      assert Completion(s, order);
    }
  }

  /** A state is safe exactly when no set of tasks is deadlocked in it. */
  lemma {:induction false} SafeIffNotStuck(s: Sys)
    requires WellFormed(s) && NonNegative(s)
    ensures Safe(s) <==> forall done: set<int> :: !Stuck(s, done)
  {
    forall done: set<int> | Stuck(s, done) ensures !Safe(s) {
      StuckIsUnsafe(s, done);
    }
    if forall done: set<int> :: !Stuck(s, done) {
      GreedyCompletes(s, []);
    }
  }

  // ----- every operation keeps the invariant and safety -----

  /** A trial keeps the invariant exactly when it leaves no component negative. */
  lemma {:induction false} TrialInv(s: Sys, total: seq<int>, pid: int, v: seq<int>)
    requires BankerInv(s, total) && |v| == |total| && Alive(s, pid)
    requires Leq(v, s.tasks[pid].need) && Leq(v, s.available)
    ensures BankerInv(Trial(s, pid, v), total)
       <==> forall r :: 0 <= r < |v| ==> -s.tasks[pid].allocation[r] <= v[r]
  {
    var s' := Trial(s, pid, v);
    assert AliveSet(s') == AliveSet(s);
    assert Slots(s') == Slots(s);
    assert TcbOk(s.tasks[pid], |total|);
    forall r | 0 <= r < |total|
      ensures s'.available[r] + Freed(s'.tasks, Slots(s'), r) == total[r]
    {
      FreedUpdate(s.tasks, pid, s'.tasks[pid], Slots(s), r);
    }
    if BankerInv(s', total) {
      assert TcbOk(s'.tasks[pid], |total|);
    }
  }

  lemma {:induction false} ReleaseInv(s: Sys, total: seq<int>, pid: int, v: seq<int>)
    requires BankerInv(s, total) && |v| == |total| && Alive(s, pid)
    ensures BankerInv(Release(s, pid, v), total)
       <==> forall r :: 0 <= r < |v| ==> -s.tasks[pid].need[r] <= v[r] && -s.available[r] <= v[r]
  {
    var s' := Release(s, pid, v);
    assert AliveSet(s') == AliveSet(s);
    assert Slots(s') == Slots(s);
    assert TcbOk(s.tasks[pid], |total|);
    forall r | 0 <= r < |total|
      ensures s'.available[r] + Freed(s'.tasks, Slots(s'), r) == total[r]
    {
      FreedUpdate(s.tasks, pid, s'.tasks[pid], Slots(s), r);
    }
    if BankerInv(s', total) {
      assert TcbOk(s'.tasks[pid], |total|);
    }
  }

  lemma ReleaseUnstuck(s: Sys, total: seq<int>, pid: int, v: seq<int>, done: set<int>)
    requires BankerInv(s, total) && |v| == |total| && Alive(s, pid)
    requires forall r :: 0 <= r < |v| ==> 0 <= v[r]
    requires !Stuck(s, done)
    ensures WellFormed(Release(s, pid, v)) && !Stuck(Release(s, pid, v), done)
  {
    var s' := Release(s, pid, v);
    if i :| Alive(s, i) && i !in done && CanFinish(s, i, done) {
      forall r | 0 <= r < |total|
        ensures s'.tasks[i].need[r] <= s'.available[r] + Freed(s'.tasks, done, r)
      {
        FreedUpdate(s.tasks, pid, s'.tasks[pid], done, r);
      }
      assert Alive(s', i) && CanFinish(s', i, done);
    } else {
      assert forall i :: Alive(s', i) ==> Alive(s, i);
    }
  }

  /** Giving resources back cannot make a safe state unsafe, however much or little is given. */
  lemma {:induction false} ReleaseSafe(s: Sys, total: seq<int>, pid: int, v: seq<int>)
    requires BankerInv(s, total) && Safe(s) && |v| == |total|
    requires forall r :: 0 <= r < |v| ==> 0 <= v[r]
    ensures BankerInv(Release(s, pid, v), total) && Safe(Release(s, pid, v))
  {
    if Alive(s, pid) {
      ReleaseInv(s, total, pid, v);
      SafeIffNotStuck(s);
      SafeIffNotStuck(Release(s, pid, v));
      forall done: set<int> ensures !Stuck(Release(s, pid, v), done) {
        ReleaseUnstuck(s, total, pid, v, done);
      }
    }
  }

  /** A release is a trial of what it gives back, taken negatively. */
  lemma ReleaseIsTrial(s: Sys, pid: int, v: seq<int>)
    requires WellFormed(s) && Alive(s, pid) && |v| == |s.available|
    ensures Release(s, pid, v) == Trial(s, pid, Sub(Zeros(|v|), Returned(v, s.tasks[pid].allocation)))
  {
    var want := Release(s, pid, v);
    var got := Trial(s, pid, Sub(Zeros(|v|), Returned(v, s.tasks[pid].allocation)));
    assert want.available == got.available;
    assert want.tasks[pid].allocation == got.tasks[pid].allocation;
    assert want.tasks[pid].need == got.tasks[pid].need;
  }

  /** A remark: a release of a negative amount is the opposite request without the safety test. */
  lemma NegativeRelease(s: Sys, total: seq<int>, pid: int, v: seq<int>)
    requires BankerInv(s, total) && |v| == |total| && Alive(s, pid)
    requires forall r :: 0 <= r < |v| ==> v[r] <= 0 && -v[r] <= s.tasks[pid].need[r] && -v[r] <= s.available[r]
    ensures Safe(Release(s, pid, v)) <==> Granted(s, pid, Sub(Zeros(|v|), v))
  {
    assert TcbOk(s.tasks[pid], |total|);
    ReleaseIsTrial(s, pid, v);
    assert Returned(v, s.tasks[pid].allocation) == v;
  }

  /** Two tasks, five units free of ten: the first can finish, then the second. */
  function TwoTasks(): Sys {
    Sys([Tcb(Ready, 0, 4, -1, [8], [5], [3]), Tcb(Ready, 0, 4, -1, [7], [0], [7])], 2, -1, [[0, 1], [], []], [5])
  }

  lemma TwoTasksSafe()
    ensures BankerInv(TwoTasks(), [10]) && Safe(TwoTasks())
  {
    var s := TwoTasks();
    FreedTwo(s.tasks[0], s.tasks[1], {}, 0);
    FreedTwo(s.tasks[0], s.tasks[1], {0}, 0);
    FreedTwo(s.tasks[0], s.tasks[1], Slots(s), 0);
    assert AliveSet(s) == {0, 1};
    assert CanFinish(s, 0, {}) && CanFinish(s, 1, {0});
    InOrder(s);
  }

  /** So a negative release can make a safe state unsafe: the second task takes four of the five units. */
  lemma NegativeReleaseUnsafe()
    ensures BankerInv(TwoTasks(), [10]) && Safe(TwoTasks()) && !Safe(Release(TwoTasks(), 1, [-4]))
  {
    TwoTasksSafe();
    var s' := Release(TwoTasks(), 1, [-4]);
    FreedNone(s'.tasks, 0);
    assert Alive(s', 0) && 0 !in {};
    assert s'.tasks[0].need[0] > s'.available[0] && s'.tasks[1].need[0] > s'.available[0];
    assert Stuck(s', {});
    StuckIsUnsafe(s', {});
  }

  lemma FreedTwo(a: Tcb, b: Tcb, done: set<int>, r: nat)
    ensures Freed([a, b], done, r) == (if 0 in done then Held(a, r) else 0) + (if 1 in done then Held(b, r) else 0)
  {
    assert [a, b][..1] == [a] && [a][..0] == [];
    assert Freed([a], done, r) == Freed([], done, r) + if 0 in done then Held(a, r) else 0;
  }

  // ----- which amounts can be released without looking -----

  /** A release of `v` never makes a safe state unsafe, whoever makes it and in whatever state, as long as
  the accounts survive it. */
  ghost predicate Harmless(v: seq<int>) {
    forall s: Sys, total: seq<int>, pid: int ::
      BankerInv(s, total) && Safe(s) && |v| == |total| && BankerInv(Release(s, pid, v), total)
      ==> Safe(Release(s, pid, v))
  }

  /** Exactly the amounts without a negative component are harmless. */
  lemma ReleaseHarmlessIff(v: seq<int>)
    ensures Harmless(v) <==> forall r :: 0 <= r < |v| ==> 0 <= v[r]
  {
    if forall r :: 0 <= r < |v| ==> 0 <= v[r] {
      forall s: Sys, total: seq<int>, pid: int
        | BankerInv(s, total) && Safe(s) && |v| == |total| && BankerInv(Release(s, pid, v), total)
        ensures Safe(Release(s, pid, v))
      {
        ReleaseSafe(s, total, pid, v);
      }
    } else {
      var k: nat :| k < |v| && v[k] < 0;
      TrapSprings(v, k);
      assert BankerInv(Trap(v, k), TrapTotal(v, k));
    }
  }

  /** What a release of `v` takes from the pool when the pid holds nothing. */
  function Taken(v: seq<int>): (a: seq<int>)
    ensures |a| == |v| && forall r :: 0 <= r < |v| ==> a[r] == if v[r] < 0 then -v[r] else 0
  {
    seq(|v|, r requires 0 <= r < |v| => if v[r] < 0 then -v[r] else 0)
  }

  /** `n` units of resource `k` alone. */
  function Units(resources: nat, k: nat, n: int): (u: seq<int>)
    ensures |u| == resources && forall r :: 0 <= r < resources ==> u[r] == if r == k then n else 0
  {
    seq(resources, r => if r == k then n else 0)
  }

  function TrapTotal(v: seq<int>, k: nat): seq<int> {
    Add(Taken(v), Units(|v|, k, 1))
  }

  /** Task 0 holds one unit of `k` and needs one more; task 1 needs everything. Only task 0 can finish first,
  and only as long as nobody takes what is free. */
  function Trap(v: seq<int>, k: nat): Sys {
    var (n, one, all) := (|v|, Units(|v|, k, 1), TrapTotal(v, k));
    Sys([Tcb(Ready, 0, 4, -1, Units(n, k, 2), one, one), Tcb(Ready, 0, 4, -1, all, Zeros(n), all)],
        2, -1, [[0, 1], [], []], Taken(v))
  }

  lemma TrapOk(v: seq<int>, k: nat)
    requires k < |v| && v[k] < 0
    ensures BankerInv(Trap(v, k), TrapTotal(v, k))
  {
    var s, total := Trap(v, k), TrapTotal(v, k);
    assert AliveSet(s) == {0, 1};
    forall r | 0 <= r < |total| ensures s.available[r] + Freed(s.tasks, Slots(s), r) == total[r] {
      FreedTwo(s.tasks[0], s.tasks[1], Slots(s), r);
    }
    forall i | 0 <= i < |s.tasks| ensures TcbOk(s.tasks[i], |total|) {
      assert i == 0 || i == 1;
    }
  }

  lemma TrapSafe(v: seq<int>, k: nat)
    requires k < |v| && v[k] < 0
    ensures WellFormed(Trap(v, k)) && Safe(Trap(v, k))
  {
    var s := Trap(v, k);
    TrapOk(v, k);
    forall r | 0 <= r < |v|
      ensures s.tasks[0].need[r] <= s.available[r] + Freed(s.tasks, {}, r)
      ensures s.tasks[1].need[r] <= s.available[r] + Freed(s.tasks, {0}, r)
    {
      FreedTwo(s.tasks[0], s.tasks[1], {}, r);
      FreedTwo(s.tasks[0], s.tasks[1], {0}, r);
    }
    assert CanFinish(s, 0, {}) && CanFinish(s, 1, {0});
    InOrder(s);
  }

  /** Two live tasks that can finish in turn make a state safe. */
  lemma InOrder(s: Sys)
    requires WellFormed(s) && |s.tasks| == 2 && Alive(s, 0) && Alive(s, 1)
    requires CanFinish(s, 0, {}) && CanFinish(s, 1, {0})
    ensures Safe(s)
  {
    var order := [0, 1];
    assert order[..0] == [] && order[..1] == [0];
    assert Elems(order[..0]) == {} && Elems(order[..1]) == {0};
    assert Completion(s, order);
  }

  /** Task 1 takes all that is free: the accounts hold, and neither task can finish. */
  lemma TrapSprings(v: seq<int>, k: nat)
    requires k < |v| && v[k] < 0
    ensures var (s, total) := (Trap(v, k), TrapTotal(v, k));
      BankerInv(s, total) && Safe(s) && BankerInv(Release(s, 1, v), total) && !Safe(Release(s, 1, v))
  {
    var s, total := Trap(v, k), TrapTotal(v, k);
    TrapOk(v, k);
    TrapSafe(v, k);
    ReleaseInv(s, total, 1, v);
    var s' := Release(s, 1, v);
    FreedNone(s'.tasks, k);
    assert s'.available[k] == 0 && s'.tasks[0].need[k] == 1 && s'.tasks[1].need[k] == 1;
    assert Alive(s', 0) && 0 !in {};
    assert Stuck(s', {});
    StuckIsUnsafe(s', {});
  }

  lemma {:induction false} TerminateInv(s: Sys, total: seq<int>, pid: int)
    requires BankerInv(s, total) && Alive(s, pid)
    ensures BankerInv(Terminate(s, pid), total)
  {
    var s' := Terminate(s, pid);
    assert AliveSet(s') == AliveSet(s) - {pid} by {
      assert forall i :: Alive(s', i) <==> Alive(s, i) && i != pid;
    }
    assert Slots(s') == Slots(s);
    assert TcbOk(s.tasks[pid], |total|);
    forall r | 0 <= r < |total|
      ensures s'.available[r] + Freed(s'.tasks, Slots(s'), r) == total[r]
    {
      FreedUpdate(s.tasks, pid, s'.tasks[pid], Slots(s), r);
    }
  }

  lemma {:induction false} TerminateUnstuck(s: Sys, pid: int, done: set<int>)
    requires WellFormed(s) && Alive(s, pid) && !Stuck(s, done + {pid})
    ensures WellFormed(Terminate(s, pid)) && !Stuck(Terminate(s, pid), done)
  {
    var s' := Terminate(s, pid);
    if i :| Alive(s, i) && i !in done + {pid} && CanFinish(s, i, done + {pid}) {
      forall r | 0 <= r < |s.available|
        ensures s'.tasks[i].need[r] <= s'.available[r] + Freed(s'.tasks, done, r)
      {
        FreedUpdate(s.tasks, pid, s'.tasks[pid], done + {pid}, r);
        FreedSame(s'.tasks, done, done + {pid}, r);
      }
      assert Alive(s', i) && CanFinish(s', i, done);
    } else {
      assert forall i :: Alive(s', i) && i !in done ==> Alive(s, i) && i !in done + {pid};
    }
  }

  lemma {:induction false} TerminateSafe(s: Sys, total: seq<int>, pid: int)
    requires BankerInv(s, total) && Safe(s)
    ensures BankerInv(Terminate(s, pid), total) && Safe(Terminate(s, pid))
  {
    if Alive(s, pid) {
      TerminateInv(s, total, pid);
      SafeIffNotStuck(s);
      SafeIffNotStuck(Terminate(s, pid));
      forall done: set<int> ensures !Stuck(Terminate(s, pid), done) {
        TerminateUnstuck(s, pid, done);
      }
    }
  }

  lemma CreateConserves(s: Sys, total: seq<int>, max: seq<int>)
    requires BankerInv(s, total) && |max| == |total| && NewPid(s) != -1
    ensures WellFormed(Create(s, max)) && Conserved(Create(s, max), total)
    ensures AliveSet(Create(s, max)) == AliveSet(s) + {NewPid(s)} && NewPid(s) !in AliveSet(s)
  {
    var s', pid := Create(s, max), NewPid(s);
    assert forall i :: Alive(s', i) <==> Alive(s, i) || i == pid;
    assert Slots(s') == Slots(s);
    assert TcbOk(s.tasks[pid], |total|);
    forall r | 0 <= r < |total|
      ensures s'.available[r] + Freed(s'.tasks, Slots(s'), r) == total[r]
    {
      FreedUpdate(s.tasks, pid, s'.tasks[pid], Slots(s), r);
    }
  }

  /** A new task keeps the invariant exactly when its maximum demand is non-negative. */
  lemma {:induction false} CreateInv(s: Sys, total: seq<int>, max: seq<int>)
    requires BankerInv(s, total) && |max| == |total| && NewPid(s) != -1
    ensures BankerInv(Create(s, max), total) <==> forall r :: 0 <= r < |max| ==> 0 <= max[r]
  {
    CreateConserves(s, total, max);
    var s', pid := Create(s, max), NewPid(s);
    if BankerInv(s', total) {
      assert TcbOk(s'.tasks[pid], |total|);
    }
  }

  /** A task that may ask for more than there is can block the rest for good. */
  lemma {:induction false} CreateStuck(s: Sys, total: seq<int>, max: seq<int>, r: nat)
    requires BankerInv(s, total) && |max| == |total| && NewPid(s) != -1
    requires BankerInv(Create(s, max), total)
    requires r < |max| && max[r] > total[r]
    ensures Stuck(Create(s, max), AliveSet(s))
  {
    var s', pid := Create(s, max), NewPid(s);
    var done := AliveSet(s);
    FreedMonotone(s'.tasks, done, Slots(s'), r);
    assert forall i :: Alive(s', i) && i !in done ==> i == pid;
    assert Alive(s', pid) && !CanFinish(s', pid, done);
  }

  /** Creation keeps a safe state safe exactly when the new maximum demand fits the whole system. */
  lemma {:induction false} CreateSafe(s: Sys, total: seq<int>, max: seq<int>)
    requires BankerInv(s, total) && Safe(s) && |max| == |total| && NewPid(s) != -1
    requires forall r :: 0 <= r < |max| ==> 0 <= max[r]
    ensures Safe(Create(s, max)) <==> Leq(max, total)
  {
    var s', pid := Create(s, max), NewPid(s);
    CreateInv(s, total, max);
    SafeIffNotStuck(s);
    SafeIffNotStuck(s');
    if Leq(max, total) {
      forall done: set<int> ensures !Stuck(s', done) {
        CreateUnstuck(s, s', total, max, pid, done);
      }
    } else {
      var r: nat :| r < |max| && max[r] > total[r];
      CreateStuck(s, total, max, r);
    }
  }

  lemma {:induction false} CreateUnstuck(s: Sys, s': Sys, total: seq<int>, max: seq<int>, pid: int, done: set<int>)
    requires BankerInv(s, total) && |max| == |total| && pid == NewPid(s) != -1
    requires s' == Create(s, max) && BankerInv(s', total) && Leq(max, total)
    requires forall d: set<int> :: !Stuck(s, d)
    ensures !Stuck(s', done)
  {
    forall r | 0 <= r < |total| ensures Freed(s'.tasks, done, r) == Freed(s.tasks, done, r) {
      FreedUpdate(s.tasks, pid, s'.tasks[pid], done, r);
      assert TcbOk(s.tasks[pid], |total|);
    }
    assert !Stuck(s, done);
    if i :| Alive(s, i) && i !in done && CanFinish(s, i, done) {
      assert Alive(s', i) && CanFinish(s', i, done);
    } else if pid !in done {
      forall r | 0 <= r < |total|
        ensures s'.tasks[pid].need[r] <= s'.available[r] + Freed(s'.tasks, done, r)
      {
        assert forall i :: 0 <= i < |s'.tasks| ==> TcbOk(s'.tasks[i], |total|);
        assert forall i :: Alive(s', i) && i !in done ==> i == pid by {
          assert forall i :: Alive(s', i) && i != pid ==> Alive(s, i);
        }
        FreedSame(s'.tasks, Slots(s'), done, r) by {
          forall i | 0 <= i < |s'.tasks| && i !in done ensures Held(s'.tasks[i], r) == 0 {
            if i != pid { assert !Alive(s', i); }
          }
        }
      }
      assert Alive(s', pid) && CanFinish(s', pid, done);
    } else {
      assert forall i :: Alive(s', i) && i !in done ==> Alive(s, i);
    }
  }

  /** A request, granted or denied, leaves a safe state; a denied one leaves the very same state. */
  lemma {:induction false} RequestSafe(s: Sys, total: seq<int>, pid: int, v: seq<int>)
    requires BankerInv(s, total) && Safe(s) && |v| == |total|
    requires forall r :: 0 <= r < |v| ==> 0 <= v[r]
    ensures BankerInv(Request(s, pid, v), total) && Safe(Request(s, pid, v))
    ensures !Granted(s, pid, v) ==> Request(s, pid, v) == s
  {
    if Granted(s, pid, v) {
      assert TcbOk(s.tasks[pid], |total|);
      TrialInv(s, total, pid, v);
    }
  }

  // ----- deadlock freedom -----

  /** The task asks for all it may still ask for, and ends. */
  ghost function Finish(s: Sys, pid: int): Sys
    requires WellFormed(s) && 0 <= pid < |s.tasks|
    ensures WellFormed(Finish(s, pid))
    ensures |Finish(s, pid).tasks| == |s.tasks|
  {
    Terminate(Request(s, pid, s.tasks[pid].need), pid)
  }

  ghost predicate AllGranted(s: Sys, order: seq<int>)
    requires WellFormed(s)
    decreases |order|
  {
    order == [] ||
    (&& Alive(s, order[0])
     && Granted(s, order[0], s.tasks[order[0]].need)
     && AllGranted(Finish(s, order[0]), order[1..]))
  }

  ghost function FinishAll(s: Sys, order: seq<int>): Sys
    requires WellFormed(s) && AllGranted(s, order)
    decreases |order|
  {
    if order == [] then s else FinishAll(Finish(s, order[0]), order[1..])
  }

  /** Giving a task all it still needs leaves no set stuck: it can end at once, and gives back what it got. */
  lemma {:induction false} FinishUnstuck(s: Sys, total: seq<int>, pid: int, done: set<int>)
    requires BankerInv(s, total) && Alive(s, pid) && BankerInv(Trial(s, pid, s.tasks[pid].need), total)
    requires !Stuck(s, done)
    ensures !Stuck(Trial(s, pid, s.tasks[pid].need), done)
  {
    var s' := Trial(s, pid, s.tasks[pid].need);
    if pid !in done {
      FreedNonNegative(s', total, done);
      assert Alive(s', pid) && CanFinish(s', pid, done);
    } else if i :| Alive(s, i) && i !in done && CanFinish(s, i, done) {
      forall r | 0 <= r < |total|
        ensures s'.tasks[i].need[r] <= s'.available[r] + Freed(s'.tasks, done, r)
      {
        FreedUpdate(s.tasks, pid, s'.tasks[pid], done, r);
      }
      assert Alive(s', i) && CanFinish(s', i, done);
    } else {
      assert forall i :: Alive(s', i) ==> Alive(s, i);
    }
  }

  lemma NeedIsFree(s: Sys, total: seq<int>, pid: int)
    requires BankerInv(s, total) && Alive(s, pid) && CanFinish(s, pid, {})
    ensures Leq(s.tasks[pid].need, s.available)
    ensures BankerInv(Trial(s, pid, s.tasks[pid].need), total)
  {
    assert TcbOk(s.tasks[pid], |total|);
    forall r | 0 <= r < |total| ensures s.tasks[pid].need[r] <= s.available[r] {
      FreedNone(s.tasks, r);
    }
    TrialInv(s, total, pid, s.tasks[pid].need);
  }

  /** A task whose whole need is free is granted it, and its end leaves a safe state. */
  lemma {:induction false} FinishSafe(s: Sys, total: seq<int>, pid: int)
    requires BankerInv(s, total) && Safe(s)
    requires Alive(s, pid) && CanFinish(s, pid, {})
    ensures Granted(s, pid, s.tasks[pid].need)
    ensures BankerInv(Finish(s, pid), total) && Safe(Finish(s, pid))
    ensures Finish(s, pid).count == s.count - 1
  {
    NeedIsFree(s, total, pid);
    var s' := Trial(s, pid, s.tasks[pid].need);
    SafeIffNotStuck(s);
    SafeIffNotStuck(s');
    forall done: set<int> ensures !Stuck(s', done) {
      FinishUnstuck(s, total, pid, done);
    }
    TerminateSafe(s', total, pid);
  }

  lemma {:induction false} FreedNone(ts: seq<Tcb>, r: nat)
    ensures Freed(ts, {}, r) == 0
  {
    if ts != [] {
      FreedNone(ts[..|ts| - 1], r);
    }
  }

  lemma FreedNonNegative(s: Sys, total: seq<int>, done: set<int>)
    requires BankerInv(s, total)
    ensures forall r :: 0 <= r < |total| ==> Freed(s.tasks, done, r) >= 0
  {
    forall r | 0 <= r < |total| ensures Freed(s.tasks, done, r) >= 0 {
      FreedNone(s.tasks, r);
      FreedMonotone(s.tasks, {}, done, r);
    }
  }

  lemma {:induction false} NoneAlive(s: Sys, total: seq<int>)
    requires BankerInv(s, total) && AliveSet(s) == {}
    ensures s.available == total
  {
    forall r | 0 <= r < |total| ensures s.available[r] == total[r] {
      forall i | 0 <= i < |s.tasks| ensures Held(s.tasks[i], r) == 0 {
        assert i !in AliveSet(s);
        assert TcbOk(s.tasks[i], |total|);
      }
      FreedSame(s.tasks, Slots(s), {}, r);
      FreedNone(s.tasks, r);
    }
  }

  lemma FinishAlive(s: Sys, pid: int)
    requires WellFormed(s) && Alive(s, pid)
    ensures AliveSet(Finish(s, pid)) == AliveSet(s) - {pid}
  {
    assert forall i :: Alive(Finish(s, pid), i) <==> Alive(s, i) && i != pid;
  }

  /** Serving the tasks in this order grants everyone everything and ends with the system empty. */
  ghost predicate DrivesToEnd(s: Sys, total: seq<int>, order: seq<int>)
    requires WellFormed(s)
  {
    && Distinct(order)
    && Elems(order) == AliveSet(s)
    && AllGranted(s, order)
    && AliveSet(FinishAll(s, order)) == {}
    && FinishAll(s, order).available == total
  }

  lemma {:induction false} DrivesCons(s: Sys, total: seq<int>, pid: int, rest: seq<int>)
    requires WellFormed(s) && Alive(s, pid) && Granted(s, pid, s.tasks[pid].need)
    requires DrivesToEnd(Finish(s, pid), total, rest)
    ensures DrivesToEnd(s, total, [pid] + rest)
  {
    var order := [pid] + rest;
    FinishAlive(s, pid);
    assert order[1..] == rest;
    assert Elems(order) == {pid} + Elems(rest);
    assert pid !in Elems(rest);
    assert pid in AliveSet(s);
  }

  lemma {:induction false} SomeoneCanFinish(s: Sys, total: seq<int>) returns (pid: int)
    requires BankerInv(s, total) && Safe(s) && AliveSet(s) != {}
    ensures Alive(s, pid) && CanFinish(s, pid, {})
  {
    SafeIffNotStuck(s);
    assert !Stuck(s, {});
    var i :| i in AliveSet(s);
    assert Alive(s, i) && i !in {};
    pid :| Alive(s, pid) && pid !in {} && CanFinish(s, pid, {});
  }

  /** From every safe state the scheduler's own operations can finish every task: in some order of
  the live tasks each one's whole remaining need is granted in turn, and in the end no task is left
  and everything is available again. */
  lemma {:induction false} DeadlockFree(s: Sys, total: seq<int>)
    requires BankerInv(s, total) && Safe(s)
    ensures exists order: seq<int> :: DrivesToEnd(s, total, order)
    decreases |AliveSet(s)|
  {
    if AliveSet(s) == {} {
      NoneAlive(s, total);
      assert DrivesToEnd(s, total, []);
    } else {
      var pid := SomeoneCanFinish(s, total);
      FinishSafe(s, total, pid);
      FinishAlive(s, pid);
      assert pid in AliveSet(s);
      DeadlockFree(Finish(s, pid), total);
      var rest :| DrivesToEnd(Finish(s, pid), total, rest);
      DrivesCons(s, total, pid, rest);
    }
  }
}
