/** Any number of threads calling the page allocator under its test-and-set lock, one atomic access at a
time, in any interleaving. */
module Spinlock {
  import opened Pages

  /** A call that has passed its argument checks and goes for the lock. `page` is the page a free means. */
  datatype Call = AllocCall(pid: int) | FreeCall(pid: int, page: int)

  /** A finished call; `page` is what an allocation returned, or -1. */
  datatype Done = Done(call: Call, page: int)

  /** Where a thread is: before the lock, at one of the accesses inside, or about to release it. */
  datatype Pc =
    | Idle
    | Trying(call: Call)                 // about to test-and-set
    | Spinning(call: Call)               // reading the lock until it looks free
    | Scan(call: Call, i: nat)           // allocation: about to look at round i
    | SetTaken(call: Call, idx: int)     // allocation: page found free, about to write its taken flag
    | SetOwner(call: Call, idx: int)     // allocation: taken flag written, owner not yet
    | SetCursor(call: Call, idx: int)    // allocation: owner written, cursor not yet
    | Check(call: Call)                  // free: about to read the taken flag
    | CheckOwner(call: Call)             // free: about to read the owner
    | ClearTaken(call: Call)             // free: allowed, about to clear the taken flag
    | ClearOwner(call: Call)             // free: taken flag cleared, owner not yet
    | Leaving(call: Call, page: int)     // about to clear the lock

  datatype World = World(locked: bool, pool: Pool, threads: seq<Pc>, history: seq<Done>)

  predicate Inside(pc: Pc) {
    !pc.Idle? && !pc.Trying? && !pc.Spinning?
  }

  function Entry(call: Call): Pc {
    if call.AllocCall? then Scan(call, 0) else Check(call)
  }

  // ----- one access inside the lock -----

  /** The accesses make sense: indices are in the table. */
  predicate PcOk(p: Pool, pc: Pc) {
    && 0 <= p.last < |p.table|
    && (pc.Scan? ==> pc.call.AllocCall? && pc.i <= |p.table|)
    && ((pc.SetTaken? || pc.SetOwner? || pc.SetCursor?) ==> pc.call.AllocCall? && 0 <= pc.idx < |p.table|)
    && ((pc.Check? || pc.CheckOwner? || pc.ClearTaken? || pc.ClearOwner?) ==> pc.call.FreeCall?)
    && ((pc.CheckOwner? || pc.ClearTaken? || pc.ClearOwner?) ==> 0 <= pc.call.page < |p.table|)
  }

  function Access(p: Pool, pc: Pc): (r: (Pool, Pc))
    requires PcOk(p, pc) && Inside(pc) && !pc.Leaving?
    ensures PcOk(r.0, r.1) && Inside(r.1) && r.1.call == pc.call && |r.0.table| == |p.table|
  {
    match pc
    case Scan(call, i) =>
      if i == |p.table| then (p, Leaving(call, -1))
      else
        var idx := (p.last + i) % |p.table|;
        if p.table[idx].taken then (p, Scan(call, i + 1))
        else (p, SetTaken(call, idx))
    case SetTaken(call, idx) =>
      (p.(table := p.table[idx := p.table[idx].(taken := true)]), SetOwner(call, idx))
    case SetOwner(call, idx) =>
      (p.(table := p.table[idx := p.table[idx].(owner := call.pid)]), SetCursor(call, idx))
    case SetCursor(call, idx) =>
      (p.(last := (idx + 1) % |p.table|), Leaving(call, idx))
    case Check(call) =>
      if 0 <= call.page < |p.table| && p.table[call.page].taken then (p, CheckOwner(call))
      else (p, Leaving(call, -1))
    case CheckOwner(call) =>
      if p.table[call.page].owner == call.pid || p.table[call.page].owner == KERNEL then (p, ClearTaken(call))
      else (p, Leaving(call, -1))
    case ClearTaken(call) =>
      (p.(table := p.table[call.page := p.table[call.page].(taken := false)]), ClearOwner(call))
    case ClearOwner(call) =>
      (p.(table := p.table[call.page := p.table[call.page].(owner := KERNEL)]), Leaving(call, -1))
  }

  // ----- one step of one thread -----

  /** Thread `t` takes its next step; `call` is the call an idle thread makes. */
  function Step(w: World, t: nat, call: Call): World
    requires t < |w.threads| && PcOk(w.pool, w.threads[t])
  {
    match w.threads[t]
    case Idle => w.(threads := w.threads[t := Trying(call)])
    case Trying(c) =>
      if w.locked then w.(threads := w.threads[t := Spinning(c)])
      else w.(locked := true, threads := w.threads[t := Entry(c)])
    case Spinning(c) =>
      if w.locked then w else w.(threads := w.threads[t := Trying(c)])
    case Leaving(c, page) =>
      w.(locked := false, threads := w.threads[t := Idle], history := w.history + [Done(c, page)])
    case pc =>
      var (pool, pc') := Access(w.pool, pc);
      w.(pool := pool, threads := w.threads[t := pc'])
  }

  // ----- the sequential reading -----

  function Sequential(p: Pool, call: Call): Pool
    requires PoolInv(p)
  {
    match call
    case AllocCall(pid) => Alloc(p, pid)
    case FreeCall(pid, page) => Free(p, pid, page)
  }

  function Answer(p: Pool, call: Call): int
    requires PoolInv(p)
  {
    if call.AllocCall? then AllocPage(p) else -1
  }

  /** The pool after running the finished calls one after the other. */
  function Replay(p: Pool, history: seq<Done>): (p': Pool)
    requires PoolInv(p)
    ensures PoolInv(p') && |p'.table| == |p.table|
    decreases |history|
  {
    if history == [] then p else
      Sequential(Replay(p, history[..|history| - 1]), history[|history| - 1].call)
  }

  /** Every finished call answered as it would have in that sequential run. */
  ghost predicate Faithful(p: Pool, history: seq<Done>)
    requires PoolInv(p)
  {
    forall k :: 0 <= k < |history| ==> history[k].page == Answer(Replay(p, history[..k]), history[k].call)
  }

  // ----- running a call to its end without interruption -----

  function Measure(p: Pool, pc: Pc): nat
    requires PcOk(p, pc)
  {
    match pc
    case Scan(_, i) => |p.table| - i + 4
    case SetTaken(_, _) => 3
    case SetOwner(_, _) => 2
    case SetCursor(_, _) => 1
    case Check(_) => 4
    case CheckOwner(_) => 3
    case ClearTaken(_) => 2
    case ClearOwner(_) => 1
    case _ => 0
  }

  /** The pool and the answer when the thread inside the lock is left to finish alone. */
  function Finish(p: Pool, pc: Pc): (Pool, int)
    requires PcOk(p, pc) && Inside(pc)
    decreases Measure(p, pc)
  {
    if pc.Leaving? then (p, pc.page) else
      var (p', pc') := Access(p, pc);
      Finish(p', pc')
  }

  lemma FinishStep(p: Pool, pc: Pc)
    requires PcOk(p, pc) && Inside(pc) && !pc.Leaving?
    ensures Finish(p, pc) == var (p', pc') := Access(p, pc); Finish(p', pc')
  {
  }

  /** Access by access, a call does what the sequential operation does. */
  lemma CallIsSequential(p: Pool, call: Call)
    requires PoolInv(p)
    ensures Finish(p, Entry(call)) == (Sequential(p, call), Answer(p, call))
  {
    match call
    case AllocCall(pid) => ScanFinds(p, call, 0);
    case FreeCall(pid, page) =>
      FinishStep(p, Check(call));
      if Access(p, Check(call)).1.CheckOwner? {
        FinishStep(p, CheckOwner(call));
        if MayFree(p, pid, page) {
          var (p1, pc1) := Access(p, ClearTaken(call));
          FinishStep(p, ClearTaken(call));
          FinishStep(p1, pc1);
          assert Access(p1, pc1).0.table == Free(p, pid, page).table;
        }
      }
  }

  lemma {:induction false} ScanFinds(p: Pool, call: Call, i: nat)
    requires PoolInv(p) && call.AllocCall? && i <= |p.table| && FirstFree(p, i) == FirstFree(p, 0)
    ensures Finish(p, Scan(call, i)) == (Alloc(p, call.pid), AllocPage(p))
    decreases |p.table| - i
  {
    FinishStep(p, Scan(call, i));
    if i == |p.table| {
    } else if p.table[Probe(p, i)].taken {
      ScanFinds(p, call, i + 1);
    } else {
      var idx := Probe(p, i);
      var (p1, pc1) := Access(p, SetTaken(call, idx));
      var (p2, pc2) := Access(p1, pc1);
      FinishStep(p, SetTaken(call, idx));
      FinishStep(p1, pc1);
      FinishStep(p2, pc2);
      assert p2.table == p.table[idx := Page(true, call.pid)];
    }
  }

  // ----- every interleaving -----

  /** At most one thread is inside, the lock says whether one is, and the pool is that of a sequential run
  of the finished calls, or on the way from there to where the call inside will take it. */
  ghost predicate Inv(w: World, init: Pool) {
    && PoolInv(init)
    && (forall t :: 0 <= t < |w.threads| ==> PcOk(w.pool, w.threads[t]))
    && (forall t, u :: 0 <= t < u < |w.threads| ==> !(Inside(w.threads[t]) && Inside(w.threads[u])))
    && (forall t :: 0 <= t < |w.threads| && Inside(w.threads[t]) ==> w.locked)
    && Faithful(init, w.history)
    && |w.pool.table| == |init.table|
    && (w.locked ==> exists t :: 0 <= t < |w.threads| && Inside(w.threads[t]))
    && (!w.locked ==> w.pool == Replay(init, w.history))
    && (forall t :: 0 <= t < |w.threads| && Inside(w.threads[t]) ==>
         Finish(w.pool, w.threads[t]) == Finish(Replay(init, w.history), Entry(w.threads[t].call)))
  }

  lemma FaithfulSnoc(init: Pool, history: seq<Done>, d: Done)
    requires PoolInv(init) && Faithful(init, history) && d.page == Answer(Replay(init, history), d.call)
    ensures Faithful(init, history + [d])
    ensures Replay(init, history + [d]) == Sequential(Replay(init, history), d.call)
  {
    var h := history + [d];
    assert h[..|h| - 1] == history;
    forall k | 0 <= k < |h| ensures h[k].page == Answer(Replay(init, h[..k]), h[k].call) {
      assert h[..k] == history[..k];
      if k == |history| { assert history[..k] == history; }
    }
  }

  /** Moving one thread about outside the lock. */
  lemma OutsideKeeps(w: World, init: Pool, t: nat, pc: Pc)
    requires Inv(w, init) && t < |w.threads| && !Inside(w.threads[t]) && !Inside(pc)
    ensures Inv(w.(threads := w.threads[t := pc]), init)
  {
    var w' := w.(threads := w.threads[t := pc]);
    assert forall u :: 0 <= u < |w.threads| && u != t ==> w'.threads[u] == w.threads[u];
    assert PcOk(w.pool, w.threads[t]);
    if w.locked {
      var u :| 0 <= u < |w.threads| && Inside(w.threads[u]);
      assert Inside(w'.threads[u]);
    }
  }

  /** A step outside the lock. */
  lemma WaitStepKeeps(w: World, init: Pool, t: nat, call: Call)
    requires Inv(w, init) && t < |w.threads| && !Inside(w.threads[t])
    requires w.threads[t].Trying? ==> w.locked
    ensures Inv(Step(w, t, call), init)
  {
    var w' := Step(w, t, call);
    OutsideKeeps(w, init, t, w'.threads[t]);
    assert w' == w.(threads := w.threads[t := w'.threads[t]]);
  }

  /** A step into the lock. */
  lemma EnterStepKeeps(w: World, init: Pool, t: nat, call: Call)
    requires Inv(w, init) && t < |w.threads| && w.threads[t].Trying? && !w.locked
    ensures Inv(Step(w, t, call), init)
  {
    var w' := Step(w, t, call);
    assert forall u :: 0 <= u < |w.threads| && u != t ==> w'.threads[u] == w.threads[u] && !Inside(w.threads[u]);
    assert Inside(w'.threads[t]);
  }

  /** The release: the call inside takes effect in the history. */
  lemma LeaveStepKeeps(w: World, init: Pool, t: nat, call: Call)
    requires Inv(w, init) && t < |w.threads| && w.threads[t].Leaving?
    ensures Inv(Step(w, t, call), init)
  {
    var pc, w' := w.threads[t], Step(w, t, call);
    assert Inside(pc);
    LeaveTakesEffect(w, init, t);
    forall u | 0 <= u < |w'.threads| ensures !Inside(w'.threads[u]) && PcOk(w'.pool, w'.threads[u]) {
      assert PcOk(w.pool, w.threads[u]);
    }
  }

  lemma LeaveTakesEffect(w: World, init: Pool, t: nat)
    requires Inv(w, init) && t < |w.threads| && w.threads[t].Leaving?
    ensures var h := w.history + [Done(w.threads[t].call, w.threads[t].page)];
      Faithful(init, h) && w.pool == Replay(init, h)
  {
    var pc := w.threads[t];
    assert Inside(pc) && Finish(w.pool, pc) == (w.pool, pc.page);
    CallIsSequential(Replay(init, w.history), pc.call);
    FaithfulSnoc(init, w.history, Done(pc.call, pc.page));
  }

  lemma AccessStepKeeps(w: World, init: Pool, t: nat, call: Call)
    requires Inv(w, init) && t < |w.threads| && Inside(w.threads[t]) && !w.threads[t].Leaving?
    ensures Inv(Step(w, t, call), init)
  {
    var pc := w.threads[t];
    var (pool, pc') := Access(w.pool, pc);
    var w' := w.(pool := pool, threads := w.threads[t := pc']);
    assert w' == Step(w, t, call);
    assert Finish(pool, pc') == Finish(w.pool, pc);
    assert Inside(w'.threads[t]);
    forall u | 0 <= u < |w'.threads| ensures PcOk(w'.pool, w'.threads[u]) {
      assert PcOk(w.pool, w.threads[u]);
    }
  }

  /** Every step of every thread keeps the invariant. */
  lemma StepKeeps(w: World, init: Pool, t: nat, call: Call)
    requires Inv(w, init) && t < |w.threads|
    ensures Inv(Step(w, t, call), init) && |Step(w, t, call).threads| == |w.threads|
  {
    if w.threads[t].Trying? && !w.locked {
      EnterStepKeeps(w, init, t, call);
    } else if !Inside(w.threads[t]) {
      WaitStepKeeps(w, init, t, call);
    } else if w.threads[t].Leaving? {
      LeaveStepKeeps(w, init, t, call);
    } else {
      AccessStepKeeps(w, init, t, call);
    }
  }

  /** A schedule: who steps, and what call it makes if it is idle. */
  ghost function Run(w: World, init: Pool, schedule: seq<(nat, Call)>): World
    requires Inv(w, init) && forall k :: 0 <= k < |schedule| ==> schedule[k].0 < |w.threads|
    decreases |schedule|
  {
    if schedule == [] then w else
      StepKeeps(w, init, schedule[0].0, schedule[0].1);
      Run(Step(w, schedule[0].0, schedule[0].1), init, schedule[1..])
  }

  lemma {:induction false} RunKeeps(w: World, init: Pool, schedule: seq<(nat, Call)>)
    requires Inv(w, init) && forall k :: 0 <= k < |schedule| ==> schedule[k].0 < |w.threads|
    ensures Inv(Run(w, init, schedule), init)
    decreases |schedule|
  {
    if schedule != [] {
      StepKeeps(w, init, schedule[0].0, schedule[0].1);
      RunKeeps(Step(w, schedule[0].0, schedule[0].1), init, schedule[1..]);
    }
  }

  function Start(threads: nat, init: Pool): World {
    World(false, init, seq(threads, _ => Idle), [])
  }

  lemma StartInv(threads: nat, init: Pool)
    requires PoolInv(init)
    ensures Inv(Start(threads, init), init)
  {
  }

  /** In every state an interleaving reaches at most one thread is inside the lock, every finished call
  got the answer of one sequential run, and whenever the lock is free the table is the one that run leaves. */
  lemma Linearizable(threads: nat, init: Pool, schedule: seq<(nat, Call)>)
    requires PoolInv(init)
    requires forall k :: 0 <= k < |schedule| ==> schedule[k].0 < threads
    ensures (StartInv(threads, init);
      var w := Run(Start(threads, init), init, schedule);
      && (forall t, u :: 0 <= t < u < |w.threads| ==> !(Inside(w.threads[t]) && Inside(w.threads[u])))
      && Faithful(init, w.history)
      && (!w.locked ==> w.pool == Replay(init, w.history)))
  {
    StartInv(threads, init);
    RunKeeps(Start(threads, init), init, schedule);
  }

  // ----- no page has two holders -----

  /** The call gives the page back: its owner frees it, or anyone does if the kernel owns it. */
  predicate GivesBack(d: Done, page: int, owner: int) {
    d.call.FreeCall? && d.call.page == page && (d.call.pid == owner || owner == KERNEL)
  }

  lemma StepStaysTaken(p: Pool, d: Done, page: int, owner: int)
    requires PoolInv(p) && 0 <= page < |p.table| && p.table[page] == Page(true, owner)
    requires !GivesBack(d, page, owner)
    ensures Sequential(p, d.call).table[page] == Page(true, owner)
  {
    NextFit(p);
  }

  /** A page stays with its owner for as long as no finished call gives it back. */
  lemma {:induction false} StaysTaken(init: Pool, history: seq<Done>, i: nat, j: nat, page: int, owner: int)
    requires PoolInv(init) && i <= j <= |history|
    requires 0 <= page < |init.table| && Replay(init, history[..i]).table[page] == Page(true, owner)
    requires forall k :: i <= k < j ==> !GivesBack(history[k], page, owner)
    ensures Replay(init, history[..j]).table[page] == Page(true, owner)
    decreases j
  {
    if i < j {
      StaysTaken(init, history, i, j - 1, page, owner);
      assert history[..j][..j - 1] == history[..j - 1];
      StepStaysTaken(Replay(init, history[..j - 1]), history[j - 1], page, owner);
    }
  }

  /** When two allocations answer with the same page, a call in between gave it back. */
  lemma OneHolder(init: Pool, history: seq<Done>, i: nat, j: nat)
    requires PoolInv(init) && Faithful(init, history) && i < j < |history|
    requires history[i].call.AllocCall? && history[j].call.AllocCall?
    requires history[i].page == history[j].page != -1
    ensures exists k :: i < k < j && GivesBack(history[k], history[i].page, history[i].call.pid)
  {
    var page, owner := history[i].page, history[i].call.pid;
    NextFit(Replay(init, history[..j]));
    if forall k :: i < k < j ==> !GivesBack(history[k], page, owner) {
      assert history[..i + 1][..i] == history[..i];
      StaysTaken(init, history, i + 1, j, page, owner);
      assert false;
    }
  }

  // ----- next fit, over histories -----

  /** How far page `q` is past page `a`, going round a table of `n` pages. */
  function Past(a: int, q: int, n: int): int
    requires n > 0
  {
    (q - a - 1) % n
  }

  lemma PastIs(a: int, q: int, n: int)
    requires 0 <= a < n && 0 <= q < n
    ensures Past(a, q, n) == if q > a then q - a - 1 else q - a - 1 + n
  {
    Wraps(if q > a then q - a - 1 else q - a - 1 + n, n);
    if q <= a { assert (q - a - 1) % n == (q - a - 1 + n) % n; }
  }

  /** The page after `a`, going round. */
  function Following(a: int, n: int): int {
    if a + 1 == n then 0 else a + 1
  }

  lemma SequentialCursor(p: Pool, call: Call)
    requires PoolInv(p)
    ensures Sequential(p, call).last == if Answer(p, call) == -1 then p.last else Following(Answer(p, call), |p.table|)
  {
    if Answer(p, call) != -1 { Wraps(Answer(p, call) + 1, |p.table|); }
  }

  /** The page the last successful allocation of a history answered with, or -1. */
  function LastPage(history: seq<Done>): int {
    if history == [] then -1
    else if history[|history| - 1].page != -1 then history[|history| - 1].page
    else LastPage(history[..|history| - 1])
  }

  lemma {:induction false} LastPageIs(history: seq<Done>, i: nat)
    requires i < |history| && history[i].page != -1
    requires forall k :: i < k < |history| ==> history[k].page == -1
    ensures LastPage(history) == history[i].page
    decreases |history|
  {
    if i < |history| - 1 { LastPageIs(history[..|history| - 1], i); }
  }

  lemma FaithfulPrefix(init: Pool, history: seq<Done>, j: nat)
    requires PoolInv(init) && Faithful(init, history) && j <= |history|
    ensures Faithful(init, history[..j])
  {
    var h := history[..j];
    forall k | 0 <= k < j ensures h[k].page == Answer(Replay(init, h[..k]), h[k].call) {
      assert h[..k] == history[..k];
    }
  }

  /** No call but a successful allocation moves the cursor. */
  lemma {:induction false} CursorIs(init: Pool, history: seq<Done>)
    requires PoolInv(init) && Faithful(init, history)
    ensures Replay(init, history).last
         == if LastPage(history) == -1 then init.last else Following(LastPage(history), |init.table|)
    decreases |history|
  {
    if history != [] {
      var last := |history| - 1;
      FaithfulPrefix(init, history, last);
      CursorIs(init, history[..last]);
      SequentialCursor(Replay(init, history[..last]), history[last].call);
    }
  }

  lemma DistancePast(p: Pool, a: int, f: int)
    requires PoolInv(p) && 0 <= a < |p.table| && 0 <= f < |p.table| && p.last == Following(a, |p.table|)
    ensures Distance(p, f) == Past(a, f, |p.table|)
  {
    PastIs(a, f, |p.table|);
  }

  /** Page `q` is the free page that comes soonest after page `a`, going round; -1 if no page is free. */
  ghost predicate SoonestFree(table: seq<Page>, a: int, q: int) {
    if q == -1 then forall f :: 0 <= f < |table| ==> table[f].taken
    else
      && 0 <= q < |table| && !table[q].taken
      && forall f :: 0 <= f < |table| && !table[f].taken ==> Past(a, q, |table|) <= Past(a, f, |table|)
  }

  /** With the cursor behind page `a` the allocation takes the free page soonest after it. */
  lemma SoonestPast(p: Pool, a: int)
    requires PoolInv(p) && 0 <= a < |p.table| && p.last == Following(a, |p.table|)
    ensures SoonestFree(p.table, a, AllocPage(p))
  {
    NextFit(p);
    if AllocPage(p) != -1 {
      DistancePast(p, a, AllocPage(p));
      forall f | 0 <= f < |p.table| && !p.table[f].taken
        ensures Past(a, AllocPage(p), |p.table|) <= Past(a, f, |p.table|)
      {
        DistancePast(p, a, f);
      }
    }
  }

  /** Where the cursor is after a history whose last successful allocation is call `i`. */
  lemma CursorBehind(init: Pool, history: seq<Done>, i: nat)
    requires PoolInv(init) && Faithful(init, history) && i < |history| && history[i].page != -1
    requires forall k :: i < k < |history| ==> history[k].page == -1
    ensures 0 <= history[i].page < |init.table|
    ensures Replay(init, history).last == Following(history[i].page, |init.table|)
  {
    CursorIs(init, history);
    LastPageIs(history, i);
    assert history[i].page == Answer(Replay(init, history[..i]), history[i].call);
  }

  /** Next fit: after an allocation that answered with a page, whatever is given back and whatever fails in
  between, the next one answers with the free page that comes soonest after it, going round. */
  lemma NextFitHistory(init: Pool, history: seq<Done>, i: nat, j: nat)
    requires PoolInv(init) && Faithful(init, history) && i < j < |history|
    requires history[i].page != -1 && history[j].call.AllocCall?
    requires forall k :: i < k < j ==> history[k].page == -1
    ensures SoonestFree(Replay(init, history[..j]).table, history[i].page, history[j].page)
  {
    FaithfulPrefix(init, history, j);
    CursorBehind(init, history[..j], i);
    SoonestPast(Replay(init, history[..j]), history[i].page);
  }

  /** On a fresh table the first allocation answers with page 0. */
  lemma {:induction false} FirstAllocation(pages: nat, history: seq<Done>, j: nat)
    requires pages > 0 && Faithful(Init(pages), history) && j <= |history|
    requires forall k :: 0 <= k < j ==> history[k].page == -1
    ensures Replay(Init(pages), history[..j]) == Init(pages)
    ensures j < |history| && history[j].call.AllocCall? ==> history[j].page == 0
  {
    NextFit(Init(pages));
    assert !Init(pages).table[0].taken;
    if j > 0 {
      FirstAllocation(pages, history, j - 1);
      assert history[..j][..j - 1] == history[..j - 1];
    }
    assert Distance(Init(pages), 0) == 0;
  }
}
