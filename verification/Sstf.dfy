/** Shortest-seek-time-first on a line: which request is next, in what order all are served, how far
the head travels. Requests are indices into `tracks`; `done` marks the served ones. */
module Sstf {

  function AbsDiff(a: int, b: int): (d: int)
    ensures d >= 0 && (d == a - b || d == b - a)
  {
    if a > b then a - b else b - a
  }

  /** The nearest of the first `k` requests that is not done, the lowest index on a tie; -1 if all are done. */
  function Nearest(head: int, tracks: seq<int>, done: seq<bool>, k: nat): (n: int)
    requires k <= |tracks| == |done|
    ensures -1 <= n < k
    ensures n != -1 ==> !done[n]
  {
    if k == 0 then -1 else
      var b := Nearest(head, tracks, done, k - 1);
      if !done[k - 1] && (b == -1 || AbsDiff(head, tracks[k - 1]) < AbsDiff(head, tracks[b])) then k - 1 else b
  }

  lemma {:induction false} NearestIsNearest(head: int, tracks: seq<int>, done: seq<bool>, k: nat)
    requires k <= |tracks| == |done|
    ensures var n := Nearest(head, tracks, done, k);
      && (n == -1 <==> forall i :: 0 <= i < k ==> done[i])
      && (n != -1 ==> forall i :: 0 <= i < k && !done[i] ==>
            AbsDiff(head, tracks[n]) <= AbsDiff(head, tracks[i])
            && (AbsDiff(head, tracks[n]) == AbsDiff(head, tracks[i]) ==> n <= i))
  {
    if k > 0 { NearestIsNearest(head, tracks, done, k - 1); }
  }

  function Pending(done: seq<bool>): (n: nat)
    ensures n == 0 <==> forall i :: 0 <= i < |done| ==> done[i]
  {
    if done == [] then 0 else Pending(done[..|done| - 1]) + if done[|done| - 1] then 0 else 1
  }

  lemma {:induction false} PendingServed(done: seq<bool>, n: nat)
    requires n < |done| && !done[n]
    ensures Pending(done[n := true]) == Pending(done) - 1
  {
    var last := |done| - 1;
    if n < last {
      assert done[n := true][..last] == done[..last][n := true];
      PendingServed(done[..last], n);
    } else {
      assert done[n := true][..last] == done[..last];
    }
  }

  /** The textbook order: always the nearest pending request, until none is left. */
  ghost function Order(head: int, tracks: seq<int>, done: seq<bool>): seq<nat>
    requires |tracks| == |done|
    decreases Pending(done)
  {
    var n := Nearest(head, tracks, done, |tracks|);
    if n == -1 then [] else
      PendingServed(done, n);
      [n] + Order(tracks[n], tracks, done[n := true])
  }

  /** The order with a cut-off: it stops when the nearest pending request is `limit` or more away. */
  ghost function LimitedOrder(head: int, tracks: seq<int>, done: seq<bool>, limit: int): seq<nat>
    requires |tracks| == |done|
    decreases Pending(done)
  {
    var n := Nearest(head, tracks, done, |tracks|);
    if n == -1 || AbsDiff(head, tracks[n]) >= limit then [] else
      PendingServed(done, n);
      [n] + LimitedOrder(tracks[n], tracks, done[n := true], limit)
  }

  predicate Indices(tracks: seq<int>, order: seq<nat>) {
    forall k :: 0 <= k < |order| ==> order[k] < |tracks|
  }

  /** The tracks visited, in order. */
  function Visits(tracks: seq<int>, order: seq<nat>): seq<int>
    requires Indices(tracks, order)
  {
    seq(|order|, k requires 0 <= k < |order| => tracks[order[k]])
  }

  /** The sum of consecutive distances along the visits. */
  function Travel(head: int, visits: seq<int>): int
    decreases |visits|
  {
    if visits == [] then 0 else AbsDiff(head, visits[0]) + Travel(visits[0], visits[1..])
  }

  // ----- greedy at every step -----

  /** Where the head is before it serves `order[k]`. */
  function HeadAt(head: int, tracks: seq<int>, order: seq<nat>, k: nat): int
    requires Indices(tracks, order) && k <= |order|
  {
    if k == 0 then head else tracks[order[k - 1]]
  }

  /** Request `n` is open, no open one is nearer to `at`, and of those as near it has the lowest index. */
  ghost predicate NearestOpen(at: int, tracks: seq<int>, done: seq<bool>, served: seq<nat>, n: nat)
    requires |tracks| == |done|
  {
    && n < |tracks| && !done[n] && n !in served
    && forall i: nat :: i < |tracks| && !done[i] && i !in served ==>
         && AbsDiff(at, tracks[n]) <= AbsDiff(at, tracks[i])
         && (AbsDiff(at, tracks[n]) == AbsDiff(at, tracks[i]) ==> n <= i)
  }

  lemma GreedyFirst(head: int, tracks: seq<int>, done: seq<bool>)
    requires |tracks| == |done| && Nearest(head, tracks, done, |tracks|) != -1
    ensures NearestOpen(head, tracks, done, [], Nearest(head, tracks, done, |tracks|))
  {
    NearestIsNearest(head, tracks, done, |tracks|);
  }

  /** Every hop, not just the first, goes to the nearest request that is not yet served. */
  lemma {:induction false} OrderIsGreedy(head: int, tracks: seq<int>, done: seq<bool>, k: nat)
    requires |tracks| == |done| && k < |Order(head, tracks, done)|
    ensures Indices(tracks, Order(head, tracks, done))
    ensures var order := Order(head, tracks, done);
      NearestOpen(HeadAt(head, tracks, order, k), tracks, done, order[..k], order[k])
    decreases k
  {
    OrderServesAll(head, tracks, done);
    var order, n := Order(head, tracks, done), Nearest(head, tracks, done, |tracks|);
    if k == 0 {
      GreedyFirst(head, tracks, done);
      assert order[..0] == [];
    } else {
      PendingServed(done, n);
      var rest := Order(tracks[n], tracks, done[n := true]);
      OrderIsGreedy(tracks[n], tracks, done[n := true], k - 1);
      GreedyCons(head, tracks, done, n, rest, k);
    }
  }

  lemma GreedyCons(head: int, tracks: seq<int>, done: seq<bool>, n: nat, rest: seq<nat>, k: nat)
    requires |tracks| == |done| && n < |tracks| && Indices(tracks, rest) && 0 < k <= |rest|
    requires NearestOpen(HeadAt(tracks[n], tracks, rest, k - 1), tracks, done[n := true], rest[..k - 1], rest[k - 1])
    ensures Indices(tracks, [n] + rest)
    ensures NearestOpen(HeadAt(head, tracks, [n] + rest, k), tracks, done, ([n] + rest)[..k], ([n] + rest)[k])
  {
    GreedyLater(HeadAt(tracks[n], tracks, rest, k - 1), tracks, done, n, rest[..k - 1], rest[k - 1]);
    assert ([n] + rest)[..k] == [n] + rest[..k - 1];
    assert ([n] + rest)[k] == rest[k - 1];
  }

  lemma GreedyLater(at: int, tracks: seq<int>, done: seq<bool>, n: nat, served: seq<nat>, m: nat)
    requires |tracks| == |done| && n < |tracks| && NearestOpen(at, tracks, done[n := true], served, m)
    ensures NearestOpen(at, tracks, done, [n] + served, m)
  {
    assert forall i: nat :: i in [n] + served <==> i == n || i in served;
  }

  // ----- each request exactly once -----

  ghost predicate NoRepeats(order: seq<nat>) {
    forall i, j :: 0 <= i < j < |order| ==> order[i] != order[j]
  }

  /** `order` lists the requests that are not done, each once. */
  ghost predicate ServesPending(tracks: seq<int>, done: seq<bool>, order: seq<nat>)
    requires |tracks| == |done|
  {
    && NoRepeats(order)
    && Indices(tracks, order)
    && (forall i: nat :: i in order <==> i < |tracks| && !done[i])
  }

  lemma ServesCons(tracks: seq<int>, done: seq<bool>, n: nat, rest: seq<nat>)
    requires |tracks| == |done| && n < |tracks| && !done[n] && ServesPending(tracks, done[n := true], rest)
    ensures ServesPending(tracks, done, [n] + rest)
  {
    var order := [n] + rest;
    forall i: nat ensures i in order <==> i < |tracks| && !done[i] {
      assert i in order <==> i == n || i in rest;
    }
    assert n !in rest;
  }

  lemma {:induction false} OrderServesAll(head: int, tracks: seq<int>, done: seq<bool>)
    requires |tracks| == |done|
    ensures ServesPending(tracks, done, Order(head, tracks, done))
    ensures |Order(head, tracks, done)| == Pending(done)
    decreases Pending(done)
  {
    var n := Nearest(head, tracks, done, |tracks|);
    if n == -1 {
      NearestIsNearest(head, tracks, done, |tracks|);
    } else {
      PendingServed(done, n);
      OrderServesAll(tracks[n], tracks, done[n := true]);
      ServesCons(tracks, done, n, Order(tracks[n], tracks, done[n := true]));
    }
  }

  function NoneDone(n: nat): seq<bool> {
    seq(n, _ => false)
  }

  lemma {:induction false} NoneDonePending(n: nat)
    ensures Pending(NoneDone(n)) == n
  {
    if n > 0 {
      assert NoneDone(n)[..n - 1] == NoneDone(n - 1);
      NoneDonePending(n - 1);
    }
  }

  /** The textbook order is a permutation: every submitted request is served once, and the multiset of
  visited tracks is the multiset of submitted ones. */
  lemma OrderIsPermutation(head: int, tracks: seq<int>)
    ensures var order := Order(head, tracks, NoneDone(|tracks|));
      && Indices(tracks, order) && NoRepeats(order) && |order| == |tracks|
      && (forall i: nat :: i < |tracks| ==> i in order)
      && multiset(Visits(tracks, order)) == multiset(tracks)
  {
    var order := Order(head, tracks, NoneDone(|tracks|));
    OrderServesAll(head, tracks, NoneDone(|tracks|));
    NoneDonePending(|tracks|);
    assert Permutation(order, |tracks|);
    VisitsPermute(tracks, order);
  }

  /** All of 0 .. n - 1, each once. */
  ghost predicate Permutation(order: seq<nat>, n: nat) {
    && NoRepeats(order) && |order| == n
    && (forall k :: 0 <= k < |order| ==> order[k] < n)
    && (forall i: nat :: i < n ==> i in order)
  }

  lemma DropLargest(order: seq<nat>, n: nat, k: nat)
    requires Permutation(order, n) && k < n && order[k] == n - 1
    ensures Permutation(order[..k] + order[k + 1..], n - 1)
  {
    var rest := order[..k] + order[k + 1..];
    assert forall j :: 0 <= j < |rest| ==> rest[j] == order[if j < k then j else j + 1];
    forall i: nat | i < n - 1 ensures i in rest {
      assert i in order;
      var j :| 0 <= j < |order| && order[j] == i;
      assert rest[if j < k then j else j - 1] == i;
    }
  }

  lemma {:induction false} VisitsPermute(tracks: seq<int>, order: seq<nat>)
    requires Permutation(order, |tracks|)
    ensures multiset(Visits(tracks, order)) == multiset(tracks)
    decreases |tracks|
  {
    if tracks != [] {
      var last: nat := |tracks| - 1;
      assert last in order;
      var k :| 0 <= k < |order| && order[k] == last;
      var rest := order[..k] + order[k + 1..];
      DropLargest(order, |tracks|, k);
      VisitsPermute(tracks[..last], rest);
      VisitsWithout(tracks, order, k);
      assert tracks == tracks[..last] + [tracks[last]];
    }
  }

  lemma VisitsWithout(tracks: seq<int>, order: seq<nat>, k: nat)
    requires Permutation(order, |tracks|) && k < |tracks| && order[k] == |tracks| - 1
    requires Permutation(order[..k] + order[k + 1..], |tracks| - 1)
    ensures multiset(Visits(tracks, order))
         == multiset(Visits(tracks[..|tracks| - 1], order[..k] + order[k + 1..])) + multiset{tracks[|tracks| - 1]}
  {
    var v, rest := Visits(tracks, order), order[..k] + order[k + 1..];
    var w := Visits(tracks[..|tracks| - 1], rest);
    assert |w| == |v| - 1;
    forall j | 0 <= j < |w| ensures w[j] == v[if j < k then j else j + 1] {
      assert rest[j] == order[if j < k then j else j + 1];
    }
    MultisetWithout(v, w, k);
  }

  lemma MultisetWithout(v: seq<int>, w: seq<int>, k: nat)
    requires k < |v| && |w| == |v| - 1
    requires forall j :: 0 <= j < |w| ==> w[j] == v[if j < k then j else j + 1]
    ensures multiset(v) == multiset(w) + multiset{v[k]}
  {
    assert w == v[..k] + v[k + 1..];
    assert v == v[..k] + [v[k]] + v[k + 1..];
  }

  // ----- the cut-off -----

  /** Every hop along the visits is shorter than `limit`. */
  predicate HopsBelow(head: int, visits: seq<int>, limit: int)
    decreases |visits|
  {
    visits == [] || (AbsDiff(head, visits[0]) < limit && HopsBelow(visits[0], visits[1..], limit))
  }

  lemma VisitsCons(tracks: seq<int>, n: nat, rest: seq<nat>)
    requires n < |tracks| && Indices(tracks, rest)
    ensures Indices(tracks, [n] + rest)
    ensures Visits(tracks, [n] + rest) == [tracks[n]] + Visits(tracks, rest)
  {
  }

  /** The cut-off order is the textbook order up to its first hop of `limit` or more; so it serves
  everything exactly when no hop of the textbook order is that long. */
  lemma {:induction false} LimitedIsPrefix(head: int, tracks: seq<int>, done: seq<bool>, limit: int)
    requires |tracks| == |done|
    ensures var full, cut := Order(head, tracks, done), LimitedOrder(head, tracks, done, limit);
      && Indices(tracks, full) && Indices(tracks, cut)
      && cut <= full
      && HopsBelow(head, Visits(tracks, cut), limit)
      && (cut == full <==> HopsBelow(head, Visits(tracks, full), limit))
    decreases Pending(done)
  {
    OrderServesAll(head, tracks, done);
    var n := Nearest(head, tracks, done, |tracks|);
    if n != -1 {
      PendingServed(done, n);
      var t, done' := tracks[n], done[n := true];
      LimitedIsPrefix(t, tracks, done', limit);
      VisitsCons(tracks, n, Order(t, tracks, done'));
      VisitsCons(tracks, n, LimitedOrder(t, tracks, done', limit));
      HopsCons(head, t, Visits(tracks, Order(t, tracks, done')), limit);
      HopsCons(head, t, Visits(tracks, LimitedOrder(t, tracks, done', limit)), limit);
    }
  }

  lemma HopsCons(head: int, t: int, visits: seq<int>, limit: int)
    ensures HopsBelow(head, [t] + visits, limit) <==> AbsDiff(head, t) < limit && HopsBelow(t, visits, limit)
  {
    assert ([t] + visits)[1..] == visits;
  }

  /** What is given up is at least `limit` away from where the head comes to rest. */
  lemma {:induction false} LeftBehind(head: int, tracks: seq<int>, done: seq<bool>, limit: int, i: nat)
    requires |tracks| == |done| && i < |tracks| && !done[i]
    requires i !in LimitedOrder(head, tracks, done, limit)
    ensures Indices(tracks, LimitedOrder(head, tracks, done, limit))
    ensures AbsDiff(Rest(head, Visits(tracks, LimitedOrder(head, tracks, done, limit))), tracks[i]) >= limit
    decreases Pending(done)
  {
    LimitedIsPrefix(head, tracks, done, limit);
    NearestIsNearest(head, tracks, done, |tracks|);
    var cut := LimitedOrder(head, tracks, done, limit);
    if cut != [] {
      var n := cut[0];
      PendingServed(done, n);
      LeftBehind(tracks[n], tracks, done[n := true], limit, i);
      assert Visits(tracks, cut)[1..] == Visits(tracks, LimitedOrder(tracks[n], tracks, done[n := true], limit));
    }
  }

  function Rest(head: int, visits: seq<int>): int
    decreases |visits|
  {
    if visits == [] then head else Rest(visits[0], visits[1..])
  }

  /** Tracks that span less than the cut-off, head included, are all served. */
  lemma {:induction false} NarrowHops(head: int, visits: seq<int>, limit: int, lo: int, hi: int)
    requires lo <= head <= hi && hi - lo < limit
    requires forall k :: 0 <= k < |visits| ==> lo <= visits[k] <= hi
    ensures HopsBelow(head, visits, limit)
    decreases |visits|
  {
    if visits != [] { NarrowHops(visits[0], visits[1..], limit, lo, hi); }
  }

  // ----- the competitive bound -----

  /** The state of a sweep: the head is at one end of the stretch [lo, hi] it has covered, nothing is
  pending inside it except under the head, and beyond the far end nothing is pending within `c`. */
  ghost predicate Sweep(head: int, tracks: seq<int>, done: seq<bool>, lo: int, hi: int, c: int)
    requires |tracks| == |done|
  {
    && lo <= hi && (head == lo || head == hi)
    && 0 <= c <= hi - lo
    && (forall i :: 0 <= i < |tracks| && !done[i] ==>
         tracks[i] == head ||
         (if head == hi then tracks[i] > hi || tracks[i] <= lo - c
          else tracks[i] < lo || tracks[i] >= hi + c))
    && (forall i :: 0 <= i < |tracks| && !done[i] ==> tracks[i] == head || tracks[i] < lo || tracks[i] > hi)
  }

  /** Where a sweep stands after its next hop, to track `t`. */
  datatype Stretch = Stretch(lo: int, hi: int, c: int, over: int)

  function Hop(s: Stretch, head: int, t: int): Stretch {
    if t == head then s
    else if t > s.hi then
      if head == s.hi then s.(hi := t) else Stretch(s.lo, t, t - s.lo, s.over + (s.hi - s.lo))
    else
      if head == s.lo then s.(lo := t) else Stretch(t, s.hi, s.hi - t, s.over + (s.hi - s.lo))
  }

  lemma HopKeepsSweep(head: int, tracks: seq<int>, done: seq<bool>, s: Stretch, n: nat)
    requires |tracks| == |done| && Sweep(head, tracks, done, s.lo, s.hi, s.c)
    requires n == Nearest(head, tracks, done, |tracks|)
    ensures var s' := Hop(s, head, tracks[n]); Sweep(tracks[n], tracks, done[n := true], s'.lo, s'.hi, s'.c)
  {
    NearestIsNearest(head, tracks, done, |tracks|);
    var s', done' := Hop(s, head, tracks[n]), done[n := true];
    assert forall i :: 0 <= i < |tracks| && !done'[i] ==> !done[i];
  }

  /** A hop adds to the stretch and to the crossings what it costs, and the crossings stay within the last one. */
  lemma HopCost(head: int, tracks: seq<int>, done: seq<bool>, s: Stretch, n: nat)
    requires |tracks| == |done| && Sweep(head, tracks, done, s.lo, s.hi, s.c) && n < |tracks| && !done[n]
    requires 0 <= s.over <= s.c
    ensures var s' := Hop(s, head, tracks[n]);
      && 0 <= s'.over <= s'.c
      && (s'.hi - s'.lo) + s'.over == (s.hi - s.lo) + s.over + AbsDiff(head, tracks[n])
      && s'.lo == (if tracks[n] < s.lo then tracks[n] else s.lo)
      && s'.hi == (if tracks[n] > s.hi then tracks[n] else s.hi)
  {
  }

  lemma TravelCons(head: int, t: int, visits: seq<int>)
    ensures Travel(head, [t] + visits) == AbsDiff(head, t) + Travel(t, visits)
  {
    assert ([t] + visits)[1..] == visits;
  }

  /** Each crossing of the covered stretch is at least twice as long as the one before it, so all
  crossings together, `over` for those already made, cost no more than what is covered in the end. */
  lemma {:induction false} SweepBound(head: int, tracks: seq<int>, done: seq<bool>, s: Stretch, m: int, M: int)
    requires |tracks| == |done| && Sweep(head, tracks, done, s.lo, s.hi, s.c)
    requires 0 <= s.over <= s.c && m <= s.lo && s.hi <= M
    requires forall i :: 0 <= i < |tracks| && !done[i] ==> m <= tracks[i] <= M
    ensures Indices(tracks, Order(head, tracks, done))
    ensures (s.hi - s.lo) + s.over + Travel(head, Visits(tracks, Order(head, tracks, done))) <= 2 * (M - m)
    decreases Pending(done)
  {
    var n := Nearest(head, tracks, done, |tracks|);
    if n != -1 {
      var t, done' := tracks[n], done[n := true];
      PendingServed(done, n);
      HopKeepsSweep(head, tracks, done, s, n);
      HopCost(head, tracks, done, s, n);
      SweepBound(t, tracks, done', Hop(s, head, t), m, M);
      VisitsCons(tracks, n, Order(t, tracks, done'));
      TravelCons(head, t, Visits(tracks, Order(t, tracks, done')));
    }
  }

  /** The head never travels more than twice the stretch between the outermost of the tracks and its
  own starting place. */
  lemma TravelWithinTwice(head: int, tracks: seq<int>, m: int, M: int)
    requires m <= head <= M
    requires forall i :: 0 <= i < |tracks| ==> m <= tracks[i] <= M
    ensures Indices(tracks, Order(head, tracks, NoneDone(|tracks|)))
    ensures Travel(head, Visits(tracks, Order(head, tracks, NoneDone(|tracks|)))) <= 2 * (M - m)
  {
    SweepBound(head, tracks, NoneDone(|tracks|), Stretch(head, head, 0, 0), m, M);
  }

  /** Any route travels at least the distance between two places it touches. */
  lemma {:induction false} RouteCovers(head: int, visits: seq<int>, a: int, b: int)
    requires a == head || a in visits
    requires b == head || b in visits
    ensures AbsDiff(a, b) <= Travel(head, visits)
    decreases |visits|
  {
    if visits != [] {
      if a != head || b != head {
        var x := if a == head then visits[0] else a;
        var y := if b == head then visits[0] else b;
        RouteCovers(visits[0], visits[1..], x, y);
      } else {
        RouteCovers(visits[0], visits[1..], visits[0], visits[0]);
      }
    }
  }

  function Lowest(head: int, tracks: seq<int>): (m: int)
    ensures m <= head && forall i :: 0 <= i < |tracks| ==> m <= tracks[i]
    ensures m == head || m in tracks
  {
    if tracks == [] then head else
      var m := Lowest(head, tracks[..|tracks| - 1]);
      if tracks[|tracks| - 1] < m then tracks[|tracks| - 1] else m
  }

  function Highest(head: int, tracks: seq<int>): (m: int)
    ensures m >= head && forall i :: 0 <= i < |tracks| ==> m >= tracks[i]
    ensures m == head || m in tracks
  {
    if tracks == [] then head else
      var m := Highest(head, tracks[..|tracks| - 1]);
      if tracks[|tracks| - 1] > m then tracks[|tracks| - 1] else m
  }

  /** Shortest-seek-first is 2-competitive: no route that serves the same requests is shorter than half. */
  lemma TwoCompetitive(head: int, tracks: seq<int>, route: seq<int>)
    requires forall t :: t in tracks ==> t in route
    ensures Indices(tracks, Order(head, tracks, NoneDone(|tracks|)))
    ensures Travel(head, Visits(tracks, Order(head, tracks, NoneDone(|tracks|)))) <= 2 * Travel(head, route)
  {
    var m, M := Lowest(head, tracks), Highest(head, tracks);
    TravelWithinTwice(head, tracks, m, M);
    RouteCovers(head, route, m, M);
  }
}
