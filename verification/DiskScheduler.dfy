/** The disk scheduler's request table and its service loop. */
module DiskScheduler {
  import opened Sstf

  const MAX_DISK_REQUESTS := 64
  /** Where the search for the nearest request starts; nothing this far away is ever chosen. */
  const FAR := 999999

  class Disk {
    const requestQueue: array<int>
    var queueSize: nat

    ghost predicate Valid()
      reads this
    {
      requestQueue.Length == MAX_DISK_REQUESTS && queueSize <= MAX_DISK_REQUESTS
    }

    ghost function Requests(): seq<int>
      requires Valid()
      reads this, requestQueue
    {
      requestQueue[..queueSize]
    }

    constructor ()
      ensures Valid() && Requests() == []
    {
      requestQueue := new int[MAX_DISK_REQUESTS];
      queueSize := 0;
    }

    method Submit(track: int) returns (ok: bool)
      requires Valid()
      modifies this, requestQueue
      ensures Valid()
      ensures ok <==> |old(Requests())| < MAX_DISK_REQUESTS
      ensures Requests() == if ok then old(Requests()) + [track] else old(Requests())
    {
      if queueSize >= MAX_DISK_REQUESTS {
        return false;
      }
      requestQueue[queueSize] := track;
      queueSize := queueSize + 1;
      return true;
    }

    /** The shortest seek from `head` among the requests not completed, or -1 if none is closer than `FAR`. */
    method FindNext(head: int, completed: array<bool>) returns (nextIdx: int, minDist: int)
      requires Valid() && queueSize <= completed.Length
      ensures var n := Nearest(head, Requests(), completed[..queueSize], queueSize);
        if n == -1 || AbsDiff(head, Requests()[n]) >= FAR then nextIdx == -1
        else nextIdx == n && minDist == AbsDiff(head, Requests()[n])
    {
      minDist, nextIdx := FAR, -1;
      ghost var tracks, done := Requests(), completed[..queueSize];
      for i := 0 to queueSize
        invariant var n := Nearest(head, tracks, done, i);
          if n == -1 || AbsDiff(head, tracks[n]) >= FAR then nextIdx == -1 && minDist == FAR
          else nextIdx == n && minDist == AbsDiff(head, tracks[n])
      {
        if !completed[i] {
          var dist := AbsDiff(head, requestQueue[i]);
          if dist < minDist {
            minDist := dist;
            nextIdx := i;
          }
        }
      }
    }

    /** Serves the queue and empties it. `served` is the sequence of tracks printed on the way and `total`
    the head movement printed at the end: the shortest-seek-first order of the requests, up to the first
    hop of `FAR` or more, and the distance along it. */
    method ProcessRequests(initialHead: int) returns (served: seq<int>, total: int)
      requires Valid()
      modifies this
      ensures Valid() && Requests() == []
      ensures var tracks := old(Requests());
        var order := LimitedOrder(initialHead, tracks, NoneDone(|tracks|), FAR);
        Indices(tracks, order) && served == Visits(tracks, order) && total == Travel(initialHead, served)
    {
      served, total := [], 0;
      ghost var tracks := Requests();
      ghost var order: seq<nat> := [];
      ServingStart(initialHead, tracks);
      if queueSize == 0 {
        return;
      }
      var head := initialHead;
      var completed := new bool[MAX_DISK_REQUESTS](_ => false);
      assert completed[..queueSize] == NoneDone(|tracks|);
      for count := 0 to queueSize
        invariant Valid() && queueSize == |tracks| && Requests() == tracks && fresh(completed)
        invariant Serving(initialHead, tracks, completed[..queueSize], head, order, served, total, queueSize - count)
      {
        head, served, total, order := Round(head, completed, served, total, initialHead, order, queueSize - count);
      }
      queueSize := 0;
    }

    /** One round: serves the nearest pending request, if one is near enough. */
    method Round(head: int, completed: array<bool>, served: seq<int>, total: int,
                 ghost initialHead: int, ghost order: seq<nat>, ghost left: int)
      returns (newHead: int, newServed: seq<int>, newTotal: int, ghost newOrder: seq<nat>)
      requires Valid() && queueSize <= completed.Length
      requires Serving(initialHead, Requests(), completed[..queueSize], head, order, served, total, left) && 0 < left
      modifies completed
      ensures Serving(initialHead, Requests(), completed[..queueSize], newHead, newOrder, newServed, newTotal, left - 1)
    {
      newHead, newServed, newTotal, newOrder := head, served, total, order;
      ghost var done := completed[..queueSize];
      var nextIdx, minDist := FindNext(head, completed);
      if nextIdx != -1 {
        completed[nextIdx] := true;
        assert completed[..queueSize] == done[nextIdx := true];
        ServingStep(initialHead, Requests(), done, head, order, served, total, left, nextIdx);
        newServed := served + [requestQueue[nextIdx]];
        newTotal := total + minDist;
        newHead := requestQueue[nextIdx];
        newOrder := order + [nextIdx];
      }
    }

    /** The loop state with `left` rounds to go: what has been served, how far the head moved for it,
    where it is, and that what remains of the order follows from there. */
    static ghost predicate Serving(initialHead: int, tracks: seq<int>, done: seq<bool>, head: int,
                                         order: seq<nat>, served: seq<int>, total: int, left: int) {
      && |done| == |tracks|
      && Indices(tracks, order)
      && served == Visits(tracks, order)
      && head == Rest(initialHead, served)
      && total == Travel(initialHead, served)
      && order + LimitedOrder(head, tracks, done, FAR) == LimitedOrder(initialHead, tracks, NoneDone(|tracks|), FAR)
      && (Pending(done) <= left || LimitedOrder(head, tracks, done, FAR) == [])
    }

    static lemma ServingStart(head: int, tracks: seq<int>)
      ensures Serving(head, tracks, NoneDone(|tracks|), head, [], [], 0, |tracks|)
    {
      NoneDonePending(|tracks|);
    }

    static lemma ServingStep(initialHead: int, tracks: seq<int>, done: seq<bool>, head: int,
                                   order: seq<nat>, served: seq<int>, total: int, left: int, n: nat)
      requires Serving(initialHead, tracks, done, head, order, served, total, left)
      requires n == Nearest(head, tracks, done, |tracks|) && AbsDiff(head, tracks[n]) < FAR
      ensures Serving(initialHead, tracks, done[n := true], tracks[n], order + [n], served + [tracks[n]],
                      total + AbsDiff(head, tracks[n]), left - 1)
    {
      TravelSnoc(initialHead, served, tracks[n]);
      PendingServed(done, n);
      var rest := LimitedOrder(tracks[n], tracks, done[n := true], FAR);
      assert (order + [n]) + rest == order + ([n] + rest);
    }
  }

  /** Nothing visited, nothing travelled; each further visit adds just its distance from the one before. */
  lemma {:induction false} TravelSnoc(head: int, visits: seq<int>, t: int)
    ensures Travel(head, []) == 0 && Rest(head, []) == head
    ensures Travel(head, visits + [t]) == Travel(head, visits) + AbsDiff(Rest(head, visits), t)
    ensures Rest(head, visits + [t]) == t
    decreases |visits|
  {
    if visits == [] {
      assert (visits + [t])[1..] == [];
    } else {
      assert (visits + [t])[1..] == visits[1..] + [t];
      TravelSnoc(visits[0], visits[1..], t);
    }
  }

  /** When head and tracks span less than the cut-off, the service loop serves every request exactly once
  and moves the head at most twice as far as any route that serves them. */
  lemma NarrowQueueServed(head: int, tracks: seq<int>, lo: int, hi: int, route: seq<int>)
    requires lo <= head <= hi && hi - lo < FAR
    requires forall i :: 0 <= i < |tracks| ==> lo <= tracks[i] <= hi
    requires forall t :: t in tracks ==> t in route
    ensures var order := LimitedOrder(head, tracks, NoneDone(|tracks|), FAR);
      && Permutation(order, |tracks|)
      && multiset(Visits(tracks, order)) == multiset(tracks)
      && Travel(head, Visits(tracks, order)) <= 2 * (hi - lo)
      && Travel(head, Visits(tracks, order)) <= 2 * Travel(head, route)
  {
    var full := Order(head, tracks, NoneDone(|tracks|));
    OrderIsPermutation(head, tracks);
    NarrowHops(head, Visits(tracks, full), FAR, lo, hi);
    LimitedIsPrefix(head, tracks, NoneDone(|tracks|), FAR);
    TravelWithinTwice(head, tracks, lo, hi);
    TwoCompetitive(head, tracks, route);
  }

  /** A request at the cut-off distance is dropped without being served; one track nearer it is served. */
  lemma FarRequestDropped()
    ensures LimitedOrder(0, [999999], NoneDone(1), FAR) == []
    ensures LimitedOrder(0, [999998], NoneDone(1), FAR) == [0]
  {
    forall t: int ensures Nearest(0, [t], NoneDone(1), 1) == 0 {
      assert Nearest(0, [t], NoneDone(1), 0) == -1;
    }
    assert NoneDone(1)[0 := true] == [true];
    assert Nearest(999998, [999998], [true], 1) == Nearest(999998, [999998], [true], 0) == -1;
    assert LimitedOrder(999998, [999998], [true], FAR) == [];
  }
}
