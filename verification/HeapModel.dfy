/** The heap as the list of its blocks, in address order, and what allocating and freeing do to it.

`Heap.dfy` holds the intrusive linked list in memory, proved against these functions.
*/
module HeapModel {

  const NULL := 0
  /** A block is split only if more than this is left beside the new header. */
  const SLACK := 8

  datatype Block = Block(addr: int, size: int, free: bool)

  datatype Heap = Heap(base: int, header: int, limit: int, blocks: seq<Block>)

  function End(h: Heap, b: Block): int {
    b.addr + h.header + b.size
  }

  // ----- shape -----

  /** Block `i + 1` starts where block `i` ends. */
  ghost predicate Follows(bs: seq<Block>, header: int, i: int)
    requires 0 <= i < |bs| - 1
  {
    bs[i + 1].addr == bs[i].addr + header + bs[i].size
  }

  ghost predicate NotBothFree(bs: seq<Block>, i: int)
    requires 0 <= i < |bs| - 1
  {
    !(bs[i].free && bs[i + 1].free)
  }

  ghost predicate Tiles(bs: seq<Block>, header: int, from: int, to: int) {
    && bs != []
    && bs[0].addr == from
    && (forall i :: 0 <= i < |bs| ==> bs[i].size >= 0)
    && (forall i :: 0 <= i < |bs| - 1 ==> Follows(bs, header, i))
    && bs[|bs| - 1].addr + header + bs[|bs| - 1].size == to
  }

  ghost predicate NoFreeNeighbours(bs: seq<Block>) {
    forall i :: 0 <= i < |bs| - 1 ==> NotBothFree(bs, i)
  }

  /** The blocks cover the heap without gap or overlap, and no two neighbours are both free. */
  ghost predicate HeapInv(h: Heap) {
    && 0 < h.base && 0 < h.header
    && Tiles(h.blocks, h.header, h.base, h.base + h.limit)
    && NoFreeNeighbours(h.blocks)
  }

  lemma {:induction false} TilesOrdered(bs: seq<Block>, header: int, from: int, to: int, i: nat, j: nat)
    requires 0 < header && Tiles(bs, header, from, to) && i < j < |bs|
    ensures bs[i].addr + header + bs[i].size <= bs[j].addr
    decreases j
  {
    assert Follows(bs, header, j - 1);
    if i + 1 < j { TilesOrdered(bs, header, from, to, i, j - 1); }
  }

  ghost function Live(bs: seq<Block>): set<Block> {
    set b | b in bs && !b.free
  }

  /** Two live blocks share no byte, and each lies within the heap. */
  lemma Separation(h: Heap, b: Block, c: Block)
    requires HeapInv(h) && b in Live(h.blocks) && c in Live(h.blocks)
    ensures h.base <= b.addr && End(h, b) <= h.base + h.limit
    ensures b != c ==> End(h, b) <= c.addr || End(h, c) <= b.addr
  {
    var i :| 0 <= i < |h.blocks| && h.blocks[i] == b;
    var j :| 0 <= j < |h.blocks| && h.blocks[j] == c;
    InHeap(h, i);
    if i < j { TilesOrdered(h.blocks, h.header, h.base, h.base + h.limit, i, j); }
    if j < i { TilesOrdered(h.blocks, h.header, h.base, h.base + h.limit, j, i); }
  }

  lemma InHeap(h: Heap, i: nat)
    requires HeapInv(h) && i < |h.blocks|
    ensures h.base <= h.blocks[i].addr && End(h, h.blocks[i]) <= h.base + h.limit
  {
    var last := |h.blocks| - 1;
    if 0 < i { TilesOrdered(h.blocks, h.header, h.base, h.base + h.limit, 0, i); }
    if i < last { TilesOrdered(h.blocks, h.header, h.base, h.base + h.limit, i, last); }
  }

  // ----- the operations -----

  function Init(base: int, header: int, limit: int): Heap {
    Heap(base, header, limit, [Block(base, limit - header, true)])
  }

  predicate Fits(b: Block, n: int) {
    b.free && b.size >= n
  }

  /** The first block from `k` on that fits, or the number of blocks. */
  function FirstFit(bs: seq<Block>, n: int, k: nat): (i: nat)
    requires k <= |bs|
    ensures k <= i <= |bs|
    ensures i < |bs| ==> Fits(bs[i], n)
    ensures forall j :: k <= j < i ==> !Fits(bs[j], n)
    decreases |bs| - k
  {
    if k == |bs| || Fits(bs[k], n) then k else FirstFit(bs, n, k + 1)
  }

  /** What the chosen block becomes: the allocation, and the rest as a free block if it is large enough. */
  function Split(b: Block, header: int, n: int): seq<Block> {
    if b.size > n + header + SLACK
    then [Block(b.addr, n, false), Block(b.addr + header + n, b.size - n - header, true)]
    else [b.(free := false)]
  }

  function Malloc(h: Heap, n: int): Heap {
    var i := FirstFit(h.blocks, n, 0);
    if i == |h.blocks| then h
    else h.(blocks := h.blocks[..i] + Split(h.blocks[i], h.header, n) + h.blocks[i + 1..])
  }

  function MallocPtr(h: Heap, n: int): int {
    var i := FirstFit(h.blocks, n, 0);
    if i == |h.blocks| then NULL else h.blocks[i].addr + h.header
  }

  function Merge(b: Block, c: Block, header: int): Block {
    b.(size := b.size + header + c.size)
  }

  /** The coalescing pass: from the left, a free block absorbs the free blocks right after it. */
  function Coalesce(bs: seq<Block>, header: int): seq<Block>
    decreases |bs|
  {
    if |bs| < 2 then bs
    else if bs[0].free && bs[1].free then Coalesce([Merge(bs[0], bs[1], header)] + bs[2..], header)
    else [bs[0]] + Coalesce(bs[1..], header)
  }

  function IndexOf(bs: seq<Block>, addr: int): (i: nat)
    ensures i <= |bs| && (i < |bs| ==> bs[i].addr == addr)
    ensures forall j :: 0 <= j < i ==> bs[j].addr != addr
  {
    if bs == [] || bs[0].addr == addr then 0 else
      var i := IndexOf(bs[1..], addr);
      assert forall j :: 0 < j < i + 1 ==> bs[j] == bs[1..][j - 1];
      i + 1
  }

  /** `p` is the payload address of a block in the list. */
  ghost predicate IsBlock(h: Heap, p: int) {
    IndexOf(h.blocks, p - h.header) < |h.blocks|
  }

  function Marked(bs: seq<Block>, i: nat): seq<Block>
    requires i < |bs|
  {
    bs[i := bs[i].(free := true)]
  }

  ghost function Free(h: Heap, p: int): Heap
    requires p == NULL || IsBlock(h, p)
  {
    if p == NULL then h
    else h.(blocks := Coalesce(Marked(h.blocks, IndexOf(h.blocks, p - h.header)), h.header))
  }

  // ----- allocating -----

  lemma SplitTiles(b: Block, header: int, n: int)
    requires 0 < header && 0 <= n && Fits(b, n)
    ensures Tiles(Split(b, header, n), header, b.addr, b.addr + header + b.size)
    ensures NoFreeNeighbours(Split(b, header, n))
    ensures var a := Split(b, header, n)[0]; a.addr == b.addr && !a.free && n <= a.size <= n + header + SLACK
    ensures Live(Split(b, header, n)) == {Split(b, header, n)[0]}
  {
  }

  /** Replacing a block by a tiling of its extent keeps the tiling. */
  lemma TilesReplace(bs: seq<Block>, mid: seq<Block>, header: int, from: int, to: int, i: nat)
    requires Tiles(bs, header, from, to) && i < |bs|
    requires Tiles(mid, header, bs[i].addr, bs[i].addr + header + bs[i].size)
    ensures Tiles(bs[..i] + mid + bs[i + 1..], header, from, to)
  {
    var cs := bs[..i] + mid + bs[i + 1..];
    forall j | 0 <= j < |cs| - 1 ensures Follows(cs, header, j) {
      if j < i { assert Follows(bs, header, j); }
      else if j < i + |mid| - 1 { assert Follows(mid, header, j - i); }
      else { assert Follows(bs, header, j - |mid| + 1); }
    }
  }

  lemma LiveConcat(a: seq<Block>, b: seq<Block>)
    ensures Live(a + b) == Live(a) + Live(b)
  {
  }

  /** The block a successful allocation hands out. */
  function MallocBlock(h: Heap, n: int): Block
    requires MallocPtr(h, n) != NULL
  {
    Split(h.blocks[FirstFit(h.blocks, n, 0)], h.header, n)[0]
  }

  /** Allocation keeps the shape. When it succeeds, exactly one live block is added, of at least the
  requested size and at most a header and the slack more; when it fails, nothing changes. */
  lemma MallocKeeps(h: Heap, n: int)
    requires HeapInv(h) && 0 <= n
    ensures HeapInv(Malloc(h, n))
    ensures MallocPtr(h, n) == NULL ==> Malloc(h, n) == h
    ensures MallocPtr(h, n) != NULL ==>
      var b := MallocBlock(h, n);
      && b.addr + h.header == MallocPtr(h, n) && n <= b.size <= n + h.header + SLACK
      && b !in Live(h.blocks) && Live(Malloc(h, n).blocks) == Live(h.blocks) + {b}
  {
    var i := FirstFit(h.blocks, n, 0);
    if i < |h.blocks| {
      InHeap(h, i);
      var b, mid := h.blocks[i], Split(h.blocks[i], h.header, n);
      SplitTiles(b, h.header, n);
      FreshBlock(h, i, mid[0]);
      LiveReplace(h.blocks, mid, i);
      ReplaceKeeps(h, mid, i);
    }
  }

  lemma ReplaceKeeps(h: Heap, mid: seq<Block>, i: nat)
    requires HeapInv(h) && i < |h.blocks| && h.blocks[i].free
    requires Tiles(mid, h.header, h.blocks[i].addr, End(h, h.blocks[i])) && NoFreeNeighbours(mid) && !mid[0].free
    ensures HeapInv(h.(blocks := h.blocks[..i] + mid + h.blocks[i + 1..]))
  {
    TilesReplace(h.blocks, mid, h.header, h.base, h.base + h.limit, i);
    SplitNeighbours(h.blocks, mid, i);
  }

  lemma FreshBlock(h: Heap, i: nat, a: Block)
    requires HeapInv(h) && i < |h.blocks| && h.blocks[i].free && a.addr == h.blocks[i].addr
    ensures a !in Live(h.blocks)
  {
    if a in Live(h.blocks) {
      var j :| 0 <= j < |h.blocks| && h.blocks[j] == a;
      if i < j { TilesOrdered(h.blocks, h.header, h.base, h.base + h.limit, i, j); }
      if j < i { TilesOrdered(h.blocks, h.header, h.base, h.base + h.limit, j, i); }
    }
  }

  lemma SplitNeighbours(bs: seq<Block>, mid: seq<Block>, i: nat)
    requires NoFreeNeighbours(bs) && i < |bs| && bs[i].free
    requires mid != [] && !mid[0].free && NoFreeNeighbours(mid)
    ensures NoFreeNeighbours(bs[..i] + mid + bs[i + 1..])
  {
    var cs := bs[..i] + mid + bs[i + 1..];
    forall j | 0 <= j < |cs| - 1 ensures NotBothFree(cs, j) {
      if j < i { assert NotBothFree(bs, j); }
      else if j < i + |mid| - 1 { assert NotBothFree(mid, j - i); }
      else { assert NotBothFree(bs, j - |mid| + 1); }
    }
  }

  lemma LiveReplace(bs: seq<Block>, mid: seq<Block>, i: nat)
    requires i < |bs| && bs[i].free
    ensures Live(bs[..i] + mid + bs[i + 1..]) == Live(bs) + Live(mid)
  {
    assert bs == bs[..i] + [bs[i]] + bs[i + 1..];
    LiveConcat(bs[..i] + mid, bs[i + 1..]);
    LiveConcat(bs[..i], mid);
    LiveConcat(bs[..i] + [bs[i]], bs[i + 1..]);
    LiveConcat(bs[..i], [bs[i]]);
  }

  // ----- when allocation fails -----

  /** From `a` on there is room for a header and `n` bytes in the heap, clear of every live block. */
  ghost predicate Room(h: Heap, a: int, n: int) {
    && h.base <= a && a + h.header + n <= h.base + h.limit
    && forall b :: b in Live(h.blocks) ==> a + h.header + n <= b.addr || End(h, b) <= a
  }

  /** First fit over a coalesced heap is complete: it fails exactly when nowhere in the heap is there room
  for a header and the payload clear of every live block. */
  lemma MallocFailsIff(h: Heap, n: int)
    requires HeapInv(h) && 0 <= n
    ensures MallocPtr(h, n) == NULL <==> forall a :: !Room(h, a, n)
  {
    var i := FirstFit(h.blocks, n, 0);
    if i < |h.blocks| {
      InHeap(h, i);
      FreeBlockIsRoom(h, n, i);
    } else {
      forall a ensures !Room(h, a, n) {
        if Room(h, a, n) { RoomFits(h, a, n); }
      }
    }
  }

  lemma FreeBlockIsRoom(h: Heap, n: int, i: nat)
    requires HeapInv(h) && 0 <= n && i < |h.blocks| && Fits(h.blocks[i], n)
    ensures Room(h, h.blocks[i].addr, n)
  {
    InHeap(h, i);
    forall b | b in Live(h.blocks) ensures End(h, h.blocks[i]) <= b.addr || End(h, b) <= h.blocks[i].addr {
      var j :| 0 <= j < |h.blocks| && h.blocks[j] == b;
      if i < j { TilesOrdered(h.blocks, h.header, h.base, h.base + h.limit, i, j); }
      if j < i { TilesOrdered(h.blocks, h.header, h.base, h.base + h.limit, j, i); }
    }
  }

  /** Room lies within one free block. */
  lemma RoomFits(h: Heap, a: int, n: int)
    requires HeapInv(h) && 0 <= n && Room(h, a, n)
    ensures exists i :: 0 <= i < |h.blocks| && Fits(h.blocks[i], n) && h.blocks[i].addr <= a
  {
    var i := 0;
    while i + 1 < |h.blocks| && h.blocks[i + 1].addr <= a
      invariant 0 <= i < |h.blocks| && h.blocks[i].addr <= a
    {
      i := i + 1;
    }
    var b := h.blocks[i];
    if i + 1 < |h.blocks| { assert Follows(h.blocks, h.header, i) && NotBothFree(h.blocks, i); }
    assert a < End(h, b);
    assert b.free;
    if i + 1 < |h.blocks| {
      var c := h.blocks[i + 1];
      assert !c.free;
      assert c in Live(h.blocks);
    }
    assert Fits(b, n);
  }

  /** First fit: of all places in the heap where a header and the payload would be clear of every live block,
  the allocation takes the lowest. */
  lemma MallocLowest(h: Heap, n: int)
    requires HeapInv(h) && 0 <= n && MallocPtr(h, n) != NULL
    ensures Room(h, MallocPtr(h, n) - h.header, n)
    ensures forall a :: Room(h, a, n) ==> MallocPtr(h, n) - h.header <= a
  {
    var i := FirstFit(h.blocks, n, 0);
    FreeBlockIsRoom(h, n, i);
    forall a | Room(h, a, n) ensures h.blocks[i].addr <= a {
      RoomFits(h, a, n);
      var j :| 0 <= j < |h.blocks| && Fits(h.blocks[j], n) && h.blocks[j].addr <= a;
      if i < j { TilesOrdered(h.blocks, h.header, h.base, h.base + h.limit, i, j); }
    }
  }

  /** At a free block there is room for exactly what the block holds. */
  lemma RoomAtBlock(h: Heap, i: nat, m: int)
    requires HeapInv(h) && i < |h.blocks| && h.blocks[i].free && 0 <= m
    ensures Room(h, h.blocks[i].addr, m) <==> m <= h.blocks[i].size
  {
    InHeap(h, i);
    if m <= h.blocks[i].size {
      FreeBlockIsRoom(h, m, i);
    } else if i + 1 < |h.blocks| {
      assert Follows(h.blocks, h.header, i) && NotBothFree(h.blocks, i);
      assert h.blocks[i + 1] in Live(h.blocks);
    }
  }

  /** The allocation is cut to the requested size exactly when a header and more than 8 bytes are left
  beside it; otherwise it takes all the room there is. */
  lemma MallocCuts(h: Heap, n: int)
    requires HeapInv(h) && 0 <= n && MallocPtr(h, n) != NULL
    ensures var b := MallocBlock(h, n);
      if Room(h, b.addr, n + h.header + 9) then b.size == n
      else Room(h, b.addr, b.size) && !Room(h, b.addr, b.size + 1)
  {
    var i := FirstFit(h.blocks, n, 0);
    var b := MallocBlock(h, n);
    RoomAtBlock(h, i, n + h.header + 9);
    RoomAtBlock(h, i, b.size);
    RoomAtBlock(h, i, b.size + 1);
  }

  // ----- freeing -----

  lemma MergeTiles(bs: seq<Block>, header: int, from: int, to: int)
    requires Tiles(bs, header, from, to) && 0 < header && |bs| >= 2 && bs[0].free && bs[1].free
    ensures Tiles([Merge(bs[0], bs[1], header)] + bs[2..], header, from, to)
    ensures Live([Merge(bs[0], bs[1], header)] + bs[2..]) == Live(bs)
  {
    var cs := [Merge(bs[0], bs[1], header)] + bs[2..];
    assert Follows(bs, header, 0);
    forall j | 0 <= j < |cs| - 1 ensures Follows(cs, header, j) {
      assert Follows(bs, header, j + 1);
    }
    LiveConcat([bs[0], bs[1]], bs[2..]);
    LiveConcat([Merge(bs[0], bs[1], header)], bs[2..]);
    assert bs == [bs[0], bs[1]] + bs[2..];
  }

  lemma TilesRest(bs: seq<Block>, header: int, from: int, to: int)
    requires Tiles(bs, header, from, to) && |bs| >= 2
    ensures Tiles(bs[1..], header, from + header + bs[0].size, to)
    ensures NoFreeNeighbours(bs) ==> NoFreeNeighbours(bs[1..]) && !(bs[0].free && bs[1].free)
  {
    assert Follows(bs, header, 0);
    forall j | 0 <= j < |bs[1..]| - 1 ensures Follows(bs[1..], header, j) {
      assert Follows(bs, header, j + 1);
    }
    if NoFreeNeighbours(bs) {
      assert NotBothFree(bs, 0);
      forall j | 0 <= j < |bs[1..]| - 1 ensures NotBothFree(bs[1..], j) {
        assert NotBothFree(bs, j + 1);
      }
    }
  }

  lemma TilesCons(b: Block, bs: seq<Block>, header: int, to: int)
    requires b.size >= 0 && Tiles(bs, header, b.addr + header + b.size, to)
    ensures Tiles([b] + bs, header, b.addr, to)
    ensures NoFreeNeighbours(bs) && !(b.free && bs[0].free) ==> NoFreeNeighbours([b] + bs)
    ensures Live([b] + bs) == Live([b]) + Live(bs)
  {
    var cs := [b] + bs;
    forall j | 0 <= j < |cs| - 1 ensures Follows(cs, header, j) {
      if j > 0 { assert Follows(bs, header, j - 1); }
    }
    if NoFreeNeighbours(bs) && !(b.free && bs[0].free) {
      forall j | 0 <= j < |cs| - 1 ensures NotBothFree(cs, j) {
        if j > 0 { assert NotBothFree(bs, j - 1); }
      }
    }
    LiveConcat([b], bs);
  }

  lemma {:induction false} CoalesceKeeps(bs: seq<Block>, header: int, from: int, to: int)
    requires Tiles(bs, header, from, to) && 0 < header
    ensures Tiles(Coalesce(bs, header), header, from, to)
    ensures NoFreeNeighbours(Coalesce(bs, header))
    ensures Live(Coalesce(bs, header)) == Live(bs)
    ensures Coalesce(bs, header)[0].free == bs[0].free
    decreases |bs|
  {
    if |bs| < 2 {
    } else if bs[0].free && bs[1].free {
      MergeTiles(bs, header, from, to);
      CoalesceKeeps([Merge(bs[0], bs[1], header)] + bs[2..], header, from, to);
    } else {
      TilesRest(bs, header, from, to);
      CoalesceKeeps(bs[1..], header, from + header + bs[0].size, to);
      TilesCons(bs[0], Coalesce(bs[1..], header), header, to);
      LiveConcat([bs[0]], bs[1..]);
      assert bs == [bs[0]] + bs[1..];
    }
  }

  lemma MarkedLive(h: Heap, i: nat)
    requires HeapInv(h) && i < |h.blocks|
    ensures Tiles(Marked(h.blocks, i), h.header, h.base, h.base + h.limit)
    ensures Live(Marked(h.blocks, i)) == set b | b in Live(h.blocks) && b.addr != h.blocks[i].addr
  {
    var bs := Marked(h.blocks, i);
    forall j | 0 <= j < |bs| - 1 ensures Follows(bs, h.header, j) {
      assert Follows(h.blocks, h.header, j);
    }
    forall b ensures b in Live(bs) <==> b in Live(h.blocks) && b.addr != h.blocks[i].addr {
      if b in Live(bs) {
        var j :| 0 <= j < |bs| && bs[j] == b;
        OnlyOne(h, i, j);
      }
      if b in Live(h.blocks) && b.addr != h.blocks[i].addr {
        var j :| 0 <= j < |h.blocks| && h.blocks[j] == b;
        assert bs[j] == b;
      }
    }
  }

  /** Freeing keeps the shape and takes exactly the freed block out of the live ones: no other block
  moves, shrinks or dies. */
  lemma FreeKeeps(h: Heap, p: int)
    requires HeapInv(h) && (p == NULL || IsBlock(h, p))
    ensures HeapInv(Free(h, p))
    ensures Live(Free(h, p).blocks) == set b | b in Live(h.blocks) && (p == NULL || b.addr != p - h.header)
  {
    if p != NULL {
      var i := IndexOf(h.blocks, p - h.header);
      MarkedLive(h, i);
      CoalesceKeeps(Marked(h.blocks, i), h.header, h.base, h.base + h.limit);
    }
  }

  lemma OnlyOne(h: Heap, i: nat, j: nat)
    requires HeapInv(h) && i < |h.blocks| && j < |h.blocks|
    ensures h.blocks[i].addr == h.blocks[j].addr ==> i == j
  {
    if i < j { TilesOrdered(h.blocks, h.header, h.base, h.base + h.limit, i, j); }
    if j < i { TilesOrdered(h.blocks, h.header, h.base, h.base + h.limit, j, i); }
  }

  // ----- the list is determined by what is live -----

  lemma {:induction false} SameLiveSameBlocks(bs: seq<Block>, cs: seq<Block>, header: int, from: int, to: int)
    requires 0 < header && Tiles(bs, header, from, to) && Tiles(cs, header, from, to)
    requires NoFreeNeighbours(bs) && NoFreeNeighbours(cs) && Live(bs) == Live(cs)
    ensures bs == cs
    decreases |bs|
  {
    FirstSame(bs, cs, header, from, to);
    FirstSame(cs, bs, header, from, to);
    assert bs[0] == cs[0];
    if |bs| == 1 || |cs| == 1 {
      if |cs| > 1 { TilesOrdered(cs, header, from, to, 0, |cs| - 1); }
      if |bs| > 1 { TilesOrdered(bs, header, from, to, 0, |bs| - 1); }
    } else {
      LiveRest(bs, header, from, to);
      LiveRest(cs, header, from, to);
      TilesRest(bs, header, from, to);
      TilesRest(cs, header, from, to);
      SameLiveSameBlocks(bs[1..], cs[1..], header, bs[1].addr, to);
      assert bs == [bs[0]] + bs[1..] && cs == [cs[0]] + cs[1..];
    }
  }

  /** The live blocks after the first one are the live blocks that do not start where it starts. */
  lemma LiveRest(bs: seq<Block>, header: int, from: int, to: int)
    requires 0 < header && Tiles(bs, header, from, to) && |bs| > 1
    ensures Live(bs[1..]) == set b | b in Live(bs) && b.addr != from
    ensures bs[1].addr == from + header + bs[0].size
  {
    assert Follows(bs, header, 0);
    forall b ensures b in Live(bs[1..]) <==> b in Live(bs) && b.addr != from {
      if b in Live(bs[1..]) {
        var j :| 0 <= j < |bs[1..]| && bs[1..][j] == b;
        TilesOrdered(bs, header, from, to, 0, j + 1);
      }
      if b in Live(bs) && b.addr != from {
        var j :| 0 <= j < |bs| && bs[j] == b;
        assert bs[1..][j - 1] == b;
      }
    }
  }

  lemma FirstSame(bs: seq<Block>, cs: seq<Block>, header: int, from: int, to: int)
    requires 0 < header && Tiles(bs, header, from, to) && Tiles(cs, header, from, to)
    requires NoFreeNeighbours(bs) && Live(bs) == Live(cs)
    ensures bs[0].free ==> cs[0].free && bs[0].size >= cs[0].size
    ensures !bs[0].free ==> cs[0] == bs[0]
  {
    if !bs[0].free {
      assert bs[0] in Live(cs);
      var j :| 0 <= j < |cs| && cs[j] == bs[0];
      if 0 < j { TilesOrdered(cs, header, from, to, 0, j); }
    } else {
      if !cs[0].free {
        assert cs[0] in Live(bs);
        var j :| 0 <= j < |bs| && bs[j] == cs[0];
        if 0 < j { TilesOrdered(bs, header, from, to, 0, j); }
      } else if |bs| == 1 {
        if |cs| > 1 { TilesOrdered(cs, header, from, to, 0, |cs| - 1); }
      } else {
        assert NotBothFree(bs, 0) && Follows(bs, header, 0);
        assert bs[1] in Live(cs);
        var j :| 0 <= j < |cs| && cs[j] == bs[1];
        if 0 < j { TilesOrdered(cs, header, from, to, 0, j); }
      }
    }
  }

  /** Two heaps of one layout with the same live blocks are the same heap. */
  lemma Canonical(g: Heap, h: Heap)
    requires HeapInv(g) && HeapInv(h)
    requires g.base == h.base && g.header == h.header && g.limit == h.limit && Live(g.blocks) == Live(h.blocks)
    ensures g == h
  {
    SameLiveSameBlocks(g.blocks, h.blocks, g.header, g.base, g.base + g.limit);
  }

  lemma LiveBlock(h: Heap, b: Block)
    requires HeapInv(h) && b in Live(h.blocks)
    ensures IsBlock(h, b.addr + h.header) && b.addr + h.header != NULL
  {
    var j :| 0 <= j < |h.blocks| && h.blocks[j] == b;
    InHeap(h, j);
  }

  /** Freeing what was just allocated undoes the allocation to the last block. */
  lemma FreeUndoesMalloc(h: Heap, n: int)
    requires HeapInv(h) && 0 <= n && MallocPtr(h, n) != NULL
    ensures HeapInv(Malloc(h, n)) && IsBlock(Malloc(h, n), MallocPtr(h, n))
    ensures Free(Malloc(h, n), MallocPtr(h, n)) == h
  {
    MallocKeeps(h, n);
    var h', p, b := Malloc(h, n), MallocPtr(h, n), MallocBlock(h, n);
    FreeLive(h', b);
    assert Live(Free(h', p).blocks) == Live(h.blocks);
    Canonical(Free(h', p), h);
  }

  /** Freeing a live block removes it from the live ones and nothing else. */
  lemma FreeLive(h: Heap, b: Block)
    requires HeapInv(h) && b in Live(h.blocks)
    ensures IsBlock(h, b.addr + h.header) && b.addr + h.header != NULL
    ensures HeapInv(Free(h, b.addr + h.header))
    ensures Live(Free(h, b.addr + h.header).blocks) == Live(h.blocks) - {b}
  {
    LiveBlock(h, b);
    FreeKeeps(h, b.addr + h.header);
    forall c | c in Live(h.blocks) && c != b ensures c.addr != b.addr {
      Separation(h, b, c);
    }
  }

  /** Freeing `b` leaves another live block live, and freeable. */
  lemma FreeTwice(h: Heap, b: Block, c: Block, p: int, q: int, h': Heap)
    requires HeapInv(h) && b in Live(h.blocks) && c in Live(h.blocks) && b != c
    requires p == b.addr + h.header && q == c.addr + h.header
    requires IsBlock(h, p) && h' == Free(h, p)
    ensures HeapInv(h') && c in Live(h'.blocks) && IsBlock(h', q)
    ensures HeapInv(Free(h', q)) && Live(Free(h', q).blocks) == Live(h.blocks) - {b} - {c}
  {
    FreeLive(h, b);
    assert c in Live(h'.blocks) && h'.header == h.header;
    FreeLive(h', c);
  }

  /** The order of two frees does not matter. */
  lemma FreesCommute(h: Heap, b: Block, c: Block, p: int, q: int)
    requires HeapInv(h) && b in Live(h.blocks) && c in Live(h.blocks) && b != c
    requires p == b.addr + h.header && q == c.addr + h.header
    ensures IsBlock(h, p) && IsBlock(h, q) && IsBlock(Free(h, p), q) && IsBlock(Free(h, q), p)
    ensures Free(Free(h, p), q) == Free(Free(h, q), p)
  {
    LiveBlock(h, b);
    LiveBlock(h, c);
    var h1, h2 := Free(h, p), Free(h, q);
    FreeTwice(h, b, c, p, q, h1);
    FreeTwice(h, c, b, q, p, h2);
    SameFrees(Free(h1, q), Free(h2, p), Live(h.blocks), b, c);
  }

  lemma SameFrees(g: Heap, h: Heap, live: set<Block>, b: Block, c: Block)
    requires HeapInv(g) && HeapInv(h) && g.base == h.base && g.header == h.header && g.limit == h.limit
    requires Live(g.blocks) == live - {b} - {c} && Live(h.blocks) == live - {c} - {b}
    ensures g == h
  {
    Canonical(g, h);
  }

  /** Once nothing is live the list is the single block it started as. */
  lemma EmptyIsInitial(h: Heap)
    requires HeapInv(h) && Live(h.blocks) == {}
    ensures h == Init(h.base, h.header, h.limit)
  {
    InHeap(h, 0);
    var first := Init(h.base, h.header, h.limit);
    assert Live(first.blocks) == {};
    Canonical(h, first);
  }

  /** A heap is the initial one exactly when nothing is live. */
  lemma InitialIffEmpty(h: Heap)
    requires HeapInv(h)
    ensures h == Init(h.base, h.header, h.limit) <==> Live(h.blocks) == {}
  {
    if Live(h.blocks) == {} { EmptyIsInitial(h); }
  }

  // ----- runs -----

  datatype HeapOp = OpMalloc(n: int) | OpFree(p: int)

  ghost predicate Possible(h: Heap, op: HeapOp) {
    if op.OpMalloc? then op.n >= 0 else op.p == NULL || IsBlock(h, op.p)
  }

  ghost function Apply(h: Heap, op: HeapOp): Heap
    requires Possible(h, op)
  {
    match op
    case OpMalloc(n) => Malloc(h, n)
    case OpFree(p) => Free(h, p)
  }

  ghost predicate IsRun(h: Heap, ops: seq<HeapOp>, h': Heap)
    decreases |ops|
  {
    if ops == [] then h' == h
    else Possible(h, ops[0]) && IsRun(Apply(h, ops[0]), ops[1..], h')
  }

  lemma StepKeeps(h: Heap, op: HeapOp)
    requires HeapInv(h) && Possible(h, op)
    ensures var h' := Apply(h, op); HeapInv(h') && h'.base == h.base && h'.header == h.header && h'.limit == h.limit
    ensures forall b :: b in Live(h.blocks) && op != OpFree(b.addr + h.header) ==> b in Live(Apply(h, op).blocks)
  {
    match op
    case OpMalloc(n) => MallocKeeps(h, n);
    case OpFree(p) => FreeKeeps(h, p);
  }

  /** In every run the shape is kept, and a live block stays exactly where and as large as it is until
  the run frees it. */
  lemma {:induction false} RunKeeps(h: Heap, ops: seq<HeapOp>, h': Heap)
    requires HeapInv(h) && IsRun(h, ops, h')
    ensures HeapInv(h') && h'.base == h.base && h'.header == h.header && h'.limit == h.limit
    ensures forall b :: b in Live(h.blocks) && OpFree(b.addr + h.header) !in ops ==> b in Live(h'.blocks)
    decreases |ops|
  {
    if ops != [] {
      StepKeeps(h, ops[0]);
      RunKeeps(Apply(h, ops[0]), ops[1..], h');
    }
  }

  lemma InitInv(base: int, header: int, limit: int)
    requires 0 < base && 0 < header <= limit
    ensures HeapInv(Init(base, header, limit)) && Live(Init(base, header, limit).blocks) == {}
  {
  }

  /** Every run from the fresh heap keeps the shape, and whenever nothing is live the list is the initial
  block again. */
  lemma ReachableHeap(base: int, header: int, limit: int, ops: seq<HeapOp>, h: Heap)
    requires 0 < base && 0 < header <= limit && IsRun(Init(base, header, limit), ops, h)
    ensures HeapInv(h)
    ensures Live(h.blocks) == {} <==> h == Init(base, header, limit)
  {
    InitInv(base, header, limit);
    RunKeeps(Init(base, header, limit), ops, h);
    InitialIffEmpty(h);
  }

  /** The blocks whose pointers none of the operations frees. */
  ghost function Kept(live: set<Block>, header: int, ops: seq<HeapOp>): set<Block> {
    set b | b in live && OpFree(b.addr + header) !in ops
  }

  lemma KeptCons(live: set<Block>, header: int, op: HeapOp, ops: seq<HeapOp>)
    ensures Kept(Kept(live, header, [op]), header, ops) == Kept(live, header, [op] + ops)
  {
  }

  lemma FreeStep(h: Heap, p: int)
    requires HeapInv(h) && Possible(h, OpFree(p))
    ensures HeapInv(Free(h, p)) && Free(h, p).header == h.header
    ensures Live(Free(h, p).blocks) == Kept(Live(h.blocks), h.header, [OpFree(p)])
  {
    FreeKeeps(h, p);
    forall b | b in Live(h.blocks) ensures b.addr + h.header != NULL { LiveBlock(h, b); }
  }

  /** Frees alone leave live exactly the blocks whose pointers they do not name. */
  lemma {:induction false} FreesLeave(h: Heap, ops: seq<HeapOp>, h': Heap)
    requires HeapInv(h) && IsRun(h, ops, h')
    requires forall op :: op in ops ==> op.OpFree?
    ensures Live(h'.blocks) == Kept(Live(h.blocks), h.header, ops)
    decreases |ops|
  {
    if ops == [] {
      assert Live(h.blocks) == Kept(Live(h.blocks), h.header, ops);
    } else {
      assert ops == [ops[0]] + ops[1..];
      FreeStep(h, ops[0].p);
      FreesLeave(Apply(h, ops[0]), ops[1..], h');
      KeptCons(Live(h.blocks), h.header, ops[0], ops[1..]);
    }
  }

  ghost predicate FreesAll(live: set<Block>, header: int, ops: seq<HeapOp>) {
    forall b :: b in live ==> OpFree(b.addr + header) in ops
  }

  lemma KeptNone(live: set<Block>, header: int, ops: seq<HeapOp>)
    ensures Kept(live, header, ops) == {} <==> FreesAll(live, header, ops)
  {
    if b :| b in live && OpFree(b.addr + header) !in ops {
      assert b in Kept(live, header, ops);
    }
  }

  /** Frees alone, in any order, bring back the single initial block exactly when they name every live pointer. */
  lemma FreeingAllRestores(h: Heap, ops: seq<HeapOp>, h': Heap)
    requires HeapInv(h) && IsRun(h, ops, h')
    requires forall op :: op in ops ==> op.OpFree?
    ensures h' == Init(h.base, h.header, h.limit) <==> FreesAll(Live(h.blocks), h.header, ops)
  {
    FreesLeave(h, ops, h');
    RunLayout(h, ops, h');
    KeptNone(Live(h.blocks), h.header, ops);
    InitialIffEmpty(h');
  }

  lemma RunLayout(h: Heap, ops: seq<HeapOp>, h': Heap)
    requires HeapInv(h) && IsRun(h, ops, h')
    ensures HeapInv(h') && Init(h'.base, h'.header, h'.limit) == Init(h.base, h.header, h.limit)
  {
    RunKeeps(h, ops, h');
  }
}
