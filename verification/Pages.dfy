/** The page allocator: next-fit allocation and owner-checked release over a fixed page table. */
module Pages {

  const PAGE_SIZE := 4096
  const NULL := 0
  /** Pointers are 32-bit words; differences of pointers wrap. */
  const WORD := 0x1_0000_0000
  const KERNEL := -1

  datatype Page = Page(taken: bool, owner: int)

  /** The page table and the cursor where the next search starts. */
  datatype Pool = Pool(table: seq<Page>, last: int)

  ghost predicate PoolInv(p: Pool) {
    0 <= p.last < |p.table|
  }

  function Init(pages: nat): Pool {
    Pool(seq(pages, _ => Page(false, KERNEL)), 0)
  }

  // ----- allocation -----

  /** The page looked at in round `i` of a search. */
  function Probe(p: Pool, i: nat): (idx: int)
    requires PoolInv(p)
    ensures 0 <= idx < |p.table|
  {
    (p.last + i) % |p.table|
  }

  /** The first round from `i` on that meets a free page, or the number of pages. */
  function FirstFree(p: Pool, i: nat): (r: nat)
    requires PoolInv(p) && i <= |p.table|
    ensures i <= r <= |p.table|
    ensures r < |p.table| ==> !p.table[Probe(p, r)].taken
    ensures forall j :: i <= j < r ==> p.table[Probe(p, j)].taken
    decreases |p.table| - i
  {
    if i == |p.table| || !p.table[Probe(p, i)].taken then i else FirstFree(p, i + 1)
  }

  /** The page an allocation takes, or -1. */
  function AllocPage(p: Pool): (page: int)
    requires PoolInv(p)
    ensures -1 <= page < |p.table|
  {
    var r := FirstFree(p, 0);
    if r == |p.table| then -1 else Probe(p, r)
  }

  function Alloc(p: Pool, pid: int): Pool
    requires PoolInv(p)
  {
    var page := AllocPage(p);
    if page == -1 then p else Pool(p.table[page := Page(true, pid)], (page + 1) % |p.table|)
  }

  /** How far page `q` is from the cursor, going round. */
  function Distance(p: Pool, q: int): int
    requires PoolInv(p)
  {
    if q >= p.last then q - p.last else q - p.last + |p.table|
  }

  lemma Wraps(x: int, n: int)
    requires 0 <= x < 2 * n
    ensures x % n == if x < n then x else x - n
  {
    var q, r := x / n, x % n;
    assert x == q * n + r && 0 <= r < n;
    assert q == 0 || q == 1;
  }

  lemma ProbeDistance(p: Pool, i: nat)
    requires PoolInv(p) && i < |p.table|
    ensures Distance(p, Probe(p, i)) == i
  {
    Wraps(p.last + i, |p.table|);
  }

  lemma DistanceProbe(p: Pool, q: int)
    requires PoolInv(p) && 0 <= q < |p.table|
    ensures 0 <= Distance(p, q) < |p.table| && Probe(p, Distance(p, q)) == q
  {
    Wraps(p.last + Distance(p, q), |p.table|);
  }

  /** Allocation fails exactly when every page is taken, and otherwise takes the free page that comes
  first going round from the cursor. */
  lemma NextFit(p: Pool)
    requires PoolInv(p)
    ensures AllocPage(p) == -1 <==> forall q :: 0 <= q < |p.table| ==> p.table[q].taken
    ensures AllocPage(p) != -1 ==> !p.table[AllocPage(p)].taken
    ensures forall q :: AllocPage(p) != -1 && 0 <= q < |p.table| && !p.table[q].taken ==>
      Distance(p, AllocPage(p)) <= Distance(p, q)
  {
    var r := FirstFree(p, 0);
    if r < |p.table| { ProbeDistance(p, r); }
    forall q | 0 <= q < |p.table| && !p.table[q].taken ensures r <= Distance(p, q) {
      DistanceProbe(p, q);
    }
  }

  /** An allocation that succeeds gives the page it answers with to the caller and touches no other; one that
  fails changes nothing. */
  lemma AllocTakes(p: Pool, pid: int)
    requires PoolInv(p)
    ensures AllocPage(p) == -1 ==> Alloc(p, pid) == p
    ensures AllocPage(p) != -1 ==> |Alloc(p, pid).table| == |p.table| && forall q :: 0 <= q < |p.table| ==>
      Alloc(p, pid).table[q] == if q == AllocPage(p) then Page(true, pid) else p.table[q]
  {
  }

  // ----- release -----

  predicate MayFree(p: Pool, pid: int, page: int) {
    0 <= page < |p.table| && p.table[page].taken && (p.table[page].owner == pid || p.table[page].owner == KERNEL)
  }

  function Free(p: Pool, pid: int, page: int): Pool {
    if MayFree(p, pid, page) then p.(table := p.table[page := Page(false, KERNEL)]) else p
  }

  /** A taken page is given back by exactly the calls that name it with its owner's pid, or with any pid if
  the kernel owns it; no allocation touches it. */
  lemma OwnerKeeps(p: Pool, pid: int, page: int, q: int)
    requires PoolInv(p) && 0 <= q < |p.table| && p.table[q].taken
    ensures Free(p, pid, page).table[q] != p.table[q]
       <==> page == q && (pid == p.table[q].owner || p.table[q].owner == KERNEL)
    ensures Free(p, pid, page).table[q] == p.table[q] || Free(p, pid, page).table[q] == Page(false, KERNEL)
    ensures Alloc(p, pid).table[q] == p.table[q]
  {
    NextFit(p);
  }

  /** Giving back moves neither the cursor nor any page but the one named, and that one only if it is taken. */
  lemma FreeTouches(p: Pool, pid: int, page: int)
    ensures Free(p, pid, page).last == p.last && |Free(p, pid, page).table| == |p.table|
    ensures forall q :: 0 <= q < |p.table| && (q != page || !p.table[q].taken) ==>
      Free(p, pid, page).table[q] == p.table[q]
  {
  }

  /** Whether a page is strictly bound to its owner: no call with another pid ever gives it back. */
  ghost predicate StrictlyBound(p: Pool, q: int)
    requires PoolInv(p) && 0 <= q < |p.table|
  {
    forall pid, page :: pid != p.table[q].owner ==> Free(p, pid, page).table[q] == p.table[q]
  }

  /** The documents call every taken page strictly bound: that holds of exactly those the kernel does not own. */
  lemma StrictlyBoundIff(p: Pool, q: int)
    requires PoolInv(p) && 0 <= q < |p.table| && p.table[q].taken
    ensures StrictlyBound(p, q) <==> p.table[q].owner != KERNEL
  {
    if p.table[q].owner == KERNEL {
      assert Free(p, 0, q).table[q] == Page(false, KERNEL);
    } else {
      forall pid, page | pid != p.table[q].owner ensures Free(p, pid, page).table[q] == p.table[q] {
        OwnerKeeps(p, pid, page, q);
      }
    }
  }

  /** The witness: process 0 gives back a page the kernel owns. */
  lemma KernelPageFreed()
    ensures var p := Pool([Page(true, KERNEL)], 0);
      PoolInv(p) && !StrictlyBound(p, 0) && Free(p, 0, 0).table[0] == Page(false, KERNEL)
  {
    var p := Pool([Page(true, KERNEL)], 0);
    assert Free(p, 0, 0).table[0] != p.table[0];
  }

  // ----- pointers -----

  /** The page a pointer is taken to mean: the wrapped offset from the pool, in pages; -1 if it is not
  a multiple of the page size. */
  function PageIndex(base: int, ptr: int): int {
    var offset := (ptr - base) % WORD;
    if offset % PAGE_SIZE != 0 then -1 else offset / PAGE_SIZE
  }

  ghost predicate PoolFits(base: int, pages: int) {
    0 < base && base + pages * PAGE_SIZE <= WORD
  }

  /** Despite the wrapping subtraction, only a page's own start address means that page. */
  lemma OnlyPageStarts(base: int, ptr: int, pages: nat, i: int)
    requires PoolFits(base, pages) && 0 <= ptr < WORD && 0 <= i < pages
    ensures PageIndex(base, ptr) == i <==> ptr == base + i * PAGE_SIZE
  {
    var offset := (ptr - base) % WORD;
    if ptr >= base {
      assert offset == ptr - base;
    } else {
      assert offset == ptr - base + WORD;
      assert offset >= pages * PAGE_SIZE;
    }
  }

  /** A pointer that is no page's start address frees nothing. */
  lemma StrayPointer(p: Pool, pid: int, base: int, ptr: int)
    requires PoolFits(base, |p.table|) && 0 <= ptr < WORD
    requires forall i :: 0 <= i < |p.table| ==> ptr != Start(base, i)
    ensures Free(p, pid, PageIndex(base, ptr)) == p
  {
    var i := PageIndex(base, ptr);
    if 0 <= i < |p.table| {
      assert ptr != Start(base, i);
      OnlyPageStarts(base, ptr, |p.table|, i);
    }
  }

  function Start(base: int, i: int): int {
    base + i * PAGE_SIZE
  }

  // ----- in place -----

  class Allocator {
    const base: int
    const pageTable: array<Page>
    var lastPageIndex: int

    ghost predicate Valid()
      reads this, pageTable
    {
      PoolInv(View()) && PoolFits(base, pageTable.Length)
    }

    ghost function View(): Pool
      reads this, pageTable
    {
      Pool(pageTable[..], lastPageIndex)
    }

    constructor (base: int, pages: nat)
      requires 0 < pages && PoolFits(base, pages)
      ensures Valid() && View() == Init(pages) && this.base == base
      ensures |View().table| == pages && View().last == 0
      ensures forall q :: 0 <= q < pages ==> !View().table[q].taken
    {
      this.base := base;
      pageTable := new Page[pages](_ => Page(false, KERNEL));
      lastPageIndex := 0;
      new;
      assert pageTable[..] == Init(pages).table;
    }

    method AllocateProcessMemory(pid: int, size: nat) returns (ptr: int)
      requires Valid()
      modifies this, pageTable
      ensures Valid()
      ensures size > PAGE_SIZE ==> ptr == NULL && View() == old(View())
      ensures size <= PAGE_SIZE ==> View() == Alloc(old(View()), pid)
      ensures size <= PAGE_SIZE ==>
        ptr == if AllocPage(old(View())) == -1 then NULL else Start(base, AllocPage(old(View())))
    {
      if size > PAGE_SIZE {
        return NULL;
      }
      ghost var p := View();
      for i := 0 to pageTable.Length
        invariant View() == p && PoolInv(p)
        invariant FirstFree(p, i) == FirstFree(p, 0)
      {
        var idx := (lastPageIndex + i) % pageTable.Length;
        assert idx == Probe(p, i);
        if !pageTable[idx].taken {
          pageTable[idx] := pageTable[idx].(taken := true);
          pageTable[idx] := pageTable[idx].(owner := pid);
          lastPageIndex := (idx + 1) % pageTable.Length;
          assert View() == Alloc(p, pid);
          return base + idx * PAGE_SIZE;
        }
      }
      return NULL;
    }

    method FreeProcessMemory(pid: int, ptr: int)
      requires Valid()
      modifies pageTable
      ensures Valid() && View() == Free(old(View()), pid, PageIndex(base, ptr))
    {
      var offset := (ptr - base) % WORD;
      if offset % PAGE_SIZE != 0 {
        return;
      }
      var pageIndex := offset / PAGE_SIZE;
      if pageIndex < pageTable.Length {
        if pageTable[pageIndex].taken {
          if pageTable[pageIndex].owner == pid || pageTable[pageIndex].owner == KERNEL {
            pageTable[pageIndex] := pageTable[pageIndex].(taken := false);
            pageTable[pageIndex] := pageTable[pageIndex].(owner := KERNEL);
          }
        }
      }
    }
  }
}
