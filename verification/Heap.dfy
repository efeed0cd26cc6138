/** The kernel heap: block headers linked through memory, walked and rewritten in place. */
module Heap {
  import opened HeapModel

  datatype Header = Header(size: int, free: bool, next: int)

  type Memory = map<int, Header>

  // ----- lists in memory -----

  ghost function NextOf(chain: seq<int>, k: int): int {
    if 0 <= k + 1 < |chain| then chain[k + 1] else NULL
  }

  /** The headers at the addresses `chain` are linked in that order, from `base`. */
  ghost predicate Links(mem: Memory, chain: seq<int>, base: int) {
    && chain != [] && chain[0] == base
    && (forall k :: 0 <= k < |chain| ==> LinkedAt(mem, chain, k))
    && (forall i, j :: 0 <= i < j < |chain| ==> chain[i] != chain[j])
  }

  ghost function BlockAt(mem: Memory, a: int): Block {
    if a in mem then Block(a, mem[a].size, mem[a].free) else Block(a, 0, false)
  }

  ghost function BlocksOf(mem: Memory, chain: seq<int>): seq<Block> {
    seq(|chain|, k requires 0 <= k < |chain| => BlockAt(mem, chain[k]))
  }

  /** One address is properly linked. */
  ghost predicate LinkedAt(mem: Memory, chain: seq<int>, k: int)
    requires 0 <= k < |chain|
  {
    chain[k] != NULL && chain[k] in mem && mem[chain[k]].next == NextOf(chain, k)
  }

  /** A list with one more address after position `k`. */
  lemma LinkIn(mem: Memory, chain: seq<int>, base: int, k: nat, at: int, b: Header, r: Header)
    requires Links(mem, chain, base) && k < |chain| && at !in chain && at != NULL && LinkedAt(mem, chain, k)
    requires b.next == at && r.next == mem[chain[k]].next
    ensures var mem', chain' := mem[at := r][chain[k] := b], chain[..k + 1] + [at] + chain[k + 1..];
      && Links(mem', chain', base)
      && BlocksOf(mem', chain')
         == BlocksOf(mem, chain)[..k] + [Block(chain[k], b.size, b.free), Block(at, r.size, r.free)]
          + BlocksOf(mem, chain)[k + 1..]
  {
    var mem', chain' := mem[at := r][chain[k] := b], chain[..k + 1] + [at] + chain[k + 1..];
    forall j | 0 <= j < |chain'| ensures LinkedAt(mem', chain', j) {
      if j <= k {
        assert chain'[j] == chain[j] && LinkedAt(mem, chain, j);
      } else if j > k + 1 {
        assert chain'[j] == chain[j - 1] && LinkedAt(mem, chain, j - 1);
      }
    }
    forall i, j | 0 <= i < j < |chain'| ensures chain'[i] != chain'[j] {
      DistinctIn(chain, k, at, i, j);
    }
    assert forall j :: 0 <= j < |chain'| ==> LinkedAt(mem', chain', j);
  }

  lemma DistinctIn(chain: seq<int>, k: nat, at: int, i: nat, j: nat)
    requires k < |chain| && at !in chain && i < j <= |chain|
    requires forall i, j :: 0 <= i < j < |chain| ==> chain[i] != chain[j]
    ensures (chain[..k + 1] + [at] + chain[k + 1..])[i] != (chain[..k + 1] + [at] + chain[k + 1..])[j]
  {
  }

  /** A list without the address after position `k`. */
  lemma LinkOut(mem: Memory, chain: seq<int>, base: int, k: nat, b: Header)
    requires Links(mem, chain, base) && k + 1 < |chain| && LinkedAt(mem, chain, k + 1)
    requires b.next == mem[chain[k + 1]].next
    ensures var mem', chain' := mem[chain[k] := b], chain[..k + 1] + chain[k + 2..];
      && Links(mem', chain', base)
      && BlocksOf(mem', chain')
         == BlocksOf(mem, chain)[..k] + [Block(chain[k], b.size, b.free)] + BlocksOf(mem, chain)[k + 2..]
  {
    var mem', chain' := mem[chain[k] := b], chain[..k + 1] + chain[k + 2..];
    forall j | 0 <= j < |chain'| ensures LinkedAt(mem', chain', j) {
      if j <= k {
        assert chain'[j] == chain[j] && LinkedAt(mem, chain, j);
      } else {
        assert chain'[j] == chain[j + 1] && LinkedAt(mem, chain, j + 1);
      }
    }
    forall i, j | 0 <= i < j < |chain'| ensures chain'[i] != chain'[j] {
      assert chain'[i] == chain[if i <= k then i else i + 1] && chain'[j] == chain[if j <= k then j else j + 1];
    }
    assert forall j :: 0 <= j < |chain'| ==> LinkedAt(mem', chain', j);
  }

  lemma LinkSame(mem: Memory, chain: seq<int>, base: int, k: nat, b: Header)
    requires Links(mem, chain, base) && k < |chain| && LinkedAt(mem, chain, k) && b.next == mem[chain[k]].next
    ensures Links(mem[chain[k] := b], chain, base)
    ensures BlocksOf(mem[chain[k] := b], chain) == BlocksOf(mem, chain)[k := Block(chain[k], b.size, b.free)]
  {
    var mem' := mem[chain[k] := b];
    forall j | 0 <= j < |chain| ensures LinkedAt(mem', chain, j) {
      assert LinkedAt(mem, chain, j);
    }
    assert forall j :: 0 <= j < |chain| && j != k ==> chain[j] != chain[k];
  }

  /** The last header on a list, and only it, has no successor. */
  lemma NextIsNull(mem: Memory, chain: seq<int>, base: int, k: nat)
    requires Links(mem, chain, base) && k < |chain|
    ensures LinkedAt(mem, chain, k) && (mem[chain[k]].next == NULL <==> k + 1 == |chain|)
  {
    assert LinkedAt(mem, chain, k);
    if k + 1 < |chain| { assert LinkedAt(mem, chain, k + 1); }
  }

  /** `mem` holds the header at every address one was ever written to; only the ones on the list,
  whose addresses are `chain`, mean anything. */
  class KernelHeap {
    const base: int
    const header: int
    const limit: int
    var mem: Memory
    ghost var chain: seq<int>

    ghost function View(): HeapModel.Heap
      reads this
    {
      HeapModel.Heap(base, header, limit, BlocksOf(mem, chain))
    }

    ghost predicate Valid()
      reads this
    {
      Links(mem, chain, base) && HeapInv(View())
    }

    constructor (base: int, header: int, limit: int)
      requires 0 < base && 0 < header <= limit
      ensures Valid() && View() == Init(base, header, limit)
    {
      this.base, this.header, this.limit := base, header, limit;
      mem := map[base := Header(limit - header, true, NULL)];
      chain := [base];
      new;
      assert BlocksOf(mem, chain) == Init(base, header, limit).blocks;
    }

    method Malloc(size: int) returns (ptr: int)
      requires Valid() && 0 <= size
      modifies this
      ensures Valid() && View() == HeapModel.Malloc(old(View()), size)
      ensures ptr == MallocPtr(old(View()), size)
    {
      ghost var h := View();
      MallocKeeps(h, size);
      var curr := base;
      ghost var k := 0;
      while curr != NULL
        invariant View() == h && Links(mem, chain, base)
        invariant 0 <= k <= |chain| && (curr == NULL <==> k == |chain|) && (k < |chain| ==> curr == chain[k])
        invariant FirstFit(h.blocks, size, k) == FirstFit(h.blocks, size, 0)
        decreases |chain| - k
      {
        assert LinkedAt(mem, chain, k) && h.blocks[k] == BlockAt(mem, curr);
        if mem[curr].free && mem[curr].size >= size {
          Take(curr, size, k);
          return curr + header;
        }
        assert k + 1 < |chain| ==> LinkedAt(mem, chain, k + 1);
        curr := mem[curr].next;
        k := k + 1;
      }
      return NULL;
    }

    /** Takes the block at `curr`, and cuts it down if it is much larger than `size`. */
    method Take(curr: int, size: int, ghost k: nat)
      requires Valid() && 0 <= size && k < |chain| && curr == chain[k] && LinkedAt(mem, chain, k)
      requires mem[curr].free && mem[curr].size >= size
      modifies this
      ensures Links(mem, chain, base)
      ensures var bs := old(View()).blocks;
        View() == old(View()).(blocks := bs[..k] + Split(bs[k], header, size) + bs[k + 1..])
    {
      assert View().blocks[k] == BlockAt(mem, curr);
      if mem[curr].size > size + header + SLACK {
        CutDown(curr, size, k);
      } else {
        TakeWhole(curr, k);
      }
    }

    /** Takes `size` bytes of the block at `curr` and links the remainder in after it as a free block. */
    method CutDown(curr: int, size: int, ghost k: nat)
      requires Valid() && 0 <= size && k < |chain| && curr == chain[k] && LinkedAt(mem, chain, k)
      requires mem[curr].free && mem[curr].size > size + header + SLACK
      modifies this
      ensures Links(mem, chain, base)
      ensures var bs := old(View()).blocks;
        View() == old(View()).(blocks := bs[..k] + Split(bs[k], header, size) + bs[k + 1..])
    {
      ghost var bs := View().blocks;
      assert bs[k] == BlockAt(mem, curr);
      var newBlock := curr + header + size;
      InsideFree(View(), k, newBlock);
      assert forall j :: 0 <= j < |chain| ==> chain[j] == bs[j].addr;
      LinkIn(mem, chain, base, k, newBlock, Header(size, false, newBlock),
             Header(mem[curr].size - size - header, true, mem[curr].next));
      mem := mem[newBlock := Header(mem[curr].size - size - header, true, mem[curr].next)];
      mem := mem[curr := Header(size, false, newBlock)];
      chain := chain[..k + 1] + [newBlock] + chain[k + 1..];
    }

    /** Takes the block at `curr` as it is. */
    method TakeWhole(curr: int, ghost k: nat)
      requires Valid() && k < |chain| && curr == chain[k] && LinkedAt(mem, chain, k)
      modifies this
      ensures Links(mem, chain, base)
      ensures var bs := old(View()).blocks;
        View() == old(View()).(blocks := bs[..k] + [bs[k].(free := false)] + bs[k + 1..])
    {
      ghost var bs := View().blocks;
      assert bs[k] == BlockAt(mem, curr);
      LinkSame(mem, chain, base, k, mem[curr].(free := false));
      mem := mem[curr := mem[curr].(free := false)];
      assert View().blocks == bs[..k] + [bs[k].(free := false)] + bs[k + 1..];
    }

    method Free(ptr: int)
      requires Valid() && (ptr == NULL || IsBlock(View(), ptr))
      modifies this
      ensures Valid() && View() == HeapModel.Free(old(View()), ptr)
    {
      ghost var h := View();
      FreeKeeps(h, ptr);
      if ptr == NULL {
        return;
      }
      ghost var i := IndexOf(h.blocks, ptr - header);
      assert LinkedAt(mem, chain, i) && h.blocks[i] == BlockAt(mem, ptr - header);
      var target := ptr - header;
      LinkSame(mem, chain, base, i, mem[target].(free := true));
      mem := mem[target := mem[target].(free := true)];
      CoalescePass(Marked(h.blocks, i));
    }

    /** Walks the list once, merging every free block with the free blocks right after it. */
    method CoalescePass(ghost bs: seq<Block>)
      requires Links(mem, chain, base) && BlocksOf(mem, chain) == bs
      modifies this
      ensures Links(mem, chain, base) && BlocksOf(mem, chain) == Coalesce(bs, header)
    {
      var curr := base;
      ghost var k := 0;
      ghost var cs := bs;
      assert bs[..0] + Coalesce(bs[0..], header) == Coalesce(bs, header);
      assert LinkedAt(mem, chain, 0);
      NextIsNull(mem, chain, base, 0);
      while curr != NULL && mem[curr].next != NULL
        invariant Links(mem, chain, base) && BlocksOf(mem, chain) == cs
        invariant 0 <= k < |chain| && curr == chain[k] && LinkedAt(mem, chain, k)
        invariant mem[curr].next == NULL <==> k + 1 == |chain|
        invariant Coalesce(bs, header) == cs[..k] + Coalesce(cs[k..], header)
        decreases |chain| - k
      {
        assert LinkedAt(mem, chain, k + 1);
        CoalesceStep(cs, k, header);
        if mem[curr].free && mem[mem[curr].next].free {
          Absorb(curr, k);
          cs := cs[..k] + [Merge(cs[k], cs[k + 1], header)] + cs[k + 2..];
        } else {
          curr := mem[curr].next;
          k := k + 1;
        }
        NextIsNull(mem, chain, base, k);
      }
      assert cs[..k] + cs[k..] == cs;
    }

    /** Unlinks the block after `curr`, adding its extent to `curr`. */
    method Absorb(curr: int, ghost k: nat)
      requires Links(mem, chain, base) && k + 1 < |chain| && curr == chain[k]
      requires LinkedAt(mem, chain, k) && LinkedAt(mem, chain, k + 1)
      modifies this
      ensures Links(mem, chain, base) && |chain| == |old(chain)| - 1 && chain[k] == curr
      ensures BlocksOf(mem, chain) == BlocksOf(old(mem), old(chain))[..k]
        + [Merge(BlocksOf(old(mem), old(chain))[k], BlocksOf(old(mem), old(chain))[k + 1], header)]
        + BlocksOf(old(mem), old(chain))[k + 2..]
    {
      var next := mem[curr].next;
      mem := mem[curr := mem[curr].(size := mem[curr].size + header + mem[next].size)];
      mem := mem[curr := mem[curr].(next := mem[next].next)];
      chain := chain[..k + 1] + chain[k + 2..];
      assert mem == old(mem)[curr := mem[curr]];
      LinkOut(old(mem), old(chain), base, k, mem[curr]);
    }
  }

  /** A remainder starts strictly inside the block it is cut from, where no other block starts. */
  lemma InsideFree(h: HeapModel.Heap, k: nat, a: int)
    requires HeapInv(h) && k < |h.blocks| && h.blocks[k].addr < a < End(h, h.blocks[k])
    ensures a != NULL && forall j :: 0 <= j < |h.blocks| ==> h.blocks[j].addr != a
  {
    InHeap(h, k);
    forall j | 0 <= j < |h.blocks| ensures h.blocks[j].addr != a {
      if k < j { TilesOrdered(h.blocks, h.header, h.base, h.base + h.limit, k, j); }
      if j < k { TilesOrdered(h.blocks, h.header, h.base, h.base + h.limit, j, k); }
    }
  }

  /** One step of the pass, on the blocks: what is before position `k` is final. */
  lemma CoalesceStep(cs: seq<Block>, k: nat, header: int)
    requires k + 1 < |cs|
    ensures cs[k].free && cs[k + 1].free ==>
      var ds := cs[..k] + [Merge(cs[k], cs[k + 1], header)] + cs[k + 2..];
      cs[..k] + Coalesce(cs[k..], header) == ds[..k] + Coalesce(ds[k..], header)
    ensures !(cs[k].free && cs[k + 1].free) ==>
      cs[..k] + Coalesce(cs[k..], header) == cs[..k + 1] + Coalesce(cs[k + 1..], header)
  {
    var rest := cs[k..];
    assert rest[0] == cs[k] && rest[1] == cs[k + 1];
    if cs[k].free && cs[k + 1].free {
      var merged := [Merge(rest[0], rest[1], header)] + rest[2..];
      assert rest[2..] == cs[k + 2..];
      assert Coalesce(rest, header) == Coalesce(merged, header);
      SliceConcat(cs[..k], merged);
      assert cs[..k] + [Merge(cs[k], cs[k + 1], header)] + cs[k + 2..] == cs[..k] + merged;
    } else {
      assert Coalesce(rest, header) == [cs[k]] + Coalesce(rest[1..], header);
      assert rest[1..] == cs[k + 1..];
      assert cs[..k + 1] == cs[..k] + [cs[k]];
    }
  }

  lemma SliceConcat(a: seq<Block>, b: seq<Block>)
    ensures (a + b)[..|a|] == a && (a + b)[|a|..] == b
  {
  }
}
