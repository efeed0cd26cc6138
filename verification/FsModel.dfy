/** What the root directory means: a list of named entries, and the heap blocks behind it. */
module FsModel {
  import opened HeapModel
  import opened FsMap

  /** The fields of a `file_t` block. */
  datatype FileT = FileT(name: Name, size: int, data: int, isDir: bool)

  /** The root's pointers, the `file_t` they point to, and the buffers those point to. */
  datatype Fs = Fs(heap: Heap, files: seq<int>, fileAt: map<int, FileT>, dataAt: map<int, seq<bv8>>)

  // ----- the heap seen as a set of pointers -----

  ghost function Ptrs(bs: set<Block>, header: int): set<int> {
    set b | b in bs :: b.addr + header
  }

  ghost function LivePtrs(h: Heap): set<int> {
    Ptrs(Live(h.blocks), h.header)
  }

  lemma PtrsAdd(bs: set<Block>, b: Block, header: int)
    ensures Ptrs(bs + {b}, header) == Ptrs(bs, header) + {b.addr + header}
  {
  }

  lemma PtrsRemove(bs: set<Block>, b: Block, header: int)
    requires b in bs && forall c :: c in bs && c != b ==> c.addr != b.addr
    ensures Ptrs(bs - {b}, header) == Ptrs(bs, header) - {b.addr + header}
  {
  }

  lemma LiveNotNull(h: Heap)
    requires HeapInv(h)
    ensures NULL !in LivePtrs(h)
  {
    forall b | b in Live(h.blocks) ensures b.addr + h.header != NULL { LiveBlock(h, b); }
  }

  lemma LiveOf(h: Heap, p: int) returns (b: Block)
    requires p in LivePtrs(h)
    ensures b in Live(h.blocks) && p == b.addr + h.header
  {
    b :| b in Live(h.blocks) && p == b.addr + h.header;
  }

  lemma LiveApart(h: Heap, b: Block)
    requires HeapInv(h) && b in Live(h.blocks)
    ensures forall c :: c in Live(h.blocks) && c != b ==> c.addr != b.addr
  {
    forall c | c in Live(h.blocks) && c != b ensures c.addr != b.addr { Separation(h, b, c); }
  }

  /** What an allocation does to the set of live pointers. */
  lemma MallocPtrs(h: Heap, n: int)
    requires HeapInv(h) && 0 <= n && MallocPtr(h, n) != NULL
    ensures HeapInv(Malloc(h, n))
    ensures MallocPtr(h, n) !in LivePtrs(h)
    ensures LivePtrs(Malloc(h, n)) == LivePtrs(h) + {MallocPtr(h, n)}
  {
    MallocKeeps(h, n);
    var b := MallocBlock(h, n);
    PtrsAdd(Live(h.blocks), b, h.header);
    LiveApart(Malloc(h, n), b);
  }

  /** What freeing a live pointer does to it. */
  lemma FreePtrs(h: Heap, p: int)
    requires HeapInv(h) && p in LivePtrs(h)
    ensures IsBlock(h, p) && p != NULL
    ensures HeapInv(Free(h, p)) && LivePtrs(Free(h, p)) == LivePtrs(h) - {p}
  {
    var b := LiveOf(h, p);
    LiveApart(h, b);
    FreeLive(h, b);
    PtrsRemove(Live(h.blocks), b, h.header);
  }

  /** The heap without the block at `p`, if there is one. */
  ghost function Without(h: Heap, p: int): Heap {
    if p != NULL && IsBlock(h, p) then Free(h, p) else h
  }

  // ----- ownership -----

  function At(fs: Fs, i: int): FileT {
    if 0 <= i < |fs.files| && fs.files[i] in fs.fileAt then fs.fileAt[fs.files[i]] else FileT([], 0, NULL, false)
  }

  /** The blocks entry `i` owns: its `file_t`, and its data if it has any. */
  predicate Owns(fs: Fs, i: int, p: int) {
    0 <= i < |fs.files| && (p == fs.files[i] || (p == At(fs, i).data && p != NULL))
  }

  /** Every live block is owned by exactly one entry, in one role, and every owned pointer is live: nothing
  leaks and nothing is shared. */
  ghost predicate Ownership(fs: Fs) {
    && HeapInv(fs.heap)
    && (forall i :: 0 <= i < |fs.files| ==> fs.files[i] in fs.fileAt && fs.files[i] != At(fs, i).data)
    && (forall i, p :: Owns(fs, i, p) ==> p in LivePtrs(fs.heap))
    && (forall p :: p in LivePtrs(fs.heap) ==> exists i :: Owns(fs, i, p))
    && (forall i, j, p :: Owns(fs, i, p) && Owns(fs, j, p) ==> i == j)
  }

  ghost predicate UniqueNames(fs: Fs) {
    forall i, j :: 0 <= i < j < |fs.files| ==> At(fs, i).name != At(fs, j).name
  }

  /** The entry's size tells the truth about its data. */
  predicate Readable(fs: Fs, i: int) {
    var t := At(fs, i);
    if t.data == NULL then t.size == 0 else t.data in fs.dataAt && |fs.dataAt[t.data]| == t.size
  }

  ghost predicate FsInv(fs: Fs) {
    Ownership(fs) && UniqueNames(fs) && forall i :: 0 <= i < |fs.files| ==> Readable(fs, i)
  }

  function EntryOf(fs: Fs, i: int): Entry {
    var t := At(fs, i);
    Entry(t.isDir, if t.data in fs.dataAt && t.data != NULL then fs.dataAt[t.data] else [])
  }

  /** The directory as its users see it: names and entries, in order. */
  function List(fs: Fs): (l: Listing)
    ensures |l| == |fs.files|
  {
    seq(|fs.files|, i requires 0 <= i < |fs.files| => (At(fs, i).name, EntryOf(fs, i)))
  }

  // ----- the three ways an operation changes the directory -----

  /** The first entry with this name, or -1. */
  function Find(fs: Fs, name: Name, i: nat): (r: int)
    requires i <= |fs.files|
    ensures r == -1 || i <= r < |fs.files|
    ensures r == -1 <==> forall j :: i <= j < |fs.files| ==> At(fs, j).name != name
    ensures r != -1 ==> At(fs, r).name == name
    decreases |fs.files| - i
  {
    if i == |fs.files| then -1 else if At(fs, i).name == name then i else Find(fs, name, i + 1)
  }

  /** A new entry made of fresh blocks. */
  lemma AddKeeps(fs: Fs, fs': Fs, p: int, t: FileT, bytes: seq<bv8>)
    requires FsInv(fs) && HeapInv(fs'.heap)
    requires p !in LivePtrs(fs.heap) && p != NULL && t.data !in LivePtrs(fs.heap) && t.data != p
    requires LivePtrs(fs'.heap) == LivePtrs(fs.heap) + {p} + (if t.data == NULL then {} else {t.data})
    requires fs'.files == fs.files + [p] && fs'.fileAt == fs.fileAt[p := t]
    requires t.size == |bytes| && (t.data == NULL ==> bytes == [])
    requires fs'.dataAt == if t.data == NULL then fs.dataAt else fs.dataAt[t.data := bytes]
    requires forall i :: 0 <= i < |fs.files| ==> At(fs, i).name != t.name
    ensures FsInv(fs')
    ensures List(fs') == List(fs) + [(t.name, Entry(t.isDir, bytes))]
  {
    LiveNotNull(fs.heap);
    forall i | 0 <= i < |fs.files| ensures At(fs', i) == At(fs, i) && fs'.files[i] == fs.files[i] {
      assert Owns(fs, i, fs.files[i]);
    }
    assert At(fs', |fs.files|) == t;
    AddOwnership(fs, fs', p, t);
    forall i | 0 <= i < |fs.files| ensures Readable(fs', i) && EntryOf(fs', i) == EntryOf(fs, i) {
      assert Readable(fs, i);
      assert At(fs, i).data != NULL ==> Owns(fs, i, At(fs, i).data);
    }
  }

  lemma AddOwnership(fs: Fs, fs': Fs, p: int, t: FileT)
    requires Ownership(fs) && HeapInv(fs'.heap)
    requires p !in LivePtrs(fs.heap) && p != NULL && t.data !in LivePtrs(fs.heap) && t.data != p
    requires LivePtrs(fs'.heap) == LivePtrs(fs.heap) + {p} + (if t.data == NULL then {} else {t.data})
    requires fs'.files == fs.files + [p] && fs'.fileAt == fs.fileAt[p := t]
    requires forall i :: 0 <= i < |fs.files| ==> At(fs', i) == At(fs, i) && fs'.files[i] == fs.files[i]
    requires At(fs', |fs.files|) == t
    ensures Ownership(fs')
  {
    forall i, q ensures Owns(fs', i, q)
      <==> Owns(fs, i, q) || (i == |fs.files| && (q == p || (q == t.data && q != NULL)))
    {
    }
    forall q | q in LivePtrs(fs'.heap) ensures exists i :: Owns(fs', i, q) {
      if q in LivePtrs(fs.heap) {
        var i :| Owns(fs, i, q);
        assert Owns(fs', i, q);
      } else {
        assert Owns(fs', |fs.files|, q);
      }
    }
  }

  /** Where an entry stood before entry `k` was dropped. */
  function Before(k: nat, i: int): int {
    if i < k then i else i + 1
  }

  lemma DropOwners(fs: Fs, fs': Fs, k: nat)
    requires k < |fs.files|
    requires fs'.files == fs.files[..k] + fs.files[k + 1..] && fs'.fileAt == fs.fileAt
    ensures forall i :: 0 <= i < |fs'.files| ==>
      fs'.files[i] == fs.files[Before(k, i)] && At(fs', i) == At(fs, Before(k, i))
    ensures forall i, q :: Owns(fs', i, q) <==> 0 <= i && Owns(fs, Before(k, i), q)
  {
  }

  lemma DropOwnership(fs: Fs, fs': Fs, k: nat)
    requires Ownership(fs) && HeapInv(fs'.heap) && k < |fs.files|
    requires LivePtrs(fs'.heap) == LivePtrs(fs.heap) - {fs.files[k], At(fs, k).data}
    requires fs'.files == fs.files[..k] + fs.files[k + 1..] && fs'.fileAt == fs.fileAt
    ensures Ownership(fs')
  {
    LiveNotNull(fs.heap);
    DropOwners(fs, fs', k);
    forall i, q | Owns(fs', i, q) ensures q in LivePtrs(fs'.heap) {
      assert Owns(fs, Before(k, i), q);
      assert Owns(fs, k, fs.files[k]);
      assert At(fs, k).data != NULL ==> Owns(fs, k, At(fs, k).data);
    }
    forall q | q in LivePtrs(fs'.heap) ensures exists i :: Owns(fs', i, q) {
      var i :| Owns(fs, i, q);
      assert Before(k, if i < k then i else i - 1) == i;
      assert Owns(fs', if i < k then i else i - 1, q);
    }
  }

  /** An entry dropped, its blocks freed. */
  lemma DropKeeps(fs: Fs, fs': Fs, k: nat)
    requires FsInv(fs) && HeapInv(fs'.heap) && k < |fs.files|
    requires LivePtrs(fs'.heap) == LivePtrs(fs.heap) - {fs.files[k], At(fs, k).data}
    requires fs'.files == fs.files[..k] + fs.files[k + 1..] && fs'.fileAt == fs.fileAt && fs'.dataAt == fs.dataAt
    ensures FsInv(fs')
    ensures List(fs') == List(fs)[..k] + List(fs)[k + 1..]
  {
    DropOwnership(fs, fs', k);
    DropOwners(fs, fs', k);
    forall i | 0 <= i < |fs'.files| ensures Readable(fs', i) && EntryOf(fs', i) == EntryOf(fs, Before(k, i)) {
      assert Readable(fs, Before(k, i));
    }
  }

  lemma ReplaceOwnership(fs: Fs, fs': Fs, k: nat, t: FileT)
    requires Ownership(fs) && HeapInv(fs'.heap) && k < |fs.files| && fs'.files == fs.files
    requires t.data != NULL ==> t.data !in LivePtrs(fs.heap) - {At(fs, k).data}
    requires LivePtrs(fs'.heap) == LivePtrs(fs.heap) - {At(fs, k).data} + (if t.data == NULL then {} else {t.data})
    requires forall i :: 0 <= i < |fs.files| ==>
      fs.files[i] in fs'.fileAt && At(fs', i) == if i == k then t else At(fs, i)
    ensures Ownership(fs')
  {
    LiveNotNull(fs.heap);
    forall i, q ensures Owns(fs', i, q) <==>
      if i == k then q == fs.files[k] || (q == t.data && q != NULL) else Owns(fs, i, q)
    {
    }
    assert Owns(fs, k, fs.files[k]);
    assert At(fs, k).data != NULL ==> Owns(fs, k, At(fs, k).data);
    forall q | q in LivePtrs(fs'.heap) ensures exists i :: Owns(fs', i, q) {
      if q == t.data {
        assert Owns(fs', k, q);
      } else {
        var i :| Owns(fs, i, q);
        assert Owns(fs', i, q);
      }
    }
  }

  /** An entry's data block replaced, or lost when there was no room for the new one. */
  lemma ReplaceKeeps(fs: Fs, fs': Fs, k: nat, t: FileT)
    requires FsInv(fs) && HeapInv(fs'.heap) && k < |fs.files|
    requires t.name == At(fs, k).name && t.isDir == At(fs, k).isDir
    requires t.data != NULL ==> t.data !in LivePtrs(fs.heap) - {At(fs, k).data}
    requires LivePtrs(fs'.heap) == LivePtrs(fs.heap) - {At(fs, k).data} + (if t.data == NULL then {} else {t.data})
    requires fs'.files == fs.files && fs'.fileAt == fs.fileAt[fs.files[k] := t]
    requires forall q :: q in LivePtrs(fs.heap) && q != At(fs, k).data && q in fs.dataAt ==>
      q in fs'.dataAt && fs'.dataAt[q] == fs.dataAt[q]
    ensures Ownership(fs') && UniqueNames(fs')
    ensures forall i :: 0 <= i < |fs.files| && i != k ==> Readable(fs', i) && List(fs')[i] == List(fs)[i]
    ensures At(fs', k) == t
  {
    LiveNotNull(fs.heap);
    forall i | 0 <= i < |fs.files|
      ensures fs.files[i] in fs'.fileAt && At(fs', i) == if i == k then t else At(fs, i)
    {
      assert Owns(fs, i, fs.files[i]);
      assert Owns(fs, k, fs.files[k]);
    }
    ReplaceOwnership(fs, fs', k, t);
    assert Owns(fs, k, fs.files[k]);
    assert At(fs, k).data != NULL ==> Owns(fs, k, At(fs, k).data);
    forall i | 0 <= i < |fs.files| && i != k ensures Readable(fs', i) && List(fs')[i] == List(fs)[i] {
      assert Readable(fs, i);
      assert At(fs, i).data != NULL ==> Owns(fs, i, At(fs, i).data);
    }
  }
}
