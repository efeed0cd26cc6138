/** The in-memory file system: a table of pointers to `file_t` blocks on the kernel heap. */
module FileSystem {
  import HeapModel
  import Heap
  import opened FsMap
  import opened FsModel

  const NULL := HeapModel.NULL
  const MAX_FILES := 100
  const MAX_NAME_LENGTH := 255
  /** Size of a `file_t` on the 32-bit target. */
  const FILE_T := 268

  class FileTable {
    const heap: Heap.KernelHeap
    const files: array<int>
    var fileCount: nat
    /** What the `file_t` blocks and the data blocks hold, by address. */
    var fileAt: map<int, FileT>
    var dataAt: map<int, seq<bv8>>

    ghost predicate Laid()
      reads this, heap
    {
      files.Length == MAX_FILES && fileCount <= MAX_FILES && heap.Valid()
    }

    ghost function View(): Fs
      requires Laid()
      reads this, heap, files
    {
      Fs(heap.View(), files[..fileCount], fileAt, dataAt)
    }

    ghost predicate Valid()
      reads this, heap, files
    {
      Laid() && FsInv(View())
    }

    constructor (heap: Heap.KernelHeap)
      requires heap.Valid() && HeapModel.Live(heap.View().blocks) == {}
      ensures Valid() && List(View()) == [] && this.heap == heap
      ensures fresh(files)
    {
      this.heap := heap;
      files := new int[MAX_FILES];
      fileCount := 0;
      fileAt, dataAt := map[], map[];
    }

    method FindFileIndex(name: Name) returns (idx: int)
      requires Laid() && Ownership(View())
      ensures idx == Find(View(), name, 0)
    {
      for i := 0 to fileCount
        invariant Find(View(), name, i) == Find(View(), name, 0)
      {
        assert files[i] == View().files[i] && View().files[i] in fileAt;
        if fileAt[files[i]].name == name {
          return i;
        }
      }
      return -1;
    }

    // ----- steps shared by the operations -----

    /** Allocates, seen as an effect on the live pointers. */
    method Obtain(size: nat) returns (ptr: int)
      requires heap.Valid()
      modifies heap
      ensures heap.Valid() && heap.View() == HeapModel.Malloc(old(heap.View()), size)
      ensures ptr == HeapModel.MallocPtr(old(heap.View()), size)
      ensures NULL !in LivePtrs(old(heap.View()))
      ensures ptr == NULL ==> heap.View() == old(heap.View())
      ensures ptr != NULL ==> ptr !in LivePtrs(old(heap.View()))
      ensures ptr != NULL ==> LivePtrs(heap.View()) == LivePtrs(old(heap.View())) + {ptr}
    {
      ghost var h := heap.View();
      ptr := heap.Malloc(size);
      HeapModel.MallocKeeps(h, size);
      LiveNotNull(h);
      if ptr != NULL { MallocPtrs(h, size); }
    }

    /** Frees, seen as an effect on the live pointers. */
    method Dispose(ptr: int)
      requires heap.Valid() && (ptr == NULL || ptr in LivePtrs(heap.View()))
      modifies heap
      ensures heap.Valid() && LivePtrs(heap.View()) == LivePtrs(old(heap.View())) - {ptr}
      ensures ptr == NULL ==> heap.View() == old(heap.View())
    {
      ghost var h := heap.View();
      LiveNotNull(h);
      if ptr != NULL { FreePtrs(h, ptr); }
      heap.Free(ptr);
    }

    /** Frees the block the last allocation handed out: the heap is as it was before. */
    method GiveBack(ptr: int, ghost size: nat, ghost h: HeapModel.Heap)
      requires heap.Valid() && HeapModel.HeapInv(h) && heap.View() == HeapModel.Malloc(h, size)
      requires ptr == HeapModel.MallocPtr(h, size) != NULL
      modifies heap
      ensures heap.Valid() && heap.View() == h
    {
      HeapModel.FreeUndoesMalloc(h, size);
      heap.Free(ptr);
    }

    /** Allocates a directory's two blocks, or neither. */
    method ObtainDirectory() returns (newDir: int, subdir: int)
      requires heap.Valid()
      modifies heap
      ensures heap.Valid() && NULL !in LivePtrs(old(heap.View()))
      ensures newDir == NULL ==> heap.View() == old(heap.View())
      ensures newDir == NULL <==> NoRoomForDirectory(old(heap.View()))
      ensures newDir != NULL ==> subdir != NULL && newDir != subdir && {newDir, subdir} !! LivePtrs(old(heap.View()))
      ensures newDir != NULL ==> LivePtrs(heap.View()) == LivePtrs(old(heap.View())) + {newDir} + {subdir}
    {
      ghost var h := heap.View();
      newDir := Obtain(FILE_T);
      if newDir == NULL {
        return NULL, NULL;
      }
      subdir := Obtain(DIRECTORY_T);
      if subdir == NULL {
        GiveBack(newDir, FILE_T, h);
        return NULL, NULL;
      }
    }

    /** Fills in a `file_t` and appends it to the table. */
    method Append(p: int, t: FileT)
      requires Laid() && fileCount < MAX_FILES
      modifies this`fileAt, this`fileCount, files
      ensures Laid() && View() == old(View()).(files := old(View()).files + [p], fileAt := old(View()).fileAt[p := t])
    {
      fileAt := fileAt[p := t];
      files[fileCount] := p;
      fileCount := fileCount + 1;
    }

    /** Fills in an entry's blocks and appends it. `fs` is the directory before they were allocated. */
    method AppendEntry(ghost fs: Fs, p: int, t: FileT, bytes: seq<bv8>)
      requires Laid() && FsInv(fs) && View() == fs.(heap := heap.View()) && fileCount < MAX_FILES
      requires p != NULL && p != t.data && {p, t.data} !! LivePtrs(fs.heap)
      requires LivePtrs(heap.View()) == LivePtrs(fs.heap) + {p} + (if t.data == NULL then {} else {t.data})
      requires Find(fs, t.name, 0) == -1 && t.size == |bytes| && (t.data == NULL ==> bytes == [])
      modifies this`fileAt, this`dataAt, this`fileCount, files
      ensures Valid() && List(View()) == List(fs) + [(t.name, Entry(t.isDir, bytes))]
      ensures AsMap(List(View())) == AsMap(List(fs))[t.name := Entry(t.isDir, bytes)]
    {
      if t.data != NULL {
        dataAt := dataAt[t.data := bytes];
      }
      Append(p, t);
      AddKeeps(fs, View(), p, t, bytes);
      AddIsInsert(fs, View(), t.name, Entry(t.isDir, bytes));
    }

    // ----- the operations -----

    method CreateFile(name: Name) returns (status: Status)
      requires Valid()
      requires Find(View(), name, 0) == -1 ==> fileCount < MAX_FILES && |name| < MAX_NAME_LENGTH
      modifies this, heap, files
      ensures Valid()
      ensures status == FileExists <==> Find(old(View()), name, 0) != -1
      ensures status == Ok ==> List(View()) == List(old(View())) + [(name, Entry(false, []))]
      ensures status != Ok ==> View() == old(View())
      ensures status == OutOfMemory
         <==> Find(old(View()), name, 0) == -1 && HeapModel.MallocPtr(old(heap.View()), FILE_T) == NULL
      ensures Steps(AsMap(List(old(View()))), FsMap.CreateFile(name, status), AsMap(List(View())))
    {
      FindIsLookup(View(), name);
      var idx := FindFileIndex(name);
      if idx != -1 {
        return FileExists;
      }
      status := AddFile(name);
    }

    /** Allocates and appends an empty file of a new name. */
    method AddFile(name: Name) returns (status: Status)
      requires Valid() && Find(View(), name, 0) == -1 && fileCount < MAX_FILES && |name| < MAX_NAME_LENGTH
      modifies this`fileAt, this`dataAt, this`fileCount, heap, files
      ensures Valid()
      ensures status == if HeapModel.MallocPtr(old(heap.View()), FILE_T) == NULL then OutOfMemory else Ok
      ensures status != Ok ==> View() == old(View())
      ensures status == Ok ==> List(View()) == List(old(View())) + [(name, Entry(false, []))]
      ensures status == Ok ==> AsMap(List(View())) == AsMap(List(old(View())))[name := Entry(false, [])]
    {
      ghost var fs := View();
      var newFile := Obtain(FILE_T);
      if newFile == NULL {
        return OutOfMemory;
      }
      AppendEntry(fs, newFile, FileT(name, 0, NULL, false), []);
      return Ok;
    }

    /** If there is no room for the directory's own table, the first block is given back and the heap is
    exactly what it was.  `was` is what the table's block held before. */
    method CreateDirectory(name: Name, was: seq<bv8>) returns (status: Status)
      requires Valid() && |was| == DIRECTORY_T
      requires Find(View(), name, 0) == -1 ==> fileCount < MAX_FILES && |name| < MAX_NAME_LENGTH
      modifies this, heap, files
      ensures Valid()
      ensures status == FileExists <==> Find(old(View()), name, 0) != -1
      ensures status == OutOfMemory <==> Find(old(View()), name, 0) == -1 && NoRoomForDirectory(old(heap.View()))
      ensures status == Ok ==> List(View()) == List(old(View())) + [(name, Entry(true, NewTable(name, was)))]
      ensures status != Ok ==> View() == old(View())
      ensures Steps(AsMap(List(old(View()))),
        FsMap.CreateDirectory(name, NewTable(name, was), status), AsMap(List(View())))
    {
      FindIsLookup(View(), name);
      var idx := FindFileIndex(name);
      if idx != -1 {
        return FileExists;
      }
      status := AddDirectory(name, NewTable(name, was));
    }

    /** Allocates and appends a directory of a new name with its table. */
    method AddDirectory(name: Name, table: seq<bv8>) returns (status: Status)
      requires Valid() && Find(View(), name, 0) == -1 && fileCount < MAX_FILES && |name| < MAX_NAME_LENGTH
      requires |table| == DIRECTORY_T
      modifies this`fileAt, this`dataAt, this`fileCount, heap, files
      ensures Valid()
      ensures status == if NoRoomForDirectory(old(heap.View())) then OutOfMemory else Ok
      ensures status != Ok ==> View() == old(View())
      ensures status == Ok ==> List(View()) == List(old(View())) + [(name, Entry(true, table))]
      ensures status == Ok ==> AsMap(List(View())) == AsMap(List(old(View())))[name := Entry(true, table)]
    {
      ghost var fs := View();
      var newDir, subdir := ObtainDirectory();
      if newDir == NULL {
        return OutOfMemory;
      }
      AppendEntry(fs, newDir, FileT(name, DIRECTORY_T, subdir, true), table);
      return Ok;
    }

    /** On success the entry, file or directory, holds the new bytes and nothing else has changed. Without room
    the old bytes are gone but their length is not: the table stays sound exactly if there were none. */
    method WriteFile(name: Name, data: seq<bv8>) returns (status: Status)
      requires Valid()
      modifies this, heap
      ensures Laid() && Ownership(View()) && UniqueNames(View())
      ensures status == FileNotFound <==> Find(old(View()), name, 0) == -1
      ensures status == FileNotFound ==> View() == old(View())
      ensures var i := Find(old(View()), name, 0); status == Ok ==>
        Valid() && List(View()) == List(old(View()))[i := (name, Entry(At(old(View()), i).isDir, data))]
      ensures var i := Find(old(View()), name, 0);
        status == OutOfMemory <==>
        i != -1 && HeapModel.MallocPtr(Without(old(heap.View()), At(old(View()), i).data), |data|) == NULL
      ensures var i := Find(old(View()), name, 0);
        status == OutOfMemory ==> (Valid() <==> EntryOf(old(View()), i).contents == [])
      ensures status != OutOfMemory ==>
        Steps(AsMap(List(old(View()))), FsMap.WriteFile(name, data, status), AsMap(List(View())))
    {
      ghost var fs := View();
      FindIsLookup(fs, name);
      var idx := FindFileIndex(name);
      if idx == -1 {
        return FileNotFound;
      }
      var ok := Rewrite(idx, data);
      if !ok {
        return OutOfMemory;
      }
      ReplaceIsUpdate(fs, View(), idx, data);
      return Ok;
    }

    /** Gives an entry new contents. */
    method Rewrite(idx: nat, data: seq<bv8>) returns (ok: bool)
      requires Valid() && idx < fileCount
      modifies this, heap
      ensures Laid() && Ownership(View()) && UniqueNames(View())
      ensures !ok <==> HeapModel.MallocPtr(Without(old(heap.View()), At(old(View()), idx).data), |data|) == NULL
      ensures ok ==> Valid() && List(View()) == List(old(View()))[idx := Rewritten(old(View()), idx, data)]
      ensures !ok ==> (Valid() <==> EntryOf(old(View()), idx).contents == [])
    {
      ghost var fs := View();
      var newData := Exchange(idx, |data|);
      if newData == NULL {
        LoseData(fs, idx);
      } else {
        StoreData(fs, idx, newData, data);
      }
      return newData != NULL;
    }

    /** Points an entry at its new data. `fs` is the directory before the old data was freed. */
    method StoreData(ghost fs: Fs, idx: nat, newData: int, data: seq<bv8>)
      requires Laid() && FsInv(fs) && View() == fs.(heap := heap.View()) && idx < fileCount
      requires newData != NULL && newData !in LivePtrs(fs.heap) - {At(fs, idx).data}
      requires LivePtrs(heap.View()) == LivePtrs(fs.heap) - {At(fs, idx).data} + {newData}
      modifies this`fileAt, this`dataAt
      ensures Valid() && List(View()) == List(fs)[idx := Rewritten(fs, idx, data)]
    {
      var p := files[idx];
      assert p == fs.files[idx] && p in fileAt;
      fileAt := fileAt[p := fileAt[p].(data := newData)];
      dataAt := dataAt[newData := data];
      fileAt := fileAt[p := fileAt[p].(size := |data|)];
      assert fileAt == fs.fileAt[p := At(fs, idx).(data := newData, size := |data|)];
      RewriteKeeps(fs, View(), idx, newData, data);
    }

    /** Records that there was no room: the data pointer is cleared, the size is left. */
    method LoseData(ghost fs: Fs, idx: nat)
      requires Laid() && FsInv(fs) && View() == fs.(heap := heap.View()) && idx < fileCount
      requires LivePtrs(heap.View()) == LivePtrs(fs.heap) - {At(fs, idx).data}
      modifies this`fileAt
      ensures Laid() && Ownership(View()) && UniqueNames(View())
      ensures Valid() <==> EntryOf(fs, idx).contents == []
    {
      var p := files[idx];
      assert p == fs.files[idx] && p in fileAt;
      fileAt := fileAt[p := fileAt[p].(data := NULL)];
      LostKeeps(fs, View(), idx);
    }

    /** Frees an entry's data block and allocates one of `size` bytes for it. */
    method Exchange(idx: nat, size: nat) returns (ptr: int)
      requires Valid() && idx < fileCount
      modifies heap
      ensures heap.Valid()
      ensures ptr == HeapModel.MallocPtr(Without(old(heap.View()), At(old(View()), idx).data), size)
      ensures ptr != NULL ==> ptr !in LivePtrs(old(heap.View())) - {At(old(View()), idx).data}
      ensures LivePtrs(heap.View())
           == LivePtrs(old(heap.View())) - {At(old(View()), idx).data} + (if ptr == NULL then {} else {ptr})
    {
      ghost var fs := View();
      assert View().files[idx] == files[idx] && files[idx] in fileAt;
      var data := fileAt[files[idx]].data;
      assert data != NULL ==> Owns(fs, idx, data);
      LiveNotNull(fs.heap);
      if data != NULL {
        FreePtrs(fs.heap, data);
        heap.Free(data);
      }
      ptr := Obtain(size);
    }

    /** What the entry holds, or that there is no such file. */
    method ReadFile(name: Name) returns (status: Status, buffer: seq<bv8>)
      requires Valid()
      ensures status == if Find(View(), name, 0) == -1 then FileNotFound else Ok
      ensures buffer == if status == Ok then EntryOf(View(), Find(View(), name, 0)).contents else []
      ensures Steps(AsMap(List(View())), FsMap.ReadFile(name, status, buffer), AsMap(List(View())))
    {
      FindIsLookup(View(), name);
      var idx := FindFileIndex(name);
      if idx == -1 {
        return FileNotFound, [];
      }
      var t := fileAt[files[idx]];
      assert Readable(View(), idx) && t == At(View(), idx);
      buffer := [];
      for i := 0 to t.size
        invariant if t.data == NULL then buffer == [] else buffer == dataAt[t.data][..i]
      {
        buffer := buffer + [dataAt[t.data][i]];
      }
      return Ok, buffer;
    }

    /** Frees the entry's blocks and closes the gap it leaves. */
    method Remove(idx: nat)
      requires Valid() && idx < fileCount
      modifies this, heap, files
      ensures Valid()
      ensures List(View()) == List(old(View()))[..idx] + List(old(View()))[idx + 1..]
    {
      ghost var fs := View();
      var p := files[idx];
      var data := fileAt[p].data;
      assert Owns(fs, idx, p) && (data != NULL ==> Owns(fs, idx, data));
      Dispose(data);
      Dispose(p);
      CloseGap(idx);
      DropKeeps(fs, View(), idx);
    }

    /** Shifts the pointers after position `idx` down by one. */
    method CloseGap(idx: nat)
      requires Laid() && idx < fileCount
      modifies this`fileCount, files
      ensures Laid() && View() == old(View()).(files := old(View()).files[..idx] + old(View()).files[idx + 1..])
    {
      for j := idx to fileCount - 1
        invariant fileCount == old(fileCount)
        invariant forall k :: 0 <= k < fileCount ==>
          files[k] == if idx <= k < j then old(files[k + 1]) else old(files[k])
      {
        files[j] := files[j + 1];
      }
      fileCount := fileCount - 1;
      assert View().files == old(View()).files[..idx] + old(View()).files[idx + 1..];
    }

    method DeleteFile(name: Name) returns (status: Status)
      requires Valid()
      modifies this, heap, files
      ensures Valid()
      ensures status == if Find(old(View()), name, 0) == -1 then FileNotFound else Ok
      ensures status == FileNotFound ==> View() == old(View())
      ensures status == Ok ==> var i := Find(old(View()), name, 0);
        List(View()) == List(old(View()))[..i] + List(old(View()))[i + 1..]
      ensures Steps(AsMap(List(old(View()))), FsMap.DeleteFile(name, status), AsMap(List(View())))
    {
      ghost var fs := View();
      FindIsLookup(fs, name);
      var idx := FindFileIndex(name);
      if idx == -1 {
        return FileNotFound;
      }
      Remove(idx);
      DropIsRemoval(fs, View(), idx);
      return Ok;
    }

    /** Only directories are deleted. The loop over a directory's own entries runs as often as its table says:
    not at all, unless the table was written over. */
    method DeleteDirectory(name: Name) returns (status: Status)
      requires Valid()
      requires var i := Find(View(), name, 0);
        i != -1 && At(View(), i).isDir && At(View(), i).data != NULL ==> EmptyTable(EntryOf(View(), i).contents)
      modifies this, heap, files
      ensures Valid()
      ensures var i := Find(old(View()), name, 0);
        status == if i == -1 || !At(old(View()), i).isDir then FileNotFound else Ok
      ensures status == FileNotFound ==> View() == old(View())
      ensures status == Ok ==> var i := Find(old(View()), name, 0);
        List(View()) == List(old(View()))[..i] + List(old(View()))[i + 1..]
      ensures Steps(AsMap(List(old(View()))), FsMap.DeleteDirectory(name, status), AsMap(List(View())))
    {
      ghost var fs := View();
      FindIsLookup(fs, name);
      var idx := FindFileIndex(name);
      if idx == -1 {
        return FileNotFound;
      }
      assert View().files[idx] == files[idx] && files[idx] in fileAt;
      if !fileAt[files[idx]].isDir {
        return FileNotFound;
      }
      Remove(idx);
      DropIsRemoval(fs, View(), idx);
      return Ok;
    }
  }

  /** A new directory's table: its name, no entries, and whatever the block held in between. */
  function NewTable(name: Name, was: seq<bv8>): (table: seq<bv8>)
    requires |was| == DIRECTORY_T
    ensures |table| == DIRECTORY_T && EmptyTable(table)
  {
    seq(DIRECTORY_T, k requires 0 <= k < DIRECTORY_T =>
      if k >= COUNT_AT then 0 else if k < |name| then name[k] else if k == |name| then 0 else was[k])
  }

  function Rewritten(fs: Fs, i: int, data: seq<bv8>): (Name, Entry) {
    (At(fs, i).name, Entry(At(fs, i).isDir, data))
  }

  // ----- what the operations do to the map -----

  lemma AddIsInsert(fs: Fs, fs': Fs, name: Name, e: Entry)
    requires UniqueNames(fs) && Find(fs, name, 0) == -1 && List(fs') == List(fs) + [(name, e)]
    ensures AsMap(List(fs')) == AsMap(List(fs))[name := e]
  {
    FindIsLookup(fs, name);
    MapOperations(List(fs), |fs.files|, (name, e));
  }

  lemma ReplaceIsUpdate(fs: Fs, fs': Fs, i: nat, data: seq<bv8>)
    requires UniqueNames(fs) && i < |fs.files| && List(fs') == List(fs)[i := Rewritten(fs, i, data)]
    ensures At(fs, i).name in AsMap(List(fs))
    ensures var (m, n) := (AsMap(List(fs)), At(fs, i).name); AsMap(List(fs')) == m[n := m[n].(contents := data)]
  {
    FindIsLookup(fs, At(fs, i).name);
    Lookup(List(fs), i);
    MapOperations(List(fs), i, Rewritten(fs, i, data));
  }

  lemma DropIsRemoval(fs: Fs, fs': Fs, i: nat)
    requires UniqueNames(fs) && i < |fs.files| && List(fs') == List(fs)[..i] + List(fs)[i + 1..]
    ensures AsMap(List(fs')) == AsMap(List(fs)) - {At(fs, i).name}
  {
    FindIsLookup(fs, At(fs, i).name);
    MapOperations(List(fs), i, List(fs)[i]);
  }

  /** An entry with fresh data reads as that data, and the others read as before. */
  lemma RewriteKeeps(fs: Fs, fs': Fs, idx: nat, p: int, data: seq<bv8>)
    requires FsInv(fs) && HeapModel.HeapInv(fs'.heap) && idx < |fs.files|
    requires p != NULL && p !in LivePtrs(fs.heap) - {At(fs, idx).data}
    requires LivePtrs(fs'.heap) == LivePtrs(fs.heap) - {At(fs, idx).data} + {p}
    requires fs'.files == fs.files && fs'.dataAt == fs.dataAt[p := data]
    requires fs'.fileAt == fs.fileAt[fs.files[idx] := At(fs, idx).(data := p, size := |data|)]
    ensures FsInv(fs') && List(fs') == List(fs)[idx := Rewritten(fs, idx, data)]
  {
    ReplaceKeeps(fs, fs', idx, At(fs, idx).(data := p, size := |data|));
    assert Readable(fs', idx);
    assert List(fs')[idx] == Rewritten(fs, idx, data);
  }

  ghost predicate NoRoomForDirectory(h: HeapModel.Heap) {
    HeapModel.MallocPtr(h, FILE_T) == NULL || HeapModel.MallocPtr(HeapModel.Malloc(h, FILE_T), DIRECTORY_T) == NULL
  }

  /** Losing the data of an entry leaves it readable exactly if there was none to lose. */
  lemma LostKeeps(fs: Fs, fs': Fs, idx: nat)
    requires FsInv(fs) && HeapModel.HeapInv(fs'.heap) && idx < |fs.files|
    requires LivePtrs(fs'.heap) == LivePtrs(fs.heap) - {At(fs, idx).data}
    requires fs'.files == fs.files && fs'.dataAt == fs.dataAt
    requires fs'.fileAt == fs.fileAt[fs.files[idx] := At(fs, idx).(data := NULL)]
    ensures Ownership(fs') && UniqueNames(fs')
    ensures FsInv(fs') <==> EntryOf(fs, idx).contents == []
  {
    ReplaceKeeps(fs, fs', idx, At(fs, idx).(data := NULL));
    assert Readable(fs, idx);
    assert Readable(fs', idx) <==> At(fs, idx).size == 0;
    assert At(fs, idx).size == 0 <==> EntryOf(fs, idx).contents == [];
  }

  lemma FindIsLookup(fs: Fs, name: Name)
    requires UniqueNames(fs)
    ensures Unique(List(fs))
    ensures Find(fs, name, 0) != -1 <==> name in AsMap(List(fs))
    ensures Find(fs, name, 0) != -1 ==> AsMap(List(fs))[name] == EntryOf(fs, Find(fs, name, 0))
  {
    var l := List(fs);
    AsMapLooksUp(l, name);
    var r := Find(fs, name, 0);
    if r != -1 { assert l[r].0 == name; }
  }
}
