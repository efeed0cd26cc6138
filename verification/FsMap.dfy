/** What the root directory promises its users: a finite map from names to entries. */
module FsMap {

  /** A name: the bytes of a C string before its terminator. */
  type Name = seq<bv8>

  /** A file or a directory with the bytes of its data block. */
  datatype Entry = Entry(isDir: bool, contents: seq<bv8>)

  datatype Status = Ok | FileExists | FileNotFound | OutOfMemory

  type Listing = seq<(Name, Entry)>

  /** Layout of a directory's table on the 32-bit target: its size, and where its count of entries stands. */
  const DIRECTORY_T := 660
  const COUNT_AT := 656

  /** The bytes of a directory's table say that nothing is in it. */
  predicate EmptyTable(bytes: seq<bv8>) {
    |bytes| >= DIRECTORY_T && forall k :: COUNT_AT <= k < DIRECTORY_T ==> bytes[k] == 0
  }

  // ----- a listing as a finite map -----

  ghost predicate Unique(l: Listing) {
    forall i, j :: 0 <= i < j < |l| ==> l[i].0 != l[j].0
  }

  function AsMap(l: Listing): map<Name, Entry> {
    if l == [] then map[] else AsMap(l[..|l| - 1])[l[|l| - 1].0 := l[|l| - 1].1]
  }

  lemma {:induction false} AsMapLooksUp(l: Listing, n: Name)
    requires Unique(l)
    ensures n in AsMap(l) <==> exists i :: 0 <= i < |l| && l[i].0 == n
    ensures forall i :: 0 <= i < |l| && l[i].0 == n ==> n in AsMap(l) && AsMap(l)[n] == l[i].1
  {
    if l != [] {
      AsMapLooksUp(l[..|l| - 1], n);
      assert l[|l| - 1].0 == n || (forall i :: 0 <= i < |l| && l[i].0 == n ==> i < |l| - 1);
    }
  }

  /** Appending a new name, replacing an entry and dropping an entry are insertion, update and removal. */
  lemma MapOperations(l: Listing, k: nat, e: (Name, Entry))
    requires Unique(l)
    ensures (forall i :: 0 <= i < |l| ==> l[i].0 != e.0) ==> AsMap(l + [e]) == AsMap(l)[e.0 := e.1]
    ensures k < |l| && e.0 == l[k].0 ==> AsMap(l[k := e]) == AsMap(l)[e.0 := e.1]
    ensures k < |l| ==> AsMap(l[..k] + l[k + 1..]) == AsMap(l) - {l[k].0}
  {
    assert (l + [e])[..|l|] == l;
    if k < |l| {
      if e.0 == l[k].0 { SameLookups(l, l[k := e], k, e); }
      DropLookups(l, k);
    }
  }

  lemma SameLookups(l: Listing, l': Listing, k: nat, e: (Name, Entry))
    requires Unique(l) && k < |l| && e.0 == l[k].0 && l' == l[k := e]
    ensures AsMap(l') == AsMap(l)[e.0 := e.1]
  {
    forall n ensures n in AsMap(l') <==> n in AsMap(l)[e.0 := e.1] {
      AsMapLooksUp(l, n);
      AsMapLooksUp(l', n);
      if i :| 0 <= i < |l| && l[i].0 == n { assert l'[i].0 == n; }
      if i :| 0 <= i < |l'| && l'[i].0 == n { assert l[i].0 == n; }
    }
    forall n | n in AsMap(l') ensures AsMap(l')[n] == AsMap(l)[e.0 := e.1][n] {
      AsMapLooksUp(l, n);
      AsMapLooksUp(l', n);
      var i :| 0 <= i < |l'| && l'[i].0 == n;
      assert l[i].0 == n;
    }
  }

  lemma DropUnique(l: Listing, k: nat)
    requires Unique(l) && k < |l|
    ensures Unique(l[..k] + l[k + 1..])
  {
    var l' := l[..k] + l[k + 1..];
    forall i, j | 0 <= i < j < |l'| ensures l'[i].0 != l'[j].0 {
      assert l'[i] == l[if i < k then i else i + 1] && l'[j] == l[if j < k then j else j + 1];
    }
  }

  lemma DropLookups(l: Listing, k: nat)
    requires Unique(l) && k < |l|
    ensures AsMap(l[..k] + l[k + 1..]) == AsMap(l) - {l[k].0}
  {
    var l' := l[..k] + l[k + 1..];
    DropUnique(l, k);
    forall n ensures SameBut(AsMap(l), AsMap(l'), l[k].0, n) { DropLookup(l, l', k, n); }
    Removal(AsMap(l), AsMap(l'), l[k].0);
  }

  /** Name `n` is under `m'` what it is under `m`, unless it is `key`, which is gone. */
  ghost predicate SameBut(m: map<Name, Entry>, m': map<Name, Entry>, key: Name, n: Name) {
    (n in m' <==> n in m && n != key) && (n in m' ==> m'[n] == m[n])
  }

  lemma Removal(m: map<Name, Entry>, m': map<Name, Entry>, key: Name)
    requires forall n :: SameBut(m, m', key, n)
    ensures m' == m - {key}
  {
    forall n ensures (n in m' <==> n in m - {key}) && (n in m' ==> m'[n] == m[n]) {
      assert SameBut(m, m', key, n);
    }
  }

  lemma DropLookup(l: Listing, l': Listing, k: nat, n: Name)
    requires Unique(l) && Unique(l') && k < |l| && l' == l[..k] + l[k + 1..]
    ensures SameBut(AsMap(l), AsMap(l'), l[k].0, n)
  {
    AsMapLooksUp(l, n);
    AsMapLooksUp(l', n);
    if n in AsMap(l') {
      var i :| 0 <= i < |l'| && l'[i].0 == n;
      DropShift(l, k, i);
    }
    if n in AsMap(l) && n != l[k].0 {
      var i :| 0 <= i < |l| && l[i].0 == n;
      DropShift(l, k, if i < k then i else i - 1);
    }
  }

  lemma DropShift(l: Listing, k: nat, i: nat)
    requires Unique(l) && k < |l| && i < |l| - 1
    ensures (l[..k] + l[k + 1..])[i] == l[if i < k then i else i + 1]
    ensures l[if i < k then i else i + 1].0 != l[k].0
  {
  }

  lemma Lookup(l: Listing, k: nat)
    requires Unique(l) && k < |l|
    ensures l[k].0 in AsMap(l) && AsMap(l)[l[k].0] == l[k].1
  {
    AsMapLooksUp(l, l[k].0);
  }

  // ----- the operations on the map -----

  /** A call and what it answered; `table` is what a new directory's block is filled with. */
  datatype Call =
    | CreateFile(name: Name, status: Status)
    | CreateDirectory(name: Name, table: seq<bv8>, status: Status)
    | WriteFile(name: Name, data: seq<bv8>, status: Status)
    | ReadFile(name: Name, status: Status, buffer: seq<bv8>)
    | DeleteFile(name: Name, status: Status)
    | DeleteDirectory(name: Name, status: Status)

  /** What the map is after a call that succeeded. */
  function Effect(m: map<Name, Entry>, c: Call): map<Name, Entry> {
    match c
    case CreateFile(n, _) => m[n := Entry(false, [])]
    case CreateDirectory(n, table, _) => m[n := Entry(true, table)]
    case WriteFile(n, data, _) => if n in m then m[n := m[n].(contents := data)] else m
    case ReadFile(_, _, _) => m
    case DeleteFile(n, _) => m - {n}
    case DeleteDirectory(n, _) => m - {n}
  }

  /** The answers the map allows: only for want of memory may a call fail that the map would let through. */
  predicate Answers(m: map<Name, Entry>, c: Call) {
    match c
    case CreateFile(n, status) => status != FileNotFound && (status == FileExists <==> n in m)
    case CreateDirectory(n, _, status) => status != FileNotFound && (status == FileExists <==> n in m)
    case WriteFile(n, _, status) => status != FileExists && (status == FileNotFound <==> n !in m)
    case ReadFile(n, status, buffer) =>
      status == (if n in m then Ok else FileNotFound) && buffer == if n in m then m[n].contents else []
    case DeleteFile(n, status) => status == if n in m then Ok else FileNotFound
    case DeleteDirectory(n, status) => status == if n in m && m[n].isDir then Ok else FileNotFound
  }

  /** A call takes the map `m` to the map `m'`. */
  predicate Steps(m: map<Name, Entry>, c: Call, m': map<Name, Entry>) {
    Answers(m, c) && m' == if c.status == Ok then Effect(m, c) else m
  }

  /** A sequence of calls takes `m` to `m'`. */
  predicate History(m: map<Name, Entry>, calls: seq<Call>, m': map<Name, Entry>)
    decreases |calls|
  {
    if calls == [] then m' == m
    else
      var next := if calls[0].status == Ok then Effect(m, calls[0]) else m;
      Steps(m, calls[0], next) && History(next, calls[1..], m')
  }

  /** The call changes what is under the name. */
  predicate Touches(c: Call, n: Name) {
    c.name == n && c.status == Ok && !c.ReadFile?
  }

  /** What is under a name stays until a call touches it. */
  lemma {:induction false} Untouched(m: map<Name, Entry>, calls: seq<Call>, m': map<Name, Entry>, n: Name)
    requires History(m, calls, m') && forall c :: c in calls ==> !Touches(c, n)
    ensures n in m' <==> n in m
    ensures n in m ==> m'[n] == m[n]
    decreases |calls|
  {
    if calls != [] {
      assert calls[0] in calls && forall c :: c in calls[1..] ==> c in calls;
      var next := if calls[0].status == Ok then Effect(m, calls[0]) else m;
      assert n in next <==> n in m;
      Untouched(next, calls[1..], m', n);
    }
  }

  /** A file reads as what was last written to it, whatever is created, written, read or deleted beside it. */
  lemma ReadsLastWrite(m: map<Name, Entry>, calls: seq<Call>, m': map<Name, Entry>, n: Name, data: seq<bv8>, r: Call)
    requires calls != [] && calls[0] == WriteFile(n, data, Ok) && History(m, calls, m')
    requires forall c :: c in calls[1..] ==> !Touches(c, n)
    requires r.ReadFile? && r.name == n && Answers(m', r)
    ensures r.status == Ok && r.buffer == data
  {
    Untouched(Effect(m, calls[0]), calls[1..], m', n);
  }

  /** Once deleted, a file or directory is not found until it is created again. */
  lemma DeletedIsGone(m: map<Name, Entry>, calls: seq<Call>, m': map<Name, Entry>, n: Name, r: Call)
    requires calls != [] && calls[0] in {DeleteFile(n, Ok), DeleteDirectory(n, Ok)} && History(m, calls, m')
    requires forall c :: c in calls[1..] ==> !Touches(c, n)
    requires r.ReadFile? && r.name == n && Answers(m', r)
    ensures r.status == FileNotFound
  {
    Untouched(Effect(m, calls[0]), calls[1..], m', n);
  }

  /** A new file is empty until it is written, and a new directory reads as its table. */
  lemma CreatedReads(m: map<Name, Entry>, calls: seq<Call>, m': map<Name, Entry>, n: Name, table: seq<bv8>, r: Call)
    requires calls != [] && History(m, calls, m')
    requires calls[0] == CreateFile(n, Ok) || calls[0] == CreateDirectory(n, table, Ok)
    requires forall c :: c in calls[1..] ==> !Touches(c, n)
    requires r.ReadFile? && r.name == n && Answers(m', r)
    ensures n !in m && r.status == Ok && r.buffer == if calls[0].CreateFile? then [] else table
  {
    Untouched(Effect(m, calls[0]), calls[1..], m', n);
  }

  ghost predicate TablesEmpty(m: map<Name, Entry>) {
    forall n :: n in m && m[n].isDir ==> EmptyTable(m[n].contents)
  }

  /** No call of the history writes over a directory. */
  predicate KeepsTables(m: map<Name, Entry>, calls: seq<Call>)
    decreases |calls|
  {
    calls == [] ||
    (var c := calls[0];
     && (c.WriteFile? ==> !(c.name in m && m[c.name].isDir))
     && (c.CreateDirectory? ==> EmptyTable(c.table))
     && KeepsTables(if c.status == Ok then Effect(m, c) else m, calls[1..]))
  }

  /** Nothing but writing over a directory ever puts anything into its table. */
  lemma {:induction false} TablesStayEmpty(m: map<Name, Entry>, calls: seq<Call>, m': map<Name, Entry>)
    requires TablesEmpty(m) && History(m, calls, m') && KeepsTables(m, calls)
    ensures TablesEmpty(m')
    decreases |calls|
  {
    if calls != [] {
      TablesStayEmpty(if calls[0].status == Ok then Effect(m, calls[0]) else m, calls[1..], m');
    }
  }
}
