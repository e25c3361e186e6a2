/** The index of a zip archive: a sorted array of entries and a hash table over their names. */
module ZipArchive {
  import opened Bytes
  import opened ZipNames
  import opened HashSlots
  import H = HashTable

  datatype ZipEntry = ZipEntry(name: Name, offset: nat, compLen: nat, uncompLen: nat, compression: nat, modTime: nat,
                               crc32: nat, versionMadeBy: nat, externalFileAttributes: nat)

  // Section 4.3 of the PKWARE APPNOTE
  const LocalSignature := 0x04034b50
  const CentralSignature := 0x02014b50
  const EndSignature := 0x06054b50
  const LocalHeader := 30
  const CentralHeader := 46
  const EndHeader := 22
  const PathMax := 4096

  // The end-of-central-directory record

  predicate EndAt(file: seq<byte>, i: int) { 0 <= i && i + 4 <= |file| && Unsigned4(file, i) == EndSignature }

  /** The backward scan: the last record that leaves room for a whole header, or -1. */
  method FindEnd(file: seq<byte>) returns (i: int)
    requires |file| >= EndHeader
    ensures -1 <= i <= |file| - EndHeader && (i >= 0 ==> EndAt(file, i))
    ensures forall j :: i < j <= |file| - EndHeader ==> !EndAt(file, j)
  {
    i := |file| - EndHeader;
    while i >= 0
      invariant -1 <= i <= |file| - EndHeader && forall j :: i < j <= |file| - EndHeader ==> !EndAt(file, j)
    {
      if file[i] == 0x50 && Unsigned4(file, i) == EndSignature { break; }
      i := i - 1;
    }
  }

  // One record of the central directory

  predicate ValidFilename(name: Name) { |name| < PathMax && forall i :: 0 <= i < |name| ==> 32 <= name[i] < 127 }

  /** Made on a system whose file modes mean something: FAT or Unix. */
  predicate KnownSystem(versionMadeBy: nat) { versionMadeBy / 0x100 % 0x100 == 0 || versionMadeBy / 0x100 % 0x100 == 3 }

  /** The entry of the record at `ptr` and where the next record starts; nothing if anything is wrong with it. */
  function ReadEntry(file: seq<byte>, ptr: nat): (r: Option<(ZipEntry, nat)>)
    ensures r.Some? ==>
              r.value.1 >= ptr + CentralHeader && ValidFilename(r.value.0.name) &&
              r.value.0.offset + r.value.0.compLen <= |file|
  {
    if ptr + CentralHeader > |file| || Unsigned4(file, ptr) != CentralSignature then None
    else
      var local, nameLen, extraLen, commentLen :=
        Unsigned4(file, ptr + 42), Read2(file, ptr + 28), Read2(file, ptr + 30), Read2(file, ptr + 32);
      var next := ptr + CentralHeader + nameLen + extraLen + commentLen;
      if ptr + CentralHeader + nameLen > |file| then None
      else
        var name := file[ptr + CentralHeader..ptr + CentralHeader + nameLen];
        if !ValidFilename(name) || !KnownSystem(Read2(file, ptr + 4)) || local + LocalHeader > |file| ||
           Unsigned4(file, local) != LocalSignature then None
        else
          var offset := local + LocalHeader + Read2(file, local + 26) + Read2(file, local + 28);
          var compLen := Unsigned4(file, ptr + 20);
          if offset + compLen > |file| then None
          else Some((ZipEntry(name, offset, compLen, Unsigned4(file, ptr + 24), Read2(file, ptr + 10),
                              Unsigned4(file, ptr + 12), Unsigned4(file, ptr + 16), Read2(file, ptr + 4),
                              Unsigned4(file, ptr + 38)), next))
  }

  type EntryReader = nat -> Option<(ZipEntry, nat)>

  /** The next `n` records in file order. */
  function Directory(read: EntryReader, ptr: nat, n: nat): (r: Option<seq<ZipEntry>>)
    ensures r.Some? ==> |r.value| == n
    decreases n
  {
    if n == 0 then Some([])
    else
      match read(ptr)
      case None => None
      case Some((e, next)) =>
        match Directory(read, next, n - 1)
        case None => None
        case Some(rest) => Some([e] + rest)
  }

  // Sorted insertion

  predicate Sorted(es: seq<ZipEntry>) { forall i, j :: 0 <= i < j < |es| ==> AtMost(es[i].name, es[j].name) }

  /** Everything before `k` is at most `name`, everything from `k` on is at least `name`. */
  predicate Fits(es: seq<ZipEntry>, k: nat, name: Name) {
    && k <= |es| && (forall i :: 0 <= i < k ==> AtMost(es[i].name, name))
    && (forall i :: k <= i < |es| ==> AtMost(name, es[i].name))
  }

  /** The binary search; an equal name goes right behind the one that was found. */
  method SearchPlace(entries: array<ZipEntry>, n: nat, name: Name) returns (target: nat)
    requires n <= entries.Length && Sorted(entries[..n])
    ensures Fits(entries[..n], target, name)
    ensures (exists i :: 0 <= i < n && entries[i].name == name) ==> target > 0 && entries[target - 1].name == name
  {
    ghost var es := entries[..n];
    var low, high := 0, n - 1;
    while low <= high
      invariant 0 <= low <= n && -1 <= high < n && low <= high + 1
      invariant forall i :: 0 <= i < low ==> AtMost(es[i].name, name)
      invariant forall i :: high < i < n ==> AtMost(name, es[i].name)
      invariant forall i :: (0 <= i < low || high < i < n) ==> es[i].name != name
      decreases high - low
    {
      var mid := low + (high - low) / 2;
      var diff := Compare(entries[mid].name, name);
      CompareIsOrder(entries[mid].name, name);
      Around(es, mid, name);
      if diff < 0 {
        StrictlyBelow(es, mid, name);
        low := mid + 1;
      } else if diff > 0 {
        StrictlyAbove(es, mid, name);
        high := mid - 1;
      } else {
        return mid + 1;
      }
    }
    target := high + 1;
  }

  lemma StrictlyBelow(es: seq<ZipEntry>, mid: nat, name: Name)
    requires Sorted(es) && mid < |es| && Compare(es[mid].name, name) < 0
    ensures forall i :: 0 <= i <= mid ==> es[i].name != name
  {
    LessNotAtMost(es[mid].name, name);
  }

  lemma StrictlyAbove(es: seq<ZipEntry>, mid: nat, name: Name)
    requires Sorted(es) && mid < |es| && Compare(es[mid].name, name) > 0
    ensures forall i :: mid <= i < |es| ==> es[i].name != name
  {
    CompareIsOrder(es[mid].name, name);
    CompareIsOrder(name, es[mid].name);
    LessNotAtMost(name, es[mid].name);
  }

  lemma Around(es: seq<ZipEntry>, mid: nat, name: Name)
    requires Sorted(es) && mid < |es|
    ensures AtMost(es[mid].name, name) ==> forall i :: 0 <= i <= mid ==> AtMost(es[i].name, name)
    ensures AtMost(name, es[mid].name) ==> forall i :: mid <= i < |es| ==> AtMost(name, es[i].name)
  {
    forall i | 0 <= i < mid && AtMost(es[mid].name, name)
      ensures AtMost(es[i].name, name)
    {
      AtMostTransitive(es[i].name, es[mid].name, name);
    }
    forall i | mid < i < |es| && AtMost(name, es[mid].name)
      ensures AtMost(name, es[i].name)
    {
      AtMostTransitive(name, es[mid].name, es[i].name);
    }
  }

  function Inserted(es: seq<ZipEntry>, k: nat, e: ZipEntry): (r: seq<ZipEntry>)
    requires k <= |es|
  {
    es[..k] + [e] + es[k..]
  }

  lemma InsertedSorted(es: seq<ZipEntry>, k: nat, e: ZipEntry)
    requires Sorted(es) && Fits(es, k, e.name)
    ensures Sorted(Inserted(es, k, e)) && multiset(Inserted(es, k, e)) == multiset(es) + multiset{e}
  {
    assert es == es[..k] + es[k..];
  }

  /** Makes room at `target` and stores the entry there. */
  method InsertAt(entries: array<ZipEntry>, n: nat, target: nat, e: ZipEntry)
    requires target <= n < entries.Length
    modifies entries
    ensures entries[..n + 1] == Inserted(old(entries[..n]), target, e)
  {
    ghost var es := entries[..n];
    var k := n;
    while k > target
      invariant target <= k <= n && entries[..k] == es[..k] && entries[k + 1..n + 1] == es[k..]
    {
      entries[k] := entries[k - 1];
      assert entries[k..n + 1] == [es[k - 1]] + es[k..] == es[k - 1..];
      k := k - 1;
    }
    entries[target] := e;
  }

  /** The same entries, in order. */
  predicate SortedFrom(es: seq<ZipEntry>, done: seq<ZipEntry>) { Sorted(es) && multiset(es) == multiset(done) }

  /** One entry more. */
  method InsertSorted(entries: array<ZipEntry>, n: nat, e: ZipEntry, ghost done: seq<ZipEntry>)
    requires n < entries.Length && SortedFrom(entries[..n], done)
    modifies entries
    ensures SortedFrom(entries[..n + 1], done + [e])
  {
    var target := SearchPlace(entries, n, e.name);
    InsertedSorted(entries[..n], target, e);
    InsertAt(entries, n, target, e);
  }

  // Parsing

  const Blank := ZipEntry([], 0, 0, 0, 0, 0, 0, 0, 0)

  lemma AfterStep(read: EntryReader, ptr: nat, left: nat, done: seq<ZipEntry>, e: ZipEntry, next: nat,
                  rest: Option<seq<ZipEntry>>)
      returns (rest2: Option<seq<ZipEntry>>)
    requires left > 0 && read(ptr) == Some((e, next)) && rest == Directory(read, ptr, left)
    ensures rest2 == Directory(read, next, left - 1) && Following(done, rest) == Following(done + [e], rest2)
  {
    rest2 := Directory(read, next, left - 1);
    if rest2.Some? { assert done + ([e] + rest2.value) == (done + [e]) + rest2.value; }
  }

  /** One round of the loop: reads a record and inserts it. */
  method ReadNext(read: EntryReader, ptr: nat, entries: array<ZipEntry>, i: nat, ghost done: seq<ZipEntry>,
                  ghost left: nat, ghost rest: Option<seq<ZipEntry>>)
      returns (ok: bool, next: nat, ghost done2: seq<ZipEntry>, ghost left2: nat, ghost rest2: Option<seq<ZipEntry>>)
    requires i < entries.Length && SortedFrom(entries[..i], done) && left > 0 && rest == Directory(read, ptr, left)
    modifies entries
    ensures !ok ==> rest == None
    ensures ok ==>
              SortedFrom(entries[..i + 1], done2) && left2 == left - 1 && rest2 == Directory(read, next, left2) &&
              Following(done, rest) == Following(done2, rest2)
  {
    ok, next, done2, left2, rest2 := false, ptr, done, left, rest;
    var record := read(ptr);
    if record.None? { return; }
    var (e, after) := record.value;
    rest2 := AfterStep(read, ptr, left, done, e, after, rest);
    InsertSorted(entries, i, e, done);
    ok, next, done2, left2 := true, after, done + [e], left - 1;
  }

  /** The loop of `parseZipArchive`: every record goes to its place in the sorted array. */
  method ReadDirectory(read: EntryReader, start: nat, n: nat) returns (ok: bool, entries: array<ZipEntry>)
    ensures fresh(entries) && entries.Length == n && (ok <==> Directory(read, start, n).Some?)
    ensures ok ==> SortedFrom(entries[..], Directory(read, start, n).value)
  {
    entries := new ZipEntry[n](_ => Blank);
    var ptr, i: nat := start, 0;
    ghost var done: seq<ZipEntry>, left := [], n;
    ghost var goal := Directory(read, start, n);
    ghost var rest := goal;
    NothingFollowing(goal);
    while i < n
      invariant i <= n && left == n - i && SortedFrom(entries[..i], done)
      invariant rest == Directory(read, ptr, left) && goal == Following(done, rest)
    {
      ok, ptr, done, left, rest := ReadNext(read, ptr, entries, i, done, left, rest);
      if !ok { return; }
      i := i + 1;
    }
    ReadAll(read, ptr, done, rest);
    assert entries[..n] == entries[..];
    ok := true;
  }

  lemma ReadAll(read: EntryReader, ptr: nat, done: seq<ZipEntry>, rest: Option<seq<ZipEntry>>)
    requires rest == Directory(read, ptr, 0)
    ensures Following(done, rest) == Some(done)
  {
    assert done + [] == done;
  }

  function RecordAt(file: seq<byte>): (read: EntryReader) { (ptr: nat) => ReadEntry(file, ptr) }

  /** The records of the central directory that the end record at `end` points to. */
  function RecordsOf(file: seq<byte>, end: nat): (r: Option<seq<ZipEntry>>)
    requires end + EndHeader <= |file|
  {
    var n, offset := Read2(file, end + 8), Unsigned4(file, end + 16);
    if n == 0 || offset >= |file| then None else Directory(RecordAt(file), offset, n)
  }

  /**
   The file starts with a local header and `end` is its last end record; those are the conditions before the records are
   read.
   */
  predicate Opens(file: seq<byte>, end: int) {
    && |file| >= EndHeader && Unsigned4(file, 0) == LocalSignature
    && 0 <= end <= |file| - EndHeader && EndAt(file, end)
    && forall j :: end < j <= |file| - EndHeader ==> !EndAt(file, j)
  }

  /** `mzOpenZipArchive`: the entries are the records of the directory, sorted by name. */
  method Parse(file: seq<byte>) returns (ok: bool, entries: array<ZipEntry>, ghost end: int)
    ensures ok <==> Opens(file, end) && RecordsOf(file, end).Some?
    ensures !ok ==> forall e :: Opens(file, e) ==> RecordsOf(file, e).None?
    ensures ok ==> SortedFrom(entries[..], RecordsOf(file, end).value)
  {
    ok, end := false, -1;
    entries := new ZipEntry[0](_ => Blank);
    if |file| < EndHeader || Unsigned4(file, 0) != LocalSignature { return; }
    var at := FindEnd(file);
    end := at;
    if at < 0 { return; }
    var n, offset := Read2(file, at + 8), Unsigned4(file, at + 16);
    if n == 0 || offset >= |file| { return; }
    ok, entries := ReadDirectory(RecordAt(file), offset, n);
  }

  // The index

  /** The entry number `k` as an item of the hash table. */
  function ItemOf(es: seq<ZipEntry>, k: nat): (item: Item)
    requires k < |es|
  {
    Item(es[k].name, k)
  }

  /** The index maps every name to the first entry of that name. */
  ghost predicate Indexes(m: map<Key, Item>, es: seq<ZipEntry>) {
    && (forall k :: 0 <= k < |es| ==> es[k].name in m)
    && (forall name :: name in m ==>
          && m[name].key == name && 0 <= m[name].id < |es| && es[m[name].id].name == name
          && forall k :: 0 <= k < m[name].id ==> es[k].name != name)
  }

  lemma IndexNext(m: map<Key, Item>, es: seq<ZipEntry>, i: nat)
    requires i < |es| && Indexes(m, es[..i])
    ensures Indexes(if es[i].name in m then m else m[es[i].name := ItemOf(es, i)], es[..i + 1])
  {
    var a, b := es[..i], es[..i + 1];
    var n := if es[i].name in m then m else m[es[i].name := ItemOf(es, i)];
    forall k | 0 <= k < |b| ensures b[k].name in n { if k < i { assert a[k] == b[k]; } }
    forall name | name in n
      ensures n[name].key == name && 0 <= n[name].id < |b| && b[n[name].id].name == name &&
              forall k :: 0 <= k < n[name].id ==> b[k].name != name
    {
      if name in m {
        assert b[m[name].id] == a[m[name].id];
        forall k | 0 <= k < m[name].id ensures b[k].name != name { assert b[k] == a[k]; }
      } else {
        forall k | 0 <= k < i ensures b[k].name != name { assert a[k] == b[k] && a[k].name in m; }
      }
    }
  }

  /** The second loop of `parseZipArchive`: a name that is there already keeps its first entry. */
  method IndexEntries(entries: array<ZipEntry>) returns (table: H.HashTable)
    ensures fresh(table) && fresh(table.entries) && table.Valid() && Indexes(table.items, entries[..])
    ensures table.entries.Length == RoundedUp(HashSize(entries.Length))
  {
    var n := entries.Length;
    table := new H.HashTable(HashSize(n), ComputeHash);
    ghost var slots := table.entries;
    ghost var es := entries[..];
    var i: nat := 0;
    while i < n
      invariant i <= n && es == entries[..] && fresh(table) && fresh(table.entries) && table.Valid() &&
                Indexes(table.items, es[..i])
      invariant table.entries == slots && table.numEntries + table.numDeadEntries <= i
    {
      IndexNext(table.items, es, i);
      var _ := table.Lookup(Item(entries[i].name, i), true);
      i := i + 1;
    }
    assert es[..i] == es;
  }

  /** `mzFindZipEntry`: what a linear scan for the first entry of that name would find. */
  method FindZipEntry(table: H.HashTable, es: seq<ZipEntry>, name: Name) returns (k: Option<nat>)
    requires table.Valid() && Indexes(table.items, es)
    modifies table, table.entries
    ensures table.Valid() && table.items == old(table.items)
    ensures k.Some? ==>
              k.value < |es| && es[k.value].name == name && forall j :: 0 <= j < k.value ==> es[j].name != name
    ensures k.None? ==> forall j :: 0 <= j < |es| ==> es[j].name != name
  {
    var found := table.Lookup(Item(name, -1), false);
    k := if found.Some? then Some(found.value.id) else None;
  }
}
