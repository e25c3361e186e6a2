/** The hash table of minzip. */
module HashTable {
  import opened Bytes
  import opened HashSlots

  /** How far probing is from `i` to the empty slot `e`. */
  function Distance(i: nat, e: nat, size: nat): (d: nat)
    requires i < size && e < size
  {
    if i <= e then e - i else size - i + e
  }

  /** The probe loop over an array of slots: where it stops, at a match or at an empty slot. */
  method Probe(hash: HashFunc, entries: array<Slot>, key: Key) returns (i: nat)
    requires Found(hash, entries[..]) && LiveCount(entries[..]) + DeadCount(entries[..]) < entries.Length
    ensures i < entries.Length && (entries[i] == Empty || Matches(entries[i], key))
    ensures Reachable(entries[..], Start(hash(key), entries.Length), i)
    ensures entries[i] == Empty ==> forall j :: 0 <= j < entries.Length ==> !Matches(entries[j], key)
  {
    ghost var t := entries[..];
    ghost var e := EmptyExists(t);
    var size, h := entries.Length, hash(key);
    var start := Start(h, size);
    i := start;
    while entries[i] != Empty
      invariant i < size && t == entries[..] && Reachable(t, start, i)
      invariant forall j :: 0 <= j < size && OnPath(start, i, j) ==> !Matches(t[j], key)
      decreases Distance(i, e, size)
    {
      if entries[i] != Tombstone && entries[i].hash == h && entries[i].item.key == key { return; }
      PathStep(t, start, i, Next(i, size), e);
      if size == 1 { break; }
      i := Next(i, size);
    }
    NotThere(hash, t, key, i);
  }

  /** The probe loop of `resizeHash`: the first empty slot. */
  method ProbeEmpty(entries: array<Slot>, start: nat) returns (i: nat)
    requires start < entries.Length && LiveCount(entries[..]) + DeadCount(entries[..]) < entries.Length
    ensures i < entries.Length && entries[i] == Empty && Reachable(entries[..], start, i)
  {
    ghost var t := entries[..];
    ghost var e := EmptyExists(t);
    var size := entries.Length;
    i := start;
    while entries[i] != Empty
      invariant i < size && t == entries[..] && Reachable(t, start, i)
      decreases Distance(i, e, size)
    {
      PathStep(t, start, i, Next(i, size), e);
      i := Next(i, size);
    }
  }

  /** Puts one item into the new slots. */
  method Reinsert(hash: HashFunc, news: array<Slot>, slot: Slot, ghost m: map<Key, Item>)
    requires slot.Live? && slot.hash == hash(slot.item.key) && slot.item.key !in m
    requires WellFormed(hash, news[..]) && Represents(news[..], m) && DeadCount(news[..]) == 0 &&
             LiveCount(news[..]) < news.Length
    modifies news
    ensures WellFormed(hash, news[..]) && Represents(news[..], m[slot.item.key := slot.item])
    ensures DeadCount(news[..]) == 0 && LiveCount(news[..]) == old(LiveCount(news[..])) + 1
  {
    ghost var t := news[..];
    var i := ProbeEmpty(news, Start(slot.hash, news.Length));
    AddKeeps(hash, t, m, slot.item, i);
    CountsOfUpdate(t, i, slot);
    news[i] := slot;
    assert news[..] == t[i := slot];
  }

  /** `resizeHash`: all live entries go to new slots, tombstones do not. */
  method ResizeHash(hash: HashFunc, olds: array<Slot>, newSize: nat, ghost m: map<Key, Item>)
      returns (news: array<Slot>)
    requires WellFormed(hash, olds[..]) && Represents(olds[..], m) && LiveCount(olds[..]) < newSize
    ensures fresh(news) && news.Length == newSize && WellFormed(hash, news[..]) && Represents(news[..], m)
    ensures DeadCount(news[..]) == 0 && LiveCount(news[..]) == LiveCount(olds[..])
  {
    news := new Slot[newSize](_ => Empty);
    ghost var t, done: map<Key, Item> := olds[..], map[];
    EmptySlots(news[..], newSize);
    var i: nat := 0;
    while i < olds.Length
      invariant i <= olds.Length && t == olds[..] && Represents(t[..i], done) &&
                LiveCount(news[..]) == LiveCount(t[..i])
      invariant WellFormed(hash, news[..]) && Represents(news[..], done) && DeadCount(news[..]) == 0
    {
      RepresentsNext(t, i, done);
      CountsOfPrefix(t, i);
      if olds[i].Live? {
        Reinsert(hash, news, olds[i], done);
        done := done[olds[i].item.key := olds[i].item];
      }
      i := i + 1;
    }
    assert t[..i] == t;
    RepresentsOne(t, m, done);
  }

  class HashTable {
    const hash: HashFunc
    var entries: array<Slot>
    var numEntries: nat
    var numDeadEntries: nat
    ghost var items: map<Key, Item>

    ghost predicate Valid()
      reads this, entries
    {
      Loaded() && 8 * (numEntries + numDeadEntries) <= 5 * entries.Length
    }

    /** `mzHashTableCreate`. */
    constructor (initialSize: nat, h: HashFunc)
      requires initialSize > 0
      ensures Valid() && fresh(entries) && items == map[] && hash == h
      ensures entries.Length == RoundedUp(initialSize) && numEntries == numDeadEntries == 0
    {
      hash, items := h, map[];
      numEntries, numDeadEntries := 0, 0;
      entries := new Slot[RoundedUp(initialSize)](_ => Empty);
      new;
      EmptySlots(entries[..], entries.Length);
    }

    /**
     `mzHashTableLookup`: finds the item with the same key, or adds this one; the table doubles when it gets too full.
     */
    method Lookup(item: Item, doAdd: bool) returns (result: Option<Item>)
      requires Valid()
      modifies this, entries
      ensures Valid() && (entries == old(entries) || fresh(entries))
      ensures items == if doAdd && item.key !in old(items) then old(items)[item.key := item] else old(items)
      ensures result == if item.key in items then Some(items[item.key]) else None
      ensures numEntries + numDeadEntries <= old(numEntries + numDeadEntries) + (if doAdd then 1 else 0)
      ensures 8 * (old(numEntries + numDeadEntries) + (if doAdd then 1 else 0)) <= 5 * old(entries.Length) ==>
                entries == old(entries)
    {
      ghost var t := entries[..];
      var i := Probe(hash, entries, item.key);
      if entries[i] != Empty { return Some(entries[i].item); }
      NotInMap(t, items, item.key);
      if !doAdd { return None; }
      Add(item, i);
      result := Some(item);
    }

    /** Everything but the load limit. */
    ghost predicate Loaded()
      reads this, entries
    {
      && WellFormed(hash, entries[..]) && Represents(entries[..], items)
      && numEntries == LiveCount(entries[..]) && numDeadEntries == DeadCount(entries[..]) && PowerOfTwo(entries.Length)
    }

    /** Fills the empty slot `i`. */
    method Store(item: Item, i: nat)
      requires Loaded() && i < entries.Length && entries[i] == Empty &&
               Reachable(entries[..], Start(hash(item.key), entries.Length), i)
      requires forall j :: 0 <= j < entries.Length ==> !Matches(entries[j], item.key)
      modifies this`items, this`numEntries, entries
      ensures Loaded() && items == old(items)[item.key := item] && item.key !in old(items) &&
              numEntries == old(numEntries) + 1
    {
      ghost var t := entries[..];
      var slot := Live(hash(item.key), item);
      AddKeeps(hash, t, items, item, i);
      CountsOfUpdate(t, i, slot);
      entries[i] := slot;
      assert entries[..] == t[i := slot];
      items, numEntries := items[item.key := item], numEntries + 1;
    }

    /** Fills the empty slot `i` and resizes if that brings the table too close to full. */
    method Add(item: Item, i: nat)
      requires Valid() && i < entries.Length && entries[i] == Empty &&
               Reachable(entries[..], Start(hash(item.key), entries.Length), i)
      requires forall j :: 0 <= j < entries.Length ==> !Matches(entries[j], item.key)
      modifies this, entries
      ensures Valid() && (entries == old(entries) || fresh(entries))
      ensures items == old(items)[item.key := item] && item.key !in old(items)
      ensures numEntries == old(numEntries) + 1 && numDeadEntries <= old(numDeadEntries)
      ensures 8 * (old(numEntries + numDeadEntries) + 1) <= 5 * old(entries.Length) ==> entries == old(entries)
    {
      Store(item, i);
      if (numEntries + numDeadEntries) * 8 > entries.Length * 5 { Grow(); }
    }

    /** Doubles the table; the tombstones go. */
    method Grow()
      requires Loaded() && 8 * numEntries <= 10 * entries.Length && numEntries < 2 * entries.Length
      modifies this`entries, this`numDeadEntries
      ensures Valid() && fresh(entries) && numDeadEntries == 0 && entries.Length == 2 * old(entries.Length)
    {
      var news := ResizeHash(hash, entries, entries.Length * 2, items);
      entries, numDeadEntries := news, 0;
    }

    /** `mzHashTableRemove`: only this very item is removed, not another one with the same key. */
    method Remove(item: Item) returns (found: bool)
      requires Valid()
      modifies this, entries
      ensures Valid() && entries == old(entries)
      ensures found <==> item.key in old(items) && old(items)[item.key] == item
      ensures items == if found then old(items) - {item.key} else old(items)
      ensures numEntries + numDeadEntries == old(numEntries + numDeadEntries)
    {
      ghost var t := entries[..];
      var i := ProbeItem(hash, entries, item);
      if entries[i] == Empty {
        found := false;
      } else {
        RemoveKeeps(hash, t, items, i);
        CountsOfUpdate(t, i, Tombstone);
        entries[i] := Tombstone;
        assert entries[..] == t[i := Tombstone];
        items, numEntries, numDeadEntries := items - {item.key}, numEntries - 1, numDeadEntries + 1;
        found := true;
      }
    }
  }

  /** The probe loop of `mzHashTableRemove`, which compares pointers. */
  method ProbeItem(hash: HashFunc, entries: array<Slot>, item: Item) returns (i: nat)
    requires Found(hash, entries[..]) && LiveCount(entries[..]) + DeadCount(entries[..]) < entries.Length
    ensures i < entries.Length && (entries[i] == Empty || (entries[i].Live? && entries[i].item == item))
    ensures entries[i] == Empty ==> !HasLive(entries[..], item)
  {
    ghost var t := entries[..];
    ghost var e := EmptyExists(t);
    var size := entries.Length;
    var start := Start(hash(item.key), size);
    i := start;
    while entries[i] != Empty
      invariant i < size && t == entries[..] && Reachable(t, start, i)
      invariant forall j :: 0 <= j < size && OnPath(start, i, j) ==> !(t[j].Live? && t[j].item == item)
      decreases Distance(i, e, size)
    {
      if entries[i].Live? && entries[i].item == item { return; }
      PathStep(t, start, i, Next(i, size), e);
      if size == 1 { break; }
      i := Next(i, size);
    }
    ItemNotThere(hash, t, item, i);
  }

  lemma ItemNotThere(hash: HashFunc, t: Slots, item: Item, i: nat)
    requires Found(hash, t) && i < |t| && t[i] == Empty
    requires forall j :: 0 <= j < |t| && OnPath(Start(hash(item.key), |t|), i, j) ==> !(t[j].Live? && t[j].item == item)
    ensures !HasLive(t, item)
  {
    var start := Start(hash(item.key), |t|);
    forall j | 0 <= j < |t| ensures !(t[j].Live? && t[j].item == item) {
      if !OnPath(start, i, j) && j != i {
        assert OnPath(start, j, i);
        assert !Reachable(t, start, j);
      }
    }
  }

  // Runs

  datatype Op = LookupOp(item: Item, doAdd: bool) | RemoveOp(item: Item)

  datatype Answer = FoundItem(item: Option<Item>) | Removed(found: bool)

  /** What an operation does to a plain map. */
  function MapAfter(m: map<Key, Item>, op: Op): (n: map<Key, Item>) {
    match op
    case LookupOp(item, doAdd) => if doAdd && item.key !in m then m[item.key := item] else m
    case RemoveOp(item) => if item.key in m && m[item.key] == item then m - {item.key} else m
  }

  /** What an operation on a plain map answers. */
  function MapAnswer(m: map<Key, Item>, op: Op): (a: Answer) {
    match op
    case LookupOp(item, doAdd) =>
      FoundItem(if item.key in m then Some(m[item.key]) else if doAdd then Some(item) else None)
    case RemoveOp(item) => Removed(item.key in m && m[item.key] == item)
  }

  function MapAfterAll(m: map<Key, Item>, ops: seq<Op>): (n: map<Key, Item>)
    decreases |ops|
  {
    if ops == [] then m else MapAfterAll(MapAfter(m, ops[0]), ops[1..])
  }

  function MapAnswers(m: map<Key, Item>, ops: seq<Op>): (r: seq<Answer>)
    decreases |ops|
  {
    if ops == [] then [] else [MapAnswer(m, ops[0])] + MapAnswers(MapAfter(m, ops[0]), ops[1..])
  }

  function Adds(ops: seq<Op>): (n: nat) {
    if ops == [] then 0 else (if ops[0].LookupOp? && ops[0].doAdd then 1 else 0) + Adds(ops[1..])
  }

  /**
   Over every run the table answers like a plain map. A table that was created for `n` elements keeps its slots as long
   as no more than `n` adds are asked for.
   */
  method RunOps(table: HashTable, ops: seq<Op>) returns (answers: seq<Answer>)
    requires table.Valid()
    modifies table, table.entries
    ensures table.Valid() && table.items == MapAfterAll(old(table.items), ops)
    ensures answers == MapAnswers(old(table.items), ops)
    ensures 8 * (old(table.numEntries + table.numDeadEntries) + Adds(ops)) <= 5 * old(table.entries.Length)
            ==> table.entries == old(table.entries)
  {
    answers := [];
    var i: nat := 0;
    ghost var used := table.numEntries + table.numDeadEntries;
    ghost var room := 8 * (used + Adds(ops)) <= 5 * table.entries.Length;
    assert ops[0..] == ops;
    while i < |ops|
      invariant i <= |ops| && table.Valid() && (table.entries == old(table.entries) || fresh(table.entries))
      invariant MapAfterAll(table.items, ops[i..]) == MapAfterAll(old(table.items), ops)
      invariant answers + MapAnswers(table.items, ops[i..]) == MapAnswers(old(table.items), ops)
      invariant table.numEntries + table.numDeadEntries + Adds(ops[i..]) <= used + Adds(ops)
      invariant room ==> table.entries == old(table.entries)
    {
      ghost var was := table.items;
      var answer := RunOp(table, ops[i]);
      assert ops[i..][1..] == ops[i + 1..];
      assert answers + ([answer] + MapAnswers(table.items, ops[i + 1..]))
          == (answers + [answer]) + MapAnswers(table.items, ops[i + 1..]);
      answers := answers + [answer];
      i := i + 1;
    }
  }

  method RunOp(table: HashTable, op: Op) returns (answer: Answer)
    requires table.Valid()
    modifies table, table.entries
    ensures table.Valid() && (table.entries == old(table.entries) || fresh(table.entries))
    ensures table.items == MapAfter(old(table.items), op) && answer == MapAnswer(old(table.items), op)
    ensures table.numEntries + table.numDeadEntries <= old(table.numEntries + table.numDeadEntries) + Adds([op])
    ensures 8 * (old(table.numEntries + table.numDeadEntries) + Adds([op])) <= 5 * old(table.entries.Length)
            ==> table.entries == old(table.entries)
  {
    match op
    case LookupOp(item, doAdd) =>
      var found := table.Lookup(item, doAdd);
      answer := FoundItem(found);
    case RemoveOp(item) =>
      var found := table.Remove(item);
      answer := Removed(found);
  }

  /** A table created with `mzHashSize(n)` never resizes during `n` adds. */
  method FillPresized(n: nat, hash: HashFunc, ops: seq<Op>) returns (table: HashTable, answers: seq<Answer>)
    requires Adds(ops) <= n
    ensures fresh(table) && table.Valid() && table.items == MapAfterAll(map[], ops) && answers == MapAnswers(map[], ops)
    ensures table.entries.Length == RoundedUp(HashSize(n))
  {
    table := new HashTable(HashSize(n), hash);
    answers := RunOps(table, ops);
  }
}
