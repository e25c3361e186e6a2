/** Open addressing with tombstones: what a slot array means. */
module HashSlots {
  import opened Bytes

  /** What items are compared by. */
  type Key = seq<byte>

  /** An item in the table; items with the same key compare equal, `id` tells objects apart. */
  datatype Item = Item(key: Key, id: int)

  type HashFunc = Key -> nat

  datatype Slot = Empty | Tombstone | Live(hash: nat, item: Item)

  type Slots = seq<Slot>

  /** Where probing starts: the hash masked to the size of the table, which is a power of two. */
  function Start(h: nat, size: nat): (i: nat)
    requires size > 0
    ensures i < size
  {
    h % size
  }

  /** The slot after `i`, wrapping around. */
  function Next(i: nat, size: nat): (j: nat)
    requires i < size
    ensures j < size
  {
    if i + 1 == size then 0 else i + 1
  }

  /** Probing from `start` to `i` passes `j` before it gets to `i`. */
  predicate OnPath(start: nat, i: nat, j: nat) { if start <= i then start <= j < i else start <= j || j < i }

  /** Probing from `start` gets to `i` before any empty slot. */
  predicate Reachable(t: Slots, start: nat, i: nat) {
    forall j :: 0 <= j < |t| && OnPath(start, i, j) ==> t[j] != Empty
  }

  /** Every live entry carries the hash of its key and can be found from there. */
  predicate Found(hash: HashFunc, t: Slots) {
    && |t| > 0
    && forall i :: 0 <= i < |t| && t[i].Live? ==>
         t[i].hash == hash(t[i].item.key) && Reachable(t, Start(t[i].hash, |t|), i)
  }

  predicate UniqueKeys(t: Slots) {
    forall i, j :: 0 <= i < j < |t| && t[i].Live? && t[j].Live? ==> t[i].item.key != t[j].item.key
  }

  predicate WellFormed(hash: HashFunc, t: Slots) { Found(hash, t) && UniqueKeys(t) }

  /** The live items are exactly those of the map. */
  predicate Represents(t: Slots, m: map<Key, Item>) {
    && (forall i :: 0 <= i < |t| && t[i].Live? ==> t[i].item.key in m && m[t[i].item.key] == t[i].item)
    && (forall k :: k in m ==> m[k].key == k && HasLive(t, m[k]))
  }

  predicate HasLive(t: Slots, item: Item) { exists i :: 0 <= i < |t| && t[i].Live? && t[i].item == item }

  predicate Matches(s: Slot, key: Key) { s.Live? && s.item.key == key }

  /** An empty slot that probing gets to without a match: the key is nowhere. */
  lemma NotThere(hash: HashFunc, t: Slots, key: Key, i: nat)
    requires Found(hash, t) && i < |t| && t[i] == Empty
    requires forall j :: 0 <= j < |t| && OnPath(Start(hash(key), |t|), i, j) ==> !Matches(t[j], key)
    ensures forall j :: 0 <= j < |t| ==> !Matches(t[j], key)
  {
    var start := Start(hash(key), |t|);
    forall j | 0 <= j < |t| ensures !Matches(t[j], key) {
      if !OnPath(start, i, j) && j != i {
        assert OnPath(start, j, i);
        assert !Reachable(t, start, j);
      }
    }
  }

  /**
   Stepping over a slot that is not empty; probing never gets back to where it started while there is an empty slot.
   */
  lemma PathStep(t: Slots, start: nat, i: nat, next: nat, e: nat)
    requires start < |t| && i < |t| && next == Next(i, |t|) && e < |t| && t[e] == Empty && t[i] != Empty &&
             Reachable(t, start, i)
    ensures next != start && Reachable(t, start, next)
    ensures forall j :: 0 <= j < |t| && OnPath(start, next, j) ==> j == i || OnPath(start, i, j)
  {
    assert !OnPath(start, i, e);
  }

  lemma NotInMap(t: Slots, m: map<Key, Item>, key: Key)
    requires Represents(t, m) && forall j :: 0 <= j < |t| ==> !Matches(t[j], key)
    ensures key !in m
  {
    forall k | k in m ensures k != key {
      assert HasLive(t, m[k]);
      var j :| 0 <= j < |t| && t[j].Live? && t[j].item == m[k];
      assert Matches(t[j], k);
    }
  }

  /** Filling the empty slot that probing ends at. */
  lemma AddKeeps(hash: HashFunc, t: Slots, m: map<Key, Item>, item: Item, i: nat)
    requires WellFormed(hash, t) && Represents(t, m) && i < |t| && t[i] == Empty
    requires Reachable(t, Start(hash(item.key), |t|), i) && forall j :: 0 <= j < |t| ==> !Matches(t[j], item.key)
    ensures var u := t[i := Live(hash(item.key), item)];
            WellFormed(hash, u) && Represents(u, m[item.key := item]) && item.key !in m
  {
    var u, n := t[i := Live(hash(item.key), item)], m[item.key := item];
    NotInMap(t, m, item.key);
    forall j | 0 <= j < |u| && u[j].Live?
      ensures u[j].hash == hash(u[j].item.key) && Reachable(u, Start(u[j].hash, |u|), j)
    {
      if j != i { assert Reachable(t, Start(t[j].hash, |t|), j); }
    }
    assert u[i].Live?;
    forall k | k in n ensures n[k].key == k && HasLive(u, n[k]) {
      if k == item.key {
        assert u[i].item == n[k];
      } else {
        assert HasLive(t, m[k]);
        var j :| 0 <= j < |t| && t[j].Live? && t[j].item == m[k];
        assert u[j] == t[j];
      }
    }
  }

  /** Turning a live slot into a tombstone. */
  lemma RemoveKeeps(hash: HashFunc, t: Slots, m: map<Key, Item>, i: nat)
    requires WellFormed(hash, t) && Represents(t, m) && i < |t| && t[i].Live?
    ensures var u := t[i := Tombstone];
            WellFormed(hash, u) && Represents(u, m - {t[i].item.key})
  {
    var key := t[i].item.key;
    var u, n := t[i := Tombstone], m - {key};
    forall j | 0 <= j < |u| && u[j].Live?
      ensures u[j].hash == hash(u[j].item.key) && Reachable(u, Start(u[j].hash, |u|), j)
    {
      assert Reachable(t, Start(t[j].hash, |t|), j);
    }
    forall k | k in n ensures n[k].key == k && HasLive(u, n[k]) {
      assert HasLive(t, m[k]);
      var j :| 0 <= j < |t| && t[j].Live? && t[j].item == m[k];
      assert u[j] == t[j];
    }
  }

  /** A slot array stands for one map only. */
  lemma RepresentsOne(t: Slots, m: map<Key, Item>, n: map<Key, Item>)
    requires Represents(t, m) && Represents(t, n)
    ensures m == n
  {
    RepresentsWithin(t, m, n);
    RepresentsWithin(t, n, m);
  }

  lemma RepresentsWithin(t: Slots, m: map<Key, Item>, n: map<Key, Item>)
    requires Represents(t, m) && Represents(t, n)
    ensures forall k :: k in m ==> k in n && n[k] == m[k]
  {
    forall k | k in m ensures k in n && n[k] == m[k] {
      assert HasLive(t, m[k]);
      var i :| 0 <= i < |t| && t[i].Live? && t[i].item == m[k];
    }
  }

  /** The map of one slot more. */
  lemma RepresentsNext(t: Slots, i: nat, m: map<Key, Item>)
    requires i < |t| && UniqueKeys(t) && Represents(t[..i], m)
    ensures !t[i].Live? ==> Represents(t[..i + 1], m)
    ensures t[i].Live? ==> Represents(t[..i + 1], m[t[i].item.key := t[i].item]) && t[i].item.key !in m
  {
    var a, b := t[..i], t[..i + 1];
    forall k | k in m ensures m[k].key == k && HasLive(b, m[k]) && (t[i].Live? ==> k != t[i].item.key) {
      assert HasLive(a, m[k]);
      var j :| 0 <= j < |a| && a[j].Live? && a[j].item == m[k];
      assert b[j] == a[j] && a[j] == t[j];
    }
    forall j | 0 <= j < |b| && b[j].Live? && j < i
      ensures b[j].item.key in m && m[b[j].item.key] == b[j].item
    {
      assert b[j] == a[j];
    }
    assert b[i] == t[i];
    if t[i].Live? { assert HasLive(b, t[i].item); }
  }

  // Counting

  function LiveCount(t: Slots): (n: nat)
    ensures n <= |t|
  {
    if t == [] then 0 else LiveCount(t[1..]) + if t[0].Live? then 1 else 0
  }

  function DeadCount(t: Slots): (n: nat)
    ensures n <= |t|
  {
    if t == [] then 0 else DeadCount(t[1..]) + if t[0].Tombstone? then 1 else 0
  }

  lemma {:induction false} CountsOfUpdate(t: Slots, i: nat, s: Slot)
    requires i < |t|
    ensures LiveCount(t[i := s]) == LiveCount(t) + (if s.Live? then 1 else 0) - (if t[i].Live? then 1 else 0)
    ensures DeadCount(t[i := s]) == DeadCount(t) + (if s.Tombstone? then 1 else 0) - (if t[i].Tombstone? then 1 else 0)
  {
    if i == 0 {
      assert t[i := s][1..] == t[1..];
    } else {
      CountsOfUpdate(t[1..], i - 1, s);
      assert t[i := s][1..] == t[1..][i - 1 := s];
    }
  }

  lemma {:induction false} EmptySlots(t: Slots, n: nat)
    requires |t| == n && forall i :: 0 <= i < n ==> t[i] == Empty
    ensures LiveCount(t) == 0 && DeadCount(t) == 0
  {
    if n > 0 { EmptySlots(t[1..], n - 1); }
  }

  /** A table that is not full has an empty slot. */
  lemma {:induction false} EmptyExists(t: Slots) returns (e: nat)
    requires LiveCount(t) + DeadCount(t) < |t|
    ensures e < |t| && t[e] == Empty
  {
    if t[0] == Empty {
      e := 0;
    } else {
      e := EmptyExists(t[1..]);
      e := e + 1;
    }
  }

  lemma {:induction false} CountsOfPrefix(t: Slots, i: nat)
    requires i < |t|
    ensures LiveCount(t[..i + 1]) == LiveCount(t[..i]) + if t[i].Live? then 1 else 0
    ensures LiveCount(t[..i + 1]) <= LiveCount(t)
    decreases |t|
  {
    assert t[..i + 1][1..] == t[1..][..i];
    if i > 0 {
      CountsOfPrefix(t[1..], i - 1);
      assert t[..i][1..] == t[1..][..i - 1] && t[1..][i - 1] == t[i];
    } else {
      assert t[..0] == [] && t[1..][..0] == [];
    }
  }

  // Sizes

  predicate PowerOfTwo(n: nat) { n == 1 || (n > 1 && n % 2 == 0 && PowerOfTwo(n / 2)) }

  /** `mzHashSize`: the capacity for `n` elements. */
  function HashSize(n: nat): (size: nat)
    ensures 8 * n < 5 * size
  {
    n * 8 / 5 + 1
  }

  /** `roundUpPower2` on machine words. */
  function RoundUpPower2(val: bv32): (r: bv32) {
    var a := val - 1;
    var b := a | (a >> 1);
    var c := b | (b >> 2);
    var d := c | (c >> 4);
    var e := d | (d >> 8);
    var f := e | (e >> 16);
    f + 1
  }

  /** The result has one bit, is not below the argument, and half of it would be. */
  lemma RoundUpPower2IsLeast(val: bv32)
    requires 1 <= val <= 0x8000_0000
    ensures var r := RoundUpPower2(val); r > 0 && r & (r - 1) == 0 && val <= r && (r >> 1) < val
  {
  }

  /** The least power of two that is not below `n`. */
  function RoundedUp(n: nat): (r: nat)
    requires n > 0
    ensures n <= r < 2 * n && PowerOfTwo(r)
  {
    if n == 1 then 1 else 2 * RoundedUp((n + 1) / 2)
  }
}
