/** A flash partition: erase blocks, some of them bad. */
module MtdDevice {
  import opened Bytes

  type Block = seq<byte>

  /** The contents of the blocks `lo..hi` that are not skipped, one after the other. */
  function Held(blocks: seq<Block>, skip: set<nat>, lo: nat, hi: nat): (s: seq<byte>)
    requires hi <= |blocks|
    decreases hi
  {
    if hi <= lo then [] else Held(blocks, skip, lo, hi - 1) + if hi - 1 in skip then [] else blocks[hi - 1]
  }

  lemma {:induction false} HeldSplit(blocks: seq<Block>, skip: set<nat>, lo: nat, mid: nat, hi: nat)
    requires lo <= mid <= hi <= |blocks|
    ensures Held(blocks, skip, lo, hi) == Held(blocks, skip, lo, mid) + Held(blocks, skip, mid, hi)
    decreases hi
  {
    if mid < hi { HeldSplit(blocks, skip, lo, mid, hi - 1); }
  }

  /** Blocks outside the range do not matter. */
  lemma {:induction false} HeldFrame(blocks: seq<Block>, blocks2: seq<Block>, skip: set<nat>, skip2: set<nat>, lo: nat,
                                     hi: nat)
    requires hi <= |blocks| == |blocks2|
    requires forall b :: lo <= b < hi ==> (b in skip <==> b in skip2) && blocks[b] == blocks2[b]
    ensures Held(blocks, skip, lo, hi) == Held(blocks2, skip2, lo, hi)
    decreases hi
  {
    if lo < hi { HeldFrame(blocks, blocks2, skip, skip2, lo, hi - 1); }
  }

  /** Nothing is held in skipped blocks. */
  lemma {:induction false} HeldNothing(blocks: seq<Block>, skip: set<nat>, lo: nat, hi: nat)
    requires hi <= |blocks| && forall b :: lo <= b < hi ==> b in skip
    ensures Held(blocks, skip, lo, hi) == []
    decreases hi
  {
    if lo < hi { HeldNothing(blocks, skip, lo, hi - 1); }
  }

  function Times(k: nat, eraseSize: nat): (n: nat) { k * eraseSize }

  /** The offset is on a block boundary. */
  ghost predicate Aligned(n: nat, eraseSize: nat) { exists k: nat :: n == Times(k, eraseSize) }

  lemma TimesNext(k: nat, eraseSize: nat)
    ensures Times(k + 1, eraseSize) == Times(k, eraseSize) + eraseSize
  {
  }

  lemma AlignedNext(n: nat, eraseSize: nat)
    requires Aligned(n, eraseSize)
    ensures Aligned(n + eraseSize, eraseSize)
  {
    var k: nat :| n == Times(k, eraseSize);
    TimesNext(k, eraseSize);
  }

  lemma {:induction false} TimesLater(a: nat, b: nat, eraseSize: nat)
    requires a < b
    ensures Times(a, eraseSize) + eraseSize <= Times(b, eraseSize)
  {
    TimesNext(b - 1, eraseSize);
    if a < b - 1 { TimesLater(a, b - 1, eraseSize); }
  }

  /** Whole blocks hold a multiple of the block size. */
  lemma {:induction false} HeldAligned(blocks: seq<Block>, skip: set<nat>, lo: nat, hi: nat, eraseSize: nat)
    requires hi <= |blocks| && eraseSize > 0 && forall b :: 0 <= b < |blocks| ==> |blocks[b]| == eraseSize
    ensures Aligned(|Held(blocks, skip, lo, hi)|, eraseSize)
    decreases hi
  {
    if lo < hi {
      HeldAligned(blocks, skip, lo, hi - 1, eraseSize);
      AlignedNext(|Held(blocks, skip, lo, hi - 1)|, eraseSize);
    } else {
      assert Times(0, eraseSize) == 0;
    }
  }

  /** How many bytes the good blocks from `lo` on can take. */
  function Capacity(bad: set<nat>, eraseSize: nat, lo: nat, hi: nat): (n: nat)
    decreases hi - lo
  {
    if hi <= lo then 0 else (if lo in bad then 0 else eraseSize) + Capacity(bad, eraseSize, lo + 1, hi)
  }

  lemma {:induction false} CapacitySkips(bad: set<nat>, eraseSize: nat, lo: nat, mid: nat, hi: nat)
    requires lo <= mid <= hi && forall b :: lo <= b < mid ==> b in bad
    ensures Capacity(bad, eraseSize, lo, hi) == Capacity(bad, eraseSize, mid, hi)
    decreases mid - lo
  {
    if lo < mid { CapacitySkips(bad, eraseSize, lo + 1, mid, hi); }
  }

  class Device {
    const eraseSize: nat
    const count: nat
    const bad: set<nat>
    /** Whether erasing, and whether writing, block `b` works at a given time; what a failed write leaves behind. */
    const erases: (nat, nat) -> bool
    const accepts: (nat, nat) -> bool
    const noise: (nat, nat) -> Block
    var blocks: seq<Block>
    var time: nat

    ghost predicate Valid()
      reads this
    {
      && eraseSize > 0 && |blocks| == count
      && (forall b :: 0 <= b < count ==> |blocks[b]| == eraseSize)
      && (forall b, t :: |noise(b, t)| == eraseSize)
    }

    ghost function Room(at: nat): (n: nat) { Capacity(bad, eraseSize, at, count) }

    /** Blocks that are not reported bad can always be erased and written. */
    ghost predicate Sturdy() { forall b, t :: b !in bad ==> erases(b, t) && accepts(b, t) }

    /** Erases, writes and reads back one block. */
    method Attempt(b: nat, data: Block) returns (same: bool)
      requires Valid() && b < count && |data| == eraseSize
      modifies this`blocks, this`time
      ensures Valid() && blocks == old(blocks)[b := blocks[b]] && (same ==> blocks[b] == data)
      ensures Sturdy() && b !in bad ==> same
    {
      time := time + 1;
      var now := time;
      if !erases(b, now) { return false; }
      blocks := blocks[b := if accepts(b, now) then data else noise(b, now)];
      same := blocks[b] == data;
    }

    /** Erases one block, if it can be erased. */
    method Erase(b: nat) returns (ok: bool)
      requires Valid() && b < count
      modifies this`blocks, this`time
      ensures Valid() && blocks == old(blocks)[b := blocks[b]]
      ensures ok ==> blocks[b] == seq(eraseSize, _ => 0xff)
      ensures Sturdy() && b !in bad ==> ok
    {
      time := time + 1;
      ok := erases(b, time);
      if ok { blocks := blocks[b := seq(eraseSize, _ => 0xff)]; }
    }
  }
}
