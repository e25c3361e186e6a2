/** Writing a stream of bytes to flash, around its bad blocks. */
module MtdWrite {
  import opened Bytes
  import opened MtdDevice

  /** Byte offsets of blocks below block `at`, in increasing order. */
  ghost predicate Offsets(offsets: seq<nat>, blocks: seq<nat>, eraseSize: nat, at: nat) {
    && |offsets| == |blocks|
    && (forall i :: 0 <= i < |blocks| ==> blocks[i] < at && offsets[i] == Times(blocks[i], eraseSize))
    && (forall i, j :: 0 <= i < j < |blocks| ==> blocks[i] < blocks[j])
  }

  function Members(s: seq<nat>): (r: set<nat>) { set b | b in s }

  lemma MembersOfMore(s: seq<nat>, b: nat)
    ensures Members(s + [b]) == Members(s) + {b}
  {
  }

  lemma OffsetsOfMore(offsets: seq<nat>, blocks: seq<nat>, eraseSize: nat, at: nat)
    requires Offsets(offsets, blocks, eraseSize, at)
    ensures Offsets(offsets + [Times(at, eraseSize)], blocks + [at], eraseSize, at + 1)
  {
  }

  lemma OffsetsLater(offsets: seq<nat>, blocks: seq<nat>, eraseSize: nat, at: nat)
    requires Offsets(offsets, blocks, eraseSize, at)
    ensures Offsets(offsets, blocks, eraseSize, at + 1) && at !in Members(blocks)
  {
  }

  /** Taking more bytes into both views of a stream. */
  lemma StreamStep(before: seq<byte>, a: seq<byte>, flushed: seq<byte>, c: seq<byte>, more: seq<byte>)
    requires before + a == flushed + c
    ensures before + (a + more) == flushed + (c + more)
  {
    assert before + (a + more) == (before + a) + more && flushed + (c + more) == (flushed + c) + more;
  }

  /** The blocks below `at` that were skipped are the bad ones. */
  ghost predicate SkippedBad(skipped: set<nat>, bad: set<nat>, at: nat) {
    forall b :: 0 <= b < at ==> (b in skipped <==> b in bad)
  }

  /** The next block is skipped. */
  lemma HeldSkip(blocks: seq<Block>, skip: set<nat>, at: nat)
    requires at < |blocks|
    ensures Held(blocks, skip + {at}, 0, at + 1) == Held(blocks, skip, 0, at)
  {
    HeldFrame(blocks, blocks, skip, skip + {at}, 0, at);
  }

  /** The next block takes the data. */
  lemma HeldTake(blocks: seq<Block>, blocks2: seq<Block>, skip: set<nat>, at: nat)
    requires at < |blocks| && |blocks2| == |blocks| && blocks2 == blocks[at := blocks2[at]] && at !in skip
    ensures Held(blocks2, skip, 0, at + 1) == Held(blocks, skip, 0, at) + blocks2[at]
  {
    HeldFrame(blocks, blocks2, skip, skip, 0, at);
  }

  class Writer {
    const dev: Device
    const buffer: array<byte>
    var stored: nat
    /** Position of the file descriptor, in blocks. */
    var at: nat
    var badBlockOffsets: seq<nat>
    ghost var skipped: seq<nat>
    /** Everything that was given to be written. */
    ghost var written: seq<byte>

    ghost predicate Valid()
      reads this, dev, buffer
    {
      && dev.Valid() && buffer.Length == dev.eraseSize && stored < dev.eraseSize && at <= dev.count
      && Offsets(badBlockOffsets, skipped, dev.eraseSize, at)
      && written == Held(dev.blocks, Members(skipped), 0, at) + buffer[..stored]
      && (dev.Sturdy() ==> SkippedBad(Members(skipped), dev.bad, at))
    }

    constructor (dev: Device)
      requires dev.Valid()
      ensures Valid() && this.dev == dev && fresh(buffer) && written == [] && at == stored == 0
    {
      this.dev := dev;
      buffer := new byte[dev.eraseSize](_ => 0);
      stored, at, badBlockOffsets, skipped, written := 0, 0, [], [], [];
    }

    /** What `write_block` keeps true while it looks for a block that takes the data. */
    ghost predicate Seeking(pos: nat, flushed: seq<byte>)
      reads this`badBlockOffsets, this`skipped, dev
    {
      && dev.Valid() && pos <= dev.count
      && Offsets(badBlockOffsets, skipped, dev.eraseSize, pos)
      && Held(dev.blocks, Members(skipped), 0, pos) == flushed
      && (dev.Sturdy() ==> SkippedBad(Members(skipped), dev.bad, pos))
    }

    /** `add_bad_block_offset`, and on to the next block. */
    method SkipBlock(pos: nat, ghost flushed: seq<byte>)
      requires Seeking(pos, flushed) && pos < dev.count && (dev.Sturdy() ==> pos in dev.bad)
      modifies this`badBlockOffsets, this`skipped
      ensures Seeking(pos + 1, flushed) && pos in Members(skipped)
      ensures badBlockOffsets == old(badBlockOffsets) + [Times(pos, dev.eraseSize)]
    {
      MembersOfMore(skipped, pos);
      OffsetsOfMore(badBlockOffsets, skipped, dev.eraseSize, pos);
      HeldSkip(dev.blocks, Members(skipped), pos);
      badBlockOffsets, skipped := badBlockOffsets + [Times(pos, dev.eraseSize)], skipped + [pos];
    }

    /** Tries to write the block twice. */
    method TryTwice(pos: nat, data: Block, ghost flushed: seq<byte>) returns (ok: bool)
      requires Seeking(pos, flushed) && pos < dev.count && pos !in dev.bad && |data| == dev.eraseSize
      modifies dev`blocks, dev`time
      ensures dev.Valid() && dev.blocks == old(dev.blocks)[pos := dev.blocks[pos]]
      ensures (ok ==> dev.blocks[pos] == data) && (dev.Sturdy() ==> ok)
    {
      var retry := 0;
      while retry < 2
        invariant dev.Valid() && dev.blocks == old(dev.blocks)[pos := dev.blocks[pos]] && (dev.Sturdy() ==> retry == 0)
      {
        ok := dev.Attempt(pos, data);
        if ok { return; }
        retry := retry + 1;
      }
      ok := false;
    }

    /** One block that is not reported bad: it takes the data, or it is recorded as bad and erased. */
    method TryBlock(pos: nat, data: Block, ghost flushed: seq<byte>) returns (ok: bool)
      requires Seeking(pos, flushed) && pos < dev.count && pos !in dev.bad && |data| == dev.eraseSize
      modifies this`badBlockOffsets, this`skipped, dev`blocks, dev`time
      ensures Seeking(pos + 1, if ok then flushed + data else flushed) && (dev.Sturdy() ==> ok)
      ensures badBlockOffsets == if ok then old(badBlockOffsets) else old(badBlockOffsets) + [Times(pos, dev.eraseSize)]
    {
      ghost var was := dev.blocks;
      ok := TryTwice(pos, data, flushed);
      if ok {
        OffsetsLater(badBlockOffsets, skipped, dev.eraseSize, pos);
        HeldTake(was, dev.blocks, Members(skipped), pos);
      } else {
        HeldFrame(was, dev.blocks, Members(skipped), Members(skipped), 0, pos);
        SkipBlock(pos, flushed);
        GiveUp(pos, flushed);
      }
    }

    /** The loop of `write_block`. */
    method FindBlock(data: Block, ghost flushed: seq<byte>) returns (ok: bool, pos: nat)
      requires Seeking(at, flushed) && |data| == dev.eraseSize
      modifies this`badBlockOffsets, this`skipped, dev`blocks, dev`time
      ensures Seeking(pos, if ok then flushed + data else flushed) && (if ok then at < pos else pos == dev.count)
      ensures dev.Sturdy() ==> forall b :: at <= b < (if ok then pos - 1 else pos) ==> b in dev.bad
      ensures ok ==> pos - 1 !in dev.bad
    {
      pos := at;
      while pos < dev.count
        invariant at <= pos <= dev.count && Seeking(pos, flushed)
        invariant dev.Sturdy() ==> forall b :: at <= b < pos ==> b in dev.bad
      {
        if pos in dev.bad {
          SkipBlock(pos, flushed);
        } else {
          ok := TryBlock(pos, data, flushed);
          if ok {
            pos := pos + 1;
            return;
          }
        }
        pos := pos + 1;
      }
      ok := false;
    }

    /** `write_block`: the data go to the first block from the current position on that takes them. */
    method WriteBlock(data: Block, ghost flushed: seq<byte>) returns (ok: bool)
      requires Seeking(at, flushed) && |data| == dev.eraseSize
      modifies this`at, this`badBlockOffsets, this`skipped, dev`blocks, dev`time
      ensures dev.Valid() && (ok ==> at > old(at) && Seeking(at, flushed + data))
      ensures dev.Sturdy() ==> dev.Room(old(at)) == if ok then dev.eraseSize + dev.Room(at) else 0
    {
      var pos;
      ok, pos := FindBlock(data, flushed);
      if dev.Sturdy() { CapacitySkips(dev.bad, dev.eraseSize, at, if ok then pos - 1 else pos, dev.count); }
      if ok { at := pos; }
    }

    /** Erases a block that would not take the data. */
    method GiveUp(pos: nat, ghost flushed: seq<byte>)
      requires pos < dev.count && Seeking(pos + 1, flushed) && pos in Members(skipped)
      modifies dev`blocks, dev`time
      ensures Seeking(pos + 1, flushed)
    {
      ghost var was := dev.blocks;
      var _ := dev.Erase(pos);
      HeldFrame(was, dev.blocks, Members(skipped), Members(skipped), 0, pos);
    }

    /** Copies into the buffer as much as it takes. */
    method Coalesce(data: seq<byte>, wrote: nat) returns (next: nat)
      requires wrote < |data| && stored < buffer.Length
      modifies buffer, this`stored
      ensures wrote < next <= |data| && old(stored) < stored <= buffer.Length && next - wrote == stored - old(stored)
      ensures next == |data| || stored == buffer.Length
      ensures buffer[..stored] == old(buffer[..stored]) + data[wrote..next]
    {
      var avail := buffer.Length - stored;
      var copy := if |data| - wrote < avail then |data| - wrote else avail;
      ghost var head := buffer[..stored];
      var k: nat := 0;
      while k < copy
        invariant k <= copy && buffer[..stored + k] == head + data[wrote..wrote + k]
        modifies buffer
      {
        buffer[stored + k] := data[wrote + k];
        k := k + 1;
      }
      next, stored := wrote + copy, stored + copy;
    }

    /** Where a call of `mtd_write_data` stands: `wrote` bytes of the data are flushed or in the buffer. */
    ghost predicate Midway(data: seq<byte>, wrote: nat, flushed: seq<byte>, before: seq<byte>)
      reads this, dev, buffer
    {
      && wrote <= |data| && buffer.Length == dev.eraseSize && stored < dev.eraseSize && Seeking(at, flushed)
      && before + data[..wrote] == flushed + buffer[..stored]
    }

    /** If a complete block was accumulated, it is written. */
    method Flush(data: seq<byte>, wrote: nat, ghost flushed: seq<byte>, ghost before: seq<byte>)
        returns (ok: bool, ghost flushed2: seq<byte>)
      requires wrote <= |data| && buffer.Length == dev.eraseSize == stored && Seeking(at, flushed)
      requires before + data[..wrote] == flushed + buffer[..stored]
      modifies this`at, this`badBlockOffsets, this`skipped, this`stored, dev`blocks, dev`time
      ensures dev.Valid() && (ok ==> stored == 0 && Midway(data, wrote, flushed2, before))
      ensures dev.Sturdy() ==> dev.Room(old(at)) == if ok then dev.eraseSize + dev.Room(at) else 0
    {
      ok := WriteBlock(buffer[..], flushed);
      flushed2 := flushed + buffer[..];
      if ok { stored := 0; }
      assert buffer[..dev.eraseSize] == buffer[..] && buffer[..0] == [];
    }

    /** Writes complete blocks directly from the caller's data. */
    method WriteWhole(data: seq<byte>, wrote: nat, ghost flushed: seq<byte>, ghost before: seq<byte>)
        returns (ok: bool, next: nat, ghost flushed2: seq<byte>)
      requires Midway(data, wrote, flushed, before)
      modifies this`at, this`badBlockOffsets, this`skipped, dev`blocks, dev`time
      ensures dev.Valid()
      ensures ok ==>
                wrote <= next && Midway(data, next, flushed2, before) && (stored == 0 ==> |data| - next < dev.eraseSize)
      ensures dev.Sturdy() && ok ==> dev.Room(old(at)) - dev.Room(at) == next - wrote
      ensures dev.Sturdy() && !ok ==> stored == 0 && dev.Room(old(at)) + dev.eraseSize <= |data| - wrote
    {
      next, flushed2 := wrote, flushed;
      while stored == 0 && |data| - next >= dev.eraseSize
        invariant wrote <= next && Midway(data, next, flushed2, before)
        invariant dev.Sturdy() ==> dev.Room(old(at)) - dev.Room(at) == next - wrote
        decreases |data| - next
      {
        var more := next + dev.eraseSize;
        ok := WriteBlock(data[next..more], flushed2);
        if !ok { return; }
        StreamStep(before, data[..next], flushed2, [], data[next..more]);
        assert data[..more] == data[..next] + data[next..more] && buffer[..0] == [] &&
               [] + data[next..more] == data[next..more];
        flushed2, next := flushed2 + data[next..more], more;
      }
      ok := true;
    }

    /**
     `mtd_write_data`. On a device whose good blocks take what is written, it fails exactly when the complete blocks do
     not fit any more.
     */
    method WriteData(data: seq<byte>) returns (ok: bool)
      requires Valid()
      modifies this, buffer, dev`blocks, dev`time
      ensures dev.Valid() && (ok ==> Valid() && written == old(written) + data)
      ensures dev.Sturdy() ==> (ok <==> old(stored) + |data| < dev.Room(old(at)) + dev.eraseSize)
      ensures dev.Sturdy() && ok ==> dev.Room(old(at)) - dev.Room(at) == old(stored) + |data| - stored
    {
      var wrote: nat := 0;
      ghost var flushed, before := Held(dev.blocks, Members(skipped), 0, at), written;
      assert data[..0] == [];
      ok := true;
      while wrote < |data|
        invariant Midway(data, wrote, flushed, before) && ok
        invariant dev.Sturdy() ==> dev.Room(old(at)) - dev.Room(at) == old(stored) + wrote - stored
        decreases |data| - wrote
      {
        if stored > 0 || |data| - wrote < dev.eraseSize {
          ghost var was, had := wrote, buffer[..stored];
          wrote := Coalesce(data, wrote);
          StreamStep(before, data[..was], flushed, had, data[was..wrote]);
          assert data[..wrote] == data[..was] + data[was..wrote];
        }
        if stored == dev.eraseSize {
          ok, flushed := Flush(data, wrote, flushed, before);
          if !ok { return; }
        }
        ok, wrote, flushed := WriteWhole(data, wrote, flushed, before);
        if !ok { return; }
      }
      assert data[..wrote] == data;
      written := before + data;
    }

    /** Zero-pads what is in the buffer to a block and writes it. */
    method WritePadded() returns (ok: bool)
      requires Valid()
      modifies this, buffer, dev`blocks, dev`time
      ensures dev.Valid()
      ensures ok ==>
                Valid() && stored == 0 &&
                written == old(written) + Zeros(if old(stored) == 0 then 0 else dev.eraseSize - old(stored))
      ensures dev.Sturdy() ==> (ok <==> old(stored) == 0 || dev.Room(old(at)) > 0)
      ensures old(stored) == 0 ==> ok && at == old(at)
      ensures dev.Sturdy() && ok && old(stored) > 0 ==> dev.Room(old(at)) == dev.eraseSize + dev.Room(at)
    {
      if stored == 0 {
        assert written + Zeros(0) == written;
        return true;
      }
      var zero := dev.eraseSize - stored;
      ghost var had, flushed := buffer[..stored], Held(dev.blocks, Members(skipped), 0, at);
      forall k | stored <= k < buffer.Length { buffer[k] := 0; }
      assert buffer[..] == had + Zeros(zero);
      ok := WriteBlock(buffer[..], flushed);
      if ok {
        assert flushed + (had + Zeros(zero)) == (flushed + had) + Zeros(zero);
        stored, written := 0, written + Zeros(zero);
        assert buffer[..0] == [];
      }
    }

    /**
     `mtd_erase_blocks`: pads to a block boundary and erases that many blocks behind it; all that are left if negative.
     */
    method EraseBlocks(blocks: int) returns (end: Option<nat>, ghost padded: bool)
      requires Valid()
      modifies this, buffer, dev`blocks, dev`time
      ensures dev.Valid()
      ensures padded ==>
                Valid() && stored == 0 &&
                written == old(written) + Zeros(if old(stored) == 0 then 0 else dev.eraseSize - old(stored))
      ensures old(stored) == 0 ==> padded && at == old(at)
      ensures dev.Sturdy() ==> (padded <==> old(stored) == 0 || dev.Room(old(at)) > 0)
      ensures dev.Sturdy() && padded && old(stored) > 0 ==> dev.Room(old(at)) == dev.eraseSize + dev.Room(at)
      ensures end.Some? <==> padded && (blocks < 0 || at + blocks <= dev.count)
      ensures end.Some? ==> end.value == Times(if blocks < 0 then dev.count else at + blocks, dev.eraseSize)
      ensures end.Some? && dev.Sturdy() ==>
                forall b :: at <= b < (if blocks < 0 then dev.count else at + blocks) && b !in dev.bad ==>
                  dev.blocks[b] == seq(dev.eraseSize, _ => 0xff)
    {
      var ok := WritePadded();
      padded := ok;
      if !ok { return None, padded; }
      var total := dev.count - at;
      var n := if blocks < 0 then total else blocks;
      if n > total { return None, padded; }
      EraseRange(n, Held(dev.blocks, Members(skipped), 0, at));
      end := Some(Times(at + n, dev.eraseSize));
    }

    /** Erases `n` blocks from the current position on, bad ones excepted. */
    method EraseRange(n: nat, ghost flushed: seq<byte>)
      requires Seeking(at, flushed) && at + n <= dev.count
      modifies dev`blocks, dev`time
      ensures Seeking(at, flushed)
      ensures dev.Sturdy() ==> forall b :: at <= b < at + n && b !in dev.bad ==>
                dev.blocks[b] == seq(dev.eraseSize, _ => 0xff)
    {
      var pos, left := at, n;
      while left > 0
        invariant 0 <= left && at <= pos && pos + left == at + n && Seeking(at, flushed)
        invariant dev.Sturdy() ==> forall b :: at <= b < pos && b !in dev.bad ==>
                    dev.blocks[b] == seq(dev.eraseSize, _ => 0xff)
      {
        if pos !in dev.bad {
          ghost var was := dev.blocks;
          var _ := dev.Erase(pos);
          HeldFrame(was, dev.blocks, Members(skipped), Members(skipped), 0, at);
        }
        pos, left := pos + 1, left - 1;
      }
    }

    /** `mtd_write_close`: makes sure any pending data get written. */
    method Close() returns (ok: bool)
      requires Valid()
      modifies this, buffer, dev`blocks, dev`time
      ensures dev.Valid()
      ensures ok ==>
                Valid() && stored == 0 &&
                written == old(written) + Zeros(if old(stored) == 0 then 0 else dev.eraseSize - old(stored))
      ensures dev.Sturdy() ==> (ok <==> old(stored) == 0 || dev.Room(old(at)) > 0)
    {
      var end, _ := EraseBlocks(0);
      ok := end.Some?;
    }

    /** `mtd_find_write_start`: the first block at or after `pos` that was not skipped, by its byte offset. */
    method FindWriteStart(pos: nat) returns (r: nat)
      requires dev.eraseSize > 0 && Aligned(pos, dev.eraseSize) && Offsets(badBlockOffsets, skipped, dev.eraseSize, at)
      ensures r >= pos && Aligned(r, dev.eraseSize) && r !in badBlockOffsets
      ensures forall q: nat :: pos <= q < r && Aligned(q, dev.eraseSize) ==> q in badBlockOffsets
    {
      ghost var offsets := badBlockOffsets;
      OffsetsSorted(offsets, skipped, dev.eraseSize, at);
      r := pos;
      var i: nat := 0;
      while i < |badBlockOffsets|
        invariant i <= |offsets| && r >= pos && Aligned(r, dev.eraseSize)
        invariant forall j :: 0 <= j < i ==> offsets[j] < r
        invariant forall q: nat :: pos <= q < r && Aligned(q, dev.eraseSize) ==> q in offsets
      {
        if badBlockOffsets[i] == r {
          OneAligned(r, dev.eraseSize);
          r := r + dev.eraseSize;
        } else if badBlockOffsets[i] > r {
          return;
        }
        i := i + 1;
      }
    }
  }

  function Zeros(n: nat): (z: seq<byte>) { seq(n, _ => 0) }

  /** The recorded offsets are strictly increasing and on block boundaries. */
  lemma OffsetsSorted(offsets: seq<nat>, blocks: seq<nat>, eraseSize: nat, at: nat)
    requires Offsets(offsets, blocks, eraseSize, at) && eraseSize > 0
    ensures forall i, j :: 0 <= i < j < |offsets| ==> offsets[i] < offsets[j]
    ensures forall i :: 0 <= i < |offsets| ==> Aligned(offsets[i], eraseSize)
  {
    forall i, j | 0 <= i < j < |offsets|
      ensures offsets[i] < offsets[j]
    {
      TimesLater(blocks[i], blocks[j], eraseSize);
    }
  }

  /** There is one aligned offset in a block, and the next one is aligned too. */
  lemma OneAligned(r: nat, eraseSize: nat)
    requires Aligned(r, eraseSize)
    ensures Aligned(r + eraseSize, eraseSize)
    ensures forall q: nat :: r <= q < r + eraseSize && Aligned(q, eraseSize) ==> q == r
  {
    AlignedNext(r, eraseSize);
    var a: nat :| r == Times(a, eraseSize);
    forall q: nat | r <= q < r + eraseSize && Aligned(q, eraseSize) ensures q == r {
      var b: nat :| q == Times(b, eraseSize);
      if a < b { TimesLater(a, b, eraseSize); } else if b < a { TimesLater(b, a, eraseSize); }
    }
  }
}
