/** Reading a stream of bytes from flash, around its bad blocks; what was written comes back. */
module MtdRead {
  import opened Bytes
  import opened MtdDevice
  import opened MtdWrite

  class Reader {
    const dev: Device
    const buffer: array<byte>
    var consumed: nat
    /** Position of the file descriptor, in blocks. */
    var at: nat

    ghost predicate Valid()
      reads this, dev
    {
      dev.Valid() && buffer.Length == dev.eraseSize && consumed <= dev.eraseSize && at <= dev.count
    }

    /** What is still to be read. */
    ghost function Remaining(): (s: seq<byte>)
      requires Valid()
      reads this, dev, buffer
    {
      buffer[consumed..] + Held(dev.blocks, dev.bad, at, dev.count)
    }

    constructor (dev: Device)
      requires dev.Valid()
      ensures Valid() && this.dev == dev && fresh(buffer) && Remaining() == Held(dev.blocks, dev.bad, 0, dev.count)
    {
      this.dev := dev;
      buffer := new byte[dev.eraseSize](_ => 0);
      consumed, at := dev.eraseSize, 0;
    }

    /** `read_block`: the next block that is not bad. */
    method ReadBlock() returns (r: Option<Block>)
      requires Valid()
      modifies this`at
      ensures Valid()
      ensures r.Some? ==>
                && |r.value| == dev.eraseSize
                && old(Held(dev.blocks, dev.bad, at, dev.count)) == r.value + Held(dev.blocks, dev.bad, at, dev.count)
      ensures r.None? ==> at == old(at) && Held(dev.blocks, dev.bad, at, dev.count) == []
    {
      var pos := at;
      while pos < dev.count
        invariant at == old(at) <= pos <= dev.count && forall b :: at <= b < pos ==> b in dev.bad
      {
        if pos !in dev.bad {
          HeldSplit(dev.blocks, dev.bad, at, pos, dev.count);
          HeldNothing(dev.blocks, dev.bad, at, pos);
          HeldSplit(dev.blocks, dev.bad, pos, pos + 1, dev.count);
          r := Some(dev.blocks[pos]);
          at := pos + 1;
          return;
        }
        pos := pos + 1;
      }
      HeldNothing(dev.blocks, dev.bad, at, pos);
      r := None;
    }

    /** Reads complete blocks directly into the caller's buffer. */
    method ReadWhole(len: nat, data: seq<byte>, ghost all: seq<byte>) returns (ok: bool, data2: seq<byte>)
      requires Valid() && |data| <= len && all == data + Remaining()
      modifies this`at
      ensures Valid() && |data2| <= len && all == data2 + Remaining() && data <= data2
      ensures ok && consumed == dev.eraseSize ==> len - |data2| < dev.eraseSize
      ensures !ok ==> |all| < len
    {
      data2 := data;
      while consumed == dev.eraseSize && len - |data2| >= dev.eraseSize
        invariant Valid() && |data2| <= len && all == data2 + Remaining() && data <= data2
        decreases len - |data2|
      {
        var block := ReadBlock();
        if block.None? { return false, data2; }
        assert all == (data2 + block.value) + Remaining();
        data2 := data2 + block.value;
      }
      ok := true;
    }

    /** Reads the next block into the buffer. */
    method Refill() returns (ok: bool)
      requires Valid() && consumed == dev.eraseSize
      modifies this`at, this`consumed, buffer
      ensures Valid() && Remaining() == old(Remaining()) && (ok ==> consumed == 0) && (!ok ==> Remaining() == [])
    {
      var block := ReadBlock();
      if block.None? { return false; }
      forall k | 0 <= k < buffer.Length { buffer[k] := block.value[k]; }
      assert buffer[..] == block.value && buffer[0..] == buffer[..];
      consumed := 0;
      ok := true;
    }

    /** `mtd_read_data`: the next `len` bytes of the stream; it fails exactly when there are not so many. */
    method ReadData(len: nat) returns (ok: bool, data: seq<byte>)
      requires Valid()
      modifies this`at, this`consumed, buffer
      ensures Valid() && (ok <==> len <= |old(Remaining())|)
      ensures ok ==> |data| == len && data + Remaining() == old(Remaining())
    {
      data := [];
      ghost var all := Remaining();
      assert all == data + Remaining();
      ok := true;
      while |data| < len
        invariant Valid() && |data| <= len && all == data + Remaining() && ok
        decreases len - |data|, consumed
      {
        if consumed < dev.eraseSize {
          var avail := dev.eraseSize - consumed;
          var copy := if len - |data| < avail then len - |data| else avail;
          ghost var was := data;
          TakeStep(was, buffer[..], consumed, copy, Held(dev.blocks, dev.bad, at, dev.count));
          data := data + buffer[consumed..consumed + copy];
          consumed := consumed + copy;
        }
        ok, data := ReadWhole(len, data, all);
        if !ok { return; }
        if |data| >= len { return; }
        if consumed == dev.eraseSize {
          ok := Refill();
          if !ok { return; }
        }
      }
    }
  }

  lemma TakeStep(data: seq<byte>, buffer: seq<byte>, consumed: nat, copy: nat, rest: seq<byte>)
    requires consumed + copy <= |buffer|
    ensures data + (buffer[consumed..] + rest)
         == (data + buffer[consumed..consumed + copy]) + (buffer[consumed + copy..] + rest)
  {
    assert buffer[consumed..] == buffer[consumed..consumed + copy] + buffer[consumed + copy..];
  }

  // Round trip

  function Sum(lens: seq<nat>): (n: nat) { if lens == [] then 0 else lens[0] + Sum(lens[1..]) }

  /** The stream starts with the data, zero-padded to a block boundary. */
  ghost predicate StartsPadded(stream: seq<byte>, data: seq<byte>, eraseSize: nat) {
    exists pad :: StartsWith(stream, data, pad, eraseSize)
  }

  ghost predicate StartsWith(stream: seq<byte>, data: seq<byte>, pad: nat, eraseSize: nat) {
    pad < eraseSize && Aligned(|data| + pad, eraseSize) && data + Zeros(pad) <= stream
  }

  /** Writes chunk by chunk. */
  method WriteChunks(w: Writer, chunks: seq<seq<byte>>) returns (ok: bool)
    requires w.Valid() && w.dev.Sturdy()
    modifies w, w.buffer, w.dev`blocks, w.dev`time
    ensures w.dev.Valid() && (ok ==> w.Valid() && w.written == old(w.written) + Concat(chunks))
    ensures ok <==> old(w.stored) + |Concat(chunks)| < w.dev.Room(old(w.at)) + w.dev.eraseSize
    ensures ok ==> w.dev.Room(old(w.at)) - w.dev.Room(w.at) == old(w.stored) + |Concat(chunks)| - w.stored
    decreases |chunks|
  {
    if chunks == [] {
      assert w.written + [] == w.written;
      return true;
    }
    ghost var written := w.written;
    ok := w.WriteData(chunks[0]);
    if !ok { return; }
    ok := WriteChunks(w, chunks[1..]);
    assert written + (chunks[0] + Concat(chunks[1..])) == (written + chunks[0]) + Concat(chunks[1..]);
  }

  /** Writes chunk by chunk and closes. It succeeds exactly when the data fit into the good blocks. */
  method WriteAll(dev: Device, chunks: seq<seq<byte>>) returns (ok: bool)
    requires dev.Valid() && dev.Sturdy()
    modifies dev`blocks, dev`time
    ensures dev.Valid() && (ok <==> |Concat(chunks)| <= dev.Room(0))
    ensures ok ==> StartsPadded(Held(dev.blocks, dev.bad, 0, dev.count), Concat(chunks), dev.eraseSize)
  {
    var w := new Writer(dev);
    ok := WriteChunks(w, chunks);
    if !ok { return; }
    RoomInBlocks(dev, w.at);
    assert [] + Concat(chunks) == Concat(chunks);
    ghost var pad := if w.stored == 0 then 0 else dev.eraseSize - w.stored;
    ok := w.Close();
    if ok { WriterReads(w, Concat(chunks), pad); }
  }

  /** There is room for a whole block or for nothing. */
  lemma {:induction false} RoomInBlocks(dev: Device, at: nat)
    ensures dev.Room(at) == 0 || dev.Room(at) >= dev.eraseSize
    decreases dev.count - at
  {
    if at < dev.count { RoomInBlocks(dev, at + 1); }
  }

  /** What a closed writer has written is what a reader will get first. */
  lemma WriterReads(w: Writer, data: seq<byte>, pad: nat)
    requires w.Valid() && w.dev.Sturdy() && w.stored == 0 && w.written == data + Zeros(pad) && pad < w.dev.eraseSize
    ensures StartsPadded(Held(w.dev.blocks, w.dev.bad, 0, w.dev.count), data, w.dev.eraseSize)
  {
    var dev, skip := w.dev, Members(w.skipped);
    assert w.buffer[..0] == [];
    HeldFrame(dev.blocks, dev.blocks, skip, dev.bad, 0, w.at);
    HeldSplit(dev.blocks, dev.bad, 0, w.at, dev.count);
    HeldAligned(dev.blocks, skip, 0, w.at, dev.eraseSize);
    assert |data| + pad == |w.written|;
    assert StartsWith(Held(dev.blocks, dev.bad, 0, dev.count), data, pad, dev.eraseSize);
  }

  /** Reads chunk by chunk. */
  method ReadChunks(r: Reader, lens: seq<nat>) returns (ok: bool, parts: seq<seq<byte>>)
    requires r.Valid()
    modifies r`at, r`consumed, r.buffer
    ensures r.Valid() && (ok <==> Sum(lens) <= |old(r.Remaining())|)
    ensures ok ==> |parts| == |lens| && (forall k :: 0 <= k < |lens| ==> |parts[k]| == lens[k])
    ensures ok ==> |Concat(parts)| == Sum(lens) && Concat(parts) + r.Remaining() == old(r.Remaining())
    decreases |lens|
  {
    if lens == [] {
      assert [] + r.Remaining() == r.Remaining();
      return true, [];
    }
    var data, rest;
    ok, data := r.ReadData(lens[0]);
    if !ok { return false, []; }
    ok, rest := ReadChunks(r, lens[1..]);
    parts := [data] + rest;
    assert parts[1..] == rest;
    assert data + (Concat(rest) + r.Remaining()) == (data + Concat(rest)) + r.Remaining();
  }

  /** Opens the partition and reads with the given chunk sizes. */
  method ReadAll(dev: Device, lens: seq<nat>) returns (ok: bool, parts: seq<seq<byte>>)
    requires dev.Valid()
    ensures ok <==> Sum(lens) <= |Held(dev.blocks, dev.bad, 0, dev.count)|
    ensures ok ==> |parts| == |lens| && (forall k :: 0 <= k < |lens| ==> |parts[k]| == lens[k])
    ensures ok ==> |Concat(parts)| == Sum(lens) && Concat(parts) <= Held(dev.blocks, dev.bad, 0, dev.count)
  {
    var r := new Reader(dev);
    ok, parts := ReadChunks(r, lens);
  }

  /**
   Data written in any chunks and closed read back in any other chunks: the same bytes, then zeros up to a block
   boundary.
   */
  method RoundTrip(dev: Device, chunks: seq<seq<byte>>, lens: seq<nat>)
      returns (ok: bool, parts: seq<seq<byte>>, ghost pad: nat)
    requires dev.Valid() && dev.Sturdy() && |Concat(chunks)| <= dev.Room(0)
    modifies dev`blocks, dev`time
    ensures pad < dev.eraseSize && Aligned(|Concat(chunks)| + pad, dev.eraseSize)
    ensures Sum(lens) <= |Concat(chunks)| + pad ==>
              && ok && |parts| == |lens| && (forall k :: 0 <= k < |lens| ==> |parts[k]| == lens[k])
              && Concat(parts) == (Concat(chunks) + Zeros(pad))[..Sum(lens)]
  {
    ok := WriteAll(dev, chunks);
    ghost var stream, data := Held(dev.blocks, dev.bad, 0, dev.count), Concat(chunks);
    pad :| StartsWith(stream, data, pad, dev.eraseSize);
    ok, parts := ReadAll(dev, lens);
    if Sum(lens) <= |data| + pad { SamePrefix(stream, data + Zeros(pad), Concat(parts), Sum(lens)); }
  }

  lemma SamePrefix(stream: seq<byte>, a: seq<byte>, b: seq<byte>, n: nat)
    requires a <= stream && b <= stream && |b| == n <= |a|
    ensures b == a[..n]
  {
    assert stream[..|a|] == a && stream[..n] == b;
  }
}
