/** How much data a list of chunks holds: what keeps patch files short enough for the fields that describe them. */
module ImageBulk {
  import opened Bytes
  import opened ImageChunks
  import opened ImageRead

  /** The inflated bytes of the deflate chunks. */
  function Bulk(cs: seq<Chunk>): (n: nat) {
    if cs == [] then 0 else (if cs[0].kind == Deflate then cs[0].len else 0) + Bulk(cs[1..])
  }

  /** The bytes to be patched. */
  function DataLength(cs: seq<Chunk>): (n: nat) { if cs == [] then 0 else cs[0].len + DataLength(cs[1..]) }

  lemma {:induction false} BulkMember(cs: seq<Chunk>, k: nat)
    requires k < |cs| && cs[k].kind == Deflate
    ensures cs[k].len <= Bulk(cs)
  {
    if k > 0 { BulkMember(cs[1..], k - 1); }
  }

  lemma {:induction false} BulkConcat(a: seq<Chunk>, b: seq<Chunk>)
    ensures Bulk(a + b) == Bulk(a) + Bulk(b)
  {
    if a == [] {
      assert a + b == b;
    } else {
      BulkConcat(a[1..], b);
      assert (a + b)[1..] == a[1..] + b;
    }
  }

  /** Outside of the inflated data there is no more to patch than the image holds. */
  lemma {:induction false} DataWithin(z: Zlib, img: seq<byte>, cs: seq<Chunk>, lo: int, hi: int)
    requires Tiles(z, img, cs, lo, hi)
    ensures DataLength(cs) <= hi - lo + Bulk(cs)
  {
    if cs != [] { DataWithin(z, img, cs[1..], lo + Extent(cs[0]), hi); }
  }

  /** Every deflate chunk of `ds` is the deflate chunk of `cs` at its place. */
  predicate Thinned(cs: seq<Chunk>, ds: seq<Chunk>) {
    && |ds| == |cs|
    && forall k :: 0 <= k < |cs| && ds[k].kind == Deflate ==> cs[k].kind == Deflate && ds[k].len == cs[k].len
  }

  /** Changing deflate chunks to normal chunks adds nothing. */
  lemma {:induction false} BulkThinned(cs: seq<Chunk>, ds: seq<Chunk>)
    requires Thinned(cs, ds)
    ensures Bulk(ds) <= Bulk(cs)
  {
    if cs != [] { BulkThinned(cs[1..], ds[1..]); }
  }

  lemma {:induction false} NormalsHaveNone(cs: seq<Chunk>)
    requires forall k :: 0 <= k < |cs| ==> cs[k].kind == Normal
    ensures Bulk(cs) == 0
  {
    if cs != [] { NormalsHaveNone(cs[1..]); }
  }

  /** Merging changes nothing, and leaves no more chunks. */
  lemma {:induction false} BulkMerged(cs: seq<Chunk>)
    ensures Bulk(Merged(cs)) == Bulk(cs) && |Merged(cs)| <= |cs|
    decreases |cs|
  {
    if cs != [] {
      var k := RunLength(cs);
      BulkMerged(cs[k..]);
      assert cs == cs[..k] + cs[k..];
      BulkConcat(cs[..k], cs[k..]);
      if k > 1 {
        RunIsNormal(cs);
        NormalsHaveNone(cs[..k]);
      } else {
        assert cs[..k] == [cs[0]];
      }
    }
  }

  /** A gzip member takes eighteen bytes, and the data in it are shorter than 2^31 bytes. */
  lemma MemberBulk(z: Zlib, img: seq<byte>, pos: nat, cs: seq<Chunk>)
    requires pos <= |img| && Member(z, img, pos) == Chunks(cs)
    ensures Bulk(cs) <= (MemberEnd(cs) - pos) * 0x800_0000 && MemberEnd(cs) - pos >= 3
  {
    var (data, used) := z.inflate(img[pos + 10..]).value;
    assert |data| == Read4(img, pos + 10 + used + 4) < 0x8000_0000;
    assert cs == [cs[0]] + [cs[1]] + [cs[2]];
    BulkConcat([cs[0]] + [cs[1]], [cs[2]]);
    BulkConcat([cs[0]], [cs[1]]);
  }

  /** An image has no more chunks than bytes, and no more than 2^27 inflated bytes for every byte. */
  lemma {:induction false} SplitBulk(z: Zlib, img: seq<byte>, pos: nat, all: Outcome)
    requires z.Lawful() && pos <= |img| && all == Split(z, img, pos) && all.Chunks?
    ensures |all.chunks| <= |img| - pos && Bulk(all.chunks) <= (|img| - pos) * 0x800_0000
    decreases |img| - pos
  {
    if pos < |img| {
      if HeaderAt(img, pos) {
        var m := Member(z, img, pos);
        SplitAtMember(z, img, pos, m);
        MemberBulk(z, img, pos, m.chunks);
        var rest := Split(z, img, MemberEnd(m.chunks));
        SplitBulk(z, img, MemberEnd(m.chunks), rest);
        BulkConcat(m.chunks, rest.chunks);
      } else {
        var q := NextPattern(img, pos);
        SplitAtData(z, img, pos, q);
        var rest := Split(z, img, q);
        SplitBulk(z, img, q, rest);
        BulkConcat([NormalChunk(pos, q - pos)], rest.chunks);
      }
    }
  }
}
