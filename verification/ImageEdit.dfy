/** The paired edits of `imgdiff`: which deflate chunks stay deflate chunks. */
module ImageEdit {
  import opened Bytes
  import opened ImageFormat
  import opened ImageChunks
  import opened ImageBulk

  const BufferSize := 32768

  /** The compressed bytes of the chunk in its image, or its bytes if it is a normal chunk. */
  function Part(img: seq<byte>, c: Chunk): (b: seq<byte>)
    requires c.start + Extent(c) <= |img|
  {
    img[c.start..c.start + Extent(c)]
  }

  /** Compressing the chunk's data with `params` gives the very bytes of the image. */
  predicate Reproduces(z: Zlib, img: seq<byte>, c: Chunk, params: Params) {
    c.start + Extent(c) <= |img| && z.deflate(params, c.inflated) == Part(img, c)
  }

  lemma SameBuffer(all: seq<byte>, stored: seq<byte>, n: nat, p: nat, next: nat)
    requires n <= |stored| && all == stored[..n] && p <= next <= |all|
    ensures next <= |stored| && all[p..next] == stored[p..next]
  {
  }

  /** `TryReconstruction`: compresses and compares one buffer at a time. */
  method TryReconstruction(z: Zlib, img: seq<byte>, c: Chunk) returns (ok: bool)
    requires c.kind == Deflate && c.start + c.deflateLen <= |img|
    ensures ok <==> Reproduces(z, img, c, c.params)
  {
    var all := z.deflate(c.params, c.inflated);
    var stored := img[c.start..];
    assert stored[..c.deflateLen] == Part(img, c);
    var p: nat := 0;
    while p < |all|
      invariant p <= |all| && p <= |stored| && all[..p] == stored[..p]
    {
      var next := if |all| - p < BufferSize then |all| else p + BufferSize;
      if all == stored[..c.deflateLen] { SameBuffer(all, stored, c.deflateLen, p, next); }
      if next > |stored| || all[p..next] != stored[p..next] { return false; }
      assert all[..next] == all[..p] + all[p..next] && stored[..next] == stored[..p] + stored[p..next];
      p := next;
    }
    assert all[..p] == all;
    ok := p == c.deflateLen;
  }

  /** A raw stream with the default window, memory and strategy at the given level. */
  function ParamsAt(level: int): (p: Params) { Params(level, 8, -15, 8, 0) }

  /** The chunk has parameters that reproduce its bytes, and they are some that were tried. */
  predicate Redone(z: Zlib, img: seq<byte>, c: Chunk) {
    (c.params == ParamsAt(6) || c.params == ParamsAt(9)) && Reproduces(z, img, c, c.params)
  }

  /** The chunk with the first parameters that reproduce its bytes, or else the last ones tried. */
  function Tried(z: Zlib, img: seq<byte>, c: Chunk): (r: Chunk) {
    c.(params := ParamsAt(if Reproduces(z, img, c, ParamsAt(6)) then 6 else 9))
  }

  /** `ReconstructDeflateChunk`: tries level 6, then level 9. */
  method ReconstructDeflateChunk(z: Zlib, img: seq<byte>, c: Chunk) returns (ok: bool, r: Chunk)
    requires c.kind == Deflate && c.start + c.deflateLen <= |img|
    ensures r == Tried(z, img, c)
    ensures ok <==> Reproduces(z, img, c, ParamsAt(6)) || Reproduces(z, img, c, ParamsAt(9))
    ensures ok <==> Redone(z, img, r)
  {
    r := c;
    var level := 6;
    while level <= 9
      invariant level == 6 || level == 9 || level == 12
      invariant level == 12 ==> r == c.(params := ParamsAt(9))
      invariant level > 6 ==> !Reproduces(z, img, c, ParamsAt(6))
      invariant level > 9 ==> !Reproduces(z, img, c, ParamsAt(9))
      decreases 12 - level
    {
      r := c.(params := ParamsAt(level));
      ok := TryReconstruction(z, img, r);
      if ok { return; }
      level := level + 3;
    }
    ok := false;
  }

  /** `ChangeDeflateChunkToNormal`. */
  function ToNormal(c: Chunk): (r: Chunk) {
    if c.kind != Deflate then c else c.(kind := Normal, at := c.start, len := c.deflateLen)
  }

  /** The chunk still stands for the same bytes of the image. */
  lemma ToNormalCut(z: Zlib, img: seq<byte>, c: Chunk)
    requires CutFrom(z, img, c)
    ensures CutFrom(z, img, ToNormal(c)) && ToNormal(c).start == c.start && Extent(ToNormal(c)) == Extent(c)
    ensures ToNormal(c).kind == Normal && Data(img, ToNormal(c)) == Part(img, c)
  {
  }

  /** `AreChunksEqual`. */
  predicate AreChunksEqual(img1: seq<byte>, a: Chunk, img2: seq<byte>, b: Chunk)
    requires a.start + Extent(a) <= |img1| && b.start + Extent(b) <= |img2|
  {
    a.kind == b.kind && Part(img1, a) == Part(img2, b)
  }

  /** Exchanging a chunk for one of the same extent keeps a tiling. */
  lemma {:induction false} TilesUpdate(z: Zlib, img: seq<byte>, cs: seq<Chunk>, lo: int, hi: int, k: nat, c: Chunk)
    requires Tiles(z, img, cs, lo, hi) && k < |cs|
    requires CutFrom(z, img, c) && c.start == cs[k].start && Extent(c) == Extent(cs[k])
    ensures Tiles(z, img, cs[k := c], lo, hi)
  {
    if k == 0 {
      assert cs[k := c][1..] == cs[1..];
    } else {
      TilesUpdate(z, img, cs[1..], lo + Extent(cs[0]), hi, k - 1, c);
      assert cs[k := c][1..] == cs[1..][k - 1 := c];
    }
  }

  /** Merging does not touch deflate chunks. */
  lemma {:induction false} MergedDeflates(p: Chunk -> bool, cs: seq<Chunk>)
    requires forall k :: 0 <= k < |cs| && cs[k].kind == Deflate ==> p(cs[k])
    ensures forall k :: 0 <= k < |Merged(cs)| && Merged(cs)[k].kind == Deflate ==> p(Merged(cs)[k])
    decreases |cs|
  {
    if cs != [] {
      var n := RunLength(cs);
      MergedDeflates(p, cs[n..]);
      if n == 1 { assert Joined(cs[..1]) == cs[0]; }
    }
  }

  /** A pair of chunks may stay a pair of deflate chunks. */
  predicate Paired(z: Zlib, timg: seq<byte>, t: Chunk, simg: seq<byte>, s: Chunk) {
    && t.kind == s.kind
    && CutFrom(z, timg, t) && CutFrom(z, simg, s)
    && (t.kind == Deflate ==> Redone(z, timg, t) && Part(timg, t) != Part(simg, s))
  }

  /** The target chunk can be compressed again, and source and target differ. */
  predicate StaysDeflate(z: Zlib, timg: seq<byte>, t: Chunk, simg: seq<byte>, s: Chunk) {
    && t.kind == Deflate && t.start + Extent(t) <= |timg| && s.start + Extent(s) <= |simg|
    && Part(timg, t) != Part(simg, s)
    && (Reproduces(z, timg, t, ParamsAt(6)) || Reproduces(z, timg, t, ParamsAt(9)))
  }

  /** What the loop of `main` makes of one pair: both stay as they are, or both become normal chunks. */
  method EditPair(z: Zlib, timg: seq<byte>, t: Chunk, simg: seq<byte>, s: Chunk) returns (t2: Chunk, s2: Chunk)
    requires CutFrom(z, timg, t) && CutFrom(z, simg, s) && t.kind == s.kind
    ensures Paired(z, timg, t2, simg, s2)
    ensures t2.start == t.start && Extent(t2) == Extent(t) && s2.start == s.start && Extent(s2) == Extent(s)
    ensures t.kind == Normal ==> t2 == t && s2 == s
    ensures t2.kind == Deflate <==> StaysDeflate(z, timg, t, simg, s)
    ensures t2.kind == Deflate ==> t2 == t.(params := t2.params) && s2 == s
  {
    t2, s2 := t, s;
    if t.kind == Deflate {
      ToNormalCut(z, simg, s);
      var ok;
      ok, t2 := ReconstructDeflateChunk(z, timg, t);
      ToNormalCut(z, timg, t2);
      if !ok || AreChunksEqual(timg, t2, simg, s) {
        t2, s2 := ToNormal(t2), ToNormal(s);
      }
    }
  }

  /** Both lists tile their images and agree in their kinds; the first `i` pairs are edited. */
  ghost predicate Edited(z: Zlib, timg: seq<byte>, ts: seq<Chunk>, simg: seq<byte>, ss: seq<Chunk>, i: nat) {
    && |ts| == |ss| && i <= |ts|
    && Tiles(z, timg, ts, 0, |timg|) && Tiles(z, simg, ss, 0, |simg|) && Kinds(ts) == Kinds(ss)
    && forall k :: 0 <= k < i ==> Paired(z, timg, ts[k], simg, ss[k])
  }

  lemma EditedStep(z: Zlib, timg: seq<byte>, ts: seq<Chunk>, simg: seq<byte>, ss: seq<Chunk>, i: nat, t: Chunk,
                   s: Chunk)
    requires Edited(z, timg, ts, simg, ss, i) && i < |ts|
    requires Paired(z, timg, t, simg, s)
    requires t.start == ts[i].start && Extent(t) == Extent(ts[i]) && s.start == ss[i].start &&
             Extent(s) == Extent(ss[i])
    ensures Edited(z, timg, ts[i := t], simg, ss[i := s], i + 1)
  {
    TilesUpdate(z, timg, ts, 0, |timg|, i, t);
    TilesUpdate(z, simg, ss, 0, |simg|, i, s);
    KindsUpdate(ts, i, t);
    KindsUpdate(ss, i, s);
  }

  lemma KindsUpdate(cs: seq<Chunk>, i: nat, c: Chunk)
    requires i < |cs|
    ensures Kinds(cs[i := c]) == Kinds(cs)[i := c.kind]
  {
  }

  /** The first `i` pairs of the first lists `ts0` and `ss0` are edited, the others are as they were. */
  ghost predicate Midway(z: Zlib, timg: seq<byte>, ts0: seq<Chunk>, ts: seq<Chunk>,
                         simg: seq<byte>, ss0: seq<Chunk>, ss: seq<Chunk>, i: nat) {
    && |ts0| == |ts| && |ss0| == |ss| && Edited(z, timg, ts, simg, ss, i) && Thinned(ts0, ts) && Thinned(ss0, ss)
    && (forall k :: i <= k < |ts| ==> ts[k] == ts0[k] && ss[k] == ss0[k])
    && (forall k :: 0 <= k < i && ts0[k].kind == Normal ==> ts[k] == ts0[k] && ss[k] == ss0[k])
    && (forall k :: 0 <= k < i ==> (ts[k].kind == Deflate <==> StaysDeflate(z, timg, ts0[k], simg, ss0[k])))
  }

  lemma MidwayPair(z: Zlib, timg: seq<byte>, ts0: seq<Chunk>, ts: seq<Chunk>,
                   simg: seq<byte>, ss0: seq<Chunk>, ss: seq<Chunk>, i: nat)
    requires Midway(z, timg, ts0, ts, simg, ss0, ss, i) && i < |ts|
    ensures CutFrom(z, timg, ts[i]) && CutFrom(z, simg, ss[i]) && ts[i].kind == ss[i].kind
  {
    TilesMember(z, timg, ts, 0, |timg|, i);
    TilesMember(z, simg, ss, 0, |simg|, i);
    assert Kinds(ts)[i] == Kinds(ss)[i];
  }

  lemma MidwayStep(z: Zlib, timg: seq<byte>, ts0: seq<Chunk>, ts: seq<Chunk>,
                   simg: seq<byte>, ss0: seq<Chunk>, ss: seq<Chunk>, i: nat, t: Chunk, s: Chunk)
    requires Midway(z, timg, ts0, ts, simg, ss0, ss, i) && i < |ts| && Paired(z, timg, t, simg, s)
    requires t.start == ts[i].start && Extent(t) == Extent(ts[i]) && s.start == ss[i].start &&
             Extent(s) == Extent(ss[i])
    requires t.kind == Deflate <==> StaysDeflate(z, timg, ts[i], simg, ss[i])
    requires t.kind == Deflate ==> t == ts[i].(params := t.params) && s == ss[i]
    requires ts[i].kind == Normal ==> t == ts[i] && s == ss[i]
    ensures Midway(z, timg, ts0, ts[i := t], simg, ss0, ss[i := s], i + 1)
  {
    EditedStep(z, timg, ts, simg, ss, i, t, s);
  }

  /** The edit loop of `main` in image mode. */
  method EditPairs(z: Zlib, timg: seq<byte>, tgt: array<Chunk>, simg: seq<byte>, src: array<Chunk>, n: nat)
    requires tgt != src && n <= tgt.Length && n <= src.Length
    requires Edited(z, timg, tgt[..n], simg, src[..n], 0)
    modifies tgt, src
    ensures Midway(z, timg, old(tgt[..n]), tgt[..n], simg, old(src[..n]), src[..n], n)
  {
    var i: nat := 0;
    ghost var ts0, ss0 := tgt[..n], src[..n];
    ghost var ts, ss := ts0, ss0;
    while i < n
      invariant i <= n && ts == tgt[..n] && ss == src[..n] && Midway(z, timg, ts0, ts, simg, ss0, ss, i)
    {
      MidwayPair(z, timg, ts0, ts, simg, ss0, ss, i);
      assert tgt[i] == ts[i] && src[i] == ss[i];
      var t, s := EditPair(z, timg, tgt[i], simg, src[i]);
      MidwayStep(z, timg, ts0, ts, simg, ss0, ss, i, t, s);
      tgt[i], src[i] := t, s;
      ts, ss := ts[i := t], ss[i := s];
      i := i + 1;
    }
  }
}
