/** `imgdiff` in image mode: source and target are cut in parallel and patched chunk by chunk. */
module Imgdiff {
  import opened Bytes
  import BsdiffFormat
  import BsdiffScan
  import opened ImageFormat
  import opened ImageChunks
  import opened ImagePatch
  import opened ImageEdit
  import opened ImageBulk
  import D = ImageDiff
  import ImageRead

  // One chunk

  /** What `bsdiff` works from: the data of the source chunk, with the bonus data behind it. */
  function SourceData(simg: seq<byte>, s: Chunk, bonus: seq<byte>): (d: seq<byte>)
    requires s.kind == Normal ==> 0 <= s.at && s.at + s.len <= |simg|
  {
    if s.kind == Normal then Data(simg, s) else s.inflated + bonus
  }

  /** The piece was made for the chunk `t` with data `target`, out of `source`, the data of the chunk `s`. */
  ghost predicate MadeFrom(bz: BsdiffFormat.Bzip2, s: Chunk, source: seq<byte>, t: Chunk, target: seq<byte>,
                           p: D.Piece) {
    match p
    case RawPiece(d) => t.kind == Normal && d == target
    case NormalPiece(start, len, diff) =>
      t.kind == Normal && start == s.start && len == s.len && |diff| < |target| && D.Rebuilds(bz, source, diff, target)
    case DeflatePiece(start, len, expanded, targetLen, params, diff) =>
      && t.kind == Deflate && start == s.start && len == s.deflateLen && expanded == |source| && targetLen == |target|
      && params == t.params && D.Rebuilds(bz, source, diff, target)
  }

  /** The piece for the chunk `t` with the bsdiff patch `diff`: raw if the patch of a normal chunk saves nothing. */
  function PieceWith(s: Chunk, source: seq<byte>, t: Chunk, target: seq<byte>, diff: seq<byte>): (p: D.Piece) {
    if t.kind == Normal then
      if |target| <= |diff| then D.RawPiece(target) else D.NormalPiece(s.start, s.len, diff)
    else D.DeflatePiece(s.start, s.deflateLen, |source|, |target|, t.params, diff)
  }

  /** A normal chunk that is stored raw without trying `bsdiff`. */
  predicate Short(t: Chunk, target: seq<byte>) { t.kind == Normal && |target| <= 160 }

  /**
   `MakePatch`: a short chunk is stored raw; for any other there is a script that describes it, and a piece exactly when
   the script can be stored.
   */
  method MakePatch(bz: BsdiffFormat.Bzip2, s: Chunk, source: seq<byte>, t: Chunk, target: seq<byte>)
      returns (p: Option<D.Piece>, ghost script: BsdiffFormat.Script)
    requires bz.Lawful() && |source| < BsdiffFormat.Limit && |target| < BsdiffFormat.Limit
    ensures p.Some? ==> MadeFrom(bz, s, source, t, target, p.value)
    ensures Short(t, target) ==> p == Some(D.RawPiece(target))
    ensures !Short(t, target) ==> BsdiffFormat.Describes(source, target, script)
    ensures !Short(t, target) ==>
              p == if BsdiffFormat.Storable(bz, script)
                   then Some(PieceWith(s, source, t, target, BsdiffFormat.ScriptFile(bz, script, |target|))) else None
  {
    script := BsdiffFormat.Script([], [], []);
    if t.kind == Normal && |target| <= 160 { return Some(D.RawPiece(target)), script; }
    var diff;
    diff, script := BsdiffScan.Bsdiff(bz, source, target);
    if diff.None? { return None, script; }
    if t.kind == Normal && |target| <= |diff.value| { return Some(D.RawPiece(target)), script; }
    p := Some(if t.kind == Normal then D.NormalPiece(s.start, s.len, diff.value)
              else D.DeflatePiece(s.start, s.deflateLen, |source|, |target|, t.params, diff.value));
  }

  /** Some block made for `n` bytes of target data is too long for an `off_t` once it is compressed. */
  ghost predicate BlockTooLong(bz: BsdiffFormat.Bzip2, n: nat) {
    exists x :: |x| <= 24 * (n + 1) && |bz.compress(x)| >= BsdiffFormat.Limit
  }

  const Small := 0x200_0000_0000_0000

  /**
   The fields of the piece fit, it stores no more than `room` bytes raw, and it is not much longer than `len` target
   bytes.
   */
  ghost predicate Sized(bz: BsdiffFormat.Bzip2, len: nat, room: nat, p: D.Piece) {
    && (if p.RawPiece? then |p.data| <= room else D.FieldsFit(p))
    && (bz.Modest() && len < Small ==> D.PieceSize(p) <= 50 * len + 1944)
  }

  /** What becomes of one chunk: a piece of a size, or a block was too long. */
  lemma PatchSized(bz: BsdiffFormat.Bzip2, s: Chunk, source: seq<byte>, t: Chunk, target: seq<byte>, room: nat,
                   p: Option<D.Piece>, script: BsdiffFormat.Script)
    requires |source| < BsdiffFormat.Limit && |target| < BsdiffFormat.Limit && s.kind == t.kind && Fits8(s.start) &&
             Fits8(Extent(s))
    requires if t.kind == Deflate then FitsParams(t.params) else |target| <= room
    requires Short(t, target) ==> p == Some(D.RawPiece(target))
    requires !Short(t, target) ==> BsdiffFormat.Describes(source, target, script)
    requires !Short(t, target) ==>
               p == if BsdiffFormat.Storable(bz, script)
                    then Some(PieceWith(s, source, t, target, BsdiffFormat.ScriptFile(bz, script, |target|))) else None
    ensures p.Some? ==> Sized(bz, |target|, room, p.value)
    ensures p.None? ==> BlockTooLong(bz, |target|) && !(bz.Modest() && |target| < Small)
  {
    if !Short(t, target) {
      if p.None? { BsdiffFormat.NotStorable(bz, source, target, script); }
      if bz.Modest() && |target| < Small { BsdiffFormat.ModestFile(bz, source, target, script); }
    }
  }

  /** A piece made from a pair of like chunks gives the target chunk's part of the image. */
  lemma PieceGives(bz: BsdiffFormat.Bzip2, z: Zlib, simg: seq<byte>, s: Chunk, timg: seq<byte>, t: Chunk,
                   bonus: seq<byte>, p: D.Piece)
    requires CutFrom(z, simg, s) && CutFrom(z, timg, t) && s.kind == t.kind
    requires t.kind == Deflate ==> Reproduces(z, timg, t, t.params)
    requires MadeFrom(bz, s, SourceData(simg, s, bonus), t, Data(timg, t), p)
    ensures D.Gives(bz, z, simg, bonus, p, Part(timg, t))
  {
    match p
    case RawPiece(_) =>
    case NormalPiece(start, len, diff) =>
      assert SourceData(simg, s, bonus) == simg[start..start + len] && Data(timg, t) == Part(timg, t);
      NormalPieceGives(bz, z, simg, p, SourceData(simg, s, bonus), Data(timg, t), bonus);
    case DeflatePiece(_, _, _, _, _, diff) => DeflatePieceGives(bz, z, simg, s, timg, t, bonus, diff);
  }

  lemma NormalPieceGives(bz: BsdiffFormat.Bzip2, z: Zlib, simg: seq<byte>, p: D.Piece, source: seq<byte>,
                         out: seq<byte>, bonus: seq<byte>)
    requires p.NormalPiece? && p.sourceStart + p.sourceLen <= |simg|
    requires source == simg[p.sourceStart..p.sourceStart + p.sourceLen] && D.Rebuilds(bz, source, p.diff, out)
    ensures D.Gives(bz, z, simg, bonus, p, out)
  {
  }

  lemma DeflatePieceGives(bz: BsdiffFormat.Bzip2, z: Zlib, simg: seq<byte>, s: Chunk, timg: seq<byte>, t: Chunk,
                          bonus: seq<byte>, diff: seq<byte>)
    requires CutFrom(z, simg, s) && CutFrom(z, timg, t) && s.kind == t.kind == Deflate &&
             Reproduces(z, timg, t, t.params)
    requires D.Rebuilds(bz, s.inflated + bonus, diff, t.inflated)
    ensures D.Gives(bz, z, simg, bonus, D.DeflatePiece(s.start, s.deflateLen, s.len + |bonus|, t.len, t.params, diff),
                    Part(timg, t))
  {
  }

  // All chunks

  /** The parts of the image that the chunks stand for. */
  function Parts(z: Zlib, img: seq<byte>, cs: seq<Chunk>, lo: int, hi: int): (ps: seq<seq<byte>>)
    requires Tiles(z, img, cs, lo, hi)
    ensures |ps| == |cs|
  {
    if cs == [] then [] else [Part(img, cs[0])] + Parts(z, img, cs[1..], lo + Extent(cs[0]), hi)
  }

  lemma {:induction false} PartsAt(z: Zlib, img: seq<byte>, cs: seq<Chunk>, lo: int, hi: int, k: nat)
    requires Tiles(z, img, cs, lo, hi) && k < |cs|
    ensures CutFrom(z, img, cs[k]) && Parts(z, img, cs, lo, hi)[k] == Part(img, cs[k])
  {
    if k > 0 { PartsAt(z, img, cs[1..], lo + Extent(cs[0]), hi, k - 1); }
  }

  /** The parts of a tiling put together are the image. */
  lemma {:induction false} PartsJoin(z: Zlib, img: seq<byte>, cs: seq<Chunk>, lo: nat, hi: nat)
    requires Tiles(z, img, cs, lo, hi) && hi <= |img|
    ensures lo <= hi && Concat(Parts(z, img, cs, lo, hi)) == img[lo..hi]
    decreases |cs|
  {
    TilesOrdered(z, img, cs, lo, hi);
    if cs != [] {
      var mid := lo + Extent(cs[0]);
      TilesOrdered(z, img, cs[1..], mid, hi);
      PartsJoin(z, img, cs[1..], mid, hi);
      assert img[lo..hi] == img[lo..mid] + img[mid..hi];
      assert Parts(z, img, cs, lo, hi)[1..] == Parts(z, img, cs[1..], mid, hi);
    }
  }

  /** The pieces so far are right. */
  ghost predicate GiveSoFar(g: D.Relation, ps: seq<D.Piece>, outs: seq<seq<byte>>) {
    |ps| <= |outs| && forall k :: 0 <= k < |ps| ==> g(k, ps[k], outs[k])
  }

  lemma PieceStep(bz: BsdiffFormat.Bzip2, z: Zlib, simg: seq<byte>, s: Chunk, timg: seq<byte>, t: Chunk,
                  bonus: seq<byte>, p: D.Piece, i: nat)
    requires CutFrom(z, simg, s) && CutFrom(z, timg, t) && s.kind == t.kind
    requires t.kind == Deflate ==> Reproduces(z, timg, t, t.params)
    requires MadeFrom(bz, s, SourceData(simg, s, BonusFor(bonus, i)), t, Data(timg, t), p)
    ensures D.GivesRelation(bz, z, simg, bonus)(i, p, Part(timg, t))
  {
    PieceGives(bz, z, simg, s, timg, t, BonusFor(bonus, i), p);
  }

  /** Everything `bsdiff` is given is shorter than an `off_t` can count. */
  predicate InMemory(simg: seq<byte>, ss: seq<Chunk>, timg: seq<byte>, ts: seq<Chunk>, bonus: seq<byte>) {
    && |simg| < BsdiffFormat.Limit && |timg| < BsdiffFormat.Limit
    && (forall k :: 0 <= k < |ss| && ss[k].kind == Deflate ==> |ss[k].inflated| + |bonus| < BsdiffFormat.Limit)
    && (forall k :: 0 <= k < |ts| && ts[k].kind == Deflate ==> |ts[k].inflated| < BsdiffFormat.Limit)
  }

  /** Some stretch of the image inflates to `data`. */
  ghost predicate StreamIn(z: Zlib, img: seq<byte>, data: seq<byte>) {
    exists i, j :: 0 <= i <= j <= |img| && Inflates(z, img[i..j], data)
  }

  /** An image, data inflated from it, or a block for data of the target is longer than an `off_t` can count. */
  ghost predicate OverLimit(bz: BsdiffFormat.Bzip2, z: Zlib, simg: seq<byte>, timg: seq<byte>, bonus: seq<byte>) {
    || |simg| >= BsdiffFormat.Limit || |timg| >= BsdiffFormat.Limit || BlockTooLong(bz, |timg|)
    || (exists d :: StreamIn(z, simg, d) && |d| + |bonus| >= BsdiffFormat.Limit)
    || (exists d :: StreamIn(z, timg, d) && (|d| >= BsdiffFormat.Limit || BlockTooLong(bz, |d|)))
  }

  lemma NotInMemory(bz: BsdiffFormat.Bzip2, z: Zlib, simg: seq<byte>, ss: seq<Chunk>, timg: seq<byte>, ts: seq<Chunk>,
                    bonus: seq<byte>)
    requires !InMemory(simg, ss, timg, ts, bonus)
    requires (forall k :: 0 <= k < |ss| ==> CutFrom(z, simg, ss[k])) &&
             (forall k :: 0 <= k < |ts| ==> CutFrom(z, timg, ts[k]))
    ensures OverLimit(bz, z, simg, timg, bonus)
  {
    if |simg| < BsdiffFormat.Limit && |timg| < BsdiffFormat.Limit {
      if k :| 0 <= k < |ss| && ss[k].kind == Deflate && |ss[k].inflated| + |bonus| >= BsdiffFormat.Limit {
        assert CutFrom(z, simg, ss[k]);
        assert StreamIn(z, simg, ss[k].inflated);
      } else {
        var k :| 0 <= k < |ts| && ts[k].kind == Deflate && |ts[k].inflated| >= BsdiffFormat.Limit;
        assert CutFrom(z, timg, ts[k]);
        assert StreamIn(z, timg, ts[k].inflated);
      }
    }
  }

  lemma ChunkTooLong(bz: BsdiffFormat.Bzip2, z: Zlib, simg: seq<byte>, timg: seq<byte>, t: Chunk, bonus: seq<byte>)
    requires CutFrom(z, timg, t) && BlockTooLong(bz, t.len)
    ensures OverLimit(bz, z, simg, timg, bonus)
  {
    if t.kind == Deflate {
      assert StreamIn(z, timg, t.inflated);
    } else {
      var x :| |x| <= 24 * (t.len + 1) && |bz.compress(x)| >= BsdiffFormat.Limit;
      assert |x| <= 24 * (|timg| + 1);
    }
  }

  /**
   Two tilings that can be patched chunk by chunk: like kinds, and every deflate chunk of the target can be compressed
   again.
   */
  ghost predicate Matched(z: Zlib, timg: seq<byte>, ts: seq<Chunk>, simg: seq<byte>, ss: seq<Chunk>) {
    && |ts| == |ss|
    && Tiles(z, timg, ts, 0, |timg|) && Tiles(z, simg, ss, 0, |simg|) && Kinds(ts) == Kinds(ss)
    && forall k :: 0 <= k < |ts| && ts[k].kind == Deflate ==> Redone(z, timg, ts[k])
  }

  /** One round of the patch loop. */
  method PatchChunk(bz: BsdiffFormat.Bzip2, z: Zlib, simg: seq<byte>, s: Chunk, timg: seq<byte>, t: Chunk,
                    bonus: seq<byte>, i: nat)
      returns (p: Option<D.Piece>)
    requires bz.Lawful() && CutFrom(z, simg, s) && CutFrom(z, timg, t) && s.kind == t.kind
    requires t.kind == Deflate ==>
               Redone(z, timg, t) && |t.inflated| < BsdiffFormat.Limit && |s.inflated| + |bonus| < BsdiffFormat.Limit
    requires |simg| < BsdiffFormat.Limit && |timg| < BsdiffFormat.Limit
    ensures p.Some? ==>
              D.GivesRelation(bz, z, simg, bonus)(i, p.value, Part(timg, t)) && Sized(bz, t.len, |timg|, p.value)
    ensures p.None? ==> BlockTooLong(bz, t.len) && !(bz.Modest() && t.len < Small)
  {
    var source := SourceData(simg, s, BonusFor(bonus, i));
    ghost var script;
    p, script := MakePatch(bz, s, source, t, Data(timg, t));
    PatchSized(bz, s, source, t, Data(timg, t), |timg|, p, script);
    if p.Some? { PieceStep(bz, z, simg, s, timg, t, bonus, p.value, i); }
  }

  ghost predicate AllSized(bz: BsdiffFormat.Bzip2, ts: seq<Chunk>, room: nat, ps: seq<D.Piece>) {
    |ps| <= |ts| && forall k :: 0 <= k < |ps| ==> Sized(bz, ts[k].len, room, ps[k])
  }

  lemma OnePieceMore(g: D.Relation, bz: BsdiffFormat.Bzip2, ts: seq<Chunk>, room: nat, ps: seq<D.Piece>,
                     outs: seq<seq<byte>>, p: D.Piece)
    requires |ps| < |ts| == |outs| && GiveSoFar(g, ps, outs) && AllSized(bz, ts, room, ps)
    requires g(|ps|, p, outs[|ps|]) && Sized(bz, ts[|ps|].len, room, p)
    ensures GiveSoFar(g, ps + [p], outs) && AllSized(bz, ts, room, ps + [p])
  {
  }

  /** Some chunk has a block that is too long. */
  ghost predicate SomeTooLong(bz: BsdiffFormat.Bzip2, ts: seq<Chunk>) {
    exists k :: 0 <= k < |ts| && BlockTooLong(bz, ts[k].len) && !(bz.Modest() && ts[k].len < Small)
  }

  lemma MatchedPair(z: Zlib, timg: seq<byte>, ts: seq<Chunk>, simg: seq<byte>, ss: seq<Chunk>, bonus: seq<byte>, i: nat)
    requires Matched(z, timg, ts, simg, ss) && InMemory(simg, ss, timg, ts, bonus) && i < |ts|
    ensures CutFrom(z, simg, ss[i]) && CutFrom(z, timg, ts[i]) && ss[i].kind == ts[i].kind
    ensures ts[i].kind == Deflate ==>
              && Redone(z, timg, ts[i]) && |ts[i].inflated| < BsdiffFormat.Limit
              && |ss[i].inflated| + |bonus| < BsdiffFormat.Limit
    ensures Parts(z, timg, ts, 0, |timg|)[i] == Part(timg, ts[i])
  {
    TilesMember(z, simg, ss, 0, |simg|, i);
    assert Kinds(ts)[i] == Kinds(ss)[i];
    PartsAt(z, timg, ts, 0, |timg|, i);
  }

  /** The patch loop of `main` in image mode. */
  method MakePieces(bz: BsdiffFormat.Bzip2, z: Zlib, simg: seq<byte>, ss: seq<Chunk>, timg: seq<byte>, ts: seq<Chunk>,
                    bonus: seq<byte>)
      returns (ok: bool, ps: seq<D.Piece>)
    requires bz.Lawful() && Matched(z, timg, ts, simg, ss) && InMemory(simg, ss, timg, ts, bonus)
    ensures ok ==>
              D.AllGive(D.GivesRelation(bz, z, simg, bonus), ps, Parts(z, timg, ts, 0, |timg|)) &&
              AllSized(bz, ts, |timg|, ps)
    ensures !ok ==> SomeTooLong(bz, ts)
  {
    ghost var g, outs := D.GivesRelation(bz, z, simg, bonus), Parts(z, timg, ts, 0, |timg|);
    ps := [];
    while |ps| < |ts|
      invariant |ps| <= |ts| && GiveSoFar(g, ps, outs) && AllSized(bz, ts, |timg|, ps)
      decreases |ts| - |ps|
    {
      var i := |ps|;
      MatchedPair(z, timg, ts, simg, ss, bonus, i);
      var p := PatchChunk(bz, z, simg, ss[i], timg, ts[i], bonus, i);
      if p.None? { return false, ps; }
      OnePieceMore(g, bz, ts, |timg|, ps, outs, p.value);
      ps := ps + [p.value];
    }
    ok := true;
  }

  // How large the file gets

  lemma {:induction false} SizesWithin(bz: BsdiffFormat.Bzip2, ts: seq<Chunk>, room: nat, ps: seq<D.Piece>)
    requires bz.Modest() && |ps| == |ts| && AllSized(bz, ts, room, ps)
    requires forall k :: 0 <= k < |ts| ==> ts[k].len < Small
    ensures D.PieceSizes(ps) <= 50 * DataLength(ts) + 1944 * |ts|
  {
    if ps != [] {
      forall k | 0 <= k < |ps| - 1
        ensures Sized(bz, ts[1..][k].len, room, ps[1..][k])
      {
        assert Sized(bz, ts[k + 1].len, room, ps[k + 1]);
      }
      SizesWithin(bz, ts[1..], room, ps[1..]);
      assert Sized(bz, ts[0].len, room, ps[0]);
    }
  }

  /** A modest compressor, and images with all that inflates in them of moderate size. */
  ghost predicate Moderate(bz: BsdiffFormat.Bzip2, simg: seq<byte>, ss: seq<Chunk>, timg: seq<byte>, ts: seq<Chunk>,
                           bonus: seq<byte>) {
    && bz.Modest() && |simg| < Small && Fits4(|timg|) && |bonus| < Small && Fits4(|ts|)
    && Bulk(ss) < Small && Bulk(ts) < Small
  }

  lemma ModerateInMemory(bz: BsdiffFormat.Bzip2, z: Zlib, simg: seq<byte>, ss: seq<Chunk>, timg: seq<byte>,
                         ts: seq<Chunk>, bonus: seq<byte>)
    requires Moderate(bz, simg, ss, timg, ts, bonus)
    requires (forall k :: 0 <= k < |ss| ==> CutFrom(z, simg, ss[k])) &&
             (forall k :: 0 <= k < |ts| ==> CutFrom(z, timg, ts[k]))
    ensures InMemory(simg, ss, timg, ts, bonus) && forall k :: 0 <= k < |ts| ==> ts[k].len < Small
  {
    forall k | 0 <= k < |ss| && ss[k].kind == Deflate ensures |ss[k].inflated| + |bonus| < BsdiffFormat.Limit {
      BulkMember(ss, k);
      assert CutFrom(z, simg, ss[k]);
    }
    forall k | 0 <= k < |ts| ensures ts[k].len < Small && (ts[k].kind == Deflate ==> |ts[k].inflated| == ts[k].len) {
      assert CutFrom(z, timg, ts[k]);
      if ts[k].kind == Deflate { BulkMember(ts, k); }
    }
  }

  /** Then the file is short enough for its offsets. */
  lemma ModerateFile(bz: BsdiffFormat.Bzip2, z: Zlib, simg: seq<byte>, ss: seq<Chunk>, timg: seq<byte>, ts: seq<Chunk>,
                     bonus: seq<byte>, ps: seq<D.Piece>)
    requires Moderate(bz, simg, ss, timg, ts, bonus) && Tiles(z, timg, ts, 0, |timg|)
    requires forall k :: 0 <= k < |ts| ==> ts[k].len < Small
    requires |ps| == |ts| && AllSized(bz, ts, |timg|, ps)
    ensures Fits8(|D.FileOf(ps)|)
  {
    DataWithin(z, timg, ts, 0, |timg|);
    SizesWithin(bz, ts, |timg|, ps);
    D.FileLength(ps);
  }

  // The whole run

  /** An image starts with a normal chunk: a gzip header, or the data before the first one. */
  lemma StartsNormal(z: Zlib, img: seq<byte>)
    requires ImageRead.Split(z, img, 0).Chunks? && ImageRead.Split(z, img, 0).chunks != []
    ensures ImageRead.Split(z, img, 0).chunks[0].kind == Normal
  {
  }

  /** So chunk 1, if there is one after merging, is a deflate chunk: the bonus data never goes to a normal chunk. */
  lemma SecondIsDeflate(z: Zlib, img: seq<byte>, cs: seq<Chunk>)
    requires Tiles(z, img, cs, 0, |img|) && cs != [] && cs[0].kind == Normal
    ensures |Merged(cs)| >= 1 && Merged(cs)[0].kind == Normal && (|Merged(cs)| > 1 ==> Merged(cs)[1].kind == Deflate)
  {
    MergedKinds(z, img, cs, 0, |img|);
    SquashedNoTwoNormals(Kinds(cs));
    var ks := Kinds(Merged(cs));
    if |ks| > 1 { assert ks[0] == Normal && (ks[0] != Normal || ks[1] != Normal); }
  }

  /** Merging two edited lists leaves two edited lists of the same length. */
  lemma MergedEdited(z: Zlib, timg: seq<byte>, ts: seq<Chunk>, simg: seq<byte>, ss: seq<Chunk>)
    requires Edited(z, timg, ts, simg, ss, |ts|)
    ensures Matched(z, timg, Merged(ts), simg, Merged(ss))
  {
    MergedTiles(z, timg, ts, 0, |timg|);
    MergedTiles(z, simg, ss, 0, |simg|);
    MergedInParallel(z, timg, ts, simg, ss);
    MergedDeflates((c: Chunk) => Redone(z, timg, c), ts);
  }

  /** The check that source and target have the same chunk structure. */
  method SameKinds(a: array<Chunk>, n: nat, b: array<Chunk>, m: nat) returns (same: bool)
    requires n <= a.Length && m <= b.Length
    ensures same <==> Kinds(a[..n]) == Kinds(b[..m])
  {
    if n != m { return false; }
    var i: nat := 0;
    while i < n
      invariant i <= n && forall k :: 0 <= k < i ==> a[k].kind == b[k].kind
    {
      if a[i].kind != b[i].kind {
        assert Kinds(a[..n])[i] != Kinds(b[..m])[i];
        return false;
      }
      i := i + 1;
    }
    return true;
  }

  /** What a run of `imgdiff` comes to. */
  datatype Run = NoChunks(why: ImageRead.Outcome) | Unlike | TooLong | Written(pieces: seq<D.Piece>, file: seq<byte>)

  /** Reads an image into an array of chunks and merges the gzip headers and footers with their neighbours. */
  method ReadMerged(z: Zlib, img: seq<byte>) returns (o: ImageRead.Outcome, chunks: array<Chunk>, n: nat)
    requires z.Lawful()
    ensures fresh(chunks) && n <= chunks.Length && o == ImageRead.Split(z, img, 0)
    ensures o.Chunks? ==> chunks[..n] == Merged(o.chunks) && Tiles(z, img, chunks[..n], 0, |img|)
    ensures o.Chunks? && n > 0 ==> chunks[0].kind == Normal
    ensures o.Chunks? ==> n <= |img| && Bulk(chunks[..n]) <= |img| * 0x800_0000
  {
    o := ImageRead.ReadImage(z, img);
    if !o.Chunks? {
      chunks, n := new Chunk[0](_ => NormalChunk(0, 0)), 0;
      return;
    }
    chunks := new Chunk[|o.chunks|](i requires 0 <= i < |o.chunks| => o.chunks[i]);
    assert chunks[..chunks.Length] == o.chunks;
    n := MergeAdjacentNormalChunks(chunks, chunks.Length);
    MergedTiles(z, img, o.chunks, 0, |img|);
    SplitBulk(z, img, 0, o);
    BulkMerged(o.chunks);
    if o.chunks != [] {
      StartsNormal(z, img);
      SecondIsDeflate(z, img, o.chunks);
    }
  }

  /** Images under a gigabyte, and a modest compressor. */
  ghost predicate Usual(bz: BsdiffFormat.Bzip2, simg: seq<byte>, timg: seq<byte>, bonus: seq<byte>) {
    bz.Modest() && |simg| < 0x4000_0000 && |timg| < 0x4000_0000 && |bonus| < Small
  }

  /**
   `imgdiff` in image mode. The branch "merging normal chunks went awry" cannot be reached. What is written makes the
   target, and for images under a gigabyte and a modest compressor a file is written unless the images cannot be read or
   are not alike.
   */
  method DiffImages(bz: BsdiffFormat.Bzip2, z: Zlib, simg: seq<byte>, timg: seq<byte>, bonus: seq<byte>)
      returns (r: Run)
    requires bz.Lawful() && z.Lawful()
    ensures var so, to := ImageRead.Split(z, simg, 0), ImageRead.Split(z, timg, 0);
            && (r.NoChunks? <==> !so.Chunks? || !to.Chunks?)
            && (r.NoChunks? ==> r.why == if !so.Chunks? then so else to)
            && (r.Unlike? <==> so.Chunks? && to.Chunks? && Kinds(Merged(so.chunks)) != Kinds(Merged(to.chunks)))
    ensures r.TooLong? ==> OverLimit(bz, z, simg, timg, bonus) && !Usual(bz, simg, timg, bonus)
    ensures r.Written? ==>
              r.file == D.FileOf(r.pieces) && |r.pieces| <= |timg| && Makes(bz, z, simg, bonus, r.pieces, timg)
    ensures r.Written? && Usual(bz, simg, timg, bonus) ==> Rebuilt(bz, z, simg, r.file, bonus) == Some(timg)
  {
    var so, src, n := ReadMerged(z, simg);
    if !so.Chunks? { return NoChunks(so); }
    var to, tgt, m := ReadMerged(z, timg);
    if !to.Chunks? { return NoChunks(to); }
    var same := SameKinds(src, n, tgt, m);
    if !same { return Unlike; }
    UsualIsModerate(bz, simg, src[..n], timg, tgt[..n], bonus);
    r := DiffChunks(bz, z, simg, src, timg, tgt, n, bonus);
  }

  lemma UsualIsModerate(bz: BsdiffFormat.Bzip2, simg: seq<byte>, ss: seq<Chunk>, timg: seq<byte>, ts: seq<Chunk>,
                        bonus: seq<byte>)
    requires |ts| <= |timg| && Bulk(ss) <= |simg| * 0x800_0000 && Bulk(ts) <= |timg| * 0x800_0000
    ensures Usual(bz, simg, timg, bonus) ==> Moderate(bz, simg, ss, timg, ts, bonus)
  {
  }

  /** The outcome when the images are alike: a file that makes the target, and always one under moderate conditions. */
  ghost predicate Patched(bz: BsdiffFormat.Bzip2, z: Zlib, simg: seq<byte>, timg: seq<byte>, bonus: seq<byte>,
                          moderate: bool, r: Run) {
    && (r.Written? || r.TooLong?) && (r.TooLong? ==> OverLimit(bz, z, simg, timg, bonus) && !moderate)
    && (r.Written? ==> r.file == D.FileOf(r.pieces) && Makes(bz, z, simg, bonus, r.pieces, timg))
    && (r.Written? && moderate ==> Rebuilt(bz, z, simg, r.file, bonus) == Some(timg))
  }

  /** Edits the pairs, merges both lists and patches what is left. */
  method DiffChunks(bz: BsdiffFormat.Bzip2, z: Zlib, simg: seq<byte>, src: array<Chunk>, timg: seq<byte>,
                    tgt: array<Chunk>, num: nat, bonus: seq<byte>)
      returns (r: Run)
    requires bz.Lawful() && src != tgt && num <= src.Length && num <= tgt.Length
    requires Edited(z, timg, tgt[..num], simg, src[..num], 0) && (num > 0 ==> tgt[0].kind == Normal)
    modifies src, tgt
    ensures Patched(bz, z, simg, timg, bonus, old(Moderate(bz, simg, src[..num], timg, tgt[..num], bonus)), r)
    ensures r.Written? ==> |r.pieces| <= num
  {
    ghost var ts0, ss0 := tgt[..num], src[..num];
    EditPairs(z, timg, tgt, simg, src, num);
    ghost var ts, ss := tgt[..num], src[..num];
    MergedEdited(z, timg, ts, simg, ss);
    ModerateStays(bz, simg, ss0, ss, timg, ts0, ts, bonus);
    var m := MergeAdjacentNormalChunks(tgt, num);
    var n := MergeAdjacentNormalChunks(src, num);
    assert n == m;
    if num > 0 { SecondIsDeflate(z, timg, ts); }
    assert |Merged(ts)| > 1 ==> Kinds(Merged(ts))[1] == Kinds(Merged(ss))[1];
    r := PatchChunks(bz, z, simg, src[..n], timg, tgt[..m], bonus);
  }

  /** Editing and merging keep the sizes moderate. */
  lemma ModerateStays(bz: BsdiffFormat.Bzip2, simg: seq<byte>, ss0: seq<Chunk>, ss: seq<Chunk>, timg: seq<byte>,
                      ts0: seq<Chunk>, ts: seq<Chunk>, bonus: seq<byte>)
    requires Thinned(ss0, ss) && Thinned(ts0, ts)
    ensures Moderate(bz, simg, ss0, timg, ts0, bonus) ==> Moderate(bz, simg, Merged(ss), timg, Merged(ts), bonus)
  {
    BulkThinned(ss0, ss);
    BulkThinned(ts0, ts);
    BulkMerged(ss);
    BulkMerged(ts);
  }

  /** Patches the chunks and puts the file together. */
  method PatchChunks(bz: BsdiffFormat.Bzip2, z: Zlib, simg: seq<byte>, ss: seq<Chunk>, timg: seq<byte>, ts: seq<Chunk>,
                     bonus: seq<byte>)
      returns (r: Run)
    requires bz.Lawful() && Matched(z, timg, ts, simg, ss)
    requires |ts| > 1 ==> ss[1].kind == Deflate
    ensures Patched(bz, z, simg, timg, bonus, Moderate(bz, simg, ss, timg, ts, bonus), r)
    ensures r.Written? ==> |r.pieces| == |ts|
  {
    ghost var moderate := Moderate(bz, simg, ss, timg, ts, bonus);
    forall k | 0 <= k < |ss| ensures CutFrom(z, simg, ss[k]) { TilesMember(z, simg, ss, 0, |simg|, k); }
    forall k | 0 <= k < |ts| ensures CutFrom(z, timg, ts[k]) { TilesMember(z, timg, ts, 0, |timg|, k); }
    if moderate { ModerateInMemory(bz, z, simg, ss, timg, ts, bonus); }
    if !InMemory(simg, ss, timg, ts, bonus) {
      NotInMemory(bz, z, simg, ss, timg, ts, bonus);
      return TooLong;
    }
    var ok, ps := MakePieces(bz, z, simg, ss, timg, ts, bonus);
    if !ok {
      BlocksTooLong(bz, z, simg, timg, ts, bonus, moderate);
      return TooLong;
    }
    PiecesDone(bz, z, simg, ss, timg, ts, bonus, ps);
    var file := D.WritePatch(ps);
    r := Written(ps, file);
  }

  lemma BlocksTooLong(bz: BsdiffFormat.Bzip2, z: Zlib, simg: seq<byte>, timg: seq<byte>, ts: seq<Chunk>,
                      bonus: seq<byte>, moderate: bool)
    requires (forall k :: 0 <= k < |ts| ==> CutFrom(z, timg, ts[k])) && SomeTooLong(bz, ts)
    requires moderate ==> bz.Modest() && forall k :: 0 <= k < |ts| ==> ts[k].len < Small
    ensures OverLimit(bz, z, simg, timg, bonus) && !moderate
  {
    var k :| 0 <= k < |ts| && BlockTooLong(bz, ts[k].len) && !(bz.Modest() && ts[k].len < Small);
    ChunkTooLong(bz, z, simg, timg, ts[k], bonus);
  }

  lemma PiecesDone(bz: BsdiffFormat.Bzip2, z: Zlib, simg: seq<byte>, ss: seq<Chunk>, timg: seq<byte>, ts: seq<Chunk>,
                   bonus: seq<byte>, ps: seq<D.Piece>)
    requires Tiles(z, timg, ts, 0, |timg|) && AllSized(bz, ts, |timg|, ps)
    requires D.AllGive(D.GivesRelation(bz, z, simg, bonus), ps, Parts(z, timg, ts, 0, |timg|))
    requires Moderate(bz, simg, ss, timg, ts, bonus) ==> forall k :: 0 <= k < |ts| ==> ts[k].len < Small
    ensures Makes(bz, z, simg, bonus, ps, timg)
    ensures Moderate(bz, simg, ss, timg, ts, bonus) ==> Rebuilt(bz, z, simg, D.FileOf(ps), bonus) == Some(timg)
  {
    PartsJoin(z, timg, ts, 0, |timg|);
    assert timg[0..|timg|] == timg;
    PiecesMake(bz, z, simg, bonus, ps, Parts(z, timg, ts, 0, |timg|), ts, timg);
    if Moderate(bz, simg, ss, timg, ts, bonus) { ModerateFile(bz, z, simg, ss, timg, ts, bonus, ps); }
  }

  lemma PiecesMake(bz: BsdiffFormat.Bzip2, z: Zlib, simg: seq<byte>, bonus: seq<byte>, ps: seq<D.Piece>,
                   outs: seq<seq<byte>>, ts: seq<Chunk>, timg: seq<byte>)
    requires D.AllGive(D.GivesRelation(bz, z, simg, bonus), ps, outs) && Concat(outs) == timg &&
             AllSized(bz, ts, |timg|, ps)
    ensures Makes(bz, z, simg, bonus, ps, timg)
  {
    if Fits4(|timg|) && Fits4(|ps|) && Fits8(|D.FileOf(ps)|) {
      forall k | 0 <= k < |ps| ensures D.FieldsFit(ps[k]) { assert Sized(bz, ts[k].len, |timg|, ps[k]); }
      D.StorableIf(ps);
      D.FileRebuilds(bz, z, simg, bonus, ps, outs);
    }
  }

  /**
   The pieces give the parts of `timg`, one by one. If their number and the length of the image fit four bytes and the
   length of the file fits eight, `ApplyImagePatch` makes `timg` out of `simg`, the file and the bonus data.
   */
  ghost predicate Makes(bz: BsdiffFormat.Bzip2, z: Zlib, simg: seq<byte>, bonus: seq<byte>, ps: seq<D.Piece>,
                        timg: seq<byte>) {
    && (exists outs :: D.AllGive(D.GivesRelation(bz, z, simg, bonus), ps, outs) && Concat(outs) == timg)
    && (Fits4(|timg|) && Fits4(|ps|) && Fits8(|D.FileOf(ps)|) ==>
          Rebuilt(bz, z, simg, D.FileOf(ps), bonus) == Some(timg))
  }
}
