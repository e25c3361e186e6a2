/** An image cut into chunks, and the merging of neighbouring normal chunks. */
module ImageChunks {
  import opened Bytes
  import opened ImageFormat

  /** zlib as far as imgdiff and imgpatch rely on it: `inflate` gives the data and how many input bytes they took. */
  datatype Zlib = Zlib(inflate: seq<byte> -> Option<(seq<byte>, nat)>, deflate: (Params, seq<byte>) -> seq<byte>) {

    /** A deflate stream shows where it ends: what follows it does not matter. */
    ghost predicate Lawful() {
      forall x :: inflate(x).Some? ==> inflate(x).value.1 <= |x| && inflate(x[..inflate(x).value.1]) == inflate(x)
    }
  }

  datatype Kind = Normal | Deflate

  /**
   A chunk. `start` is its offset in the image. A normal chunk is `len` bytes of the image from `at` on (the `data`
   pointer); a deflate chunk is `deflateLen` bytes of the image that inflate to `inflated`, and `params` are the
   encoder parameters found for it.
   */
  datatype Chunk = Chunk(kind: Kind, start: nat, len: nat, at: int, inflated: seq<byte>, deflateLen: nat,
                         name: Option<string>, params: Params)

  const NoParams := Params(0, 0, 0, 0, 0)

  /** A normal chunk: bytes `start..start+len` of the image. */
  function NormalChunk(start: nat, len: nat): (c: Chunk) { Chunk(Normal, start, len, start, [], 0, None, NoParams) }

  /** How many bytes of the image the chunk stands for. */
  function Extent(c: Chunk): (n: nat) { if c.kind == Normal then c.len else c.deflateLen }

  /** The data to be patched: the bytes themselves, or what they inflate to. */
  function Data(img: seq<byte>, c: Chunk): (d: seq<byte>)
    requires c.kind == Normal ==> 0 <= c.at && c.at + c.len <= |img|
  {
    if c.kind == Normal then img[c.at..c.at + c.len] else c.inflated
  }

  predicate Inflates(z: Zlib, stream: seq<byte>, data: seq<byte>) {
    z.inflate(stream).Some? && z.inflate(stream).value.0 == data
  }

  /** The chunk is consistent with the image it was cut from. */
  predicate CutFrom(z: Zlib, img: seq<byte>, c: Chunk) {
    && c.start + Extent(c) <= |img|
    && (c.kind == Normal ==> c.at == c.start)
    && (c.kind == Deflate ==> |c.inflated| == c.len && Inflates(z, img[c.start..c.start + c.deflateLen], c.inflated))
  }

  /** The chunks cover the image from `lo` to `hi` without gaps or overlaps. */
  predicate Tiles(z: Zlib, img: seq<byte>, cs: seq<Chunk>, lo: int, hi: int) {
    if cs == [] then lo == hi
    else cs[0].start == lo && CutFrom(z, img, cs[0]) && Tiles(z, img, cs[1..], lo + Extent(cs[0]), hi)
  }

  lemma TilesCons(z: Zlib, img: seq<byte>, c: Chunk, rest: seq<Chunk>, lo: int, hi: int)
    requires c.start == lo && CutFrom(z, img, c) && Tiles(z, img, rest, lo + Extent(c), hi)
    ensures Tiles(z, img, [c] + rest, lo, hi)
  {
    assert ([c] + rest)[1..] == rest;
  }

  lemma {:induction false} TilesConcat(z: Zlib, img: seq<byte>, a: seq<Chunk>, b: seq<Chunk>, lo: int, mid: int,
                                       hi: int)
    requires Tiles(z, img, a, lo, mid) && Tiles(z, img, b, mid, hi)
    ensures Tiles(z, img, a + b, lo, hi)
  {
    if a == [] {
      assert a + b == b;
    } else {
      assert (a + b)[1..] == a[1..] + b;
      TilesConcat(z, img, a[1..], b, lo + Extent(a[0]), mid, hi);
    }
  }

  lemma {:induction false} TilesOrdered(z: Zlib, img: seq<byte>, cs: seq<Chunk>, lo: int, hi: int)
    requires Tiles(z, img, cs, lo, hi)
    ensures lo <= hi
  {
    if cs != [] { TilesOrdered(z, img, cs[1..], lo + Extent(cs[0]), hi); }
  }

  lemma {:induction false} TilesMember(z: Zlib, img: seq<byte>, cs: seq<Chunk>, lo: int, hi: int, k: nat)
    requires Tiles(z, img, cs, lo, hi) && k < |cs|
    ensures CutFrom(z, img, cs[k])
  {
    if k > 0 { TilesMember(z, img, cs[1..], lo + Extent(cs[0]), hi, k - 1); }
  }

  // Merging

  /** `b` is a normal chunk that begins where the normal chunk `a` ends, in the image and in memory. */
  predicate Adjoins(a: Chunk, b: Chunk) { b.kind == Normal && b.start == a.start + a.len && b.at == a.at + a.len }

  /** Length of the run that `cs` starts with: one chunk, or as many adjoining normal chunks as there are. */
  function RunLength(cs: seq<Chunk>): (k: nat)
    requires cs != []
    ensures 1 <= k <= |cs|
  {
    if cs[0].kind == Normal && |cs| > 1 && Adjoins(cs[0], cs[1]) then 1 + RunLength(cs[1..]) else 1
  }

  /** One chunk for a run: it starts as the first member does and reaches to the end of the last. */
  function Joined(run: seq<Chunk>): (c: Chunk)
    requires run != []
  {
    var a, b := run[0], run[|run| - 1];
    if |run| == 1 then a
    else
      var len := if b.start + b.len >= a.start then b.len + (b.start - a.start) else 0;
      Chunk(Normal, a.start, len, a.at, [], 0, None, NoParams)
  }

  function Merged(cs: seq<Chunk>): (r: seq<Chunk>)
    decreases |cs|
  {
    if cs == [] then [] else var k := RunLength(cs); [Joined(cs[..k])] + Merged(cs[k..])
  }

  function Kinds(cs: seq<Chunk>): (ks: seq<Kind>)
    ensures |ks| == |cs| && forall i :: 0 <= i < |cs| ==> ks[i] == cs[i].kind
  {
    seq(|cs|, i requires 0 <= i < |cs| => cs[i].kind)
  }

  /** The kinds with every run of `Normal` shortened to one. */
  function Squashed(ks: seq<Kind>): (r: seq<Kind>) {
    if |ks| <= 1 then ks
    else if ks[0] == Normal && ks[1] == Normal then Squashed(ks[1..])
    else [ks[0]] + Squashed(ks[1..])
  }

  /** In a tiling, neighbouring normal chunks adjoin. */
  lemma TilesAdjoin(z: Zlib, img: seq<byte>, cs: seq<Chunk>, lo: int, hi: int)
    requires Tiles(z, img, cs, lo, hi) && |cs| > 1 && cs[0].kind == Normal && cs[1].kind == Normal
    ensures Adjoins(cs[0], cs[1])
  {
    assert cs[1] == cs[1..][0];
  }

  /** A run in a tiling joins to one chunk of the same extent. */
  lemma {:induction false} JoinedTiles(z: Zlib, img: seq<byte>, cs: seq<Chunk>, lo: int, hi: int) returns (mid: int)
    requires Tiles(z, img, cs, lo, hi) && cs != []
    ensures var k := RunLength(cs);
            && Tiles(z, img, cs[k..], mid, hi) && Joined(cs[..k]).kind == cs[0].kind
            && Joined(cs[..k]).start == lo && CutFrom(z, img, Joined(cs[..k])) && mid == lo + Extent(Joined(cs[..k]))
    ensures RunLength(cs) > 1 ==>
              cs[RunLength(cs) - 1].start + cs[RunLength(cs) - 1].len == mid && cs[RunLength(cs) - 1].start >= lo
    ensures RunLength(cs) == 1 ==> mid == lo + Extent(cs[0])
    decreases |cs|
  {
    var k := RunLength(cs);
    if k == 1 {
      mid := lo + Extent(cs[0]);
      assert cs[..1][0] == cs[0];
    } else {
      var rest := cs[1..];
      mid := JoinedTiles(z, img, rest, lo + Extent(cs[0]), hi);
      assert rest[k - 1..] == cs[k..] && rest[k - 2] == cs[k - 1] && cs[..k][k - 1] == cs[k - 1];
      TilesOrdered(z, img, cs[k..], mid, hi);
      RunIsNormal(cs);
      TilesMember(z, img, cs, lo, hi, k - 1);
    }
  }

  lemma {:induction false} RunIsNormal(cs: seq<Chunk>)
    requires cs != [] && RunLength(cs) > 1
    ensures forall i :: 0 <= i < RunLength(cs) ==> cs[i].kind == Normal
  {
    if RunLength(cs[1..]) > 1 {
      RunIsNormal(cs[1..]);
      forall i | 0 <= i < RunLength(cs) ensures cs[i].kind == Normal {
        if i > 0 { assert cs[i] == cs[1..][i - 1]; }
      }
    }
  }

  /** Merging keeps the covered bytes. */
  lemma {:induction false} MergedTiles(z: Zlib, img: seq<byte>, cs: seq<Chunk>, lo: int, hi: int)
    requires Tiles(z, img, cs, lo, hi)
    ensures Tiles(z, img, Merged(cs), lo, hi)
    decreases |cs|
  {
    if cs != [] {
      var k := RunLength(cs);
      var mid := JoinedTiles(z, img, cs, lo, hi);
      MergedTiles(z, img, cs[k..], mid, hi);
      TilesCons(z, img, Joined(cs[..k]), Merged(cs[k..]), lo, hi);
    }
  }

  /** A run of normal chunks ends where the normal chunks do; the kinds behind it are squashed as after one of them. */
  lemma {:induction false} RunSquashes(z: Zlib, img: seq<byte>, cs: seq<Chunk>, lo: int, hi: int)
    requires Tiles(z, img, cs, lo, hi) && cs != []
    ensures Squashed(Kinds(cs)) == [cs[0].kind] + Squashed(Kinds(cs[RunLength(cs)..]))
    decreases |cs|
  {
    var ks := Kinds(cs);
    if |cs| > 1 {
      assert ks[1..] == Kinds(cs[1..]);
      if ks[0] == Normal && ks[1] == Normal {
        TilesAdjoin(z, img, cs, lo, hi);
        RunSquashes(z, img, cs[1..], lo + Extent(cs[0]), hi);
        assert cs[1..][RunLength(cs) - 1..] == cs[RunLength(cs)..];
      }
    } else {
      assert ks == [cs[0].kind] && Kinds(cs[1..]) == [];
    }
  }

  lemma KindsCons(c: Chunk, rest: seq<Chunk>)
    ensures Kinds([c] + rest) == [c.kind] + Kinds(rest)
  {
  }

  /** What merging does to the kinds depends on the kinds alone. */
  lemma {:induction false} MergedKinds(z: Zlib, img: seq<byte>, cs: seq<Chunk>, lo: int, hi: int)
    requires Tiles(z, img, cs, lo, hi)
    ensures Kinds(Merged(cs)) == Squashed(Kinds(cs))
    decreases |cs|
  {
    if cs != [] {
      var k := RunLength(cs);
      var mid := JoinedTiles(z, img, cs, lo, hi);
      MergedKinds(z, img, cs[k..], mid, hi);
      RunSquashes(z, img, cs, lo, hi);
      KindsCons(Joined(cs[..k]), Merged(cs[k..]));
    }
  }

  predicate NoTwoNormals(ks: seq<Kind>) { forall i :: 0 < i < |ks| ==> ks[i - 1] != Normal || ks[i] != Normal }

  lemma {:induction false} SquashedNoTwoNormals(ks: seq<Kind>)
    ensures NoTwoNormals(Squashed(ks))
    ensures ks != [] ==> Squashed(ks) != [] && Squashed(ks)[0] == ks[0]
  {
    if |ks| > 1 {
      SquashedNoTwoNormals(ks[1..]);
    }
  }

  /** Two tilings with the same kinds still have the same kinds, and as many chunks, after merging. */
  lemma MergedInParallel(z: Zlib, img1: seq<byte>, cs1: seq<Chunk>, img2: seq<byte>, cs2: seq<Chunk>)
    requires Tiles(z, img1, cs1, 0, |img1|) && Tiles(z, img2, cs2, 0, |img2|) && Kinds(cs1) == Kinds(cs2)
    ensures |Merged(cs1)| == |Merged(cs2)| && Kinds(Merged(cs1)) == Kinds(Merged(cs2))
    ensures NoTwoNormals(Kinds(Merged(cs1)))
  {
    MergedKinds(z, img1, cs1, 0, |img1|);
    MergedKinds(z, img2, cs2, 0, |img2|);
    SquashedNoTwoNormals(Kinds(cs1));
  }

  /** Merging loses no deflate chunk. */
  lemma {:induction false} MergedKeeps(cs: seq<Chunk>, c: Chunk)
    requires c in cs && c.kind == Deflate
    ensures c in Merged(cs)
    decreases |cs|
  {
    var k := RunLength(cs);
    assert cs == cs[..k] + cs[k..];
    if c in cs[k..] {
      MergedKeeps(cs[k..], c);
    } else {
      if k > 1 { RunIsNormal(cs); }
      assert Joined(cs[..k]) == c;
    }
  }

  // The in-place loop

  /** The inner loop: where the run that starts at `start` ends. */
  method RunEnd(chunks: array<Chunk>, num: nat, start: nat) returns (end: nat)
    requires start < num <= chunks.Length
    ensures start < end <= num && end - start == RunLength(chunks[start..num])
  {
    end := start + 1;
    ghost var rest := chunks[start..num];
    ghost var length := RunLength(rest);
    if chunks[start].kind != Normal { return; }
    while end < num && Adjoins(chunks[end - 1], chunks[end])
      invariant start < end <= num && chunks[end - 1].kind == Normal && rest == chunks[end - 1..num]
      invariant end - 1 - start + RunLength(rest) == length
    {
      assert rest[1] == chunks[end];
      rest := rest[1..];
      end := end + 1;
    }
    assert end < num ==> rest[1] == chunks[end];
  }

  /** The chunk at `out` becomes the join of the run `[start..end)`. */
  method StoreJoined(chunks: array<Chunk>, out: nat, start: nat, end: nat)
    requires out <= start < end <= chunks.Length
    modifies chunks
    ensures chunks[..] == old(chunks[..])[out := Joined(old(chunks[start..end]))]
  {
    if end == start + 1 {
      if out != start { chunks[out] := chunks[start]; }
    } else {
      var a, b := chunks[start], chunks[end - 1];
      var len := if b.start + b.len >= a.start then b.len + (b.start - a.start) else 0;
      chunks[out] := Chunk(Normal, a.start, len, a.at, [], 0, None, NoParams);
    }
  }

  lemma MergeStep(done: seq<Chunk>, rest: seq<Chunk>, k: nat, c: Chunk, rest2: seq<Chunk>)
    requires rest != [] && k == RunLength(rest) && c == Joined(rest[..k]) && rest2 == rest[k..]
    ensures done + Merged(rest) == (done + [c]) + Merged(rest2)
  {
    var a, b := [c], Merged(rest2);
    assert Merged(rest) == a + b;
    assert done + (a + b) == (done + a) + b;
  }

  lemma AfterStore(cur: seq<Chunk>, out: nat, start: nat, end: nat, num: nat, c: Chunk)
    requires out <= start < end <= num <= |cur|
    ensures var next := cur[out := c];
            next[..out + 1] == cur[..out] + [c] && next[end..num] == cur[start..num][end - start..]
  {
  }

  /** One round: the run at `start` is joined and stored at `out`. */
  method MergeRun(chunks: array<Chunk>, num: nat, out: nat, start: nat, ghost done: seq<Chunk>, ghost rest: seq<Chunk>)
      returns (end: nat, ghost done2: seq<Chunk>, ghost rest2: seq<Chunk>)
    requires out <= start < num <= chunks.Length && done == chunks[..out] && rest == chunks[start..num]
    modifies chunks
    ensures start < end <= num && done2 == chunks[..out + 1] && rest2 == chunks[end..num]
    ensures done + Merged(rest) == done2 + Merged(rest2)
  {
    end := RunEnd(chunks, num, start);
    ghost var cur, k := chunks[..], end - start;
    ghost var c := Joined(rest[..k]);
    rest2 := rest[k..];
    assert chunks[start..end] == rest[..k];
    MergeStep(done, rest, k, c, rest2);
    StoreJoined(chunks, out, start, end);
    AfterStore(cur, out, start, end, num, c);
    done2 := done + [c];
  }

  /** `MergeAdjacentNormalChunks`: compacts the array in place and gives the new number of chunks. */
  method MergeAdjacentNormalChunks(chunks: array<Chunk>, num: nat) returns (out: nat)
    requires num <= chunks.Length
    modifies chunks
    ensures out <= num && chunks[..out] == Merged(old(chunks[..num]))
  {
    ghost var done, rest := [], chunks[..num];
    out := 0;
    var start: nat := 0;
    while start < num
      invariant out <= start <= num && done == chunks[..out] && rest == chunks[start..num]
      invariant done + Merged(rest) == Merged(old(chunks[..num]))
    {
      var end;
      end, done, rest := MergeRun(chunks, num, out, start, done, rest);
      out := out + 1;
      start := end;
    }
  }
}
