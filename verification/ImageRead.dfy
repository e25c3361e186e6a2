/** Cutting an image into chunks around its gzip members. */
module ImageRead {
  import opened Bytes
  import opened ImageChunks

  /** The source never returns in two situations; the model says which. */
  datatype Outcome = Chunks(chunks: seq<Chunk>) | Failed | InflateLoops | TailLoops

  function Prepend(cs: seq<Chunk>, r: Outcome): (o: Outcome) { if r.Chunks? then Chunks(cs + r.chunks) else r }

  // Gzip headers

  /** The byte at `i`, the image being followed by zero bytes. */
  function Padded(img: seq<byte>, i: nat): (b: int) { if i < |img| then img[i] else 0 }

  /** The search pattern 1f 8b 08 00 at `p`, looking into the zero bytes behind the image. */
  predicate PatternAt(img: seq<byte>, p: nat) {
    p < |img| && img[p] == 0x1f && Padded(img, p + 1) == 0x8b && Padded(img, p + 2) == 0x08 && Padded(img, p + 3) == 0
  }

  /** A gzip header that lies inside the image. */
  predicate HeaderAt(img: seq<byte>, p: nat) { p + 4 <= |img| && PatternAt(img, p) }

  /** The first position from `p` on where the pattern matches, or the end of the image. */
  function NextPattern(img: seq<byte>, p: nat): (q: nat)
    requires p <= |img|
    ensures p <= q <= |img| && (q < |img| ==> PatternAt(img, q))
    ensures forall t: nat :: p <= t < q ==> !PatternAt(img, t)
    decreases |img| - p
  {
    if p == |img| || PatternAt(img, p) then p else NextPattern(img, p + 1)
  }

  /** The three chunks of the gzip member whose header is at `pos`, and where the member ends. */
  function Member(z: Zlib, img: seq<byte>, pos: nat): (r: Outcome)
    requires pos <= |img|
    ensures r.Chunks? ==> |r.chunks| == 3
  {
    if pos + 10 > |img| then Failed
    else
      match z.inflate(img[pos + 10..])
      case None => InflateLoops
      case Some((data, used)) =>
        var foot := pos + 10 + used;
        if foot + 8 > |img| || Read4(img, foot + 4) != |data| then Failed
        else Chunks(MemberChunks(pos, data, used))
  }

  function MemberChunks(pos: nat, data: seq<byte>, used: nat): (cs: seq<Chunk>)
    ensures |cs| == 3
  {
    [NormalChunk(pos, 10), Chunk(Deflate, pos + 10, |data|, -1, data, used, None, NoParams),
     NormalChunk(pos + 10 + used, 8)]
  }

  /** Where the member that `Member` found ends. */
  function MemberEnd(cs: seq<Chunk>): (p: nat)
    requires |cs| == 3
  {
    cs[2].start + 8
  }

  /** The image from `pos` on, cut into chunks. */
  function Split(z: Zlib, img: seq<byte>, pos: nat): (r: Outcome)
    requires pos <= |img|
    decreases |img| - pos
  {
    if pos == |img| then Chunks([])
    else if HeaderAt(img, pos) then
      var m := Member(z, img, pos);
      if !m.Chunks? then m
      else if MemberEnd(m.chunks) <= pos || MemberEnd(m.chunks) > |img| then Failed
      else Prepend(m.chunks, Split(z, img, MemberEnd(m.chunks)))
    else
      var q := NextPattern(img, pos);
      if q == pos then TailLoops else Prepend([NormalChunk(pos, q - pos)], Split(z, img, q))
  }

  lemma MemberChunksTile(z: Zlib, img: seq<byte>, pos: nat, data: seq<byte>, used: nat, end: nat)
    requires end == pos + used + 18 <= |img| && Inflates(z, img[pos + 10..pos + 10 + used], data)
    ensures Tiles(z, img, MemberChunks(pos, data, used), pos, end)
  {
    var cs := MemberChunks(pos, data, used);
    TilesCons(z, img, cs[2], [], end - 8, end);
    assert [cs[2]] + [] == [cs[2]];
    TilesCons(z, img, cs[1], [cs[2]], pos + 10, end);
    assert [cs[1]] + [cs[2]] == cs[1..];
    TilesCons(z, img, cs[0], cs[1..], pos, end);
    assert [cs[0]] + cs[1..] == cs;
  }

  lemma MemberTiles(z: Zlib, img: seq<byte>, pos: nat)
    requires z.Lawful() && pos <= |img| && Member(z, img, pos).Chunks?
    ensures pos < MemberEnd(Member(z, img, pos).chunks) <= |img|
    ensures Tiles(z, img, Member(z, img, pos).chunks, pos, MemberEnd(Member(z, img, pos).chunks))
  {
    var rest := img[pos + 10..];
    var (data, used) := z.inflate(rest).value;
    assert rest[..used] == img[pos + 10..pos + 10 + used];
    MemberChunksTile(z, img, pos, data, used, pos + used + 18);
  }

  /** The chunks of a member, and then those of the rest of the image. */
  lemma MemberThenRest(z: Zlib, img: seq<byte>, pos: nat, cs: seq<Chunk>, rest: Outcome)
    requires z.Lawful() && pos <= |img| && Member(z, img, pos) == Chunks(cs) && rest.Chunks?
    requires Tiles(z, img, rest.chunks, MemberEnd(cs), |img|)
    ensures Tiles(z, img, cs + rest.chunks, pos, |img|)
  {
    MemberTiles(z, img, pos);
    TilesConcat(z, img, cs, rest.chunks, pos, MemberEnd(cs), |img|);
  }

  /** The search for the next gzip header. */
  method FindPattern(img: seq<byte>, pos: nat) returns (q: nat)
    requires pos <= |img|
    ensures q == NextPattern(img, pos)
  {
    q := pos;
    while q < |img| && !PatternAt(img, q)
      invariant pos <= q <= |img| && NextPattern(img, pos) == NextPattern(img, q)
    {
      q := q + 1;
    }
  }

  lemma SplitAtMember(z: Zlib, img: seq<byte>, pos: nat, m: Outcome)
    requires z.Lawful() && HeaderAt(img, pos) && m == Member(z, img, pos)
    ensures !m.Chunks? ==> Split(z, img, pos) == m
    ensures m.Chunks? ==> pos < MemberEnd(m.chunks) <= |img|
                          && Split(z, img, pos) == Prepend(m.chunks, Split(z, img, MemberEnd(m.chunks)))
  {
    if m.Chunks? { MemberTiles(z, img, pos); }
  }

  lemma SplitAtData(z: Zlib, img: seq<byte>, pos: nat, q: nat)
    requires pos < |img| && !HeaderAt(img, pos) && q == NextPattern(img, pos)
    ensures Split(z, img, pos) == if q == pos then TailLoops else Prepend([NormalChunk(pos, q - pos)], Split(z, img, q))
  {
  }

  lemma DataThenRest(z: Zlib, img: seq<byte>, pos: nat, q: nat, rest: Outcome)
    requires pos < q <= |img| && rest.Chunks? && Tiles(z, img, rest.chunks, q, |img|)
    ensures Tiles(z, img, [NormalChunk(pos, q - pos)] + rest.chunks, pos, |img|)
  {
    TilesCons(z, img, NormalChunk(pos, q - pos), rest.chunks, pos, |img|);
  }

  /** The chunks cover the image. */
  lemma {:induction false} SplitTiles(z: Zlib, img: seq<byte>, pos: nat, all: Outcome)
    requires z.Lawful() && pos <= |img| && all == Split(z, img, pos) && all.Chunks?
    ensures Tiles(z, img, all.chunks, pos, |img|)
    decreases |img| - pos
  {
    if pos < |img| {
      if HeaderAt(img, pos) {
        var m := Member(z, img, pos);
        SplitAtMember(z, img, pos, m);
        var rest := Split(z, img, MemberEnd(m.chunks));
        SplitTiles(z, img, MemberEnd(m.chunks), rest);
        MemberThenRest(z, img, pos, m.chunks, rest);
      } else {
        var q := NextPattern(img, pos);
        SplitAtData(z, img, pos, q);
        var rest := Split(z, img, q);
        SplitTiles(z, img, q, rest);
        DataThenRest(z, img, pos, q, rest);
      }
    }
  }

  /** One round of the loop: the chunks of a gzip member, or one chunk of other data. */
  method NextChunks(z: Zlib, img: seq<byte>, pos: nat) returns (o: Outcome, next: nat)
    requires z.Lawful() && pos < |img|
    ensures !o.Chunks? ==> Split(z, img, pos) == o
    ensures o.Chunks? ==> pos < next <= |img| && Split(z, img, pos) == Prepend(o.chunks, Split(z, img, next))
  {
    next := pos;
    if |img| - pos >= 4 && PatternAt(img, pos) {
      o := Member(z, img, pos);
      SplitAtMember(z, img, pos, o);
      if o.Chunks? { next := MemberEnd(o.chunks); }
    } else {
      next := FindPattern(img, pos);
      SplitAtData(z, img, pos, next);
      o := if next == pos then TailLoops else Chunks([NormalChunk(pos, next - pos)]);
    }
  }

  /** `ReadImage`. */
  method ReadImage(z: Zlib, img: seq<byte>) returns (r: Outcome)
    requires z.Lawful()
    ensures r == Split(z, img, 0)
    ensures r.Chunks? ==> Tiles(z, img, r.chunks, 0, |img|)
  {
    var pos: nat, cs := 0, [];
    ghost var rest := Split(z, img, 0);
    while pos < |img|
      invariant pos <= |img| && rest == Split(z, img, pos) && Split(z, img, 0) == Prepend(cs, rest)
      decreases |img| - pos
    {
      var o, next := NextChunks(z, img, pos);
      if !o.Chunks? { return o; }
      rest := Split(z, img, next);
      PrependTwice(cs, o.chunks, rest);
      cs, pos := cs + o.chunks, next;
    }
    r := Chunks(cs);
    assert cs + [] == cs;
    SplitTiles(z, img, 0, r);
  }

  lemma PrependTwice(a: seq<Chunk>, b: seq<Chunk>, r: Outcome)
    ensures Prepend(a, Prepend(b, r)) == Prepend(a + b, r)
  {
    if r.Chunks? { assert a + (b + r.chunks) == (a + b) + r.chunks; }
  }

  // When the search runs on the spot

  /** The image ends with the first three bytes of a gzip header. */
  predicate EndsInHeader(img: seq<byte>) {
    |img| >= 3 && img[|img| - 3] == 0x1f && img[|img| - 2] == 0x8b && img[|img| - 1] == 0x08
  }

  /** The first gzip header from `p` on that lies inside the image, or the end of the image. */
  function NextHeader(img: seq<byte>, p: nat): (q: nat)
    requires p <= |img|
    ensures p <= q <= |img| && (q < |img| ==> HeaderAt(img, q))
    decreases |img| - p
  {
    if p == |img| || HeaderAt(img, p) then p else NextHeader(img, p + 1)
  }

  /** Where the last gzip member ends, going from member to member; nothing if one of them is bad. */
  function LastMemberEnd(z: Zlib, img: seq<byte>, p: nat): (r: Option<nat>)
    requires p <= |img|
    decreases |img| - p
  {
    var q := NextHeader(img, p);
    if q == |img| then Some(p)
    else
      var m := Member(z, img, q);
      if !m.Chunks? || MemberEnd(m.chunks) <= q || MemberEnd(m.chunks) > |img| then None
      else LastMemberEnd(z, img, MemberEnd(m.chunks))
  }

  lemma PatternIsHeaderOrTail(img: seq<byte>, p: nat)
    ensures PatternAt(img, p) <==> HeaderAt(img, p) || (EndsInHeader(img) && p == |img| - 3)
  {
  }

  lemma {:induction false} NextHeaderFromPattern(img: seq<byte>, p: nat)
    requires p <= |img|
    ensures var q := NextPattern(img, p);
            if q < |img| && HeaderAt(img, q) then NextHeader(img, p) == q else NextHeader(img, p) == |img|
    decreases |img| - p
  {
    if p < |img| {
      PatternIsHeaderOrTail(img, p);
      if !PatternAt(img, p) { NextHeaderFromPattern(img, p + 1); }
      else if !HeaderAt(img, p) { NoHeaderInTail(img, p); }
    }
  }

  lemma NoHeaderInTail(img: seq<byte>, p: nat)
    requires p + 4 > |img| && p <= |img|
    ensures NextHeader(img, p) == |img|
    decreases |img| - p
  {
    if p < |img| { NoHeaderInTail(img, p + 1); }
  }

  /**
   `ReadImage` searches forever on the spot exactly when the image ends in 1f 8b 08 and those bytes lie behind the last
   gzip member.
   */
  lemma {:induction false} TailLoopsIff(z: Zlib, img: seq<byte>, pos: nat)
    requires z.Lawful() && pos <= |img|
    ensures Split(z, img, pos).TailLoops? <==>
            EndsInHeader(img) && LastMemberEnd(z, img, pos).Some? && LastMemberEnd(z, img, pos).value <= |img| - 3
    decreases |img| - pos
  {
    if pos == |img| {
    } else if HeaderAt(img, pos) {
      if Member(z, img, pos).Chunks? {
        MemberTiles(z, img, pos);
        TailLoopsIff(z, img, MemberEnd(Member(z, img, pos).chunks));
      }
    } else {
      var q := NextPattern(img, pos);
      PatternIsHeaderOrTail(img, q);
      NextHeaderFromPattern(img, pos);
      if EndsInHeader(img) { PatternIsHeaderOrTail(img, |img| - 3); }
      if q > pos {
        TailLoopsIff(z, img, q);
        NextHeaderFromPattern(img, q);
      }
    }
  }

  /** The header of the first gzip member that is not good, going from member to member. */
  function FirstBad(z: Zlib, img: seq<byte>, p: nat): (r: Option<nat>)
    requires p <= |img|
    ensures r.Some? ==> r.value < |img|
    decreases |img| - p
  {
    var q := NextHeader(img, p);
    if q == |img| then None
    else
      var m := Member(z, img, q);
      if !m.Chunks? || MemberEnd(m.chunks) <= q || MemberEnd(m.chunks) > |img| then Some(q)
      else FirstBad(z, img, MemberEnd(m.chunks))
  }

  /** The stream of the member with its header at `q` does not inflate. */
  predicate Uninflatable(z: Zlib, img: seq<byte>, q: nat) { q + 10 <= |img| && z.inflate(img[q + 10..]).None? }

  /**
   `ReadImage` inflates forever exactly when the first gzip member that is not good has a stream that does not inflate,
   and fails exactly when it is not good for another reason.
   */
  lemma {:induction false} InflateLoopsIff(z: Zlib, img: seq<byte>, pos: nat)
    requires z.Lawful() && pos <= |img|
    ensures var bad := FirstBad(z, img, pos);
            && (Split(z, img, pos).InflateLoops? <==> bad.Some? && Uninflatable(z, img, bad.value))
            && (Split(z, img, pos).Failed? <==> bad.Some? && !Uninflatable(z, img, bad.value))
    decreases |img| - pos
  {
    if pos == |img| {
    } else if HeaderAt(img, pos) {
      if Member(z, img, pos).Chunks? {
        MemberTiles(z, img, pos);
        InflateLoopsIff(z, img, MemberEnd(Member(z, img, pos).chunks));
      }
    } else {
      var q := NextPattern(img, pos);
      NextHeaderFromPattern(img, pos);
      if q > pos {
        InflateLoopsIff(z, img, q);
        NextHeaderFromPattern(img, q);
      }
    }
  }

  /** The shortest image on which the search never ends. */
  lemma TailLoopsExample(z: Zlib)
    ensures Split(z, [0x1f, 0x8b, 0x08], 0).TailLoops?
  {
  }
}
