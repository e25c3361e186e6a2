/**
 `imgdiff` in zip mode: deflated entries are matched by name, everything else is patched from the whole source archive.
 */
module Zipdiff {
  import opened Bytes
  import BsdiffFormat
  import opened ImageFormat
  import opened ImageChunks
  import opened ImagePatch
  import opened ImageEdit
  import opened ImageBulk
  import opened Imgdiff
  import opened ZipNamesakes
  import D = ImageDiff

  /** A deflated entry of the central directory: where its data lie and how long they are. */
  datatype Entry = Entry(offset: int, compressed: int, uncompressed: int, name: string)

  /** The entries that a walk from `pos` comes to lie in order, without overlaps, inside the archive. */
  predicate Placed(entries: seq<Entry>, pos: int, size: int) {
    pos >= size || entries == [] ||
    var e := entries[0];
    && pos <= e.offset <= size
    && (e.offset < size ==>
          0 <= e.compressed && e.offset + e.compressed <= size && Placed(entries[1..], e.offset + e.compressed, size))
  }

  /**
   `ShortEntry`: an entry inflates to less than the directory says, so part of its buffer is never written. `Misplaced`:
   an entry starts before the one in front of it ends, so the length of the chunk between them wraps around, or it
   reaches past the end of the archive.
   */
  datatype Outcome = Chunks(chunks: seq<Chunk>) | BadEntry | ShortEntry | Misplaced

  function Prepend(c: Chunk, r: Outcome): (o: Outcome) { if r.Chunks? then Chunks([c] + r.chunks) else r }

  /** The chunk of one entry. */
  function EntryChunk(z: Zlib, img: seq<byte>, e: Entry): (r: Outcome)
    requires 0 <= e.offset <= |img|
    ensures r.Chunks? ==> |r.chunks| == 1 && 0 <= e.compressed && e.offset + e.compressed <= |img|
  {
    if e.compressed < 0 || e.offset + e.compressed > |img| then Misplaced
    else
      match z.inflate(img[e.offset..e.offset + e.compressed])
      case None => BadEntry
      case Some((data, _)) =>
        if |data| > e.uncompressed then BadEntry
        else if |data| < e.uncompressed then ShortEntry
        else Chunks([Chunk(Deflate, e.offset, |data|, -1, data, e.compressed, Some(e.name), NoParams)])
  }

  /** The archive from `pos` on, cut into chunks at the entries. */
  function ZipSplit(z: Zlib, img: seq<byte>, entries: seq<Entry>, pos: nat): (r: Outcome)
    requires pos <= |img|
    decreases |entries|, |img| - pos
  {
    if pos == |img| then Chunks([])
    else if entries == [] then Chunks([NormalChunk(pos, |img| - pos)])
    else if entries[0].offset < pos || entries[0].offset > |img| then Misplaced
    else if pos < entries[0].offset then
      Prepend(NormalChunk(pos, entries[0].offset - pos), ZipSplit(z, img, entries, entries[0].offset))
    else
      var c := EntryChunk(z, img, entries[0]);
      if !c.Chunks? then c else Prepend(c.chunks[0], ZipSplit(z, img, entries[1..], pos + entries[0].compressed))
  }

  /** Every entry that lies inside the archive inflates to as many bytes as the directory says. */
  predicate AllInflate(z: Zlib, img: seq<byte>, entries: seq<Entry>) {
    forall k :: 0 <= k < |entries| && 0 <= entries[k].offset <= |img| ==>
      EntryChunk(z, img, entries[k]).Chunks? || EntryChunk(z, img, entries[k]).Misplaced?
  }

  /** An archive whose entries inflate is cut into chunks exactly if they lie in place, and else called misplaced. */
  lemma {:induction false} PlacedIff(z: Zlib, img: seq<byte>, entries: seq<Entry>, pos: nat)
    requires pos <= |img|
    ensures var r := ZipSplit(z, img, entries, pos);
            && (r.Chunks? ==> Placed(entries, pos, |img|)) && (r.Misplaced? ==> !Placed(entries, pos, |img|))
            && (AllInflate(z, img, entries) ==> (r.Chunks? <==> Placed(entries, pos, |img|)))
    decreases |entries|, |img| - pos
  {
    if pos < |img| && entries != [] && pos <= entries[0].offset <= |img| {
      if pos < entries[0].offset {
        PlacedIff(z, img, entries, entries[0].offset);
      } else if EntryChunk(z, img, entries[0]).Chunks? {
        PlacedIff(z, img, entries[1..], pos + entries[0].compressed);
      }
    }
  }

  lemma LastTiles(z: Zlib, img: seq<byte>, pos: nat)
    requires pos <= |img|
    ensures Tiles(z, img, [NormalChunk(pos, |img| - pos)], pos, |img|)
  {
    TilesCons(z, img, NormalChunk(pos, |img| - pos), [], pos, |img|);
    assert [NormalChunk(pos, |img| - pos)] + [] == [NormalChunk(pos, |img| - pos)];
  }

  lemma EntryTiles(z: Zlib, img: seq<byte>, e: Entry, rest: seq<Chunk>)
    requires 0 <= e.offset <= |img| && EntryChunk(z, img, e).Chunks? &&
             Tiles(z, img, rest, e.offset + e.compressed, |img|)
    ensures Tiles(z, img, [EntryChunk(z, img, e).chunks[0]] + rest, e.offset, |img|)
  {
    TilesCons(z, img, EntryChunk(z, img, e).chunks[0], rest, e.offset, |img|);
  }

  lemma EntryFirstTiles(z: Zlib, img: seq<byte>, entries: seq<Entry>, pos: nat, all: Outcome)
    requires pos < |img| && entries != [] && entries[0].offset == pos && all == ZipSplit(z, img, entries, pos) &&
             all.Chunks?
    requires var next := pos + entries[0].compressed;
             && next <= |img| && ZipSplit(z, img, entries[1..], next).Chunks?
             && Tiles(z, img, ZipSplit(z, img, entries[1..], next).chunks, next, |img|)
    ensures Tiles(z, img, all.chunks, pos, |img|)
  {
    var e, rest := entries[0], ZipSplit(z, img, entries[1..], pos + entries[0].compressed);
    assert all == Prepend(EntryChunk(z, img, e).chunks[0], rest);
    EntryTiles(z, img, e, rest.chunks);
  }

  lemma {:induction false} ZipSplitTiles(z: Zlib, img: seq<byte>, entries: seq<Entry>, pos: nat)
    requires pos <= |img| && ZipSplit(z, img, entries, pos).Chunks?
    ensures Tiles(z, img, ZipSplit(z, img, entries, pos).chunks, pos, |img|)
    decreases |entries|, |img| - pos
  {
    if pos < |img| {
      if entries == [] {
        LastTiles(z, img, pos);
      } else if pos < entries[0].offset {
        var next := entries[0].offset;
        ZipSplitTiles(z, img, entries, next);
        TilesCons(z, img, NormalChunk(pos, next - pos), ZipSplit(z, img, entries, next).chunks, pos, |img|);
      } else {
        ZipSplitTiles(z, img, entries[1..], pos + entries[0].compressed);
        EntryFirstTiles(z, img, entries, pos, ZipSplit(z, img, entries, pos));
      }
    }
  }

  /** The inflated size that the directory gives. */
  function Uncompressed(entries: seq<Entry>): (n: nat) {
    if entries == [] then 0
    else (if entries[0].uncompressed > 0 then entries[0].uncompressed else 0) + Uncompressed(entries[1..])
  }

  /** There are at most two chunks for an entry and one more, and they hold no more than the directory says. */
  lemma {:induction false} ZipSplitBulk(z: Zlib, img: seq<byte>, entries: seq<Entry>, pos: nat)
    requires pos <= |img| && ZipSplit(z, img, entries, pos).Chunks?
    ensures var cs := ZipSplit(z, img, entries, pos).chunks;
            && Bulk(cs) <= Uncompressed(entries) && |cs| <= 2 * |entries| + 1
            && (entries != [] && pos == entries[0].offset ==> |cs| <= 2 * |entries|)
    decreases |entries|, |img| - pos
  {
    if pos < |img| && entries != [] {
      var gap := pos < entries[0].offset;
      var c := if gap then NormalChunk(pos, entries[0].offset - pos) else EntryChunk(z, img, entries[0]).chunks[0];
      var es := if gap then entries else entries[1..];
      var next := if gap then entries[0].offset else pos + entries[0].compressed;
      ZipSplitBulk(z, img, es, next);
      BulkConcat([c], ZipSplit(z, img, es, next).chunks);
    }
  }

  function Names(entries: seq<Entry>): (s: set<string>) { set e | e in entries :: e.name }

  predicate DistinctEntries(entries: seq<Entry>) {
    forall i, j :: 0 <= i < j < |entries| ==> entries[i].name != entries[j].name
  }

  /** Every deflate chunk has a name, and no two have the same one. */
  predicate DistinctNames(cs: seq<Chunk>) {
    && (forall k :: 0 <= k < |cs| && cs[k].kind == Deflate ==> cs[k].name.Some?)
    && (forall j, k :: 0 <= j < k < |cs| && cs[j].kind == Deflate && cs[k].kind == Deflate ==> cs[j].name != cs[k].name)
  }

  predicate NamedFrom(cs: seq<Chunk>, names: set<string>) {
    forall k :: 0 <= k < |cs| && cs[k].kind == Deflate ==> cs[k].name.Some? && cs[k].name.value in names
  }

  lemma NormalFirst(c: Chunk, cs: seq<Chunk>, names: set<string>)
    requires c.kind == Normal && DistinctNames(cs) && NamedFrom(cs, names)
    ensures DistinctNames([c] + cs) && NamedFrom([c] + cs, names)
  {
  }

  lemma NamedFirst(c: Chunk, cs: seq<Chunk>, name: string, names: set<string>, all: set<string>)
    requires c.name == Some(name) && name !in names && DistinctNames(cs) && NamedFrom(cs, names) && names <= all &&
             name in all
    ensures DistinctNames([c] + cs) && NamedFrom([c] + cs, all)
  {
  }

  /** Every deflate chunk has a name. */
  predicate Named(cs: seq<Chunk>) { forall k :: 0 <= k < |cs| && cs[k].kind == Deflate ==> cs[k].name.Some? }

  lemma {:induction false} ZipSplitNamed(z: Zlib, img: seq<byte>, entries: seq<Entry>, pos: nat)
    requires pos <= |img| && ZipSplit(z, img, entries, pos).Chunks?
    ensures Named(ZipSplit(z, img, entries, pos).chunks)
    decreases |entries|, |img| - pos
  {
    if pos < |img| && entries != [] {
      if pos < entries[0].offset {
        ZipSplitNamed(z, img, entries, entries[0].offset);
      } else {
        ZipSplitNamed(z, img, entries[1..], pos + entries[0].compressed);
      }
    }
  }

  lemma {:induction false} ZipSplitNames(z: Zlib, img: seq<byte>, entries: seq<Entry>, pos: nat)
    requires pos <= |img| && ZipSplit(z, img, entries, pos).Chunks? && DistinctEntries(entries)
    ensures DistinctNames(ZipSplit(z, img, entries, pos).chunks)
    ensures NamedFrom(ZipSplit(z, img, entries, pos).chunks, Names(entries))
    decreases |entries|, |img| - pos
  {
    if pos < |img| && entries != [] {
      if pos < entries[0].offset {
        var next := entries[0].offset;
        ZipSplitNames(z, img, entries, next);
        NormalFirst(NormalChunk(pos, next - pos), ZipSplit(z, img, entries, next).chunks, Names(entries));
      } else {
        var next := pos + entries[0].compressed;
        ZipSplitNames(z, img, entries[1..], next);
        NamedFirst(EntryChunk(z, img, entries[0]).chunks[0], ZipSplit(z, img, entries[1..], next).chunks,
                   entries[0].name, Names(entries[1..]), Names(entries));
      }
    }
  }

  function PrependAll(cs: seq<Chunk>, r: Outcome): (o: Outcome) { if r.Chunks? then Chunks(cs + r.chunks) else r }

  lemma PrependNext(cs: seq<Chunk>, c: Chunk, r: Outcome)
    ensures PrependAll(cs, Prepend(c, r)) == PrependAll(cs + [c], r)
  {
    if r.Chunks? { assert cs + ([c] + r.chunks) == (cs + [c]) + r.chunks; }
  }

  /** One round of the loop of `ReadZip`: the chunk of an entry, or the data in front of the next one. */
  method NextChunk(z: Zlib, img: seq<byte>, entries: seq<Entry>, pos: nat, next: nat)
      returns (c: Outcome, pos2: nat, next2: nat)
    requires pos < |img| && next <= |entries|
    ensures !c.Chunks? ==> ZipSplit(z, img, entries[next..], pos) == c
    ensures c.Chunks? ==>
              |c.chunks| == 1 && pos <= pos2 <= |img| && next <= next2 <= |entries| && (pos < pos2 || next < next2)
    ensures c.Chunks? ==>
              ZipSplit(z, img, entries[next..], pos) == Prepend(c.chunks[0], ZipSplit(z, img, entries[next2..], pos2))
  {
    ghost var rest := entries[next..];
    pos2, next2 := pos, next;
    if next < |entries| && pos == entries[next].offset {
      c := EntryChunk(z, img, entries[next]);
      assert rest[1..] == entries[next + 1..];
      if c.Chunks? { pos2, next2 := pos + entries[next].compressed, next + 1; }
    } else {
      var end := if next < |entries| then entries[next].offset else |img|;
      if end < pos || end > |img| { return Misplaced, pos, next; }
      c, pos2 := Chunks([NormalChunk(pos, end - pos)]), end;
      assert next == |entries| ==> c.chunks + [] == c.chunks;
    }
  }

  /**
   The loop of `ReadZip` behind the directory walk; the source archive gets a pseudo chunk for the whole file first.
   */
  method ReadZip(z: Zlib, img: seq<byte>, entries: seq<Entry>, includePseudoChunk: bool) returns (r: Outcome)
    ensures r == PrependAll(if includePseudoChunk then [NormalChunk(0, |img|)] else [], ZipSplit(z, img, entries, 0))
  {
    var cs := if includePseudoChunk then [NormalChunk(0, |img|)] else [];
    ghost var rest := ZipSplit(z, img, entries, 0);
    ghost var goal := PrependAll(cs, rest);
    var pos: nat, next: nat := 0, 0;
    assert entries[0..] == entries;
    while pos < |img|
      invariant next <= |entries| && pos <= |img| && rest == ZipSplit(z, img, entries[next..], pos)
      invariant PrependAll(cs, rest) == goal
      decreases |entries| - next, |img| - pos
    {
      var c, pos2, next2 := NextChunk(z, img, entries, pos, next);
      if !c.Chunks? { return c; }
      rest := ZipSplit(z, img, entries[next2..], pos2);
      PrependNext(cs, c.chunks[0], rest);
      cs, pos, next := cs + [c.chunks[0]], pos2, next2;
    }
    assert cs + [] == cs;
    r := Chunks(cs);
  }

  // Matching by name

  /** `FindChunkByName`: the first deflate chunk of that name. */
  method FindChunkByName(name: string, chunks: array<Chunk>, n: nat) returns (k: int)
    requires n <= chunks.Length
    ensures k == FirstAt(chunks[..n], name)
    ensures k >= 0 ==> k < n && Carries(chunks[k], name) && forall j :: 0 <= j < k ==> !Carries(chunks[j], name)
  {
    k := 0;
    ghost var ss := chunks[..n];
    while k < n
      invariant 0 <= k <= n && forall j :: 0 <= j < k ==> !Carries(ss[j], name)
    {
      if Carries(chunks[k], name) {
        assert ss[k] == chunks[k];
        assert HasSource(ss, name);
        return;
      }
      k := k + 1;
    }
    k := -1;
  }

  // The edits

  /** The source list: chunks of the source archive, the first standing for all of it. */
  predicate Sources(z: Zlib, simg: seq<byte>, ss: seq<Chunk>) {
    ss != [] && ss[0] == NormalChunk(0, |simg|) && forall k :: 0 <= k < |ss| ==> CutFrom(z, simg, ss[k])
  }

  /** What becomes of one deflate chunk of the target, and which source chunk changes with it. */
  function EditOne(z: Zlib, timg: seq<byte>, t: Chunk, simg: seq<byte>, ss: seq<Chunk>): (r: (Chunk, int))
    requires t.name.Some?
    ensures r.1 < |ss|
  {
    var j := FirstAt(ss, t.name.value);
    if j >= 0 && ImageEdit.StaysDeflate(z, timg, t, simg, ss[j]) then (Tried(z, timg, t), -1)
    else (ToNormal(Tried(z, timg, t)), j)
  }

  datatype Lists = Lists(ts: seq<Chunk>, ss: seq<Chunk>)

  /** Both lists after the edit loop, when it has come to chunk `i`. */
  function Edits(z: Zlib, timg: seq<byte>, ts: seq<Chunk>, simg: seq<byte>, ss: seq<Chunk>, i: nat): (r: Lists)
    requires Named(ts)
    decreases |ts| - i
  {
    if i >= |ts| then Lists(ts, ss)
    else if ts[i].kind == Normal then Edits(z, timg, ts, simg, ss, i + 1)
    else
      var (t, j) := EditOne(z, timg, ts[i], simg, ss);
      Edits(z, timg, ts[i := t], simg, Changed(ss, j), i + 1)
  }

  /** What the edits keep: both lists stand for their archives, and the first `i` chunks can be compressed again. */
  ghost predicate Sound(z: Zlib, timg: seq<byte>, ts: seq<Chunk>, simg: seq<byte>, ss: seq<Chunk>, i: nat) {
    && i <= |ts| && Tiles(z, timg, ts, 0, |timg|) && Named(ts) && Sources(z, simg, ss)
    && forall k :: 0 <= k < i && ts[k].kind == Deflate ==> Redone(z, timg, ts[k])
  }

  lemma SoundStep(z: Zlib, timg: seq<byte>, ts: seq<Chunk>, simg: seq<byte>, ss: seq<Chunk>, i: nat, t: Chunk, j: int)
    requires Sound(z, timg, ts, simg, ss, i) && i < |ts| && ts[i].kind == Deflate &&
             (t, j) == EditOne(z, timg, ts[i], simg, ss)
    ensures Sound(z, timg, ts[i := t], simg, Changed(ss, j), i + 1)
  {
    TilesMember(z, timg, ts, 0, |timg|, i);
    ToNormalCut(z, timg, Tried(z, timg, ts[i]));
    TilesUpdate(z, timg, ts, 0, |timg|, i, t);
    SourcesStep(z, simg, ss, j);
  }

  lemma SourcesStep(z: Zlib, simg: seq<byte>, ss: seq<Chunk>, j: int)
    requires Sources(z, simg, ss) && -1 <= j < |ss| && (j >= 0 ==> ss[j].kind == Deflate)
    ensures Sources(z, simg, Changed(ss, j))
  {
    if j >= 0 { ToNormalCut(z, simg, ss[j]); }
  }

  lemma ThinnedTwice(a: seq<Chunk>, b: seq<Chunk>, c: seq<Chunk>)
    requires Thinned(a, b) && Thinned(b, c)
    ensures Thinned(a, c)
  {
  }

  /** The edits keep both lists sound, and only change deflate chunks to normal ones. */
  lemma {:induction false} EditsSound(z: Zlib, timg: seq<byte>, ts: seq<Chunk>, simg: seq<byte>, ss: seq<Chunk>, i: nat)
    requires Sound(z, timg, ts, simg, ss, i)
    ensures var r := Edits(z, timg, ts, simg, ss, i);
            |r.ts| == |ts| && Sound(z, timg, r.ts, simg, r.ss, |ts|) && Thinned(ts, r.ts) && Thinned(ss, r.ss)
    decreases |ts| - i
  {
    if i < |ts| {
      if ts[i].kind == Normal {
        EditsSound(z, timg, ts, simg, ss, i + 1);
      } else {
        var (t, j) := EditOne(z, timg, ts[i], simg, ss);
        SoundStep(z, timg, ts, simg, ss, i, t, j);
        EditsSound(z, timg, ts[i := t], simg, Changed(ss, j), i + 1);
        var r := Edits(z, timg, ts, simg, ss, i);
        ThinnedTwice(ts, ts[i := t], r.ts);
        ThinnedTwice(ss, Changed(ss, j), r.ss);
      }
    }
  }

  /** One round of the edit loop. */
  method EditChunk(z: Zlib, timg: seq<byte>, c: Chunk, simg: seq<byte>, src: array<Chunk>, m: nat)
      returns (t: Chunk, j: int)
    requires c.kind == Deflate && c.name.Some? && CutFrom(z, timg, c) && m <= src.Length && Sources(z, simg, src[..m])
    ensures (t, j) == EditOne(z, timg, c, simg, src[..m])
  {
    ghost var ss := src[..m];
    var ok;
    ok, t := ReconstructDeflateChunk(z, timg, c);
    j := FindChunkByName(c.name.value, src, m);
    if j >= 0 { assert src[j] == ss[j] && CutFrom(z, simg, ss[j]); }
    if ok && j >= 0 && !AreChunksEqual(timg, t, simg, src[j]) {
      j := -1;
    } else {
      t := ToNormal(t);
    }
  }

  /** One round of the edit loop. */
  method EditEntry(z: Zlib, timg: seq<byte>, tgt: array<Chunk>, n: nat, simg: seq<byte>, src: array<Chunk>, m: nat,
                   i: nat, ghost ts: seq<Chunk>, ghost ss: seq<Chunk>)
      returns (ghost ts2: seq<Chunk>, ghost ss2: seq<Chunk>)
    requires tgt != src && i < n <= tgt.Length && m <= src.Length && ts == tgt[..n] && ss == src[..m]
    requires Sound(z, timg, ts, simg, ss, i)
    modifies tgt, src
    ensures ts2 == tgt[..n] && ss2 == src[..m] && Sound(z, timg, ts2, simg, ss2, i + 1)
    ensures Edits(z, timg, ts2, simg, ss2, i + 1) == Edits(z, timg, ts, simg, ss, i)
  {
    ts2, ss2 := ts, ss;
    assert tgt[i] == ts[i];
    if tgt[i].kind == Deflate {
      TilesMember(z, timg, ts, 0, |timg|, i);
      var t, j := EditChunk(z, timg, tgt[i], simg, src, m);
      SoundStep(z, timg, ts, simg, ss, i, t, j);
      if j >= 0 { src[j] := ToNormal(src[j]); }
      tgt[i] := t;
      ts2, ss2 := ts[i := t], Changed(ss, j);
    }
  }

  /** The edit loop of `main` in zip mode. */
  method EditZip(z: Zlib, timg: seq<byte>, tgt: array<Chunk>, n: nat, simg: seq<byte>, src: array<Chunk>, m: nat)
    requires tgt != src && n <= tgt.Length && m <= src.Length
    requires Sound(z, timg, tgt[..n], simg, src[..m], 0)
    modifies tgt, src
    ensures Lists(tgt[..n], src[..m]) == old(Edits(z, timg, tgt[..n], simg, src[..m], 0))
  {
    var i: nat := 0;
    ghost var ts, ss := tgt[..n], src[..m];
    ghost var goal := Edits(z, timg, ts, simg, ss, 0);
    while i < n
      invariant i <= n && ts == tgt[..n] && ss == src[..m] && Sound(z, timg, ts, simg, ss, i)
      invariant Edits(z, timg, ts, simg, ss, i) == goal
    {
      ts, ss := EditEntry(z, timg, tgt, n, simg, src, m, i, ts, ss);
      i := i + 1;
    }
  }

  // A target without two entries of one name

  /** A target chunk that can be compressed again and whose namesake in the source differs from it. */
  predicate StaysDeflate(z: Zlib, timg: seq<byte>, t: Chunk, simg: seq<byte>, ss: seq<Chunk>) {
    && t.kind == Deflate && t.name.Some?
    && var j := FirstAt(ss, t.name.value); j >= 0 && ImageEdit.StaysDeflate(z, timg, t, simg, ss[j])
  }

  /** The chunks of that name are the same in both lists. */
  predicate SameCarriers(ss0: seq<Chunk>, ss: seq<Chunk>, name: string) {
    |ss0| == |ss| && forall j :: 0 <= j < |ss| && (Carries(ss0[j], name) || Carries(ss[j], name)) ==> ss[j] == ss0[j]
  }

  lemma SameFirst(ss0: seq<Chunk>, ss: seq<Chunk>, name: string)
    requires SameCarriers(ss0, ss, name)
    ensures FirstAt(ss0, name) == FirstAt(ss, name)
    ensures FirstAt(ss, name) >= 0 ==> ss0[FirstAt(ss, name)] == ss[FirstAt(ss, name)]
  {
    var i, j := FirstAt(ss0, name), FirstAt(ss, name);
    if i >= 0 { assert Carries(ss[i], name); }
    if j >= 0 { assert Carries(ss0[j], name); }
  }

  /** Changing a chunk of one name leaves the chunks of another name alone. */
  lemma OthersStay(ss0: seq<Chunk>, ss: seq<Chunk>, j: int, name: string, other: string)
    requires SameCarriers(ss0, ss, name) && j < |ss| && (j >= 0 ==> Carries(ss[j], other)) && name != other
    ensures SameCarriers(ss0, Changed(ss, j), name)
  {
  }

  /**
   The first `i` chunks are edited as the first lists say, and the sources of all that are deflated are as they were.
   */
  ghost predicate Midway(z: Zlib, timg: seq<byte>, ts0: seq<Chunk>, ts: seq<Chunk>,
                         simg: seq<byte>, ss0: seq<Chunk>, ss: seq<Chunk>, i: nat) {
    && |ts0| == |ts| && i <= |ts| && DistinctNames(ts0) && Thinned(ts0, ts)
    && (forall k :: 0 <= k < |ts| ==> ts[k].name == ts0[k].name) && (forall k :: i <= k < |ts| ==> ts[k] == ts0[k])
    && (forall k :: 0 <= k < |ts| && ts[k].kind == Deflate ==> SameCarriers(ss0, ss, ts0[k].name.value))
    && (forall k :: 0 <= k < i ==> (ts[k].kind == Deflate <==> StaysDeflate(z, timg, ts0[k], simg, ss0)))
  }

  lemma MidwayStep(z: Zlib, timg: seq<byte>, ts0: seq<Chunk>, ts: seq<Chunk>,
                   simg: seq<byte>, ss0: seq<Chunk>, ss: seq<Chunk>, i: nat, t: Chunk, j: int)
    requires Midway(z, timg, ts0, ts, simg, ss0, ss, i) && i < |ts| && ts[i].kind == Deflate
    requires (t, j) == EditOne(z, timg, ts[i], simg, ss)
    ensures Midway(z, timg, ts0, ts[i := t], simg, ss0, Changed(ss, j), i + 1)
  {
    SameFirst(ss0, ss, ts[i].name.value);
    var ts2, ss2 := ts[i := t], Changed(ss, j);
    forall k | 0 <= k < |ts2| && ts2[k].kind == Deflate ensures SameCarriers(ss0, ss2, ts0[k].name.value) {
      if k != i { OthersStay(ss0, ss, j, ts0[k].name.value, ts0[i].name.value); }
    }
  }

  lemma {:induction false} EditsMidway(z: Zlib, timg: seq<byte>, ts0: seq<Chunk>, ts: seq<Chunk>,
                                       simg: seq<byte>, ss0: seq<Chunk>, ss: seq<Chunk>, i: nat)
    requires Midway(z, timg, ts0, ts, simg, ss0, ss, i) && i <= |ts| && Named(ts)
    ensures var r := Edits(z, timg, ts, simg, ss, i); Midway(z, timg, ts0, r.ts, simg, ss0, r.ss, |ts|)
    decreases |ts| - i
  {
    if i < |ts| {
      if ts[i].kind == Normal {
        EditsMidway(z, timg, ts0, ts, simg, ss0, ss, i + 1);
      } else {
        var (t, j) := EditOne(z, timg, ts[i], simg, ss);
        MidwayStep(z, timg, ts0, ts, simg, ss0, ss, i, t, j);
        EditsMidway(z, timg, ts0, ts[i := t], simg, ss0, Changed(ss, j), i + 1);
      }
    }
  }

  /** A deflate chunk of the target has lost its source. */
  predicate Orphaned(ts: seq<Chunk>, ss: seq<Chunk>) {
    exists k :: 0 <= k < |ts| && ts[k].kind == Deflate && (ts[k].name.None? || !HasSource(ss, ts[k].name.value))
  }

  /**
   With distinct names a chunk stays deflated exactly when the lists as they were read say so, and none is orphaned.
   */
  lemma DistinctDecided(z: Zlib, timg: seq<byte>, ts: seq<Chunk>, simg: seq<byte>, ss: seq<Chunk>)
    requires DistinctNames(ts)
    ensures var r := Edits(z, timg, ts, simg, ss, 0);
            && |r.ts| == |ts| && !Orphaned(r.ts, r.ss)
            && forall k :: 0 <= k < |ts| ==> (r.ts[k].kind == Deflate <==> StaysDeflate(z, timg, ts[k], simg, ss))
  {
    EditsMidway(z, timg, ts, ts, simg, ss, ss, 0);
    var r := Edits(z, timg, ts, simg, ss, 0);
    forall k | 0 <= k < |r.ts| && r.ts[k].kind == Deflate ensures HasSource(r.ss, r.ts[k].name.value) {
      SameFirst(ss, r.ss, ts[k].name.value);
    }
  }

  // When a source is lost

  function StayTest(z: Zlib, timg: seq<byte>, simg: seq<byte>): (stays: Test) {
    (t: Chunk, s: Chunk) => ImageEdit.StaysDeflate(z, timg, t, simg, s)
  }

  lemma {:induction false} NamesakesIn(cs: seq<Chunk>, name: string)
    ensures Namesakes(cs, name) != [] <==> HasSource(cs, name)
  {
    NamesakesFirst(cs, name);
  }

  /** One edit, as the chunks of one name see it. */
  lemma EditNamesakes(z: Zlib, timg: seq<byte>, c: Chunk, simg: seq<byte>, ss: seq<Chunk>, t: Chunk, j: int,
                      name: string)
    requires c.kind == Deflate && c.name.Some? && (t, j) == EditOne(z, timg, c, simg, ss)
    ensures var stays, mine := StayTest(z, timg, simg), Namesakes(ss, name);
            if c.name.value != name then Namesakes(Changed(ss, j), name) == mine && !Carries(t, name)
            else if mine == [] then Namesakes(Changed(ss, j), name) == [] && t.kind == Normal
            else if stays(c, mine[0]) then Namesakes(Changed(ss, j), name) == mine && Carries(t, name)
            else Namesakes(Changed(ss, j), name) == mine[1..] && t.kind == Normal
  {
    NamesakesFirst(ss, c.name.value);
    if j >= 0 { NamesakesChanged(ss, j, c.name.value, name); }
  }

  /** What all edits from chunk `i` on leave of the chunks of one name. */
  lemma {:induction false} EditsNamesakes(z: Zlib, timg: seq<byte>, ts: seq<Chunk>, simg: seq<byte>, ss: seq<Chunk>,
                                          i: nat, name: string)
    requires Named(ts) && i <= |ts|
    ensures var r, stays, mine := Edits(z, timg, ts, simg, ss, i), StayTest(z, timg, simg), Namesakes(ts[i..], name);
            && |r.ts| == |ts| && Namesakes(r.ss, name) == Unused(stays, mine, Namesakes(ss, name))
            && (Namesakes(r.ts[i..], name) != [] <==> Keeps(stays, mine, Namesakes(ss, name)))
            && r.ts[..i] == ts[..i]
    decreases |ts| - i
  {
    if i < |ts| {
      var r, next, rest := Edits(z, timg, ts, simg, ss, i), ts, ss;
      NamesakesFrom(ts, i, name);
      if ts[i].kind == Deflate {
        var (t, j) := EditOne(z, timg, ts[i], simg, ss);
        EditNamesakes(z, timg, ts[i], simg, ss, t, j, name);
        next, rest := ts[i := t], Changed(ss, j);
        assert next[i + 1..] == ts[i + 1..];
      }
      EditsNamesakes(z, timg, next, simg, rest, i + 1, name);
      SameFront(r.ts, next, i);
      NamesakesFrom(r.ts, i, name);
    }
  }

  lemma SameFront(rs: seq<Chunk>, ts: seq<Chunk>, i: nat)
    requires i < |rs| == |ts| && rs[..i + 1] == ts[..i + 1]
    ensures rs[i] == ts[i] && rs[..i] == ts[..i]
  {
    assert rs[i] == rs[..i + 1][i] && ts[i] == ts[..i + 1][i];
    assert rs[..i] == rs[..i + 1][..i] && ts[..i] == ts[..i + 1][..i];
  }

  /** Some name has all its sources used up, although a target chunk of that name stays deflated. */
  ghost predicate LosesSource(z: Zlib, timg: seq<byte>, ts: seq<Chunk>, simg: seq<byte>, ss: seq<Chunk>) {
    exists name :: LosesLast(StayTest(z, timg, simg), Namesakes(ts, name), Namesakes(ss, name))
  }

  /** A target chunk is left without a source exactly when the chunks as they were read say so. */
  lemma OrphanedIff(z: Zlib, timg: seq<byte>, ts: seq<Chunk>, simg: seq<byte>, ss: seq<Chunk>)
    requires Named(ts)
    ensures var r := Edits(z, timg, ts, simg, ss, 0);
            Orphaned(r.ts, r.ss) <==> LosesSource(z, timg, ts, simg, ss)
  {
    var r, stays := Edits(z, timg, ts, simg, ss, 0), StayTest(z, timg, simg);
    forall name
      ensures HasSource(r.ts, name) && !HasSource(r.ss, name) <==>
                LosesLast(stays, Namesakes(ts, name), Namesakes(ss, name))
    {
      EditsNamesakes(z, timg, ts, simg, ss, 0, name);
      assert ts[0..] == ts && r.ts[0..] == r.ts;
      NamesakesIn(r.ts, name);
      NamesakesIn(r.ss, name);
      LosesLastIff(stays, Namesakes(ts, name), Namesakes(ss, name));
    }
    EditsNamed(z, timg, ts, simg, ss, 0);
    OrphanedByName(r.ts, r.ss);
  }

  lemma OrphanedByName(ts: seq<Chunk>, ss: seq<Chunk>)
    requires Named(ts)
    ensures Orphaned(ts, ss) <==> exists name :: HasSource(ts, name) && !HasSource(ss, name)
  {
    if Orphaned(ts, ss) {
      var k :| 0 <= k < |ts| && ts[k].kind == Deflate && (ts[k].name.None? || !HasSource(ss, ts[k].name.value));
      assert Carries(ts[k], ts[k].name.value);
    }
  }

  lemma {:induction false} EditsNamed(z: Zlib, timg: seq<byte>, ts: seq<Chunk>, simg: seq<byte>, ss: seq<Chunk>, i: nat)
    requires Named(ts)
    ensures Named(Edits(z, timg, ts, simg, ss, i).ts)
    decreases |ts| - i
  {
    if i < |ts| {
      if ts[i].kind == Normal {
        EditsNamed(z, timg, ts, simg, ss, i + 1);
      } else {
        var (t, j) := EditOne(z, timg, ts[i], simg, ss);
        EditsNamed(z, timg, ts[i := t], simg, Changed(ss, j), i + 1);
      }
    }
  }

  /** No chunk loses its source if no two target chunks have one name. */
  lemma DistinctKeepSource(z: Zlib, timg: seq<byte>, ts: seq<Chunk>, simg: seq<byte>, ss: seq<Chunk>)
    requires DistinctNames(ts)
    ensures !LosesSource(z, timg, ts, simg, ss)
  {
    OrphanedIff(z, timg, ts, simg, ss);
    DistinctDecided(z, timg, ts, simg, ss);
  }

  // Patching

  ghost predicate Matched(z: Zlib, timg: seq<byte>, ts: seq<Chunk>, simg: seq<byte>, ss: seq<Chunk>) {
    && Tiles(z, timg, ts, 0, |timg|) && Named(ts) && Sources(z, simg, ss)
    && forall k :: 0 <= k < |ts| && ts[k].kind == Deflate ==> Redone(z, timg, ts[k])
  }

  /** Merging the target list. */
  lemma MergedMatched(z: Zlib, timg: seq<byte>, ts: seq<Chunk>, simg: seq<byte>, ss: seq<Chunk>)
    requires Sound(z, timg, ts, simg, ss, |ts|)
    ensures Matched(z, timg, Merged(ts), simg, ss)
  {
    MergedTiles(z, timg, ts, 0, |timg|);
    MergedDeflates((c: Chunk) => Redone(z, timg, c) && c.name.Some?, ts);
  }

  lemma MergedOrphaned(ts: seq<Chunk>, ss: seq<Chunk>)
    ensures Orphaned(Merged(ts), ss) <==> Orphaned(ts, ss)
  {
    if Orphaned(ts, ss) {
      var k :| 0 <= k < |ts| && ts[k].kind == Deflate && (ts[k].name.None? || !HasSource(ss, ts[k].name.value));
      MergedKeeps(ts, ts[k]);
    } else {
      MergedDeflates((c: Chunk) => c.name.Some? && HasSource(ss, c.name.value), ts);
    }
  }

  /** How the patch loop ends; `Orphan` if it comes to a deflate chunk without a source. */
  datatype End = Done | Orphan | BlockLimit

  /** The patch loop of `main` in zip mode: a deflate chunk from its namesake, a normal chunk from the whole source. */
  method MakePieces(bz: BsdiffFormat.Bzip2, z: Zlib, simg: seq<byte>, src: array<Chunk>, m: nat, timg: seq<byte>,
                    ts: seq<Chunk>)
      returns (end: End, ps: seq<D.Piece>)
    requires m <= src.Length && bz.Lawful() && Matched(z, timg, ts, simg, src[..m]) &&
             InMemory(simg, src[..m], timg, ts, [])
    ensures end.Done? ==>
              D.AllGive(D.GivesRelation(bz, z, simg, []), ps, Parts(z, timg, ts, 0, |timg|)) &&
              AllSized(bz, ts, |timg|, ps)
    ensures end.Done? ==> !Orphaned(ts, src[..m])
    ensures end.Orphan? ==> Orphaned(ts, src[..m])
    ensures end.BlockLimit? ==> SomeTooLong(bz, ts)
  {
    ghost var ss := src[..m];
    ghost var g, outs := D.GivesRelation(bz, z, simg, []), Parts(z, timg, ts, 0, |timg|);
    ps := [];
    while |ps| < |ts|
      invariant |ps| <= |ts| && GiveSoFar(g, ps, outs) && AllSized(bz, ts, |timg|, ps) && !Orphaned(ts[..|ps|], ss)
      decreases |ts| - |ps|
    {
      var i := |ps|;
      PartsAt(z, timg, ts, 0, |timg|, i);
      var found, s := SourceFor(z, simg, src, m, timg, ts[i]);
      if !found { return Orphan, ps; }
      InMemoryAt(simg, ss, timg, ts, s, i);
      var p := PatchChunk(bz, z, simg, s, timg, ts[i], [], i);
      if p.None? { return BlockLimit, ps; }
      OnePieceMore(g, bz, ts, |timg|, ps, outs, p.value);
      OneSourceMore(ts, ss, i);
      ps := ps + [p.value];
    }
    assert ts[..|ps|] == ts;
    end := Done;
  }

  lemma InMemoryAt(simg: seq<byte>, ss: seq<Chunk>, timg: seq<byte>, ts: seq<Chunk>, s: Chunk, i: nat)
    requires InMemory(simg, ss, timg, ts, []) && s in ss && i < |ts| && s.kind == ts[i].kind
    ensures ts[i].kind == Deflate ==> |ts[i].inflated| < BsdiffFormat.Limit && |s.inflated| < BsdiffFormat.Limit
  {
  }

  lemma OneSourceMore(ts: seq<Chunk>, ss: seq<Chunk>, i: nat)
    requires i < |ts| && !Orphaned(ts[..i], ss) &&
             (ts[i].kind == Deflate ==> ts[i].name.Some? && HasSource(ss, ts[i].name.value))
    ensures !Orphaned(ts[..i + 1], ss)
  {
    assert ts[..i + 1] == ts[..i] + [ts[i]];
  }

  /**
   Which source chunk a target chunk is patched from. A deflate chunk without a namesake would be patched from the whole
   source, whose deflate length was never set.
   */
  method SourceFor(z: Zlib, simg: seq<byte>, src: array<Chunk>, m: nat, timg: seq<byte>, t: Chunk)
      returns (found: bool, s: Chunk)
    requires m <= src.Length && Sources(z, simg, src[..m]) && (t.kind == Deflate ==> t.name.Some?)
    ensures found <==> (t.kind == Deflate ==> HasSource(src[..m], t.name.value))
    ensures found ==> CutFrom(z, simg, s) && s.kind == t.kind && s in src[..m]
    ensures found ==> if t.kind == Deflate then s.name == t.name else Data(simg, s) == simg
  {
    ghost var ss := src[..m];
    assert simg[0..|simg|] == simg;
    found, s := true, src[0];
    assert s == ss[0];
    if t.kind == Deflate {
      var k := FindChunkByName(t.name.value, src, m);
      if k < 0 { return false, s; }
      s := src[k];
      assert s == ss[k];
    }
  }

  // The whole run

  /** What a run in zip mode comes to. */
  datatype Run = Unreadable | NoSource | TooLong | Written(pieces: seq<D.Piece>, file: seq<byte>)

  /** The chunks of the source archive, the whole of it first. */
  function SourceChunks(z: Zlib, img: seq<byte>, entries: seq<Entry>): (cs: seq<Chunk>)
    requires ZipSplit(z, img, entries, 0).Chunks?
  {
    [NormalChunk(0, |img|)] + ZipSplit(z, img, entries, 0).chunks
  }

  lemma ChunksRead(z: Zlib, simg: seq<byte>, ses: seq<Entry>, timg: seq<byte>, tes: seq<Entry>)
    requires ZipSplit(z, simg, ses, 0).Chunks? && ZipSplit(z, timg, tes, 0).Chunks?
    ensures Sound(z, timg, ZipSplit(z, timg, tes, 0).chunks, simg, SourceChunks(z, simg, ses), 0)
  {
    var cs := ZipSplit(z, simg, ses, 0).chunks;
    ZipSplitTiles(z, simg, ses, 0);
    forall k | 0 <= k < |cs| ensures CutFrom(z, simg, cs[k]) { TilesMember(z, simg, cs, 0, |simg|, k); }
    ZipSplitTiles(z, timg, tes, 0);
    ZipSplitNamed(z, timg, tes, 0);
  }

  /** A modest compressor and archives of moderate size. */
  ghost predicate Usual(bz: BsdiffFormat.Bzip2, simg: seq<byte>, ses: seq<Entry>, timg: seq<byte>, tes: seq<Entry>) {
    && bz.Modest() && |simg| < Small && Fits4(|timg|) && |tes| < 0x4000_0000
    && Uncompressed(ses) < Small && Uncompressed(tes) < Small
  }

  lemma UsualIsModerate(bz: BsdiffFormat.Bzip2, z: Zlib, simg: seq<byte>, ses: seq<Entry>, timg: seq<byte>,
                        tes: seq<Entry>)
    requires ZipSplit(z, simg, ses, 0).Chunks? && ZipSplit(z, timg, tes, 0).Chunks?
    ensures Usual(bz, simg, ses, timg, tes) ==>
              Moderate(bz, simg, SourceChunks(z, simg, ses), timg, ZipSplit(z, timg, tes, 0).chunks, [])
    ensures |ZipSplit(z, timg, tes, 0).chunks| <= 2 * |tes| + 1
  {
    ZipSplitBulk(z, simg, ses, 0);
    ZipSplitBulk(z, timg, tes, 0);
    BulkConcat([NormalChunk(0, |simg|)], ZipSplit(z, simg, ses, 0).chunks);
  }

  /** For two archives that can be read: some chunk of the target loses its source. */
  ghost predicate TwinsLose(z: Zlib, simg: seq<byte>, ses: seq<Entry>, timg: seq<byte>, tes: seq<Entry>)
    requires ZipSplit(z, simg, ses, 0).Chunks? && ZipSplit(z, timg, tes, 0).Chunks?
  {
    LosesSource(z, timg, ZipSplit(z, timg, tes, 0).chunks, simg, SourceChunks(z, simg, ses))
  }

  /** That takes two entries of one name in the target. */
  lemma DistinctEntriesKeep(z: Zlib, simg: seq<byte>, ses: seq<Entry>, timg: seq<byte>, tes: seq<Entry>)
    requires ZipSplit(z, simg, ses, 0).Chunks? && ZipSplit(z, timg, tes, 0).Chunks? && DistinctEntries(tes)
    ensures !TwinsLose(z, simg, ses, timg, tes)
  {
    ZipSplitNames(z, timg, tes, 0);
    DistinctKeepSource(z, timg, ZipSplit(z, timg, tes, 0).chunks, simg, SourceChunks(z, simg, ses));
  }

  /**
   `imgdiff` in zip mode. What is written makes the target. For archives of moderate size and a modest compressor a file
   is written exactly when both archives can be read and no target chunk loses its source, which takes two entries of
   one name.
   */
  method DiffZips(bz: BsdiffFormat.Bzip2, z: Zlib, simg: seq<byte>, ses: seq<Entry>, timg: seq<byte>, tes: seq<Entry>)
      returns (r: Run)
    requires bz.Lawful()
    ensures r.Unreadable? <==> !ZipSplit(z, simg, ses, 0).Chunks? || !ZipSplit(z, timg, tes, 0).Chunks?
    ensures r.NoSource? ==> TwinsLose(z, simg, ses, timg, tes) && !DistinctEntries(tes)
    ensures r.TooLong? ==> OverLimit(bz, z, simg, timg, []) && !Usual(bz, simg, ses, timg, tes)
    ensures r.Written? ==>
              !TwinsLose(z, simg, ses, timg, tes) && r.file == D.FileOf(r.pieces) && |r.pieces| <= 2 * |tes| + 1
    ensures r.Written? ==> Makes(bz, z, simg, [], r.pieces, timg)
    ensures r.Written? && Usual(bz, simg, ses, timg, tes) ==> Rebuilt(bz, z, simg, r.file, []) == Some(timg)
  {
    var so := ReadZip(z, simg, ses, true);
    if !so.Chunks? { return Run.Unreadable; }
    var to := ReadZip(z, timg, tes, false);
    if !to.Chunks? { return Run.Unreadable; }
    assert to.chunks == ZipSplit(z, timg, tes, 0).chunks;
    ChunksRead(z, simg, ses, timg, tes);
    UsualIsModerate(bz, z, simg, ses, timg, tes);
    if DistinctEntries(tes) { DistinctEntriesKeep(z, simg, ses, timg, tes); }
    r := DiffChunks(bz, z, simg, so.chunks, timg, to.chunks);
  }

  /** How a run ends on lists that were read. */
  ghost predicate Patched(bz: BsdiffFormat.Bzip2, z: Zlib, simg: seq<byte>, timg: seq<byte>, moderate: bool,
                          orphaned: bool, r: Run) {
    && !r.Unreadable? && (r.NoSource? ==> orphaned) && (r.TooLong? ==> OverLimit(bz, z, simg, timg, []) && !moderate)
    && (r.Written? ==> !orphaned && r.file == D.FileOf(r.pieces) && Makes(bz, z, simg, [], r.pieces, timg))
    && (r.Written? && moderate ==> Rebuilt(bz, z, simg, r.file, []) == Some(timg))
  }

  /** Edits, merges, patches and writes. */
  method DiffChunks(bz: BsdiffFormat.Bzip2, z: Zlib, simg: seq<byte>, ss0: seq<Chunk>, timg: seq<byte>, ts0: seq<Chunk>)
      returns (r: Run)
    requires bz.Lawful() && Sound(z, timg, ts0, simg, ss0, 0)
    ensures Patched(bz, z, simg, timg, Moderate(bz, simg, ss0, timg, ts0, []), LosesSource(z, timg, ts0, simg, ss0), r)
    ensures r.Written? ==> |r.pieces| <= |ts0|
  {
    var src := new Chunk[|ss0|](i requires 0 <= i < |ss0| => ss0[i]);
    var tgt := new Chunk[|ts0|](i requires 0 <= i < |ts0| => ts0[i]);
    assert src[..src.Length] == ss0 && tgt[..tgt.Length] == ts0;
    EditsSound(z, timg, ts0, simg, ss0, 0);
    OrphanedIff(z, timg, ts0, simg, ss0);
    EditZip(z, timg, tgt, tgt.Length, simg, src, src.Length);
    ghost var ts, ss := tgt[..tgt.Length], src[..src.Length];
    MergedMatched(z, timg, ts, simg, ss);
    MergedOrphaned(ts, ss);
    MergedStaysModerate(bz, simg, ss0, ss, timg, ts0, ts);
    var n := MergeAdjacentNormalChunks(tgt, tgt.Length);
    r := PatchChunks(bz, z, simg, src, src.Length, timg, tgt[..n]);
  }

  lemma MergedStaysModerate(bz: BsdiffFormat.Bzip2, simg: seq<byte>, ss0: seq<Chunk>, ss: seq<Chunk>, timg: seq<byte>,
                            ts0: seq<Chunk>, ts: seq<Chunk>)
    requires Thinned(ss0, ss) && Thinned(ts0, ts)
    ensures Moderate(bz, simg, ss0, timg, ts0, []) ==> Moderate(bz, simg, ss, timg, Merged(ts), [])
  {
    BulkThinned(ss0, ss);
    BulkThinned(ts0, ts);
    BulkMerged(ts);
  }

  /** Patches the chunks and puts the file together. */
  method PatchChunks(bz: BsdiffFormat.Bzip2, z: Zlib, simg: seq<byte>, src: array<Chunk>, m: nat, timg: seq<byte>,
                     ts: seq<Chunk>)
      returns (r: Run)
    requires m <= src.Length && bz.Lawful() && Matched(z, timg, ts, simg, src[..m])
    ensures Patched(bz, z, simg, timg, Moderate(bz, simg, src[..m], timg, ts, []), Orphaned(ts, src[..m]), r)
    ensures r.Written? ==> |r.pieces| == |ts|
  {
    ghost var ss := src[..m];
    ghost var moderate := Moderate(bz, simg, ss, timg, ts, []);
    forall k | 0 <= k < |ts| ensures CutFrom(z, timg, ts[k]) { TilesMember(z, timg, ts, 0, |timg|, k); }
    if moderate { ModerateInMemory(bz, z, simg, ss, timg, ts, []); }
    if !InMemory(simg, src[..m], timg, ts, []) {
      NotInMemory(bz, z, simg, ss, timg, ts, []);
      return Run.TooLong;
    }
    var end, ps := MakePieces(bz, z, simg, src, m, timg, ts);
    if end.Orphan? { return Run.NoSource; }
    if end.BlockLimit? {
      BlocksTooLong(bz, z, simg, timg, ts, [], moderate);
      return Run.TooLong;
    }
    PiecesDone(bz, z, simg, ss, timg, ts, [], ps);
    var file := D.WritePatch(ps);
    r := Run.Written(ps, file);
  }
}
