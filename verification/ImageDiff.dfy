/** `imgdiff`: pairs the chunks of a source and a target, patches each pair, and writes one patch file. */
module ImageDiff {
  import opened Bytes
  import BsdiffFormat
  import opened ImageFormat
  import opened ImageChunks
  import opened ImagePatch

  // What is to be written for each chunk

  datatype Piece =
    | NormalPiece(sourceStart: nat, sourceLen: nat, diff: seq<byte>)
    | DeflatePiece(sourceStart: nat, sourceLen: nat, expandedLen: nat, targetLen: nat, params: Params, diff: seq<byte>)
    | RawPiece(data: seq<byte>)

  /** The bytes appended behind the header for a piece. */
  function Appended(p: Piece): (b: seq<byte>) { if p.RawPiece? then [] else p.diff }

  function RecordOf(p: Piece, offset: nat): (r: Record) {
    match p
    case NormalPiece(s, l, _) => NormalRecord(s, l, offset)
    case DeflatePiece(s, l, e, t, params, _) => DeflateRecord(s, l, offset, e, t, params)
    case RawPiece(d) => RawRecord(d)
  }

  /** The header records; `offset` is where the first bsdiff patch will stand. */
  function RecordsOf(ps: seq<Piece>, offset: nat): (rs: seq<Record>)
    ensures |rs| == |ps|
  {
    if ps == [] then [] else [RecordOf(ps[0], offset)] + RecordsOf(ps[1..], offset + |Appended(ps[0])|)
  }

  function PatchesOf(ps: seq<Piece>): (b: seq<byte>) {
    if ps == [] then [] else Appended(ps[0]) + PatchesOf(ps[1..])
  }

  /** The size loop of `main`. */
  function HeaderSize(ps: seq<Piece>): (n: nat) {
    if ps == [] then 0
    else (match ps[0]
          case NormalPiece(_, _, _) => 4 + 8 * 3
          case DeflatePiece(_, _, _, _, _, _) => 4 + 8 * 5 + 4 * 5
          case RawPiece(d) => 4 + 4 + |d|) + HeaderSize(ps[1..])
  }

  /** The patch file: header records with absolute offsets, then the bsdiff patches. */
  function FileOf(ps: seq<Piece>): (file: seq<byte>) {
    WriteHeader(RecordsOf(ps, 12 + HeaderSize(ps))) + PatchesOf(ps)
  }

  lemma {:induction false} HeaderSizeIsRecordsSize(ps: seq<Piece>, offset: nat)
    ensures HeaderSize(ps) == RecordsSize(RecordsOf(ps, offset))
  {
    if ps != [] {
      var rs := RecordsOf(ps, offset);
      assert rs[1..] == RecordsOf(ps[1..], offset + |Appended(ps[0])|);
      HeaderSizeIsRecordsSize(ps[1..], offset + |Appended(ps[0])|);
    }
  }

  // The loops of `main` that write the file

  /** The size loop: the header size is known before anything is written. */
  method TotalHeaderSize(ps: seq<Piece>) returns (n: nat)
    ensures n == 12 + HeaderSize(ps)
  {
    n := 12;
    var i: nat := 0;
    while i < |ps|
      invariant i <= |ps| && n + HeaderSize(ps[i..]) == 12 + HeaderSize(ps)
    {
      assert ps[i..][1..] == ps[i + 1..];
      n := n + 4;
      match ps[i] {
        case NormalPiece(_, _, _) => n := n + 8 * 3;
        case DeflatePiece(_, _, _, _, _, _) => n := n + 8 * 5 + 4 * 5;
        case RawPiece(d) => n := n + 4 + |d|;
      }
      i := i + 1;
    }
  }

  /** The header loop: every record gets the current offset, which then moves past the bsdiff patch. */
  method WriteRecordsOf(ps: seq<Piece>, start: nat) returns (b: seq<byte>)
    ensures b == WriteRecords(RecordsOf(ps, start))
  {
    b := [];
    var i: nat, offset: nat := 0, start;
    while i < |ps|
      invariant i <= |ps| && b + WriteRecords(RecordsOf(ps[i..], offset)) == WriteRecords(RecordsOf(ps, start))
    {
      var next := offset + |Appended(ps[i])|;
      var record := WriteRecord(RecordOf(ps[i], offset));
      RecordsStep(ps, i, offset, next, b, record);
      b, offset, i := b + record, next, i + 1;
    }
  }

  lemma RecordsStep(ps: seq<Piece>, i: nat, offset: nat, next: nat, b: seq<byte>, record: seq<byte>)
    requires i < |ps| && next == offset + |Appended(ps[i])| && record == WriteRecord(RecordOf(ps[i], offset))
    ensures b + WriteRecords(RecordsOf(ps[i..], offset)) == (b + record) + WriteRecords(RecordsOf(ps[i + 1..], next))
  {
    var rs := RecordsOf(ps[i..], offset);
    assert ps[i..][1..] == ps[i + 1..];
    assert rs[0] == RecordOf(ps[i], offset) && rs[1..] == RecordsOf(ps[i + 1..], next);
    assert WriteRecords(rs) == record + WriteRecords(rs[1..]);
  }

  /** The last loop: the bsdiff patches in order. */
  method WritePatches(ps: seq<Piece>) returns (b: seq<byte>)
    ensures b == PatchesOf(ps)
  {
    b := [];
    var i: nat := 0;
    ghost var goal := PatchesOf(ps);
    ghost var rest := goal;
    assert ps[0..] == ps;
    while i < |ps|
      invariant i <= |ps| && rest == PatchesOf(ps[i..]) && b + rest == goal
    {
      rest := PatchesNext(ps, i, b, rest);
      if !ps[i].RawPiece? { b := b + ps[i].diff; }
      i := i + 1;
    }
  }

  lemma PatchesNext(ps: seq<Piece>, i: nat, b: seq<byte>, rest: seq<byte>) returns (rest2: seq<byte>)
    requires i < |ps| && rest == PatchesOf(ps[i..])
    ensures rest2 == PatchesOf(ps[i + 1..]) && b + rest == b + Appended(ps[i]) + rest2
  {
    rest2 := PatchesOf(ps[i + 1..]);
    assert ps[i..][1..] == ps[i + 1..];
  }

  /** Writing the patch file. */
  method WritePatch(ps: seq<Piece>) returns (file: seq<byte>)
    ensures file == FileOf(ps)
  {
    var size := TotalHeaderSize(ps);
    var records := WriteRecordsOf(ps, size);
    var patches := WritePatches(ps);
    var head := Magic + Write4(|ps|) + records;
    assert head == WriteHeader(RecordsOf(ps, size));
    file := head + patches;
  }

  // What makes a piece right

  /** Wherever `diff` stands in a patch file, it makes `result` out of `source`. */
  ghost predicate Rebuilds(bz: BsdiffFormat.Bzip2, source: seq<byte>, diff: seq<byte>, result: seq<byte>) {
    |diff| >= 32 && forall pre, tail :: BsdiffFormat.Apply(bz, source, pre + diff + tail, |pre|) == Some(result)
  }

  /** The piece gives the bytes `out` of the target. */
  ghost predicate Gives(bz: BsdiffFormat.Bzip2, z: Zlib, old_: seq<byte>, bonus: seq<byte>, p: Piece, out: seq<byte>) {
    match p
    case RawPiece(d) => d == out
    case NormalPiece(s, l, diff) => s + l <= |old_| && Rebuilds(bz, old_[s..s + l], diff, out)
    case DeflatePiece(s, l, e, _, params, diff) =>
      && s + l <= |old_| && z.inflate(old_[s..s + l]).Some?
      && var data := z.inflate(old_[s..s + l]).value.0;
      && |data| + |bonus| == e
      && exists t :: Rebuilds(bz, data + bonus, diff, t) && z.deflate(params, t) == out
  }

  /** A relation between the index of a chunk, its piece, and a part of the target. */
  type Relation = (nat, Piece, seq<byte>) -> bool

  ghost function GivesRelation(bz: BsdiffFormat.Bzip2, z: Zlib, old_: seq<byte>, bonus: seq<byte>): (g: Relation) {
    (i: nat, p: Piece, out: seq<byte>) => Gives(bz, z, old_, BonusFor(bonus, i), p, out)
  }

  /** The pieces are related to the parts `outs`, one by one. */
  ghost predicate AllGive(g: Relation, ps: seq<Piece>, outs: seq<seq<byte>>) {
    |outs| == |ps| && forall k :: 0 <= k < |ps| ==> g(k, ps[k], outs[k])
  }

  /** With its bsdiff patch at `offset` of the patch file, the piece gives `out`. */
  ghost predicate GivesAt(apply: Patcher, z: Zlib, old_: seq<byte>, patch: seq<byte>, bonus: seq<byte>, p: Piece,
                          offset: nat, out: seq<byte>) {
    match p
    case RawPiece(d) => d == out
    case NormalPiece(s, l, _) =>
      InImage(old_, s, l) && InPatch(patch, offset) && apply(old_[s..s + l], offset) == Some(out)
    case DeflatePiece(s, l, e, _, params, _) =>
      && InImage(old_, s, l) && InPatch(patch, offset) && Expanded(z, old_[s..s + l], bonus, e).Some?
      && var t := apply(Expanded(z, old_[s..s + l], bonus, e).value, offset);
      t.Some? && z.deflate(params, t.value) == out
  }

  ghost function GivesAtRelation(apply: Patcher, z: Zlib, old_: seq<byte>, patch: seq<byte>,
                                 bonus: seq<byte>): (g: (nat, nat, Piece, seq<byte>) -> bool) {
    (offset: nat, i: nat, p: Piece, out: seq<byte>) =>
      GivesAt(apply, z, old_, patch, BonusFor(bonus, i), p, offset, out)
  }

  /** The pieces, the first of which is the `i`-th, are related to `outs`, each with the offset of its bsdiff patch. */
  ghost predicate AllGiveAt(g: (nat, nat, Piece, seq<byte>) -> bool, ps: seq<Piece>, outs: seq<seq<byte>>, offset: nat,
                            i: nat) {
    |outs| == |ps| &&
    (ps == [] || (g(offset, i, ps[0], outs[0]) && AllGiveAt(g, ps[1..], outs[1..], offset + |Appended(ps[0])|, i + 1)))
  }

  lemma {:induction false} RecordsGive(f: Producer, g: (nat, nat, Piece, seq<byte>) -> bool, ps: seq<Piece>,
                                       outs: seq<seq<byte>>, offset: nat, i: nat)
    requires AllGiveAt(g, ps, outs, offset, i)
    requires forall o, j, p, out :: g(o, j, p, out) ==> f(j, RecordOf(p, o)) == Some(out)
    ensures Outputs(f, RecordsOf(ps, offset), i) == Some(Concat(outs))
    decreases |ps|
  {
    if ps != [] {
      var rs, next := RecordsOf(ps, offset), offset + |Appended(ps[0])|;
      RecordsGive(f, g, ps[1..], outs[1..], next, i + 1);
      assert rs[0] == RecordOf(ps[0], offset) && rs[1..] == RecordsOf(ps[1..], next);
      OutputsCons(f, rs, i, outs[0], Concat(outs[1..]));
    }
  }

  lemma OutputsCons(f: Producer, rs: seq<Record>, i: nat, a: seq<byte>, b: seq<byte>)
    requires rs != [] && f(i, rs[0]) == Some(a) && Outputs(f, rs[1..], i + 1) == Some(b)
    ensures Outputs(f, rs, i) == Some(a + b)
  {
  }

  /** `apply` does what any bsdiff patch that stands in `patch` promises. */
  ghost predicate Finds(apply: Patcher, bz: BsdiffFormat.Bzip2, patch: seq<byte>) {
    forall source, diff, result, offset: nat :: Rebuilds(bz, source, diff, result) && StandsAt(patch, offset, diff) ==>
      apply(source, offset) == Some(result) && InPatch(patch, offset)
  }

  lemma PatcherFinds(bz: BsdiffFormat.Bzip2, patch: seq<byte>)
    ensures Finds(BsdiffPatcher(bz, patch), bz, patch)
  {
    forall source, diff, result, offset: nat | Rebuilds(bz, source, diff, result) && StandsAt(patch, offset, diff)
      ensures BsdiffPatcher(bz, patch)(source, offset) == Some(result) && InPatch(patch, offset)
    {
      FoundAt(bz, patch, source, diff, result, offset, patch[..offset], patch[offset + |diff|..]);
    }
  }

  lemma FoundAt(bz: BsdiffFormat.Bzip2, patch: seq<byte>, source: seq<byte>, diff: seq<byte>, result: seq<byte>,
                offset: nat, pre: seq<byte>, tail: seq<byte>)
    requires Rebuilds(bz, source, diff, result) && StandsAt(patch, offset, diff)
    requires pre == patch[..offset] && tail == patch[offset + |diff|..]
    ensures BsdiffPatcher(bz, patch)(source, offset) == Some(result) && InPatch(patch, offset)
  {
    assert patch == pre + diff + tail;
    assert BsdiffFormat.Apply(bz, source, pre + diff + tail, |pre|) == Some(result);
  }

  lemma NormalGives(apply: Patcher, z: Zlib, old_: seq<byte>, patch: seq<byte>, bonus: seq<byte>, p: Piece, offset: nat,
                    out: seq<byte>)
    requires p.NormalPiece? && InImage(old_, p.sourceStart, p.sourceLen) && InPatch(patch, offset)
    requires apply(old_[p.sourceStart..p.sourceStart + p.sourceLen], offset) == Some(out)
    ensures GivesAt(apply, z, old_, patch, bonus, p, offset, out)
  {
  }

  lemma DeflateGives(apply: Patcher, z: Zlib, old_: seq<byte>, patch: seq<byte>, bonus: seq<byte>, p: Piece,
                     offset: nat, out: seq<byte>, data: seq<byte>, t: seq<byte>)
    requires p.DeflatePiece? && InImage(old_, p.sourceStart, p.sourceLen) && InPatch(patch, offset)
    requires Inflates(z, old_[p.sourceStart..p.sourceStart + p.sourceLen], data) && |data| + |bonus| == p.expandedLen
    requires apply(data + bonus, offset) == Some(t) && z.deflate(p.params, t) == out
    ensures GivesAt(apply, z, old_, patch, bonus, p, offset, out)
  {
  }

  /** A piece gives its part of the target wherever its bsdiff patch stands. */
  lemma GivesWhereItStands(apply: Patcher, bz: BsdiffFormat.Bzip2, z: Zlib, old_: seq<byte>, bonus: seq<byte>, p: Piece,
                           out: seq<byte>, patch: seq<byte>, offset: nat)
    requires Gives(bz, z, old_, bonus, p, out) && StandsAt(patch, offset, Appended(p)) && Finds(apply, bz, patch)
    ensures GivesAt(apply, z, old_, patch, bonus, p, offset, out)
  {
    match p
    case RawPiece(_) =>
    case NormalPiece(s, l, diff) => NormalGives(apply, z, old_, patch, bonus, p, offset, out);
    case DeflatePiece(s, l, e, _, params, diff) =>
      var data := z.inflate(old_[s..s + l]).value.0;
      var t :| Rebuilds(bz, data + bonus, diff, t) && z.deflate(params, t) == out;
      DeflateGives(apply, z, old_, patch, bonus, p, offset, out, data, t);
  }

  /** The pieces from the `i`-th on are related to `outs`. */
  ghost predicate GiveFrom(g: Relation, ps: seq<Piece>, outs: seq<seq<byte>>, i: nat) {
    |outs| == |ps| && (ps == [] || (g(i, ps[0], outs[0]) && GiveFrom(g, ps[1..], outs[1..], i + 1)))
  }

  lemma {:induction false} AllGiveFrom(g: Relation, ps: seq<Piece>, outs: seq<seq<byte>>, i: nat)
    requires AllGive(g, ps, outs) && i <= |ps|
    ensures GiveFrom(g, ps[i..], outs[i..], i)
    decreases |ps| - i
  {
    if i < |ps| {
      AllGiveFrom(g, ps, outs, i + 1);
      assert ps[i..][1..] == ps[i + 1..] && outs[i..][1..] == outs[i + 1..];
    }
  }

  /** Whatever is related to a piece is related to it with its offset. */
  ghost predicate Stands(g: Relation, ga: (nat, nat, Piece, seq<byte>) -> bool, patch: seq<byte>) {
    forall o, j, p, out :: g(j, p, out) && StandsAt(patch, o, Appended(p)) ==> ga(o, j, p, out)
  }

  /** What is related to the pieces is related to them with the offsets that the records get. */
  lemma {:induction false} GiveWhereTheyStand(g: Relation, ga: (nat, nat, Piece, seq<byte>) -> bool, ps: seq<Piece>,
                                              outs: seq<seq<byte>>, patch: seq<byte>, offset: nat, i: nat)
    requires GiveFrom(g, ps, outs, i) && StandsAt(patch, offset, PatchesOf(ps)) && Stands(g, ga, patch)
    ensures AllGiveAt(ga, ps, outs, offset, i)
    decreases |ps|
  {
    if ps != [] {
      StandsIn(patch, offset, Appended(ps[0]), PatchesOf(ps[1..]));
      GiveWhereTheyStand(g, ga, ps[1..], outs[1..], patch, offset + |Appended(ps[0])|, i + 1);
    }
  }

  predicate AllFit(rs: seq<Record>) { Fits4(|rs|) && forall k :: 0 <= k < |rs| ==> Fits(rs[k]) }

  /** A file that `imgdiff` can write: every field fits its width. */
  predicate Storable(ps: seq<Piece>) { AllFit(RecordsOf(ps, 12 + HeaderSize(ps))) }

  /** The reader finds the records in a file that starts with their header. */
  lemma FileReads(rs: seq<Record>, rest: seq<byte>, file: seq<byte>)
    requires AllFit(rs) && file == WriteHeader(rs) + rest
    ensures ChunkCount(file) == Some(|rs|) && Reads(RecordReader(file), 12, rs)
  {
    var all, count := WriteRecords(rs), Write4(|rs|);
    HeaderStands(file, count, all, rest);
    Value4(file, 8, |rs|);
    ReadsWritten(file, rs, 12);
  }

  lemma HeaderStands(file: seq<byte>, count: seq<byte>, all: seq<byte>, rest: seq<byte>)
    requires file == Magic + count + all + rest && |count| == 4
    ensures |file| >= 12 && file[..8] == Magic && StandsAt(file, 8, count) && StandsAt(file, 12, all)
  {
    assert StandsAt(file, 0, Magic + count + all);
    StandsIn(file, 0, Magic + count, all);
    StandsIn(file, 0, Magic, count);
    assert file[0..8] == file[..8];
  }

  /** The bsdiff patches stand right behind the header, at the offset computed for them beforehand. */
  lemma FileLayout(ps: seq<Piece>, offset: nat, rs: seq<Record>)
    requires offset == 12 + HeaderSize(ps) && rs == RecordsOf(ps, offset)
    ensures StandsAt(FileOf(ps), offset, PatchesOf(ps)) && FileOf(ps) == WriteHeader(rs) + PatchesOf(ps)
  {
    HeaderSizeIsRecordsSize(ps, offset);
    HeaderLength(rs);
    StandsBehind(WriteHeader(rs), PatchesOf(ps));
  }

  lemma HeaderLength(rs: seq<Record>)
    ensures |WriteHeader(rs)| == 12 + RecordsSize(rs)
  {
    RecordsSizeIsLength(rs);
  }

  lemma StandsBehind(head: seq<byte>, rest: seq<byte>)
    ensures StandsAt(head + rest, |head|, rest)
  {
  }

  lemma RecordsNext(ps: seq<Piece>, offset: nat, k: nat, next: nat, rest: seq<Piece>)
    requires k < |ps| && next == offset + |Appended(ps[0])| && rest == ps[1..]
    ensures RecordsOf(ps, offset)[k] == if k == 0 then RecordOf(ps[0], offset) else RecordsOf(rest, next)[k - 1]
  {
  }

  lemma {:induction false} OffsetStands(file: seq<byte>, ps: seq<Piece>, offset: nat, k: nat) returns (at: nat)
    requires StandsAt(file, offset, PatchesOf(ps)) && k < |ps|
    ensures RecordsOf(ps, offset)[k] == RecordOf(ps[k], at) && StandsAt(file, at, Appended(ps[k]))
  {
    var first, rest := Appended(ps[0]), ps[1..];
    var next, patches := offset + |first|, PatchesOf(rest);
    StandsIn(file, offset, first, patches);
    RecordsNext(ps, offset, k, next, rest);
    if k == 0 { at := offset; } else { at := OffsetStands(file, rest, next, k - 1); }
  }

  /** The record is the one of the piece, and at its offset stands the bsdiff patch of the piece. */
  predicate Points(file: seq<byte>, r: Record, p: Piece)
    requires !p.RawPiece?
  {
    !r.RawRecord? && 0 <= r.offset && StandsAt(file, r.offset, p.diff) && r == RecordOf(p, r.offset)
  }

  /** Every offset stored in the file points at the bsdiff patch of its chunk. */
  lemma OffsetsPoint(ps: seq<Piece>, k: nat)
    requires k < |ps| && !ps[k].RawPiece?
    ensures Points(FileOf(ps), RecordsOf(ps, 12 + HeaderSize(ps))[k], ps[k])
  {
    var offset, file := 12 + HeaderSize(ps), FileOf(ps);
    FileLayout(ps, offset, RecordsOf(ps, offset));
    OffsetPoints(file, ps, offset, k);
  }

  lemma OffsetPoints(file: seq<byte>, ps: seq<Piece>, offset: nat, k: nat)
    requires StandsAt(file, offset, PatchesOf(ps)) && k < |ps| && !ps[k].RawPiece?
    ensures Points(file, RecordsOf(ps, offset)[k], ps[k])
  {
    var at := OffsetStands(file, ps, offset, k);
  }

  // When every field fits its width

  /** The fields of the piece, all but the offset, fit their widths. */
  predicate FieldsFit(p: Piece) {
    match p
    case NormalPiece(s, l, _) => Fits8(s) && Fits8(l)
    case DeflatePiece(s, l, e, t, params, _) => Fits8(s) && Fits8(l) && Fits8(e) && Fits8(t) && FitsParams(params)
    case RawPiece(d) => Fits4(|d|)
  }

  /** The offsets lie inside the file, so they fit if its length does. */
  lemma StorableIf(ps: seq<Piece>)
    requires Fits4(|ps|) && Fits8(|FileOf(ps)|) && forall k :: 0 <= k < |ps| ==> FieldsFit(ps[k])
    ensures Storable(ps)
  {
    var offset := 12 + HeaderSize(ps);
    var rs := RecordsOf(ps, offset);
    FileLayout(ps, offset, rs);
    forall k | 0 <= k < |rs| ensures Fits(rs[k]) {
      var at := OffsetStands(FileOf(ps), ps, offset, k);
    }
  }

  /** The bytes that a piece takes in the file. */
  function PieceSize(p: Piece): (n: nat) { RecordSize(RecordOf(p, 0)) + |Appended(p)| }

  function PieceSizes(ps: seq<Piece>): (n: nat) { if ps == [] then 0 else PieceSize(ps[0]) + PieceSizes(ps[1..]) }

  lemma {:induction false} SizesAdd(ps: seq<Piece>)
    ensures HeaderSize(ps) + |PatchesOf(ps)| == PieceSizes(ps)
  {
    if ps != [] { SizesAdd(ps[1..]); }
  }

  /** The file is as long as its pieces and the twelve bytes in front. */
  lemma FileLength(ps: seq<Piece>)
    ensures |FileOf(ps)| == 12 + PieceSizes(ps)
  {
    var rs := RecordsOf(ps, 12 + HeaderSize(ps));
    HeaderSizeIsRecordsSize(ps, 12 + HeaderSize(ps));
    HeaderLength(rs);
    SizesAdd(ps);
  }

  /** What a file means is what its records give. */
  lemma RebuiltBy(bz: BsdiffFormat.Bzip2, z: Zlib, old_: seq<byte>, bonus: seq<byte>, file: seq<byte>, n: nat,
                  out: seq<byte>)
    requires ChunkCount(file) == Some(n)
    requires OutputsFrom(ChunkOutput(BsdiffPatcher(bz, file), z, old_, file, bonus), RecordReader(file), n, 12, 0)
          == Some(out)
    ensures Rebuilt(bz, z, old_, file, bonus) == Some(out)
  {
  }

  /** The patch file rebuilds the target. */
  lemma FileRebuilds(bz: BsdiffFormat.Bzip2, z: Zlib, old_: seq<byte>, bonus: seq<byte>, ps: seq<Piece>,
                     outs: seq<seq<byte>>)
    requires AllGive(GivesRelation(bz, z, old_, bonus), ps, outs) && Storable(ps)
    ensures Rebuilt(bz, z, old_, FileOf(ps), bonus) == Some(Concat(outs))
  {
    var offset := 12 + HeaderSize(ps);
    var rs, file := RecordsOf(ps, offset), FileOf(ps);
    FileLayout(ps, offset, rs);
    PatcherFinds(bz, file);
    FileReads(rs, PatchesOf(ps), file);
    FileOutputs(BsdiffPatcher(bz, file), bz, z, old_, file, bonus, RecordReader(file), ps, outs, offset, rs);
    RebuiltBy(bz, z, old_, bonus, file, |rs|, Concat(outs));
  }

  lemma FileOutputs(apply: Patcher, bz: BsdiffFormat.Bzip2, z: Zlib, old_: seq<byte>, patch: seq<byte>,
                    bonus: seq<byte>, read: Reader, ps: seq<Piece>, outs: seq<seq<byte>>, offset: nat, rs: seq<Record>)
    requires rs == RecordsOf(ps, offset) && Reads(read, 12, rs) && Finds(apply, bz, patch)
    requires AllGive(GivesRelation(bz, z, old_, bonus), ps, outs) && StandsAt(patch, offset, PatchesOf(ps))
    ensures OutputsFrom(ChunkOutput(apply, z, old_, patch, bonus), read, |rs|, 12, 0) == Some(Concat(outs))
  {
    var g, ga := GivesRelation(bz, z, old_, bonus), GivesAtRelation(apply, z, old_, patch, bonus);
    var f := ChunkOutput(apply, z, old_, patch, bonus);
    RelationsMatch(apply, bz, z, old_, patch, bonus, g, ga);
    AllGiveFrom(g, ps, outs, 0);
    assert ps[0..] == ps && outs[0..] == outs;
    GiveWhereTheyStand(g, ga, ps, outs, patch, offset, 0);
    RecordsMatch(apply, z, old_, patch, bonus, ga, f);
    RecordsGive(f, ga, ps, outs, offset, 0);
    OutputsOfRead(f, read, rs, 12, 0);
  }

  lemma RelationsMatch(apply: Patcher, bz: BsdiffFormat.Bzip2, z: Zlib, old_: seq<byte>, patch: seq<byte>,
                       bonus: seq<byte>, g: Relation, ga: (nat, nat, Piece, seq<byte>) -> bool)
    requires Finds(apply, bz, patch) && g == GivesRelation(bz, z, old_, bonus) &&
             ga == GivesAtRelation(apply, z, old_, patch, bonus)
    ensures Stands(g, ga, patch)
  {
    forall o, j, p, out | g(j, p, out) && StandsAt(patch, o, Appended(p)) ensures ga(o, j, p, out) {
      GivesWhereItStands(apply, bz, z, old_, BonusFor(bonus, j), p, out, patch, o);
    }
  }

  lemma RecordsMatch(apply: Patcher, z: Zlib, old_: seq<byte>, patch: seq<byte>, bonus: seq<byte>,
                     ga: (nat, nat, Piece, seq<byte>) -> bool, f: Producer)
    requires ga == GivesAtRelation(apply, z, old_, patch, bonus) && f == ChunkOutput(apply, z, old_, patch, bonus)
    ensures forall o, j, p, out :: ga(o, j, p, out) ==> f(j, RecordOf(p, o)) == Some(out)
  {
  }
}
