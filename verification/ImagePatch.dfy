/** `ApplyImagePatch`: rebuilds the target image chunk by chunk from the source image and an imgdiff patch. */
module ImagePatch {
  import opened Bytes
  import BsdiffFormat
  import opened ImageFormat
  import opened ImageChunks

  predicate InImage(old_: seq<byte>, start: int, len: int) { 0 <= start && 0 <= len && start + len <= |old_| }

  /** A bsdiff patch can start at `offset`. */
  predicate InPatch(patch: seq<byte>, offset: int) { 0 <= offset && offset + 32 <= |patch| }

  /**
   The source of a deflate chunk, inflated, with the bonus data behind it; it must come out at `expandedLen` bytes.
   */
  function Expanded(z: Zlib, stream: seq<byte>, bonus: seq<byte>, expandedLen: int): (r: Option<seq<byte>>) {
    match z.inflate(stream)
    case None => None
    case Some((data, _)) => if |data| + |bonus| == expandedLen then Some(data + bonus) else None
  }

  /** What the bsdiff patch at an offset of the patch file makes of some source data. */
  type Patcher = (seq<byte>, nat) -> Option<seq<byte>>

  /** What one record adds to the output. A normal chunk whose bsdiff patch fails adds nothing and is not an error. */
  function Output(apply: Patcher, z: Zlib, old_: seq<byte>, patch: seq<byte>, bonus: seq<byte>,
                  r: Record): (o: Option<seq<byte>>) {
    match r
    case RawRecord(data) => Some(data)
    case NormalRecord(start, len, offset) =>
      if !InImage(old_, start, len) || !InPatch(patch, offset) then None
      else
        (match apply(old_[start..start + len], offset)
         case None => Some([])
         case Some(data) => Some(data))
    case DeflateRecord(start, len, offset, expandedLen, _, params) =>
      if !InImage(old_, start, len) || !InPatch(patch, offset) then None
      else
        match Expanded(z, old_[start..start + len], bonus, expandedLen)
        case None => None
        case Some(source) =>
          match apply(source, offset)
          case None => None
          case Some(data) => Some(z.deflate(params, data))
  }

  /** Only chunk 1 gets the bonus data. */
  function BonusFor(bonus: seq<byte>, i: nat): (b: seq<byte>) { if i == 1 then bonus else [] }

  /** What the `i`-th chunk adds to the output, by its record. */
  type Producer = (nat, Record) -> Option<seq<byte>>

  /** The output of records `i`, `i + 1`, ..., when `rs` are the records from `i` on. */
  function Outputs(f: Producer, rs: seq<Record>, i: nat): (o: Option<seq<byte>>) {
    if rs == [] then Some([])
    else
      match f(i, rs[0])
      case None => None
      case Some(a) =>
        match Outputs(f, rs[1..], i + 1)
        case None => None
        case Some(b) => Some(a + b)
  }

  /** Reads the record at a position and gives the position after it. */
  type Reader = nat -> Option<(Record, nat)>

  /** The output of `n` records read from `pos` on, each read when its turn comes. */
  function OutputsFrom(f: Producer, read: Reader, n: nat, pos: nat, i: nat): (o: Option<seq<byte>>)
    decreases n
  {
    if n == 0 then Some([])
    else
      match read(pos)
      case None => None
      case Some((r, next)) =>
        match f(i, r)
        case None => None
        case Some(a) =>
          match OutputsFrom(f, read, n - 1, next, i + 1)
          case None => None
          case Some(b) => Some(a + b)
  }

  /** Reading from `pos` on gives the records `rs`. */
  predicate Reads(read: Reader, pos: nat, rs: seq<Record>)
    decreases |rs|
  {
    rs == [] || (read(pos).Some? && read(pos).value.0 == rs[0] && Reads(read, read(pos).value.1, rs[1..]))
  }

  lemma {:induction false} OutputsOfRead(f: Producer, read: Reader, rs: seq<Record>, pos: nat, i: nat)
    requires Reads(read, pos, rs)
    ensures OutputsFrom(f, read, |rs|, pos, i) == Outputs(f, rs, i)
    decreases |rs|
  {
    if rs != [] { OutputsOfRead(f, read, rs[1..], read(pos).value.1, i + 1); }
  }

  function RecordReader(patch: seq<byte>): (read: Reader) { (pos: nat) => ReadRecord(patch, pos) }

  /** The cursor reads records that the writer wrote. */
  lemma {:induction false} ReadsWritten(patch: seq<byte>, rs: seq<Record>, pos: nat)
    requires StandsAt(patch, pos, WriteRecords(rs)) && forall k :: 0 <= k < |rs| ==> Fits(rs[k])
    ensures Reads(RecordReader(patch), pos, rs)
    decreases |rs|
  {
    if rs != [] {
      var next := pos + RecordSize(rs[0]);
      FirstStands(patch, pos, rs, next);
      ReadsWritten(patch, rs[1..], next);
      ReadsFirst(patch, rs, pos, next);
    }
  }

  lemma ReadsFirst(patch: seq<byte>, rs: seq<Record>, pos: nat, next: nat)
    requires rs != [] && StandsAt(patch, pos, WriteRecord(rs[0])) && Fits(rs[0]) && next == pos + RecordSize(rs[0])
    requires Reads(RecordReader(patch), next, rs[1..])
    ensures Reads(RecordReader(patch), pos, rs)
  {
    RecordReadBack(patch, pos, rs[0]);
    assert RecordReader(patch)(pos) == Some((rs[0], next));
  }

  function ChunkOutput(apply: Patcher, z: Zlib, old_: seq<byte>, patch: seq<byte>, bonus: seq<byte>): (f: Producer) {
    (i, r) => Output(apply, z, old_, patch, BonusFor(bonus, i), r)
  }

  function BsdiffPatcher(bz: BsdiffFormat.Bzip2, patch: seq<byte>): (apply: Patcher) {
    (source, offset: nat) => if offset + 32 <= |patch| then BsdiffFormat.Apply(bz, source, patch, offset) else None
  }

  /** The number of chunks, when the file starts like a patch. */
  function ChunkCount(patch: seq<byte>): (n: Option<int>) {
    if |patch| < 12 || patch[..8] != Magic then None else Some(Read4(patch, 8))
  }

  /** What the patch makes of the source image. */
  function Rebuilt(bz: BsdiffFormat.Bzip2, z: Zlib, old_: seq<byte>, patch: seq<byte>,
                   bonus: seq<byte>): (o: Option<seq<byte>>) {
    match ChunkCount(patch)
    case None => None
    case Some(n) =>
      OutputsFrom(ChunkOutput(BsdiffPatcher(bz, patch), z, old_, patch, bonus), RecordReader(patch),
                  if n < 0 then 0 else n, 12, 0)
  }

  // The loop of the source: a cursor over the header, the sink and the hash fed chunk by chunk

  /** Hands the deflated data to the sink and the hash in pieces of the size of the buffer. */
  method Emit(data: seq<byte>, bufSize: nat, sink: seq<byte>, hashed: seq<byte>)
      returns (sink2: seq<byte>, hashed2: seq<byte>)
    requires bufSize > 0
    ensures sink2 == sink + data && hashed2 == hashed + data
  {
    var p: nat := 0;
    sink2, hashed2 := sink, hashed;
    assert data[..0] == [];
    while p < |data|
      invariant p <= |data| && sink2 == sink + data[..p] && hashed2 == hashed + data[..p]
    {
      var have := if |data| - p < bufSize then |data| - p else bufSize;
      assert data[..p] + data[p..p + have] == data[..p + have];
      sink2, hashed2 := sink2 + data[p..p + have], hashed2 + data[p..p + have];
      p := p + have;
    }
    assert data[..p] == data;
  }

  /** One chunk. */
  method ApplyRecord(apply: Patcher, z: Zlib, old_: seq<byte>, patch: seq<byte>, bonus: seq<byte>, r: Record,
                     sink: seq<byte>, hashed: seq<byte>)
      returns (ok: bool, sink2: seq<byte>, hashed2: seq<byte>)
    ensures ok <==> Output(apply, z, old_, patch, bonus, r).Some?
    ensures ok ==> sink2 == sink + Output(apply, z, old_, patch, bonus, r).value
    ensures ok ==> hashed2 == hashed + Output(apply, z, old_, patch, bonus, r).value
  {
    ok, sink2, hashed2 := true, sink, hashed;
    match r {
      case RawRecord(data) =>
        hashed2 := hashed + data;
        sink2 := sink + data;
      case NormalRecord(start, len, offset) =>
        if !InImage(old_, start, len) || !InPatch(patch, offset) { ok := false; return; }
        var data := apply(old_[start..start + len], offset);
        if data.Some? {
          sink2 := sink + data.value;
          hashed2 := hashed + data.value;
        }
      case DeflateRecord(start, len, offset, expandedLen, _, params) =>
        if !InImage(old_, start, len) || !InPatch(patch, offset) { ok := false; return; }
        var source := Expanded(z, old_[start..start + len], bonus, expandedLen);
        if source.None? { ok := false; return; }
        var data := apply(source.value, offset);
        if data.None? { ok := false; return; }
        var bufSize := if expandedLen < 32768 then 32768 else expandedLen;
        sink2, hashed2 := Emit(z.deflate(params, data.value), bufSize, sink, hashed);
    }
  }

  /** The chunk loop: `pos` moves over the records, `i` counts them. */
  method RunRecords(apply: Patcher, z: Zlib, old_: seq<byte>, patch: seq<byte>, bonus: seq<byte>, read: Reader,
                    num: int)
      returns (ok: bool, sink: seq<byte>, hashed: seq<byte>)
    ensures var goal := OutputsFrom(ChunkOutput(apply, z, old_, patch, bonus), read, if num < 0 then 0 else num, 12, 0);
            (ok <==> goal.Some?) && (ok ==> sink == hashed == goal.value)
  {
    sink, hashed := [], [];
    var pos: nat, i: nat := 12, 0;
    ghost var f := ChunkOutput(apply, z, old_, patch, bonus);
    ghost var left: nat := if num < 0 then 0 else num;
    ghost var goal := OutputsFrom(f, read, left, 12, 0);
    ghost var rest := goal;
    NothingFollowing(goal);
    while i < num
      invariant left == if num < i then 0 else num - i
      invariant sink == hashed && rest == OutputsFrom(f, read, left, pos, i) && goal == Following(sink, rest)
    {
      var record := read(pos);
      if record.None? { return false, sink, hashed; }
      var (r, next) := record.value;
      ghost var was := sink;
      var more;
      more, sink, hashed := ApplyRecord(apply, z, old_, patch, BonusFor(bonus, i), r, sink, hashed);
      assert f(i, r) == Output(apply, z, old_, patch, BonusFor(bonus, i), r);
      if !more { return false, sink, hashed; }
      rest := AfterStep(f, read, left, pos, i, was, sink, rest, r, next);
      pos, i, left := next, i + 1, left - 1;
    }
    assert sink + [] == sink;
    return true, sink, hashed;
  }

  /** `ApplyImagePatch`: on success what went to the sink is what was hashed, and it is what the patch means. */
  method ApplyImagePatch(bz: BsdiffFormat.Bzip2, z: Zlib, old_: seq<byte>, patch: seq<byte>, bonus: seq<byte>)
      returns (ok: bool, sink: seq<byte>, hashed: seq<byte>)
    ensures ok <==> Rebuilt(bz, z, old_, patch, bonus).Some?
    ensures ok ==> sink == hashed == Rebuilt(bz, z, old_, patch, bonus).value
  {
    var num := ChunkCount(patch);
    if num.None? { return false, [], []; }
    ok, sink, hashed := RunRecords(BsdiffPatcher(bz, patch), z, old_, patch, bonus, RecordReader(patch), num.value);
  }

  lemma AfterStep(f: Producer, read: Reader, n: nat, pos: nat, i: nat, done: seq<byte>, more: seq<byte>,
                  rest: Option<seq<byte>>, r: Record, next: nat) returns (rest2: Option<seq<byte>>)
    requires n > 0 && read(pos) == Some((r, next)) && f(i, r).Some? && more == done + f(i, r).value
    requires rest == OutputsFrom(f, read, n, pos, i)
    ensures rest2 == OutputsFrom(f, read, n - 1, next, i + 1) && Following(done, rest) == Following(more, rest2)
  {
    rest2 := OutputsFrom(f, read, n - 1, next, i + 1);
    if rest2.Some? { assert done + (f(i, r).value + rest2.value) == more + rest2.value; }
  }
}
