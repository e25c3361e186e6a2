/** The imgdiff patch file: a header with one record per chunk, then the bsdiff patches the records point to. */
module ImageFormat {
  import opened Bytes

  /** Parameters of the zlib encoder. */
  datatype Params = Params(level: int, method_: int, windowBits: int, memLevel: int, strategy: int)

  /** What the header says about one chunk; `offset` is where its bsdiff patch starts in the file. */
  datatype Record =
    | NormalRecord(sourceStart: int, sourceLen: int, offset: int)
    | DeflateRecord(sourceStart: int, sourceLen: int, offset: int, expandedLen: int, targetLen: int, params: Params)
    | RawRecord(data: seq<byte>)

  const Magic: seq<byte> := [0x49, 0x4D, 0x47, 0x44, 0x49, 0x46, 0x46, 0x32]  // "IMGDIFF2"
  const NormalType := 0
  const DeflateType := 2
  const RawType := 3

  predicate Fits4(v: int) { -0x8000_0000 <= v < 0x8000_0000 }

  predicate Fits8(v: int) { -0x8000_0000_0000_0000 <= v < 0x8000_0000_0000_0000 }

  predicate FitsParams(p: Params) {
    Fits4(p.level) && Fits4(p.method_) && Fits4(p.windowBits) && Fits4(p.memLevel) && Fits4(p.strategy)
  }

  /** The record's fields fit the widths they are written with. */
  predicate Fits(r: Record) {
    match r
    case NormalRecord(s, l, o) => Fits8(s) && Fits8(l) && Fits8(o)
    case DeflateRecord(s, l, o, e, t, p) => Fits8(s) && Fits8(l) && Fits8(o) && Fits8(e) && Fits8(t) && FitsParams(p)
    case RawRecord(d) => Fits4(|d|)
  }

  function WriteParams(p: Params): (b: seq<byte>)
    ensures |b| == 20
  {
    Write4(p.level) + Write4(p.method_) + Write4(p.windowBits) + Write4(p.memLevel) + Write4(p.strategy)
  }

  function WriteRecord(r: Record): (b: seq<byte>) {
    match r
    case NormalRecord(s, l, o) => Write4(NormalType) + (Write8(s) + Write8(l) + Write8(o))
    case DeflateRecord(s, l, o, e, t, p) =>
      Write4(DeflateType) + (Write8(s) + Write8(l) + Write8(o) + Write8(e) + Write8(t) + WriteParams(p))
    case RawRecord(d) => Write4(RawType) + (Write4(|d|) + d)
  }

  /** What the size loop of `main` adds for one chunk. */
  function RecordSize(r: Record): (n: nat) {
    match r
    case NormalRecord(_, _, _) => 4 + 8 * 3
    case DeflateRecord(_, _, _, _, _, _) => 4 + 8 * 5 + 4 * 5
    case RawRecord(d) => 4 + 4 + |d|
  }

  lemma RecordSizeIsLength(r: Record)
    ensures |WriteRecord(r)| == RecordSize(r)
  {
  }

  /** The record at `pos` and the position after it; an error if the file ends too early or the type is unknown. */
  function ReadRecord(patch: seq<byte>, pos: nat): (r: Option<(Record, nat)>)
    ensures r.Some? ==> r.value.1 <= |patch|
  {
    if pos + 4 > |patch| then None
    else
      var kind := Read4(patch, pos);
      if kind == NormalType then ReadNormal(patch, pos + 4)
      else if kind == RawType then ReadRaw(patch, pos + 4)
      else if kind == DeflateType then ReadDeflate(patch, pos + 4)
      else None
  }

  function ReadNormal(patch: seq<byte>, pos: nat): (r: Option<(Record, nat)>)
    ensures r.Some? ==> r.value.1 <= |patch|
  {
    if pos + 24 > |patch| then None
    else Some((NormalRecord(Read8(patch, pos), Read8(patch, pos + 8), Read8(patch, pos + 16)), pos + 24))
  }

  function ReadRaw(patch: seq<byte>, pos: nat): (r: Option<(Record, nat)>)
    ensures r.Some? ==> r.value.1 <= |patch|
  {
    if pos + 4 > |patch| then None
    else
      var len := Read4(patch, pos);
      if len < 0 || pos + 4 + len > |patch| then None
      else Some((RawRecord(patch[pos + 4..pos + 4 + len]), pos + 4 + len))
  }

  function ReadParams(patch: seq<byte>, pos: nat): (p: Params)
    requires pos + 20 <= |patch|
  {
    Params(Read4(patch, pos), Read4(patch, pos + 4), Read4(patch, pos + 8), Read4(patch, pos + 12),
           Read4(patch, pos + 16))
  }

  function ReadDeflate(patch: seq<byte>, pos: nat): (r: Option<(Record, nat)>)
    ensures r.Some? ==> r.value.1 <= |patch|
  {
    if pos + 60 > |patch| then None
    else Some((DeflateRecord(Read8(patch, pos), Read8(patch, pos + 8), Read8(patch, pos + 16), Read8(patch, pos + 24),
                             Read8(patch, pos + 32), ReadParams(patch, pos + 40)), pos + 60))
  }

  // Reading back

  /** `part` stands in `whole` at `pos`. */
  predicate StandsAt(whole: seq<byte>, pos: nat, part: seq<byte>) {
    pos + |part| <= |whole| && whole[pos..pos + |part|] == part
  }

  lemma StandsIn(whole: seq<byte>, pos: nat, a: seq<byte>, b: seq<byte>)
    requires StandsAt(whole, pos, a + b)
    ensures StandsAt(whole, pos, a) && StandsAt(whole, pos + |a|, b)
  {
    var w := whole[pos..pos + |a + b|];
    assert w[..|a|] == a && w[|a|..] == b;
  }

  lemma Value4(whole: seq<byte>, pos: nat, v: int)
    requires StandsAt(whole, pos, Write4(v)) && Fits4(v)
    ensures Read4(whole, pos) == v
  {
    Read4OfWrite4(whole, pos, v);
  }

  lemma Value8(whole: seq<byte>, pos: nat, v: int)
    requires StandsAt(whole, pos, Write8(v)) && Fits8(v)
    ensures Read8(whole, pos) == v
  {
    Read8OfWrite8(whole, pos, v);
  }

  lemma NormalReadBack(patch: seq<byte>, pos: nat, r: Record)
    requires r.NormalRecord? && Fits(r)
    requires StandsAt(patch, pos, Write8(r.sourceStart) + Write8(r.sourceLen) + Write8(r.offset))
    ensures ReadNormal(patch, pos) == Some((r, pos + 24))
  {
    var a, b, c := Write8(r.sourceStart), Write8(r.sourceLen), Write8(r.offset);
    StandsIn(patch, pos, a + b, c);
    StandsIn(patch, pos, a, b);
    Value8(patch, pos, r.sourceStart);
    Value8(patch, pos + 8, r.sourceLen);
    Value8(patch, pos + 16, r.offset);
  }

  lemma ParamsReadBack(patch: seq<byte>, pos: nat, p: Params)
    requires StandsAt(patch, pos, WriteParams(p)) && FitsParams(p)
    ensures ReadParams(patch, pos) == p
  {
    var a, b, c, d, e := Write4(p.level), Write4(p.method_), Write4(p.windowBits), Write4(p.memLevel),
                         Write4(p.strategy);
    StandsIn(patch, pos, a + b + c + d, e);
    StandsIn(patch, pos, a + b + c, d);
    StandsIn(patch, pos, a + b, c);
    StandsIn(patch, pos, a, b);
    Value4(patch, pos, p.level);
    Value4(patch, pos + 4, p.method_);
    Value4(patch, pos + 8, p.windowBits);
    Value4(patch, pos + 12, p.memLevel);
    Value4(patch, pos + 16, p.strategy);
  }

  lemma DeflateReadBack(patch: seq<byte>, pos: nat, r: Record)
    requires r.DeflateRecord? && Fits(r)
    requires StandsAt(patch, pos, Write8(r.sourceStart) + Write8(r.sourceLen) + Write8(r.offset) + Write8(r.expandedLen)
                                  + Write8(r.targetLen) + WriteParams(r.params))
    ensures ReadDeflate(patch, pos) == Some((r, pos + 60))
  {
    var a, b, c, d, e := Write8(r.sourceStart), Write8(r.sourceLen), Write8(r.offset), Write8(r.expandedLen),
                         Write8(r.targetLen);
    StandsIn(patch, pos, a + b + c + d + e, WriteParams(r.params));
    StandsIn(patch, pos, a + b + c + d, e);
    StandsIn(patch, pos, a + b + c, d);
    StandsIn(patch, pos, a + b, c);
    StandsIn(patch, pos, a, b);
    Value8(patch, pos, r.sourceStart);
    Value8(patch, pos + 8, r.sourceLen);
    Value8(patch, pos + 16, r.offset);
    Value8(patch, pos + 24, r.expandedLen);
    Value8(patch, pos + 32, r.targetLen);
    ParamsReadBack(patch, pos + 40, r.params);
  }

  /** The cursor reads back every field of a record, and moves past exactly its bytes. */
  lemma RecordReadBack(patch: seq<byte>, pos: nat, r: Record)
    requires StandsAt(patch, pos, WriteRecord(r)) && Fits(r)
    ensures ReadRecord(patch, pos) == Some((r, pos + RecordSize(r)))
  {
    match r
    case NormalRecord(s, l, o) =>
      StandsIn(patch, pos, Write4(NormalType), Write8(s) + Write8(l) + Write8(o));
      Value4(patch, pos, NormalType);
      NormalReadBack(patch, pos + 4, r);
    case DeflateRecord(s, l, o, e, t, p) =>
      StandsIn(patch, pos, Write4(DeflateType),
               Write8(s) + Write8(l) + Write8(o) + Write8(e) + Write8(t) + WriteParams(p));
      Value4(patch, pos, DeflateType);
      DeflateReadBack(patch, pos + 4, r);
    case RawRecord(d) =>
      StandsIn(patch, pos, Write4(RawType), Write4(|d|) + d);
      StandsIn(patch, pos + 4, Write4(|d|), d);
      Value4(patch, pos, RawType);
      Value4(patch, pos + 4, |d|);
  }

  // The whole header

  function WriteRecords(rs: seq<Record>): (b: seq<byte>) {
    if rs == [] then [] else WriteRecord(rs[0]) + WriteRecords(rs[1..])
  }

  function RecordsSize(rs: seq<Record>): (n: nat) {
    if rs == [] then 0 else RecordSize(rs[0]) + RecordsSize(rs[1..])
  }

  lemma FirstStands(patch: seq<byte>, pos: nat, rs: seq<Record>, next: nat)
    requires rs != [] && StandsAt(patch, pos, WriteRecords(rs)) && next == pos + RecordSize(rs[0])
    ensures StandsAt(patch, pos, WriteRecord(rs[0])) && StandsAt(patch, next, WriteRecords(rs[1..]))
  {
    var first, rest := WriteRecord(rs[0]), WriteRecords(rs[1..]);
    assert WriteRecords(rs) == first + rest && |first| == RecordSize(rs[0]) by { RecordSizeIsLength(rs[0]); }
    BothStand(patch, pos, first, rest, next);
  }

  lemma BothStand(whole: seq<byte>, pos: nat, a: seq<byte>, b: seq<byte>, next: nat)
    requires StandsAt(whole, pos, a + b) && next == pos + |a|
    ensures StandsAt(whole, pos, a) && StandsAt(whole, next, b)
  {
    StandsIn(whole, pos, a, b);
  }

  lemma {:induction false} RecordsSizeIsLength(rs: seq<Record>)
    ensures |WriteRecords(rs)| == RecordsSize(rs)
  {
    if rs != [] {
      RecordSizeIsLength(rs[0]);
      RecordsSizeIsLength(rs[1..]);
    }
  }

  /** The header of a file with these records: magic number, chunk count, records. */
  function WriteHeader(rs: seq<Record>): (b: seq<byte>) { Magic + Write4(|rs|) + WriteRecords(rs) }
}
