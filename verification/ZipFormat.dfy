/** Zip archives as the PKWARE APPNOTE lays them out, and that minzip reads them back. */
module ZipFormat {
  import opened Bytes
  import opened ImageFormat
  import opened ZipNames
  import opened ZipArchive

  function Write2(v: int): (b: seq<byte>)
    ensures |b| == 2
  {
    [v % 256, v / 256 % 256]
  }

  lemma Value2(whole: seq<byte>, pos: nat, v: int)
    requires StandsAt(whole, pos, Write2(v)) && 0 <= v < 0x1_0000
    ensures Read2(whole, pos) == v
  {
    assert whole[pos] == whole[pos..pos + 2][0] && whole[pos + 1] == whole[pos..pos + 2][1];
  }

  lemma ValueUnsigned4(whole: seq<byte>, pos: nat, v: int)
    requires StandsAt(whole, pos, Write4(v)) && 0 <= v < 0x1_0000_0000
    ensures Unsigned4(whole, pos) == v
  {
    Unsigned4At(whole, pos, Write4(v));
    Unsigned4OfWrite4(v);
  }

  /** A file header of the central directory; section 4.3.12 of the APPNOTE. */
  datatype Central = Central(madeBy: nat, needed: nat, flags: nat, compression: nat, modTime: nat, crc32: nat,
                             compLen: nat, uncompLen: nat, disk: nat, internal: nat, attributes: nat, local: nat,
                             name: Name, extra: seq<byte>, comment: seq<byte>)

  predicate Small2(v: nat) { v < 0x1_0000 }

  predicate Small4(v: nat) { v < 0x1_0000_0000 }

  /** Every field fits its width. */
  predicate Writable(r: Central) {
    && Small2(r.madeBy) && Small2(r.compression) && Small2(|r.name|) && Small2(|r.extra|) && Small2(|r.comment|)
    && Small4(r.modTime) && Small4(r.crc32) && Small4(r.compLen) && Small4(r.uncompLen)
    && Small4(r.attributes) && Small4(r.local)
  }

  function Head(r: Central): (b: seq<byte>)
    ensures |b| == 12
  {
    Write4(CentralSignature) + (Write2(r.madeBy) + ((Write2(r.needed) + Write2(r.flags)) + Write2(r.compression)))
  }

  function Sizes(r: Central): (b: seq<byte>)
    ensures |b| == 16
  {
    Write4(r.modTime) + (Write4(r.crc32) + (Write4(r.compLen) + Write4(r.uncompLen)))
  }

  function Lengths(r: Central): (b: seq<byte>)
    ensures |b| == 10
  {
    Write2(|r.name|) + (Write2(|r.extra|) + (Write2(|r.comment|) + (Write2(r.disk) + Write2(r.internal))))
  }

  function Rest(r: Central): (b: seq<byte>)
    ensures |b| == 8
  {
    Write4(r.attributes) + Write4(r.local)
  }

  function Header(r: Central): (b: seq<byte>)
    ensures |b| == CentralHeader + |r.name| + |r.extra| + |r.comment|
  {
    Head(r) + (Sizes(r) + (Lengths(r) + (Rest(r) + (r.name + (r.extra + r.comment)))))
  }

  /** The parts of a header stand where the offsets say. */
  lemma HeaderParts(file: seq<byte>, p: nat, r: Central)
    requires StandsAt(file, p, Header(r))
    ensures StandsAt(file, p, Head(r)) && StandsAt(file, p + 12, Sizes(r)) && StandsAt(file, p + 28, Lengths(r))
    ensures StandsAt(file, p + 38, Rest(r)) && StandsAt(file, p + 46, r.name)
  {
    var a, b, c, d, e := Head(r), Sizes(r), Lengths(r), Rest(r), r.extra + r.comment;
    StandsIn(file, p, a, b + (c + (d + (r.name + e))));
    StandsIn(file, p + 12, b, c + (d + (r.name + e)));
    StandsIn(file, p + 28, c, d + (r.name + e));
    StandsIn(file, p + 38, d, r.name + e);
    StandsIn(file, p + 46, r.name, e);
  }

  lemma HeadRead(file: seq<byte>, p: nat, r: Central)
    requires StandsAt(file, p, Head(r)) && Writable(r)
    ensures Unsigned4(file, p) == CentralSignature && Read2(file, p + 4) == r.madeBy &&
            Read2(file, p + 10) == r.compression
  {
    var a, b, c, d := Write4(CentralSignature), Write2(r.madeBy), Write2(r.needed) + Write2(r.flags),
                      Write2(r.compression);
    StandsIn(file, p, a, b + (c + d));
    StandsIn(file, p + 4, b, c + d);
    StandsIn(file, p + 6, c, d);
    ValueUnsigned4(file, p, CentralSignature);
    Value2(file, p + 4, r.madeBy);
    Value2(file, p + 10, r.compression);
  }

  lemma SizesRead(file: seq<byte>, p: nat, r: Central)
    requires StandsAt(file, p, Sizes(r)) && Writable(r)
    ensures Unsigned4(file, p) == r.modTime && Unsigned4(file, p + 4) == r.crc32
    ensures Unsigned4(file, p + 8) == r.compLen && Unsigned4(file, p + 12) == r.uncompLen
  {
    var a, b, c, d := Write4(r.modTime), Write4(r.crc32), Write4(r.compLen), Write4(r.uncompLen);
    StandsIn(file, p, a, b + (c + d));
    StandsIn(file, p + 4, b, c + d);
    StandsIn(file, p + 8, c, d);
    ValueUnsigned4(file, p, r.modTime);
    ValueUnsigned4(file, p + 4, r.crc32);
    ValueUnsigned4(file, p + 8, r.compLen);
    ValueUnsigned4(file, p + 12, r.uncompLen);
  }

  lemma LengthsRead(file: seq<byte>, p: nat, r: Central)
    requires StandsAt(file, p, Lengths(r)) && Writable(r)
    ensures Read2(file, p) == |r.name| && Read2(file, p + 2) == |r.extra| && Read2(file, p + 4) == |r.comment|
  {
    var a, b, c, d := Write2(|r.name|), Write2(|r.extra|), Write2(|r.comment|), Write2(r.disk) + Write2(r.internal);
    StandsIn(file, p, a, b + (c + d));
    StandsIn(file, p + 2, b, c + d);
    StandsIn(file, p + 4, c, d);
    Value2(file, p, |r.name|);
    Value2(file, p + 2, |r.extra|);
    Value2(file, p + 4, |r.comment|);
  }

  lemma RestRead(file: seq<byte>, p: nat, r: Central)
    requires StandsAt(file, p, Rest(r)) && Writable(r)
    ensures Unsigned4(file, p) == r.attributes && Unsigned4(file, p + 4) == r.local
  {
    StandsIn(file, p, Write4(r.attributes), Write4(r.local));
    ValueUnsigned4(file, p, r.attributes);
    ValueUnsigned4(file, p + 4, r.local);
  }

  /** Where the data of a file start, by its local header. */
  function DataOffset(file: seq<byte>, local: nat): (p: nat)
    requires local + LocalHeader <= |file|
  {
    local + LocalHeader + Read2(file, local + 26) + Read2(file, local + 28)
  }

  /**
   The header is one that minzip takes: a printable name, a known system, and a local header with the data behind it.
   */
  predicate Good(file: seq<byte>, r: Central) {
    && Writable(r) && ValidFilename(r.name) && KnownSystem(r.madeBy)
    && r.local + LocalHeader <= |file| && Unsigned4(file, r.local) == LocalSignature
    && DataOffset(file, r.local) + r.compLen <= |file|
  }

  /** What minzip should make of the header. */
  function EntryOf(file: seq<byte>, r: Central): (e: ZipEntry) {
    var offset := if r.local + LocalHeader <= |file| then DataOffset(file, r.local) else 0;
    ZipEntry(r.name, offset, r.compLen, r.uncompLen, r.compression, r.modTime, r.crc32, r.madeBy, r.attributes)
  }

  /** The fields that minzip looks at have the values of the header. */
  predicate FieldsAt(file: seq<byte>, p: nat, r: Central) {
    && p + CentralHeader + |r.name| <= |file| && file[p + 46..p + 46 + |r.name|] == r.name
    && Unsigned4(file, p) == CentralSignature && Read2(file, p + 4) == r.madeBy && Read2(file, p + 10) == r.compression
    && Unsigned4(file, p + 12) == r.modTime && Unsigned4(file, p + 16) == r.crc32
    && Unsigned4(file, p + 20) == r.compLen && Unsigned4(file, p + 24) == r.uncompLen
    && Read2(file, p + 28) == |r.name| && Read2(file, p + 30) == |r.extra| && Read2(file, p + 32) == |r.comment|
    && Unsigned4(file, p + 38) == r.attributes && Unsigned4(file, p + 42) == r.local
  }

  lemma FieldsStand(file: seq<byte>, p: nat, r: Central)
    requires StandsAt(file, p, Header(r)) && Writable(r)
    ensures FieldsAt(file, p, r)
  {
    HeaderParts(file, p, r);
    HeadRead(file, p, r);
    SizesRead(file, p + 12, r);
    LengthsRead(file, p + 28, r);
    RestRead(file, p + 38, r);
  }

  lemma EntryFrom(file: seq<byte>, p: nat, r: Central, size: nat)
    requires FieldsAt(file, p, r) && Good(file, r) && size == CentralHeader + |r.name| + |r.extra| + |r.comment|
    ensures ReadEntry(file, p) == Some((EntryOf(file, r), p + size))
  {
  }

  /** A header is read back, field by field. */
  lemma EntryReadBack(file: seq<byte>, p: nat, r: Central)
    requires StandsAt(file, p, Header(r)) && Good(file, r)
    ensures ReadEntry(file, p) == Some((EntryOf(file, r), p + |Header(r)|))
  {
    var size := |Header(r)|;
    assert size == CentralHeader + |r.name| + |r.extra| + |r.comment|;
    FieldsStand(file, p, r);
    EntryFrom(file, p, r, size);
  }

  // The whole archive

  function Cat(header: Central -> seq<byte>, rs: seq<Central>): (b: seq<byte>) {
    if rs == [] then [] else header(rs[0]) + Cat(header, rs[1..])
  }

  function Headers(rs: seq<Central>): (b: seq<byte>) { Cat(Header, rs) }

  predicate AllGood(file: seq<byte>, rs: seq<Central>) { forall i :: 0 <= i < |rs| ==> Good(file, rs[i]) }

  function Map(entry: Central -> ZipEntry, rs: seq<Central>): (es: seq<ZipEntry>)
    ensures |es| == |rs| && forall i :: 0 <= i < |rs| ==> es[i] == entry(rs[i])
  {
    if rs == [] then [] else [entry(rs[0])] + Map(entry, rs[1..])
  }

  function EntryMaker(file: seq<byte>): (entry: Central -> ZipEntry) { (r: Central) => EntryOf(file, r) }

  /** What minzip should make of the directory. */
  function EntriesOf(file: seq<byte>, rs: seq<Central>): (es: seq<ZipEntry>) { Map(EntryMaker(file), rs) }

  /** The records stand one after the other from `p` on and are read as `entry` says. */
  ghost predicate ReadsFrom(read: EntryReader, p: nat, rs: seq<Central>, header: Central -> seq<byte>,
                            entry: Central -> ZipEntry)
    decreases |rs|
  {
    || rs == []
    || (read(p) == Some((entry(rs[0]), p + |header(rs[0])|)) &&
        ReadsFrom(read, p + |header(rs[0])|, rs[1..], header, entry))
  }

  lemma {:induction false} DirectoryOfReads(read: EntryReader, p: nat, rs: seq<Central>, header: Central -> seq<byte>,
                                            entry: Central -> ZipEntry)
    requires ReadsFrom(read, p, rs, header, entry)
    ensures Directory(read, p, |rs|) == Some(Map(entry, rs))
    decreases |rs|
  {
    if rs != [] {
      var next := p + |header(rs[0])|;
      DirectoryOfReads(read, next, rs[1..], header, entry);
      DirectoryCons(read, p, |rs|, entry(rs[0]), next, Map(entry, rs[1..]));
    }
  }

  function Goods(file: seq<byte>): (good: Central -> bool) { (r: Central) => Good(file, r) }

  /** If a good header stands at `p`, its entry is read there. */
  ghost predicate PromisedAt(file: seq<byte>, header: Central -> seq<byte>, entry: Central -> ZipEntry,
                             read: EntryReader, good: Central -> bool, r: Central, p: nat) {
    good(r) && StandsAt(file, p, header(r)) ==> read(p) == Some((entry(r), p + |header(r)|))
  }

  ghost predicate Promised(file: seq<byte>, header: Central -> seq<byte>, entry: Central -> ZipEntry, read: EntryReader,
                           good: Central -> bool) {
    forall r, p: nat :: PromisedAt(file, header, entry, read, good, r, p)
  }

  lemma OneReads(file: seq<byte>, header: Central -> seq<byte>, entry: Central -> ZipEntry, read: EntryReader,
                 good: Central -> bool, r: Central, p: nat)
    requires header == Header && entry == EntryMaker(file) && read == RecordAt(file) && good == Goods(file)
    ensures PromisedAt(file, header, entry, read, good, r, p)
  {
    if Good(file, r) && StandsAt(file, p, Header(r)) { EntryReadBack(file, p, r); }
  }

  lemma PromiseKept(file: seq<byte>, header: Central -> seq<byte>, entry: Central -> ZipEntry, read: EntryReader,
                    good: Central -> bool)
    requires header == Header && entry == EntryMaker(file) && read == RecordAt(file) && good == Goods(file)
    ensures Promised(file, header, entry, read, good)
  {
    forall r, p: nat
      ensures PromisedAt(file, header, entry, read, good, r, p)
    {
      OneReads(file, header, entry, read, good, r, p);
    }
  }

  lemma {:induction false} HeadersRead(file: seq<byte>, p: nat, rs: seq<Central>, header: Central -> seq<byte>,
                                       entry: Central -> ZipEntry, read: EntryReader, good: Central -> bool)
    requires Promised(file, header, entry, read, good) && (forall i :: 0 <= i < |rs| ==> good(rs[i])) &&
             StandsAt(file, p, Cat(header, rs))
    ensures ReadsFrom(read, p, rs, header, entry)
    decreases |rs|
  {
    if rs != [] {
      StandsIn(file, p, header(rs[0]), Cat(header, rs[1..]));
      assert good(rs[0]) && PromisedAt(file, header, entry, read, good, rs[0], p);
      HeadersRead(file, p + |header(rs[0])|, rs[1..], header, entry, read, good);
    }
  }

  lemma DirectoryCons(read: EntryReader, p: nat, n: nat, e: ZipEntry, next: nat, rest: seq<ZipEntry>)
    requires n > 0 && read(p) == Some((e, next)) && Directory(read, next, n - 1) == Some(rest)
    ensures Directory(read, p, n) == Some([e] + rest)
  {
  }

  lemma DirectoryReadBack(file: seq<byte>, p: nat, rs: seq<Central>)
    requires StandsAt(file, p, Headers(rs)) && AllGood(file, rs)
    ensures Directory(RecordAt(file), p, |rs|) == Some(EntriesOf(file, rs))
  {
    PromiseKept(file, Header, EntryMaker(file), RecordAt(file), Goods(file));
    HeadersRead(file, p, rs, Header, EntryMaker(file), RecordAt(file), Goods(file));
    DirectoryOfReads(RecordAt(file), p, rs, Header, EntryMaker(file));
  }

  /** An end record in front of a comment of `c` bytes; section 4.3.16 of the APPNOTE. */
  function EndRecord(n: nat, size: nat, offset: nat, c: nat): (b: seq<byte>)
    ensures |b| == EndHeader
  {
    Write4(EndSignature)
    + ((Write2(0) + Write2(0)) + (Write2(n) + (Write2(n) + (Write4(size) + (Write4(offset) + Write2(c))))))
  }

  lemma EndRead(file: seq<byte>, p: nat, n: nat, size: nat, offset: nat, c: nat)
    requires StandsAt(file, p, EndRecord(n, size, offset, c)) && Small2(n) && Small4(offset) && Small2(c)
    ensures Unsigned4(file, p) == EndSignature && Read2(file, p + 8) == n && Unsigned4(file, p + 16) == offset &&
            Read2(file, p + 20) == c
  {
    var sig, disks, num := Write4(EndSignature), Write2(0) + Write2(0), Write2(n);
    var dir, at, len := Write4(size), Write4(offset), Write2(c);
    StandsIn(file, p, sig, disks + (num + (num + (dir + (at + len)))));
    StandsIn(file, p + 4, disks, num + (num + (dir + (at + len))));
    StandsIn(file, p + 8, num, num + (dir + (at + len)));
    StandsIn(file, p + 10, num, dir + (at + len));
    StandsIn(file, p + 12, dir, at + len);
    StandsIn(file, p + 16, at, len);
    ValueUnsigned4(file, p, EndSignature);
    Value2(file, p + 8, n);
    ValueUnsigned4(file, p + 16, offset);
    Value2(file, p + 20, c);
  }

  /** The files with their local headers, the central directory, the end record, the comment of the archive. */
  function Archive(body: seq<byte>, rs: seq<Central>, comment: seq<byte>): (file: seq<byte>) {
    body + (Headers(rs) + (EndRecord(|rs|, |Headers(rs)|, |body|, |comment|) + comment))
  }

  lemma ArchiveParts(body: seq<byte>, dir: seq<byte>, end: seq<byte>, comment: seq<byte>, file: seq<byte>)
    requires |end| == EndHeader && |body| >= 4 && file == body + (dir + (end + comment))
    ensures StandsAt(file, |body|, dir) && StandsAt(file, |file| - |comment| - EndHeader, end) &&
            StandsAt(file, 0, body[..4])
    ensures StandsAt(file, |file| - |comment|, comment)
  {
    assert StandsAt(file, 0, body + (dir + (end + comment)));
    StandsIn(file, 0, body, dir + (end + comment));
    StandsIn(file, |body|, dir, end + comment);
    StandsIn(file, |body| + |dir|, end, comment);
    assert file[0..4] == body[..4];
  }

  /** No end signature stands behind `at` where the backward scan looks. */
  predicate Unmarked(file: seq<byte>, at: int) { forall j :: at < j <= |file| - EndHeader ==> !EndAt(file, j) }

  lemma OpensIff(file: seq<byte>, at: nat)
    requires at + EndHeader <= |file| && Unsigned4(file, 0) == LocalSignature && Unsigned4(file, at) == EndSignature
    ensures Opens(file, at) <==> Unmarked(file, at)
  {
  }

  lemma RecordsFrom(file: seq<byte>, at: nat, n: nat, offset: nat, es: seq<ZipEntry>)
    requires at + EndHeader <= |file| && Read2(file, at + 8) == n > 0 && Unsigned4(file, at + 16) == offset < |file|
    requires Directory(RecordAt(file), offset, n) == Some(es)
    ensures RecordsOf(file, at) == Some(es)
  {
  }

  /** What an archive must be like: it starts with a local header, and its lengths fit their fields. */
  predicate Laid(body: seq<byte>, rs: seq<Central>, comment: seq<byte>) {
    |body| >= 4 && Small4(|body|) && body[..4] == Write4(LocalSignature) && 0 < |rs| < 0x1_0000 && Small2(|comment|)
  }

  /**
   An archive that is laid out like that is opened at its end record exactly when no end signature stands behind it
   where the backward scan looks, and the entries found there are those of its directory.
   */
  lemma ArchiveReadBack(body: seq<byte>, rs: seq<Central>, comment: seq<byte>, file: seq<byte>, at: int)
    requires Laid(body, rs, comment) && file == Archive(body, rs, comment) && AllGood(file, rs) &&
             at == |file| - |comment| - EndHeader
    ensures 0 <= at && (Opens(file, at) <==> Unmarked(file, at)) && RecordsOf(file, at) == Some(EntriesOf(file, rs))
    ensures EndAt(file, at) && Read2(file, at + 20) == |comment| && StandsAt(file, |file| - |comment|, comment)
  {
    var dir := Headers(rs);
    ArchiveParts(body, dir, EndRecord(|rs|, |dir|, |body|, |comment|), comment, file);
    EndRead(file, at, |rs|, |dir|, |body|, |comment|);
    ValueUnsigned4(file, 0, LocalSignature);
    DirectoryReadBack(file, |body|, rs);
    OpensIff(file, at);
    RecordsFrom(file, at, |rs|, |body|, EntriesOf(file, rs));
  }

  lemma OneEnd(file: seq<byte>, a: int, b: int)
    requires Opens(file, a) && Opens(file, b)
    ensures a == b
  {
  }

  method OpenKnown(file: seq<byte>, ghost end: nat, ghost es: seq<ZipEntry>) returns (entries: array<ZipEntry>)
    requires Opens(file, end) && RecordsOf(file, end) == Some(es)
    ensures SortedFrom(entries[..], es)
  {
    var ok;
    ghost var found;
    ok, entries, found := Parse(file);
    if ok { OneEnd(file, end, found); }
  }

  /** Opening a written archive gives its entries, sorted by name. */
  method OpenWritten(file: seq<byte>, ghost body: seq<byte>, ghost rs: seq<Central>, ghost comment: seq<byte>)
      returns (entries: array<ZipEntry>)
    requires Laid(body, rs, comment) && file == Archive(body, rs, comment) && AllGood(file, rs)
    requires Unmarked(file, |file| - |comment| - EndHeader)
    ensures SortedFrom(entries[..], EntriesOf(file, rs))
  {
    ghost var at := |file| - |comment| - EndHeader;
    ArchiveReadBack(body, rs, comment, file, at);
    entries := OpenKnown(file, at, EntriesOf(file, rs));
  }
}
