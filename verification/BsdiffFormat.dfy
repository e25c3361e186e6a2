/**
 The bsdiff patch format: control triples, a diff block and an extra block, each bzip2-compressed, behind a 32-byte
 header. `Replay` is what a patch means; `Encodes` is what a list of triples must satisfy to describe `new`.
 */
module BsdiffFormat {
  import opened Bytes

  /**
   "Add `add` bytes of old to `add` bytes of the diff block, copy `copy` bytes of the extra block, skip `seek` in old."
   */
  datatype Triple = Triple(add: int, copy: int, seek: int)

  /** bzip2 as far as the patch format relies on it. */
  datatype Bzip2 = Bzip2(compress: seq<byte> -> seq<byte>, decompress: seq<byte> -> Option<seq<byte>>) {

    /** Decompression undoes compression, and a compressed stream shows where it ends. */
    ghost predicate Lawful() {
      forall x, tail :: decompress(compress(x) + tail) == Some(x)
    }

    /** Compressed data are at most twice as long as the data, and 600 bytes. */
    ghost predicate Modest() {
      forall x :: |compress(x)| <= 2 * |x| + 600
    }

    /** The bytes a reader can draw from the stream at the start of `input`. */
    function Contents(input: seq<byte>): (data: seq<byte>) {
      match decompress(input)
      case Some(x) => x
      case None => []
    }
  }

  const Limit: int := 0x8000_0000_0000_0000

  const Magic: seq<byte> := [0x42, 0x53, 0x44, 0x49, 0x46, 0x46, 0x34, 0x30]  // "BSDIFF40"

  // Positions reached by a list of triples

  function NewPos(ctrl: seq<Triple>): (n: int) {
    if ctrl == [] then 0 else NewPos(ctrl[..|ctrl| - 1]) + ctrl[|ctrl| - 1].add + ctrl[|ctrl| - 1].copy
  }

  function OldPos(ctrl: seq<Triple>): (n: int) {
    if ctrl == [] then 0 else OldPos(ctrl[..|ctrl| - 1]) + ctrl[|ctrl| - 1].add + ctrl[|ctrl| - 1].seek
  }

  function DiffPos(ctrl: seq<Triple>): (n: int) {
    if ctrl == [] then 0 else DiffPos(ctrl[..|ctrl| - 1]) + ctrl[|ctrl| - 1].add
  }

  function ExtraPos(ctrl: seq<Triple>): (n: int) {
    if ctrl == [] then 0 else ExtraPos(ctrl[..|ctrl| - 1]) + ctrl[|ctrl| - 1].copy
  }

  /** Diff bytes plus old bytes; positions outside old leave the diff byte as it is. */
  function AddOld(old_: seq<byte>, opos: int, diff: seq<byte>): (r: seq<byte>)
    ensures |r| == |diff|
  {
    seq(|diff|, i requires 0 <= i < |diff| =>
      if 0 <= opos + i < |old_| then AddByte(diff[i], old_[opos + i]) else diff[i])
  }

  /** `new[n..n+t.add)` is the diff bytes added to old bytes, all of them inside old; `t.copy` extra bytes follow. */
  predicate TripleFits(old_: seq<byte>, new_: seq<byte>, t: Triple, db: seq<byte>, eb: seq<byte>, n: int, o: int,
                       d: int, e: int) {
    && 0 <= t.add < Limit && 0 <= t.copy < Limit && -Limit < t.seek < Limit
    && 0 <= n && n + t.add + t.copy <= |new_| && 0 <= o && o + t.add <= |old_|
    && 0 <= d && d + t.add <= |db| && 0 <= e && e + t.copy <= |eb|
    && new_[n..n + t.add] == AddOld(old_, o, db[d..d + t.add])
    && new_[n + t.add..n + t.add + t.copy] == eb[e..e + t.copy]
  }

  predicate TripleFitsAt(old_: seq<byte>, new_: seq<byte>, ctrl: seq<Triple>, db: seq<byte>, eb: seq<byte>, k: int)
    requires 0 <= k < |ctrl|
  {
    var done := ctrl[..k];
    TripleFits(old_, new_, ctrl[k], db, eb, NewPos(done), OldPos(done), DiffPos(done), ExtraPos(done))
  }

  /** The triples and blocks describe the first `scan` bytes of `new` and leave the old position at `opos`. */
  predicate Encodes(old_: seq<byte>, new_: seq<byte>, ctrl: seq<Triple>, db: seq<byte>, eb: seq<byte>, scan: int,
                    opos: int) {
    && NewPos(ctrl) == scan && OldPos(ctrl) == opos && DiffPos(ctrl) == |db| && ExtraPos(ctrl) == |eb|
    && forall k :: 0 <= k < |ctrl| ==> TripleFitsAt(old_, new_, ctrl, db, eb, k)
  }

  lemma {:induction false} BlocksFillNew(ctrl: seq<Triple>)
    ensures NewPos(ctrl) == DiffPos(ctrl) + ExtraPos(ctrl)
  {
    if ctrl != [] { BlocksFillNew(ctrl[..|ctrl| - 1]); }
  }

  lemma FitsInLonger(old_: seq<byte>, new_: seq<byte>, t: Triple, db: seq<byte>, eb: seq<byte>, n: int, o: int, d: int,
                     e: int, db2: seq<byte>, eb2: seq<byte>)
    requires TripleFits(old_, new_, t, db, eb, n, o, d, e) && db <= db2 && eb <= eb2
    ensures TripleFits(old_, new_, t, db2, eb2, n, o, d, e)
  {
    assert db2[d..d + t.add] == db[d..d + t.add];
    assert eb2[e..e + t.copy] == eb[e..e + t.copy];
  }

  /** Appending a triple that fits, with its block bytes. */
  lemma AppendTriple(old_: seq<byte>, new_: seq<byte>, ctrl: seq<Triple>, db: seq<byte>, eb: seq<byte>, scan: int,
                     opos: int, t: Triple, db2: seq<byte>, eb2: seq<byte>)
    requires Encodes(old_, new_, ctrl, db, eb, scan, opos) && db <= db2 && eb <= eb2
    requires TripleFits(old_, new_, t, db2, eb2, scan, opos, |db|, |eb|)
    requires |db2| == |db| + t.add && |eb2| == |eb| + t.copy
    ensures Encodes(old_, new_, ctrl + [t], db2, eb2, scan + t.add + t.copy, opos + t.add + t.seek)
  {
    var all := ctrl + [t];
    assert all[..|ctrl|] == ctrl;
    forall k | 0 <= k < |all| ensures TripleFitsAt(old_, new_, all, db2, eb2, k) {
      if k < |ctrl| {
        assert all[..k] == ctrl[..k];
        assert TripleFitsAt(old_, new_, ctrl, db, eb, k);
        FitsInLonger(old_, new_, ctrl[k], db, eb, NewPos(ctrl[..k]), OldPos(ctrl[..k]), DiffPos(ctrl[..k]),
                     ExtraPos(ctrl[..k]), db2, eb2);
      }
    }
  }

  // What a patch means

  /**
   Replays the triples until `size` bytes are out. Running out of triples, diff bytes or extra bytes, or a triple that
   overruns the output, is an error.
   */
  function Replay(old_: seq<byte>, ctrl: seq<Triple>, ds: seq<byte>, es: seq<byte>, size: nat, out: seq<byte>,
                  opos: int): (r: Option<seq<byte>>)
    decreases |ctrl|
  {
    if |out| >= size then Some(out)
    else if ctrl == [] then None
    else
      var t := ctrl[0];
      if t.add < 0 || t.copy < 0 || |out| + t.add > size || |out| + t.add + t.copy > size || t.add > |ds| ||
         t.copy > |es| then None
      else Replay(old_, ctrl[1..], ds[t.add..], es[t.copy..], size,
                  out + AddOld(old_, opos, ds[..t.add]) + es[..t.copy], opos + t.add + t.seek)
  }

  function EncodeTriple(t: Triple): (b: seq<byte>)
    requires -Limit < t.add < Limit && -Limit < t.copy < Limit && -Limit < t.seek < Limit
    ensures |b| == 24
  {
    OfftOut(t.add) + OfftOut(t.copy) + OfftOut(t.seek)
  }

  predicate Writable(ctrl: seq<Triple>) {
    forall k :: 0 <= k < |ctrl| ==>
        -Limit < ctrl[k].add < Limit && -Limit < ctrl[k].copy < Limit && -Limit < ctrl[k].seek < Limit
  }

  function EncodeCtrl(ctrl: seq<Triple>): (b: seq<byte>)
    requires Writable(ctrl)
    ensures |b| == 24 * |ctrl|
  {
    if ctrl == [] then [] else EncodeTriple(ctrl[0]) + EncodeCtrl(ctrl[1..])
  }

  lemma OfftAt(pre: seq<byte>, x: int, rest: seq<byte>)
    requires -Limit < x < Limit
    ensures OfftIn(pre + OfftOut(x) + rest, |pre|) == x
  {
    var b := pre + OfftOut(x) + rest;
    assert b[|pre|..|pre| + 8] == OfftOut(x);
    OfftInOfOfftOut(b, |pre|, x);
  }

  /** The triples in a control block; a last incomplete one is never used. */
  function DecodeCtrl(cs: seq<byte>): (ctrl: seq<Triple>)
    ensures |ctrl| == |cs| / 24
  {
    if |cs| < 24 then [] else [Triple(OfftIn(cs, 0), OfftIn(cs, 8), OfftIn(cs, 16))] + DecodeCtrl(cs[24..])
  }

  lemma TripleReadBack(t: Triple, rest: seq<byte>)
    requires -Limit < t.add < Limit && -Limit < t.copy < Limit && -Limit < t.seek < Limit
    ensures var b := EncodeTriple(t) + rest;
            Triple(OfftIn(b, 0), OfftIn(b, 8), OfftIn(b, 16)) == t && b[24..] == rest
  {
    var x, y, z := OfftOut(t.add), OfftOut(t.copy), OfftOut(t.seek);
    var b := EncodeTriple(t) + rest;
    assert b == [] + x + (y + z + rest) == x + y + (z + rest) == x + y + z + rest;
    OfftAt([], t.add, y + z + rest);
    OfftAt(x, t.copy, z + rest);
    OfftAt(x + y, t.seek, rest);
  }

  /** The control block gives back the triples. */
  lemma {:induction false} CtrlReadBack(ctrl: seq<Triple>)
    requires Writable(ctrl)
    ensures DecodeCtrl(EncodeCtrl(ctrl)) == ctrl
  {
    if ctrl != [] {
      TripleReadBack(ctrl[0], EncodeCtrl(ctrl[1..]));
      CtrlReadBack(ctrl[1..]);
    }
  }

  /** Replaying one fitting triple puts out the next stretch of `new`. */
  lemma TripleOutput(old_: seq<byte>, new_: seq<byte>, t: Triple, db: seq<byte>, eb: seq<byte>, n: int, o: int, d: int,
                     e: int)
    requires TripleFits(old_, new_, t, db, eb, n, o, d, e)
    ensures new_[..n] + AddOld(old_, o, db[d..][..t.add]) + eb[e..][..t.copy] == new_[..n + t.add + t.copy]
    ensures db[d..][t.add..] == db[d + t.add..] && eb[e..][t.copy..] == eb[e + t.copy..]
  {
    assert db[d..][..t.add] == db[d..d + t.add] && eb[e..][..t.copy] == eb[e..e + t.copy];
  }

  lemma NextPositions(ctrl: seq<Triple>, k: nat)
    requires k < |ctrl|
    ensures NewPos(ctrl[..k + 1]) == NewPos(ctrl[..k]) + ctrl[k].add + ctrl[k].copy
    ensures OldPos(ctrl[..k + 1]) == OldPos(ctrl[..k]) + ctrl[k].add + ctrl[k].seek
    ensures DiffPos(ctrl[..k + 1]) == DiffPos(ctrl[..k]) + ctrl[k].add
    ensures ExtraPos(ctrl[..k + 1]) == ExtraPos(ctrl[..k]) + ctrl[k].copy
  {
    assert ctrl[..k + 1][..k] == ctrl[..k];
  }

  /** Replaying the triples from the `k`-th on completes `new`. */
  lemma {:induction false} ReplayFrom(old_: seq<byte>, new_: seq<byte>, ctrl: seq<Triple>, db: seq<byte>, eb: seq<byte>,
                                      opos: int, k: nat, n: int, o: int, d: int, e: int)
    requires Encodes(old_, new_, ctrl, db, eb, |new_|, opos) && k <= |ctrl|
    requires n == NewPos(ctrl[..k]) && o == OldPos(ctrl[..k]) && d == DiffPos(ctrl[..k]) && e == ExtraPos(ctrl[..k])
    requires 0 <= n <= |new_| && 0 <= d <= |db| && 0 <= e <= |eb|
    ensures Replay(old_, ctrl[k..], db[d..], eb[e..], |new_|, new_[..n], o) == Some(new_)
    decreases |ctrl| - k
  {
    assert ctrl[..|ctrl|] == ctrl;
    if n == |new_| {
      assert new_[..n] == new_;
    } else if k < |ctrl| {
      var t := ctrl[k];
      assert TripleFitsAt(old_, new_, ctrl, db, eb, k);
      NextPositions(ctrl, k);
      TripleOutput(old_, new_, t, db, eb, n, o, d, e);
      assert ctrl[k..][1..] == ctrl[k + 1..];
      ReplayFrom(old_, new_, ctrl, db, eb, opos, k + 1, n + t.add + t.copy, o + t.add + t.seek, d + t.add, e + t.copy);
    }
  }

  /** Triples that describe all of `new` replay to `new`. */
  lemma EncodedReplays(old_: seq<byte>, new_: seq<byte>, ctrl: seq<Triple>, db: seq<byte>, eb: seq<byte>, opos: int)
    requires Encodes(old_, new_, ctrl, db, eb, |new_|, opos)
    ensures Replay(old_, ctrl, db, eb, |new_|, [], 0) == Some(new_)
  {
    assert ctrl[..0] == [] && ctrl[0..] == ctrl && db[0..] == db && eb[0..] == eb && new_[..0] == [];
    ReplayFrom(old_, new_, ctrl, db, eb, opos, 0, 0, 0, 0, 0);
  }

  // The file

  function PatchFile(bz: Bzip2, cs: seq<byte>, db: seq<byte>, eb: seq<byte>, size: nat): (file: seq<byte>)
    requires |bz.compress(cs)| < Limit && |bz.compress(db)| < Limit && size < Limit
    ensures |file| >= 32
  {
    var c, d, e := bz.compress(cs), bz.compress(db), bz.compress(eb);
    HeaderBytes(|c|, |d|, size) + c + d + e
  }

  /** All that goes into a patch: the triples, the diff block and the extra block. */
  datatype Script = Script(ctrl: seq<Triple>, db: seq<byte>, eb: seq<byte>)

  /** The script describes all of new, with no more triples than new has bytes and one. */
  predicate Describes(old_: seq<byte>, new_: seq<byte>, s: Script) {
    && Encodes(old_, new_, s.ctrl, s.db, s.eb, |new_|, OldPos(s.ctrl))
    && Writable(s.ctrl) && |s.ctrl| <= |new_| + 1 && |s.db| + |s.eb| == |new_|
  }

  /** The lengths of the first two compressed blocks can be written as an `off_t`. */
  predicate Storable(bz: Bzip2, s: Script)
    requires Writable(s.ctrl)
  {
    |bz.compress(EncodeCtrl(s.ctrl))| < Limit && |bz.compress(s.db)| < Limit
  }

  function ScriptFile(bz: Bzip2, s: Script, size: nat): (file: seq<byte>)
    requires Writable(s.ctrl) && Storable(bz, s) && size < Limit
    ensures |file| >= 32
  {
    PatchFile(bz, EncodeCtrl(s.ctrl), s.db, s.eb, size)
  }

  /** Only a compressed block that is too long prevents a patch, and the block itself is not much longer than new. */
  lemma NotStorable(bz: Bzip2, old_: seq<byte>, new_: seq<byte>, s: Script)
    requires Describes(old_, new_, s) && !Storable(bz, s)
    ensures exists x :: |x| <= 24 * (|new_| + 1) && |bz.compress(x)| >= Limit
  {
    var x := if |bz.compress(s.db)| >= Limit then s.db else EncodeCtrl(s.ctrl);
    assert |x| <= 24 * (|new_| + 1);
  }

  /** With a modest compressor there is a patch, and it is not much longer than new. */
  lemma ModestFile(bz: Bzip2, old_: seq<byte>, new_: seq<byte>, s: Script)
    requires bz.Modest() && Describes(old_, new_, s) && |new_| < 0x200_0000_0000_0000
    ensures Storable(bz, s) && |ScriptFile(bz, s, |new_|)| <= 50 * |new_| + 1880
  {
    var cs := EncodeCtrl(s.ctrl);
    assert |bz.compress(cs)| <= 2 * |cs| + 600;
    assert |bz.compress(s.db)| <= 2 * |s.db| + 600;
    assert |bz.compress(s.eb)| <= 2 * |s.eb| + 600;
  }

  /** The lengths in the header at `off`, when the magic number is there and none is negative. */
  function Header(patch: seq<byte>, off: nat): (h: Option<(int, int, int)>)
    requires off + 32 <= |patch|
  {
    if patch[off..off + 8] != Magic then None
    else
      var c, d, n := OfftIn(patch, off + 8), OfftIn(patch, off + 16), OfftIn(patch, off + 24);
      if c < 0 || d < 0 || n < 0 then None else Some((c, d, n))
  }

  /** The contents of the three blocks of a patch, and the size of the file it makes. */
  datatype Blocks = Blocks(cs: seq<byte>, ds: seq<byte>, es: seq<byte>, size: nat)

  /** The patch that starts at `off`. Nothing marks the end of the extra block but the stream itself. */
  function Unpack(bz: Bzip2, patch: seq<byte>, off: nat): (r: Option<Blocks>)
    requires off + 32 <= |patch|
  {
    match Header(patch, off)
    case None => None
    case Some((c, d, n)) =>
      var at := off + 32;
      if at + c + d > |patch| then None
      else Some(Blocks(bz.Contents(patch[at..at + c]), bz.Contents(patch[at + c..at + c + d]),
                       bz.Contents(patch[at + c + d..]), n))
  }

  /** What the patch that starts at `off` makes of `old`. */
  function Apply(bz: Bzip2, old_: seq<byte>, patch: seq<byte>, off: nat): (r: Option<seq<byte>>)
    requires off + 32 <= |patch|
  {
    match Unpack(bz, patch, off)
    case None => None
    case Some(b) => Replay(old_, DecodeCtrl(b.cs), b.ds, b.es, b.size, [], 0)
  }

  function HeaderBytes(c: nat, d: nat, n: nat): (h: seq<byte>)
    requires c < Limit && d < Limit && n < Limit
    ensures |h| == 32
  {
    Magic + OfftOut(c) + OfftOut(d) + OfftOut(n)
  }

  lemma HeaderReadBack(pre: seq<byte>, c: nat, d: nat, n: nat, rest: seq<byte>)
    requires c < Limit && d < Limit && n < Limit
    ensures Header(pre + HeaderBytes(c, d, n) + rest, |pre|) == Some((c, d, n))
  {
    var x, y, z := OfftOut(c), OfftOut(d), OfftOut(n);
    var p := pre + HeaderBytes(c, d, n) + rest;
    assert p[|pre|..|pre| + 8] == Magic;
    assert p == (pre + Magic) + x + (y + z + rest);
    OfftAt(pre + Magic, c, y + z + rest);
    assert p == (pre + Magic + x) + y + (z + rest);
    OfftAt(pre + Magic + x, d, z + rest);
    assert p == (pre + Magic + x + y) + z + rest;
    OfftAt(pre + Magic + x + y, n, rest);
  }

  /** Where the blocks stand in the file. */
  lemma Layout(pre: seq<byte>, h: seq<byte>, c: seq<byte>, d: seq<byte>, e: seq<byte>, tail: seq<byte>)
    ensures var p := pre + (h + c + d + e) + tail;
            var at := |pre| + |h|;
            && p == pre + h + (c + d + e + tail)
            && p[at..at + |c|] == c && p[at + |c|..at + |c| + |d|] == d && p[at + |c| + |d|..] == e + tail
  {
  }

  lemma UnpackAt(bz: Bzip2, patch: seq<byte>, off: nat, c: seq<byte>, d: seq<byte>, e: seq<byte>, size: nat)
    requires off + 32 + |c| + |d| <= |patch| && Header(patch, off) == Some((|c|, |d|, size))
    requires var at := off + 32;
             patch[at..at + |c|] == c && patch[at + |c|..at + |c| + |d|] == d && patch[at + |c| + |d|..] == e
    ensures Unpack(bz, patch, off) == Some(Blocks(bz.Contents(c), bz.Contents(d), bz.Contents(e), size))
  {
  }

  lemma UnpackParts(bz: Bzip2, pre: seq<byte>, h: seq<byte>, c: seq<byte>, d: seq<byte>, e: seq<byte>, tail: seq<byte>,
                    size: nat)
    requires |h| == 32 && Header(pre + h + (c + d + e + tail), |pre|) == Some((|c|, |d|, size))
    ensures Unpack(bz, pre + (h + c + d + e) + tail, |pre|)
         == Some(Blocks(bz.Contents(c), bz.Contents(d), bz.Contents(e + tail), size))
  {
    Layout(pre, h, c, d, e, tail);
    UnpackAt(bz, pre + (h + c + d + e) + tail, |pre|, c, d, e + tail, size);
  }

  lemma FileUnpacks(bz: Bzip2, c: seq<byte>, d: seq<byte>, e: seq<byte>, size: nat, pre: seq<byte>, file: seq<byte>,
                    tail: seq<byte>)
    requires |c| < Limit && |d| < Limit && size < Limit && file == HeaderBytes(|c|, |d|, size) + c + d + e
    ensures Unpack(bz, pre + file + tail, |pre|)
         == Some(Blocks(bz.Contents(c), bz.Contents(d), bz.Contents(e + tail), size))
  {
    var h := HeaderBytes(|c|, |d|, size);
    HeaderReadBack(pre, |c|, |d|, size, c + d + e + tail);
    UnpackParts(bz, pre, h, c, d, e, tail, size);
  }

  /** A patch file gives back its three blocks, wherever it stands and whatever follows it. */
  lemma PatchUnpacks(bz: Bzip2, cs: seq<byte>, db: seq<byte>, eb: seq<byte>, size: nat, pre: seq<byte>, tail: seq<byte>)
    requires bz.Lawful() && |bz.compress(cs)| < Limit && |bz.compress(db)| < Limit && size < Limit
    ensures Unpack(bz, pre + PatchFile(bz, cs, db, eb, size) + tail, |pre|) == Some(Blocks(cs, db, eb, size))
  {
    var c, d, e := bz.compress(cs), bz.compress(db), bz.compress(eb);
    FileUnpacks(bz, c, d, e, size, pre, PatchFile(bz, cs, db, eb, size), tail);
    DrawsBack(bz, cs, []);
    DrawsBack(bz, db, []);
    DrawsBack(bz, eb, tail);
    assert c + [] == c && d + [] == d;
  }

  /** A patch file made of triples that describe `new` makes `new` out of `old`. */
  lemma PatchRebuilds(bz: Bzip2, old_: seq<byte>, new_: seq<byte>, ctrl: seq<Triple>, db: seq<byte>, eb: seq<byte>,
                      opos: int, pre: seq<byte>, tail: seq<byte>)
    requires bz.Lawful() && Encodes(old_, new_, ctrl, db, eb, |new_|, opos) && Writable(ctrl)
    requires |bz.compress(EncodeCtrl(ctrl))| < Limit && |bz.compress(db)| < Limit && |new_| < Limit
    ensures Apply(bz, old_, pre + PatchFile(bz, EncodeCtrl(ctrl), db, eb, |new_|) + tail, |pre|) == Some(new_)
  {
    PatchUnpacks(bz, EncodeCtrl(ctrl), db, eb, |new_|, pre, tail);
    CtrlReadBack(ctrl);
    EncodedReplays(old_, new_, ctrl, db, eb, opos);
  }

  lemma DrawsBack(bz: Bzip2, x: seq<byte>, tail: seq<byte>)
    requires bz.Lawful()
    ensures bz.Contents(bz.compress(x) + tail) == x
  {
    assert bz.decompress(bz.compress(x) + tail) == Some(x);
  }
}
