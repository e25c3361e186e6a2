/** Masking the retouched entries of a prelinked library. */
module Retouch {
  import opened Bytes

  // 32-bit arithmetic

  const Two32 := 0x1_0000_0000

  function Signed(v: int): (r: int)
    ensures -0x8000_0000 <= r < 0x8000_0000
  {
    var u := v % Two32;
    if u < 0x8000_0000 then u else u - Two32
  }

  predicate IsInt32(v: int) { -0x8000_0000 <= v < 0x8000_0000 }

  lemma SignedOfDifference(original: nat, t: int)
    requires original < Two32 && IsInt32(t)
    ensures Signed((original + t) % Two32 - original) == t
  {
    assert (original + t) % Two32 == original + t || (original + t) % Two32 == original + t - Two32 ||
           (original + t) % Two32 == original + t + Two32;
  }

  // The list of entries

  /**
   An entry: where the value is (-1 stands for the address in the prelink record) and what it was before retouching.
   */
  datatype Entry = Entry(offset: int, original: nat)

  /** How many bytes the next entry takes, by its first byte. */
  function EntrySize(first: byte): (n: nat) { if first >= 0x80 then 2 else if first >= 0x40 then 3 else 8 }

  /** `decode_bytes`: the short forms give differences to the entry before. */
  function DecodeBytes(s: seq<byte>, prev: Entry): (e: Entry)
    ensures IsInt32(e.offset) && e.original < Two32
  {
    if |s| == 2 then
      var d := At(s, 0) % 32 * 256 + At(s, 1);
      Entry(Signed(prev.offset + (At(s, 0) / 32 % 4 + 1) * 4),
            (prev.original + (if d >= 0x1000 then d - 0x2000 else d)) % Two32)
    else if |s| == 3 then
      var d := At(s, 0) % 16 * 0x1_0000 + At(s, 1) * 0x100 + At(s, 2);
      Entry(Signed(prev.offset + (At(s, 0) / 16 % 4 + 1) * 4),
            (prev.original + (if d >= 0x8_0000 then d - 0x10_0000 else d)) % Two32)
    else if |s| == 8 then
      var offset := At(s, 0) * 0x100_0000 + At(s, 1) * 0x1_0000 + At(s, 2) * 0x100 + At(s, 3);
      Entry(if offset == 0x3fff_ffff then -1 else Signed(offset),
            At(s, 4) * 0x100_0000 + At(s, 5) * 0x1_0000 + At(s, 6) * 0x100 + At(s, 7))
    else NoEntry
  }

  /** The two-byte form: `k + 1` words further on, a value that differs by `d`. */
  function ShortForm(k: nat, d: int): (s: seq<byte>)
    requires k < 4 && -0x1000 <= d < 0x1000
  {
    var u := d % 0x2000;
    [0x80 + 32 * k + u / 256, u % 256]
  }

  /** The three-byte form, for larger differences. */
  function MediumForm(k: nat, d: int): (s: seq<byte>)
    requires k < 4 && -0x8_0000 <= d < 0x8_0000
  {
    var u := d % 0x10_0000;
    [0x40 + 16 * k + u / 0x1_0000, u / 256 % 256, u % 256]
  }

  /** The eight-byte form: the offset and the value themselves; -1 is written as 3fffffff. */
  function LongForm(offset: int, original: nat): (s: seq<byte>)
    requires -1 <= offset < 0x3fff_ffff && original < Two32
  {
    var o := if offset == -1 then 0x3fff_ffff else offset;
    [o / 0x100_0000, o / 0x1_0000 % 256, o / 0x100 % 256, o % 256,
     original / 0x100_0000, original / 0x1_0000 % 256, original / 0x100 % 256, original % 256]
  }

  lemma ShortHead(k: nat, h: nat)
    requires k < 4 && h < 32
    ensures var a := 0x80 + 32 * k + h; a % 32 == h && a / 32 % 4 == k
  {
  }

  lemma ShortFormDecoded(k: nat, d: int, prev: Entry)
    requires k < 4 && -0x1000 <= d < 0x1000 && prev.original < Two32
    ensures var s := ShortForm(k, d);
            && EntrySize(s[0]) == |s|
            && DecodeBytes(s, prev) == Entry(Signed(prev.offset + (k + 1) * 4), (prev.original + d) % Two32)
  {
    var u, s := d % 0x2000, ShortForm(k, d);
    ShortHead(k, u / 256);
    assert u == if d >= 0 then d else d + 0x2000;
    assert At(s, 0) % 32 * 256 + At(s, 1) == u;
  }

  lemma Digits(u: nat)
    requires u < Two32
    ensures u % 256 + u / 0x100 % 256 * 0x100 + u / 0x1_0000 % 256 * 0x1_0000 + u / 0x100_0000 * 0x100_0000 == u
  {
    Unsigned4OfWrite4(u);
    assert u / 0x100_0000 % 256 == u / 0x100_0000;
  }

  lemma MediumHead(k: nat, h: nat)
    requires k < 4 && h < 16
    ensures var a := 0x40 + 16 * k + h; a % 16 == h && a / 16 % 4 == k
  {
  }

  lemma MediumFormDecoded(k: nat, d: int, prev: Entry)
    requires k < 4 && -0x8_0000 <= d < 0x8_0000 && prev.original < Two32
    ensures var s := MediumForm(k, d);
            && EntrySize(s[0]) == |s|
            && DecodeBytes(s, prev) == Entry(Signed(prev.offset + (k + 1) * 4), (prev.original + d) % Two32)
  {
    var u, s := d % 0x10_0000, MediumForm(k, d);
    MediumHead(k, u / 0x1_0000);
    Digits(u);
    assert u == if d >= 0 then d else d + 0x10_0000;
    assert At(s, 0) % 16 * 0x1_0000 + At(s, 1) * 0x100 + At(s, 2) == u;
  }

  lemma LongFormDecoded(offset: int, original: nat, prev: Entry)
    requires -1 <= offset < 0x3fff_ffff && original < Two32
    ensures var s := LongForm(offset, original);
            EntrySize(s[0]) == |s| && DecodeBytes(s, prev) == Entry(offset, original)
  {
    var o, s := if offset == -1 then 0x3fff_ffff else offset, LongForm(offset, original);
    Digits(o);
    Digits(original);
    assert At(s, 0) * 0x100_0000 + At(s, 1) * 0x1_0000 + At(s, 2) * 0x100 + At(s, 3) == o;
    assert At(s, 4) * 0x100_0000 + At(s, 5) * 0x1_0000 + At(s, 6) * 0x100 + At(s, 7) == original;
  }

  /** Makes an entry out of its bytes and the entry before. */
  type Coder = (seq<byte>, Entry) -> Entry

  /** All entries of the blob; nothing if the last one is cut off. */
  function Entries(decode: Coder, blob: seq<byte>, prev: Entry): (es: Option<seq<Entry>>)
    decreases |blob|
  {
    if blob == [] then Some([])
    else
      var n := EntrySize(blob[0]);
      if n > |blob| then None
      else
        var e := decode(blob[..n], prev);
        match Entries(decode, blob[n..], e)
        case None => None
        case Some(rest) => Some([e] + rest)
  }

  // The file

  const PrelinkTag: seq<byte> := [0x50, 0x52, 0x45, 0x20]
  const RetouchTag: seq<byte> := [0x52, 0x45, 0x54, 0x4f, 0x55, 0x43, 0x48, 0x20]

  /** The file ends with a retouch record and a prelink record. */
  predicate Retouched(b: seq<byte>) { |b| >= 20 && b[|b| - 4..] == PrelinkTag && b[|b| - 20..|b| - 12] == RetouchTag }

  /** Where the list of entries starts. */
  function BlobStart(b: seq<byte>): (p: int)
    requires |b| >= 20
  {
    Signed(|b| - 20 - Unsigned4(b, |b| - 12))
  }

  /** Where the value of an entry is in a file of `size` bytes. */
  function Place(size: nat, e: Entry): (p: int) { if e.offset == -1 then size - 8 else e.offset }

  /** The value of the entry lies in the prelink record, or wholly before the list. */
  predicate InPlace(blobStart: int, e: Entry) { e.offset == -1 || (0 <= e.offset && e.offset + 4 <= blobStart) }

  const NoEntry := Entry(0, 0)

  predicate AllInPlace(es: seq<Entry>, blobStart: int) {
    forall i :: 0 <= i < |es| ==> InPlace(blobStart, es[i]) && es[i].original < Two32
  }

  /** `es` is the list of the file, and all of it is as it should be. */
  predicate Sound(b: seq<byte>, es: seq<Entry>) {
    && Retouched(b) && 0 <= BlobStart(b) <= |b| - 20
    && Entries(DecodeBytes, b[BlobStart(b)..|b| - 20], NoEntry) == Some(es) && AllInPlace(es, BlobStart(b))
  }

  // What masking does to the bytes

  /** The four bytes that go to the place of each entry. */
  type Words = Entry -> seq<byte>

  ghost predicate Four(w: Words) { forall e :: |w(e)| == 4 }

  /** The original values moved by `t`. */
  function Moved(t: int): (w: Words)
    ensures Four(w)
  {
    (e: Entry) => Write4(e.original + t)
  }

  predicate Fit(size: nat, es: seq<Entry>) {
    forall i :: 0 <= i < |es| ==> 0 <= Place(size, es[i]) && Place(size, es[i]) + 4 <= size
  }

  /** The word `v` at position `p`. */
  function Put4(b: seq<byte>, p: int, v: seq<byte>): (r: seq<byte>)
    requires 0 <= p && p + 4 <= |b| && |v| == 4
    ensures |r| == |b|
  {
    b[..p] + v + b[p + 4..]
  }

  ghost function Masked(b: seq<byte>, es: seq<Entry>, w: Words): (r: seq<byte>)
    requires Fit(|b|, es) && Four(w)
    ensures |r| == |b|
    decreases |es|
  {
    if es == [] then b else Masked(Put4(b, Place(|b|, es[0]), w(es[0])), es[1..], w)
  }

  predicate Covers(size: nat, e: Entry, i: int) { Place(size, e) <= i < Place(size, e) + 4 }

  /** The byte that masking puts at `i`: that of the last entry that covers it. */
  ghost function MaskByte(size: nat, es: seq<Entry>, w: Words, i: int): (v: Option<byte>)
    requires Four(w)
    decreases |es|
  {
    if es == [] then None
    else
      var later := MaskByte(size, es[1..], w, i);
      if later.Some? then later
      else if Covers(size, es[0], i) then Some(w(es[0])[i - Place(size, es[0])])
      else None
  }

  /** Every byte of the masked file: that of the last entry that covers it, or what was there before. */
  lemma {:induction false} MaskedAt(b: seq<byte>, es: seq<Entry>, w: Words, i: nat)
    requires Fit(|b|, es) && Four(w) && i < |b|
    ensures Masked(b, es, w)[i] == if MaskByte(|b|, es, w, i).Some? then MaskByte(|b|, es, w, i).value else b[i]
    decreases |es|
  {
    if es != [] { MaskedAt(Put4(b, Place(|b|, es[0]), w(es[0])), es[1..], w, i); }
  }

  lemma {:induction false} MaskByteWhere(size: nat, es: seq<Entry>, w: Words, x: Words, i: int)
    requires Four(w) && Four(x)
    ensures MaskByte(size, es, w, i).Some? <==> MaskByte(size, es, x, i).Some?
    decreases |es|
  {
    if es != [] { MaskByteWhere(size, es[1..], w, x, i); }
  }

  lemma WrittenTwice(b: seq<byte>, es: seq<Entry>, w: Words, x: Words)
    requires Fit(|b|, es) && Four(w) && Four(x)
    ensures Masked(Masked(b, es, w), es, x) == Masked(b, es, x)
  {
    var c := Masked(b, es, w);
    forall i | 0 <= i < |b| ensures Masked(c, es, x)[i] == Masked(b, es, x)[i] {
      MaskedAt(c, es, x, i);
      MaskedAt(b, es, x, i);
      MaskedAt(b, es, w, i);
      MaskByteWhere(|b|, es, w, x, i);
    }
    assert Masked(c, es, x) == Masked(b, es, x);
  }

  /** Masking with one offset and then with another is masking with the second; so masking twice is masking once. */
  lemma MaskedTwice(b: seq<byte>, es: seq<Entry>, t1: int, t2: int)
    requires Fit(|b|, es)
    ensures Masked(Masked(b, es, Moved(t1)), es, Moved(t2)) == Masked(b, es, Moved(t2))
  {
    WrittenTwice(b, es, Moved(t1), Moved(t2));
  }

  lemma {:induction false} MaskByteOutside(size: nat, es: seq<Entry>, w: Words, i: int)
    requires Four(w) && forall k :: 0 <= k < |es| ==> !Covers(size, es[k], i)
    ensures MaskByte(size, es, w, i) == None
    decreases |es|
  {
    if es != [] { MaskByteOutside(size, es[1..], w, i); }
  }

  lemma SoundFits(b: seq<byte>, es: seq<Entry>)
    requires Sound(b, es)
    ensures Fit(|b|, es)
  {
  }

  /** Two files with the same records and the same list. */
  ghost predicate SameList(b: seq<byte>, c: seq<byte>, start: nat) {
    |b| == |c| >= 20 && start <= |b| - 20 && c[start..|b| - 8] == b[start..|b| - 8] && c[|b| - 4..] == b[|b| - 4..]
  }

  lemma SameSlice(b: seq<byte>, c: seq<byte>, lo: nat, hi: nat, i: nat, j: nat)
    requires hi <= |b| && hi <= |c| && lo <= i <= j <= hi && b[lo..hi] == c[lo..hi]
    ensures b[i..j] == c[i..j]
  {
    forall k | i <= k < j ensures b[k] == c[k] { assert b[lo..hi][k - lo] == c[lo..hi][k - lo]; }
  }

  lemma SameStart(b: seq<byte>, c: seq<byte>, start: nat)
    requires SameList(b, c, start)
    ensures BlobStart(b) == BlobStart(c)
  {
    var n := |b|;
    SameSlice(b, c, start, n - 8, n - 12, n - 8);
    Unsigned4At(c, n - 12, b[n - 12..n - 8]);
    Unsigned4At(b, n - 12, b[n - 12..n - 8]);
  }

  lemma SameListSound(b: seq<byte>, c: seq<byte>, es: seq<Entry>, start: nat)
    requires Sound(b, es) && start == BlobStart(b) && SameList(b, c, start)
    ensures Sound(c, es)
  {
    var n := |b|;
    SameStart(b, c, start);
    SameSlice(b, c, start, n - 8, n - 20, n - 12);
    SameSlice(b, c, start, n - 8, start, n - 20);
  }

  lemma MaskedSameList(b: seq<byte>, es: seq<Entry>, w: Words, start: nat)
    requires Fit(|b|, es) && Four(w) && |b| >= 20 && start <= |b| - 20 && AllInPlace(es, start)
    ensures SameList(b, Masked(b, es, w), start)
  {
    var c, n := Masked(b, es, w), |b|;
    forall i | start <= i < n && !(n - 8 <= i < n - 4) ensures c[i] == b[i] {
      MaskByteOutside(n, es, w, i);
      MaskedAt(b, es, w, i);
    }
  }

  /** Masking leaves the list and the records as they are. */
  lemma MaskedSound(b: seq<byte>, es: seq<Entry>, t: int)
    requires Sound(b, es)
    ensures Fit(|b|, es) && Sound(Masked(b, es, Moved(t)), es)
  {
    SoundFits(b, es);
    MaskedSameList(b, es, Moved(t), BlobStart(b));
    SameListSound(b, Masked(b, es, Moved(t)), es, BlobStart(b));
  }

  // Inferring the offset

  /** By how much the value of an entry is off. */
  function Shift(b: seq<byte>, e: Entry): (d: int)
    requires 0 <= Place(|b|, e) && Place(|b|, e) + 4 <= |b|
  {
    Signed(Unsigned4(b, Place(|b|, e)) - e.original)
  }

  lemma WordShift(c: seq<byte>, e: Entry, w: Words, t: int)
    requires var p := Place(|c|, e); 0 <= p && p + 4 <= |c| && c[p..p + 4] == w(e)
    requires w == Moved(t) && e.original < Two32 && IsInt32(t)
    ensures Shift(c, e) == t
  {
    Unsigned4At(c, Place(|c|, e), Write4(e.original + t));
    Unsigned4OfWrite4(e.original + t);
    SignedOfDifference(e.original, t);
  }

  // The loop

  datatype Status = Error | Matched | Mismatched | NotApplicable

  /** What inference answers: the common shift of all entries, if they have one. */
  function Inferred(b: seq<byte>, es: seq<Entry>): (r: (Status, int))
    requires Fit(|b|, es)
  {
    if es == [] then (Matched, 0)
    else if forall k :: 0 <= k < |es| ==> Shift(b, es[k]) == Shift(b, es[0]) then (Matched, Shift(b, es[0]))
    else (Mismatched, 0)
  }

  class Decoder {
    var prev: Entry

    constructor ()
      ensures prev == NoEntry
    {
      prev := NoEntry;
    }

    /** `decode_in_memory`: the entry at `ptr`, and where the next one starts. */
    method Decode(b: array<byte>, ptr: nat) returns (next: nat, e: Entry)
      requires ptr + 8 <= b.Length
      modifies this
      ensures next == ptr + EntrySize(b[ptr]) && e == DecodeBytes(b[ptr..next], old(prev)) && prev == e
    {
      var n := EntrySize(b[ptr]);
      var input: seq<byte> := [b[ptr]];
      next := ptr + 1;
      while |input| < n
        invariant 1 <= |input| <= n && next == ptr + |input| && input == b[ptr..next]
      {
        input := input + [b[next]];
        next := next + 1;
      }
      e := DecodeBytes(input, prev);
      prev := e;
    }
  }

  /** Stores a word. */
  method Store4(b: array<byte>, p: nat, v: int)
    requires p + 4 <= b.Length
    modifies b
    ensures b[..] == Put4(old(b[..]), p, Write4(v))
  {
    var w := Write4(v);
    b[p], b[p + 1], b[p + 2], b[p + 3] := w[0], w[1], w[2], w[3];
  }

  /** Puts the word of one entry, if an offset is asked for, and tells by how much the entry is off then. */
  method MaskEntry(b: array<byte>, e: Entry, p: nat, desired: Option<int>) returns (shift: int)
    requires p == Place(b.Length, e) && p + 4 <= b.Length && e.original < Two32 &&
             (desired.Some? ==> IsInt32(desired.value))
    modifies b
    ensures desired.None? ==> b[..] == old(b[..]) && shift == Shift(b[..], e)
    ensures desired.Some? ==> b[..] == Put4(old(b[..]), p, Moved(desired.value)(e)) && shift == desired.value
  {
    if desired.Some? {
      Store4(b, p, e.original + desired.value);
      assert b[..][p..p + 4] == Moved(desired.value)(e);
      WordShift(b[..], e, Moved(desired.value), desired.value);
    }
    shift := Signed(Unsigned4(b[..], p) - e.original);
  }

  lemma EntriesStep(decode: Coder, b: seq<byte>, c: seq<byte>, start: nat, ptr: nat, end: nat, prev: Entry,
                    rest: seq<Entry>, next: nat)
    requires SameList(b, c, start) && start <= ptr < end == |b| - 20
    requires Entries(decode, b[ptr..end], prev) == Some(rest) && next == ptr + EntrySize(c[ptr])
    ensures next <= end && rest != [] && rest[0] == decode(c[ptr..next], prev) &&
            Entries(decode, b[next..end], rest[0]) == Some(rest[1..])
  {
    SameSlice(b, c, start, |b| - 8, ptr, ptr + 1);
    assert b[ptr] == b[ptr..ptr + 1][0] == c[ptr..ptr + 1][0] == c[ptr];
    EntriesFirst(decode, b[ptr..end], next - ptr, prev, rest);
    SplitSlice(b, ptr, next, end);
    SameSlice(b, c, start, |b| - 8, ptr, next);
  }

  lemma SplitSlice(b: seq<byte>, i: nat, j: nat, k: nat)
    requires i <= j <= k <= |b|
    ensures b[i..k][..j - i] == b[i..j] && b[i..k][j - i..] == b[j..k]
  {
  }

  lemma EntriesFirst(decode: Coder, blob: seq<byte>, n: nat, prev: Entry, rest: seq<Entry>)
    requires blob != [] && Entries(decode, blob, prev) == Some(rest) && n == EntrySize(blob[0])
    ensures n <= |blob| && rest != [] && rest[0] == decode(blob[..n], prev) &&
            Entries(decode, blob[n..], rest[0]) == Some(rest[1..])
  {
  }

  lemma PutKeepsList(b: seq<byte>, c: seq<byte>, start: nat, e: Entry, p: nat, v: seq<byte>)
    requires SameList(b, c, start) && InPlace(start, e) && p == Place(|c|, e) && p + 4 <= |c| && |v| == 4
    ensures SameList(b, Put4(c, p, v), start)
  {
    var d, n := Put4(c, p, v), |b|;
    forall i | start <= i < n && !(n - 8 <= i < n - 4) ensures d[i] == c[i] { }
    forall i | start <= i < n - 8
      ensures d[i] == b[i]
    {
      assert c[start..n - 8][i - start] == b[start..n - 8][i - start];
    }
    assert d[start..n - 8] == b[start..n - 8] && d[n - 4..] == c[n - 4..];
  }

  /** The shifts of the first `i` entries are all the same. */
  ghost predicate Agree(b: seq<byte>, es: seq<Entry>, i: nat)
    requires Fit(|b|, es) && i <= |es|
  {
    forall k :: 0 <= k < i ==> Shift(b, es[k]) == Shift(b, es[0])
  }

  /** The list is untouched, and what is still to be decoded are the entries from the `i`-th on. */
  ghost predicate Reached(b: seq<byte>, es: seq<Entry>, start: nat, c: seq<byte>, ptr: nat, prev: Entry, i: nat) {
    && SameList(b, c, start) && start <= ptr <= |b| - 20 && i <= |es|
    && Entries(DecodeBytes, b[ptr..|b| - 20], prev) == Some(es[i..])
  }

  lemma ReachedNext(b: seq<byte>, es: seq<Entry>, start: nat, c: seq<byte>, ptr: nat, prev: Entry, i: nat, next: nat,
                    e: Entry)
    requires Reached(b, es, start, c, ptr, prev, i) && ptr < |b| - 20
    requires next == ptr + EntrySize(c[ptr]) && next <= |c| && e == DecodeBytes(c[ptr..next], prev)
    ensures i < |es| && e == es[i] && Reached(b, es, start, c, next, e, i + 1)
  {
    EntriesStep(DecodeBytes, b, c, start, ptr, |b| - 20, prev, es[i..], next);
    assert es[i..][0] == es[i] && es[i..][1..] == es[i + 1..];
  }

  /**
   Where the loop stands after `i` entries: what is still to be decoded, what the bytes are, and what is known about the
   shifts.
   */
  ghost predicate Midway(b: seq<byte>, es: seq<Entry>, desired: Option<int>, c: seq<byte>, ptr: nat, prev: Entry,
                         i: nat, candidate: int, mismatch: bool)
    requires Sound(b, es) && Fit(|b|, es)
  {
    && Reached(b, es, BlobStart(b), c, ptr, prev, i)
    && (desired.Some? ==>
          && Masked(c, es[i..], Moved(desired.value)) == Masked(b, es, Moved(desired.value))
          && candidate == desired.value && !mismatch)
    && (desired.None? ==>
          c == b && (candidate == if i == 0 then 0 else Shift(b, es[0])) && (mismatch <==> !Agree(b, es, i)))
  }

  /** One entry in the loop. */
  lemma MidwayStep(b: seq<byte>, es: seq<Entry>, desired: Option<int>, c: seq<byte>, ptr: nat, prev: Entry, i: nat,
                   candidate: int, mismatch: bool, next: nat, e: Entry, d: seq<byte>, shift: int)
    requires Sound(b, es) && Fit(|b|, es) && Midway(b, es, desired, c, ptr, prev, i, candidate, mismatch) &&
             ptr < |b| - 20
    requires next == ptr + EntrySize(c[ptr]) && next <= |c| && e == DecodeBytes(c[ptr..next], prev)
    requires 0 <= Place(|c|, e) && Place(|c|, e) + 4 <= |c|
    requires desired.None? ==> d == c && shift == Shift(c, e)
    requires desired.Some? ==> d == Put4(c, Place(|c|, e), Moved(desired.value)(e)) && shift == desired.value
    ensures i < |es| && e == es[i]
    ensures Midway(b, es, desired, d, next, e, i + 1, if i == 0 then shift else candidate,
                   mismatch || (i > 0 && candidate != shift))
  {
    ReachedNext(b, es, BlobStart(b), c, ptr, prev, i, next, e);
    if desired.Some? {
      PutKeepsList(b, c, BlobStart(b), e, Place(|c|, e), Moved(desired.value)(e));
      assert es[i..][0] == e && es[i..][1..] == es[i + 1..];
      MaskedFirst(c, es[i..], Moved(desired.value), e, es[i + 1..], d);
    }
  }

  lemma MaskedFirst(c: seq<byte>, es: seq<Entry>, w: Words, e: Entry, rest: seq<Entry>, d: seq<byte>)
    requires Fit(|c|, es) && Four(w) && es != [] && e == es[0] && rest == es[1..] && d == Put4(c, Place(|c|, e), w(e))
    ensures Fit(|d|, rest) && Masked(c, es, w) == Masked(d, rest, w)
  {
  }

  lemma MidwayStart(b: seq<byte>, es: seq<Entry>, desired: Option<int>)
    requires Sound(b, es) && Fit(|b|, es)
    ensures Midway(b, es, desired, b, BlobStart(b), NoEntry, 0, if desired.Some? then desired.value else 0, false)
  {
    assert es[0..] == es;
  }

  lemma MidwayEnd(b: seq<byte>, es: seq<Entry>, desired: Option<int>, c: seq<byte>, prev: Entry, i: nat, candidate: int,
                  mismatch: bool)
    requires Sound(b, es) && Fit(|b|, es) && Midway(b, es, desired, c, |b| - 20, prev, i, candidate, mismatch)
    ensures desired.Some? ==> c == Masked(b, es, Moved(desired.value)) && candidate == desired.value && !mismatch
    ensures desired.None? ==>
              c == b && mismatch == (Inferred(b, es).0 == Mismatched) &&
              (!mismatch ==> Inferred(b, es) == (Matched, candidate))
  {
    assert b[|b| - 20..|b| - 20] == [];
    assert es[i..] == [] && i == |es|;
  }

  /** Where the value of an entry is, if the offset passes the check of the loop. */
  function Checked(size: nat, blobStart: int, e: Entry): (p: Option<nat>) {
    if e.offset < -1 || e.offset >= blobStart || size < 8 then None else Some(Place(size, e))
  }

  /**
   `retouch_mask_data`. With an offset it masks, without one it infers. For a list `es` whose entries are -1 or lie
   wholly before the list, masking puts exactly the moved values and reports a match; inferring changes nothing and
   reports the common shift.
   */
  method MaskData(b: array<byte>, desired: Option<int>, ghost es: seq<Entry>) returns (status: Status, offset: int)
    requires b.Length < 0x8000_0000 && (desired.Some? ==> IsInt32(desired.value))
    modifies b
    ensures !Retouched(old(b[..])) ==>
              && b[..] == old(b[..]) && status == (if desired.None? then NotApplicable else Matched)
              && offset == if desired.Some? then desired.value else 0
    ensures Sound(old(b[..]), es) && desired.Some? ==>
              && Fit(b.Length, es) && b[..] == Masked(old(b[..]), es, Moved(desired.value))
              && status == Matched && offset == desired.value
    ensures Sound(old(b[..]), es) && desired.None? ==>
              && Fit(b.Length, es) && b[..] == old(b[..]) && status == Inferred(b[..], es).0
              && (status == Matched ==> offset == Inferred(b[..], es).1)
  {
    ghost var was := b[..];
    ghost var sound := Sound(was, es);
    var target := if desired.Some? then desired.value else 0;
    offset := target;
    if !Retouched(b[..]) { return (if desired.None? then NotApplicable else Matched), offset; }
    var start, end := BlobStart(b[..]), b.Length - 20;
    if start < 0 { return Error, offset; }
    var ptr: nat := start;
    var candidate, set_, mismatch := target, false, false;
    var decoder := new Decoder();
    ghost var i: nat := 0;
    if sound {
      SoundFits(was, es);
      MidwayStart(was, es, desired);
    }
    while ptr < end
      invariant b.Length == |was| && set_ == (i > 0)
      invariant sound ==> Midway(was, es, desired, b[..], ptr, decoder.prev, i, candidate, mismatch)
      decreases end - ptr
    {
      ghost var c, at, prev := b[..], ptr, decoder.prev;
      var e;
      ptr, e := decoder.Decode(b, ptr);
      if sound { NextInPlace(was, es, desired, c, at, prev, i, candidate, mismatch, ptr, e); }
      var p := Checked(b.Length, start, e);
      if p.None? { return Error, offset; }
      var shift := MaskEntry(b, e, p.value, desired);
      if sound { MidwayStep(was, es, desired, c, at, prev, i, candidate, mismatch, ptr, e, b[..], shift); }
      if !set_ {
        candidate, set_ := shift, true;
      } else if candidate != shift {
        mismatch := true;
      }
      i := i + 1;
    }
    if sound { MidwayEnd(was, es, desired, b[..], decoder.prev, i, candidate, mismatch); }
    if ptr > end { return Error, offset; }
    if mismatch { return Mismatched, offset; }
    return Matched, candidate;
  }

  lemma NextInPlace(b: seq<byte>, es: seq<Entry>, desired: Option<int>, c: seq<byte>, ptr: nat, prev: Entry, i: nat,
                    candidate: int, mismatch: bool, next: nat, e: Entry)
    requires Sound(b, es) && Fit(|b|, es) && Midway(b, es, desired, c, ptr, prev, i, candidate, mismatch) &&
             ptr < |b| - 20
    requires next == ptr + EntrySize(c[ptr]) && next <= |c| && e == DecodeBytes(c[ptr..next], prev)
    ensures InPlace(BlobStart(b), e) && next <= |b| - 20
  {
    ReachedNext(b, es, BlobStart(b), c, ptr, prev, i, next, e);
  }
}
