/** What inference answers after masking: when it gives back the offset, and when overlapping entries spoil it. */
module RetouchInfer {
  import opened Bytes
  import opened Retouch

  /** If both entries cover the position, their words put the same byte there. */
  ghost predicate AgreeAt(size: nat, e: Entry, f: Entry, w: Words, i: int)
    requires Four(w)
  {
    Covers(size, e, i) && Covers(size, f, i) ==> w(e)[i - Place(size, e)] == w(f)[i - Place(size, f)]
  }

  /** Where entries overlap, the words for them put the same bytes. */
  ghost predicate Agreeing(size: nat, es: seq<Entry>, w: Words)
    requires Four(w)
  {
    forall j, k, i :: 0 <= j < |es| && 0 <= k < |es| ==> AgreeAt(size, es[j], es[k], w, i)
  }

  /** A byte that some entry covers is that of some entry that covers it. */
  lemma {:induction false} MaskByteIs(size: nat, es: seq<Entry>, w: Words, k: nat, i: int) returns (j: nat)
    requires Four(w) && k < |es| && Covers(size, es[k], i)
    ensures k <= j < |es| && Covers(size, es[j], i) &&
            MaskByte(size, es, w, i) == Some(w(es[j])[i - Place(size, es[j])])
    decreases |es|
  {
    if k > 0 {
      j := MaskByteIs(size, es[1..], w, k - 1, i);
      j := j + 1;
    } else if later :| 0 <= later < |es[1..]| && Covers(size, es[1..][later], i) {
      j := MaskByteIs(size, es[1..], w, later, i);
      j := j + 1;
    } else {
      MaskByteOutside(size, es[1..], w, i);
      j := 0;
    }
  }

  /** The word of an entry stands in the masked file. */
  ghost predicate Survives(c: seq<byte>, e: Entry, w: Words)
    requires Four(w)
  {
    var p := Place(|c|, e); 0 <= p && p + 4 <= |c| && forall i :: p <= i < p + 4 ==> c[i] == w(e)[i - p]
  }

  lemma MaskedByteIs(b: seq<byte>, es: seq<Entry>, w: Words, k: nat, i: nat) returns (j: nat)
    requires Fit(|b|, es) && Four(w) && k < |es| && Covers(|b|, es[k], i)
    ensures k <= j < |es| && Covers(|b|, es[j], i) && Masked(b, es, w)[i] == w(es[j])[i - Place(|b|, es[j])]
  {
    j := MaskByteIs(|b|, es, w, k, i);
    MaskedAt(b, es, w, i);
  }

  /** Every byte of the word is there if no other word puts another one over it. */
  lemma ByteSurvives(b: seq<byte>, es: seq<Entry>, w: Words, k: nat, c: seq<byte>, p: nat, v: seq<byte>, i: nat)
    requires Fit(|b|, es) && Four(w) && k < |es| && (Agreeing(|b|, es, w) || k == |es| - 1)
    requires c == Masked(b, es, w) && p == Place(|b|, es[k]) && v == w(es[k]) && p <= i < p + 4
    ensures c[i] == v[i - p]
  {
    var j := MaskedByteIs(b, es, w, k, i);
    if j != k { assert AgreeAt(|b|, es[j], es[k], w, i); }
  }

  /** If the words agree, all of them survive; the word of the last entry always does. */
  lemma WordSurvives(b: seq<byte>, es: seq<Entry>, w: Words, k: nat, c: seq<byte>)
    requires Fit(|b|, es) && Four(w) && k < |es| && (Agreeing(|b|, es, w) || k == |es| - 1) && c == Masked(b, es, w)
    ensures Survives(c, es[k], w)
  {
    var p, v := Place(|b|, es[k]), w(es[k]);
    forall i | p <= i < p + 4 ensures c[i] == v[i - p] { ByteSurvives(b, es, w, k, c, p, v, i); }
  }

  /** Words that all survive agree. */
  lemma SurvivorsAgree(c: seq<byte>, es: seq<Entry>, w: Words)
    requires Four(w) && forall k :: 0 <= k < |es| ==> Survives(c, es[k], w)
    ensures Agreeing(|c|, es, w)
  {
    forall j, k, i | 0 <= j < |es| && 0 <= k < |es| ensures AgreeAt(|c|, es[j], es[k], w, i) {
      assert Survives(c, es[j], w) && Survives(c, es[k], w);
      if Covers(|c|, es[j], i) { assert c[i] == w(es[j])[i - Place(|c|, es[j])]; }
    }
  }

  lemma SignedDifference(u: nat, original: nat, t: int)
    requires u < Two32 && original < Two32 && IsInt32(t) && Signed(u - original) == t
    ensures u == (original + t) % Two32
  {
    assert (u - original) % Two32 == t % Two32;
  }

  /** The word of an entry stands there exactly when the entry is off by the offset. */
  lemma SurvivesIffShift(c: seq<byte>, e: Entry, w: Words, t: int)
    requires var p := Place(|c|, e); 0 <= p && p + 4 <= |c|
    requires w == Moved(t) && e.original < Two32 && IsInt32(t)
    ensures Survives(c, e, w) <==> Shift(c, e) == t
  {
    var p := Place(|c|, e);
    var word := c[p..p + 4];
    if Survives(c, e, w) {
      assert word == w(e);
      WordShift(c, e, w, t);
    }
    if Shift(c, e) == t {
      SignedDifference(Unsigned4(c, p), e.original, t);
      Unsigned4At(c, p, word);
      Unsigned4OfWrite4(e.original + t);
      SameValueSameWord(word, Write4(e.original + t));
      forall i | p <= i < p + 4 ensures c[i] == w(e)[i - p] { assert c[i] == word[i - p]; }
    }
  }

  /**
   After masking, inference reports a match exactly when the words that masking puts agree wherever entries overlap, and
   then it reports the offset.
   */
  lemma InferredIff(b: seq<byte>, es: seq<Entry>, t: int)
    requires Sound(b, es) && es != [] && IsInt32(t)
    ensures Fit(|b|, es)
    ensures var (status, offset) := Inferred(Masked(b, es, Moved(t)), es);
            (status == Matched <==> Agreeing(|b|, es, Moved(t))) && (status == Matched ==> offset == t)
  {
    SoundFits(b, es);
    var w := Moved(t);
    var c, last := Masked(b, es, w), es[|es| - 1];
    forall k | 0 <= k < |es|
      ensures Survives(c, es[k], w) <==> Shift(c, es[k]) == t
    {
      SurvivesIffShift(c, es[k], w, t);
    }
    WordSurvives(b, es, w, |es| - 1, c);
    assert Shift(c, last) == t;
    if Agreeing(|b|, es, w) {
      forall k | 0 <= k < |es| ensures Shift(c, es[k]) == t { WordSurvives(b, es, w, k, c); }
    } else if forall k :: 0 <= k < |es| ==> Shift(c, es[k]) == t {
      SurvivorsAgree(c, es, w);
    }
  }

  /** No two entries overlap. */
  predicate Apart(size: nat, es: seq<Entry>) {
    forall i, j :: 0 <= i < j < |es| ==>
        Place(size, es[i]) + 4 <= Place(size, es[j]) || Place(size, es[j]) + 4 <= Place(size, es[i])
  }

  /** After masking with `t2`, whatever was there before, inference says `t2`, if no two entries overlap. */
  lemma InferredAfterMasking(b: seq<byte>, es: seq<Entry>, t1: int, t2: int)
    requires Sound(b, es) && es != [] && Apart(|b|, es) && IsInt32(t2)
    ensures Fit(|b|, es) && Inferred(Masked(Masked(b, es, Moved(t1)), es, Moved(t2)), es) == (Matched, t2)
  {
    SoundFits(b, es);
    MaskedTwice(b, es, t1, t2);
    forall j, k, i | 0 <= j < |es| && 0 <= k < |es| ensures AgreeAt(|b|, es[j], es[k], Moved(t2), i) { }
    InferredIff(b, es, t2);
  }

  // Files with any list

  predicate LongEntries(es: seq<Entry>) {
    forall k :: 0 <= k < |es| ==> -1 <= es[k].offset < 0x3fff_ffff && es[k].original < Two32
  }

  /** The list with every entry in its long form. */
  function LongList(es: seq<Entry>): (s: seq<byte>)
    requires LongEntries(es)
    ensures |s| == 8 * |es|
  {
    if es == [] then [] else LongForm(es[0].offset, es[0].original) + LongList(es[1..])
  }

  lemma EntriesCons(first: seq<byte>, rest: seq<byte>, prev: Entry, e: Entry, es: seq<Entry>)
    requires first != [] && EntrySize(first[0]) == |first| && DecodeBytes(first, prev) == e
    requires Entries(DecodeBytes, rest, e) == Some(es)
    ensures Entries(DecodeBytes, first + rest, prev) == Some([e] + es)
  {
    var s := first + rest;
    assert s[..|first|] == first && s[|first|..] == rest;
  }

  lemma {:induction false} LongListDecoded(es: seq<Entry>, prev: Entry)
    requires LongEntries(es)
    ensures Entries(DecodeBytes, LongList(es), prev) == Some(es)
  {
    if es != [] {
      LongFormDecoded(es[0].offset, es[0].original, prev);
      LongListDecoded(es[1..], es[0]);
      EntriesCons(LongForm(es[0].offset, es[0].original), LongList(es[1..]), prev, es[0], es[1..]);
      assert [es[0]] + es[1..] == es;
    }
  }

  /** A library with a list: the rest of the file, the list, the retouch record and the prelink record. */
  function LongFile(body: seq<byte>, es: seq<Entry>, address: seq<byte>): (b: seq<byte>)
    requires LongEntries(es) && |address| == 4
    ensures |b| == |body| + 8 * |es| + 20
  {
    body + LongList(es) + RetouchTag + Write4(8 * |es|) + address + PrelinkTag
  }

  lemma LongFileParts(body: seq<byte>, list: seq<byte>, size: seq<byte>, address: seq<byte>, b: seq<byte>)
    requires b == body + list + RetouchTag + size + address + PrelinkTag && |size| == |address| == 4
    ensures |b| == |body| + |list| + 20 && b[|b| - 4..] == PrelinkTag && b[|b| - 20..|b| - 12] == RetouchTag
    ensures b[|b| - 12..|b| - 8] == size && b[|body|..|b| - 20] == list
  {
  }

  lemma SoundFrom(b: seq<byte>, es: seq<Entry>, start: nat, size: nat, word: seq<byte>)
    requires Retouched(b) && size == |b| - 20 - start && start < 0x8000_0000
    requires |word| == 4 && b[|b| - 12..|b| - 8] == word && Unsigned4(word, 0) == size
    requires Entries(DecodeBytes, b[start..|b| - 20], NoEntry) == Some(es) && AllInPlace(es, start)
    ensures Sound(b, es)
  {
    Unsigned4At(b, |b| - 12, word);
    assert BlobStart(b) == start;
  }

  lemma SizeWord(size: nat, word: seq<byte>)
    requires size < Two32 && word == Write4(size)
    ensures Unsigned4(word, 0) == size
  {
    Unsigned4OfWrite4(size);
    LowDigits(size, size, 0);
  }

  /** Every list of entries in place is the list of some file. */
  lemma LongFileSound(body: seq<byte>, es: seq<Entry>, address: seq<byte>, b: seq<byte>)
    requires LongEntries(es) && |address| == 4 && AllInPlace(es, |body|) && |body| + 8 * |es| < 0x8000_0000
    requires b == LongFile(body, es, address)
    ensures Sound(b, es)
  {
    var size := 8 * |es|;
    var word := Write4(size);
    LongFileParts(body, LongList(es), word, address, b);
    LongListDecoded(es, NoEntry);
    SizeWord(size, word);
    SoundFrom(b, es, |body|, size, word);
  }

  lemma TwoAtOnePlace(size: nat, es: seq<Entry>, t: int)
    requires es == [Entry(0, 1), Entry(0, 2)]
    ensures !Agreeing(size, es, Moved(t))
  {
    assert Covers(size, es[0], 0) && Covers(size, es[1], 0);
    assert Moved(t)(es[0])[0] == (1 + t) % 256 != (2 + t) % 256 == Moved(t)(es[1])[0];
    assert !AgreeAt(size, es[0], es[1], Moved(t), 0);
  }

  /** So there are files that inference calls mismatched right after they were masked, with any offset. */
  lemma OverlapSpoils(body: seq<byte>, es: seq<Entry>, address: seq<byte>, b: seq<byte>, t: int)
    requires 4 <= |body| < 0x4000_0000 && es == [Entry(0, 1), Entry(0, 2)] && |address| == 4 && IsInt32(t)
    requires b == LongFile(body, es, address)
    ensures Sound(b, es) && Fit(|b|, es) && Inferred(Masked(b, es, Moved(t)), es).0 == Mismatched
  {
    LongFileSound(body, es, address, b);
    InferredIff(b, es, t);
    TwoAtOnePlace(|b|, es, t);
  }
}
