/** The first step of the suffix sort: suffixes bucketed by their first byte. */
module SuffixBuckets {
  import opened Bytes

  /** How many bytes of `s` equal `c`. */
  function Occ(s: seq<byte>, c: int): (k: nat) {
    if s == [] then 0 else Occ(s[..|s| - 1], c) + (if s[|s| - 1] == c then 1 else 0)
  }

  /** How many bytes of `s` are smaller than `c`. */
  function Below(s: seq<byte>, c: nat): (k: nat)
    ensures c == 0 ==> k == 0
  {
    if c == 0 then 0 else Below(s, c - 1) + Occ(s, c - 1)
  }

  lemma {:induction false} BelowMonotone(s: seq<byte>, c: nat, d: nat)
    requires c <= d
    ensures Below(s, c) <= Below(s, d)
    decreases d - c
  {
    if c < d { BelowMonotone(s, c, d - 1); }
  }

  lemma {:induction false} BelowSnoc(s: seq<byte>, x: byte, c: nat)
    ensures Below(s + [x], c) == Below(s, c) + (if x < c then 1 else 0)
  {
    if c > 0 {
      BelowSnoc(s, x, c - 1);
      assert (s + [x])[..|s|] == s;
    }
  }

  lemma {:induction false} BelowAll(s: seq<byte>)
    ensures Below(s, 256) == |s|
  {
    if s == [] {
      BelowNone(256);
    } else {
      var front, x := s[..|s| - 1], s[|s| - 1];
      assert s == front + [x];
      BelowAll(front);
      BelowSnoc(front, x, 256);
    }
  }

  lemma {:induction false} BelowNone(c: nat)
    ensures Below([], c) == 0
  {
    if c > 0 { BelowNone(c - 1); }
  }

  lemma {:induction false} OccGrows(s: seq<byte>, i: nat, j: nat, c: int)
    requires i <= j <= |s|
    ensures Occ(s[..i], c) <= Occ(s[..j], c)
    decreases j - i
  {
    if i < j {
      assert s[..j][..j - 1] == s[..j - 1];
      OccGrows(s, i, j - 1, c);
    }
  }

  lemma OccNext(s: seq<byte>, i: nat, c: int)
    requires i < |s|
    ensures Occ(s[..i + 1], c) == Occ(s[..i], c) + (if s[i] == c then 1 else 0)
  {
    assert s[..i + 1][..i] == s[..i];
  }

  /** Where suffix `i` is first placed: suffix `|s|` first, then by first byte, then by position. */
  function Slot(s: seq<byte>, i: int): (p: int)
    requires 0 <= i <= |s|
  {
    if i == |s| then 0 else 1 + Below(s, s[i]) + Occ(s[..i], s[i])
  }

  lemma SlotInBucket(s: seq<byte>, i: int)
    requires 0 <= i < |s|
    ensures Below(s, s[i]) < Slot(s, i) <= Below(s, (s[i] as int) + 1) <= |s|
  {
    OccNext(s, i, s[i]);
    OccGrows(s, i + 1, |s|, s[i]);
    assert s[..|s|] == s;
    BelowMonotone(s, (s[i] as int) + 1, 256);
    BelowAll(s);
  }

  /** Every position after the first lies in the bucket of one byte. */
  lemma BucketOf(s: seq<byte>, p: int) returns (c: byte)
    requires 0 < p <= |s|
    ensures Below(s, c) < p <= Below(s, c + 1)
  {
    BelowAll(s);
    var d := 0;
    while Below(s, d + 1) < p
      invariant 0 <= d < 256 && Below(s, d) < p
      decreases 256 - d
    {
      if d == 255 { assert false; }
      d := d + 1;
    }
    c := d;
  }

  lemma BucketUnique(s: seq<byte>, p: int, c: byte, d: byte)
    requires Below(s, c) < p <= Below(s, c + 1) && Below(s, d) < p <= Below(s, d + 1)
    ensures c == d
  {
    if c < d { BelowMonotone(s, c + 1, d); }
    if d < c { BelowMonotone(s, d + 1, c); }
  }

  /** The three bucket loops: how many bytes are smaller than each byte. */
  method BucketStarts(s: seq<byte>) returns (buckets: array<int>)
    ensures fresh(buckets) && buckets.Length == 256
    ensures forall c :: 0 <= c < 256 ==> buckets[c] == Below(s, c)
  {
    buckets := new int[256](_ => 0);
    for i := 0 to |s|
      invariant forall c :: 0 <= c < 256 ==> buckets[c] == Occ(s[..i], c)
    {
      forall c | 0 <= c < 256 ensures Occ(s[..i + 1], c) == Occ(s[..i], c) + (if s[i] == c then 1 else 0) {
        OccNext(s, i, c);
      }
      buckets[s[i]] := buckets[s[i]] + 1;
    }
    assert s[..|s|] == s;
    for i := 1 to 256
      invariant forall c :: 0 <= c < i ==> buckets[c] == Below(s, c + 1)
      invariant forall c :: i <= c < 256 ==> buckets[c] == Occ(s, c)
    {
      buckets[i] := buckets[i] + buckets[i - 1];
    }
    var i := 255;
    while i > 0
      invariant 0 <= i < 256
      invariant forall c :: 0 <= c <= i ==> buckets[c] == Below(s, c + 1)
      invariant forall c :: i < c < 256 ==> buckets[c] == Below(s, c)
    {
      buckets[i] := buckets[i - 1];
      i := i - 1;
    }
    buckets[0] := 0;
  }

  /** After the first `i` suffixes have been placed. */
  predicate Placed(s: seq<byte>, I: seq<int>, buckets: seq<int>, i: int)
    requires 0 <= i <= |s| && |I| == |s| + 1 && |buckets| == 256
  {
    && (forall c :: 0 <= c < 256 ==> buckets[c] == Below(s, c) + Occ(s[..i], c))
    && (forall j :: 0 <= j < i ==> 0 < Slot(s, j) <= |s| && I[Slot(s, j)] == j)
  }

  lemma SlotsDiffer(s: seq<byte>, i: int, j: int)
    requires 0 <= j < i < |s|
    ensures Slot(s, i) != Slot(s, j)
  {
    SlotInBucket(s, i);
    SlotInBucket(s, j);
    if Slot(s, i) == Slot(s, j) {
      BucketUnique(s, Slot(s, i), s[i], s[j]);
      OccNext(s, j, s[i]);
      OccGrows(s, j + 1, i, s[i]);
    }
  }

  lemma PlaceNext(s: seq<byte>, I: seq<int>, I2: seq<int>, b: seq<int>, b2: seq<int>, i: int, i2: int)
    requires 0 <= i < |s| && |I| == |s| + 1 && |b| == 256 && Placed(s, I, b, i) && i2 == i + 1
    requires b2 == b[s[i] := b[s[i]] + 1] && 0 <= b2[s[i]] <= |s| && I2 == I[b2[s[i]] := i]
    ensures Placed(s, I2, b2, i2)
  {
    SlotInBucket(s, i);
    forall c | 0 <= c < 256 ensures b2[c] == Below(s, c) + Occ(s[..i2], c) { OccNext(s, i, c); }
    assert b2[s[i]] == Slot(s, i);
    forall j | 0 <= j < i2 ensures 0 < Slot(s, j) <= |s| && I2[Slot(s, j)] == j {
      if j < i {
        SlotsDiffer(s, i, j);
        assert I[Slot(s, j)] == j;
      }
    }
  }

  lemma NextSlotFits(s: seq<byte>, I: seq<int>, b: seq<int>, i: int)
    requires 0 <= i < |s| && |I| == |s| + 1 && |b| == 256 && Placed(s, I, b, i)
    ensures 0 < b[s[i]] + 1 <= |s|
  {
    SlotInBucket(s, i);
  }

  /** Fills `I` with the suffixes in bucket order; `buckets[c]` ends as the last position of bucket `c`. */
  method Place(I: array<int>, buckets: array<int>, s: seq<byte>)
    requires I != buckets && I.Length == |s| + 1 && buckets.Length == 256
    requires Placed(s, I[..], buckets[..], 0)
    modifies I, buckets
    ensures I[0] == |s| && Placed(s, I[..], buckets[..], |s|)
  {
    ghost var is_, bs := I[..], buckets[..];
    var i := 0;
    while i < |s|
      invariant 0 <= i <= |s| && is_ == I[..] && bs == buckets[..] && Placed(s, is_, bs, i)
    {
      ghost var ia, ba := is_, bs;
      NextSlotFits(s, ia, ba, i);
      var c := s[i];
      var i2 := i + 1;
      buckets[c] := buckets[c] + 1;
      bs := buckets[..];
      I[buckets[c]] := i;
      is_ := I[..];
      PlaceNext(s, ia, is_, ba, bs, i, i2);
      i := i2;
    }
    I[0] := |s|;
  }

  /** The `k`-th occurrence of a byte. */
  lemma {:induction false} Occurrence(s: seq<byte>, c: byte, k: nat, m: nat) returns (j: nat)
    requires m <= |s| && 0 < k <= Occ(s[..m], c)
    ensures j < m && s[j] == c && Occ(s[..j], c) == k - 1
  {
    OccNext(s, m - 1, c);
    if s[m - 1] == c && k == Occ(s[..m], c) {
      j := m - 1;
    } else {
      j := Occurrence(s, c, k, m - 1);
    }
  }

  /** Every slot is taken. */
  lemma SlotTaken(s: seq<byte>, p: int) returns (j: nat)
    requires 0 < p <= |s|
    ensures j < |s| && Slot(s, j) == p
  {
    var c := BucketOf(s, p);
    assert s[..|s|] == s;
    j := Occurrence(s, c, p - Below(s, c), |s|);
  }
}
