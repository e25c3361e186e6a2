/** `qsufsort`: the suffix array of a byte string by prefix doubling, in place. */
module SuffixSort {
  import opened Bytes
  import opened SuffixOrder
  import opened SuffixGroups
  import opened SuffixSplit
  import opened SuffixBuckets

  /** `I` lists all suffixes of `s`, each once, in strictly increasing lexicographic order. */
  predicate IsSuffixArray(s: seq<byte>, I: seq<int>) {
    && Permutation(I, |s| + 1)
    && forall p, q :: 0 <= p < q <= |s| ==> LexLess(s[I[p]..], s[I[q]..])
  }

  // The state between two groups of a pass

  /** A negative entry at `p` is minus the length of a run of sorted suffixes that starts there. */
  predicate RunMarked(I: seq<int>, P: seq<int>, V: seq<int>, N: nat, p: int)
    requires Permutation(P, N) && InRange(V, N) && 0 <= p < N == |I|
  {
    I[p] < 0 ==> p - I[p] <= N && forall q :: p <= q < p - I[p] ==> I[q] < 0 && Alone(P, V, N, q)
  }

  /** A non-negative entry is the suffix that stands there, and it has `h` more bytes. */
  predicate Live(I: seq<int>, P: seq<int>, N: nat, h: nat, p: int)
    requires 0 <= p < N == |I| == |P|
  {
    I[p] >= 0 ==> I[p] == P[p] && P[p] + h < N
  }

  /** A pass that doubles `h` to `h2` has dealt with the groups before position `i`. */
  predicate Passing(s: seq<byte>, I: seq<int>, P: seq<int>, V: seq<int>, h: nat, h2: nat, i: int) {
    var N := |s| + 1;
    && |I| == N && 0 <= i <= N && Ordered(s, P, V, h)
    && (i > 0 ==> V[P[i - 1]] == i - 1)
    && (forall p :: 0 <= p < N ==> RunMarked(I, P, V, N, p))
    && (forall p :: 0 <= p < i ==> Live(I, P, N, h2, p))
    && (forall p :: i <= p < N ==> Live(I, P, N, h, p))
    && (forall p, q :: 0 <= p < i && 0 <= q < i && V[P[p]] == V[P[q]] ==> Agree(s, P[p], P[q], h2))
  }

  /** Positions `[r..i)` are sorted suffixes, marked as such. */
  predicate Run(I: seq<int>, P: seq<int>, V: seq<int>, N: nat, r: int, i: int)
    requires Permutation(P, N) && InRange(V, N) && |I| == N
  {
    0 <= r <= i <= N && forall q :: r <= q < i ==> I[q] < 0 && Alone(P, V, N, q)
  }

  lemma AloneIsOnlyMember(P: seq<int>, V: seq<int>, N: nat, p: int, q: int)
    requires Permutation(P, N) && InRange(V, N) && Grouped(P, V, N) && 0 <= p < N && 0 <= q < N
    requires Alone(P, V, N, p) && V[P[q]] == V[P[p]]
    ensures p == q
  {
  }

  /** Stepping over a run of sorted suffixes. */
  lemma SkipRun(s: seq<byte>, I: seq<int>, P: seq<int>, V: seq<int>, h: nat, h2: nat, r: int, i: int, i2: int)
    requires Passing(s, I, P, V, h, h2, i) && i <= |s| && I[i] < 0 && i2 == i - I[i]
    requires Run(I, P, V, |s| + 1, r, i)
    ensures i < i2 <= |s| + 1 && Passing(s, I, P, V, h, h2, i2) && Run(I, P, V, |s| + 1, r, i2)
  {
    var N := |s| + 1;
    assert RunMarked(I, P, V, N, i);
    assert Alone(P, V, N, i2 - 1);
    forall p | 0 <= p < i2 ensures Live(I, P, N, h2, p) {}
    forall p, q | 0 <= p < i2 && 0 <= q < i2 && V[P[p]] == V[P[q]] ensures Agree(s, P[p], P[q], h2) {
      if i <= p { AloneIsOnlyMember(P, V, N, p, q); }
      if i <= q { AloneIsOnlyMember(P, V, N, q, p); }
    }
  }

  /** Recording the length of a run at its first position. */
  lemma RecordRun(s: seq<byte>, I: seq<int>, I2: seq<int>, P: seq<int>, V: seq<int>, h: nat, h2: nat, r: int, i: int)
    requires Passing(s, I, P, V, h, h2, i) && Run(I, P, V, |s| + 1, r, i) && r < i && I2 == I[r := r - i]
    ensures Passing(s, I2, P, V, h, h2, i)
  {
    var N := |s| + 1;
    forall p | 0 <= p < N ensures RunMarked(I2, P, V, N, p) {
      assert RunMarked(I, P, V, N, p);
      if p == r { assert forall q :: r <= q < i ==> I2[q] < 0; }
    }
    forall p | 0 <= p < i ensures Live(I2, P, N, h2, p) { assert Live(I, P, N, h2, p); }
    forall p | i <= p < N ensures Live(I2, P, N, h, p) { assert Live(I, P, N, h, p); }
  }

  /** The next unsorted group is ready to be split. */
  lemma GroupReady(s: seq<byte>, I: seq<int>, P: seq<int>, V: seq<int>, h: nat, h2: nat, i: int, e: int, b: int)
    requires Passing(s, I, P, V, h, h2, i) && i <= |s| && I[i] >= 0 && 0 <= I[i] <= |s| && e == V[I[i]] && b == e + 1
    ensures i <= e && Ready(s, I, P, V, h, i, b, e)
  {
    var N := |s| + 1;
    assert Live(I, P, N, h, i);
    forall p | i <= p < b ensures I[p] == P[p] && 0 <= I[p] && I[p] + h < N {
      assert Live(I, P, N, h, p) && RunMarked(I, P, V, N, p);
      assert V[P[p]] == e && (p > i ==> V[P[p - 1]] == e);
      if I[p] < 0 { assert false; }
    }
  }

  lemma SplitKeepsMarks(s: seq<byte>, I: seq<int>, I2: seq<int>, P: seq<int>, P2: seq<int>, V: seq<int>, V2: seq<int>,
                        h: nat, h2: nat, i: int, e: int, b: int, N: nat)
    requires Passing(s, I, P, V, h, h2, i) && Ready(s, I, P, V, h, i, b, e) && b == e + 1 && i <= e
    requires Progress(s, I, I2, P, P2, V, V2, h, h2, i, b, b) && N == |s| + 1
    ensures forall p :: 0 <= p < N ==> RunMarked(I2, P2, V2, N, p)
  {
    forall p | 0 <= p < N ensures RunMarked(I2, P2, V2, N, p) {
      if i <= p < b {
        assert Settled(s, I2, P2, V2, h2, p);
      } else {
        assert RunMarked(I, P, V, N, p);
        if I[p] < 0 {
          forall q | p <= q < p - I[p] ensures I2[q] < 0 && Alone(P2, V2, N, q) {
            assert I[q] < 0 && Alone(P, V, N, q);
          }
        }
      }
    }
  }

  /** After the split the pass has dealt with the group. */
  lemma GroupSplit(s: seq<byte>, I: seq<int>, I2: seq<int>, P: seq<int>, P2: seq<int>, V: seq<int>, V2: seq<int>,
                   h: nat, h2: nat, i: int, e: int, b: int)
    requires Passing(s, I, P, V, h, h2, i) && Ready(s, I, P, V, h, i, b, e) && b == e + 1 && i <= e
    requires Progress(s, I, I2, P, P2, V, V2, h, h2, i, b, b)
    ensures Passing(s, I2, P2, V2, h, h2, b)
  {
    var N := |s| + 1;
    SplitKeepsMarks(s, I, I2, P, P2, V, V2, h, h2, i, e, b, N);
    forall p | 0 <= p < b ensures Live(I2, P2, N, h2, p) {
      if p < i { assert Live(I, P, N, h2, p); } else { assert Settled(s, I2, P2, V2, h2, p); }
    }
    forall p | b <= p < N ensures Live(I2, P2, N, h, p) { assert Live(I, P, N, h, p); }
    forall p, q | 0 <= p < b && 0 <= q < b && V2[P2[p]] == V2[P2[q]] ensures Agree(s, P2[p], P2[q], h2) {
      AroundOpenGroup(P, V, N, i, e, p);
      AroundOpenGroup(P, V, N, i, e, q);
      if p < i && q < i { assert V[P[p]] == V[P[q]]; }
    }
  }

  /** A finished pass is the start of the next one. */
  lemma PassDone(s: seq<byte>, I: seq<int>, P: seq<int>, V: seq<int>, h: nat, h2: nat, h4: nat)
    requires Passing(s, I, P, V, h, h2, |s| + 1)
    ensures Passing(s, I, P, V, h2, h4, 0)
  {
    forall i, j | 0 <= i <= |s| && 0 <= j <= |s| && V[i] == V[j] ensures Agree(s, i, j, h2) {
      var p := PositionOf(P, |s| + 1, i);
      var q := PositionOf(P, |s| + 1, j);
    }
  }

  /** One pass: every group is split by the next `h` bytes, runs of sorted suffixes are joined. */
  method Pass(I: array<int>, V: array<int>, h: nat, ghost s: seq<byte>, ghost P: seq<int>, ghost h2: nat)
      returns (ghost Q: seq<int>)
    requires I != V && I.Length == V.Length == |s| + 1 && h2 == 2 * h
    requires Passing(s, I[..], P, V[..], h, h2, 0)
    modifies I, V
    ensures Passing(s, I[..], Q, V[..], h, h2, |s| + 1)
    ensures (forall p :: 0 <= p <= |s| ==> old(I[p]) < 0) ==> I[0] == -(|s| + 1)
  {
    var n1 := I.Length;
    ghost var I0 := I[..];
    ghost var sorted := forall p :: 0 <= p < n1 ==> I0[p] < 0;
    ghost var ia, va := I0, V[..];
    Q := P;
    var i, len: int := 0, 0;
    ghost var r := 0;
    while i < n1
      invariant ia == I[..] && va == V[..] && r == i - len
      invariant Passing(s, ia, Q, va, h, h2, i) && Run(ia, Q, va, n1, r, i)
      invariant sorted ==> r == 0 && ia == I0
      decreases n1 - i
    {
      if I[i] < 0 {
        var i2 := i - I[i];
        SkipRun(s, ia, Q, va, h, h2, r, i, i2);
        len := len - I[i];
        i := i2;
      } else {
        i, Q := NextGroup(I, V, h, i, len, s, Q, h2, r);
        len := 0;
        ia, va, r := I[..], V[..], i;
      }
    }
    if len != 0 { RecordLength(I, V, i, len, s, Q, h, h2, r); }
  }

  /** An unsorted group: the run before it is recorded, then the group is split. */
  method NextGroup(I: array<int>, V: array<int>, h: nat, i: int, len: int,
                   ghost s: seq<byte>, ghost P: seq<int>, ghost h2: nat, ghost r: int)
      returns (b: int, ghost Q: seq<int>)
    requires I != V && I.Length == V.Length == |s| + 1 && h2 == 2 * h && r == i - len
    requires Passing(s, I[..], P, V[..], h, h2, i) && Run(I[..], P, V[..], |s| + 1, r, i)
    requires i <= |s| && I[i] >= 0
    modifies I, V
    ensures i < b <= |s| + 1 && Passing(s, I[..], Q, V[..], h, h2, b)
  {
    if len != 0 { RecordLength(I, V, i, len, s, P, h, h2, r); }
    b, Q := SplitNext(I, V, h, i, s, P, h2);
  }

  /** `I[i-len] = -len`: the run of sorted suffixes that ends before `i` is recorded as one. */
  method RecordLength(I: array<int>, V: array<int>, i: int, len: int,
                      ghost s: seq<byte>, ghost P: seq<int>, ghost h: nat, ghost h2: nat, ghost r: int)
    requires I != V && I.Length == V.Length == |s| + 1 && r == i - len && len > 0
    requires Passing(s, I[..], P, V[..], h, h2, i) && Run(I[..], P, V[..], |s| + 1, r, i)
    modifies I
    ensures Passing(s, I[..], P, V[..], h, h2, i)
    ensures I[r] == -len && forall p :: 0 <= p < I.Length && p != r ==> I[p] == old(I[p])
  {
    ghost var ia := I[..];
    I[i - len] := -len;
    RecordRun(s, ia, I[..], P, V[..], h, h2, r, i);
  }

  /** Splits the group that starts at `i`. */
  method SplitNext(I: array<int>, V: array<int>, h: nat, i: nat, ghost s: seq<byte>, ghost P: seq<int>, ghost h2: nat)
      returns (b: nat, ghost Q: seq<int>)
    requires I != V && I.Length == V.Length == |s| + 1 && h2 == 2 * h
    requires Passing(s, I[..], P, V[..], h, h2, i) && i <= |s| && I[i] >= 0
    modifies I, V
    ensures i < b <= |s| + 1 && Passing(s, I[..], Q, V[..], h, h2, b)
  {
    ghost var ia, va := I[..], V[..];
    assert Live(ia, P, |s| + 1, h, i);
    b := V[I[i]] + 1;
    ghost var e := b - 1;
    GroupReady(s, ia, P, va, h, h2, i, e, b);
    Q := Split(I, V, i, b, h, s, P, h2, e);
    GroupSplit(s, ia, I[..], P, Q, va, V[..], h, h2, i, e, b);
  }

  // The start: one group per first byte

  /** The last position of the bucket of suffix `i`. */
  function BucketEnd(s: seq<byte>, i: int): (p: int)
    requires 0 <= i <= |s|
  {
    if i == |s| then 0 else Below(s, (s[i] as int) + 1)
  }

  /** `P` has every suffix in its slot. */
  predicate InSlots(s: seq<byte>, P: seq<int>) {
    |P| == |s| + 1 && P[0] == |s| && forall p :: 0 <= p <= |s| ==> 0 <= P[p] <= |s| && Slot(s, P[p]) == p
  }

  predicate BucketNumbers(s: seq<byte>, V: seq<int>) {
    |V| == |s| + 1 && forall i :: 0 <= i <= |s| ==> V[i] == BucketEnd(s, i)
  }

  lemma PlacedInSlots(s: seq<byte>, I: seq<int>, b: seq<int>)
    requires |I| == |s| + 1 && |b| == 256 && Placed(s, I, b, |s|) && I[0] == |s|
    ensures InSlots(s, I) && Permutation(I, |s| + 1)
    ensures forall c :: 0 <= c < 256 ==> b[c] == Below(s, c + 1)
  {
    assert s[..|s|] == s;
    forall p | 0 <= p <= |s| ensures 0 <= I[p] <= |s| && Slot(s, I[p]) == p {
      if p > 0 {
        var j := SlotTaken(s, p);
        assert I[Slot(s, j)] == j;
      }
    }
    forall i | 0 <= i <= |s| ensures i in I {
      if i < |s| { assert I[Slot(s, i)] == i; }
    }
  }

  lemma BucketEndInRange(s: seq<byte>, V: seq<int>)
    requires BucketNumbers(s, V)
    ensures InRange(V, |s| + 1)
  {
    forall i | 0 <= i <= |s| ensures 0 <= V[i] <= |s| {
      if i < |s| { SlotInBucket(s, i); }
    }
  }

  lemma BucketsGrouped(s: seq<byte>, P: seq<int>, V: seq<int>)
    requires InSlots(s, P) && Permutation(P, |s| + 1) && BucketNumbers(s, V) && InRange(V, |s| + 1)
    ensures Grouped(P, V, |s| + 1)
  {
    forall p | 0 <= p <= |s| ensures p <= V[P[p]] && (p > 0 ==> P[p] < |s|) {
      if P[p] < |s| { SlotInBucket(s, P[p]); }
    }
    forall p, q | 0 <= p <= q <= |s| && q <= V[P[p]] ensures V[P[q]] == V[P[p]] {
      if p > 0 {
        SlotInBucket(s, P[p]);
        SlotInBucket(s, P[q]);
        BucketUnique(s, q, s[P[p]], s[P[q]]);
      }
    }
  }

  lemma BucketLess(s: seq<byte>, V: seq<int>, i: int, j: int)
    requires BucketNumbers(s, V) && InRange(V, |s| + 1) && 0 <= i <= |s| && 0 <= j <= |s| && V[i] < V[j]
    ensures Less(s, i, j)
  {
    if i < |s| && s[i] >= s[j] { BelowMonotone(s, (s[j] as int) + 1, (s[i] as int) + 1); }
  }

  lemma BucketAgree(s: seq<byte>, V: seq<int>, i: int, j: int)
    requires BucketNumbers(s, V) && InRange(V, |s| + 1) && 0 <= i <= |s| && 0 <= j <= |s| && V[i] == V[j]
    ensures Agree(s, i, j, 1)
  {
    if i < |s| { SlotInBucket(s, i); }
    if j < |s| { SlotInBucket(s, j); }
    if i < |s| && j < |s| {
      BucketUnique(s, V[i], s[i], s[j]);
      assert s[i..i + 1] == [s[i]] && s[j..j + 1] == [s[j]];
    }
  }

  lemma BucketsSound(s: seq<byte>, V: seq<int>)
    requires BucketNumbers(s, V) && InRange(V, |s| + 1)
    ensures Sound(s, V) && AgreeInGroup(s, V, 1)
  {
    forall i, j | 0 <= i <= |s| && 0 <= j <= |s| && V[i] < V[j] ensures Less(s, i, j) { BucketLess(s, V, i, j); }
    forall i, j | 0 <= i <= |s| && 0 <= j <= |s| && V[i] == V[j] ensures Agree(s, i, j, 1) { BucketAgree(s, V, i, j); }
  }

  /** A bucket of one suffix holds a sorted suffix. */
  lemma SingleBucketAlone(s: seq<byte>, P: seq<int>, V: seq<int>, c: int, p: int)
    requires InSlots(s, P) && Permutation(P, |s| + 1) && BucketNumbers(s, V) && InRange(V, |s| + 1) &&
             Grouped(P, V, |s| + 1)
    requires 0 < c < 256 && p == Below(s, c + 1) == Below(s, c) + 1
    ensures 0 < p <= |s| && Alone(P, V, |s| + 1, p)
  {
    BelowMonotone(s, c + 1, 256);
    BelowAll(s);
    SlotInBucket(s, P[p]);
    BucketUnique(s, p, c, s[P[p]]);
    if p > 1 {
      var q := p - 1;
      assert Slot(s, P[q]) == q;
      SlotInBucket(s, P[q]);
      var d := s[P[q]];
      if d >= c { BelowMonotone(s, c, d); }
      BelowMonotone(s, (d as int) + 1, c);
    }
  }

  /** Every entry is a suffix in its slot, or the mark of a sorted one. */
  predicate MarkedStart(I: seq<int>, P: seq<int>, V: seq<int>, N: nat)
    requires Permutation(P, N) && InRange(V, N)
  {
    |I| == N && forall p :: 0 <= p < N ==> I[p] == P[p] || (I[p] == -1 && Alone(P, V, N, p))
  }

  lemma StartPassing(s: seq<byte>, I: seq<int>, P: seq<int>, V: seq<int>)
    requires InSlots(s, P) && Ordered(s, P, V, 1) && MarkedStart(I, P, V, |s| + 1) && I[0] == -1
    ensures Passing(s, I, P, V, 1, 2, 0)
  {
    var N := |s| + 1;
    forall p | 0 <= p < N ensures Live(I, P, N, 1, p) {
      if p > 0 { assert Slot(s, P[p]) == p; }
    }
  }

  /** Numbers every suffix by the end of its bucket. */
  method NumberBuckets(V: array<int>, buckets: array<int>, s: seq<byte>)
    requires V != buckets && V.Length == |s| + 1 && buckets.Length == 256
    requires forall c :: 0 <= c < 256 ==> buckets[c] == Below(s, c + 1)
    modifies V
    ensures BucketNumbers(s, V[..])
  {
    for i := 0 to |s|
      invariant forall c :: 0 <= c < 256 ==> buckets[c] == Below(s, c + 1)
      invariant forall j :: 0 <= j < i ==> V[j] == BucketEnd(s, j)
    {
      V[i] := buckets[s[i]];
    }
    V[|s|] := 0;
  }

  /** The bucket phase: one group per first byte, groups of one suffix marked. */
  method StartGroups(I: array<int>, V: array<int>, s: seq<byte>) returns (ghost P: seq<int>)
    requires I != V && I.Length == V.Length == |s| + 1
    modifies I, V
    ensures Passing(s, I[..], P, V[..], 1, 2, 0)
    ensures I[0] == -1
  {
    var buckets := BucketStarts(s);
    Place(I, buckets, s);
    P := I[..];
    PlacedInSlots(s, P, buckets[..]);
    NumberBuckets(V, buckets, s);
    ghost var vs := V[..];
    BucketEndInRange(s, vs);
    BucketsGrouped(s, P, vs);
    BucketsSound(s, vs);
    MarkSingles(I, buckets, s, P, vs);
    I[0] := -1;
    StartPassing(s, I[..], P, vs);
  }

  /** Marks the buckets of one suffix, that of byte 0 excepted. */
  method MarkSingles(I: array<int>, buckets: array<int>, s: seq<byte>, ghost P: seq<int>, ghost V: seq<int>)
    requires I != buckets && I.Length == |s| + 1 && buckets.Length == 256 && P == I[..]
    requires forall c :: 0 <= c < 256 ==> buckets[c] == Below(s, c + 1)
    requires InSlots(s, P) && Permutation(P, |s| + 1) && BucketNumbers(s, V) && InRange(V, |s| + 1) &&
             Grouped(P, V, |s| + 1)
    modifies I
    ensures MarkedStart(I[..], P, V, |s| + 1)
  {
    for i := 1 to 256
      invariant MarkedStart(I[..], P, V, |s| + 1)
    {
      if buckets[i] == buckets[i - 1] + 1 {
        SingleBucketAlone(s, P, V, i, buckets[i]);
        I[buckets[i]] := -1;
      }
    }
  }

  // The whole sort

  /** As long as the sort is not over, some suffix has `h` more bytes. */
  lemma NotOverBound(s: seq<byte>, I: seq<int>, P: seq<int>, V: seq<int>, h: nat, h2: nat)
    requires Passing(s, I, P, V, h, h2, 0) && exists p :: 0 <= p <= |s| && I[p] >= 0
    ensures h <= |s|
  {
    var p :| 0 <= p <= |s| && I[p] >= 0;
    assert Live(I, P, |s| + 1, h, p);
  }

  /** One run over the whole array means that the group numbers are the positions. */
  lemma OverMeansSorted(s: seq<byte>, I: seq<int>, P: seq<int>, V: seq<int>, h: nat, h2: nat)
    requires Passing(s, I, P, V, h, h2, 0) && I[0] == -(|s| + 1)
    ensures forall p :: 0 <= p <= |s| ==> V[P[p]] == p
    ensures IsSuffixArray(s, P)
  {
    assert RunMarked(I, P, V, |s| + 1, 0);
    forall p | 0 <= p <= |s| ensures V[P[p]] == p { assert Alone(P, V, |s| + 1, p); }
    forall p, q | 0 <= p < q <= |s| ensures LexLess(s[P[p]..], s[P[q]..]) {
      assert V[P[p]] < V[P[q]];
      LessIsLexLess(s, P[p], P[q]);
    }
  }

  /** The final loop `I[V[i]] = i`. */
  method Invert(I: array<int>, V: array<int>, ghost P: seq<int>)
    requires I != V && I.Length == V.Length && Permutation(P, I.Length)
    requires forall p :: 0 <= p < I.Length ==> V[P[p]] == p
    modifies I
    ensures I[..] == P
  {
    ghost var vs := V[..];
    forall i | 0 <= i < I.Length ensures 0 <= vs[i] < I.Length && P[vs[i]] == i {
      var p := PositionOf(P, I.Length, i);
    }
    for i := 0 to I.Length
      invariant forall j :: 0 <= j < i ==> I[vs[j]] == j
    {
      I[V[i]] := i;
    }
    forall p | 0 <= p < I.Length ensures I[p] == P[p] { assert I[vs[P[p]]] == P[p]; }
  }

  /** `qsufsort` fills `I` with the suffix array of `s`, whatever `I` and `V` hold to begin with. */
  method Qsufsort(I: array<int>, V: array<int>, s: seq<byte>)
    requires I != V && I.Length == V.Length == |s| + 1
    modifies I, V
    ensures IsSuffixArray(s, I[..])
  {
    ghost var P := StartGroups(I, V, s);
    var h := 1;
    ghost var h2 := 2;
    while I[0] != -(|s| + 1)
      invariant h >= 1 && h2 == 2 * h && Passing(s, I[..], P, V[..], h, h2, 0)
      invariant I[0] != -(|s| + 1) ==> h <= 2 * |s|
      decreases 2 * |s| - h
    {
      ghost var ia, va, Q := I[..], V[..], P;
      P := Pass(I, V, h, s, P, h2);
      PassDone(s, I[..], P, V[..], h, h2, 2 * h2);
      if I[0] != -(|s| + 1) { NotOverBound(s, ia, Q, va, h, h2); }
      h := h + h;
      h2 := 2 * h2;
    }
    OverMeansSorted(s, I[..], P, V[..], h, h2);
    Invert(I, V, P);
  }

  /** There is only one suffix array. */
  lemma SuffixArrayUnique(s: seq<byte>, I: seq<int>, J: seq<int>)
    requires IsSuffixArray(s, I) && IsSuffixArray(s, J)
    ensures I == J
  {
    SamePrefix(s, I, J, |s| + 1);
  }

  lemma {:induction false} SamePrefix(s: seq<byte>, I: seq<int>, J: seq<int>, k: nat)
    requires IsSuffixArray(s, I) && IsSuffixArray(s, J) && k <= |s| + 1
    ensures forall p :: 0 <= p < k ==> I[p] == J[p]
  {
    if k > 0 {
      var p := k - 1;
      SamePrefix(s, I, J, p);
      if I[p] != J[p] {
        Earliest(s, I, J, p);
        Earliest(s, J, I, p);
        LessTransitive(s, I[p], J[p], I[p]);
        LessIrreflexive(s, I[p]);
      }
    }
  }

  lemma Earliest(s: seq<byte>, I: seq<int>, J: seq<int>, p: nat)
    requires IsSuffixArray(s, I) && IsSuffixArray(s, J) && p <= |s| && I[p] != J[p]
    requires forall t :: 0 <= t < p ==> I[t] == J[t]
    ensures Less(s, I[p], J[p])
  {
    var q := PositionOf(I, |s| + 1, J[p]);
    LessIsLexLess(s, I[p], J[p]);
  }
}
