/**
 Splitting one group of the suffix array by the group numbers `h` bytes further on. Decisions are taken on the
 group numbers as they stand, which change while the split runs; each is justified by the true suffix order.
 */
module SuffixSplit {
  import opened Bytes
  import opened SuffixOrder
  import opened SuffixGroups
  import opened SuffixPartition

  /** `I` carries the suffixes that `P` places at positions `[a..b)`. */
  predicate Carries(I: seq<int>, P: seq<int>, a: int, b: int) {
    0 <= a <= b <= |P| == |I| && forall p :: a <= p < b ==> I[p] == P[p]
  }

  /** Everything at positions `[a..b)` precedes everything at positions `[b..e]`. */
  predicate Before(s: seq<byte>, P: seq<int>, a: int, b: int, e: int)
    requires Permutation(P, |s| + 1) && 0 <= a <= b && e <= |s|
  {
    forall p, q :: a <= p < b <= q <= e ==> Less(s, P[p], P[q])
  }

  /** The stretch `[a..b)` is the front of the group `[a..e]` and is next to be split. */
  predicate Ready(s: seq<byte>, I: seq<int>, P: seq<int>, V: seq<int>, h: nat, a: int, b: int, e: int) {
    && Ordered(s, P, V, h) && OpenGroup(P, V, |s| + 1, a, e)
    && a <= b <= e + 1 && Carries(I, P, a, b) && Deep(I, |s| + 1, h, a, b) && Before(s, P, a, b, e)
  }

  /** The suffix at `p` is the only one of its group. */
  predicate Alone(P: seq<int>, V: seq<int>, N: nat, p: int)
    requires Permutation(P, N) && InRange(V, N) && 0 <= p < N
  {
    V[P[p]] == p && (p > 0 ==> V[P[p - 1]] == p - 1)
  }

  /**
   A position of a finished stretch: marked as sorted exactly if it is alone, and else in a group that agrees on `h2`
   bytes.
   */
  predicate Settled(s: seq<byte>, I: seq<int>, P: seq<int>, V: seq<int>, h2: nat, p: int)
    requires Permutation(P, |s| + 1) && InRange(V, |s| + 1) && 0 <= p <= |s| && |I| == |s| + 1
  {
    if Alone(P, V, |s| + 1, p) then I[p] == -1 else I[p] == P[p] && P[p] + h2 <= |s|
  }

  /** `[lo..hi)` is a union of groups that agree on `h2` bytes, those of one suffix being marked in `I`. */
  predicate Finished(s: seq<byte>, I: seq<int>, P: seq<int>, V: seq<int>, h2: nat, lo: int, hi: int)
    requires Permutation(P, |s| + 1) && InRange(V, |s| + 1) && |I| == |s| + 1
  {
    && 0 <= lo <= hi <= |s| + 1
    && (forall p :: lo <= p < hi ==> V[P[p]] < hi)
    && (forall p :: lo <= p < hi ==> Settled(s, I, P, V, h2, p))
    && (forall p, q :: lo <= p < hi && lo <= q < hi && V[P[p]] == V[P[q]] ==> Agree(s, P[p], P[q], h2))
  }

  // Rearranging the suffixes inside an open group

  lemma RepeatedTwice(Q: seq<int>, p: int, q: int)
    requires 0 <= p < q < |Q| && Q[p] == Q[q]
    ensures multiset(Q)[Q[p]] >= 2
  {
    assert Q == Q[..p] + [Q[p]] + Q[p + 1..q] + [Q[q]] + Q[q + 1..];
  }

  lemma DistinctOnce(P: seq<int>, k: int)
    requires 0 <= k < |P| && forall p, q :: 0 <= p < q < |P| ==> P[p] != P[q]
    ensures multiset(P)[P[k]] == 1
  {
    var l, r := P[..k], P[k + 1..];
    assert P == l + [P[k]] + r;
    assert P[k] !in l && P[k] !in r;
    assert multiset(l)[P[k]] == 0 && multiset(r)[P[k]] == 0;
  }

  lemma ShuffledWhole(P: seq<int>, Q: seq<int>, a: int, b: int)
    requires 0 <= a <= b <= |P| == |Q| && Shuffled(P, Q, a, b)
    ensures multiset(P) == multiset(Q)
  {
    assert P == P[..a] + P[a..b] + P[b..];
    assert Q == P[..a] + Q[a..b] + P[b..];
  }

  lemma ShuffledInjective(P: seq<int>, Q: seq<int>, N: nat, a: int, b: int)
    requires Permutation(P, N) && 0 <= a <= b <= N == |Q| && Shuffled(P, Q, a, b)
    ensures forall p, q :: 0 <= p < q < N ==> Q[p] != Q[q]
  {
    ShuffledWhole(P, Q, a, b);
    forall p, q | 0 <= p < q < N ensures Q[p] != Q[q] {
      if Q[p] == Q[q] {
        RepeatedTwice(Q, p, q);
        assert Q[p] in multiset(P);
        var k :| 0 <= k < N && P[k] == Q[p];
        DistinctOnce(P, k);
      }
    }
  }

  lemma ShuffledOnto(P: seq<int>, Q: seq<int>, N: nat, a: int, b: int)
    requires Permutation(P, N) && 0 <= a <= b <= N == |Q| && Shuffled(P, Q, a, b)
    ensures forall i :: 0 <= i < N ==> i in Q
    ensures forall p :: 0 <= p < N ==> 0 <= Q[p] < N
  {
    ShuffledWhole(P, Q, a, b);
    forall i | 0 <= i < N ensures i in Q {
      assert i in P;
      assert i in multiset(P);
    }
    forall p | 0 <= p < N ensures 0 <= Q[p] < N {
      assert Q[p] in multiset(Q);
      assert Q[p] in P;
    }
  }

  lemma ShuffledPermutation(P: seq<int>, Q: seq<int>, N: nat, a: int, b: int)
    requires Permutation(P, N) && 0 <= a <= b <= N == |Q| && Shuffled(P, Q, a, b)
    ensures Permutation(Q, N)
  {
    ShuffledInjective(P, Q, N, a, b);
    ShuffledOnto(P, Q, N, a, b);
  }

  /** `P` with the stretch `[a..b)` as `I` now has it. */
  function Replaced(P: seq<int>, I: seq<int>, a: int, b: int): (Q: seq<int>)
    requires 0 <= a <= b <= |P| == |I|
    ensures |Q| == |P| && Carries(I, Q, a, b)
    ensures forall p :: 0 <= p < a || b <= p < |P| ==> Q[p] == P[p]
  {
    P[..a] + I[a..b] + P[b..]
  }

  lemma ReplacedShuffles(P: seq<int>, I: seq<int>, J: seq<int>, a: int, b: int)
    requires Carries(I, P, a, b) && |J| == |I| && Shuffled(I, J, a, b)
    ensures Shuffled(P, Replaced(P, J, a, b), a, b)
  {
    assert Replaced(P, J, a, b)[a..b] == J[a..b];
    assert P[a..b] == I[a..b];
  }

  lemma SameGroupsKeepOrder(s: seq<byte>, P: seq<int>, Q: seq<int>, V: seq<int>, h: nat)
    requires Ordered(s, P, V, h) && Permutation(Q, |s| + 1)
    requires forall p :: 0 <= p <= |s| ==> V[Q[p]] == V[P[p]]
    ensures Ordered(s, Q, V, h)
  {
  }

  /** Rearranging the front of an open group leaves it ready to be split. */
  lemma ShuffleKeepsReady(s: seq<byte>, I: seq<int>, J: seq<int>, P: seq<int>, Q: seq<int>, V: seq<int>,
                          h: nat, a: int, b: int, e: int)
    requires Ready(s, I, P, V, h, a, b, e) && |J| == |I| && Shuffled(I, J, a, b) && Q == Replaced(P, J, a, b)
    ensures Shuffled(P, Q, a, b) && Ready(s, J, Q, V, h, a, b, e)
  {
    var N := |s| + 1;
    ReplacedShuffles(P, I, J, a, b);
    ShuffledPermutation(P, Q, N, a, b);
    ShuffledDeep(I, J, N, h, a, b, a, b);
    forall p | 0 <= p < N ensures V[Q[p]] == V[P[p]] {
      if a <= p < b { var t := ShuffledMember(P, Q, a, b, p); }
    }
    SameGroupsKeepOrder(s, P, Q, V, h);
    forall p, q | a <= p < b <= q <= e ensures Less(s, Q[p], Q[q]) {
      var t := ShuffledMember(P, Q, a, b, p);
    }
  }

  // Reading the order of two suffixes of one group off their keys

  lemma SmallerKeyLess(s: seq<byte>, V: seq<int>, h: nat, i: int, j: int)
    requires InRange(V, |s| + 1) && Sound(s, V) && AgreeInGroup(s, V, h)
    requires 0 <= i && i + h <= |s| && 0 <= j && j + h <= |s| && V[i] == V[j]
    requires V[i + h] < V[j + h]
    ensures Less(s, i, j)
  {
    LessAfterAgreement(s, i, j, h);
  }

  lemma EqualKeyAgree(s: seq<byte>, V: seq<int>, h: nat, h2: nat, i: int, j: int)
    requires InRange(V, |s| + 1) && AgreeInGroup(s, V, h) && h2 == 2 * h
    requires 0 <= i && i + h <= |s| && 0 <= j && j + h <= |s| && V[i] == V[j]
    requires V[i + h] == V[j + h]
    ensures Agree(s, i, j, h2)
    ensures i != j ==> i + h2 <= |s|
  {
    AgreementDoubles(s, i, j, h);
  }

  // Giving the front of an open group a group number of its own

  /** The suffixes in `I[a..m)` become the group named `m - 1`. */
  method AssignGroup(I: array<int>, V: array<int>, a: nat, m: nat, ghost P: seq<int>)
    requires I != V && I.Length == V.Length && Permutation(P, V.Length) && a < m && Carries(I[..], P, a, m)
    modifies V
    ensures Regrouped(P, old(V[..]), V[..], a, m - 1)
  {
    for p := a to m
      invariant forall t :: a <= t < p ==> V[P[t]] == m - 1
      invariant forall t :: 0 <= t < I.Length && !(a <= t < p) ==> V[P[t]] == old(V[..])[P[t]]
    {
      V[I[p]] := m - 1;
    }
  }

  /** The members of `[c..m)` share one key, which is smaller than the keys of `[m..b)`. */
  predicate Separated(I: seq<int>, V: seq<int>, h: nat, c: int, m: int, b: int)
    requires Deep(I, |V|, h, c, b)
  {
    && c < m <= b
    && (forall p, q :: c <= p < m && c <= q < m ==> V[I[p] + h] == V[I[q] + h])
    && (forall p, q :: c <= p < m && m <= q < b ==> V[I[p] + h] < V[I[q] + h])
  }

  /** The facts about the stretch `[c..m)` that let it become a finished group, whatever happens to `V` meanwhile. */
  predicate Settling(s: seq<byte>, P: seq<int>, h2: nat, c: int, m: int, b: int, e: int)
    requires Permutation(P, |s| + 1) && 0 <= c && e <= |s|
  {
    && c < m <= b <= e + 1
    && Before(s, P, c, m, e) && Before(s, P, m, b, e)
    && (forall p, q :: c <= p < m && c <= q < m ==> Agree(s, P[p], P[q], h2))
    && (m > c + 1 ==> forall p :: c <= p < m ==> P[p] + h2 <= |s|)
  }

  lemma SeparatedPrecedes(s: seq<byte>, I: seq<int>, P: seq<int>, V: seq<int>, h: nat, a: int, b: int, e: int, c: int,
                          m: int)
    requires Ready(s, I, P, V, h, a, b, e) && a <= c <= b && Separated(I, V, h, c, m, b)
    ensures Before(s, P, c, m, e) && Before(s, P, m, b, e)
  {
    forall p, q | c <= p < m <= q <= e ensures Less(s, P[p], P[q]) {
      if q < b { SmallerKeyLess(s, V, h, P[p], P[q]); }
    }
  }

  lemma SeparatedAgree(s: seq<byte>, I: seq<int>, P: seq<int>, V: seq<int>, h: nat, h2: nat, a: int, b: int, e: int,
                       c: int, m: int)
    requires Ready(s, I, P, V, h, a, b, e) && a <= c <= b && Separated(I, V, h, c, m, b) && h2 == 2 * h
    ensures forall p, q :: c <= p < m && c <= q < m ==> Agree(s, P[p], P[q], h2)
    ensures m > c + 1 ==> forall p :: c <= p < m ==> P[p] + h2 <= |s|
  {
    forall p, q | c <= p < m && c <= q < m ensures Agree(s, P[p], P[q], h2) {
      EqualKeyAgree(s, V, h, h2, P[p], P[q]);
    }
    if m > c + 1 {
      forall p | c <= p < m ensures P[p] + h2 <= |s| {
        EqualKeyAgree(s, V, h, h2, P[p], P[if p == c then c + 1 else c]);
      }
    }
  }

  lemma SeparatedSettles(s: seq<byte>, I: seq<int>, P: seq<int>, V: seq<int>, h: nat, h2: nat, a: int, b: int, e: int,
                         c: int, m: int)
    requires Ready(s, I, P, V, h, a, b, e) && a <= c <= b && Separated(I, V, h, c, m, b) && h2 == 2 * h
    ensures Settling(s, P, h2, c, m, b, e)
  {
    SeparatedPrecedes(s, I, P, V, h, a, b, e, c, m);
    SeparatedAgree(s, I, P, V, h, h2, a, b, e, c, m);
  }

  /** What is left of a group after its front has been dealt with is ready in turn. */
  lemma ReadyAfter(s: seq<byte>, I: seq<int>, I2: seq<int>, P: seq<int>, P2: seq<int>, V: seq<int>, V2: seq<int>,
                   h: nat, a: int, c: int, b: int, e: int)
    requires Ready(s, I, P, V, h, a, b, e) && a < c <= b && c <= e && Before(s, P, c, b, e)
    requires Ordered(s, P2, V2, h) && |I2| == |I|
    requires forall p :: c <= p <= |s| ==> P2[p] == P[p] && V2[P[p]] == V[P[p]]
    requires forall p :: c <= p < b ==> I2[p] == I[p]
    requires V2[P2[c - 1]] < c
    ensures Ready(s, I2, P2, V2, h, c, b, e)
  {
  }

  /** A finished stretch followed by a finished stretch is finished. */
  lemma FinishedAppend(s: seq<byte>, I: seq<int>, I2: seq<int>, P: seq<int>, P2: seq<int>, V: seq<int>, V2: seq<int>,
                       h2: nat, lo: int, c: int, m: int)
    requires Permutation(P, |s| + 1) && InRange(V, |s| + 1) && |I| == |I2| == |s| + 1 && Finished(s, I, P, V, h2, lo, c)
    requires Permutation(P2, |s| + 1) && InRange(V2, |s| + 1) && Grouped(P2, V2, |s| + 1)
    requires Finished(s, I2, P2, V2, h2, c, m)
    requires forall p :: 0 <= p < c ==> P2[p] == P[p] && V2[P[p]] == V[P[p]]
    requires forall p :: lo <= p < c ==> I2[p] == I[p]
    ensures Finished(s, I2, P2, V2, h2, lo, m)
  {
    forall p | lo <= p < m ensures V2[P2[p]] < m && Settled(s, I2, P2, V2, h2, p) {
      if p < c { assert Settled(s, I, P, V, h2, p); }
    }
    forall p, q | lo <= p < m && lo <= q < m && V2[P2[p]] == V2[P2[q]] ensures Agree(s, P2[p], P2[q], h2) {
      if p < c && q < c { assert V[P[p]] == V[P[q]]; }
    }
  }

  /** Once the front of the open group has its own number, and a mark if it is a single suffix, it is finished. */
  lemma FrontFinished(s: seq<byte>, I: seq<int>, I2: seq<int>, P: seq<int>, V: seq<int>, V2: seq<int>,
                      h: nat, h2: nat, a: int, m: int, b: int, e: int)
    requires Ready(s, I, P, V, h, a, b, e) && Settling(s, P, h2, a, m, b, e)
    requires |V2| == |s| + 1 && Regrouped(P, V, V2, a, m - 1)
    requires I2 == if m == a + 1 then I[a := -1] else I
    ensures Ordered(s, P, V2, h) && Finished(s, I2, P, V2, h2, a, m)
    ensures m < b ==> Ready(s, I2, P, V2, h, m, b, e)
  {
    RegroupKeepsOrder(s, P, V, V2, a, m - 1, e, h);
    forall p | a <= p < m ensures Settled(s, I2, P, V2, h2, p) {}
    if m < b { ReadyAfter(s, I, I2, P, P, V, V2, h, a, m, b, e); }
  }

  // The two ways the source splits a stretch

  /** The least-key scan of `[k..end)`: `[k..m)` hold key `x`, `[m..i)` greater keys. */
  predicate Scanned(I0: seq<int>, I: seq<int>, V: seq<int>, h: nat, k: int, end: int, x: int, m: int, i: int) {
    && |I| == |I0| && Deep(I, |V|, h, k, end) && Shuffled(I0, I, k, end)
    && k < m <= i <= end
    && (forall p :: k <= p < m ==> V[I[p] + h] == x)
    && (forall p :: m <= p < i ==> V[I[p] + h] > x)
  }

  lemma ScanGreater(I0: seq<int>, I: seq<int>, V: seq<int>, h: nat, k: int, end: int, x: int, m: int, i: int, i2: int)
    requires Scanned(I0, I, V, h, k, end, x, m, i) && i < end && V[I[i] + h] > x && i2 == i + 1
    ensures Scanned(I0, I, V, h, k, end, x, m, i2)
  {
  }

  lemma ScanNotGreater(I0: seq<int>, I: seq<int>, V: seq<int>, h: nat, k: int, end: int, x: int, m: int, i: int,
                       x2: int, m1: int, m2: int, i2: int)
    requires Scanned(I0, I, V, h, k, end, x, m, i) && i < end && i2 == i + 1 && x2 == V[I[i] + h] && m2 == m1 + 1
    requires (x2 == x && m1 == m) || (x2 < x && m1 == k)
    ensures Scanned(I0, Swap(I, m1, i), V, h, k, end, x2, m2, i2)
  {
    SwapShuffles(I0, I, k, end, m1, i);
  }

  /** One round of the inner loop of the short case. */
  method ScanEntry(I: array<int>, V: array<int>, k: nat, end: nat, h: nat, x: int, m: nat, i: nat,
                   ghost I0: seq<int>, ghost cur: seq<int>, ghost vs: seq<int>)
      returns (x2: int, m2: nat, ghost cur2: seq<int>)
    requires I != V && cur == I[..] && vs == V[..] && i < end && Scanned(I0, cur, vs, h, k, end, x, m, i)
    modifies I
    ensures cur2 == I[..] && Scanned(I0, cur2, vs, h, k, end, x2, m2, i + 1)
  {
    x2, m2, cur2 := x, m, cur;
    if V[I[i] + h] < x {
      x2 := V[I[i] + h];
      m2 := k;
    }
    if V[I[i] + h] == x2 {
      ScanNotGreater(I0, cur, vs, h, k, end, x, m, i, x2, m2, m2 + 1, i + 1);
      cur2 := Swap(cur, m2, i);
      SwapEntries(I, m2, i);
      m2 := m2 + 1;
    } else {
      ScanGreater(I0, cur, vs, h, k, end, x, m, i, i + 1);
    }
  }

  /** The inner loop of the short case: the suffixes with the least key come to the front. */
  method SelectLeast(I: array<int>, V: array<int>, k: nat, end: nat, h: nat, ghost I0: seq<int>, ghost vs: seq<int>)
      returns (m: nat)
    requires I != V && I0 == I[..] && vs == V[..] && Deep(I0, |vs|, h, k, end) && k < end
    modifies I
    ensures Deep(I[..], |vs|, h, k, end) && Shuffled(I0, I[..], k, end) && Separated(I[..], vs, h, k, m, end)
  {
    ghost var cur := I0;
    var x := V[I[k] + h];
    m := k + 1;
    var i := k + 1;
    while i < end
      invariant cur == I[..] && Scanned(I0, cur, vs, h, k, end, x, m, i)
    {
      x, m, cur := ScanEntry(I, V, k, end, h, x, m, i, I0, cur, vs);
      i := i + 1;
    }
  }

  /**
   The split of `[start..end)` has finished `[start..c)`; `I0`, `P0` and `V0` are what it started from, and nothing
   outside the stretch has changed.
   */
  predicate Progress(s: seq<byte>, I0: seq<int>, I: seq<int>, P0: seq<int>, P: seq<int>, V0: seq<int>, V: seq<int>,
                     h: nat, h2: nat, start: int, c: int, end: int) {
    && 0 <= start <= c <= end <= |s| + 1 && |I0| == |I| == |V0| == |s| + 1 && Permutation(P0, |s| + 1)
    && Ordered(s, P, V, h) && Finished(s, I, P, V, h2, start, c) && Shuffled(P0, P, start, end)
    && (forall p :: 0 <= p <= |s| && !(start <= p < end) ==> I[p] == I0[p] && V[P0[p]] == V0[P0[p]])
  }

  lemma ProgressExtends(s: seq<byte>, I0: seq<int>, I: seq<int>, I2: seq<int>, P0: seq<int>, P: seq<int>, P2: seq<int>,
                        V0: seq<int>, V: seq<int>, V2: seq<int>, h: nat, h2: nat, start: int, c: int, m: int, end: int)
    requires Progress(s, I0, I, P0, P, V0, V, h, h2, start, c, end)
    requires Ordered(s, P2, V2, h) && |I2| == |s| + 1 && Finished(s, I2, P2, V2, h2, c, m) && c <= m <= end
    requires Shuffled(P, P2, c, end)
    requires forall p :: 0 <= p <= |s| && !(c <= p < end) ==> I2[p] == I[p] && V2[P[p]] == V[P[p]]
    ensures Progress(s, I0, I2, P0, P2, V0, V2, h, h2, start, m, end)
  {
    ShuffleWithin(P0, P, P2, start, end, c, end);
    FinishedAppend(s, I, I2, P, P2, V, V2, h2, start, c, m);
  }

  lemma ShuffleWidens(P: seq<int>, Q: seq<int>, c: int, m: int, end: int)
    requires 0 <= c <= m <= end <= |P| == |Q| && Shuffled(P, Q, c, m)
    ensures Shuffled(P, Q, c, end)
  {
    ShuffleWithin(P, P, Q, c, end, c, m);
  }

  /** A finished split of the part `[c..m)` extends the progress of the whole. */
  lemma PartDone(s: seq<byte>, I0: seq<int>, I: seq<int>, I2: seq<int>, P0: seq<int>, P: seq<int>, P2: seq<int>,
                 V0: seq<int>, V: seq<int>, V2: seq<int>, h: nat, h2: nat, start: int, c: int, m: int, end: int)
    requires Progress(s, I0, I, P0, P, V0, V, h, h2, start, c, end) && m <= end
    requires Progress(s, I, I2, P, P2, V, V2, h, h2, c, m, m)
    ensures Progress(s, I0, I2, P0, P2, V0, V2, h, h2, start, m, end)
  {
    ShuffleWidens(P, P2, c, m, end);
    ProgressExtends(s, I0, I, I2, P0, P, P2, V0, V, V2, h, h2, start, c, m, end);
  }

  /** Numbering, and where it is a single suffix marking, the front `[c..m)` extends the progress of the whole. */
  lemma FrontDone(s: seq<byte>, I0: seq<int>, I: seq<int>, I2: seq<int>, P0: seq<int>, P: seq<int>, V0: seq<int>,
                  V: seq<int>, V2: seq<int>, h: nat, h2: nat, start: int, c: int, m: int, end: int, e: int)
    requires Progress(s, I0, I, P0, P, V0, V, h, h2, start, c, end)
    requires Ready(s, I, P, V, h, c, end, e) && Settling(s, P, h2, c, m, end, e)
    requires |V2| == |s| + 1 && Regrouped(P, V, V2, c, m - 1)
    requires I2 == if m == c + 1 then I[c := -1] else I
    ensures Progress(s, I0, I2, P0, P, V0, V2, h, h2, start, m, end)
    ensures m < end ==> Ready(s, I2, P, V2, h, m, end, e)
  {
    FrontFinished(s, I, I2, P, V, V2, h, h2, c, m, end, e);
    ProgressExtends(s, I0, I, I2, P0, P, P, V0, V, V2, h, h2, start, c, m, end);
  }

  /** Rearranging the unfinished rest keeps the progress and leaves the rest ready. */
  lemma RestShuffled(s: seq<byte>, I0: seq<int>, I: seq<int>, I2: seq<int>, P0: seq<int>, P: seq<int>, P2: seq<int>,
                     V0: seq<int>, V: seq<int>, h: nat, h2: nat, start: int, c: int, end: int, e: int)
    requires Progress(s, I0, I, P0, P, V0, V, h, h2, start, c, end) && Ready(s, I, P, V, h, c, end, e)
    requires |I2| == |I| && Shuffled(I, I2, c, end) && P2 == Replaced(P, I2, c, end)
    ensures Progress(s, I0, I2, P0, P2, V0, V, h, h2, start, c, end) && Ready(s, I2, P2, V, h, c, end, e)
  {
    ShuffleKeepsReady(s, I, I2, P, P2, V, h, c, end, e);
    ProgressExtends(s, I0, I, I2, P0, P, P2, V0, V, V, h, h2, start, c, c, end);
  }

  /** Stretches of fewer than 16 suffixes: repeatedly bring the least keys to the front. */
  method SplitShort(I: array<int>, V: array<int>, start: nat, end: nat, h: nat,
                    ghost s: seq<byte>, ghost P: seq<int>, ghost h2: nat, ghost e: int)
      returns (ghost Q: seq<int>)
    requires I != V && I.Length == V.Length == |s| + 1 && start < end && h2 == 2 * h
    requires Ready(s, I[..], P, V[..], h, start, end, e)
    modifies I, V
    ensures Progress(s, old(I[..]), I[..], P, Q, old(V[..]), V[..], h, h2, start, end, end)
  {
    ghost var I0, V0 := I[..], V[..];
    Q := P;
    var k := start;
    while k < end
      invariant Progress(s, I0, I[..], P, Q, V0, V[..], h, h2, start, k, end)
      invariant k < end ==> Ready(s, I[..], Q, V[..], h, k, end, e)
    {
      ghost var ia, vs, Q0 := I[..], V[..], Q;
      var m := SelectLeast(I, V, k, end, h, ia, vs);
      ghost var ib := I[..];
      Q := Replaced(Q0, ib, k, end);
      RestShuffled(s, I0, ia, ib, P, Q0, Q, V0, vs, h, h2, start, k, end, e);
      SeparatedSettles(s, ib, Q, vs, h, h2, k, end, e, k, m);
      AssignGroup(I, V, k, m, Q);
      if m == k + 1 { I[k] := -1; }
      FrontDone(s, I0, ib, I[..], P, Q, V0, vs, V[..], h, h2, start, k, m, end, e);
      k := m;
    }
  }

  /** The pivot itself falls into the middle piece. */
  lemma MiddleNotEmpty(I: seq<int>, J: seq<int>, V: seq<int>, h: nat, a: int, b: int, mid: int, x: int, jj: int,
                       kk: int)
    requires Deep(I, |V|, h, a, b) && Deep(J, |V|, h, a, b) && |I| == |J| && Shuffled(I, J, a, b) && a <= mid < b
    requires x == V[I[mid] + h] && Partitioned(J, V, h, a, b, x, jj, kk)
    ensures jj < kk
  {
    var t := ShuffledMember(J, I, a, b, mid);
  }

  /** What the partition says about its three pieces in terms of the suffix order. */
  lemma PiecesSettle(s: seq<byte>, I: seq<int>, P: seq<int>, V: seq<int>, h: nat, h2: nat, a: int, b: int, e: int,
                     x: int, jj: int, kk: int)
    requires Ready(s, I, P, V, h, a, b, e) && Partitioned(I, V, h, a, b, x, jj, kk) && jj < kk && h2 == 2 * h
    ensures Settling(s, P, h2, jj, kk, b, e)
    ensures a < jj ==> Ready(s, I, P, V, h, a, jj, e)
  {
    SeparatedSettles(s, I, P, V, h, h2, a, b, e, jj, kk);
    forall p, q | a <= p < jj <= q <= e ensures Less(s, P[p], P[q]) {
      if q < b { SmallerKeyLess(s, V, h, P[p], P[q]); }
    }
  }

  /** After the smaller piece is split, the rest is ready and still settles. */
  lemma MiddleReady(s: seq<byte>, I: seq<int>, I2: seq<int>, P: seq<int>, P2: seq<int>, V: seq<int>, V2: seq<int>,
                    h: nat, h2: nat, a: int, jj: int, kk: int, b: int, e: int)
    requires Ready(s, I, P, V, h, a, b, e) && a < jj && Settling(s, P, h2, jj, kk, b, e)
    requires Progress(s, I, I2, P, P2, V, V2, h, h2, a, jj, jj)
    ensures Ready(s, I2, P2, V2, h, jj, b, e) && Settling(s, P2, h2, jj, kk, b, e)
  {
    assert Before(s, P, jj, b, e);
    ReadyAfter(s, I, I2, P, P2, V, V2, h, a, jj, b, e);
  }

  /** Partition of a long stretch around the key of its middle element, with what it means for the three pieces. */
  method PartitionGroup(I: array<int>, V: array<int>, start: nat, end: nat, h: nat,
                        ghost s: seq<byte>, ghost P: seq<int>, ghost h2: nat, ghost e: int)
      returns (jj: nat, kk: nat, ghost Q: seq<int>)
    requires I != V && I.Length == V.Length == |s| + 1 && start < end && h2 == 2 * h
    requires Ready(s, I[..], P, V[..], h, start, end, e)
    modifies I
    ensures start <= jj < kk <= end
    ensures Progress(s, old(I[..]), I[..], P, Q, V[..], V[..], h, h2, start, start, end)
    ensures Ready(s, I[..], Q, V[..], h, start, end, e) && Settling(s, Q, h2, jj, kk, end, e)
    ensures start < jj ==> Ready(s, I[..], Q, V[..], h, start, jj, e)
  {
    ghost var I0, vs := I[..], V[..];
    var mid := start + (end - start) / 2;
    var x := V[I[mid] + h];
    jj, kk := Partition(I, V, start, end, h, x);
    ghost var I1 := I[..];
    MiddleNotEmpty(I0, I1, vs, h, start, end, mid, x, jj, kk);
    Q := Replaced(P, I1, start, end);
    RestShuffled(s, I0, I0, I1, P, P, Q, vs, vs, h, h2, start, start, end, e);
    PiecesSettle(s, I1, Q, vs, h, h2, start, end, e, x, jj, kk);
  }

  /** The middle piece gets its own group number, and a mark if it is a single suffix. */
  method NumberMiddle(I: array<int>, V: array<int>, jj: nat, kk: nat, ghost s: seq<byte>, ghost I0: seq<int>,
                      ghost P: seq<int>, ghost Q: seq<int>, ghost V0: seq<int>, ghost h: nat, ghost h2: nat,
                      ghost start: nat, ghost end: nat, ghost e: int)
    requires I != V && I.Length == V.Length == |s| + 1
    requires Progress(s, I0, I[..], P, Q, V0, V[..], h, h2, start, jj, end)
    requires Ready(s, I[..], Q, V[..], h, jj, end, e) && Settling(s, Q, h2, jj, kk, end, e)
    modifies I, V
    ensures Progress(s, I0, I[..], P, Q, V0, V[..], h, h2, start, kk, end)
    ensures kk < end ==> Ready(s, I[..], Q, V[..], h, kk, end, e)
  {
    ghost var ia, va := I[..], V[..];
    AssignGroup(I, V, jj, kk, Q);
    if jj == kk - 1 { I[jj] := -1; }
    FrontDone(s, I0, ia, I[..], P, Q, V0, va, V[..], h, h2, start, jj, kk, end, e);
  }

  /**
   `split`: refines the stretch `[start..end)` of one group so that it becomes a union of groups that agree on twice
   as many bytes. The suffixes are only rearranged within the stretch and nothing outside it changes.
   */
  method Split(I: array<int>, V: array<int>, start: nat, end: nat, h: nat,
               ghost s: seq<byte>, ghost P: seq<int>, ghost h2: nat, ghost e: int)
      returns (ghost Q: seq<int>)
    requires I != V && I.Length == V.Length == |s| + 1 && start < end && h2 == 2 * h
    requires Ready(s, I[..], P, V[..], h, start, end, e)
    modifies I, V
    ensures Progress(s, old(I[..]), I[..], P, Q, old(V[..]), V[..], h, h2, start, end, end)
    decreases end - start
  {
    if end - start < 16 {
      Q := SplitShort(I, V, start, end, h, s, P, h2, e);
    } else {
      ghost var I0, V0 := I[..], V[..];
      var jj, kk;
      jj, kk, Q := PartitionGroup(I, V, start, end, h, s, P, h2, e);
      if jj > start {
        ghost var ia, Qa := I[..], Q;
        Q := Split(I, V, start, jj, h, s, Q, h2, e);
        PartDone(s, I0, ia, I[..], P, Qa, Q, V0, V0, V[..], h, h2, start, start, jj, end);
        MiddleReady(s, ia, I[..], Qa, Q, V0, V[..], h, h2, start, jj, kk, end, e);
      }
      NumberMiddle(I, V, jj, kk, s, I0, P, Q, V0, h, h2, start, end, e);
      if end > kk {
        ghost var ib, vb, Qb := I[..], V[..], Q;
        Q := Split(I, V, kk, end, h, s, Q, h2, e);
        PartDone(s, I0, ib, I[..], P, Qb, Q, V0, vb, V[..], h, h2, start, kk, end, end);
      }
    }
  }
}
