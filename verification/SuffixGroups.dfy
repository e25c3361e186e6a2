/**
 The state of the suffix sort, as values. `P[p]` is the suffix that stands at position `p` of the
 array being sorted, and `V[i]` is the group of suffix `i`, named by the last position of that group.
 */
module SuffixGroups {
  import opened Bytes
  import opened SuffixOrder

  /** `P` lists each of `0..N-1` exactly once. */
  predicate Permutation(P: seq<int>, N: nat) {
    && |P| == N
    && (forall p :: 0 <= p < N ==> 0 <= P[p] < N)
    && (forall p, q :: 0 <= p < q < N ==> P[p] != P[q])
    && (forall i :: 0 <= i < N ==> i in P)
  }

  predicate InRange(V: seq<int>, N: nat) {
    |V| == N && forall i :: 0 <= i < N ==> 0 <= V[i] < N
  }

  /** Groups are contiguous: the group of the suffix at `p` reaches from at or before `p` to `V[P[p]]`. */
  predicate Grouped(P: seq<int>, V: seq<int>, N: nat)
    requires Permutation(P, N) && InRange(V, N)
  {
    && (forall p :: 0 <= p < N ==> p <= V[P[p]])
    && (forall p, q :: 0 <= p <= q < N && q <= V[P[p]] ==> V[P[q]] == V[P[p]])
  }

  /** A smaller group number means a lexicographically smaller suffix. */
  predicate Sound(s: seq<byte>, V: seq<int>)
    requires InRange(V, |s| + 1)
  {
    forall i, j {:trigger Less(s, i, j)} :: 0 <= i <= |s| && 0 <= j <= |s| && V[i] < V[j] ==> Less(s, i, j)
  }

  /** Suffixes of one group agree on `h` bytes. */
  predicate AgreeInGroup(s: seq<byte>, V: seq<int>, h: nat)
    requires InRange(V, |s| + 1)
  {
    forall i, j {:trigger Agree(s, i, j, h)} :: 0 <= i <= |s| && 0 <= j <= |s| && V[i] == V[j] ==> Agree(s, i, j, h)
  }

  /** What every step of the sort keeps. */
  predicate Ordered(s: seq<byte>, P: seq<int>, V: seq<int>, h: nat) {
    var N := |s| + 1;
    Permutation(P, N) && InRange(V, N) && Grouped(P, V, N) && Sound(s, V) && AgreeInGroup(s, V, h)
  }

  /** `V2` is `V` with the suffixes at positions `a..b` of `P` moved to the group named `b`. */
  predicate Regrouped(P: seq<int>, V: seq<int>, V2: seq<int>, a: int, b: int)
    requires 0 <= a <= b < |P| == |V| == |V2| && Permutation(P, |P|)
  {
    && (forall p :: a <= p <= b ==> V2[P[p]] == b)
    && (forall p :: 0 <= p < |P| && !(a <= p <= b) ==> V2[P[p]] == V[P[p]])
  }

  lemma PositionOf(P: seq<int>, N: nat, i: int) returns (p: int)
    requires Permutation(P, N) && 0 <= i < N
    ensures 0 <= p < N && P[p] == i
  {
    assert i in P;
    p :| 0 <= p < N && P[p] == i;
  }

  /** The group at `[a..e]` starts at `a`. */
  predicate OpenGroup(P: seq<int>, V: seq<int>, N: nat, a: int, e: int)
    requires Permutation(P, N) && InRange(V, N)
  {
    && 0 <= a <= e < N
    && (forall p :: a <= p <= e ==> V[P[p]] == e)
    && (a > 0 ==> V[P[a - 1]] < a)
  }

  /** Positions before an open group have smaller group numbers, those after it larger ones. */
  lemma AroundOpenGroup(P: seq<int>, V: seq<int>, N: nat, a: int, e: int, p: int)
    requires Permutation(P, N) && InRange(V, N) && Grouped(P, V, N) && OpenGroup(P, V, N, a, e)
    requires 0 <= p < N
    ensures p < a ==> V[P[p]] < a
    ensures p > e ==> V[P[p]] > e
  {
  }

  /** Every member of the front part `[a..b]` of the open group precedes every member of the rest. */
  predicate FrontPrecedes(s: seq<byte>, P: seq<int>, a: int, b: int, e: int)
    requires Permutation(P, |s| + 1) && 0 <= a <= b <= e <= |s|
  {
    forall p, q :: a <= p <= b < q <= e ==> Less(s, P[p], P[q])
  }

  lemma RegroupedRange(s: seq<byte>, P: seq<int>, V: seq<int>, V2: seq<int>, a: int, b: int, e: int)
    requires Permutation(P, |s| + 1) && InRange(V, |s| + 1) && |V2| == |s| + 1
    requires 0 <= a <= b <= e <= |s| && Regrouped(P, V, V2, a, b)
    ensures InRange(V2, |s| + 1)
  {
    forall i | 0 <= i <= |s| ensures 0 <= V2[i] <= |s| {
      var p := PositionOf(P, |s| + 1, i);
    }
  }

  lemma RegroupedGrouped(s: seq<byte>, P: seq<int>, V: seq<int>, V2: seq<int>, a: int, b: int, e: int)
    requires Permutation(P, |s| + 1) && InRange(V, |s| + 1) && InRange(V2, |s| + 1) && Grouped(P, V, |s| + 1)
    requires OpenGroup(P, V, |s| + 1, a, e) && a <= b <= e && Regrouped(P, V, V2, a, b)
    ensures Grouped(P, V2, |s| + 1)
    ensures b < e ==> OpenGroup(P, V2, |s| + 1, b + 1, e)
  {
  }

  lemma RegroupedSound(s: seq<byte>, P: seq<int>, V: seq<int>, V2: seq<int>, a: int, b: int, e: int)
    requires Permutation(P, |s| + 1) && InRange(V, |s| + 1) && InRange(V2, |s| + 1) && Grouped(P, V, |s| + 1)
    requires OpenGroup(P, V, |s| + 1, a, e) && a <= b <= e && Regrouped(P, V, V2, a, b)
    requires Sound(s, V) && FrontPrecedes(s, P, a, b, e)
    ensures Sound(s, V2)
  {
    forall i, j | 0 <= i <= |s| && 0 <= j <= |s| && V2[i] < V2[j] ensures Less(s, i, j) {
      var p := PositionOf(P, |s| + 1, i);
      var q := PositionOf(P, |s| + 1, j);
      AroundOpenGroup(P, V, |s| + 1, a, e, p);
      AroundOpenGroup(P, V, |s| + 1, a, e, q);
      if V[i] >= V[j] { assert a <= p <= b < q <= e; }
    }
  }

  lemma RegroupedAgree(s: seq<byte>, P: seq<int>, V: seq<int>, V2: seq<int>, a: int, b: int, e: int, h: nat)
    requires Permutation(P, |s| + 1) && InRange(V, |s| + 1) && InRange(V2, |s| + 1) && Grouped(P, V, |s| + 1)
    requires OpenGroup(P, V, |s| + 1, a, e) && a <= b <= e && Regrouped(P, V, V2, a, b)
    requires AgreeInGroup(s, V, h)
    ensures AgreeInGroup(s, V2, h)
  {
    forall i, j | 0 <= i <= |s| && 0 <= j <= |s| && V2[i] == V2[j] ensures Agree(s, i, j, h) {
      var p := PositionOf(P, |s| + 1, i);
      var q := PositionOf(P, |s| + 1, j);
      AroundOpenGroup(P, V, |s| + 1, a, e, p);
      AroundOpenGroup(P, V, |s| + 1, a, e, q);
      assert V[i] == V[j];
    }
  }

  /** Splitting a front part off an open group keeps everything the sort relies on. */
  lemma RegroupKeepsOrder(s: seq<byte>, P: seq<int>, V: seq<int>, V2: seq<int>, a: int, b: int, e: int, h: nat)
    requires Ordered(s, P, V, h) && |V2| == |s| + 1
    requires OpenGroup(P, V, |s| + 1, a, e) && a <= b <= e && Regrouped(P, V, V2, a, b)
    requires FrontPrecedes(s, P, a, b, e)
    ensures Ordered(s, P, V2, h)
    ensures b < e ==> OpenGroup(P, V2, |s| + 1, b + 1, e)
  {
    RegroupedRange(s, P, V, V2, a, b, e);
    RegroupedGrouped(s, P, V, V2, a, b, e);
    RegroupedSound(s, P, V, V2, a, b, e);
    RegroupedAgree(s, P, V, V2, a, b, e, h);
  }
}
