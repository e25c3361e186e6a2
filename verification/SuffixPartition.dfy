/** Ternary partition of a stretch of the suffix array by the group number `h` bytes further on. */
module SuffixPartition {

  /** Every entry of `I` at positions `[a..b)` is a suffix with `h` more bytes behind it. */
  predicate Deep(I: seq<int>, N: nat, h: nat, a: int, b: int) {
    0 <= a <= b <= |I| && forall p :: a <= p < b ==> 0 <= I[p] && I[p] + h < N
  }

  /** `J` is `I` with the entries at positions `[a..b)` rearranged among themselves. */
  predicate Shuffled(I: seq<int>, J: seq<int>, a: int, b: int)
    requires 0 <= a <= b <= |I| && |J| == |I|
  {
    && (forall p :: 0 <= p < a ==> J[p] == I[p])
    && (forall p :: b <= p < |I| ==> J[p] == I[p])
    && multiset(J[a..b]) == multiset(I[a..b])
  }

  lemma ShuffleWithin(I: seq<int>, J: seq<int>, K: seq<int>, a: int, b: int, c: int, d: int)
    requires 0 <= a <= c <= d <= b <= |I| == |J| == |K|
    requires Shuffled(I, J, a, b) && Shuffled(J, K, c, d)
    ensures Shuffled(I, K, a, b)
  {
    assert J[a..b] == J[a..c] + J[c..d] + J[d..b];
    assert K[a..b] == J[a..c] + K[c..d] + J[d..b];
  }

  /** Whatever stands in a shuffled stretch stood in it before. */
  lemma ShuffledMember(I: seq<int>, J: seq<int>, a: int, b: int, p: int) returns (q: int)
    requires 0 <= a <= b <= |I| == |J| && Shuffled(I, J, a, b) && a <= p < b
    ensures a <= q < b && J[p] == I[q]
  {
    assert J[a..b][p - a] in multiset(J[a..b]);
    assert J[p] in I[a..b];
    var t :| 0 <= t < b - a && I[a..b][t] == J[p];
    q := a + t;
  }

  lemma ShuffledDeep(I: seq<int>, J: seq<int>, N: nat, h: nat, a: int, b: int, c: int, d: int)
    requires 0 <= a <= c <= d <= b <= |I| == |J| && Shuffled(I, J, c, d) && Deep(I, N, h, a, b)
    ensures Deep(J, N, h, a, b)
  {
    forall p | a <= p < b ensures 0 <= J[p] && J[p] + h < N {
      if c <= p < d { var q := ShuffledMember(I, J, c, d, p); }
    }
  }

  // Counting the suffixes on either side of a pivot

  /** The sort key of suffix `e`: the group number of the suffix `h` bytes further on. */
  function Key(V: seq<int>, h: nat, e: int): int { if 0 <= e && e + h < |V| then V[e + h] else -1 }

  function Side(key: int, x: int): int { if key < x then -1 else if key == x then 0 else 1 }

  /** How many of the suffixes `I` have their key on the given side of `x`. */
  function Count(I: seq<int>, V: seq<int>, h: nat, x: int, side: int): (c: nat)
  {
    if I == [] then 0
    else Count(I[..|I| - 1], V, h, x, side) + (if Side(Key(V, h, I[|I| - 1]), x) == side then 1 else 0)
  }

  lemma {:induction false} CountsAddUp(I: seq<int>, V: seq<int>, h: nat, x: int)
    ensures Count(I, V, h, x, -1) + Count(I, V, h, x, 0) + Count(I, V, h, x, 1) == |I|
  {
    if I != [] { CountsAddUp(I[..|I| - 1], V, h, x); }
  }

  lemma {:induction false} CountConcat(a: seq<int>, b: seq<int>, V: seq<int>, h: nat, x: int, side: int)
    ensures Count(a + b, V, h, x, side) == Count(a, V, h, x, side) + Count(b, V, h, x, side)
  {
    if b == [] {
      assert a + b == a;
    } else {
      assert (a + b)[..|a + b| - 1] == a + b[..|b| - 1];
      CountConcat(a, b[..|b| - 1], V, h, x, side);
    }
  }

  lemma {:induction false} CountAll(I: seq<int>, V: seq<int>, h: nat, x: int, side: int)
    requires forall t :: 0 <= t < |I| ==> Side(Key(V, h, I[t]), x) == side
    ensures Count(I, V, h, x, side) == |I|
  {
    if I != [] { CountAll(I[..|I| - 1], V, h, x, side); }
  }

  lemma CountWithout(l: seq<int>, e: int, r: seq<int>, V: seq<int>, h: nat, x: int, side: int)
    ensures Count(l + [e] + r, V, h, x, side) == Count(l + r, V, h, x, side) + Count([e], V, h, x, side)
  {
    CountConcat(l + [e], r, V, h, x, side);
    CountConcat(l, [e], V, h, x, side);
    CountConcat(l, r, V, h, x, side);
  }

  /** The last entry of `I` also stands somewhere in its rearrangement `J`. */
  lemma TakeLast(I: seq<int>, J: seq<int>) returns (l: seq<int>, r: seq<int>)
    requires I != [] && multiset(I) == multiset(J)
    ensures J == l + [I[|I| - 1]] + r
    ensures multiset(l + r) == multiset(I[..|I| - 1])
  {
    var front, e := I[..|I| - 1], I[|I| - 1];
    assert I == front + [e];
    assert e in multiset(J);
    var t :| 0 <= t < |J| && J[t] == e;
    l, r := J[..t], J[t + 1..];
    assert J == l + [e] + r;
    assert multiset(l + r) == multiset(l) + multiset(r) == multiset(J) - multiset{e};
    assert multiset(front) == multiset(I) - multiset{e};
  }

  /** The count does not depend on the order. */
  lemma {:induction false} CountShuffled(I: seq<int>, J: seq<int>, V: seq<int>, h: nat, x: int, side: int)
    requires multiset(I) == multiset(J)
    ensures Count(I, V, h, x, side) == Count(J, V, h, x, side)
  {
    if I == [] {
      assert |J| == |multiset(J)| == 0;
    } else {
      var front, e := I[..|I| - 1], I[|I| - 1];
      var l, r := TakeLast(I, J);
      CountShuffled(front, l + r, V, h, x, side);
      CountWithout(l, e, r, V, h, x, side);
    }
  }

  /** A stretch on one side, and one more such suffix elsewhere, bound the count from below. */
  lemma CountExceeds(I: seq<int>, V: seq<int>, h: nat, x: int, side: int, lo: int, hi: int, i: int)
    requires 0 <= lo <= hi <= |I| && 0 <= i < |I| && !(lo <= i < hi)
    requires forall t :: lo <= t < hi ==> Side(Key(V, h, I[t]), x) == side
    requires Side(Key(V, h, I[i]), x) == side
    ensures Count(I, V, h, x, side) > hi - lo
  {
    var one := [I[i]];
    if i < lo {
      var a, b, mid, c := I[..i], I[i + 1..lo], I[lo..hi], I[hi..];
      CountAll(mid, V, h, x, side);
      assert I == a + (one + (b + (mid + c)));
      CountConcat(mid, c, V, h, x, side);
      CountConcat(b, mid + c, V, h, x, side);
      CountConcat(one, b + (mid + c), V, h, x, side);
      CountConcat(a, one + (b + (mid + c)), V, h, x, side);
    } else {
      var a, mid, b, c := I[..lo], I[lo..hi], I[hi..i], I[i + 1..];
      CountAll(mid, V, h, x, side);
      assert I == a + (mid + (b + (one + c)));
      CountConcat(one, c, V, h, x, side);
      CountConcat(b, one + c, V, h, x, side);
      CountConcat(mid, b + (one + c), V, h, x, side);
      CountConcat(a, mid + (b + (one + c)), V, h, x, side);
    }
  }

  /** `jj` and `kk` are where the pieces of `I[a..b)` meet. */
  ghost predicate Tallied(I: seq<int>, V: seq<int>, h: nat, a: int, b: int, x: int, jj: int, kk: int)
    requires Deep(I, |V|, h, a, b)
  {
    && jj == a + Count(I[a..b], V, h, x, -1)
    && kk == jj + Count(I[a..b], V, h, x, 0)
    && b == kk + Count(I[a..b], V, h, x, 1)
  }

  lemma StretchExceeds(I0: seq<int>, I: seq<int>, V: seq<int>, h: nat, x: int, side: int,
                       a: int, b: int, lo: int, hi: int, u: int)
    requires 0 <= a <= lo <= hi <= b <= |I| && b <= |I0| && a <= u < b && !(lo <= u < hi)
    requires multiset(I[a..b]) == multiset(I0[a..b])
    requires forall p :: lo <= p < hi ==> Side(Key(V, h, I[p]), x) == side
    requires Side(Key(V, h, I[u]), x) == side
    ensures Count(I0[a..b], V, h, x, side) > hi - lo
  {
    var idx := I[a..b];
    CountShuffled(I0[a..b], idx, V, h, x, side);
    forall t | lo - a <= t < hi - a ensures Side(Key(V, h, idx[t]), x) == side {
      assert idx[t] == I[a + t];
    }
    CountExceeds(idx, V, h, x, side, lo - a, hi - a, u - a);
  }

  /**
   The partition of `I0[a..b)` under way: `I` is a rearrangement in which the pieces `[a..i)`, `[jj..j)` and
   `[kk..k)` hold only smaller, equal and greater keys.
   */
  predicate Staged(I0: seq<int>, I: seq<int>, V: seq<int>, h: nat, a: int, b: int, x: int,
                   jj: int, kk: int, i: int, j: int, k: int)
  {
    && |I| == |I0| && Deep(I, |V|, h, a, b) && Shuffled(I0, I, a, b)
    && a <= i <= jj <= j <= kk <= k <= b
    && (forall p :: a <= p < i ==> V[I[p] + h] < x)
    && (forall p :: jj <= p < j ==> V[I[p] + h] == x)
    && (forall p :: kk <= p < k ==> V[I[p] + h] > x)
  }

  /** A misplaced suffix leaves room in the piece it belongs to. */
  lemma Room(I0: seq<int>, I: seq<int>, V: seq<int>, h: nat, a: int, b: int, x: int,
             jj: int, kk: int, i: int, j: int, k: int, u: int)
    requires Deep(I0, |V|, h, a, b) && Tallied(I0, V, h, a, b, x, jj, kk)
    requires Staged(I0, I, V, h, a, b, x, jj, kk, i, j, k) && a <= u < b
    ensures V[I[u] + h] < x && !(a <= u < i) ==> i < jj
    ensures V[I[u] + h] == x && !(jj <= u < j) ==> j < kk
    ensures V[I[u] + h] > x && !(kk <= u < k) ==> k < b
  {
    var s := Side(V[I[u] + h], x);
    var lo := if s == -1 then a else if s == 0 then jj else kk;
    var hi := if s == -1 then i else if s == 0 then j else k;
    if !(lo <= u < hi) {
      assert forall p :: lo <= p < hi ==> Side(Key(V, h, I[p]), x) == s;
      StretchExceeds(I0, I, V, h, x, s, a, b, lo, hi, u);
    }
  }

  function Swap(I: seq<int>, u: int, v: int): (J: seq<int>)
    requires 0 <= u < |I| && 0 <= v < |I|
  {
    I[u := I[v]][v := I[u]]
  }

  lemma SwapShuffles(I0: seq<int>, I: seq<int>, a: int, b: int, u: int, v: int)
    requires 0 <= a <= u < b <= |I0| == |I| && a <= v < b && Shuffled(I0, I, a, b)
    ensures Shuffled(I0, Swap(I, u, v), a, b)
  {
    var part := I[a..b];
    assert Swap(I, u, v)[a..b] == Swap(part, u - a, v - a);
    SwapKeeps(part, u - a, v - a);
  }

  lemma SwapKeeps(part: seq<int>, u: nat, v: nat)
    requires u < |part| && v < |part|
    ensures multiset(Swap(part, u, v)) == multiset(part)
  {
  }

  /** A smaller key is in place in the front; in the middle an equal one is. */
  lemma StayStep(I0: seq<int>, I: seq<int>, V: seq<int>, h: nat, a: int, b: int, x: int,
                 jj: int, kk: int, i: int, j: int, k: int, i2: int, j2: int)
    requires Staged(I0, I, V, h, a, b, x, jj, kk, i, j, k)
    requires (i < jj && V[I[i] + h] < x && i2 == i + 1 && j2 == j) ||
             (j < kk && V[I[j] + h] == x && i2 == i && j2 == j + 1)
    ensures Staged(I0, I, V, h, a, b, x, jj, kk, i2, j2, k)
  {
  }

  /** A suffix with the pivot's key goes from the front to the middle. */
  lemma EqualStep(I0: seq<int>, I: seq<int>, V: seq<int>, h: nat, a: int, b: int, x: int,
                  jj: int, kk: int, i: int, j: int, k: int, j2: int)
    requires Deep(I0, |V|, h, a, b) && Tallied(I0, V, h, a, b, x, jj, kk)
    requires Staged(I0, I, V, h, a, b, x, jj, kk, i, j, k) && i < jj && V[I[i] + h] == x && j2 == j + 1
    ensures j < kk && Staged(I0, Swap(I, i, j), V, h, a, b, x, jj, kk, i, j2, k)
  {
    Room(I0, I, V, h, a, b, x, jj, kk, i, j, k, i);
    SwapShuffles(I0, I, a, b, i, j);
  }

  /** A suffix with a greater key goes from the front, or from the middle, to the back. */
  lemma GreaterStep(I0: seq<int>, I: seq<int>, V: seq<int>, h: nat, a: int, b: int, x: int,
                    jj: int, kk: int, i: int, j: int, k: int, u: int, k2: int)
    requires Deep(I0, |V|, h, a, b) && Tallied(I0, V, h, a, b, x, jj, kk)
    requires Staged(I0, I, V, h, a, b, x, jj, kk, i, j, k) && k2 == k + 1
    requires (u == i < jj && V[I[u] + h] > x) || (i == jj && u == j < kk && V[I[u] + h] != x)
    ensures k < b && Staged(I0, Swap(I, u, k), V, h, a, b, x, jj, kk, i, j, k2)
  {
    Room(I0, I, V, h, a, b, x, jj, kk, i, j, k, u);
    SwapShuffles(I0, I, a, b, u, k);
  }

  /** The three pieces are exactly the smaller, equal and greater keys. */
  predicate Partitioned(I: seq<int>, V: seq<int>, h: nat, a: int, b: int, x: int, jj: int, kk: int)
    requires Deep(I, |V|, h, a, b)
  {
    && a <= jj <= kk <= b
    && (forall p :: a <= p < jj ==> V[I[p] + h] < x)
    && (forall p :: jj <= p < kk ==> V[I[p] + h] == x)
    && (forall p :: kk <= p < b ==> V[I[p] + h] > x)
  }

  lemma PartitionDone(I0: seq<int>, I: seq<int>, V: seq<int>, h: nat, a: int, b: int, x: int, jj: int, kk: int, k: int)
    requires Deep(I0, |V|, h, a, b) && Tallied(I0, V, h, a, b, x, jj, kk)
    requires Staged(I0, I, V, h, a, b, x, jj, kk, jj, kk, k)
    ensures Partitioned(I, V, h, a, b, x, jj, kk)
  {
    forall p | kk <= p < b ensures V[I[p] + h] > x {
      Room(I0, I, V, h, a, b, x, jj, kk, jj, kk, k, p);
    }
  }

  /** First pass: how many keys are smaller than, and equal to, the pivot. */
  method CountKeys(I: array<int>, V: array<int>, start: nat, end: nat, h: nat, x: int) returns (jj: nat, kk: nat)
    requires Deep(I[..], V.Length, h, start, end)
    ensures Tallied(I[..], V[..], h, start, end, x, jj, kk)
  {
    ghost var idx := I[..][start..end];
    jj, kk := 0, 0;
    for i := start to end
      invariant jj == Count(idx[..i - start], V[..], h, x, -1) && kk == Count(idx[..i - start], V[..], h, x, 0)
    {
      assert idx[..i + 1 - start][..i - start] == idx[..i - start];
      if V[I[i] + h] < x { jj := jj + 1; }
      if V[I[i] + h] == x { kk := kk + 1; }
    }
    assert idx[..end - start] == idx;
    CountsAddUp(idx, V[..], h, x);
    jj := jj + start;
    kk := kk + jj;
  }

  method SwapEntries(I: array<int>, u: int, v: int)
    requires 0 <= u < I.Length && 0 <= v < I.Length
    modifies I
    ensures I[..] == Swap(old(I[..]), u, v)
  {
    var tmp := I[u];
    I[u] := I[v];
    I[v] := tmp;
  }

  /** The first loop of the partition: it ends with all smaller keys in `[start..jj)`. */
  method FillFront(I: array<int>, V: array<int>, start: nat, end: nat, h: nat, x: int, jj: nat, kk: nat,
                   ghost I0: seq<int>, ghost vs: seq<int>)
      returns (j: nat, k: nat)
    requires I != V && I0 == I[..] && vs == V[..] && Deep(I0, |vs|, h, start, end)
    requires Tallied(I0, vs, h, start, end, x, jj, kk)
    modifies I
    ensures Staged(I0, I[..], vs, h, start, end, x, jj, kk, jj, j, k)
  {
    ghost var cur := I0;
    var i := start;
    j, k := jj, kk;
    while i < jj
      invariant cur == I[..] && Staged(I0, cur, vs, h, start, end, x, jj, kk, i, j, k)
      decreases jj - i + (kk - j) + (end - k)
    {
      var i2, j2, k2 := i + 1, j + 1, k + 1;
      if V[I[i] + h] < x {
        StayStep(I0, cur, vs, h, start, end, x, jj, kk, i, j, k, i2, j);
        i := i2;
      } else if V[I[i] + h] == x {
        EqualStep(I0, cur, vs, h, start, end, x, jj, kk, i, j, k, j2);
        cur := Swap(cur, i, j);
        SwapEntries(I, i, j);
        j := j2;
      } else {
        GreaterStep(I0, cur, vs, h, start, end, x, jj, kk, i, j, k, i, k2);
        cur := Swap(cur, i, k);
        SwapEntries(I, i, k);
        k := k2;
      }
    }
  }

  /** The second loop of the partition: only keys at least the pivot remain from `jj` on. */
  method FillMiddle(I: array<int>, V: array<int>, start: nat, end: nat, h: nat, x: int, jj: nat, kk: nat,
                    j0: nat, k0: nat, ghost I0: seq<int>, ghost vs: seq<int>)
      returns (k: nat)
    requires I != V && vs == V[..] && Deep(I0, |vs|, h, start, end)
    requires Tallied(I0, vs, h, start, end, x, jj, kk)
    requires Staged(I0, I[..], vs, h, start, end, x, jj, kk, jj, j0, k0)
    modifies I
    ensures Staged(I0, I[..], vs, h, start, end, x, jj, kk, jj, kk, k)
  {
    ghost var cur := I[..];
    var j := j0;
    k := k0;
    while j < kk
      invariant cur == I[..] && Staged(I0, cur, vs, h, start, end, x, jj, kk, jj, j, k)
      decreases kk - j + (end - k)
    {
      var j2, k2 := j + 1, k + 1;
      if V[I[j] + h] == x {
        StayStep(I0, cur, vs, h, start, end, x, jj, kk, jj, j, k, jj, j2);
        j := j2;
      } else {
        GreaterStep(I0, cur, vs, h, start, end, x, jj, kk, jj, j, k, j, k2);
        cur := Swap(cur, j, k);
        SwapEntries(I, j, k);
        k := k2;
      }
    }
  }

  /** The in-place ternary partition of `I[start..end)`. */
  method Partition(I: array<int>, V: array<int>, start: nat, end: nat, h: nat, x: int) returns (jj: nat, kk: nat)
    requires I != V && Deep(I[..], V.Length, h, start, end)
    modifies I
    ensures Shuffled(old(I[..]), I[..], start, end)
    ensures Deep(I[..], V.Length, h, start, end)
    ensures Partitioned(I[..], V[..], h, start, end, x, jj, kk)
  {
    ghost var I0, vs := I[..], V[..];
    jj, kk := CountKeys(I, V, start, end, h, x);
    var j, k := FillFront(I, V, start, end, h, x, jj, kk, I0, vs);
    k := FillMiddle(I, V, start, end, h, x, jj, kk, j, k, I0, vs);
    PartitionDone(I0, I[..], vs, h, start, end, x, jj, kk, k);
  }
}
