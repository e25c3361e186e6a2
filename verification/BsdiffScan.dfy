/** `bsdiff`: finds matches of `new` in `old` with the suffix array and cuts `new` into control triples. */
module BsdiffScan {
  import opened Bytes
  import opened SuffixOrder
  import opened SuffixGroups
  import opened SuffixSort
  import opened BsdiffFormat

  /** `n` is the length of the longest common prefix of `a[i..]` and `b[j..]`. */
  predicate CommonPrefix(a: seq<byte>, i: int, b: seq<byte>, j: int, n: int)
    requires 0 <= i <= |a| && 0 <= j <= |b|
  {
    && 0 <= n && i + n <= |a| && j + n <= |b| && a[i..i + n] == b[j..j + n]
    && (i + n < |a| && j + n < |b| ==> a[i + n] != b[j + n])
  }

  /** `matchlen` on `a[i..]` and `b[j..]`. */
  method MatchLen(a: seq<byte>, i: nat, b: seq<byte>, j: nat) returns (n: nat)
    requires i <= |a| && j <= |b|
    ensures CommonPrefix(a, i, b, j, n)
  {
    n := 0;
    while i + n < |a| && j + n < |b| && a[i + n] == b[j + n]
      invariant i + n <= |a| && j + n <= |b| && a[i..i + n] == b[j..j + n]
    {
      assert a[i..i + n + 1] == a[i..i + n] + [a[i + n]] && b[j..j + n + 1] == b[j..j + n] + [b[j + n]];
      n := n + 1;
    }
  }

  // Searching the suffix array

  predicate Positions(I: seq<int>, n: int) {
    |I| == n + 1 && forall p :: 0 <= p <= n ==> 0 <= I[p] <= n
  }

  function Min(x: int, y: int): (m: int) { if x < y then x else y }

  /** `memcmp` finds the suffix at `i` smaller than the query `q`, looking at no more bytes than both have. */
  predicate SortsBefore(old_: seq<byte>, i: int, q: seq<byte>)
    requires 0 <= i <= |old_|
  {
    var m := Min(|old_| - i, |q|);
    LexLess(old_[i..i + m], q[..m])
  }

  /** The length of the longest common prefix. */
  function Lcp(a: seq<byte>, b: seq<byte>): (n: nat)
    ensures n <= |a| && n <= |b| && a[..n] == b[..n] && (n < |a| && n < |b| ==> a[n] != b[n])
  {
    if a == [] || b == [] || a[0] != b[0] then 0 else 1 + Lcp(a[1..], b[1..])
  }

  lemma {:induction false} LcpIs(a: seq<byte>, b: seq<byte>, n: nat)
    requires n <= |a| && n <= |b| && a[..n] == b[..n] && (n < |a| && n < |b| ==> a[n] != b[n])
    ensures n == Lcp(a, b)
  {
    if n > 0 {
      assert a[0] == a[..n][0] && b[0] == b[..n][0];
      assert a[1..][..n - 1] == a[..n][1..] && b[1..][..n - 1] == b[..n][1..];
      LcpIs(a[1..], b[1..], n - 1);
    }
  }

  lemma CommonIsLcp(a: seq<byte>, i: int, b: seq<byte>, j: int, n: int)
    requires 0 <= i <= |a| && 0 <= j <= |b| && CommonPrefix(a, i, b, j, n)
    ensures n == Lcp(a[i..], b[j..])
  {
    assert a[i..][..n] == a[i..i + n] && b[j..][..n] == b[j..j + n];
    LcpIs(a[i..], b[j..], n);
  }

  /**
   Binary search for the place where `before` ends; of the last two places the one with the greater `len`, or the
   second.
   */
  function Closest(before: nat -> bool, len: nat -> nat, st: nat, en: nat): (t: nat)
    requires st <= en
    ensures st <= t <= en
    decreases en - st
  {
    if en - st < 2 then if len(st) > len(en) then st else en
    else
      var x := st + (en - st) / 2;
      if before(x) then Closest(before, len, x, en) else Closest(before, len, st, x)
  }

  /** Whether the suffix at place `t` of the array sorts before the query. */
  function Before(I: seq<int>, old_: seq<byte>, q: seq<byte>): (before: nat -> bool)
    requires Positions(I, |old_|)
  {
    (t: nat) => t < |I| && SortsBefore(old_, I[t], q)
  }

  /** How much of the query the suffix at place `t` of the array matches. */
  function Matched(I: seq<int>, old_: seq<byte>, q: seq<byte>): (len: nat -> nat)
    requires Positions(I, |old_|)
  {
    (t: nat) => if t < |I| then Lcp(old_[I[t]..], q) else 0
  }

  /** The position that `search` among places `st..en` ends at, for the query `q`. */
  function Found(I: seq<int>, old_: seq<byte>, q: seq<byte>, st: nat, en: nat): (pos: nat)
    requires Positions(I, |old_|) && st <= en <= |old_|
    ensures pos <= |old_|
  {
    I[Closest(Before(I, old_, q), Matched(I, old_, q), st, en)]
  }

  /**
   `search` among positions `st..en` for the rest of `new` from `scan`: a match of some length at some position of old.
   It is empty only if nothing in old starts with the byte looked for.
   */
  method Search(I: seq<int>, old_: seq<byte>, new_: seq<byte>, scan: nat, st: nat, en: nat) returns (pos: nat, len: nat)
    requires Positions(I, |old_|) && scan <= |new_| && st <= en <= |old_|
    ensures pos == Found(I, old_, new_[scan..], st, en) && CommonPrefix(old_, pos, new_, scan, len)
    ensures IsSuffixArray(old_, I) && scan < |new_| && Bracketed(I, old_, new_[scan..], st, en) ==>
              (len == 0 <==> new_[scan] !in old_)
    decreases en - st
  {
    if en - st < 2 {
      pos, len := BetterOfTwo(I, old_, new_, scan, st, en);
    } else {
      var x := st + (en - st) / 2;
      assert Before(I, old_, new_[scan..])(x) == SortsBefore(old_, I[x], new_[scan..]);
      if SortsBefore(old_, I[x], new_[scan..]) {
        pos, len := Search(I, old_, new_, scan, x, en);
      } else {
        pos, len := Search(I, old_, new_, scan, st, x);
      }
    }
  }

  /** The end of the recursion: the longer of two matches. */
  method BetterOfTwo(I: seq<int>, old_: seq<byte>, new_: seq<byte>, scan: nat, st: nat, en: nat)
      returns (pos: nat, len: nat)
    requires Positions(I, |old_|) && scan <= |new_| && st <= en <= |old_| && en - st < 2
    ensures pos == Found(I, old_, new_[scan..], st, en) && CommonPrefix(old_, pos, new_, scan, len)
    ensures IsSuffixArray(old_, I) && scan < |new_| && Bracketed(I, old_, new_[scan..], st, en) ==>
              (len == 0 <==> new_[scan] !in old_)
  {
    var x := MatchLen(old_, I[st], new_, scan);
    var y := MatchLen(old_, I[en], new_, scan);
    CommonIsLcp(old_, I[st], new_, scan, x);
    CommonIsLcp(old_, I[en], new_, scan, y);
    if x > y { pos, len := I[st], x; } else { pos, len := I[en], y; }
    if IsSuffixArray(old_, I) && scan < |new_| && Bracketed(I, old_, new_[scan..], st, en) {
      OneStarts(I, old_, new_, scan, st, en, x, y);
    }
  }

  lemma OneStarts(I: seq<int>, old_: seq<byte>, new_: seq<byte>, scan: nat, st: nat, en: nat, x: nat, y: nat)
    requires IsSuffixArray(old_, I) && scan < |new_| && st <= en <= |old_| && en - st < 2
    requires Bracketed(I, old_, new_[scan..], st, en)
    requires CommonPrefix(old_, I[st], new_, scan, x) && CommonPrefix(old_, I[en], new_, scan, y)
    ensures x == 0 && y == 0 <==> new_[scan] !in old_
  {
    if new_[scan] in old_ { NeighbourMatches(I, old_, new_[scan..], st, en); }
    EmptyMatch(old_, new_, scan, I[st], x);
    EmptyMatch(old_, new_, scan, I[en], y);
  }

  // When the match is a longest one

  /** Some suffix of old, not an empty one, is the beginning of the query and the query goes on. */
  predicate EndsInQuery(old_: seq<byte>, q: seq<byte>) { exists i :: 0 <= i < |old_| && old_[i..] < q }

  lemma {:induction false} FirstDifference(a: seq<byte>, b: seq<byte>)
    requires !(a < b)
    ensures var m := Min(|a|, |b|); LexLess(a[..m], b[..m]) <==> LexLess(a, b)
  {
    if a != [] && b != [] && a[0] == b[0] {
      var m := Min(|a|, |b|);
      FirstDifference(a[1..], b[1..]);
      assert a[..m][1..] == a[1..][..m - 1] && b[..m][1..] == b[1..][..m - 1];
      assert a == [a[0]] + a[1..] && b == [b[0]] + b[1..];
    } else if a != [] && b != [] {
      var m := Min(|a|, |b|);
      assert a[..m][0] == a[0] && b[..m][0] == b[0];
    }
  }

  /** Then the comparison of the search is the comparison of whole strings. */
  lemma ComparesWhole(old_: seq<byte>, i: int, q: seq<byte>)
    requires 0 <= i < |old_| && !EndsInQuery(old_, q)
    ensures SortsBefore(old_, i, q) <==> LexLess(old_[i..], q)
  {
    var a, m := old_[i..], Min(|old_| - i, |q|);
    assert !(a < q);
    FirstDifference(a, q);
    assert a[..m] == old_[i..i + m];
  }

  /** Of two strings below a third, the greater one has more in common with it. */
  lemma {:induction false} CloserBelow(a: seq<byte>, b: seq<byte>, q: seq<byte>)
    requires LexLess(a, b) && LexLess(b, q)
    ensures Lcp(a, q) <= Lcp(b, q)
  {
    if a != [] && b != [] && q != [] && a[0] == q[0] { CloserBelow(a[1..], b[1..], q[1..]); }
  }

  /** Of two strings not below a third, the smaller one has. */
  lemma {:induction false} CloserAbove(a: seq<byte>, b: seq<byte>, q: seq<byte>)
    requires !LexLess(b, q) && LexLess(b, a)
    ensures Lcp(a, q) <= Lcp(b, q)
  {
    if a != [] && b != [] && q != [] && a[0] == q[0] { CloserAbove(a[1..], b[1..], q[1..]); }
  }

  lemma LongestBelow(I: seq<int>, old_: seq<byte>, q: seq<byte>, t: nat, lo: nat, len: nat -> nat)
    requires IsSuffixArray(old_, I) && t < lo <= |old_| && SortsBefore(old_, I[lo], q) && !EndsInQuery(old_, q)
    requires len == Matched(I, old_, q)
    ensures len(t) <= len(lo)
  {
    NotTheEmptyOne(I, old_, lo);
    ComparesWhole(old_, I[lo], q);
    CloserBelow(old_[I[t]..], old_[I[lo]..], q);
  }

  lemma LongestAbove(I: seq<int>, old_: seq<byte>, q: seq<byte>, t: nat, hi: nat, len: nat -> nat)
    requires IsSuffixArray(old_, I) && 0 < hi < t <= |old_| && !SortsBefore(old_, I[hi], q) && !EndsInQuery(old_, q)
    requires len == Matched(I, old_, q)
    ensures len(t) <= len(hi)
  {
    NotTheEmptyOne(I, old_, hi);
    ComparesWhole(old_, I[hi], q);
    CloserAbove(old_[I[t]..], old_[I[hi]..], q);
  }

  /** Only the first place of the array holds the empty suffix. */
  lemma NotTheEmptyOne(I: seq<int>, old_: seq<byte>, p: int)
    requires IsSuffixArray(old_, I) && 0 < p <= |old_|
    ensures I[p] < |old_|
  {
    assert LexLess(old_[I[0]..], old_[I[p]..]);
  }

  /** The search ends at the better of two neighbours, of which the first sorts before and the second does not. */
  lemma {:induction false} ClosestIsBetter(before: nat -> bool, len: nat -> nat, st: nat, en: nat)
      returns (lo: nat, hi: nat)
    requires st <= en
    ensures st <= lo <= hi <= en && hi - lo < 2 && (lo == st || before(lo)) && (hi == en || (hi > 0 && !before(hi)))
    ensures var n := len(Closest(before, len, st, en)); n >= len(lo) && n >= len(hi)
    decreases en - st
  {
    if en - st < 2 {
      lo, hi := st, en;
    } else {
      var x := st + (en - st) / 2;
      if before(x) {
        lo, hi := ClosestIsBetter(before, len, x, en);
      } else {
        lo, hi := ClosestIsBetter(before, len, st, x);
      }
    }
  }

  /** Up to a place that sorts before, `len` rises; from a place on that does not, it falls. */
  ghost predicate Peaks(before: nat -> bool, len: nat -> nat, n: nat) {
    && (forall t: nat, lo: nat :: t < lo <= n && before(lo) ==> len(t) <= len(lo))
    && (forall t: nat, hi: nat :: 0 < hi < t <= n && !before(hi) ==> len(t) <= len(hi))
  }

  lemma ClosestIsBest(before: nat -> bool, len: nat -> nat, n: nat, t: nat)
    requires Peaks(before, len, n) && t <= n
    ensures len(t) <= len(Closest(before, len, 0, n))
  {
    var lo, hi := ClosestIsBetter(before, len, 0, n);
    PeaksBetween(before, len, n, lo, hi, t);
  }

  lemma PeaksBetween(before: nat -> bool, len: nat -> nat, n: nat, lo: nat, hi: nat, t: nat)
    requires Peaks(before, len, n) && t <= n && lo <= hi <= n && hi - lo < 2
    requires (lo == 0 || before(lo)) && (hi == n || (hi > 0 && !before(hi)))
    ensures len(t) <= len(lo) || len(t) <= len(hi)
  {
  }

  lemma MatchesPeak(I: seq<int>, old_: seq<byte>, q: seq<byte>, before: nat -> bool, len: nat -> nat)
    requires IsSuffixArray(old_, I) && !EndsInQuery(old_, q) && before == Before(I, old_, q) &&
             len == Matched(I, old_, q)
    ensures Peaks(before, len, |old_|)
  {
    forall t: nat, lo: nat | t < lo <= |old_| && before(lo) ensures len(t) <= len(lo) {
      LongestBelow(I, old_, q, t, lo, len);
    }
    forall t: nat, hi: nat | 0 < hi < t <= |old_| && !before(hi) ensures len(t) <= len(hi) {
      LongestAbove(I, old_, q, t, hi, len);
    }
  }

  /** If no suffix of old ends inside the query, the search finds a longest match. */
  lemma FoundIsLongest(I: seq<int>, old_: seq<byte>, q: seq<byte>, i: int)
    requires IsSuffixArray(old_, I) && !EndsInQuery(old_, q) && 0 <= i <= |old_|
    ensures Lcp(old_[i..], q) <= Lcp(old_[Found(I, old_, q, 0, |old_|)..], q)
  {
    var before, len := Before(I, old_, q), Matched(I, old_, q);
    MatchesPeak(I, old_, q, before, len);
    var t := PositionOf(I, |old_| + 1, i);
    ClosestIsBest(before, len, |old_|, t);
    BestIsFound(I, old_, q, t, i, before, len);
  }

  lemma BestIsFound(I: seq<int>, old_: seq<byte>, q: seq<byte>, t: nat, i: int, before: nat -> bool, len: nat -> nat)
    requires Positions(I, |old_|) && t <= |old_| && I[t] == i && before == Before(I, old_, q) &&
             len == Matched(I, old_, q)
    requires len(t) <= len(Closest(before, len, 0, |old_|))
    ensures Lcp(old_[i..], q) <= Lcp(old_[Found(I, old_, q, 0, |old_|)..], q)
  {
  }

  /** Else it need not: in "aba" the search for "ab" ends at the last letter, although the text starts with "ab". */
  lemma ShorterFound(old_: seq<byte>, q: seq<byte>, I: seq<int>)
    requires old_ == [97, 98, 97] && q == [97, 98] && I == [3, 2, 0, 1]
    ensures IsSuffixArray(old_, I) && EndsInQuery(old_, q)
    ensures Found(I, old_, q, 0, 3) == 2 && Lcp(old_[2..], q) == 1 && Lcp(old_[0..], q) == 2
  {
    assert old_[2..] == [97] && old_[3..] == [] && old_[0..] == old_;
    assert old_[1..] == [98, 97] && q[1..] == [98] && [97][1..] == [];
    assert old_[2..] < q;
    assert Lcp([], [98]) == 0 && Lcp([97], q) == 1;
    assert Lcp([98, 97], [98]) == 1 + Lcp([98, 97][1..], [98][1..]) && [98][1..] == [];
    assert old_[2..3] == [97] && q[..1] == [97] && !LexLess([97], [97]);
    assert !SortsBefore(old_, 2, q);
    var before, len := Before(I, old_, q), Matched(I, old_, q);
    assert !before(1) && len(0) == 0 && len(1) == 1;
    assert Closest(before, len, 0, 3) == Closest(before, len, 0, 1) == 1;
    SortedExample(old_, I);
  }

  lemma SortedExample(old_: seq<byte>, I: seq<int>)
    requires old_ == [97, 98, 97] && I == [3, 2, 0, 1]
    ensures IsSuffixArray(old_, I)
  {
    assert old_[2..] == [97] && old_[3..] == [] && old_[0..] == old_ && old_[1..] == [98, 97] && [97][1..] == [];
    assert I[0] == 3 && I[1] == 2 && I[2] == 0 && I[3] == 1;
  }

  /** What the binary search knows about the ends of its interval. */
  predicate Bracketed(I: seq<int>, old_: seq<byte>, q: seq<byte>, st: int, en: int)
    requires Positions(I, |old_|) && 0 <= st <= en <= |old_|
  {
    && (st == 0 || SortsBefore(old_, I[st], q))
    && (en == |old_| || (en > 0 && !SortsBefore(old_, I[en], q)))
  }

  /** Suffix `i` of old starts with byte `c`. */
  predicate StartsWith(old_: seq<byte>, i: int, c: byte) { 0 <= i < |old_| && old_[i] == c }

  lemma EmptyMatch(old_: seq<byte>, new_: seq<byte>, scan: nat, i: int, n: int)
    requires 0 <= i <= |old_| && scan < |new_| && CommonPrefix(old_, i, new_, scan, n)
    ensures n > 0 <==> StartsWith(old_, i, new_[scan])
    ensures n > 0 ==> new_[scan] in old_
  {
    if n > 0 { assert old_[i..i + n][0] == new_[scan..scan + n][0]; }
  }

  /** How a suffix compares with a query that starts with another byte. */
  lemma FirstByteDecides(old_: seq<byte>, i: int, q: seq<byte>)
    requires 0 <= i < |old_| && q != [] && old_[i] != q[0]
    ensures SortsBefore(old_, i, q) <==> old_[i] < q[0]
  {
    var m := Min(|old_| - i, |q|);
    assert old_[i..i + m][0] == old_[i] && q[..m][0] == q[0];
  }

  /** In a sorted array, suffixes with first byte below `c` come before those with first byte `c`, and so on. */
  lemma FirstBytesAscend(I: seq<int>, old_: seq<byte>, p: int, q: int)
    requires IsSuffixArray(old_, I) && 0 <= p < q <= |old_|
    ensures I[q] < |old_| && (I[p] < |old_| ==> old_[I[p]] <= old_[I[q]])
  {
    LessIsLexLess(old_, I[p], I[q]);
  }

  /** Of two neighbours that bracket the query, one starts with its first byte if any suffix does. */
  lemma NeighbourMatches(I: seq<int>, old_: seq<byte>, q: seq<byte>, st: int, en: int)
    requires IsSuffixArray(old_, I) && q != [] && q[0] in old_ && 0 <= st <= en <= |old_| && en - st < 2
    requires Bracketed(I, old_, q, st, en)
    ensures StartsWith(old_, I[st], q[0]) || StartsWith(old_, I[en], q[0])
  {
    var i :| 0 <= i < |old_| && old_[i] == q[0];
    var t := PositionOf(I, |old_| + 1, i);
    if t > en {
      FirstBytesAscend(I, old_, en, t);
      NotAboveHigh(I, old_, q, en, t);
    } else if t < st {
      FirstBytesAscend(I, old_, t, st);
      NotBelowLow(I, old_, q, st, t);
    }
  }

  lemma NotAboveHigh(I: seq<int>, old_: seq<byte>, q: seq<byte>, en: int, t: int)
    requires IsSuffixArray(old_, I) && q != [] && 0 <= en < t <= |old_| && StartsWith(old_, I[t], q[0])
    requires en > 0 && !SortsBefore(old_, I[en], q)
    ensures StartsWith(old_, I[en], q[0])
  {
    FirstBytesAscend(I, old_, 0, en);
    FirstBytesAscend(I, old_, en, t);
    if old_[I[en]] != q[0] { FirstByteDecides(old_, I[en], q); }
  }

  lemma NotBelowLow(I: seq<int>, old_: seq<byte>, q: seq<byte>, st: int, t: int)
    requires IsSuffixArray(old_, I) && q != [] && 0 <= t < st <= |old_| && StartsWith(old_, I[t], q[0])
    requires SortsBefore(old_, I[st], q)
    ensures StartsWith(old_, I[st], q[0])
  {
    FirstBytesAscend(I, old_, t, st);
    if old_[I[st]] != q[0] { FirstByteDecides(old_, I[st], q); }
  }

  // Extending a match forwards and backwards

  /** How many of the `n` bytes from `p` on in old equal those from `q` on in new. */
  function MatchesFrom(old_: seq<byte>, p: int, new_: seq<byte>, q: int, n: nat): (m: nat)
    requires 0 <= p && p + n <= |old_| && 0 <= q && q + n <= |new_|
  {
    if n == 0 then 0 else MatchesFrom(old_, p, new_, q, n - 1) + (if old_[p + n - 1] == new_[q + n - 1] then 1 else 0)
  }

  /** How many of the `n` bytes before `p` in old equal those before `q` in new. */
  function MatchesBefore(old_: seq<byte>, p: int, new_: seq<byte>, q: int, n: nat): (m: nat)
    requires n <= p <= |old_| && n <= q <= |new_|
  {
    if n == 0 then 0 else MatchesBefore(old_, p, new_, q, n - 1) + (if old_[p - n] == new_[q - n] then 1 else 0)
  }

  /** The forward extension: the shortest length at most `bound` with the best balance of matches and mismatches. */
  method ExtendForward(old_: seq<byte>, lastpos: nat, new_: seq<byte>, lastscan: nat, scan: nat)
      returns (lenf: nat, ghost bound: nat)
    requires lastscan <= scan <= |new_| && lastpos <= |old_|
    ensures bound == Min(scan - lastscan, |old_| - lastpos) && lenf <= bound
    ensures forall i :: 0 <= i <= bound ==>
              2 * MatchesFrom(old_, lastpos, new_, lastscan, i) - i
                  <= 2 * MatchesFrom(old_, lastpos, new_, lastscan, lenf) - lenf
    ensures forall i :: 0 <= i < lenf ==>
              2 * MatchesFrom(old_, lastpos, new_, lastscan, i) - i
                  < 2 * MatchesFrom(old_, lastpos, new_, lastscan, lenf) - lenf
  {
    bound := Min(scan - lastscan, |old_| - lastpos);
    var s, sf, i := 0, 0, 0;
    lenf := 0;
    while lastscan + i < scan && lastpos + i < |old_|
      invariant 0 <= i <= bound && lenf <= i
      invariant s == MatchesFrom(old_, lastpos, new_, lastscan, i) &&
                sf == MatchesFrom(old_, lastpos, new_, lastscan, lenf)
      invariant forall t :: 0 <= t <= i ==> 2 * MatchesFrom(old_, lastpos, new_, lastscan, t) - t <= 2 * sf - lenf
      invariant forall t :: 0 <= t < lenf ==> 2 * MatchesFrom(old_, lastpos, new_, lastscan, t) - t < 2 * sf - lenf
    {
      if old_[lastpos + i] == new_[lastscan + i] { s := s + 1; }
      i := i + 1;
      if s * 2 - i > sf * 2 - lenf { sf, lenf := s, i; }
    }
  }

  /** The backward extension from the new match, likewise. */
  method ExtendBackward(old_: seq<byte>, pos: nat, new_: seq<byte>, lastscan: nat, scan: nat)
      returns (lenb: nat, ghost bound: nat)
    requires lastscan <= scan <= |new_| && pos <= |old_|
    ensures bound == Min(scan - lastscan, pos) && lenb <= bound
    ensures forall i :: 0 <= i <= bound ==>
              2 * MatchesBefore(old_, pos, new_, scan, i) - i <= 2 * MatchesBefore(old_, pos, new_, scan, lenb) - lenb
    ensures forall i :: 0 <= i < lenb ==>
              2 * MatchesBefore(old_, pos, new_, scan, i) - i < 2 * MatchesBefore(old_, pos, new_, scan, lenb) - lenb
  {
    bound := Min(scan - lastscan, pos);
    var s, sb, i := 0, 0, 1;
    lenb := 0;
    while scan >= lastscan + i && pos >= i
      invariant 1 <= i <= bound + 1 && lenb < i
      invariant s == MatchesBefore(old_, pos, new_, scan, i - 1) && sb == MatchesBefore(old_, pos, new_, scan, lenb)
      invariant forall t :: 0 <= t < i ==> 2 * MatchesBefore(old_, pos, new_, scan, t) - t <= 2 * sb - lenb
      invariant forall t :: 0 <= t < lenb ==> 2 * MatchesBefore(old_, pos, new_, scan, t) - t < 2 * sb - lenb
    {
      if old_[pos - i] == new_[scan - i] { s := s + 1; }
      if s * 2 - i > sb * 2 - lenb { sb, lenb := s, i; }
      i := i + 1;
    }
  }

  /** The first of the cuts through an overlap of the two extensions that keep the most matches. */
  method CutOverlap(old_: seq<byte>, p: nat, q: nat, new_: seq<byte>, n: nat, overlap: nat) returns (lens: nat)
    requires p + overlap <= |old_| && q + overlap <= |old_| && n + overlap <= |new_|
    ensures lens <= overlap
    ensures forall i :: 0 <= i <= overlap ==>
              MatchesFrom(old_, p, new_, n, i) - MatchesFrom(old_, q, new_, n, i)
              <= MatchesFrom(old_, p, new_, n, lens) - MatchesFrom(old_, q, new_, n, lens)
    ensures forall i :: 0 <= i < lens ==>
              MatchesFrom(old_, p, new_, n, i) - MatchesFrom(old_, q, new_, n, i)
              < MatchesFrom(old_, p, new_, n, lens) - MatchesFrom(old_, q, new_, n, lens)
  {
    var s: int, ss: int, i := 0, 0, 0;
    lens := 0;
    while i < overlap
      invariant lens <= i <= overlap
      invariant s == MatchesFrom(old_, p, new_, n, i) - MatchesFrom(old_, q, new_, n, i)
      invariant ss == MatchesFrom(old_, p, new_, n, lens) - MatchesFrom(old_, q, new_, n, lens)
      invariant forall t :: 0 <= t <= i ==> MatchesFrom(old_, p, new_, n, t) - MatchesFrom(old_, q, new_, n, t) <= ss
      invariant forall t :: 0 <= t < lens ==> MatchesFrom(old_, p, new_, n, t) - MatchesFrom(old_, q, new_, n, t) < ss
    {
      if new_[n + i] == old_[p + i] { s := s + 1; }
      if new_[n + i] == old_[q + i] { s := s - 1; }
      if s > ss { ss, lens := s, i + 1; }
      i := i + 1;
    }
  }

  // The scan

  /** The inner loop: advances `scan` to a match that is worth a new triple, or to the end of new. */
  method NextMatch(I: seq<int>, old_: seq<byte>, new_: seq<byte>, scan0: nat, len0: nat, pos0: nat, lastoffset: int)
      returns (scan: nat, len: nat, pos: nat, oldscore: int)
    requires Positions(I, |old_|) && scan0 <= |new_| && 0 <= scan0 + lastoffset && pos0 <= |old_|
    ensures scan0 <= scan <= |new_| && pos <= |old_|
    ensures scan < |new_| ==> CommonPrefix(old_, pos, new_, scan, len)
    ensures scan < |new_| ==> scan > scan0 || len > 0
    ensures scan < |new_| ==> (len == oldscore && len != 0) || len > oldscore + 8
  {
    scan, len, pos, oldscore := scan0, len0, pos0, 0;
    var scsc := scan0;
    while scan < |new_|
      invariant scan0 <= scan <= |new_| && scan0 <= scsc && pos <= |old_|
      invariant scan == scan0 ==> oldscore >= 0
    {
      pos, len := Search(I, old_, new_, scan, 0, |old_|);
      while scsc < scan + len
        invariant scan0 <= scsc
        invariant scan == scan0 ==> oldscore >= 0
      {
        if scsc + lastoffset < |old_| && old_[scsc + lastoffset] == new_[scsc] { oldscore := oldscore + 1; }
        scsc := scsc + 1;
      }
      if (len == oldscore && len != 0) || len > oldscore + 8 { break; }
      if scan + lastoffset < |old_| && old_[scan + lastoffset] == new_[scan] { oldscore := oldscore - 1; }
      scan := scan + 1;
    }
  }

  /** The difference bytes of a triple. */
  method DiffBytes(old_: seq<byte>, p: nat, new_: seq<byte>, n: nat, len: nat) returns (d: seq<byte>)
    requires p + len <= |old_| && n + len <= |new_|
    ensures |d| == len && AddOld(old_, p, d) == new_[n..n + len]
  {
    d := [];
    for i := 0 to len
      invariant |d| == i && forall t :: 0 <= t < i ==> AddByte(d[t], old_[p + t]) == new_[n + t]
    {
      d := d + [SubByte(new_[n + i], old_[p + i])];
    }
    assert forall t :: 0 <= t < len ==> AddOld(old_, p, d)[t] == new_[n..n + len][t];
  }

  /** The lengths of the next triple: forward and backward extension, overlap cut. */
  method TripleLengths(old_: seq<byte>, new_: seq<byte>, lastscan: nat, lastpos: nat, scan: nat, pos: nat)
      returns (lenf: nat, lenb: nat)
    requires lastscan <= scan <= |new_| && lastpos <= |old_| && pos <= |old_|
    ensures lastpos + lenf <= |old_| && lenb <= pos && lastscan + lenf + lenb <= scan
    ensures scan == |new_| ==> lenb == 0
  {
    ghost var bf, bb;
    lenf, bf := ExtendForward(old_, lastpos, new_, lastscan, scan);
    lenb := 0;
    if scan < |new_| { lenb, bb := ExtendBackward(old_, pos, new_, lastscan, scan); }
    if lastscan + lenf > scan - lenb {
      var overlap := (lastscan + lenf) - (scan - lenb);
      var lens := CutOverlap(old_, lastpos + lenf - overlap, pos - lenb, new_, scan - lenb, overlap);
      lenf := lenf + lens - overlap;
      lenb := lenb - lens;
    }
  }

  /** One triple is put out; everything before the match at `scan - lenb` is then described. */
  method EmitTriple(old_: seq<byte>, new_: seq<byte>, ctrl: seq<Triple>, db: seq<byte>, eb: seq<byte>,
                    lastscan: nat, lastpos: nat, scan: nat, pos: nat)
      returns (ctrl2: seq<Triple>, db2: seq<byte>, eb2: seq<byte>, scan2: nat, pos2: nat)
    requires Encodes(old_, new_, ctrl, db, eb, lastscan, lastpos) && lastscan <= scan <= |new_| < Limit &&
             |old_| < Limit
    requires lastpos <= |old_| && pos <= |old_|
    ensures Encodes(old_, new_, ctrl2, db2, eb2, scan2, pos2)
    ensures lastscan <= scan2 <= scan && pos2 <= |old_| && (scan == |new_| ==> scan2 == scan)
    ensures |ctrl2| == |ctrl| + 1
  {
    var lenf, lenb := TripleLengths(old_, new_, lastscan, lastpos, scan, pos);
    var n := lastscan + lenf;
    scan2, pos2 := scan - lenb, pos - lenb;
    var d := DiffBytes(old_, lastpos, new_, lastscan, lenf);
    var t := Triple(lenf, scan2 - n, pos2 - (lastpos + lenf));
    db2, eb2, ctrl2 := db + d, eb + new_[n..scan2], ctrl + [t];
    assert db2[|db|..] == d && eb2[|eb|..] == new_[n..scan2];
    AppendTriple(old_, new_, ctrl, db, eb, lastscan, lastpos, t, db2, eb2);
  }

  /**
   The main loop of `bsdiff`. The matches only steer it: whatever positions `I` holds, as long as they are positions of
   old, the triples describe all of new.
   */
  method Scan(I: seq<int>, old_: seq<byte>, new_: seq<byte>)
      returns (ctrl: seq<Triple>, db: seq<byte>, eb: seq<byte>, ghost opos: int)
    requires Positions(I, |old_|) && |old_| < Limit && |new_| < Limit
    ensures Encodes(old_, new_, ctrl, db, eb, |new_|, opos)
    ensures |db| + |eb| == |new_| && |ctrl| <= |new_| + 1
  {
    ctrl, db, eb := [], [], [];
    var scan: nat, len: nat, pos: nat := 0, 0, 0;
    var lastscan: nat, lastpos: nat, lastoffset: int := 0, 0, 0;
    var oldscore;
    while scan < |new_|
      invariant lastscan <= scan <= |new_| && lastpos <= |old_| && pos <= |old_| && 0 <= scan + lastoffset
      invariant scan < |new_| ==> scan + len <= |new_|
      invariant scan == |new_| ==> lastscan == |new_|
      invariant Encodes(old_, new_, ctrl, db, eb, lastscan, lastpos)
      invariant |ctrl| <= if scan < |new_| then scan + len else |new_| + 1
      decreases if scan < |new_| then 1 + |new_| - (scan + len) else 0
    {
      scan, len, pos, oldscore := NextMatch(I, old_, new_, scan + len, len, pos, lastoffset);
      if len != oldscore || scan == |new_| {
        ctrl, db, eb, lastscan, lastpos := EmitTriple(old_, new_, ctrl, db, eb, lastscan, lastpos, scan, pos);
        lastoffset := pos - scan;
      }
    }
    opos := lastpos;
    BlocksFillNew(ctrl);
  }

  lemma EncodedWritable(old_: seq<byte>, new_: seq<byte>, ctrl: seq<Triple>, db: seq<byte>, eb: seq<byte>, scan: int,
                        opos: int)
    requires Encodes(old_, new_, ctrl, db, eb, scan, opos)
    ensures Writable(ctrl)
  {
    forall k | 0 <= k < |ctrl|
      ensures -Limit < ctrl[k].add < Limit && -Limit < ctrl[k].copy < Limit && -Limit < ctrl[k].seek < Limit
    {
      assert TripleFitsAt(old_, new_, ctrl, db, eb, k);
    }
  }

  /**
   `bsdiff`: sorts the suffixes of old, scans new, writes the patch. The patch is the file of a script that describes
   new, and there is none exactly when one of the script's first two blocks is too long for an `off_t` once it is
   compressed. Applied to old, wherever it stands and whatever follows it, the patch gives new.
   */
  method Bsdiff(bz: Bzip2, old_: seq<byte>, new_: seq<byte>) returns (patch: Option<seq<byte>>, ghost script: Script)
    requires bz.Lawful() && |old_| < Limit && |new_| < Limit
    ensures Describes(old_, new_, script)
    ensures patch == if Storable(bz, script) then Some(ScriptFile(bz, script, |new_|)) else None
    ensures patch.Some? ==> forall pre, tail :: Apply(bz, old_, pre + patch.value + tail, |pre|) == Some(new_)
  {
    var I, V := new int[|old_| + 1], new int[|old_| + 1];
    Qsufsort(I, V, old_);
    ghost var opos;
    var ctrl, db, eb;
    ctrl, db, eb, opos := Scan(I[..], old_, new_);
    EncodedWritable(old_, new_, ctrl, db, eb, |new_|, opos);
    script := Script(ctrl, db, eb);
    var cs := EncodeCtrl(ctrl);
    if |bz.compress(cs)| >= Limit || |bz.compress(db)| >= Limit { return None, script; }
    patch := Some(PatchFile(bz, cs, db, eb, |new_|));
    forall pre, tail ensures Apply(bz, old_, pre + patch.value + tail, |pre|) == Some(new_) {
      PatchRebuilds(bz, old_, new_, ctrl, db, eb, opos, pre, tail);
    }
  }
}
