/** Lexicographic order on the suffixes of a byte string, and agreement of suffixes on a bounded prefix. */
module SuffixOrder {
  import opened Bytes

  /** Lexicographic order on byte strings: a proper prefix comes first. */
  predicate LexLess(a: seq<byte>, b: seq<byte>) {
    if a == [] then b != []
    else b != [] && (a[0] < b[0] || (a[0] == b[0] && LexLess(a[1..], b[1..])))
  }

  /** Suffix `i` of `s` comes before suffix `j` of `s`. */
  predicate Less(s: seq<byte>, i: int, j: int)
    requires 0 <= i <= |s| && 0 <= j <= |s|
    decreases |s| - i
  {
    if i == |s| then j < |s|
    else j < |s| && (s[i] < s[j] || (s[i] == s[j] && Less(s, i + 1, j + 1)))
  }

  /** Suffixes `i` and `j` of `s` are the same, or both have `h` bytes and agree on them. */
  predicate Agree(s: seq<byte>, i: int, j: int, h: nat)
    requires 0 <= i <= |s| && 0 <= j <= |s|
  {
    i == j || (i + h <= |s| && j + h <= |s| && s[i..i + h] == s[j..j + h])
  }

  lemma {:induction false} LessIsLexLess(s: seq<byte>, i: int, j: int)
    requires 0 <= i <= |s| && 0 <= j <= |s|
    ensures Less(s, i, j) <==> LexLess(s[i..], s[j..])
    decreases |s| - i
  {
    if i < |s| && j < |s| {
      assert s[i..][1..] == s[i + 1..] && s[j..][1..] == s[j + 1..];
      LessIsLexLess(s, i + 1, j + 1);
    }
  }

  /** Two suffixes that agree on `h` bytes compare as what follows those bytes does. */
  lemma {:induction false} LessAfterAgreement(s: seq<byte>, i: int, j: int, h: nat)
    requires 0 <= i && i + h <= |s| && 0 <= j && j + h <= |s|
    requires Agree(s, i, j, h)
    requires Less(s, i + h, j + h)
    ensures Less(s, i, j)
    decreases h
  {
    if h > 0 {
      if i != j {
        assert s[i] == s[i..i + h][0] == s[j..j + h][0] == s[j];
        assert s[i + 1..i + h] == s[i..i + h][1..] == s[j..j + h][1..] == s[j + 1..j + h];
      }
      LessAfterAgreement(s, i + 1, j + 1, h - 1);
    }
  }

  /** Agreement on `h` bytes followed by agreement on `h` more is agreement on `2 * h`. */
  lemma AgreementDoubles(s: seq<byte>, i: int, j: int, h: nat)
    requires 0 <= i && i + h <= |s| && 0 <= j && j + h <= |s|
    requires Agree(s, i, j, h) && Agree(s, i + h, j + h, h)
    ensures Agree(s, i, j, 2 * h)
  {
    if i != j {
      var a, b, c := i + h, j + h, h + h;
      assert s[i..i + c] == s[i..a] + s[a..a + h];
      assert s[j..j + c] == s[j..b] + s[b..b + h];
    }
  }

  lemma {:induction false} LessIrreflexive(s: seq<byte>, i: int)
    requires 0 <= i <= |s|
    ensures !Less(s, i, i)
    decreases |s| - i
  {
    if i < |s| { LessIrreflexive(s, i + 1); }
  }

  lemma {:induction false} LessTransitive(s: seq<byte>, i: int, j: int, k: int)
    requires 0 <= i <= |s| && 0 <= j <= |s| && 0 <= k <= |s|
    requires Less(s, i, j) && Less(s, j, k)
    ensures Less(s, i, k)
    decreases |s| - i
  {
    if i < |s| && s[i] == s[j] == s[k] { LessTransitive(s, i + 1, j + 1, k + 1); }
  }
}
