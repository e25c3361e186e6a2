/** The order of entry names in a zip archive. */
module ZipNames {
  import opened Bytes
  import opened SuffixOrder

  type Name = seq<byte>

  /** `strncmp` over the shorter length, then the difference of the lengths. */
  function Compare(a: Name, b: Name): (diff: int) {
    if a == [] || b == [] then |a| - |b|
    else if a[0] != b[0] then (a[0] as int) - b[0]
    else Compare(a[1..], b[1..])
  }

  /** The comparison decides the lexicographic order. */
  lemma {:induction false} CompareIsOrder(a: Name, b: Name)
    ensures (Compare(a, b) < 0 <==> LexLess(a, b)) && (Compare(a, b) == 0 <==> a == b) &&
            (Compare(a, b) > 0 <==> LexLess(b, a))
  {
    if a != [] && b != [] {
      CompareIsOrder(a[1..], b[1..]);
      assert a == [a[0]] + a[1..] && b == [b[0]] + b[1..];
    }
  }

  predicate AtMost(a: Name, b: Name) { a == b || LexLess(a, b) }

  lemma {:induction false} LexTransitive(a: Name, b: Name, c: Name)
    requires LexLess(a, b) && LexLess(b, c)
    ensures LexLess(a, c)
  {
    if a != [] && a[0] == b[0] == c[0] { LexTransitive(a[1..], b[1..], c[1..]); }
  }

  lemma LessNotAtMost(a: Name, b: Name)
    requires Compare(a, b) < 0
    ensures !AtMost(b, a)
  {
    CompareIsOrder(a, b);
  }

  lemma AtMostTransitive(a: Name, b: Name, c: Name)
    requires AtMost(a, b) && AtMost(b, c)
    ensures AtMost(a, c)
  {
    if a != b && b != c { LexTransitive(a, b, c); }
  }

  /** What lies between two names with a prefix has the prefix. */
  lemma {:induction false} PrefixConvex(p: Name, a: Name, b: Name, c: Name)
    requires p <= a && p <= c && AtMost(a, b) && AtMost(b, c)
    ensures p <= b
  {
    if p != [] {
      assert a[0] == p[0] && c[0] == p[0];
      PrefixConvex(p[1..], a[1..], b[1..], c[1..]);
      assert p == [p[0]] + p[1..] && b == [b[0]] + b[1..];
    }
  }

  /** `computeHash`, in a 32-bit word. */
  function ComputeHash(name: Name): (h: nat) { HashFrom(2, name) }

  function HashFrom(h: nat, name: Name): (r: nat)
    decreases |name|
  {
    if name == [] then h else HashFrom((h * 31 + name[0]) % 0x1_0000_0000, name[1..])
  }
}
