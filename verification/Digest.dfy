/** SHA-1 digests as they are written on the command line. */
module Digest {
  import opened Bytes

  const Size := 20

  function HexValue(c: char): (v: Option<nat>)
    ensures v.Some? ==> v.value < 16
  {
    if '0' <= c <= '9' then Some((c - '0') as nat)
    else if 'a' <= c <= 'f' then Some((c - 'a') as nat + 10)
    else if 'A' <= c <= 'F' then Some((c - 'A') as nat + 10)
    else None
  }

  predicate IsHex(s: string) { forall i :: 0 <= i < |s| ==> HexValue(s[i]).Some? }

  /** The byte that two hex digits stand for. */
  function Pair(hi: char, lo: char): (b: byte)
    requires HexValue(hi).Some? && HexValue(lo).Some?
  {
    16 * HexValue(hi).value + HexValue(lo).value
  }

  /** What a digest string means. Nothing may follow the forty digits, although the comment in the source allows it. */
  function Parsed(str: string): (d: Option<seq<byte>>) {
    if |str| == 2 * Size && IsHex(str) then
      Some(seq(Size, k requires 0 <= k < Size => Pair(str[2 * k], str[2 * k + 1])))
    else None
  }

  /** `ParseSha1`: fills the digest half a byte at a time. */
  method ParseSha1(str: string) returns (d: Option<seq<byte>>)
    ensures d == Parsed(str)
  {
    var digest := new byte[Size](_ => 0);
    var i, pd: nat := 0, 0;
    while i < 2 * Size
      invariant 0 <= i <= 2 * Size && i <= |str| && pd == i / 2 && IsHex(str[..i])
      invariant forall k :: 0 <= k < pd ==> digest[k] == Pair(str[2 * k], str[2 * k + 1])
      invariant i % 2 == 1 ==> digest[pd] == 16 * HexValue(str[2 * pd]).value
    {
      if i >= |str| { return None; }
      var digit := HexValue(str[i]);
      if digit.None? { return None; }
      if i % 2 == 0 {
        digest[pd] := 16 * digit.value;
      } else {
        digest[pd] := digest[pd] + digit.value;
        pd := pd + 1;
      }
      i := i + 1;
    }
    if i != |str| { return None; }
    assert str[..i] == str;
    assert digest[..] == Parsed(str).value;
    return Some(digest[..]);
  }

  /** So a digest with anything behind it, a colon or not, is refused. */
  lemma NothingMayFollow(str: string, rest: string)
    requires Parsed(str).Some? && rest != ""
    ensures Parsed(str + rest) == None
  {
  }

  function HexDigit(v: nat): (c: char)
    requires v < 16
    ensures HexValue(c) == Some(v)
  {
    if v < 10 then '0' + v as char else 'a' + (v - 10) as char
  }

  /** The usual way to print a digest. */
  function ToHex(d: seq<byte>): (s: string)
    ensures |s| == 2 * |d|
    ensures forall k :: 0 <= k < |d| ==> s[2 * k] == HexDigit(d[k] / 16) && s[2 * k + 1] == HexDigit(d[k] % 16)
  {
    if d == [] then "" else [HexDigit(d[0] / 16), HexDigit(d[0] % 16)] + ToHex(d[1..])
  }

  lemma {:induction false} HexIsHex(d: seq<byte>)
    ensures IsHex(ToHex(d))
  {
    if d != [] { HexIsHex(d[1..]); }
  }

  /** A printed digest is parsed back. */
  lemma ParsedOfHex(d: seq<byte>)
    ensures Parsed(ToHex(d)) == if |d| == Size then Some(d) else None
  {
    HexIsHex(d);
    var s := ToHex(d);
    if |d| == Size {
      forall k | 0 <= k < Size
        ensures Pair(s[2 * k], s[2 * k + 1]) == d[k]
      {
        DigitsPair(d[k], s[2 * k], s[2 * k + 1]);
      }
      ParsedIs(s, d);
    }
  }

  lemma ParsedIs(s: string, d: seq<byte>)
    requires |s| == 2 * Size && |d| == Size && IsHex(s)
    requires forall k :: 0 <= k < Size ==> Pair(s[2 * k], s[2 * k + 1]) == d[k]
    ensures Parsed(s) == Some(d)
  {
    assert Parsed(s).value == d;
  }

  lemma DigitsPair(b: byte, hi: char, lo: char)
    requires hi == HexDigit(b / 16) && lo == HexDigit(b % 16)
    ensures Pair(hi, lo) == b
  {
  }

  /** The index of the first string that stands for the digest. */
  function FirstMatch(sha1: seq<byte>, strs: seq<string>): (i: int)
    ensures -1 <= i < |strs|
    ensures i >= 0 ==> Parsed(strs[i]) == Some(sha1) && forall j :: 0 <= j < i ==> Parsed(strs[j]) != Some(sha1)
    ensures i == -1 ==> forall j :: 0 <= j < |strs| ==> Parsed(strs[j]) != Some(sha1)
  {
    if strs == [] then -1
    else if Parsed(strs[0]) == Some(sha1) then 0
    else var i := FirstMatch(sha1, strs[1..]); if i < 0 then -1 else i + 1
  }

  /** `FindMatchingPatch`. */
  method FindMatchingPatch(sha1: seq<byte>, strs: seq<string>) returns (i: int)
    ensures i == FirstMatch(sha1, strs)
  {
    i := 0;
    while i < |strs|
      invariant 0 <= i <= |strs| && forall j :: 0 <= j < i ==> Parsed(strs[j]) != Some(sha1)
    {
      var patchSha1 := ParseSha1(strs[i]);
      if patchSha1 == Some(sha1) { return; }
      i := i + 1;
    }
    i := -1;
  }
}
