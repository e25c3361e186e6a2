/** The cursor over a DER structure. */
module Asn1 {
  import opened Bytes

  // What the cursor functions mean on the bytes that are left

  function BigEndian(s: seq<byte>): (n: nat) { if s == [] then 0 else BigEndian(s[..|s| - 1]) * 256 + s[|s| - 1] }

  /**
   The length at the start of `s` and how many octets it takes, on a machine with `word` bytes in a `size_t`; section
   8.1.3 of ITU-T X.690.
   */
  function LengthOf(word: nat, s: seq<byte>): (r: Option<(nat, nat)>)
    ensures r.Some? ==> r.value.1 <= |s|
  {
    if s == [] then None
    else if s[0] < 0x80 then Some((s[0], 1))
    else
      var k := s[0] - 0x80;
      if k >= word || 1 + k > |s| then None else Some((BigEndian(s[1..1 + k]), 1 + k))
  }

  /** An element: its tag, where its contents start, and where they end. */
  datatype Element = Element(tag: byte, start: nat, end: nat)

  function First(word: nat, s: seq<byte>): (e: Option<Element>)
    ensures e.Some? ==> 0 < e.value.start <= e.value.end <= |s| && s[0] == e.value.tag
  {
    if s == [] then None
    else
      match LengthOf(word, s[1..])
      case None => None
      case Some((len, used)) => if 1 + used + len > |s| then None else Some(Element(s[0], 1 + used, 1 + used + len))
  }

  /** The sorts of tags that are asked for. */
  datatype Sort = AnyTag | ConstructedTag | SequenceTag | SetTag | OidTag | OctetStringTag {
    predicate Has(tag: byte) {
      match this
      case AnyTag => true
      case ConstructedTag => IsConstructed(tag)
      case SequenceTag => tag % 0x80 == 0x30
      case SetTag => tag % 0x80 == 0x31
      case OidTag => tag == 0x06
      case OctetStringTag => tag == 0x04
    }
  }

  predicate IsConstructed(tag: byte) { tag / 0x20 == 5 }

  /** The contents of the first element, if its tag is of the right sort. */
  function Contents(word: nat, s: seq<byte>, sort: Sort): (r: Option<seq<byte>>) {
    var e := First(word, s);
    if e.Some? && sort.Has(e.value.tag) then Some(s[e.value.start..e.value.end]) else None
  }

  /** What follows the first element. */
  function Rest(word: nat, s: seq<byte>): (r: Option<seq<byte>>)
    ensures r.Some? ==> |r.value| < |s|
  {
    var e := First(word, s);
    if e.Some? then Some(s[e.value.end..]) else None
  }

  /** What follows all leading constructed elements; something must. */
  function AfterConstructed(word: nat, s: seq<byte>): (r: Option<seq<byte>>)
    decreases |s|
  {
    if s == [] then None
    else if !IsConstructed(s[0]) then Some(s)
    else
      match Rest(word, s)
      case None => None
      case Some(t) => AfterConstructed(word, t)
  }

  /** Contents that may not be empty: an object identifier or an octet string. */
  function NonEmpty(c: Option<seq<byte>>): (r: Option<seq<byte>>) { if c == Some([]) then None else c }

  /** What the contents and the rest are once the header has been read. */
  lemma HeaderRead(word: nat, s: seq<byte>, sort: Sort, used: nat, len: nat, left: seq<byte>)
    requires s != [] && LengthOf(word, s[1..]) == Some((len, used)) && left == s[1..][used..] && len <= |left| &&
             sort.Has(s[0])
    ensures Contents(word, s, sort) == Some(left[..len]) && Rest(word, s) == Some(left[len..])
  {
    assert left == s[1 + used..];
    assert left[..len] == s[1 + used..1 + used + len] && left[len..] == s[1 + used + len..];
  }

  // The cursor

  class Context {
    const word: nat
    const memory: seq<byte>
    var p: nat
    var length: nat
    var appType: int

    predicate Valid()
      reads this
    {
      p + length <= |memory|
    }

    function Left(): (s: seq<byte>)
      requires Valid()
      reads this
    {
      memory[p..p + length]
    }

    constructor (word: nat, memory: seq<byte>, p: nat, length: nat)
      requires p + length <= |memory|
      ensures Valid() && this.word == word && this.memory == memory && this.p == p && this.length == length
    {
      this.word, this.memory, this.p, this.length, appType := word, memory, p, length, 0;
    }

    method PeekByte() returns (b: int)
      requires Valid()
      ensures b == if Left() == [] then -1 else Left()[0] as int
    {
      if length == 0 { return -1; }
      b := memory[p];
    }

    method GetByte() returns (b: int)
      requires Valid()
      modifies this`p, this`length
      ensures Valid() && p + length == old(p + length) && p >= old(p)
      ensures old(Left()) == [] ==> b == -1 && Left() == []
      ensures old(Left()) != [] ==> b == old(Left()[0]) as int && Left() == old(Left())[1..]
    {
      if length == 0 { return -1; }
      b := memory[p];
      p, length := p + 1, length - 1;
    }

    method SkipBytes(n: nat) returns (ok: bool)
      requires Valid()
      modifies this`p, this`length
      ensures Valid() && p + length == old(p + length) && p >= old(p)
      ensures ok <==> n <= |old(Left())|
      ensures Left() == if ok then old(Left())[n..] else old(Left())
    {
      if length < n { return false; }
      p, length := p + n, length - n;
      ok := true;
    }

    /** The octets of a long length. */
    method GetOctets(k: nat) returns (ok: bool, len: nat)
      requires Valid()
      modifies this`p, this`length
      ensures Valid() && p + length == old(p + length) && p >= old(p)
      ensures ok <==> k <= |old(Left())|
      ensures ok ==> len == BigEndian(old(Left())[..k]) && Left() == old(Left())[k..]
    {
      ghost var s := Left();
      len := 0;
      var i: nat := 0;
      while i < k
        invariant i <= k && i <= |s| && Valid() && p + length == old(p + length) && p >= old(p) && Left() == s[i..] &&
                  len == BigEndian(s[..i])
      {
        var b := GetByte();
        if b == -1 { return false, len; }
        assert s[..i + 1][..i] == s[..i];
        len := len * 256 + b;
        i := i + 1;
      }
      ok := true;
    }

    /** `decode_length`. */
    method DecodeLength() returns (ok: bool, len: nat)
      requires Valid()
      modifies this`p, this`length
      ensures Valid() && p + length == old(p + length) && p >= old(p)
      ensures ok <==> LengthOf(word, old(Left())).Some?
      ensures ok ==>
                len == LengthOf(word, old(Left())).value.0 &&
                Left() == old(Left())[LengthOf(word, old(Left())).value.1..]
    {
      len := 0;
      var b := GetByte();
      if b == -1 { return false, len; }
      if b < 0x80 { return true, b; }
      var k := b - 0x80;
      if k >= word { return false, len; }
      ghost var s := old(Left());
      ok, len := GetOctets(k);
      if ok { assert s[1..][..k] == s[1..1 + k] && s[1..][k..] == s[1 + k..]; }
    }

    /** Reads a tag of the right sort and a length; what is left then starts with the contents. */
    method GetHeader(sort: Sort) returns (ok: bool, len: nat)
      requires Valid()
      modifies this`p, this`length
      ensures Valid() && p + length == old(p + length) && p >= old(p)
      ensures ok <==> Contents(word, old(Left()), sort).Some?
      ensures ok ==> len <= length && Left()[..len] == Contents(word, old(Left()), sort).value
      ensures ok ==> Left()[len..] == Rest(word, old(Left())).value
    {
      ghost var s := Left();
      len := 0;
      var tag := GetByte();
      if tag == -1 { return false, len; }
      if !sort.Has(tag) { return false, len; }
      ok, len := DecodeLength();
      if !ok || len > length { return false, len; }
      HeaderRead(word, s, sort, LengthOf(word, s[1..]).value.1, len, Left());
    }

    /** The new context is a part of this one. */
    predicate Inside(c: Context)
      reads this, c
    {
      c.memory == memory && c.word == word && p <= c.p && c.p + c.length <= p + length
    }

    /** `asn1_sequence_get`, `asn1_set_get`: a context for the contents. */
    method Get(sort: Sort) returns (c: Context?)
      requires Valid()
      modifies this`p, this`length
      ensures Valid() && p + length == old(p + length) && p >= old(p)
      ensures c == null <==> Contents(word, old(Left()), sort).None?
      ensures c != null ==> fresh(c) && c.Valid() && Inside(c) && c.Left() == Contents(word, old(Left()), sort).value
    {
      var ok, len := GetHeader(sort);
      if !ok { return null; }
      c := new Context(word, memory, p, len);
      assert c.Left() == Left()[..len];
    }

    /** `asn1_constructed_get`: also notes the type of the element. */
    method ConstructedGet() returns (c: Context?)
      requires Valid()
      modifies this`p, this`length
      ensures Valid() && p + length == old(p + length) && p >= old(p)
      ensures c == null <==> Contents(word, old(Left()), ConstructedTag).None?
      ensures c != null ==>
                fresh(c) && c.Valid() && Inside(c) && c.Left() == Contents(word, old(Left()), ConstructedTag).value
      ensures c != null ==> c.appType == old(Left()[0]) % 0x20
    {
      var tag := PeekByte();
      c := Get(ConstructedTag);
      if c != null { c.appType := tag % 0x20; }
    }

    /** `asn1_oid_get`, `asn1_octet_string_get`: the contents themselves, which may not be empty. */
    method GetString(sort: Sort) returns (r: Option<seq<byte>>)
      requires Valid()
      modifies this`p, this`length
      ensures Valid() && p + length == old(p + length) && p >= old(p)
      ensures r == NonEmpty(Contents(word, old(Left()), sort))
    {
      var ok, len := GetHeader(sort);
      if !ok || len == 0 { return None; }
      r := Some(memory[p..p + len]);
      assert memory[p..p + len] == Left()[..len];
    }

    /** `asn1_sequence_next`. */
    method SequenceNext() returns (ok: bool)
      requires Valid()
      modifies this`p, this`length
      ensures Valid() && p + length == old(p + length) && p >= old(p)
      ensures ok <==> Rest(word, old(Left())).Some?
      ensures ok ==> Left() == Rest(word, old(Left())).value
    {
      var len;
      ok, len := GetHeader(AnyTag);
      if ok { ok := SkipBytes(len); }
    }

    /** `asn1_constructed_skip_all`. */
    method SkipAllConstructed() returns (ok: bool)
      requires Valid()
      modifies this`p, this`length
      ensures Valid() && p + length == old(p + length) && p >= old(p)
      ensures ok <==> AfterConstructed(word, old(Left())).Some?
      ensures ok ==> Left() == AfterConstructed(word, old(Left())).value
    {
      ghost var goal := AfterConstructed(word, Left());
      var b := PeekByte();
      while b != -1 && IsConstructed(b)
        invariant Valid() && p + length == old(p + length) && p >= old(p) && goal == AfterConstructed(word, Left())
        invariant b == if Left() == [] then -1 else Left()[0] as int
        decreases length
      {
        ok := SequenceNext();
        if !ok { return; }
        b := PeekByte();
      }
      ok := b != -1;
    }
  }
}
