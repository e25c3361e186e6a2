/** Bytes as the C sources see them, and the fixed-width integers the patch formats are made of. */
module Bytes {

  type byte = b: int | 0 <= b < 256

  datatype Option<+T> = None | Some(value: T)

  /** What is done, followed by what is still to come. */
  function Following<T>(done: seq<T>, rest: Option<seq<T>>): (r: Option<seq<T>>) {
    match rest
    case None => None
    case Some(s) => Some(done + s)
  }

  lemma NothingFollowing<T>(rest: Option<seq<T>>)
    ensures Following([], rest) == rest
  {
    if rest.Some? { assert [] + rest.value == rest.value; }
  }

  /** The parts, put together. */
  function Concat(parts: seq<seq<byte>>): (s: seq<byte>) {
    if parts == [] then [] else parts[0] + Concat(parts[1..])
  }

  lemma {:induction false} ConcatMore(parts: seq<seq<byte>>, p: seq<byte>)
    ensures Concat(parts + [p]) == Concat(parts) + p
  {
    if parts == [] {
      assert [] + [p] == [p] && [p][1..] == [];
    } else {
      ConcatMore(parts[1..], p);
      assert (parts + [p])[1..] == parts[1..] + [p];
    }
  }

  /** Addition in an `unsigned char`. */
  function AddByte(a: byte, b: byte): (r: byte) { (a + b) % 256 }

  /** Subtraction in an `unsigned char`. */
  function SubByte(a: byte, b: byte): (r: byte)
    ensures AddByte(r, b) == a
  {
    (a - b) % 256
  }

  // Little-endian integers (utils.c). `>>` on a negative value shifts in the sign, as `/` by a power of two does here.

  function Write4(v: int): (b: seq<byte>)
    ensures |b| == 4
  {
    [v % 256, v / 0x100 % 256, v / 0x1_0000 % 256, v / 0x100_0000 % 256]
  }

  function Write8(v: int): (b: seq<byte>)
    ensures |b| == 8
  {
    Write4(v) + Write4(v / 0x1_0000_0000)
  }

  function At(b: seq<byte>, i: nat): (v: int)
    requires i < |b|
    ensures 0 <= v < 256
  {
    b[i]
  }

  function Read2(b: seq<byte>, i: nat): (v: int)
    requires i + 2 <= |b|
    ensures 0 <= v < 0x1_0000
  {
    At(b, i) + 0x100 * At(b, i + 1)
  }

  /** The four bytes as an `unsigned int`. */
  function Unsigned4(b: seq<byte>, i: nat): (v: int)
    requires i + 4 <= |b|
    ensures 0 <= v < 0x1_0000_0000
  {
    At(b, i) + 0x100 * At(b, i + 1) + 0x1_0000 * At(b, i + 2) + 0x100_0000 * At(b, i + 3)
  }

  function Read4(b: seq<byte>, i: nat): (v: int)
    requires i + 4 <= |b|
  {
    var u := Unsigned4(b, i);
    if u < 0x8000_0000 then u else u - 0x1_0000_0000
  }

  /** The eight bytes as an `unsigned long long`. */
  function Unsigned8(b: seq<byte>, i: nat): (v: int)
    requires i + 8 <= |b|
    ensures 0 <= v < 0x1_0000_0000_0000_0000
  {
    Unsigned4(b, i) + 0x1_0000_0000 * Unsigned4(b, i + 4)
  }

  function Read8(b: seq<byte>, i: nat): (v: int)
    requires i + 8 <= |b|
  {
    var u := Unsigned8(b, i);
    if u < 0x8000_0000_0000_0000 then u else u - 0x1_0000_0000_0000_0000
  }

  lemma DivideTwice(v: int)
    ensures v / 0x100 / 0x100 == v / 0x1_0000
  {
  }

  lemma DivideThrice(v: int)
    ensures v / 0x1_0000 / 0x100 == v / 0x100_0000
  {
  }

  /** A sum of four digits and a multiple of 2^32. */
  lemma LowDigits(v: int, sum: int, rest: int)
    requires v == sum + 0x1_0000_0000 * rest && 0 <= sum < 0x1_0000_0000
    ensures v % 0x1_0000_0000 == sum
  {
  }

  lemma Unsigned4OfWrite4(v: int)
    ensures Unsigned4(Write4(v), 0) == v % 0x1_0000_0000
  {
    var a, b, c := v / 0x100, v / 0x1_0000, v / 0x100_0000;
    DivideTwice(v);
    DivideThrice(v);
    var sum := v % 0x100 + 0x100 * (a % 0x100) + 0x1_0000 * (b % 0x100) + 0x100_0000 * (c % 0x100);
    LowDigits(v, sum, c / 0x100);
  }

  lemma Unsigned4At(b: seq<byte>, i: nat, c: seq<byte>)
    requires i + 4 <= |b| && b[i..i + 4] == c
    ensures Unsigned4(b, i) == Unsigned4(c, 0)
  {
    assert c[0] == b[i] && c[1] == b[i + 1] && c[2] == b[i + 2] && c[3] == b[i + 3];
  }

  /** Four bytes are known by their value. */
  lemma SameValueSameWord(b: seq<byte>, c: seq<byte>)
    requires |b| == |c| == 4 && Unsigned4(b, 0) == Unsigned4(c, 0)
    ensures b == c
  {
    assert At(b, 3) == At(c, 3);
    assert At(b, 2) == At(c, 2);
    assert At(b, 1) == At(c, 1);
  }

  /** Two 32-bit halves make the 64-bit value. */
  lemma Halves(v: int)
    ensures v % 0x1_0000_0000 + 0x1_0000_0000 * (v / 0x1_0000_0000 % 0x1_0000_0000) == v % 0x1_0000_0000_0000_0000
  {
    var hi := v / 0x1_0000_0000;
    assert v == 0x1_0000_0000 * hi + v % 0x1_0000_0000;
    assert hi == 0x1_0000_0000 * (hi / 0x1_0000_0000) + hi % 0x1_0000_0000;
  }

  lemma Unsigned8OfWrite8(b: seq<byte>, i: nat, v: int)
    requires i + 8 <= |b| && b[i..i + 8] == Write8(v)
    ensures Unsigned8(b, i) == v % 0x1_0000_0000_0000_0000
  {
    var hi := v / 0x1_0000_0000;
    assert b[i..i + 4] == b[i..i + 8][..4] == Write4(v);
    assert b[i + 4..i + 8] == b[i..i + 8][4..] == Write4(hi);
    Unsigned4At(b, i, Write4(v));
    Unsigned4At(b, i + 4, Write4(hi));
    Unsigned4OfWrite4(v);
    Unsigned4OfWrite4(hi);
    Halves(v);
  }

  lemma Wrapped8(v: int)
    ensures var u := v % 0x1_0000_0000_0000_0000;
            (if u < 0x8000_0000_0000_0000 then u else u - 0x1_0000_0000_0000_0000) == v
            <==> -0x8000_0000_0000_0000 <= v < 0x8000_0000_0000_0000
    ensures 0 <= v < 0x8000_0000_0000_0000 ==> v % 0x1_0000_0000_0000_0000 == v
  {
  }

  /** `Read4` gives back what `Write4` wrote exactly for the values of an `int`. */
  lemma Read4OfWrite4(b: seq<byte>, i: nat, v: int)
    requires i + 4 <= |b| && b[i..i + 4] == Write4(v)
    ensures Read4(b, i) == v <==> -0x8000_0000 <= v < 0x8000_0000
  {
    Unsigned4At(b, i, Write4(v));
    Unsigned4OfWrite4(v);
  }

  /** `Read8` gives back what `Write8` wrote exactly for the values of a `long long`. */
  lemma Read8OfWrite8(b: seq<byte>, i: nat, v: int)
    requires i + 8 <= |b| && b[i..i + 8] == Write8(v)
    ensures Read8(b, i) == v <==> -0x8000_0000_0000_0000 <= v < 0x8000_0000_0000_0000
  {
    Unsigned8OfWrite8(b, i, v);
    Wrapped8(v);
  }

  // Sign-and-magnitude integers of the bsdiff format

  /** `offtout`: eight bytes of magnitude, lowest first, the sign in the top bit of the last. */
  function OfftOut(x: int): (b: seq<byte>)
    requires -0x8000_0000_0000_0000 < x < 0x8000_0000_0000_0000
    ensures |b| == 8
  {
    if x < 0 then SetSign(Write8(-x)) else Write8(x)
  }

  function SetSign(b: seq<byte>): (c: seq<byte>)
    requires |b| == 8
    ensures |c| == 8
  {
    b[7 := if b[7] < 128 then b[7] + 128 else b[7]]
  }

  /** `offtin`: the magnitude without the sign bit, then the sign. */
  function OfftIn(b: seq<byte>, i: nat): (x: int)
    requires i + 8 <= |b|
  {
    var y := Unsigned8(b, i);
    if At(b, i + 7) >= 128 then -(y - 0x8000_0000_0000_0000) else y
  }

  lemma TopBit(b: seq<byte>, i: nat)
    requires i + 8 <= |b|
    ensures At(b, i + 7) >= 128 <==> Unsigned8(b, i) >= 0x8000_0000_0000_0000
  {
  }

  lemma SignedValue(b: seq<byte>)
    requires |b| == 8 && Unsigned8(b, 0) < 0x8000_0000_0000_0000
    ensures Unsigned8(SetSign(b), 0) == Unsigned8(b, 0) + 0x8000_0000_0000_0000
  {
    TopBit(b, 0);
  }

  lemma Unsigned8At(b: seq<byte>, i: nat, c: seq<byte>)
    requires i + 8 <= |b| && b[i..i + 8] == c
    ensures Unsigned8(b, i) == Unsigned8(c, 0)
  {
    assert b[i..i + 4] == c[0..4] && b[i + 4..i + 8] == c[4..8];
    Unsigned4At(b, i, c[0..4]);
    Unsigned4At(c, 0, c[0..4]);
    Unsigned4At(b, i + 4, c[4..8]);
    Unsigned4At(c, 4, c[4..8]);
  }

  lemma OfftOutValue(x: int)
    requires -0x8000_0000_0000_0000 < x < 0x8000_0000_0000_0000
    ensures Unsigned8(OfftOut(x), 0) == if x < 0 then 0x8000_0000_0000_0000 - x else x
  {
    var y := if x < 0 then -x else x;
    var m := Write8(y);
    assert m[0..8] == m;
    Unsigned8OfWrite8(m, 0, y);
    Wrapped8(y);
    if x < 0 { SignedValue(m); }
  }

  /** `offtin` undoes `offtout` for every magnitude below 2^63. */
  lemma OfftInOfOfftOut(b: seq<byte>, i: nat, x: int)
    requires -0x8000_0000_0000_0000 < x < 0x8000_0000_0000_0000
    requires i + 8 <= |b| && b[i..i + 8] == OfftOut(x)
    ensures OfftIn(b, i) == x
  {
    OfftOutValue(x);
    Unsigned8At(b, i, OfftOut(x));
    TopBit(b, i);
  }
}
