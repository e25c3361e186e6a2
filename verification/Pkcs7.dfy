/** Getting the signature out of a PKCS #7 SignedData structure. */
module Pkcs7 {
  import opened Bytes
  import opened Asn1

  /** The three ways of the cursor to go on: into the first element, past it, past all leading constructed ones. */
  datatype Cursor = Cursor(contents: (seq<byte>, Sort) -> Option<seq<byte>>, rest: seq<byte> -> Option<seq<byte>>,
                           skip: seq<byte> -> Option<seq<byte>>)

  function DerCursor(word: nat): (c: Cursor) {
    Cursor((s, sort) => Contents(word, s, sort), s => Rest(word, s), s => AfterConstructed(word, s))
  }

  /** What follows the first `n` elements. */
  function After(c: Cursor, s: seq<byte>, n: nat): (r: Option<seq<byte>>)
    decreases n
  {
    if n == 0 then Some(s) else var t := c.rest(s); if t.None? then None else After(c, t.value, n - 1)
  }

  /** The contents of the SignedData sequence. */
  function SignedDataIn(c: Cursor, der: seq<byte>): (r: Option<seq<byte>>) {
    var info := c.contents(der, SequenceTag);
    var rest := if info.None? then None else c.rest(info.value);
    var content := if rest.None? then None else c.contents(rest.value, ConstructedTag);
    if content.None? then None else c.contents(content.value, SequenceTag)
  }

  /** The contents of the first SignerInfo. */
  function SignerIn(c: Cursor, signedData: seq<byte>): (r: Option<seq<byte>>) {
    var rest := After(c, signedData, 3);
    var infos := if rest.None? then None else c.skip(rest.value);
    var set_ := if infos.None? then None else c.contents(infos.value, SetTag);
    if set_.None? then None else c.contents(set_.value, SequenceTag)
  }

  /** The fifth element of the SignerInfo, if it is an octet string. */
  function SignatureIn(c: Cursor, signer: seq<byte>): (r: Option<seq<byte>>) {
    var rest := After(c, signer, 4);
    if rest.None? then None else NonEmpty(c.contents(rest.value, OctetStringTag))
  }

  function SignatureBy(c: Cursor, der: seq<byte>): (r: Option<seq<byte>>) {
    var signedData := SignedDataIn(c, der);
    var signer := if signedData.None? then None else SignerIn(c, signedData.value);
    if signer.None? then None else SignatureIn(c, signer.value)
  }

  /** What `read_pkcs7` extracts. */
  function SignatureOf(word: nat, der: seq<byte>): (r: Option<seq<byte>>) { SignatureBy(DerCursor(word), der) }

  /** `n` times `asn1_sequence_next`. */
  method NextTimes(c: Context, n: nat) returns (ok: bool)
    requires c.Valid()
    modifies c`p, c`length
    ensures c.Valid() && c.p + c.length == old(c.p + c.length) && c.p >= old(c.p)
    ensures ok <==> After(DerCursor(c.word), old(c.Left()), n).Some?
    ensures ok ==> c.Left() == After(DerCursor(c.word), old(c.Left()), n).value
    decreases n
  {
    if n == 0 { return true; }
    ok := c.SequenceNext();
    if ok { ok := NextTimes(c, n - 1); }
  }

  method OpenSignedData(word: nat, der: seq<byte>) returns (c: Context?)
    ensures c == null <==> SignedDataIn(DerCursor(word), der).None?
    ensures c != null ==>
              fresh(c) && c.Valid() && c.word == word && c.memory == der &&
              c.Left() == SignedDataIn(DerCursor(word), der).value
  {
    var ctx := new Context(word, der, 0, |der|);
    assert ctx.Left() == der;
    var pkcs7 := ctx.Get(SequenceTag);
    if pkcs7 == null { return null; }
    var ok := pkcs7.SequenceNext();
    if !ok { return null; }
    var app := pkcs7.ConstructedGet();
    if app == null { return null; }
    c := app.Get(SequenceTag);
  }

  method OpenSigner(data: Context) returns (c: Context?)
    requires data.Valid()
    modifies data`p, data`length
    ensures c == null <==> SignerIn(DerCursor(data.word), old(data.Left())).None?
    ensures c != null ==>
              fresh(c) && c.Valid() && c.word == data.word && c.memory == data.memory &&
              c.Left() == SignerIn(DerCursor(data.word), old(data.Left())).value
    ensures c != null ==> old(data.p) <= c.p && c.p + c.length <= old(data.p + data.length)
  {
    var ok := NextTimes(data, 3);
    if !ok { return null; }
    ok := data.SkipAllConstructed();
    if !ok { return null; }
    var infos := data.Get(SetTag);
    if infos == null { return null; }
    c := infos.Get(SequenceTag);
  }

  /** `read_pkcs7`. */
  method ReadPkcs7(word: nat, der: seq<byte>) returns (sig: Option<seq<byte>>)
    ensures sig == SignatureOf(word, der)
  {
    var data := OpenSignedData(word, der);
    if data == null { return None; }
    var signer := OpenSigner(data);
    if signer == null { return None; }
    var ok := NextTimes(signer, 4);
    if !ok { return None; }
    sig := signer.GetString(OctetStringTag);
  }

  // The encoder

  function OctetsOf(n: nat): (s: seq<byte>) { if n == 0 then [] else OctetsOf(n / 256) + [n % 256] }

  lemma {:induction false} BigEndianOfOctets(n: nat)
    ensures BigEndian(OctetsOf(n)) == n
  {
    if n > 0 {
      BigEndianOfOctets(n / 256);
      assert OctetsOf(n)[..|OctetsOf(n)| - 1] == OctetsOf(n / 256);
    }
  }

  lemma {:induction false} OctetsMonotone(m: nat, n: nat)
    requires m <= n
    ensures |OctetsOf(m)| <= |OctetsOf(n)|
  {
    if m > 0 { OctetsMonotone(m / 256, n / 256); }
  }

  /** A length that a machine with `word` bytes in a `size_t` reads. */
  predicate Readable(word: nat, n: nat) { |OctetsOf(n)| < word < 0x80 }

  /** The definite form of a length with as few octets as possible; section 10.1 of ITU-T X.690. */
  function EncodeLength(n: nat): (s: seq<byte>) {
    if n < 0x80 then [n] else [if |OctetsOf(n)| < 0x7f then 0x80 + |OctetsOf(n)| else 0xff] + OctetsOf(n)
  }

  lemma LengthReadBack(word: nat, n: nat, rest: seq<byte>)
    requires Readable(word, n)
    ensures LengthOf(word, EncodeLength(n) + rest) == Some((n, |EncodeLength(n)|))
  {
    if n >= 0x80 {
      BigEndianOfOctets(n);
      assert (EncodeLength(n) + rest)[1..1 + |OctetsOf(n)|] == OctetsOf(n);
    }
  }

  datatype Tlv = Tlv(tag: byte, contents: seq<byte>)

  function Encode(t: Tlv): (s: seq<byte>)
    ensures s != [] && s[0] == t.tag && |t.contents| < |s|
  {
    [t.tag] + EncodeLength(|t.contents|) + t.contents
  }

  /** An encoded element is read back, whatever follows it. */
  lemma ElementReadBack(word: nat, t: Tlv, rest: seq<byte>)
    requires Readable(word, |t.contents|)
    ensures Rest(word, Encode(t) + rest) == Some(rest)
    ensures forall sort: Sort ::
              Contents(word, Encode(t) + rest, sort) == if sort.Has(t.tag) then Some(t.contents) else None
  {
    var n, s := EncodeLength(|t.contents|), Encode(t) + rest;
    assert s[1..] == n + (t.contents + rest);
    LengthReadBack(word, |t.contents|, t.contents + rest);
    assert First(word, s) == Some(Element(t.tag, 1 + |n|, 1 + |n| + |t.contents|));
    assert s[1 + |n|..1 + |n| + |t.contents|] == t.contents && s[1 + |n| + |t.contents|..] == rest;
  }

  // Reading what was encoded, whatever the encoder and the cursor are like inside

  type Encoder = Tlv -> seq<byte>

  function EncodeAll(enc: Encoder, ts: seq<Tlv>): (s: seq<byte>) {
    if ts == [] then [] else enc(ts[0]) + EncodeAll(enc, ts[1..])
  }

  predicate AllFit(fits: nat -> bool, ts: seq<Tlv>) { forall i :: 0 <= i < |ts| ==> fits(|ts[i].contents|) }

  predicate AllConstructed(ts: seq<Tlv>) { forall i :: 0 <= i < |ts| ==> IsConstructed(ts[i].tag) }

  /** Encoded elements are longer than their contents and start with their tags. */
  ghost predicate Encodes(enc: Encoder) { forall t: Tlv :: |t.contents| < |enc(t)| && enc(t)[0] == t.tag }

  /** The cursor reads elements of fitting length, whatever follows them. */
  ghost predicate Reads(c: Cursor, enc: Encoder, fits: nat -> bool) {
    && Encodes(enc)
    && (forall m, n :: m <= n && fits(n) ==> fits(m))
    && (forall t: Tlv, rest :: fits(|t.contents|) ==> c.rest(enc(t) + rest) == Some(rest))
    && (forall t: Tlv, rest, sort :: fits(|t.contents|) ==>
          c.contents(enc(t) + rest, sort) == if sort.Has(t.tag) then Some(t.contents) else None)
    && (forall ts, rest :: AllFit(fits, ts) && AllConstructed(ts) && rest != [] && !IsConstructed(rest[0]) ==>
          c.skip(EncodeAll(enc, ts) + rest) == Some(rest))
  }

  lemma {:induction false} AllFitIn(enc: Encoder, fits: nat -> bool, ts: seq<Tlv>, n: nat)
    requires Encodes(enc) && (forall m, n :: m <= n && fits(n) ==> fits(m)) && fits(n) && |EncodeAll(enc, ts)| <= n
    ensures AllFit(fits, ts)
  {
    if ts != [] {
      assert |ts[0].contents| <= n;
      AllFitIn(enc, fits, ts[1..], n);
    }
  }

  lemma {:induction false} AfterReadBack(c: Cursor, enc: Encoder, fits: nat -> bool, ts: seq<Tlv>, rest: seq<byte>)
    requires Reads(c, enc, fits) && AllFit(fits, ts)
    ensures After(c, EncodeAll(enc, ts) + rest, |ts|) == Some(rest)
  {
    if ts == [] {
      assert EncodeAll(enc, ts) + rest == rest;
    } else {
      var more := EncodeAll(enc, ts[1..]) + rest;
      assert EncodeAll(enc, ts) + rest == enc(ts[0]) + more;
      assert fits(|ts[0].contents|) && c.rest(enc(ts[0]) + more) == Some(more);
      AfterReadBack(c, enc, fits, ts[1..], rest);
    }
  }

  lemma {:induction false} ConstructedReadBack(word: nat, ts: seq<Tlv>, rest: seq<byte>)
    requires (forall i :: 0 <= i < |ts| ==> Readable(word, |ts[i].contents|)) && AllConstructed(ts) && rest != [] &&
             !IsConstructed(rest[0])
    ensures AfterConstructed(word, EncodeAll(Encode, ts) + rest) == Some(rest)
  {
    if ts == [] {
      assert EncodeAll(Encode, ts) + rest == rest;
    } else {
      assert EncodeAll(Encode, ts) + rest == Encode(ts[0]) + (EncodeAll(Encode, ts[1..]) + rest);
      ElementReadBack(word, ts[0], EncodeAll(Encode, ts[1..]) + rest);
      ConstructedReadBack(word, ts[1..], rest);
    }
  }

  function Fitting(word: nat): (fits: nat -> bool) { (n: nat) => Readable(word, n) }

  /** The DER encoder and the cursor of the source are like that. */
  lemma DerReads(word: nat)
    ensures Reads(DerCursor(word), Encode, Fitting(word))
  {
    var c, fits := DerCursor(word), Fitting(word);
    forall m, n | m <= n && fits(n) ensures fits(m) { OctetsMonotone(m, n); }
    forall t: Tlv, rest | fits(|t.contents|)
      ensures c.rest(Encode(t) + rest) == Some(rest)
    {
      ElementReadBack(word, t, rest);
    }
    forall t: Tlv, rest, sort | fits(|t.contents|)
      ensures c.contents(Encode(t) + rest, sort) == if sort.Has(t.tag) then Some(t.contents) else None
    {
      ElementReadBack(word, t, rest);
    }
    forall ts, rest | AllFit(fits, ts) && AllConstructed(ts) && rest != [] && !IsConstructed(rest[0])
      ensures c.skip(EncodeAll(Encode, ts) + rest) == Some(rest)
    {
      ConstructedReadBack(word, ts, rest);
    }
  }

  // SignedData; sections 5.1 and 5.3 of RFC 3852

  datatype Signer = Signer(version: Tlv, id: Tlv, digestAlgorithm: Tlv, signedAttrs: Option<Tlv>,
                           signatureAlgorithm: Tlv, signature: seq<byte>, unsignedAttrs: seq<byte>)

  /** `optional` are the certificates and revocation lists; `others` are the signers after the first. */
  datatype SignedData = SignedData(contentType: Tlv, version: Tlv, digestAlgorithms: Tlv, content: Tlv,
                                   optional: seq<Tlv>, signer: Signer, others: seq<byte>)

  function SignerParts(s: Signer): (ts: seq<Tlv>) {
    [s.version, s.id, s.digestAlgorithm]
    + (if s.signedAttrs.Some? then [s.signedAttrs.value] else []) + [s.signatureAlgorithm]
  }

  function SignerBytes(enc: Encoder, s: Signer): (b: seq<byte>) {
    EncodeAll(enc, SignerParts(s)) + (enc(Tlv(0x04, s.signature)) + s.unsignedAttrs)
  }

  function SignersBytes(enc: Encoder, m: SignedData): (b: seq<byte>) {
    enc(Tlv(0x30, SignerBytes(enc, m.signer))) + m.others
  }

  function SignedDataBytes(enc: Encoder, m: SignedData): (b: seq<byte>) {
    EncodeAll(enc, [m.version, m.digestAlgorithms, m.content])
    + (EncodeAll(enc, m.optional) + enc(Tlv(0x31, SignersBytes(enc, m))))
  }

  function ContentBytes(enc: Encoder, m: SignedData): (b: seq<byte>) { enc(Tlv(0x30, SignedDataBytes(enc, m))) }

  function InfoBytes(enc: Encoder, m: SignedData): (b: seq<byte>) {
    enc(m.contentType) + enc(Tlv(0xA0, ContentBytes(enc, m)))
  }

  function Encoded(enc: Encoder, m: SignedData): (b: seq<byte>) { enc(Tlv(0x30, InfoBytes(enc, m))) }

  function Der(m: SignedData): (b: seq<byte>) { Encoded(Encode, m) }

  /** The tags are as the standard has them, as far as they are looked at. */
  predicate WellFormed(m: SignedData) { AllConstructed(m.optional) && m.signer.signatureAlgorithm.tag == 0x30 }

  /** One element with nothing behind it. */
  lemma Alone(c: Cursor, enc: Encoder, fits: nat -> bool, t: Tlv, sort: Sort)
    requires Reads(c, enc, fits) && fits(|t.contents|) && sort.Has(t.tag)
    ensures c.contents(enc(t), sort) == Some(t.contents)
  {
    assert enc(t) + [] == enc(t);
  }

  lemma SignedDataReadBack(c: Cursor, enc: Encoder, fits: nat -> bool, m: SignedData, trailing: seq<byte>)
    requires Reads(c, enc, fits) && fits(|Encoded(enc, m)|)
    ensures SignedDataIn(c, Encoded(enc, m) + trailing) == Some(SignedDataBytes(enc, m)) &&
            fits(|SignedDataBytes(enc, m)|)
  {
    var info, content, data := InfoBytes(enc, m), ContentBytes(enc, m), SignedDataBytes(enc, m);
    assert |data| < |content| && |content| < |info| && |info| < |Encoded(enc, m)|;
    assert c.contents(Encoded(enc, m) + trailing, SequenceTag) == Some(info);
    assert |m.contentType.contents| <= |info|;
    assert c.rest(info) == Some(enc(Tlv(0xA0, content)));
    Alone(c, enc, fits, Tlv(0xA0, content), ConstructedTag);
    Alone(c, enc, fits, Tlv(0x30, data), SequenceTag);
  }

  lemma SignerReadBack(c: Cursor, enc: Encoder, fits: nat -> bool, m: SignedData)
    requires Reads(c, enc, fits) && fits(|SignedDataBytes(enc, m)|) && WellFormed(m)
    ensures SignerIn(c, SignedDataBytes(enc, m)) == Some(SignerBytes(enc, m.signer)) &&
            fits(|SignerBytes(enc, m.signer)|)
  {
    var head := [m.version, m.digestAlgorithms, m.content];
    var data, signers := SignedDataBytes(enc, m), SignersBytes(enc, m);
    var set_ := enc(Tlv(0x31, signers));
    AllFitIn(enc, fits, head, |data|);
    AllFitIn(enc, fits, m.optional, |data|);
    AfterReadBack(c, enc, fits, head, EncodeAll(enc, m.optional) + set_);
    assert set_ != [] && set_[0] == 0x31;
    assert c.skip(EncodeAll(enc, m.optional) + set_) == Some(set_);
    assert |signers| <= |data| && |SignerBytes(enc, m.signer)| <= |data|;
    Alone(c, enc, fits, Tlv(0x31, signers), SetTag);
    assert c.contents(signers, SequenceTag) == Some(SignerBytes(enc, m.signer));
  }

  lemma SignatureReadBack(c: Cursor, enc: Encoder, fits: nat -> bool, s: Signer)
    requires Reads(c, enc, fits) && fits(|SignerBytes(enc, s)|) && s.signedAttrs.None?
    ensures SignatureIn(c, SignerBytes(enc, s)) == if s.signature != [] then Some(s.signature) else None
  {
    var b, ts, rest := SignerBytes(enc, s), SignerParts(s), enc(Tlv(0x04, s.signature)) + s.unsignedAttrs;
    AllFitIn(enc, fits, ts, |b|);
    AfterReadBack(c, enc, fits, ts, rest);
    assert |s.signature| <= |b|;
    assert c.contents(rest, OctetStringTag) == Some(s.signature);
  }

  /** With signed attributes the fifth element is the signature algorithm. */
  lemma AttributesInTheWay(c: Cursor, enc: Encoder, fits: nat -> bool, s: Signer)
    requires Reads(c, enc, fits) && fits(|SignerBytes(enc, s)|) && s.signedAttrs.Some? &&
             s.signatureAlgorithm.tag == 0x30
    ensures SignatureIn(c, SignerBytes(enc, s)) == None
  {
    var b, ts, a := SignerBytes(enc, s), SignerParts(s), s.signatureAlgorithm;
    var front, rest := ts[..4], enc(Tlv(0x04, s.signature)) + s.unsignedAttrs;
    AllFitIn(enc, fits, ts, |b|);
    assert ts == front + [a] && ts[4] == a;
    EncodeAllMore(enc, front, a);
    assert b == EncodeAll(enc, front) + (enc(a) + rest);
    AfterReadBack(c, enc, fits, front, enc(a) + rest);
    assert c.contents(enc(a) + rest, OctetStringTag) == None;
  }

  lemma {:induction false} EncodeAllMore(enc: Encoder, ts: seq<Tlv>, t: Tlv)
    ensures EncodeAll(enc, ts + [t]) == EncodeAll(enc, ts) + enc(t)
  {
    if ts == [] {
      assert [] + [t] == [t] && EncodeAll(enc, [t]) == enc(t) + EncodeAll(enc, []);
    } else {
      EncodeAllMore(enc, ts[1..], t);
      assert (ts + [t])[1..] == ts[1..] + [t];
    }
  }

  /**
   From every SignedData structure without signed attributes and with a non-empty signature, exactly the signature of
   the first signer is read; with signed attributes or an empty signature, nothing is.
   */
  lemma SignatureOfDer(word: nat, m: SignedData, trailing: seq<byte>)
    requires Readable(word, |Der(m)|) && WellFormed(m)
    ensures SignatureOf(word, Der(m) + trailing)
         == if m.signer.signedAttrs.None? && m.signer.signature != [] then Some(m.signer.signature) else None
  {
    DerReads(word);
    SignatureRead(DerCursor(word), Encode, Fitting(word), m, trailing);
  }

  lemma SignatureRead(c: Cursor, enc: Encoder, fits: nat -> bool, m: SignedData, trailing: seq<byte>)
    requires Reads(c, enc, fits) && fits(|Encoded(enc, m)|) && WellFormed(m)
    ensures SignatureBy(c, Encoded(enc, m) + trailing)
         == if m.signer.signedAttrs.None? && m.signer.signature != [] then Some(m.signer.signature) else None
  {
    SignedDataReadBack(c, enc, fits, m, trailing);
    SignerReadBack(c, enc, fits, m);
    if m.signer.signedAttrs.None? {
      SignatureReadBack(c, enc, fits, m.signer);
    } else {
      AttributesInTheWay(c, enc, fits, m.signer);
    }
  }
}
