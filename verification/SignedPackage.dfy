/** A signed update package as a whole: a zip archive whose comment ends with a signature and a footer. */
module SignedPackage {
  import opened Bytes
  import opened ImageFormat
  import opened ZipArchive
  import opened ZipFormat
  import opened Footer
  import Pkcs7

  /** The comment of a signed package: some text, the signature block, and the footer. */
  function SignedComment(text: seq<byte>, der: seq<byte>): (c: seq<byte>)
    ensures |c| == |text| + |der| + FooterSize
  {
    text + (der + (Write2(|der| + FooterSize) + ([0xff, 0xff] + Write2(|text| + |der| + FooterSize))))
  }

  /** The parts of the comment at the end of a file. */
  lemma CommentParts(file: seq<byte>, text: seq<byte>, der: seq<byte>, at: nat)
    requires at == |file| - |SignedComment(text, der)| && StandsAt(file, at, SignedComment(text, der))
    requires der != [] && Small2(|text| + |der| + FooterSize)
    ensures StandsAt(file, at + |text|, der) && file[|file| - 4] == 0xff && file[|file| - 3] == 0xff
    ensures SignatureStart(file) == |der| + FooterSize && CommentSize(file) == |text| + |der| + FooterSize
  {
    var a, b, c := Write2(|der| + FooterSize), [0xff, 0xff], Write2(|text| + |der| + FooterSize);
    var p := at + |text| + |der|;
    StandsIn(file, at, text, der + (a + (b + c)));
    StandsIn(file, at + |text|, der, a + (b + c));
    StandsIn(file, p, a, b + c);
    StandsIn(file, p + 2, b, c);
    Value2(file, p, |der| + FooterSize);
    Value2(file, p + 4, |text| + |der| + FooterSize);
    assert file[p + 2] == file[p + 2..p + 4][0] && file[p + 3] == file[p + 2..p + 4][1];
  }

  /** The signature block that the footer points to. */
  function SignatureBlock(file: seq<byte>): (der: seq<byte>)
    requires HasFooter(file) && SignatureInRecord(file)
  {
    file[SignatureAt(file)..|file| - FooterSize]
  }

  /** The footer of a signed package leads to its end record and to the signature block. */
  lemma FooterFound(file: seq<byte>, text: seq<byte>, der: seq<byte>, at: nat)
    requires at == |file| - |SignedComment(text, der)| && StandsAt(file, at, SignedComment(text, der))
    requires der != [] && Small2(|text| + |der| + FooterSize) && at >= EndHeader
    ensures HasFooter(file) && EocdOf(file) == at - EndHeader && SignatureInComment(file) && SignatureBlock(file) == der
  {
    CommentParts(file, text, der, at);
    InCommentIff(file);
    assert SignatureAt(file) == at + |text| && |file| - FooterSize == at + |text| + |der|;
  }

  /**
   How looking for the signature ends; `Outside` if it would start before the end record, which is all that was read.
   */
  datatype Outcome = Refused | Outside | Unreadable | Signature(bytes: seq<byte>, signedLen: nat)

  /** `verify_file` up to the comparison with the keys: which signature is taken, and for how much of the file. */
  method FindSignature(word: nat, file: seq<byte>) returns (o: Outcome)
    ensures o.Refused? <==>
              !(HasFooter(file) && MarkerAt(file, EocdOf(file))
                && forall i :: EocdOf(file) + 4 <= i ==> !MarkerAt(file, i))
    ensures !o.Refused? ==> (o.Outside? <==> SignatureStart(file) > CommentSize(file) + EndHeader)
    ensures !o.Refused? && !o.Outside? ==>
              && SignatureInRecord(file)
              && o == match Pkcs7.SignatureOf(word, SignatureBlock(file))
                      case None => Unreadable
                      case Some(sig) => Signature(sig, EocdOf(file) + EndHeader - 2)
  {
    var r := CheckFooter(file);
    if r.None? { return Refused; }
    InCommentIff(file);
    if SignatureStart(file) > CommentSize(file) + EndHeader { return Outside; }
    var sig := Pkcs7.ReadPkcs7(word, file[SignatureAt(file)..|file| - FooterSize]);
    o := if sig.None? then Unreadable else Signature(sig.value, r.value.signedLen);
  }

  /** No end marker stands behind the end record at `e`. */
  predicate OneMarker(file: seq<byte>, e: nat) { forall i :: e + 4 <= i && i + 4 <= |file| ==> !MarkerAt(file, i) }

  /**
   Every package that is laid out and signed like that, with no end marker behind its end record, passes the checks: the
   verifier takes the signer's signature, for everything up to the length of the comment, and minzip opens the archive
   at the same end record and finds the entries of its directory.
   */
  lemma PackageAccepted(word: nat, body: seq<byte>, rs: seq<Central>, text: seq<byte>, m: Pkcs7.SignedData,
                        der: seq<byte>, comment: seq<byte>, file: seq<byte>, e: int)
    requires der == Pkcs7.Der(m) && comment == SignedComment(text, der) && file == Archive(body, rs, comment) &&
             e == |file| - |comment| - EndHeader
    requires Laid(body, rs, comment) && AllGood(file, rs) && e >= 0 && OneMarker(file, e)
    requires Pkcs7.WellFormed(m) && Pkcs7.Readable(word, |der|) && m.signer.signedAttrs.None? &&
             m.signer.signature != []
    ensures HasFooter(file) && EocdOf(file) == e && MarkerAt(file, e) && (forall i :: e + 4 <= i ==> !MarkerAt(file, i))
    ensures SignatureInComment(file) && Pkcs7.SignatureOf(word, SignatureBlock(file)) == Some(m.signer.signature)
    ensures Opens(file, e) && RecordsOf(file, e) == Some(EntriesOf(file, rs))
  {
    ArchiveReadBack(body, rs, comment, file, e);
    DerNotEmpty(m);
    FooterAgrees(file, text, der, e);
    SignatureAlone(word, m, der);
  }

  lemma SignatureAlone(word: nat, m: Pkcs7.SignedData, der: seq<byte>)
    requires der == Pkcs7.Der(m) && Pkcs7.WellFormed(m) && Pkcs7.Readable(word, |der|)
    requires m.signer.signedAttrs.None? && m.signer.signature != []
    ensures Pkcs7.SignatureOf(word, der) == Some(m.signer.signature)
  {
    NothingBehind(der);
    Pkcs7.SignatureOfDer(word, m, []);
  }

  lemma NothingBehind(s: seq<byte>)
    ensures s + [] == s
  {
  }

  /** The footer leads both programs to the same record. */
  lemma FooterAgrees(file: seq<byte>, text: seq<byte>, der: seq<byte>, e: nat)
    requires e + EndHeader == |file| - |SignedComment(text, der)| &&
             StandsAt(file, e + EndHeader, SignedComment(text, der))
    requires der != [] && Small2(|text| + |der| + FooterSize) && EndAt(file, e) && OneMarker(file, e)
    ensures HasFooter(file) && EocdOf(file) == e && SignatureInComment(file) && SignatureBlock(file) == der
    ensures MarkerAt(file, e) && (forall i :: e + 4 <= i ==> !MarkerAt(file, i)) && Unmarked(file, e)
  {
    FooterFound(file, text, der, e + EndHeader);
    MarkerIsEnd(file, e);
    VerifierAndMinzipAgree(file);
  }

  lemma DerNotEmpty(m: Pkcs7.SignedData)
    ensures Pkcs7.Der(m) != []
  {
  }
}
