/** The footer of a signed update package, and which end record minzip finds in it. */
module Footer {
  import opened Bytes
  import opened ZipArchive

  const FooterSize := 6

  /** What the checks find out: where the end record is, where the signature starts, how much of the file is signed. */
  datatype Checked = Checked(eocd: nat, signatureStart: nat, signedLen: nat)

  predicate MarkerAt(file: seq<byte>, i: int) {
    0 <= i && i + 4 <= |file| && file[i] == 0x50 && file[i + 1] == 0x4b && file[i + 2] == 0x05 && file[i + 3] == 0x06
  }

  /** The four bytes are the signature that minzip looks for. */
  lemma MarkerIsEnd(file: seq<byte>, i: int)
    ensures MarkerAt(file, i) <==> EndAt(file, i)
  {
    if 0 <= i && i + 4 <= |file| {
      var a, b, c, d := At(file, i), At(file, i + 1), At(file, i + 2), At(file, i + 3);
      assert Unsigned4(file, i) == a + 0x100 * b + 0x1_0000 * c + 0x100_0000 * d;
    }
  }

  function CommentSize(file: seq<byte>): (n: nat)
    requires |file| >= FooterSize
  {
    Read2(file, |file| - 2)
  }

  function SignatureStart(file: seq<byte>): (n: nat)
    requires |file| >= FooterSize
  {
    Read2(file, |file| - 6)
  }

  /** The six bytes at the end are a footer, and the file is long enough for the comment they announce. */
  predicate HasFooter(file: seq<byte>) {
    && |file| >= FooterSize && file[|file| - 4] == 0xff && file[|file| - 3] == 0xff
    && SignatureStart(file) > FooterSize && CommentSize(file) + EndHeader <= |file|
  }

  /** Where the footer says that the end record is. */
  function EocdOf(file: seq<byte>): (e: nat)
    requires HasFooter(file)
  {
    |file| - CommentSize(file) - EndHeader
  }

  /** The search for a second marker. */
  method MarkerAfter(file: seq<byte>, eocd: nat) returns (found: bool)
    requires eocd + EndHeader <= |file|
    ensures found <==> exists i :: eocd + 4 <= i && MarkerAt(file, i)
  {
    var eocdSize := |file| - eocd;
    var i := 4;
    while i < eocdSize - 3
      invariant 4 <= i && forall j :: eocd + 4 <= j < eocd + i ==> !MarkerAt(file, j)
    {
      if MarkerAt(file, eocd + i) { return true; }
      i := i + 1;
    }
    found := false;
  }

  /** The checks of `verify_file` before anything is hashed. */
  method CheckFooter(file: seq<byte>) returns (r: Option<Checked>)
    ensures r.Some? <==>
              && HasFooter(file) && MarkerAt(file, EocdOf(file))
              && forall i :: EocdOf(file) + 4 <= i ==> !MarkerAt(file, i)
    ensures r.Some? ==> r.value == Checked(EocdOf(file), SignatureStart(file), EocdOf(file) + EndHeader - 2)
  {
    if |file| < FooterSize { return None; }
    if file[|file| - 4] != 0xff || file[|file| - 3] != 0xff { return None; }
    var commentSize, signatureStart := CommentSize(file), SignatureStart(file);
    if signatureStart <= FooterSize { return None; }
    var eocdSize := commentSize + EndHeader;
    if eocdSize > |file| { return None; }
    var eocd := |file| - eocdSize;
    if !MarkerAt(file, eocd) { return None; }
    var again := MarkerAfter(file, eocd);
    if again { return None; }
    r := Some(Checked(eocd, signatureStart, eocd + EndHeader - 2));
  }

  // The signature

  /** Where the signature starts, by the footer; nothing compares this with the length of the comment. */
  function SignatureAt(file: seq<byte>): (p: int)
    requires |file| >= FooterSize
  {
    |file| - SignatureStart(file)
  }

  /** The bytes handed to `read_pkcs7` lie in what was read: the end record with the comment. */
  predicate SignatureInRecord(file: seq<byte>)
    requires HasFooter(file)
  {
    EocdOf(file) <= SignatureAt(file) <= |file| - FooterSize
  }

  /** They lie in the comment. */
  predicate SignatureInComment(file: seq<byte>)
    requires HasFooter(file)
  {
    EocdOf(file) + EndHeader <= SignatureAt(file) <= |file| - FooterSize
  }

  /** They do exactly when the footer does not announce more signature than comment, or than the whole record. */
  lemma InCommentIff(file: seq<byte>)
    requires HasFooter(file)
    ensures SignatureInComment(file) <==> SignatureStart(file) <= CommentSize(file)
    ensures SignatureInRecord(file) <==> SignatureStart(file) <= CommentSize(file) + EndHeader
  {
  }

  /**
   A file that passes the checks although its signature would start before the end record, which is all that was read.
   */
  lemma StartsBeforeRecord() returns (file: seq<byte>)
    ensures HasFooter(file) && MarkerAt(file, EocdOf(file)) && forall i :: EocdOf(file) + 4 <= i ==> !MarkerAt(file, i)
    ensures SignatureAt(file) < EocdOf(file)
  {
    file := [0x50, 0x4b, 0x05, 0x06, 0, 0, 0, 0, 0, 0, 0, 0, 0, 0, 0, 0, 0, 0, 0, 0, 6, 0, 29, 0, 0xff, 0xff, 6, 0];
  }

  /** Minzip's backward scan stops at `e`. */
  ghost predicate StopsAt(file: seq<byte>, e: int) {
    0 <= e <= |file| - EndHeader && EndAt(file, e) && forall j :: e < j <= |file| - EndHeader ==> !EndAt(file, j)
  }

  /** A marker does not overlap another one. */
  lemma NoOverlap(file: seq<byte>, e: int, j: int)
    requires MarkerAt(file, e) && e < j < e + 4
    ensures !MarkerAt(file, j)
  {
    if j == e + 1 { assert file[e + 1] == 0x4b; }
    else if j == e + 2 { assert file[e + 2] == 0x05; }
    else { assert file[e + 3] == 0x06; }
  }

  /**
   The end record that the verifier checks is the one that minzip finds. The verifier is stricter only in that no marker
   may stand in the last bytes of the file, where minzip does not look.
   */
  lemma VerifierAndMinzipAgree(file: seq<byte>)
    requires HasFooter(file)
    ensures (MarkerAt(file, EocdOf(file)) && forall i :: EocdOf(file) + 4 <= i ==> !MarkerAt(file, i))
            <==> (StopsAt(file, EocdOf(file)) && forall i :: |file| - EndHeader < i ==> !MarkerAt(file, i))
  {
    var e := EocdOf(file);
    forall i ensures MarkerAt(file, i) <==> EndAt(file, i) { MarkerIsEnd(file, i); }
    if MarkerAt(file, e) {
      forall j | e < j < e + 4 ensures !MarkerAt(file, j) { NoOverlap(file, e, j); }
    }
  }

  /** Both programs on the same file. */
  method VerifyThenOpen(file: seq<byte>) returns (r: Option<Checked>, end: int)
    ensures r.Some? ==> end == r.value.eocd && StopsAt(file, end)
    // what minzip reads from the record is covered by the signature
    ensures r.Some? ==> end + 20 <= r.value.signedLen
  {
    r := CheckFooter(file);
    end := -1;
    if r.Some? {
      end := FindEnd(file);
      VerifierAndMinzipAgree(file);
    }
  }
}
