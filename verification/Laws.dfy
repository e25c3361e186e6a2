/** The laws that the model asks of bzip2, zlib and the patched files can be met: simple instances that meet them. */
module Laws {
  import opened Bytes
  import opened Digest
  import opened FreeCache
  import BsdiffFormat
  import ImageFormat
  import ImageChunks
  import ImageEdit
  import ZipNamesakes
  import Zipdiff
  import ApplyPatch

  /** Every byte behind a one, and a zero at the end. */
  function Pack(x: seq<byte>): (s: seq<byte>) { if x == [] then [0] else [1, x[0]] + Pack(x[1..]) }

  /** The data of the packed stream at the start of `s`, and how long the stream is. */
  function Unpack(s: seq<byte>): (r: Option<(seq<byte>, nat)>)
    ensures r.Some? ==> r.value.1 <= |s|
  {
    if s == [] then None
    else if s[0] == 0 then Some(([], 1))
    else if |s| < 2 then None
    else Longer(s[1], Unpack(s[2..]))
  }

  /** One byte more in front. */
  function Longer(b: byte, r: Option<(seq<byte>, nat)>): (q: Option<(seq<byte>, nat)>) {
    if r.None? then None else Some(([b] + r.value.0, r.value.1 + 2))
  }

  lemma UnpackNext(s: seq<byte>, b: byte, rest: seq<byte>, r: Option<(seq<byte>, nat)>)
    requires |s| >= 2 && s[0] == 1 && s[1] == b && s[2..] == rest && Unpack(rest) == r
    ensures Unpack(s) == Longer(b, r)
  {
  }

  lemma {:induction false} UnpackOfPack(x: seq<byte>, tail: seq<byte>)
    ensures Unpack(Pack(x) + tail) == Some((x, |Pack(x)|))
  {
    var s := Pack(x) + tail;
    if x == [] {
      assert s[0] == 0;
    } else {
      var rest := Pack(x[1..]) + tail;
      UnpackOfPack(x[1..], tail);
      assert s == [1, x[0]] + rest;
      UnpackNext(s, x[0], rest, Some((x[1..], |Pack(x[1..])|)));
      assert [x[0]] + x[1..] == x;
    }
  }

  lemma {:induction false} UnpackDelimits(s: seq<byte>)
    requires Unpack(s).Some?
    ensures Unpack(s[..Unpack(s).value.1]) == Unpack(s)
  {
    if s[0] != 0 {
      UnpackDelimits(s[2..]);
      var n := Unpack(s).value.1;
      assert s[..n][2..] == s[2..][..n - 2];
    }
  }

  function Data(s: seq<byte>): (r: Option<seq<byte>>) { if Unpack(s).Some? then Some(Unpack(s).value.0) else None }

  lemma {:induction false} PackDoubles(x: seq<byte>)
    ensures |Pack(x)| == 2 * |x| + 1
  {
    if x != [] { PackDoubles(x[1..]); }
  }

  lemma Bzip2LawsHold()
    ensures BsdiffFormat.Bzip2(Pack, Data).Lawful() && BsdiffFormat.Bzip2(Pack, Data).Modest()
  {
    forall x ensures |Pack(x)| <= 2 * |x| + 600 { PackDoubles(x); }
    forall x, tail ensures Data(Pack(x) + tail) == Some(x) { UnpackOfPack(x, tail); }
  }

  function Deflate(params: ImageFormat.Params, x: seq<byte>): (s: seq<byte>) { Pack(x) }

  lemma ZlibLawsHold()
    ensures ImageChunks.Zlib(Unpack, Deflate).Lawful()
    ensures forall params, x :: Unpack(Deflate(params, x)) == Some((x, |Pack(x)|))
  {
    forall x | Unpack(x).Some? ensures Unpack(x[..Unpack(x).value.1]) == Unpack(x) { UnpackDelimits(x); }
    forall params, x ensures Unpack(Deflate(params, x)) == Some((x, |Pack(x)|)) {
      UnpackOfPack(x, []);
      assert Pack(x) + [] == Pack(x);
    }
  }

  // Two entries of one name

  function Packer(): (z: ImageChunks.Zlib) { ImageChunks.Zlib(Unpack, Deflate) }

  /** The chunk of an entry "a" at `at` that holds one byte. */
  function OneByte(at: nat, b: byte): (c: ImageChunks.Chunk) {
    ImageChunks.Chunk(ImageChunks.Deflate, at, 1, -1, [b], 3, Some("a"), ImageChunks.NoParams)
  }

  lemma OneByteRead(img: seq<byte>, at: nat, b: byte)
    requires at + 3 <= |img| && img[at..at + 3] == [1, b, 0]
    ensures Zipdiff.EntryChunk(Packer(), img, Zipdiff.Entry(at, 3, 1, "a")) == Zipdiff.Chunks([OneByte(at, b)])
    ensures forall params :: ImageEdit.Reproduces(Packer(), img, OneByte(at, b), params)
  {
    UnpackNext([1, b, 0], b, [0], Some(([], 1)));
    assert [b] + [] == [b];
    assert Pack([b]) == [1, b] + Pack([]) == [1, b, 0];
  }

  /**
   The first of two entries of one name differs from the source entry, the second does not: the first loses its source.
   */
  lemma TwinsLoseSource()
    ensures var e := Zipdiff.Entry(0, 3, 1, "a");
            var ses, tes, simg, timg := [e], [e, e.(offset := 3)], [1, 1, 0], [1, 2, 0, 1, 1, 0];
            && Zipdiff.ZipSplit(Packer(), simg, ses, 0).Chunks? && Zipdiff.ZipSplit(Packer(), timg, tes, 0).Chunks?
            && Zipdiff.TwinsLose(Packer(), simg, ses, timg, tes)
  {
    var z, e := Packer(), Zipdiff.Entry(0, 3, 1, "a");
    var ses, tes, simg: seq<byte>, timg: seq<byte> := [e], [e, e.(offset := 3)], [1, 1, 0], [1, 2, 0, 1, 1, 0];
    assert simg[0..3] == [1, 1, 0] && timg[0..3] == [1, 2, 0] && timg[3..6] == [1, 1, 0];
    OneByteRead(simg, 0, 1);
    OneByteRead(timg, 0, 2);
    OneByteRead(timg, 3, 1);
    var a, b, c := OneByte(0, 1), OneByte(0, 2), OneByte(3, 1);
    EntryFirst(z, simg, ses, 0, a, []);
    EntryFirst(z, timg, tes[1..], 3, c, []);
    EntryFirst(z, timg, tes, 0, b, [c]);
    TwinsRead(z, simg, ses, timg, tes, a, b, c);
  }

  lemma TwinsRead(z: ImageChunks.Zlib, simg: seq<byte>, ses: seq<Zipdiff.Entry>, timg: seq<byte>,
                  tes: seq<Zipdiff.Entry>, a: ImageChunks.Chunk, b: ImageChunks.Chunk, c: ImageChunks.Chunk)
    requires Zipdiff.ZipSplit(z, simg, ses, 0) == Zipdiff.Chunks([a] + []) &&
             Zipdiff.ZipSplit(z, timg, tes, 0) == Zipdiff.Chunks([b] + [c])
    requires ZipNamesakes.Carries(a, "a") && ZipNamesakes.Carries(b, "a") && ZipNamesakes.Carries(c, "a")
    requires ImageEdit.StaysDeflate(z, timg, b, simg, a) && !ImageEdit.StaysDeflate(z, timg, c, simg, a)
    ensures Zipdiff.TwinsLose(z, simg, ses, timg, tes)
  {
    var whole := ImageChunks.NormalChunk(0, |simg|);
    TwinsEdited(z, timg, b, c, simg, a, whole);
    assert Zipdiff.SourceChunks(z, simg, ses) == [whole, a] && [b] + [c] == [b, c];
  }

  lemma EntryFirst(z: ImageChunks.Zlib, img: seq<byte>, entries: seq<Zipdiff.Entry>, pos: nat, c: ImageChunks.Chunk,
                   rest: seq<ImageChunks.Chunk>)
    requires pos < |img| && entries != [] && entries[0].offset == pos && pos + entries[0].compressed <= |img|
    requires Zipdiff.EntryChunk(z, img, entries[0]) == Zipdiff.Chunks([c])
    requires Zipdiff.ZipSplit(z, img, entries[1..], pos + entries[0].compressed) == Zipdiff.Chunks(rest)
    ensures Zipdiff.ZipSplit(z, img, entries, pos) == Zipdiff.Chunks([c] + rest)
  {
  }

  lemma TwinsEdited(z: ImageChunks.Zlib, timg: seq<byte>, b: ImageChunks.Chunk, c: ImageChunks.Chunk, simg: seq<byte>,
                    a: ImageChunks.Chunk, whole: ImageChunks.Chunk)
    requires whole.kind == ImageChunks.Normal && ZipNamesakes.Carries(a, "a") && ZipNamesakes.Carries(b, "a") &&
             ZipNamesakes.Carries(c, "a")
    requires ImageEdit.StaysDeflate(z, timg, b, simg, a) && !ImageEdit.StaysDeflate(z, timg, c, simg, a)
    ensures Zipdiff.LosesSource(z, timg, [b, c], simg, [whole, a])
  {
    var stays, name, ts, ss := Zipdiff.StayTest(z, timg, simg), "a", [b] + [c], [whole] + [a];
    TwoNamesakes(b, c, name);
    TwoNamesakes(whole, a, name);
    ZipNamesakes.LosesOnly(stays, [b, c], a);
    assert !stays([b, c][1], a) && forall i :: 0 <= i < 1 ==> stays([b, c][i], a);
    assert ZipNamesakes.LosesLast(stays, ZipNamesakes.Namesakes(ts, name), ZipNamesakes.Namesakes(ss, name));
    assert ts == [b, c] && ss == [whole, a];
  }

  lemma TwoNamesakes(b: ImageChunks.Chunk, c: ImageChunks.Chunk, name: string)
    requires ZipNamesakes.Carries(c, name)
    ensures ZipNamesakes.Namesakes([b] + [c], name) == if ZipNamesakes.Carries(b, name) then [b, c] else [c]
  {
    ZipNamesakes.NamesakesCons(b, [c], name);
    ZipNamesakes.NamesakesCons(c, [], name);
    assert [c] + [] == [c];
  }

  function Sha1Of(b: byte): (h: seq<byte>)
    ensures |h| == Size && h[0] == b
  {
    seq(Size, _ => b)
  }

  /** Three hashes: of the old file, of the new file, of everything else. */
  function Hash(c: seq<byte>): (h: seq<byte>) { Sha1Of(if c == [0] then 0 else if c == [1] then 1 else 2) }

  function Unmasked(c: seq<byte>): (r: Option<seq<byte>>) { Some(c) }

  function NewContent(i: nat, c: seq<byte>): (r: Option<seq<byte>>) { Some([1]) }

  /** A patch from the file with the byte 0 to the file with the byte 1. */
  function Update(): (env: ApplyPatch.Env) {
    ApplyPatch.Env("/system/file", "/system/file", Sha1Of(1), [ToHex(Sha1Of(0))], Hash, Unmasked, NewContent)
  }

  lemma NotInCache(p: Path)
    requires |p| > 1 && p[1] == 's'
    ensures !Expendable(p)
  {
    forall d, name | 0 <= d < |Dirs| ensures InDir(Dirs[d], name) != p { assert InDir(Dirs[d], name)[1] == 'c'; }
  }

  lemma UpdatePaths(env: ApplyPatch.Env)
    requires env.source == env.target == "/system/file"
    ensures env.source != SavedFile && env.source != env.Out() && !Expendable(env.source)
  {
    assert env.source[1] == 's' && SavedFile[1] == 'c';
    assert |env.Out()| > |env.target|;
    NotInCache(env.source);
  }

  lemma UpdateMatches(sha1s: seq<string>)
    requires sha1s == [ToHex(Sha1Of(0))]
    ensures FirstMatch(Hash([0]), sha1s) >= 0
  {
    ParsedOfHex(Sha1Of(0));
    assert Parsed(sha1s[0]) == Some(Hash([0]));
  }

  lemma UpdateSane(env: ApplyPatch.Env)
    requires env.hash == Hash && env.mask == Unmasked && env.patch == NewContent && env.targetSha1 == Hash([1])
    requires env.source == env.target && env.source != SavedFile && env.source != env.Out()
    ensures env.Sane()
  {
    forall i: nat, c ensures env.Makes(i, c) { }
  }

  lemma UpdateLawful(env: ApplyPatch.Env)
    requires env.hash == Hash && env.mask == Unmasked && env.patch == NewContent && env.targetSha1 == Hash([1])
    requires env.source == env.target == "/system/file" && env.patchSha1s == [ToHex(Sha1Of(0))]
    ensures env.Lawful() && ApplyPatch.Usable(env, Some([0]))
  {
    UpdatePaths(env);
    UpdateMatches(env.patchSha1s);
    UpdateSane(env);
  }

  lemma PatchLawsHold()
    ensures Update().Lawful() && ApplyPatch.Usable(Update(), Some([0]))
  {
    UpdateLawful(Update());
  }
}
