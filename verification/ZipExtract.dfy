/** Extracting the entries below a directory of a zip archive. */
module ZipExtract {
  import opened Bytes
  import opened ZipNames
  import opened ZipArchive

  const Slash: byte := 0x2f

  predicate EndsInSlash(p: Name) { p != [] && p[|p| - 1] == Slash }

  /** A directory with exactly one slash behind it; the empty path stays empty. */
  function Canonical(zipDir: Name): (p: Name) {
    if zipDir == [] || EndsInSlash(zipDir) then zipDir else zipDir + [Slash]
  }

  function WithSlash(targetDir: Name): (p: Name) { if EndsInSlash(targetDir) then targetDir else targetDir + [Slash] }

  /** Where an entry goes: the target directory, then what follows the directory in the archive. */
  function TargetPath(targetDir: Name, zipDirLen: nat, name: Name): (p: Name)
    requires zipDirLen <= |name|
  {
    WithSlash(targetDir) + name[zipDirLen..]
  }

  /** The path buffer that is kept from entry to entry. */
  class PathHelper {
    const targetDir: Name
    const zipDirLen: nat
    var targetDirLen: nat
    var buf: array<byte>
    var started: bool

    ghost predicate Valid()
      reads this, buf
    {
      && (!started ==> targetDirLen == |targetDir| && buf.Length == 0)
      && (started ==> targetDirLen == |WithSlash(targetDir)| && targetDirLen < buf.Length)
      && (started ==> buf[..targetDirLen] == WithSlash(targetDir))
    }

    constructor (targetDir: Name, zipDirLen: nat)
      ensures Valid() && this.targetDir == targetDir && this.zipDirLen == zipDirLen && fresh(buf) && !started
    {
      this.targetDir, this.zipDirLen, targetDirLen, started := targetDir, zipDirLen, |targetDir|, false;
      buf := new byte[0](_ => 0);
    }

    /** `realloc`: a longer buffer that starts with the old one. */
    method Grow(size: nat)
      requires size >= buf.Length
      modifies this`buf
      ensures fresh(buf) && buf.Length == size && buf[..old(buf.Length)] == old(buf[..])
    {
      var newBuf := new byte[size](_ => 0);
      var i: nat := 0;
      while i < buf.Length
        invariant i <= buf.Length && newBuf[..i] == buf[..i] && buf == old(buf) && buf[..] == old(buf[..])
        modifies newBuf
      {
        newBuf[i] := buf[i];
        i := i + 1;
      }
      buf := newBuf;
    }

    /** Writes a string into the buffer. */
    method Put(at: nat, s: seq<byte>)
      requires at + |s| <= buf.Length
      modifies buf
      ensures buf[..at] == old(buf[..at]) && buf[at..at + |s|] == s
    {
      var i: nat := 0;
      ghost var head := buf[..at];
      while i < |s|
        invariant i <= |s| && buf[..at] == head && buf[at..at + i] == s[..i]
      {
        buf[at + i] := s[i];
        assert buf[at..at + i + 1] == buf[at..at + i] + [s[i]];
        i := i + 1;
      }
    }

    /** Makes sure the buffer has room for `needLen` bytes and starts with the target directory and a slash. */
    method Prepare(needLen: nat)
      requires Valid() && needLen >= targetDirLen + 2
      modifies this`targetDirLen, this`buf, this`started, buf
      ensures Valid() && started && needLen <= buf.Length && (buf == old(buf) || fresh(buf))
    {
      var firstTime := !started;
      if needLen > buf.Length { Grow(needLen * 2); }
      if firstTime {
        Put(0, targetDir);
        assert buf[0..|targetDir|] == buf[..|targetDir|];
        if targetDirLen == 0 || buf[targetDirLen - 1] != Slash {
          Put(targetDirLen, [Slash]);
          assert buf[..targetDirLen + 1] == buf[..targetDirLen] + buf[targetDirLen..targetDirLen + 1];
          targetDirLen := targetDirLen + 1;
        }
        started := true;
      }
    }

    /**
     `targetEntryPath`: only the part behind the target directory is written anew. The result is what stands before the
     NUL.
     */
    method TargetEntryPath(name: Name) returns (path: Name)
      requires Valid() && zipDirLen <= |name|
      modifies this`targetDirLen, this`buf, this`started, buf
      ensures Valid() && started && (buf == old(buf) || fresh(buf))
      ensures path == TargetPath(targetDir, zipDirLen, name)
    {
      var rest := name[zipDirLen..];
      Prepare(targetDirLen + 1 + |rest| + 1);
      Put(targetDirLen, rest);
      var end := targetDirLen + |rest|;
      ghost var done := buf[..end];
      assert done == buf[..targetDirLen] + buf[targetDirLen..end];
      buf[end] := 0;
      assert buf[..end] == done && buf[..targetDirLen] == done[..targetDirLen];
      path := buf[..end];
    }
  }

  /** What a full scan finds: the target paths of the entries from number `i` on that lie below the directory. */
  function PathsBelow(es: seq<ZipEntry>, targetDir: Name, zpath: Name, i: nat): (ps: seq<Name>)
    decreases |es| - i
  {
    if i >= |es| then []
    else (if zpath <= es[i].name then [TargetPath(targetDir, |zpath|, es[i].name)] else [])
         + PathsBelow(es, targetDir, zpath, i + 1)
  }

  /** Nothing follows the first mismatch after a match. */
  lemma {:induction false} NoneAfterMismatch(es: seq<ZipEntry>, targetDir: Name, zpath: Name, seen: nat, i: nat, j: nat)
    requires Sorted(es) && seen < i <= j <= |es| && i < |es| && zpath <= es[seen].name && !(zpath <= es[i].name)
    ensures PathsBelow(es, targetDir, zpath, j) == []
    decreases |es| - j
  {
    if j < |es| {
      NoneAfterMismatch(es, targetDir, zpath, seen, i, j + 1);
      if i < j && zpath <= es[j].name { PrefixConvex(zpath, es[seen].name, es[i].name, es[j].name); }
    }
  }

  /**
   The walk of `mzExtractRecursive` with MZ_EXTRACT_DRY_RUN: the paths handed to the callback are those that a full scan
   would give, although the walk gives up at the first mismatch after a match.
   */
  method ExtractRecursive(es: seq<ZipEntry>, zipDir: Name, targetDir: Name) returns (ok: bool, paths: seq<Name>)
    requires Sorted(es)
    ensures ok <==> (zipDir == [] || zipDir[0] != Slash) && targetDir != [] && targetDir[0] == Slash
    ensures ok ==> paths == PathsBelow(es, targetDir, Canonical(zipDir), 0)
  {
    paths := [];
    if zipDir != [] && zipDir[0] == Slash { return false, []; }
    if targetDir == [] || targetDir[0] != Slash { return false, []; }
    paths := Walk(es, Canonical(zipDir), targetDir);
    ok := true;
  }

  lemma PathsSkip(es: seq<ZipEntry>, targetDir: Name, zpath: Name, i: nat, next: nat)
    requires i < |es| && next == i + 1 && !(zpath <= es[i].name)
    ensures PathsBelow(es, targetDir, zpath, next) == PathsBelow(es, targetDir, zpath, i)
  {
  }

  lemma PathsTake(es: seq<ZipEntry>, targetDir: Name, zpath: Name, i: nat, next: nat, paths: seq<Name>, path: Name,
                  rest: seq<Name>)
      returns (rest2: seq<Name>)
    requires i < |es| && next == i + 1 && zpath <= es[i].name && path == TargetPath(targetDir, |zpath|, es[i].name)
    requires rest == PathsBelow(es, targetDir, zpath, i)
    ensures rest2 == PathsBelow(es, targetDir, zpath, next) && (paths + [path]) + rest2 == paths + rest
  {
    rest2 := PathsBelow(es, targetDir, zpath, next);
    assert rest == [path] + rest2;
  }

  /** The loop over the entries. */
  method Walk(es: seq<ZipEntry>, zpath: Name, targetDir: Name) returns (paths: seq<Name>)
    requires Sorted(es)
    ensures paths == PathsBelow(es, targetDir, zpath, 0)
  {
    paths := [];
    var helper := new PathHelper(targetDir, |zpath|);
    var i: nat, seenMatch := 0, false;
    ghost var seen: nat, goal := 0, PathsBelow(es, targetDir, zpath, 0);
    ghost var rest := goal;
    while i < |es|
      invariant i <= |es| && helper.Valid() && fresh(helper) && fresh(helper.buf)
      invariant helper.targetDir == targetDir && helper.zipDirLen == |zpath|
      invariant rest == PathsBelow(es, targetDir, zpath, i) && paths + rest == goal
      invariant seenMatch ==> seen < i && zpath <= es[seen].name
    {
      if |es[i].name| < |zpath| || es[i].name[..|zpath|] != zpath {
        if seenMatch {
          NoneAfterMismatch(es, targetDir, zpath, seen, i, i);
          break;
        }
        PathsSkip(es, targetDir, zpath, i, i + 1);
      } else {
        seenMatch, seen := true, i;
        var path := helper.TargetEntryPath(es[i].name);
        rest := PathsTake(es, targetDir, zpath, i, i + 1, paths, path, rest);
        paths := paths + [path];
      }
      i := i + 1;
    }
    assert paths + [] == paths;
  }
}
