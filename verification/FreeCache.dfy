/** What may be deleted to free space on the cache partition. */
module FreeCache {
  import opened Bytes

  type Path = string

  /** The backup copy of a file that is being patched. */
  const SavedFile: Path := "/cache/saved.file"

  const Dirs: seq<Path> := ["/cache", "/cache/recovery/otatest"]

  /** The path of a name in a directory. */
  function InDir(dir: Path, name: string): (p: Path) { dir + "/" + name }

  /** A name that a directory can contain. */
  predicate IsName(name: string) { '/' !in name }

  /** A file that may be deleted: it stands right in one of the directories and is not the backup copy. */
  ghost predicate Expendable(p: Path) {
    p != SavedFile && exists d, name :: 0 <= d < |Dirs| && IsName(name) && p == InDir(Dirs[d], name)
  }

  /** What can be seen of the file system: the names in each directory, the regular files, the files that are open. */
  datatype View = View(listing: seq<seq<string>>, regular: set<Path>, open: set<Path>)

  ghost predicate ValidView(v: View) {
    |v.listing| == |Dirs| && forall d, k :: 0 <= d < |Dirs| && 0 <= k < |v.listing[d]| ==> IsName(v.listing[d][k])
  }

  /** A name in the list is that of an expendable regular file; `EliminateOpenFiles` blanks out the open ones. */
  ghost predicate MayGo(v: View, n: Option<Path>) {
    n.Some? ==> Expendable(n.value) && n.value in v.regular && n.value !in v.open
  }

  /** A path that the directory walk lists. */
  predicate Listed(v: View, p: Path) {
    exists d, k :: 0 <= d < |Dirs| && d < |v.listing| && 0 <= k < |v.listing[d]| && p == InDir(Dirs[d], v.listing[d][k])
  }

  /** The path is among the first `k` names of directory `d`, or in one of the directories before it. */
  predicate Passed(v: View, d: nat, k: nat, p: Path)
    requires d <= |Dirs| == |v.listing| && (d < |Dirs| ==> k <= |v.listing[d]|)
  {
    || (exists e, j :: 0 <= e < d && 0 <= j < |v.listing[e]| && p == InDir(Dirs[e], v.listing[e][j]))
    || (d < |Dirs| && exists j :: 0 <= j < k && p == InDir(Dirs[d], v.listing[d][j]))
  }

  predicate Regular(v: View, p: Path) { p in v.regular && p != SavedFile }

  /** The list holds exactly the regular files, the backup copy left out, that were passed. */
  ghost predicate Found(v: View, d: nat, k: nat, found: seq<Path>)
    requires d <= |Dirs| == |v.listing| && (d < |Dirs| ==> k <= |v.listing[d]|)
  {
    forall p :: p in found <==> Passed(v, d, k, p) && Regular(v, p)
  }

  /**
   `FindExpendableFiles`: exactly the regular files of the two directories, less the backup copy and the open ones.
   */
  method FindExpendableFiles(v: View) returns (names: seq<Option<Path>>)
    requires ValidView(v)
    ensures forall p :: Some(p) in names <==> Listed(v, p) && Regular(v, p) && p !in v.open
    ensures forall i :: 0 <= i < |names| ==> MayGo(v, names[i])
  {
    var found: seq<Path> := [];
    var d: nat := 0;
    while d < |Dirs|
      invariant d <= |Dirs| && Found(v, d, 0, found)
    {
      var k: nat := 0;
      while k < |v.listing[d]|
        invariant k <= |v.listing[d]| && Found(v, d, k, found)
      {
        var path := InDir(Dirs[d], v.listing[d][k]);
        ghost var was := found;
        if path != SavedFile && path in v.regular { found := found + [path]; }
        FoundNext(v, d, k, was, found, path);
        k := k + 1;
      }
      forall p ensures Passed(v, d + 1, 0, p) <==> Passed(v, d, |v.listing[d]|, p) { PassedDir(v, d, p); }
      d := d + 1;
    }
    names := EliminateOpenFiles(v, found);
    forall p ensures Some(p) in names <==> Listed(v, p) && Regular(v, p) && p !in v.open {
      assert Passed(v, d, 0, p) <==> Listed(v, p);
      if p in found && p !in v.open {
        var i :| 0 <= i < |found| && found[i] == p;
        assert names[i] == Some(p);
      }
    }
    forall i | 0 <= i < |names| ensures MayGo(v, names[i]) {
      if names[i].Some? {
        assert names[i] in names;
        ListedExpendable(v, names[i].value);
      }
    }
  }

  lemma FoundNext(v: View, d: nat, k: nat, was: seq<Path>, found: seq<Path>, path: Path)
    requires d < |Dirs| == |v.listing| && k < |v.listing[d]| && path == InDir(Dirs[d], v.listing[d][k]) &&
             Found(v, d, k, was)
    requires found == if Regular(v, path) then was + [path] else was
    ensures Found(v, d, k + 1, found)
  {
    forall p ensures p in found <==> Passed(v, d, k + 1, p) && Regular(v, p) { PassedNext(v, d, k, p); }
  }

  lemma ListedExpendable(v: View, p: Path)
    requires ValidView(v) && Listed(v, p) && p != SavedFile
    ensures Expendable(p)
  {
  }

  lemma PassedNext(v: View, d: nat, k: nat, p: Path)
    requires d < |Dirs| == |v.listing| && k < |v.listing[d]|
    ensures Passed(v, d, k + 1, p) <==> Passed(v, d, k, p) || p == InDir(Dirs[d], v.listing[d][k])
  {
  }

  lemma PassedDir(v: View, d: nat, p: Path)
    requires d < |Dirs| == |v.listing|
    ensures Passed(v, d + 1, 0, p) <==> Passed(v, d, |v.listing[d]|, p)
  {
  }

  /** Blanks out the files that some process has open. */
  method EliminateOpenFiles(v: View, files: seq<Path>) returns (names: seq<Option<Path>>)
    ensures |names| == |files|
    ensures forall i :: 0 <= i < |files| ==> names[i] == if files[i] in v.open then None else Some(files[i])
  {
    names := [];
    while |names| < |files|
      invariant |names| <= |files|
      invariant forall i :: 0 <= i < |names| ==> names[i] == if files[i] in v.open then None else Some(files[i])
    {
      var f := files[|names|];
      names := names + [if f in v.open then None else Some(f)];
    }
  }

  /** What is left of the files when some are deleted. */
  function Without(files: set<Path>, deleted: seq<Path>): (left: set<Path>) { set p | p in files && p !in deleted }

  /** Every deletion came when space was still short. */
  ghost predicate Needed(needed: nat, free: set<Path> -> nat, files: set<Path>, deleted: seq<Path>) {
    forall k :: 0 <= k < |deleted| ==> free(Without(files, deleted[..k])) < needed
  }

  lemma OneMoreNeeded(needed: nat, free: set<Path> -> nat, files: set<Path>, deleted: seq<Path>, p: Path)
    requires Needed(needed, free, files, deleted) && free(Without(files, deleted)) < needed
    ensures Needed(needed, free, files, deleted + [p]) && Without(files, deleted + [p]) == Without(files, deleted) - {p}
  {
    var more := deleted + [p];
    forall k | 0 <= k < |more| ensures free(Without(files, more[..k])) < needed {
      assert more[..k] == deleted[..k];
      if k == |deleted| { assert deleted[..k] == deleted; }
    }
  }

  /**
   `MakeFreeSpaceOnCache`: deletes expendable files one by one, each only because less than `needed` bytes are free,
   until so many are. `free` tells how much is free when the given files are there.
   */
  method MakeFreeSpaceOnCache(v: View, needed: nat, free: set<Path> -> nat, files: set<Path>)
      returns (ok: bool, left: set<Path>, ghost deleted: seq<Path>)
    requires ValidView(v)
    ensures left == Without(files, deleted) && Needed(needed, free, files, deleted)
    ensures forall p :: p in deleted ==> Listed(v, p) && MayGo(v, Some(p))
    ensures ok <==> free(left) >= needed
    ensures !ok ==> forall p :: Listed(v, p) && Regular(v, p) && p !in v.open ==> p in deleted
  {
    left, deleted := files, [];
    assert Without(files, []) == files;
    var freeNow := free(files);
    if freeNow >= needed { return true, files, []; }
    var names := FindExpendableFiles(v);
    if |names| == 0 { return false, files, []; }
    var i: nat := 0;
    while i < |names| && freeNow < needed
      invariant i <= |names| && freeNow == free(left) && left == Without(files, deleted) &&
                Needed(needed, free, files, deleted)
      invariant forall p :: p in deleted <==> Some(p) in names[..i]
    {
      assert names[..i + 1] == names[..i] + [names[i]];
      if names[i].Some? {
        OneMoreNeeded(needed, free, files, deleted, names[i].value);
        left, deleted := left - {names[i].value}, deleted + [names[i].value];
        freeNow := free(left);
      }
      i := i + 1;
    }
    forall p | p in deleted
      ensures Listed(v, p) && MayGo(v, Some(p))
    {
      assert Some(p) in names;
      ListedExpendable(v, p);
    }
    ok := freeNow >= needed;
    if !ok { assert names[..i] == names; }
  }
}
