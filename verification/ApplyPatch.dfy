/**
 `applypatch` on regular files, step by step: every step changes the file system at most once, and the power may fail
 between any two steps.
 */
module ApplyPatch {
  import opened Bytes
  import opened Digest
  import opened FreeCache

  type Content = seq<byte>
  type Files = map<Path, Content>

  /**
   The command line, and what the run relies on: the hash, the masking of retouched entries that every load does, and
   what the i-th patch makes of a content.
   */
  datatype Env = Env(source: Path, target: Path, targetSha1: seq<byte>, patchSha1s: seq<string>,
                     hash: Content -> seq<byte>, mask: Content -> Option<Content>,
                     patch: (nat, Content) -> Option<Content>) {

    function Out(): (p: Path) { target + ".patch" }

    /** The `i`-th patch makes the target out of the content. */
    predicate Makes(i: nat, c: Content) { patch(i, c).Some? && hash(patch(i, c).value) == targetSha1 }

    /**
     Masking twice is masking once, and the target is in masked form. The i-th patch makes the target out of any content
     with the i-th hash. The paths do not get in each other's way; source and target may be the same.
     */
    ghost predicate Sane() {
      && (forall c :: mask(c).Some? ==> mask(mask(c).value) == mask(c))
      && (forall c :: hash(c) == targetSha1 ==> mask(c) == Some(c))
      && (forall c :: FirstMatch(hash(c), patchSha1s) >= 0 ==> Makes(FirstMatch(hash(c), patchSha1s), c))
      && source != SavedFile && target != SavedFile && source != Out()
    }

    /** And the source is not one of the files that may be deleted to free space. */
    ghost predicate Lawful() { Sane() && !Expendable(source) }
  }

  /** `LoadFileContents`, when nothing goes wrong with the disk. */
  function Load(env: Env, files: Files, p: Path): (c: Option<Content>) {
    if p in files then env.mask(files[p]) else None
  }

  function PatchFor(env: Env, c: Content): (i: int) { FirstMatch(env.hash(c), env.patchSha1s) }

  /** There is a patch for the content. */
  predicate Usable(env: Env, c: Option<Content>) { c.Some? && PatchFor(env, c.value) >= 0 }

  /** The target is there. */
  predicate Patched(env: Env, files: Files) {
    Load(env, files, env.target).Some? && env.hash(Load(env, files, env.target).value) == env.targetSha1
  }

  // The program

  /**
   What a run keeps in memory: the masked data to patch, where they came from, and the two flags of `GenerateTarget`.
   */
  datatype Run = Run(fromSource: bool, data: Content, retry: nat, madeCopy: bool)

  datatype Pc =
    | Idle
    | Ready(r: Run)
    | MakingSpace(r: Run)
    | Saving(r: Run, done: nat)
    | Saved(r: Run)
    | Opening(r: Run)
    | Writing(r: Run, done: nat)
    | Failed(r: Run)
    | Installing(r: Run)
    | Renamed(r: Run)
    | Ended(code: int)

  datatype State = State(files: Files, pc: Pc)

  /** What comes next. The arguments are the choices of the outside world. */
  datatype Action =
    | Begin(targetLoads: bool, sourceLoads: bool, copyLoads: bool)
    | Measure(enough: bool)
    | Delete(path: Path)
    | OpenSaved
    | Save(upTo: nat)
    | CloseSaved
    | UnlinkSource(works: bool)
    | OpenOut
    | Write(upTo: nat)
    | CloseOut
    | Rename
    | UnlinkSaved(works: bool)
    | Break(junk: Option<Content>)
    | Retry(works: bool)
    | Error
    | Crash

  /** `applypatch` up to the call of `GenerateTarget`: it only reads. */
  function Begun(env: Env, files: Files, targetLoads: bool, sourceLoads: bool, copyLoads: bool): (pc: Pc) {
    var t := if targetLoads then Load(env, files, env.target) else None;
    if t.Some? && env.hash(t.value) == env.targetSha1 then Ended(0)
    else
      var s := if t.Some? && env.source == env.target then t
               else if sourceLoads then Load(env, files, env.source) else None;
      if Usable(env, s) then Ready(Run(true, s.value, 1, false))
      else
        var c := if copyLoads then Load(env, files, SavedFile) else None;
        if Usable(env, c) then Ready(Run(false, c.value, 1, false)) else Ended(1)
  }

  /** What the patch makes of the data. */
  function Output(env: Env, r: Run): (c: Option<Content>) {
    if PatchFor(env, r.data) < 0 then None else env.patch(PatchFor(env, r.data), r.data)
  }

  ghost predicate Enabled(env: Env, s: State, a: Action) {
    match a
    case Begin(_, _, _) => s.pc.Idle?
    case Measure(enough) => s.pc.Ready? && (enough ==> s.pc.r.retry > 0)
    case Delete(p) => s.pc.MakingSpace? && Expendable(p)
    case OpenSaved => s.pc.MakingSpace?
    case Save(n) => s.pc.Saving? && s.pc.done < n <= |s.pc.r.data|
    case CloseSaved => s.pc.Saving? && s.pc.done == |s.pc.r.data|
    case UnlinkSource(_) => s.pc.Saved?
    case OpenOut => s.pc.Opening? && Output(env, s.pc.r).Some?
    case Write(n) => s.pc.Writing? && Output(env, s.pc.r).Some? && s.pc.done < n <= |Output(env, s.pc.r).value|
    case CloseOut => s.pc.Writing? && Output(env, s.pc.r).Some? && s.pc.done == |Output(env, s.pc.r).value|
    case Rename => s.pc.Installing? && env.Out() in s.files
    case UnlinkSaved(_) => s.pc.Renamed?
    case Break(_) => s.pc.Opening? || s.pc.Writing?
    case Retry(_) => s.pc.Failed?
    case Error => !s.pc.Idle? && !s.pc.Renamed? && !s.pc.Ended?
    case Crash => true
  }

  ghost function After(env: Env, s: State, a: Action): (t: State)
    requires Enabled(env, s, a)
  {
    var files := s.files;
    match a
    case Begin(t, c, b) => State(files, Begun(env, files, t, c, b))
    case Measure(enough) =>
      var r := s.pc.r;
      State(files, if enough then Opening(r)
                   else if r.fromSource then MakingSpace(r.(retry := 0))
                   else Opening(r.(retry := 0)))
    case Delete(p) => State(files - {p}, s.pc)
    case OpenSaved => State(files[SavedFile := []], Saving(s.pc.r, 0))
    case Save(n) => State(files[SavedFile := s.pc.r.data[..n]], Saving(s.pc.r, n))
    case CloseSaved => State(files, Saved(s.pc.r.(madeCopy := true)))
    case UnlinkSource(works) => State(if works then files - {env.source} else files, Opening(s.pc.r))
    case OpenOut => State(files[env.Out() := []], Writing(s.pc.r, 0))
    case Write(n) => State(files[env.Out() := Output(env, s.pc.r).value[..n]], Writing(s.pc.r, n))
    case CloseOut =>
      State(files, if env.hash(Output(env, s.pc.r).value) == env.targetSha1 then Installing(s.pc.r) else Ended(1))
    case Rename => State(files[env.target := files[env.Out()]] - {env.Out()}, Renamed(s.pc.r))
    case UnlinkSaved(works) => State(if s.pc.r.madeCopy && works then files - {SavedFile} else files, Ended(0))
    case Break(junk) => State(if junk.Some? then files[env.Out() := junk.value] else files, Failed(s.pc.r))
    case Retry(works) =>
      if s.pc.r.retry == 0 then State(files, Ended(1))
      else State(if works then files - {env.Out()} else files, Ready(s.pc.r.(retry := 0)))
    case Error => State(files, Ended(1))
    case Crash => State(files, Idle)
  }

  // Safety

  /** The target can still be made: it is there already, or the source or the backup copy can be patched. */
  predicate Recoverable(env: Env, files: Files) {
    Patched(env, files) || Usable(env, Load(env, files, env.source)) || Usable(env, Load(env, files, SavedFile))
  }

  /** The target path holds what it held at first, nothing, or bytes with the target hash. */
  predicate TargetClean(env: Env, orig: Option<Content>, files: Files) {
    env.target in files ==> orig == Some(files[env.target]) || env.hash(files[env.target]) == env.targetSha1
  }

  predicate Safe(env: Env, orig: Option<Content>, files: Files) {
    Recoverable(env, files) && TargetClean(env, orig, files)
  }

  predicate HasData(env: Env, r: Run) {
    PatchFor(env, r.data) >= 0 && env.mask(r.data) == Some(r.data) && (r.madeCopy ==> r.retry == 0)
  }

  /** The data are also on disk: in the source, or in the backup copy. */
  predicate Held(env: Env, files: Files, r: Run) {
    HasData(env, r) && Load(env, files, if r.fromSource && !r.madeCopy then env.source else SavedFile) == Some(r.data)
  }

  /** What holds at each point of the program. */
  predicate Consistent(env: Env, s: State) {
    match s.pc
    case Idle => true
    case Ready(r) => Held(env, s.files, r) && !r.madeCopy
    case MakingSpace(r) => Held(env, s.files, r) && r.fromSource && !r.madeCopy && r.retry == 0
    case Saving(r, done) =>
      && Held(env, s.files, r) && r.fromSource && !r.madeCopy && r.retry == 0
      && done <= |r.data| && SavedFile in s.files && s.files[SavedFile] == r.data[..done]
    case Saved(r) => Held(env, s.files, r) && r.fromSource && r.madeCopy
    case Opening(r) => Held(env, s.files, r)
    case Failed(r) => Held(env, s.files, r)
    case Writing(r, done) =>
      && Held(env, s.files, r) && Output(env, r).Some? && done <= |Output(env, r).value|
      && env.Out() in s.files && s.files[env.Out()] == Output(env, r).value[..done]
    case Installing(r) =>
      Held(env, s.files, r) && env.Out() in s.files && env.hash(s.files[env.Out()]) == env.targetSha1
    case Renamed(_) => Patched(env, s.files)
    case Ended(code) => code == 0 ==> Patched(env, s.files)
  }

  predicate Inv(env: Env, orig: Option<Content>, s: State) { Safe(env, orig, s.files) && Consistent(env, s) }

  lemma PathsDiffer(env: Env)
    requires env.Lawful()
    ensures env.Out() != env.target && env.Out() != SavedFile
  {
    var o := env.Out();
    assert o[|o| - 1] == 'h' && SavedFile[|SavedFile| - 1] == 'e';
  }

  lemma BeginKeeps(env: Env, orig: Option<Content>, s: State, a: Action)
    requires env.Lawful() && Inv(env, orig, s) && Enabled(env, s, a) && a.Begin?
    ensures Inv(env, orig, After(env, s, a))
  {
  }

  /** Deleting, making the backup copy, unlinking the source. */
  lemma BackupKeeps(env: Env, orig: Option<Content>, s: State, a: Action)
    requires env.Lawful() && Inv(env, orig, s) && Enabled(env, s, a)
    requires a.Delete? || a.OpenSaved? || a.Save? || a.CloseSaved? || a.UnlinkSource?
    ensures Inv(env, orig, After(env, s, a))
  {
    if a.CloseSaved? { assert s.pc.r.data[..s.pc.done] == s.pc.r.data; }
  }

  /** Writing the new file next to the target. */
  lemma OutputKeeps(env: Env, orig: Option<Content>, s: State, a: Action)
    requires env.Lawful() && Inv(env, orig, s) && Enabled(env, s, a)
    requires a.OpenOut? || a.Write? || a.CloseOut? || a.Break? || a.Retry? || a.Measure?
    ensures Inv(env, orig, After(env, s, a))
  {
    PathsDiffer(env);
    if a.CloseOut? { assert Output(env, s.pc.r).value[..s.pc.done] == Output(env, s.pc.r).value; }
  }

  lemma RenameKeeps(env: Env, orig: Option<Content>, s: State, a: Action)
    requires env.Lawful() && Inv(env, orig, s) && Enabled(env, s, a) && a.Rename?
    ensures Inv(env, orig, After(env, s, a))
  {
    PathsDiffer(env);
    assert After(env, s, a).files[env.target] == s.files[env.Out()];
  }

  lemma UnlinkKeeps(env: Env, orig: Option<Content>, s: State, a: Action)
    requires env.Lawful() && Inv(env, orig, s) && Enabled(env, s, a) && a.UnlinkSaved?
    ensures Inv(env, orig, After(env, s, a))
  {
  }

  lemma StepKeeps(env: Env, orig: Option<Content>, s: State, a: Action)
    requires env.Lawful() && Inv(env, orig, s) && Enabled(env, s, a)
    ensures Inv(env, orig, After(env, s, a))
  {
    if a.Begin? { BeginKeeps(env, orig, s, a); }
    else if a.Delete? || a.OpenSaved? || a.Save? || a.CloseSaved? || a.UnlinkSource? { BackupKeeps(env, orig, s, a); }
    else if a.OpenOut? || a.Write? || a.CloseOut? || a.Break? || a.Retry? || a.Measure? {
      OutputKeeps(env, orig, s, a);
    }
    else if a.Rename? { RenameKeeps(env, orig, s, a); }
    else if a.UnlinkSaved? { UnlinkKeeps(env, orig, s, a); }
  }

  /** The actions lead from `s` to `t`. */
  ghost predicate Leads(env: Env, s: State, acts: seq<Action>, t: State)
    decreases |acts|
  {
    if acts == [] then s == t else Enabled(env, s, acts[0]) && Leads(env, After(env, s, acts[0]), acts[1..], t)
  }

  /**
   Wherever a run, or any number of interrupted runs, has got to, nothing is lost; and exit code 0 means the target is
   there.
   */
  lemma {:induction false} CrashSafe(env: Env, orig: Option<Content>, s: State, acts: seq<Action>, t: State)
    requires env.Lawful() && Inv(env, orig, s) && Leads(env, s, acts, t)
    ensures Inv(env, orig, t)
    decreases |acts|
  {
    if acts != [] {
      StepKeeps(env, orig, s, acts[0]);
      CrashSafe(env, orig, After(env, s, acts[0]), acts[1..], t);
    }
  }

  // Completion

  /** Nothing fails and the power stays on. */
  predicate Smooth(a: Action) {
    match a
    case Begin(t, c, b) => t && c && b
    case Break(_) => false
    case Retry(_) => false
    case Error => false
    case Crash => false
    case _ => true
  }

  /** The run has not failed. */
  predicate Fine(pc: Pc) { !pc.Failed? && (pc.Ended? ==> pc.code == 0) }

  function Stage(pc: Pc): (n: nat) {
    match pc
    case Idle => 10
    case Ready(_) => 9
    case MakingSpace(_) => 8
    case Saving(_, _) => 7
    case Saved(_) => 6
    case Opening(_) => 5
    case Writing(_, _) => 4
    case Failed(_) => 3
    case Installing(_) => 2
    case Renamed(_) => 1
    case Ended(_) => 0
  }

  /** How much is left to do within a stage. */
  function Left(env: Env, s: State): (n: int) {
    match s.pc
    case MakingSpace(_) => |s.files|
    case Saving(r, done) => |r.data| - done
    case Writing(r, done) => (if Output(env, r).Some? then |Output(env, r).value| else 0) - done
    case _ => 0
  }

  /** A smooth step does not fail. */
  lemma SmoothStepFine(env: Env, orig: Option<Content>, s: State, a: Action)
    requires env.Lawful() && Inv(env, orig, s) && Fine(s.pc) && Enabled(env, s, a) && Smooth(a)
    ensures Fine(After(env, s, a).pc)
  {
    if a.CloseOut? { assert PatchFor(env, s.pc.r.data) >= 0; }
  }

  /** A smooth step goes on to a later stage or leaves less to do in this one. */
  lemma SmoothStepLater(env: Env, s: State, a: Action)
    requires Consistent(env, s) && Fine(s.pc) && Enabled(env, s, a) && Smooth(a) && (a.Delete? ==> a.path in s.files)
    ensures var t := After(env, s, a);
            Stage(t.pc) < Stage(s.pc) || (Stage(t.pc) == Stage(s.pc) && 0 <= Left(env, t) < Left(env, s))
  {
    if a.Delete? { FewerFiles(s.files, a.path); }
  }

  lemma FewerFiles(files: Files, p: Path)
    requires p in files
    ensures |files - {p}| < |files|
  {
    var rest := files - {p};
    assert files.Keys == rest.Keys + {p};
    assert |files.Keys| == |rest.Keys| + 1;
  }

  /** A run that has not ended can go on smoothly. */
  lemma SmoothGoesOn(env: Env, orig: Option<Content>, s: State) returns (a: Action)
    requires env.Lawful() && Inv(env, orig, s) && Fine(s.pc) && !s.pc.Ended?
    ensures Enabled(env, s, a) && Smooth(a) && !a.Delete?
  {
    match s.pc
    case Idle => a := Begin(true, true, true);
    case Ready(_) => a := Measure(false);
    case MakingSpace(_) => a := OpenSaved;
    case Saving(r, done) => a := if done < |r.data| then Save(|r.data|) else CloseSaved;
    case Saved(_) => a := UnlinkSource(true);
    case Opening(_) => a := OpenOut;
    case Writing(r, done) => a := if done < |Output(env, r).value| then Write(|Output(env, r).value|) else CloseOut;
    case Installing(_) => a := Rename;
    case Renamed(_) => a := UnlinkSaved(true);
  }

  predicate AllSmooth(acts: seq<Action>) { forall i :: 0 <= i < |acts| ==> Smooth(acts[i]) }

  lemma {:induction false} SmoothStaysFine(env: Env, orig: Option<Content>, s: State, acts: seq<Action>, t: State)
    requires env.Lawful() && Inv(env, orig, s) && Fine(s.pc) && AllSmooth(acts) && Leads(env, s, acts, t)
    ensures Inv(env, orig, t) && Fine(t.pc)
    decreases |acts|
  {
    if acts != [] {
      SmoothStepFine(env, orig, s, acts[0]);
      StepKeeps(env, orig, s, acts[0]);
      SmoothStaysFine(env, orig, After(env, s, acts[0]), acts[1..], t);
    }
  }

  /** Any number of interrupted runs, and then one in which nothing fails: the target is patched. */
  lemma InterruptedThenComplete(env: Env, orig: Option<Content>, s: State, before: seq<Action>, t: State,
                                acts: seq<Action>, u: State)
    requires env.Lawful() && Inv(env, orig, s) && Leads(env, s, before, t) && t.pc.Idle?
    requires AllSmooth(acts) && Leads(env, t, acts, u) && u.pc.Ended?
    ensures u.pc.code == 0 && Patched(env, u.files) && TargetClean(env, orig, u.files)
  {
    CrashSafe(env, orig, s, before, t);
    SmoothStaysFine(env, orig, t, acts, u);
    FineEnd(env, orig, u);
  }

  lemma FineEnd(env: Env, orig: Option<Content>, u: State)
    requires Inv(env, orig, u) && Fine(u.pc) && u.pc.Ended?
    ensures u.pc.code == 0 && Patched(env, u.files) && TargetClean(env, orig, u.files)
  {
  }

  /** Such a run exists from every point where a run can start. */
  lemma {:induction false} CompletionExists(env: Env, orig: Option<Content>, s: State)
      returns (acts: seq<Action>, t: State)
    requires env.Lawful() && Inv(env, orig, s) && Fine(s.pc)
    ensures AllSmooth(acts) && Leads(env, s, acts, t) && t.pc.Ended?
    decreases Stage(s.pc), Left(env, s)
  {
    if s.pc.Ended? {
      acts, t := [], s;
    } else {
      var a := SmoothGoesOn(env, orig, s);
      StepKeeps(env, orig, s, a);
      SmoothStepFine(env, orig, s, a);
      SmoothStepLater(env, s, a);
      var rest;
      rest, t := CompletionExists(env, orig, After(env, s, a));
      acts := [a] + rest;
      assert acts[1..] == rest;
    }
  }

  /**
   `applypatch_check` on the source, when nothing goes wrong with the disk: the source matches, or the backup copy does.
   */
  predicate CheckPasses(env: Env, files: Files) {
    var s := Load(env, files, env.source);
    (s.Some? && (env.patchSha1s == [] || PatchFor(env, s.value) >= 0)) || Usable(env, Load(env, files, SavedFile))
  }

  /** After any interruptions the check still passes, unless the work is done. */
  lemma CheckAfterCrash(env: Env, orig: Option<Content>, s: State, acts: seq<Action>, t: State)
    requires env.Lawful() && Inv(env, orig, s) && Leads(env, s, acts, t)
    ensures CheckPasses(env, t.files) || Patched(env, t.files)
  {
    CrashSafe(env, orig, s, acts, t);
  }

  /** Every run starts by loading the target. */
  predicate TargetLoads(acts: seq<Action>) { forall i :: 0 <= i < |acts| && acts[i].Begin? ==> acts[i].targetLoads }

  /**
   On a patched target nothing is changed, however often it is run and interrupted, and every run ends with exit code 0.
   */
  lemma {:induction false} AgainDoesNothing(env: Env, s: State, acts: seq<Action>, t: State)
    requires Patched(env, s.files) && (s.pc == Idle || s.pc == Ended(0)) && TargetLoads(acts) && Leads(env, s, acts, t)
    ensures t.files == s.files && (t.pc == Idle || t.pc == Ended(0))
    decreases |acts|
  {
    if acts != [] { AgainDoesNothing(env, After(env, s, acts[0]), acts[1..], t); }
  }

  // A source that may be deleted

  lemma {:induction false} LeadsConcat(env: Env, s: State, a: seq<Action>, t: State, b: seq<Action>, u: State)
    requires Leads(env, s, a, t) && Leads(env, t, b, u)
    ensures Leads(env, s, a + b, u)
    decreases |a|
  {
    if a == [] {
      assert a + b == b;
    } else {
      LeadsConcat(env, After(env, s, a[0]), a[1..], t, b, u);
      assert (a + b)[1..] == a[1..] + b;
    }
  }

  lemma LeadsOne(env: Env, s: State, a: Action)
    requires Enabled(env, s, a)
    ensures Leads(env, s, [a], After(env, s, a))
  {
    assert [a][1..] == [];
  }

  /** The source of a run is deleted to make space for its own backup copy. */
  lemma SourceDeleted(env: Env, s: State) returns (acts: seq<Action>, t: State)
    requires Expendable(env.source) && s.pc.Idle? && Usable(env, Load(env, s.files, env.source)) &&
             !Patched(env, s.files)
    ensures Leads(env, s, acts, t) && t.files == s.files - {env.source} && t.pc.MakingSpace?
  {
    var s1 := After(env, s, Begin(true, true, true));
    var s2 := After(env, s1, Measure(false));
    t := After(env, s2, Delete(env.source));
    LeadsOne(env, s, Begin(true, true, true));
    LeadsOne(env, s1, Measure(false));
    LeadsOne(env, s2, Delete(env.source));
    acts := [Begin(true, true, true)] + [Measure(false)] + [Delete(env.source)];
    LeadsConcat(env, s, [Begin(true, true, true)], s1, [Measure(false)], s2);
    LeadsConcat(env, s, [Begin(true, true, true)] + [Measure(false)], s2, [Delete(env.source)], t);
  }

  /** An empty file is no source for any patch. */
  predicate NoPatchForNothing(env: Env) { !Usable(env, env.mask([])) }

  /**
   A source that stands right in one of the cache directories can be lost: it is deleted to make space for its own
   backup copy. If there was an older copy to go back to, it is truncated next. Then the power fails.
   */
  lemma ExpendableSourceLost(env: Env, s: State) returns (acts: seq<Action>, t: State)
    requires Expendable(env.source) && env.target != SavedFile && s.pc.Idle?
    requires Usable(env, Load(env, s.files, env.source)) && !Patched(env, s.files)
    requires Usable(env, Load(env, s.files, SavedFile)) ==> NoPatchForNothing(env)
    ensures Leads(env, s, acts, t) && !Recoverable(env, t.files)
  {
    acts, t := SourceDeleted(env, s);
    if Usable(env, Load(env, s.files, SavedFile)) {
      var u := After(env, t, OpenSaved);
      LeadsOne(env, t, OpenSaved);
      LeadsConcat(env, s, acts, t, [OpenSaved], u);
      acts, t := acts + [OpenSaved], u;
    }
  }

  /** The target can be made after every run, however it was interrupted. */
  ghost predicate NeverLost(env: Env, s: State) {
    forall acts, t :: Leads(env, s, acts, t) ==> Recoverable(env, t.files)
  }

  /** For a run on a source that can be patched, nothing is ever lost exactly when the source is not expendable. */
  lemma NeverLostIff(env: Env, s: State)
    requires env.Sane() && s.pc.Idle? && Usable(env, Load(env, s.files, env.source)) && !Patched(env, s.files)
    requires Usable(env, Load(env, s.files, SavedFile)) ==> NoPatchForNothing(env)
    ensures NeverLost(env, s) <==> !Expendable(env.source)
  {
    if Expendable(env.source) {
      var acts, t := ExpendableSourceLost(env, s);
    } else {
      var orig := if env.target in s.files then Some(s.files[env.target]) else None;
      forall acts, t | Leads(env, s, acts, t) ensures Recoverable(env, t.files) { CrashSafe(env, orig, s, acts, t); }
    }
  }
}
