/** `applypatch` as it is written, with its retry loop: every run of it is a run of the step machine. */
module ApplyPatchRun {
  import opened Bytes
  import opened Digest
  import opened FreeCache
  import opened ApplyPatch

  lemma {:induction false} LeadsMore(env: Env, s: State, acts: seq<Action>, t: State, a: Action)
    requires Leads(env, s, acts, t) && Enabled(env, t, a)
    ensures Leads(env, s, acts + [a], After(env, t, a))
    decreases |acts|
  {
    if acts == [] {
      assert [] + [a] == [a] && [a][1..] == [];
    } else {
      LeadsMore(env, After(env, s, acts[0]), acts[1..], t, a);
      assert (acts + [a])[1..] == acts[1..] + [a];
    }
  }

  /** What the outside world does: whether each operation works, and how much of a write gets through at a time. */
  class World {
    /** In a kind world every operation works, though space may be short. */
    const kind: bool
    var choices: seq<nat>

    constructor (kind: bool, choices: seq<nat>)
      ensures this.kind == kind && this.choices == choices
    {
      this.kind, this.choices := kind, choices;
    }

    method Flip() returns (b: bool)
      modifies this
      ensures kind ==> b
    {
      if kind { return true; }
      if choices == [] { return false; }
      b, choices := choices[0] > 0, choices[1..];
    }

    /** A measurement, which goes either way in any world. */
    method Choose() returns (b: bool)
      modifies this
    {
      if choices == [] { return false; }
      b, choices := choices[0] > 0, choices[1..];
    }

    /** A number from `lo + 1` to `hi`. */
    method Advance(lo: nat, hi: nat) returns (n: nat)
      requires lo < hi
      modifies this
      ensures lo < n <= hi
    {
      if choices == [] { return hi; }
      n := if lo + 1 + choices[0] <= hi then lo + 1 + choices[0] else hi;
      choices := choices[1..];
    }
  }

  /** The file system, and the steps that were taken on it. */
  class Disk {
    const env: Env
    var files: Files
    ghost var first: State
    ghost var acts: seq<Action>
    ghost var pc: Pc
    /** Nothing has failed so far. */
    ghost var smooth: bool

    ghost predicate Traced()
      reads this
    {
      Leads(env, first, acts, State(files, pc)) && (smooth ==> AllSmooth(acts))
    }

    constructor (env: Env, files: Files)
      ensures Traced() && this.env == env && this.files == files && pc == Idle && first == State(files, Idle) && smooth
    {
      this.env, this.files, pc, acts, first, smooth := env, files, Idle, [], State(files, Idle), true;
    }

    /** Takes one step. */
    method Do(ghost a: Action, newFiles: Files)
      requires Traced() && Enabled(env, State(files, pc), a) && After(env, State(files, pc), a).files == newFiles
      modifies this`files, this`acts, this`pc, this`smooth
      ensures Traced() && files == newFiles && pc == After(env, old(State(files, pc)), a).pc &&
              smooth == (old(smooth) && Smooth(a))
    {
      LeadsMore(env, first, acts, State(files, pc), a);
      ghost var t := After(env, State(files, pc), a);
      files, acts, pc, smooth := newFiles, acts + [a], t.pc, smooth && Smooth(a);
    }
  }

  /** Deletes expendable files until there is room; in a kind world there is room when all of them are gone. */
  method MakeSpace(d: Disk, names: seq<Option<Path>>, w: World) returns (ok: bool)
    requires d.Traced() && d.pc.MakingSpace?
    requires forall i :: 0 <= i < |names| && names[i].Some? ==> Expendable(names[i].value)
    modifies d`files, d`acts, d`pc, d`smooth, w
    ensures d.Traced() && d.pc == old(d.pc) && d.smooth == old(d.smooth) && (w.kind ==> ok)
  {
    var i: nat := 0;
    ok := w.Choose();
    while i < |names| && !ok
      invariant d.Traced() && d.pc == old(d.pc) && d.smooth == old(d.smooth)
    {
      if names[i].Some? {
        d.Do(Delete(names[i].value), d.files - {names[i].value});
        ok := w.Choose();
      }
      i := i + 1;
    }
    if !ok { ok := w.Flip(); }
  }

  /** `SaveFileContents` on the backup copy. */
  method SaveCopy(d: Disk, ghost r: Run, data: Content, w: World) returns (ok: bool)
    requires d.Traced() && d.pc == MakingSpace(r) && r.data == data
    modifies d`files, d`acts, d`pc, d`smooth, w
    ensures d.Traced() && (if ok then d.pc == Saved(r.(madeCopy := true)) else d.pc == Ended(1))
    ensures w.kind && old(d.smooth) ==> ok && d.smooth
  {
    ok := w.Flip();
    if !ok {
      d.Do(Error, d.files);
      return;
    }
    d.Do(OpenSaved, d.files[SavedFile := []]);
    var done: nat := 0;
    while done < |data|
      invariant done <= |data| && d.Traced() && d.pc == Saving(r, done) && (w.kind && old(d.smooth) ==> d.smooth)
    {
      ok := w.Flip();
      if !ok {
        d.Do(Error, d.files);
        return;
      }
      var n := w.Advance(done, |data|);
      d.Do(Save(n), d.files[SavedFile := data[..n]]);
      done := n;
    }
    d.Do(CloseSaved, d.files);
    ok := true;
  }

  /** How applying the patch to the new file ended. */
  datatype Applied = Whole | Failure | Refused

  /** Opens the new file and lets the patch write it. */
  method WriteNew(d: Disk, ghost r: Run, data: Content, w: World) returns (o: Applied)
    requires d.Traced() && d.pc == Opening(r) && r.data == data
    modifies d`files, d`acts, d`pc, d`smooth, w
    ensures d.Traced()
    ensures match o
            case Whole =>
              Output(d.env, r).Some? && d.pc == Writing(r, |Output(d.env, r).value|) && d.env.Out() in d.files
            case Failure => d.pc == Failed(r)
            case Refused => d.pc == Ended(1)
    ensures w.kind && Output(d.env, r).Some? && old(d.smooth) ==> o == Whole && d.smooth
  {
    var opens := w.Flip();
    if !opens {
      d.Do(Error, d.files);
      return Refused;
    }
    var i := PatchFor(d.env, data);
    var output := if i < 0 then None else d.env.patch(i, data);
    if output.None? {
      d.Do(Break(Some([])), d.files[d.env.Out() := []]);
      return Failure;
    }
    d.Do(OpenOut, d.files[d.env.Out() := []]);
    var done: nat := 0;
    while done < |output.value|
      invariant done <= |output.value| && d.Traced() && d.pc == Writing(r, done) && output == Output(d.env, r) &&
                d.env.Out() in d.files
      invariant w.kind && old(d.smooth) ==> d.smooth
    {
      var ok := w.Flip();
      if !ok {
        d.Do(Break(None), d.files);
        return Failure;
      }
      var n := w.Advance(done, |output.value|);
      d.Do(Write(n), d.files[d.env.Out() := output.value[..n]]);
      done := n;
    }
    o := Whole;
  }

  /** The hash check, the rename, and the end of the backup copy. */
  method Install(d: Disk, ghost r: Run, output: Content, madeCopy: bool, w: World) returns (code: int)
    requires d.Traced() && Output(d.env, r) == Some(output) && d.pc == Writing(r, |output|) && r.madeCopy == madeCopy &&
             d.env.Out() in d.files
    modifies d`files, d`acts, d`pc, d`smooth, w
    ensures d.Traced() && d.pc == Ended(code) && (w.kind && old(d.smooth) ==> d.smooth)
  {
    d.Do(CloseOut, d.files);
    if d.env.hash(output) != d.env.targetSha1 { return 1; }
    var ok := w.Flip();
    if !ok {
      d.Do(Error, d.files);
      return 1;
    }
    d.Do(Rename, d.files[d.env.target := d.files[d.env.Out()]] - {d.env.Out()});
    var works := w.Flip();
    d.Do(UnlinkSaved(works), if madeCopy && works then d.files - {SavedFile} else d.files);
    code := 0;
  }

  /** Copies the source to the cache and deletes it, because there is not enough space for source and target. */
  method MoveSource(d: Disk, ghost r: Run, data: Content, names: seq<Option<Path>>, w: World) returns (ok: bool)
    requires d.Traced() && d.pc == MakingSpace(r) && r.data == data
    requires forall i :: 0 <= i < |names| && names[i].Some? ==> Expendable(names[i].value)
    modifies d`files, d`acts, d`pc, d`smooth, w
    ensures d.Traced() && (if ok then d.pc == Opening(r.(madeCopy := true)) else d.pc == Ended(1))
    ensures w.kind && old(d.smooth) ==> ok && d.smooth
  {
    ok := MakeSpace(d, names, w);
    if !ok {
      d.Do(Error, d.files);
      return;
    }
    ok := SaveCopy(d, r, data, w);
    if !ok { return; }
    var works := w.Flip();
    d.Do(UnlinkSource(works), if works then d.files - {d.env.source} else d.files);
  }

  /** There is a patch for the data, and it can be applied to them. */
  predicate Patchable(env: Env, data: Content) {
    PatchFor(env, data) >= 0 && env.patch(PatchFor(env, data), data).Some?
  }

  /** `GenerateTarget`. */
  method GenerateTarget(d: Disk, fromSource: bool, data: Content, names: seq<Option<Path>>, w: World)
      returns (code: int)
    requires d.Traced() && d.pc == Ready(Run(fromSource, data, 1, false))
    requires forall i :: 0 <= i < |names| && names[i].Some? ==> Expendable(names[i].value)
    modifies d`files, d`acts, d`pc, d`smooth, w
    ensures d.Traced() && d.pc == Ended(code)
    ensures w.kind && Patchable(d.env, data) && old(d.smooth) ==> d.smooth
  {
    var retry: nat := 1;
    while true
      invariant retry <= 1 && d.Traced() && d.pc == Ready(Run(fromSource, data, retry, false))
      invariant w.kind && Patchable(d.env, data) && old(d.smooth) ==> d.smooth
      decreases retry
    {
      var enough, madeCopy := false, false;
      if retry > 0 { enough := w.Choose(); }
      d.Do(Measure(enough), d.files);
      if !enough { retry := 0; }
      if !enough && fromSource {
        var ok := MoveSource(d, Run(fromSource, data, retry, false), data, names, w);
        if !ok { return 1; }
        madeCopy := true;
      }
      ghost var r := Run(fromSource, data, retry, madeCopy);
      var o := WriteNew(d, r, data, w);
      match o {
        case Refused => return 1;
        case Whole =>
          code := Install(d, r, d.env.patch(PatchFor(d.env, data), data).value, madeCopy, w);
          return;
        case Failure =>
          var works := w.Flip();
          if retry == 0 {
            d.Do(Retry(works), d.files);
            return 1;
          }
          d.Do(Retry(works), if works then d.files - {d.env.Out()} else d.files);
          retry := 0;
      }
    }
  }

  /**
   `applypatch` up to the call of `GenerateTarget`: what to patch, and whether it is the source or the backup copy.
   */
  method ChooseData(d: Disk, w: World) returns (code: int, choice: Option<(bool, Content)>)
    requires d.Traced() && d.pc == Idle
    modifies d`files, d`acts, d`pc, d`smooth, w
    ensures d.Traced() && (w.kind && old(d.smooth) ==> d.smooth)
    ensures choice.None? ==> d.pc == Ended(code)
    ensures choice.Some? ==>
              d.pc == Ready(Run(choice.value.0, choice.value.1, 1, false)) && PatchFor(d.env, choice.value.1) >= 0
  {
    var env, files := d.env, d.files;
    var targetLoads := w.Flip();
    var sourceLoads := w.Flip();
    var copyLoads := w.Flip();
    d.Do(Begin(targetLoads, sourceLoads, copyLoads), files);
    var target := if targetLoads then Load(env, files, env.target) else None;
    if target.Some? && env.hash(target.value) == env.targetSha1 { return 0, None; }
    var source := target;
    if target.None? || env.source != env.target {
      source := if sourceLoads then Load(env, files, env.source) else None;
    }
    if Usable(env, source) { return 0, Some((true, source.value)); }
    var copy := if copyLoads then Load(env, files, SavedFile) else None;
    if !Usable(env, copy) { return 1, None; }
    return 0, Some((false, copy.value));
  }

  lemma LawfulPatchable(env: Env, data: Content)
    requires env.Lawful() && PatchFor(env, data) >= 0
    ensures Patchable(env, data)
  {
    assert env.Makes(FirstMatch(env.hash(data), env.patchSha1s), data);
  }

  /** `applypatch`. */
  method Applypatch(d: Disk, v: View, w: World) returns (code: int)
    requires d.Traced() && d.pc == Idle && ValidView(v)
    modifies d`files, d`acts, d`pc, d`smooth, w
    ensures d.Traced() && d.pc == Ended(code)
    ensures w.kind && d.env.Lawful() && old(d.smooth) ==> d.smooth
  {
    var choice;
    code, choice := ChooseData(d, w);
    if choice.None? { return; }
    var (fromSource, data) := choice.value;
    if d.env.Lawful() { LawfulPatchable(d.env, data); }
    var names := FindExpendableFiles(v);
    assert forall i :: 0 <= i < |names| && names[i].Some? ==> MayGo(v, names[i]);
    code := GenerateTarget(d, fromSource, data, names, w);
  }

  /**
   So whatever happens during a run, nothing is lost, and exit code 0 means that the target is there; in a kind world it
   is.
   */
  method SafeRun(env: Env, files: Files, v: View, w: World, ghost orig: Option<Content>)
      returns (code: int, after: Files)
    requires env.Lawful() && Safe(env, orig, files) && ValidView(v)
    modifies w
    ensures Safe(env, orig, after) && (code == 0 ==> Patched(env, after)) && (w.kind ==> code == 0)
  {
    var d := new Disk(env, files);
    code := Applypatch(d, v, w);
    RunEnd(env, orig, files, d.acts, State(d.files, d.pc), code, w.kind);
    after := d.files;
  }

  lemma RunEnd(env: Env, orig: Option<Content>, files: Files, acts: seq<Action>, t: State, code: int, smooth: bool)
    requires env.Lawful() && Safe(env, orig, files) && Leads(env, State(files, Idle), acts, t) && t.pc == Ended(code)
    requires smooth ==> AllSmooth(acts)
    ensures Safe(env, orig, t.files) && (code == 0 ==> Patched(env, t.files)) && (smooth ==> code == 0)
  {
    var s := State(files, Idle);
    CrashSafe(env, orig, s, acts, t);
    if smooth { SmoothEnd(env, orig, s, acts, t, code); }
  }

  lemma SmoothEnd(env: Env, orig: Option<Content>, s: State, acts: seq<Action>, t: State, code: int)
    requires env.Lawful() && Inv(env, orig, s) && s.pc.Idle? && Leads(env, s, acts, t) && t.pc == Ended(code)
    requires AllSmooth(acts)
    ensures code == 0
  {
    SmoothStaysFine(env, orig, s, acts, t);
  }
}
