/**
  Replacing a file by way of a temporary sibling and a rename. Writers run concurrently, a write may stop
  part way, any call may fail, and the process may stop for good between any two steps.
 */
module AtomicFile {
  import opened Wrappers

  /** What one call was asked to do; `tmp` is the random sibling name it drew. */
  datatype Job = Job(path: string, content: string, tmp: string)

  datatype Pc = Fresh | Writing(n: nat) | Written | Renamed | Failed | Done(ok: bool) | Stopped

  type Files = map<string, string>

  /** `renamed` lists the writers whose rename took effect, in order. */
  datatype State = State(files: Files, pcs: seq<Pc>, renamed: seq<nat>)

  datatype Action =
    | MkdirFails(i: nat)
    | OpenFails(i: nat)
    | Open(i: nat)
    | WriteMore(i: nat, n: nat)
    | WriteFails(i: nat)
    | Close(i: nat)
    | Rename(i: nat)
    | RenameFails(i: nat)
    | Return(i: nat)
    | Unlink(i: nat, works: bool)
    | Crash

  predicate Enabled(jobs: seq<Job>, s: State, a: Action)
    requires |s.pcs| == |jobs|
  {
    match a
    case Crash => true
    case WriteMore(i, n) => i < |jobs| && s.pcs[i].Writing? && s.pcs[i].n <= n <= |jobs[i].content|
    case Close(i) => i < |jobs| && s.pcs[i] == Writing(|jobs[i].content|)
    case WriteFails(i) => i < |jobs| && s.pcs[i].Writing?
    case Rename(i) => i < |jobs| && s.pcs[i] == Written && jobs[i].tmp in s.files
    case RenameFails(i) => i < |jobs| && s.pcs[i] == Written
    case Return(i) => i < |jobs| && s.pcs[i] == Renamed
    case Unlink(i, _) => i < |jobs| && s.pcs[i] == Failed
    case _ => a.i < |jobs| && s.pcs[a.i] == Fresh
  }

  function Apply(jobs: seq<Job>, s: State, a: Action): State
    requires |s.pcs| == |jobs| && Enabled(jobs, s, a)
  {
    match a
    case MkdirFails(i) => s.(pcs := s.pcs[i := Done(false)])
    case OpenFails(i) => s.(pcs := s.pcs[i := Failed])
    case Open(i) => s.(files := s.files[jobs[i].tmp := ""], pcs := s.pcs[i := Writing(0)])
    case WriteMore(i, n) => s.(files := s.files[jobs[i].tmp := jobs[i].content[..n]], pcs := s.pcs[i := Writing(n)])
    case WriteFails(i) => s.(pcs := s.pcs[i := Failed])
    case Close(i) => s.(pcs := s.pcs[i := Written])
    case Rename(i) =>
      State((s.files - {jobs[i].tmp})[jobs[i].path := s.files[jobs[i].tmp]], s.pcs[i := Renamed], s.renamed + [i])
    case RenameFails(i) => s.(pcs := s.pcs[i := Failed])
    case Return(i) => s.(pcs := s.pcs[i := Done(true)])
    case Unlink(i, works) =>
      s.(files := if works then s.files - {jobs[i].tmp} else s.files, pcs := s.pcs[i := Done(false)])
    case Crash => s.(pcs := seq(|s.pcs|, i requires 0 <= i < |s.pcs| => if s.pcs[i].Done? then s.pcs[i] else Stopped))
  }

  function Next(jobs: seq<Job>, s: State, a: Action): (t: State)
    requires |s.pcs| == |jobs|
    ensures |t.pcs| == |jobs|
  {
    if Enabled(jobs, s, a) then Apply(jobs, s, a) else s
  }

  function Exec(jobs: seq<Job>, initial: Files, acts: seq<Action>): (s: State)
    ensures |s.pcs| == |jobs|
  {
    if acts == [] then State(initial, seq(|jobs|, i => Fresh), [])
    else Next(jobs, Exec(jobs, initial, acts[..|acts| - 1]), acts[|acts| - 1])
  }

  /** The random suffixes did their work: temporary names differ from each other and from every target. */
  ghost predicate DistinctNames(jobs: seq<Job>) {
    && (forall i, j :: 0 <= i < j < |jobs| ==> jobs[i].tmp != jobs[j].tmp)
    && (forall i, j :: 0 <= i < |jobs| && 0 <= j < |jobs| ==> jobs[i].tmp != jobs[j].path)
  }

  ghost predicate IsTmp(jobs: seq<Job>, name: string) {
    exists i :: 0 <= i < |jobs| && jobs[i].tmp == name
  }

  /** The directory after complete writes of the listed writers, one after the other. */
  function Replaced(jobs: seq<Job>, initial: Files, renamed: seq<nat>): Files {
    if renamed == [] then initial
    else
      var i, before := renamed[|renamed| - 1], Replaced(jobs, initial, renamed[..|renamed| - 1]);
      if i < |jobs| then before[jobs[i].path := jobs[i].content] else before
  }

  ghost predicate HoldsSame(a: Files, b: Files, name: string) {
    (name in a <==> name in b) && (name in a ==> a[name] == b[name])
  }

  ghost predicate SameOffTmp(jobs: seq<Job>, a: Files, b: Files) {
    forall name :: !IsTmp(jobs, name) ==> HoldsSame(a, b, name)
  }

  /** What a writer has on disk at its point of the call. */
  predicate TmpHolds(job: Job, pc: Pc, files: Files) {
    match pc
    case Writing(n) => n <= |job.content| && job.tmp in files && files[job.tmp] == job.content[..n]
    case Written => job.tmp in files && files[job.tmp] == job.content
    case _ => true
  }

  /** A writer is renamed from the rename on, and was if it has reported success; a stopped one may have been. */
  predicate RenamedFits(pc: Pc, renamed: bool) {
    match pc
    case Renamed => renamed
    case Done(ok) => renamed == ok
    case Stopped => true
    case _ => !renamed
  }

  ghost predicate Once(renamed: seq<nat>) {
    forall k, l :: 0 <= k < l < |renamed| ==> renamed[k] != renamed[l]
  }

  ghost predicate Inv(jobs: seq<Job>, initial: Files, s: State) {
    && |s.pcs| == |jobs|
    && SameOffTmp(jobs, s.files, Replaced(jobs, initial, s.renamed))
    && (forall i :: 0 <= i < |jobs| ==> TmpHolds(jobs[i], s.pcs[i], s.files))
    && (forall i :: 0 <= i < |jobs| ==> RenamedFits(s.pcs[i], i in s.renamed))
    && Once(s.renamed)
  }

  lemma SameOffTmpChain(jobs: seq<Job>, a: Files, b: Files, c: Files)
    requires SameOffTmp(jobs, a, b) && SameOffTmp(jobs, b, c)
    ensures SameOffTmp(jobs, a, c)
  {
    forall name | !IsTmp(jobs, name) ensures HoldsSame(a, c, name) {
      assert HoldsSame(a, b, name) && HoldsSame(b, c, name);
    }
  }

  /** A step that touches only the writer's own temporary file disturbs nobody else. */
  lemma OwnTmpOnly(jobs: seq<Job>, a: Files, b: Files, i: nat)
    requires DistinctNames(jobs) && i < |jobs| && forall name :: name != jobs[i].tmp ==> HoldsSame(a, b, name)
    ensures SameOffTmp(jobs, b, a)
    ensures forall j, pc :: 0 <= j < |jobs| && j != i && TmpHolds(jobs[j], pc, a) ==> TmpHolds(jobs[j], pc, b)
  {
    assert IsTmp(jobs, jobs[i].tmp);
    forall name | !IsTmp(jobs, name) ensures HoldsSame(b, a, name) { assert HoldsSame(a, b, name); }
    forall j, pc | 0 <= j < |jobs| && j != i && TmpHolds(jobs[j], pc, a) ensures TmpHolds(jobs[j], pc, b) {
      assert HoldsSame(a, b, jobs[j].tmp);
    }
  }

  lemma TmpStepKeepsInv(jobs: seq<Job>, initial: Files, s: State, a: Action)
    requires DistinctNames(jobs) && Inv(jobs, initial, s) && Enabled(jobs, s, a)
    requires a.Open? || a.WriteMore? || a.Unlink?
    ensures Inv(jobs, initial, Apply(jobs, s, a))
  {
    var t := Apply(jobs, s, a);
    OwnTmpOnly(jobs, s.files, t.files, a.i);
    SameOffTmpChain(jobs, t.files, s.files, Replaced(jobs, initial, s.renamed));
  }

  /** The directory after a rename, outside the temporary files. */
  lemma RenameReplaces(jobs: seq<Job>, initial: Files, s: State, i: nat)
    requires DistinctNames(jobs) && i < |jobs| && jobs[i].tmp in s.files && s.files[jobs[i].tmp] == jobs[i].content
    requires SameOffTmp(jobs, s.files, Replaced(jobs, initial, s.renamed))
    ensures var files := (s.files - {jobs[i].tmp})[jobs[i].path := jobs[i].content];
            SameOffTmp(jobs, files, Replaced(jobs, initial, s.renamed + [i]))
  {
    var files := (s.files - {jobs[i].tmp})[jobs[i].path := jobs[i].content];
    var before := Replaced(jobs, initial, s.renamed);
    assert (s.renamed + [i])[..|s.renamed|] == s.renamed;
    assert Replaced(jobs, initial, s.renamed + [i]) == before[jobs[i].path := jobs[i].content];
    forall name | !IsTmp(jobs, name) ensures HoldsSame(files, before[jobs[i].path := jobs[i].content], name) {
      assert name != jobs[i].tmp && HoldsSame(s.files, before, name);
    }
  }

  lemma RenameKeepsTmps(jobs: seq<Job>, s: State, i: nat, j: nat)
    requires DistinctNames(jobs) && i < |jobs| && j < |jobs| && i != j && |s.pcs| == |jobs|
    requires TmpHolds(jobs[j], s.pcs[j], s.files)
    ensures TmpHolds(jobs[j], s.pcs[j], (s.files - {jobs[i].tmp})[jobs[i].path := jobs[i].content])
  {
  }

  lemma RenameKeepsInv(jobs: seq<Job>, initial: Files, s: State, a: Action)
    requires DistinctNames(jobs) && Inv(jobs, initial, s) && Enabled(jobs, s, a) && a.Rename?
    ensures Inv(jobs, initial, Apply(jobs, s, a))
  {
    var t := Apply(jobs, s, a);
    assert TmpHolds(jobs[a.i], s.pcs[a.i], s.files);
    RenameReplaces(jobs, initial, s, a.i);
    forall j | 0 <= j < |jobs| ensures TmpHolds(jobs[j], t.pcs[j], t.files) {
      if j != a.i { RenameKeepsTmps(jobs, s, a.i, j); }
    }
    RenameFits(s, a.i);
  }

  lemma RenameFits(s: State, i: nat)
    requires i < |s.pcs| && s.pcs[i] == Written && Once(s.renamed)
    requires forall j :: 0 <= j < |s.pcs| ==> RenamedFits(s.pcs[j], j in s.renamed)
    ensures forall j :: 0 <= j < |s.pcs| ==> RenamedFits(s.pcs[i := Renamed][j], j in s.renamed + [i])
    ensures Once(s.renamed + [i])
  {
    assert RenamedFits(s.pcs[i], i in s.renamed);
    forall j | 0 <= j < |s.pcs| ensures RenamedFits(s.pcs[i := Renamed][j], j in s.renamed + [i]) {
      assert RenamedFits(s.pcs[j], j in s.renamed);
    }
  }

  /** Every other step leaves the files alone. */
  lemma PlainStepKeepsInv(jobs: seq<Job>, initial: Files, s: State, a: Action)
    requires Inv(jobs, initial, s) && Enabled(jobs, s, a)
    requires !a.Open? && !a.WriteMore? && !a.Unlink? && !a.Rename?
    ensures Inv(jobs, initial, Apply(jobs, s, a))
  {
    var t := Apply(jobs, s, a);
    forall j | 0 <= j < |jobs|
      ensures TmpHolds(jobs[j], t.pcs[j], t.files) && RenamedFits(t.pcs[j], j in t.renamed)
    {
      assert TmpHolds(jobs[j], s.pcs[j], s.files) && RenamedFits(s.pcs[j], j in s.renamed);
      assert jobs[j].content[..|jobs[j].content|] == jobs[j].content;
    }
  }

  lemma StepKeepsInv(jobs: seq<Job>, initial: Files, s: State, a: Action)
    requires DistinctNames(jobs) && Inv(jobs, initial, s) && Enabled(jobs, s, a)
    ensures Inv(jobs, initial, Apply(jobs, s, a))
  {
    if a.Rename? {
      RenameKeepsInv(jobs, initial, s, a);
    } else if a.Open? || a.WriteMore? || a.Unlink? {
      TmpStepKeepsInv(jobs, initial, s, a);
    } else {
      PlainStepKeepsInv(jobs, initial, s, a);
    }
  }

  lemma {:induction false} ExecInv(jobs: seq<Job>, initial: Files, acts: seq<Action>)
    requires DistinctNames(jobs)
    ensures Inv(jobs, initial, Exec(jobs, initial, acts))
  {
    if acts != [] {
      var front, a := acts[..|acts| - 1], acts[|acts| - 1];
      ExecInv(jobs, initial, front);
      if Enabled(jobs, Exec(jobs, initial, front), a) { StepKeepsInv(jobs, initial, Exec(jobs, initial, front), a); }
    }
  }

  /**
   * At every moment of every run, crashes and failures included, every file that is not a temporary one holds what
   * complete writes of the renamed writers, in rename order, leave there. A writer is renamed at most once, and it is
   * renamed if it has reported success; one that has neither reported nor been stopped by a crash is renamed only
   * between its rename and its report.
   */
  lemma TargetsHoldCompleteWrites(jobs: seq<Job>, initial: Files, acts: seq<Action>)
    requires DistinctNames(jobs)
    ensures var s := Exec(jobs, initial, acts);
            && SameOffTmp(jobs, s.files, Replaced(jobs, initial, s.renamed))
            && Once(s.renamed)
            && (forall i :: 0 <= i < |jobs| && s.pcs[i] == Done(true) ==> i in s.renamed)
            && (forall i :: 0 <= i < |jobs| && i in s.renamed ==> s.pcs[i] in {Renamed, Done(true), Stopped})
  {
    ExecInv(jobs, initial, acts);
    var s := Exec(jobs, initial, acts);
    forall i | 0 <= i < |jobs|
      ensures (s.pcs[i] == Done(true) ==> i in s.renamed)
              && (i in s.renamed ==> s.pcs[i] in {Renamed, Done(true), Stopped})
    {
      assert RenamedFits(s.pcs[i], i in s.renamed);
    }
  }

  /** The last of the renamed writers whose target is `name`. */
  function LastOnto(jobs: seq<Job>, renamed: seq<nat>, name: string): Option<nat> {
    if renamed == [] then None
    else
      var i := renamed[|renamed| - 1];
      if i < |jobs| && jobs[i].path == name then Some(i) else LastOnto(jobs, renamed[..|renamed| - 1], name)
  }

  lemma {:induction false} ReplacedByLast(jobs: seq<Job>, initial: Files, renamed: seq<nat>, name: string)
    ensures var last, files := LastOnto(jobs, renamed, name), Replaced(jobs, initial, renamed);
            if last == None then HoldsSame(files, initial, name)
            else last.value < |jobs| && last.value in renamed && jobs[last.value].path == name
                 && name in files && files[name] == jobs[last.value].content
  {
    if renamed != [] { ReplacedByLast(jobs, initial, renamed[..|renamed| - 1], name); }
  }

  /**
   * A reader of a target always sees its initial content, or the complete content of the last writer renamed onto it.
   */
  lemma ReaderSeesWholeContent(jobs: seq<Job>, initial: Files, acts: seq<Action>, name: string)
    requires DistinctNames(jobs) && !IsTmp(jobs, name)
    ensures var s := Exec(jobs, initial, acts);
            match LastOnto(jobs, s.renamed, name)
            case None => HoldsSame(s.files, initial, name)
            case Some(i) => i < |jobs| && jobs[i].path == name && name in s.files && s.files[name] == jobs[i].content
  {
    ExecInv(jobs, initial, acts);
    var s := Exec(jobs, initial, acts);
    ReplacedByLast(jobs, initial, s.renamed, name);
    assert HoldsSame(s.files, Replaced(jobs, initial, s.renamed), name);
  }

  // ---------- nothing is left behind ----------

  ghost predicate CleanRun(acts: seq<Action>) {
    forall i :: 0 <= i < |acts| ==> acts[i] != Crash && (acts[i].Unlink? ==> acts[i].works)
  }

  ghost predicate Tidy(jobs: seq<Job>, s: State)
    requires |s.pcs| == |jobs|
  {
    forall i :: 0 <= i < |jobs| && (s.pcs[i].Fresh? || s.pcs[i].Renamed? || s.pcs[i].Done?) ==> jobs[i].tmp !in s.files
  }

  lemma StepIsTidy(jobs: seq<Job>, s: State, a: Action)
    requires |s.pcs| == |jobs| && DistinctNames(jobs) && Enabled(jobs, s, a) && Tidy(jobs, s)
    requires a != Crash && (a.Unlink? ==> a.works)
    ensures Tidy(jobs, Apply(jobs, s, a))
  {
  }

  lemma {:induction false} CleanRunIsTidy(jobs: seq<Job>, initial: Files, acts: seq<Action>)
    requires DistinctNames(jobs) && CleanRun(acts)
    requires forall i :: 0 <= i < |jobs| ==> jobs[i].tmp !in initial
    ensures Tidy(jobs, Exec(jobs, initial, acts))
    ensures forall i :: 0 <= i < |jobs| ==> !Exec(jobs, initial, acts).pcs[i].Stopped?
  {
    if acts != [] {
      var front, a := acts[..|acts| - 1], acts[|acts| - 1];
      assert forall i :: 0 <= i < |front| ==> front[i] == acts[i];
      CleanRunIsTidy(jobs, initial, front);
      if Enabled(jobs, Exec(jobs, initial, front), a) { StepIsTidy(jobs, Exec(jobs, initial, front), a); }
    }
  }

  /**
   * When every writer has finished, without a crash and with cleanup working, the directory is exactly what the
   * complete writes leave: no temporary file remains.
   */
  lemma FinishedLeavesNoTemp(jobs: seq<Job>, initial: Files, acts: seq<Action>)
    requires DistinctNames(jobs) && CleanRun(acts)
    requires forall i :: 0 <= i < |jobs| ==> jobs[i].tmp !in initial
    requires forall i :: 0 <= i < |jobs| ==> Exec(jobs, initial, acts).pcs[i].Done?
    ensures Exec(jobs, initial, acts).files == Replaced(jobs, initial, Exec(jobs, initial, acts).renamed)
  {
    var s := Exec(jobs, initial, acts);
    var r := Replaced(jobs, initial, s.renamed);
    ExecInv(jobs, initial, acts);
    CleanRunIsTidy(jobs, initial, acts);
    forall name ensures (name in s.files <==> name in r) && (name in s.files ==> s.files[name] == r[name]) {
      if IsTmp(jobs, name) { ReplacedByLast(jobs, initial, s.renamed, name); }
      else { assert HoldsSame(s.files, r, name); }
    }
  }

  /** A writer that has finished has reported success if and only if its rename took effect. */
  lemma ReportedIffRenamed(jobs: seq<Job>, initial: Files, acts: seq<Action>, i: nat)
    requires DistinctNames(jobs) && i < |jobs| && Exec(jobs, initial, acts).pcs[i].Done?
    ensures i in Exec(jobs, initial, acts).renamed <==> Exec(jobs, initial, acts).pcs[i] == Done(true)
  {
    ExecInv(jobs, initial, acts);
    assert RenamedFits(Exec(jobs, initial, acts).pcs[i], i in Exec(jobs, initial, acts).renamed);
  }

  /** The process stops after the rename of `i` and before its report. */
  ghost predicate CrashCutsReport(jobs: seq<Job>, initial: Files, acts: seq<Action>, n: nat, i: nat)
    requires i < |jobs|
  {
    n < |acts| && acts[n] == Crash && Exec(jobs, initial, acts[..n]).pcs[i] == Renamed
  }

  predicate StoppedRenamed(s: State, i: nat) { i < |s.pcs| && s.pcs[i] == Stopped && i in s.renamed }

  lemma StepStopsRenamed(jobs: seq<Job>, initial: Files, s: State, a: Action, i: nat)
    requires Inv(jobs, initial, s) && i < |jobs|
    ensures StoppedRenamed(Next(jobs, s, a), i) <==> StoppedRenamed(s, i) || (a == Crash && s.pcs[i] == Renamed)
  {
    assert RenamedFits(s.pcs[i], i in s.renamed);
  }

  ghost predicate EverCut(jobs: seq<Job>, initial: Files, acts: seq<Action>, i: nat)
    requires i < |jobs|
  {
    exists n: nat | n < |acts| :: CrashCutsReport(jobs, initial, acts, n, i)
  }

  lemma CutInFront(jobs: seq<Job>, initial: Files, acts: seq<Action>, i: nat)
    requires i < |jobs| && acts != []
    ensures var front, last := acts[..|acts| - 1], |acts| - 1;
      EverCut(jobs, initial, acts, i) <==>
        EverCut(jobs, initial, front, i) || (acts[last] == Crash && Exec(jobs, initial, front).pcs[i] == Renamed)
  {
    var front, last := acts[..|acts| - 1], |acts| - 1;
    forall n: nat | n < last
      ensures CrashCutsReport(jobs, initial, front, n, i) == CrashCutsReport(jobs, initial, acts, n, i)
    {
      assert front[..n] == acts[..n];
    }
    assert CrashCutsReport(jobs, initial, acts, last, i)
      == (acts[last] == Crash && Exec(jobs, initial, front).pcs[i] == Renamed);
  }

  /**
   * In every run a writer that was stopped has been renamed if and only if a crash fell between its rename and its
   * report.
   */
  lemma {:induction false} StoppedRenamedIff(jobs: seq<Job>, initial: Files, acts: seq<Action>, i: nat)
    requires DistinctNames(jobs) && i < |jobs|
    ensures StoppedRenamed(Exec(jobs, initial, acts), i) <==> EverCut(jobs, initial, acts, i)
  {
    if acts != [] {
      var last, front := |acts| - 1, acts[..|acts| - 1];
      StoppedRenamedIff(jobs, initial, front, i);
      ExecInv(jobs, initial, front);
      StepStopsRenamed(jobs, initial, Exec(jobs, initial, front), acts[last], i);
      CutInFront(jobs, initial, acts, i);
    }
  }

  /** A process can stop between a rename and the report of it: the file is replaced, and nobody was told. */
  lemma RenamedButNotReported(job: Job, initial: Files)
    requires job.tmp != job.path
    ensures Reaches(job, initial, State((initial - {job.tmp})[job.path := job.content], [Stopped], [0]))
  {
    ReachesRenamed(job, initial);
    ReachesNext(job, initial, State((initial - {job.tmp})[job.path := job.content], [Renamed], [0]), Crash);
  }

  // ---------- one call ----------

  /** Where one call meets trouble; `writeStopsAt` is how much of the content was written before the write threw. */
  datatype Faults = Faults(mkdir: bool, open: bool, writeStopsAt: Option<nat>, rename: bool, unlink: bool)

  class Directory {
    var files: Files

    constructor (files: Files)
      ensures this.files == files
    {
      this.files := files;
    }

    method WriteFileAtomic(path: string, content: string, suffix: string, faults: Faults) returns (ok: bool)
      modifies this
      ensures ok <==> Succeeds(faults)
      ensures files == AfterCall(Job(path, content, TmpName(path, suffix)), old(files), faults)
      ensures ok <==> faults == Faults(false, false, None, false, faults.unlink)
      ensures ok ==> IsReplaced(old(files), files, path, content, TmpName(path, suffix))
      ensures !ok ==> files - {TmpName(path, suffix)} == old(files) - {TmpName(path, suffix)}
      ensures !ok && !faults.mkdir && !faults.unlink ==> TmpName(path, suffix) !in files
    {
      var tmp := TmpName(path, suffix);
      ghost var initial := files;
      CallReplaces(Job(path, content, tmp), files, faults);
      if faults.mkdir { return false; }
      var threw := faults.open;
      if !threw {
        files := files[tmp := content[..WrittenLength(content, faults)]];
        threw := faults.writeStopsAt.Some?;
        assert files - {tmp} == initial - {tmp};
      }
      if !threw {
        threw := faults.rename;
        if !threw {
          var moved := files[tmp];
          assert moved == content[..|content|] == content;
          files := files - {tmp};
          files := files[path := moved];
        }
      }
      if threw {
        if !faults.unlink { files := files - {tmp}; }
        return false;
      }
      return true;
    }
  }

  function TmpName(path: string, suffix: string): string {
    path + "." + suffix + ".tmp"
  }

  predicate Succeeds(f: Faults) {
    !f.mkdir && !f.open && f.writeStopsAt.None? && !f.rename
  }

  function WrittenLength(content: string, f: Faults): nat {
    if f.writeStopsAt.Some? && f.writeStopsAt.value < |content| then f.writeStopsAt.value else |content|
  }

  /** The directory after one call with nobody else about. */
  function AfterCall(job: Job, files: Files, f: Faults): Files {
    if f.mkdir then files
    else if Succeeds(f) then (files - {job.tmp})[job.path := job.content]
    else if !f.unlink then files - {job.tmp}
    else if f.open then files
    else files[job.tmp := job.content[..WrittenLength(job.content, f)]]
  }

  /** The path holds the content, the temporary file is gone, and no other file has changed. */
  ghost predicate IsReplaced(before: Files, after: Files, path: string, content: string, tmp: string) {
    && path in after && after[path] == content && tmp !in after
    && after - {path, tmp} == before - {path, tmp}
  }

  /** A call without faults replaces the file; any other leaves all files but the temporary one as they were. */
  lemma CallReplaces(job: Job, files: Files, f: Faults)
    requires job.tmp != job.path
    ensures var after := AfterCall(job, files, f);
      if Succeeds(f) then IsReplaced(files, after, job.path, job.content, job.tmp)
      else after - {job.tmp} == files - {job.tmp}
  {
    var after := AfterCall(job, files, f);
    if Succeeds(f) { assert after - {job.path, job.tmp} == files - {job.path, job.tmp}; }
    else { assert after - {job.tmp} == files - {job.tmp}; }
  }

  ghost predicate Reaches(job: Job, initial: Files, s: State) {
    exists acts :: Exec([job], initial, acts) == s
  }

  lemma ReachesNext(job: Job, initial: Files, s: State, a: Action)
    requires Reaches(job, initial, s) && |s.pcs| == 1
    ensures Reaches(job, initial, Next([job], s, a))
  {
    var acts :| Exec([job], initial, acts) == s;
    assert (acts + [a])[..|acts|] == acts;
    assert Exec([job], initial, acts + [a]) == Next([job], s, a);
  }

  lemma ReachesFailed(job: Job, initial: Files, files: Files, works: bool)
    requires Reaches(job, initial, State(files, [Failed], []))
    ensures Reaches(job, initial, State(if works then files - {job.tmp} else files, [Done(false)], []))
  {
    ReachesNext(job, initial, State(files, [Failed], []), Unlink(0, works));
  }

  lemma ReachesWritten(job: Job, initial: Files, n: nat)
    requires n <= |job.content|
    ensures Reaches(job, initial, State(initial[job.tmp := job.content[..n]], [Writing(n)], []))
    ensures n == |job.content| ==> Reaches(job, initial, State(initial[job.tmp := job.content], [Written], []))
  {
    assert Exec([job], initial, []) == State(initial, [Fresh], []);
    var s1 := State(initial[job.tmp := ""], [Writing(0)], []);
    ReachesNext(job, initial, State(initial, [Fresh], []), Open(0));
    ReachesNext(job, initial, s1, WriteMore(0, n));
    assert initial[job.tmp := ""][job.tmp := job.content[..n]] == initial[job.tmp := job.content[..n]];
    if n == |job.content| {
      assert job.content[..n] == job.content;
      ReachesNext(job, initial, State(initial[job.tmp := job.content], [Writing(n)], []), Close(0));
    }
  }

  lemma ReachesRenamed(job: Job, initial: Files)
    requires job.tmp != job.path
    ensures Reaches(job, initial, State((initial - {job.tmp})[job.path := job.content], [Renamed], [0]))
  {
    ReachesWritten(job, initial, |job.content|);
    var s := State(initial[job.tmp := job.content], [Written], []);
    ReachesNext(job, initial, s, Rename(0));
    assert initial[job.tmp := job.content] - {job.tmp} == initial - {job.tmp};
    assert Next([job], s, Rename(0)) == State((initial - {job.tmp})[job.path := job.content], [Renamed], [0]);
  }

  lemma ReachesEarlyFailure(job: Job, initial: Files, f: Faults)
    requires f.mkdir || f.open
    ensures Reaches(job, initial, State(AfterCall(job, initial, f), [Done(false)], []))
  {
    var s0 := State(initial, [Fresh], []);
    assert Exec([job], initial, []) == s0;
    if f.mkdir {
      ReachesNext(job, initial, s0, MkdirFails(0));
    } else {
      ReachesNext(job, initial, s0, OpenFails(0));
      ReachesFailed(job, initial, initial, !f.unlink);
    }
  }

  lemma ReachesLateFailure(job: Job, initial: Files, f: Faults)
    requires !f.mkdir && !f.open && !Succeeds(f)
    ensures Reaches(job, initial, State(AfterCall(job, initial, f), [Done(false)], []))
  {
    var n := WrittenLength(job.content, f);
    var written := initial[job.tmp := job.content[..n]];
    ReachesWritten(job, initial, n);
    if f.writeStopsAt.Some? {
      ReachesNext(job, initial, State(written, [Writing(n)], []), WriteFails(0));
    } else {
      assert job.content[..n] == job.content;
      ReachesNext(job, initial, State(written, [Written], []), RenameFails(0));
    }
    assert written - {job.tmp} == initial - {job.tmp};
    ReachesFailed(job, initial, written, !f.unlink);
  }

  /** One call is a run of the interleaving model, so the run theorems hold of it. */
  lemma CallIsRun(job: Job, initial: Files, f: Faults)
    requires job.tmp != job.path
    ensures Reaches(job, initial,
              State(AfterCall(job, initial, f), [Done(Succeeds(f))], if Succeeds(f) then [0] else []))
  {
    if f.mkdir || f.open {
      ReachesEarlyFailure(job, initial, f);
    } else if !Succeeds(f) {
      ReachesLateFailure(job, initial, f);
    } else {
      ReachesRenamed(job, initial);
      ReachesNext(job, initial, State((initial - {job.tmp})[job.path := job.content], [Renamed], [0]), Return(0));
    }
  }
}
