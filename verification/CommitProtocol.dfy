/**
 How a repair replaces files (src/repair.rs): everything is written to temp files beside the
 originals, verified there, and only then renamed into place.  The protocol is a state
 machine over the file system; cancellation and errors may happen at every step.

 `RunIsSafe`: in every state of every run, each final path holds its old content until it is
 replaced, and from then on content that passed verification; nothing else changes.
 `SafeExactly` says for which names that is so.
 */
module CommitProtocol {
  import opened FileSystems

  /** The files to replace, the files to keep, and the verification of the content for each file to replace. */
  datatype Job = Job(finals: seq<Path>, kept: set<Path>, accepts: (nat, Content) -> bool)

  datatype Reason = WasCancelled | SetupFailed | ComputeFailed | WriteFailed | VerifyFailed

  datatype Phase =
    | Setup(n: nat)                     // n temps created
    | Compute | Writing | LastCheck
    | Verifying(n: nat)                 // n temps accepted
    | Renaming(n: nat)                  // n temps renamed
    | Cleanup(n: nat, reason: Reason)   // n of the created temps dealt with; nothing was replaced
    | AfterFailedRename(n: nat, next: nat)  // rename n failed; temps before next dealt with
    | Committed
    | Aborted(reason: Reason)
    | RenameFailed(n: nat)

  datatype State = State(phase: Phase, fs: FileSystem, created: nat)

  // ----- the steps

  ghost predicate Init(job: Job, fs0: FileSystem, s: State) {
    s == State(Setup(0), fs0, 0)
  }

  function Temp(job: Job, i: nat): Path
    requires i < |job.finals|
  {
    TempPathFor(job.finals[i])
  }

  /** A temp is created or overwritten; nothing else. */
  ghost predicate TempWritten(job: Job, i: nat, fs: FileSystem, fs': FileSystem)
    requires i < |job.finals|
  {
    Temp(job, i) in fs' && fs' == fs[Temp(job, i) := fs'[Temp(job, i)]]
  }

  ghost predicate StepSetup(job: Job, s: State, s': State) {
    && s.phase.Setup?
    && if s.phase.n < |job.finals| then
         // the temp is created and seeded; or creating it fails, after it may have been created
         || (TempWritten(job, s.phase.n, s.fs, s'.fs) && s'.phase == Setup(s.phase.n + 1)
             && s'.created == s.phase.n + 1)
         || (TempWritten(job, s.phase.n, s.fs, s'.fs) && s'.phase == Cleanup(0, SetupFailed)
             && s'.created == s.phase.n + 1)
         || (s' == s.(phase := Cleanup(0, SetupFailed)))
       else s' == s.(phase := Cleanup(0, WasCancelled)) || s' == s.(phase := Compute)
  }

  ghost predicate StepCompute(job: Job, s: State, s': State) {
    && s.phase.Compute?
    && (s' == s.(phase := Cleanup(0, WasCancelled)) || s' == s.(phase := Cleanup(0, ComputeFailed))
        || s' == s.(phase := Writing))
  }

  ghost predicate StepWrite(job: Job, s: State, s': State) {
    && s.phase.Writing?
    && (|| (exists i: nat :: i < |job.finals| && TempWritten(job, i, s.fs, s'.fs) && s'.phase == Writing
                             && s'.created == s.created)
        || s' == s.(phase := Cleanup(0, WriteFailed)) || s' == s.(phase := LastCheck))
  }

  ghost predicate StepLastCheck(job: Job, s: State, s': State) {
    s.phase.LastCheck? && (s' == s.(phase := Cleanup(0, WasCancelled)) || s' == s.(phase := Verifying(0)))
  }

  ghost predicate StepVerify(job: Job, s: State, s': State) {
    && s.phase.Verifying?
    && var n := s.phase.n;
    && if n < |job.finals| then
         || s' == s.(phase := Cleanup(0, WasCancelled))
         || s' == s.(phase := Cleanup(0, VerifyFailed))
         || (Temp(job, n) in s.fs && job.accepts(n, s.fs[Temp(job, n)]) && s' == s.(phase := Verifying(n + 1)))
       else s' == s.(phase := Renaming(0))
  }

  function Rename(fs: FileSystem, from: Path, to: Path): FileSystem
    requires from in fs
  {
    (fs - {from})[to := fs[from]]
  }

  ghost predicate StepRename(job: Job, s: State, s': State) {
    && s.phase.Renaming?
    && var n := s.phase.n;
    && if n < |job.finals| then
         || s' == s.(phase := AfterFailedRename(n, n))
         || (Temp(job, n) in s.fs && s' == s.(fs := Rename(s.fs, Temp(job, n), job.finals[n]),
                                              phase := Renaming(n + 1)))
       else s' == s.(phase := Committed)
  }

  /** Removing a temp may fail; the cleanup goes on. */
  ghost predicate StepCleanup(job: Job, s: State, s': State) {
    || (s.phase.Cleanup? && s.phase.n < s.created && s.phase.n < |job.finals|
        && (s'.fs == s.fs || s'.fs == s.fs - {Temp(job, s.phase.n)})
        && s'.phase == Cleanup(s.phase.n + 1, s.phase.reason) && s'.created == s.created)
    || (s.phase.Cleanup? && s.phase.n >= s.created && s' == s.(phase := Aborted(s.phase.reason)))
    || (s.phase.AfterFailedRename? && s.phase.next < |job.finals|
        && (s'.fs == s.fs || s'.fs == s.fs - {Temp(job, s.phase.next)})
        && s'.phase == AfterFailedRename(s.phase.n, s.phase.next + 1) && s'.created == s.created)
    || (s.phase.AfterFailedRename? && s.phase.next >= |job.finals| && s' == s.(phase := RenameFailed(s.phase.n)))
  }

  ghost predicate Next(job: Job, s: State, s': State) {
    || StepSetup(job, s, s') || StepCompute(job, s, s') || StepWrite(job, s, s') || StepLastCheck(job, s, s')
    || StepVerify(job, s, s') || StepRename(job, s, s') || StepCleanup(job, s, s')
  }

  ghost predicate IsRun(job: Job, fs0: FileSystem, run: seq<State>) {
    && run != [] && Init(job, fs0, run[0])
    && forall i :: 0 <= i < |run| - 1 ==> Next(job, run[i], run[i + 1])
  }

  // ----- safety

  predicate DistinctFinals(finals: seq<Path>) {
    forall i, j :: 0 <= i < j < |finals| ==> finals[i] != finals[j]
  }

  predicate NoTempNames(finals: seq<Path>) {
    forall i, j :: 0 <= i < |finals| && 0 <= j < |finals| ==> finals[i] != TempPathFor(finals[j])
  }

  /** No name of the set, to be replaced or kept, is the temp name of a file to replace. */
  predicate NoTempClash(job: Job) {
    && NoTempNames(job.finals)
    && forall p, j :: p in job.kept && 0 <= j < |job.finals| ==> p != TempPathFor(job.finals[j])
  }

  /** No file to replace has the name of a file to keep. */
  predicate KeptApart(job: Job) {
    forall i :: 0 <= i < |job.finals| ==> job.finals[i] !in job.kept
  }

  /** No temp lies on a file of the set, and each final name differs from all other names. */
  predicate NoClash(job: Job) {
    DistinctFinals(job.finals) && KeptApart(job) && NoTempClash(job)
  }

  predicate IsTemp(job: Job, p: Path) {
    exists i :: 0 <= i < |job.finals| && p == Temp(job, i)
  }

  /** Apart from temps, nothing changed. */
  ghost predicate Untouched(job: Job, fs0: FileSystem, fs: FileSystem) {
    forall p: Path :: !IsTemp(job, p) ==> SameAt(fs0, fs, p)
  }

  /** The first n final paths hold accepted content, and apart from them and temps nothing changed. */
  ghost predicate Replaced(job: Job, fs0: FileSystem, fs: FileSystem, n: nat) {
    && n <= |job.finals|
    && (forall i :: 0 <= i < n ==> job.finals[i] in fs && job.accepts(i, fs[job.finals[i]]))
    && (forall p: Path :: !IsTemp(job, p) && p !in job.finals[..n] ==> SameAt(fs0, fs, p))
  }

  ghost predicate AcceptedTemps(job: Job, fs: FileSystem, from: nat, to: nat) {
    && from <= to <= |job.finals|
    && forall i :: from <= i < to ==> Temp(job, i) in fs && job.accepts(i, fs[Temp(job, i)])
  }

  /** What every reachable state satisfies. */
  ghost predicate Invariant(job: Job, fs0: FileSystem, s: State) {
    match s.phase
    case Renaming(n) => Replaced(job, fs0, s.fs, n) && AcceptedTemps(job, s.fs, n, |job.finals|)
    case AfterFailedRename(n, next) => n < |job.finals| && n <= next <= |job.finals| && Replaced(job, fs0, s.fs, n)
    case RenameFailed(n) => n < |job.finals| && Replaced(job, fs0, s.fs, n)
    case Committed => Replaced(job, fs0, s.fs, |job.finals|)
    case Verifying(n) => Untouched(job, fs0, s.fs) && AcceptedTemps(job, s.fs, 0, n)
    case _ => Untouched(job, fs0, s.fs)
  }

  lemma TempKeeps(job: Job, fs0: FileSystem, fs: FileSystem, fs': FileSystem, i: nat, n: nat)
    requires i < |job.finals| && Replaced(job, fs0, fs, n) && NoClash(job)
    requires fs' == fs - {Temp(job, i)} || TempWritten(job, i, fs, fs')
    ensures Replaced(job, fs0, fs', n)
  {
    hide TempPathFor;
    assert IsTemp(job, Temp(job, i));
    forall p: Path | !IsTemp(job, p) && p !in job.finals[..n]
      ensures SameAt(fs0, fs', p)
    {
      assert SameAt(fs0, fs, p);
    }
  }

  lemma UntouchedIsReplaced(job: Job, fs0: FileSystem, fs: FileSystem)
    ensures Untouched(job, fs0, fs) <==> Replaced(job, fs0, fs, 0)
  {
  }

  lemma TempsDiffer(job: Job, i: nat, j: nat)
    requires NoClash(job) && i < |job.finals| && j < |job.finals| && i != j
    ensures Temp(job, i) != Temp(job, j)
  {
    TempInjective(job.finals[i], job.finals[j]);
  }

  /** Renaming an accepted temp replaces one more file. */
  lemma RenameReplaces(job: Job, fs0: FileSystem, fs: FileSystem, n: nat)
    requires NoClash(job) && n < |job.finals| && Replaced(job, fs0, fs, n) && AcceptedTemps(job, fs, n, |job.finals|)
    ensures var fs' := Rename(fs, Temp(job, n), job.finals[n]);
            Replaced(job, fs0, fs', n + 1) && AcceptedTemps(job, fs', n + 1, |job.finals|)
  {
    hide TempPathFor;
    var (from, to) := (Temp(job, n), job.finals[n]);
    var fs' := Rename(fs, from, to);
    forall i | n + 1 <= i < |job.finals|
      ensures Temp(job, i) in fs' && job.accepts(i, fs'[Temp(job, i)])
    {
      TempsDiffer(job, n, i);
    }
    forall p: Path | !IsTemp(job, p) && p !in job.finals[..n + 1]
      ensures SameAt(fs0, fs', p)
    {
      assert job.finals[..n + 1] == job.finals[..n] + [to];
      assert SameAt(fs0, fs, p);
      assert p != from && p != to;
    }
  }

  lemma StepKeepsInvariant(job: Job, fs0: FileSystem, s: State, s': State)
    requires NoClash(job) && Invariant(job, fs0, s) && Next(job, s, s')
    ensures Invariant(job, fs0, s')
  {
    hide Replaced, Untouched, Rename, TempPathFor, NoClash, TempWritten;
    UntouchedIsReplaced(job, fs0, s.fs);
    UntouchedIsReplaced(job, fs0, s'.fs);
    if StepSetup(job, s, s') {
      if s.phase.n < |job.finals| && TempWritten(job, s.phase.n, s.fs, s'.fs) {
        TempKeeps(job, fs0, s.fs, s'.fs, s.phase.n, 0);
      }
    } else if StepWrite(job, s, s') {
      if i: nat :| i < |job.finals| && TempWritten(job, i, s.fs, s'.fs) {
        TempKeeps(job, fs0, s.fs, s'.fs, i, 0);
      }
    } else if StepRename(job, s, s') {
      if s.phase.n < |job.finals| {
        RenameReplaces(job, fs0, s.fs, s.phase.n);
      }
    } else if StepCleanup(job, s, s') {
      CleanupKeepsInvariant(job, fs0, s, s');
    }
  }

  lemma CleanupKeepsInvariant(job: Job, fs0: FileSystem, s: State, s': State)
    requires NoClash(job) && Invariant(job, fs0, s) && StepCleanup(job, s, s')
    ensures Invariant(job, fs0, s')
  {
    hide Replaced, Untouched, TempPathFor, NoClash, TempWritten;
    UntouchedIsReplaced(job, fs0, s.fs);
    UntouchedIsReplaced(job, fs0, s'.fs);
    if s.phase.Cleanup? && s.phase.n < s.created && s'.fs != s.fs {
      TempKeeps(job, fs0, s.fs, s'.fs, s.phase.n, 0);
    } else if s.phase.AfterFailedRename? && s.phase.next < |job.finals| && s'.fs != s.fs {
      TempKeeps(job, fs0, s.fs, s'.fs, s.phase.next, s.phase.n);
    }
  }

  lemma {:induction false} RunKeepsInvariant(job: Job, fs0: FileSystem, run: seq<State>, i: nat)
    requires NoClash(job) && IsRun(job, fs0, run) && i < |run|
    ensures Invariant(job, fs0, run[i])
  {
    hide Next, NoClash;
    if i == 0 {
      assert Untouched(job, fs0, fs0);
    } else {
      hide Invariant;
      RunKeepsInvariant(job, fs0, run, i - 1);
      StepKeepsInvariant(job, fs0, run[i - 1], run[i]);
    }
  }

  /** How many files have been replaced. */
  function ReplacedCount(job: Job, phase: Phase): nat {
    match phase
    case Renaming(n) => n
    case AfterFailedRename(n, _) => n
    case RenameFailed(n) => n
    case Committed => |job.finals|
    case _ => 0
  }

  lemma FinalState(job: Job, fs0: FileSystem, fs: FileSystem, n: nat, i: nat)
    requires NoClash(job) && Replaced(job, fs0, fs, n) && i < |job.finals|
    ensures i < n ==> job.finals[i] in fs && job.accepts(i, fs[job.finals[i]])
    ensures i >= n ==> SameAt(fs0, fs, job.finals[i])
  {
    hide TempPathFor;
    var p := job.finals[i];
    if i >= n {
      assert p !in job.finals[..n];
      assert !IsTemp(job, p);
    }
  }

  /**
   What a caller may rely on at every moment.  A file to keep, and any other path that is neither a
   temp nor a final path, holds what it held.  A final path that has been replaced holds content
   accepted for it; one that has not, which is every one of them before renaming begins, holds what
   it held.
   */
  ghost predicate SafeState(job: Job, fs0: FileSystem, s: State) {
    && (forall p: Path :: p in job.kept || (!IsTemp(job, p) && p !in job.finals) ==> SameAt(fs0, s.fs, p))
    && (forall i :: 0 <= i < |job.finals| ==> SafeFile(job, fs0, s, i))
  }

  ghost predicate SafeFile(job: Job, fs0: FileSystem, s: State, i: nat)
    requires i < |job.finals|
  {
    var p := job.finals[i];
    if i < ReplacedCount(job, s.phase) then p in s.fs && job.accepts(i, s.fs[p]) else SameAt(fs0, s.fs, p)
  }

  /** Every state of every run is safe. */
  lemma RunIsSafe(job: Job, fs0: FileSystem, run: seq<State>, k: nat)
    requires NoClash(job) && IsRun(job, fs0, run) && k < |run|
    ensures SafeState(job, fs0, run[k])
  {
    hide IsRun, TempPathFor;
    RunKeepsInvariant(job, fs0, run, k);
    var s := run[k];
    UntouchedIsReplaced(job, fs0, s.fs);
    var n := ReplacedCount(job, s.phase);
    assert Replaced(job, fs0, s.fs, n);
    forall i | 0 <= i < |job.finals|
      ensures SafeFile(job, fs0, s, i)
    {
      FinalState(job, fs0, s.fs, n, i);
    }
    forall p: Path | p in job.kept || (!IsTemp(job, p) && p !in job.finals)
      ensures SameAt(fs0, s.fs, p)
    {
      assert p !in job.finals[..n];
    }
  }

  /**
   How a run ends: aborted with nothing replaced, committed with everything replaced, or with the
   files before a failed rename replaced.
   */
  lemma RunEnds(job: Job, fs0: FileSystem, run: seq<State>)
    requires NoClash(job) && IsRun(job, fs0, run)
    ensures var s := run[|run| - 1];
            && (s.phase.Aborted? ==> Untouched(job, fs0, s.fs))
            && (s.phase.Committed? ==> forall i :: 0 <= i < |job.finals| ==>
                  job.finals[i] in s.fs && job.accepts(i, s.fs[job.finals[i]]))
            && (s.phase.RenameFailed? ==> forall i :: 0 <= i < |job.finals| ==>
                  if i < s.phase.n then job.finals[i] in s.fs && job.accepts(i, s.fs[job.finals[i]])
                  else SameAt(fs0, s.fs, job.finals[i]))
  {
    hide TempPathFor;
    var s := run[|run| - 1];
    RunKeepsInvariant(job, fs0, run, |run| - 1);
    if s.phase.RenameFailed? {
      forall i | 0 <= i < |job.finals|
        ensures if i < s.phase.n then job.finals[i] in s.fs && job.accepts(i, s.fs[job.finals[i]])
                else SameAt(fs0, s.fs, job.finals[i])
      {
        FinalState(job, fs0, s.fs, s.phase.n, i);
      }
    }
  }

  /** Cancellation never follows a rename: once renaming has begun, the run cannot end as cancelled. */
  lemma {:induction false} NoAbortAfterRenaming(job: Job, fs0: FileSystem, run: seq<State>, i: nat, j: nat)
    requires IsRun(job, fs0, run) && i <= j < |run| && Late(run[i].phase)
    ensures Late(run[j].phase)
    decreases j
  {
    if i < j {
      NoAbortAfterRenaming(job, fs0, run, i, j - 1);
      assert Next(job, run[j - 1], run[j]);
    }
  }

  predicate Late(phase: Phase) {
    phase.Renaming? || phase.AfterFailedRename? || phase.Committed? || phase.RenameFailed?
  }

  // ----- exactly when every run is safe

  ghost predicate AlwaysSafe(job: Job) {
    forall fs0: FileSystem, run: seq<State>, k: nat :: IsRun(job, fs0, run) && k < |run| ==> SafeState(job, fs0, run[k])
  }

  ghost predicate Fits(job: Job, contents: map<Path, Content>) {
    forall i :: 0 <= i < |job.finals| ==> job.finals[i] in contents && job.accepts(i, contents[job.finals[i]])
  }

  /** Some content for each name passes verification. */
  ghost predicate Verifiable(job: Job) {
    exists contents: map<Path, Content> :: Fits(job, contents)
  }

  /** The run leads to the state s. */
  ghost predicate EndsIn(job: Job, fs0: FileSystem, run: seq<State>, s: State) {
    IsRun(job, fs0, run) && run[|run| - 1] == s
  }

  lemma LastState(job: Job, fs0: FileSystem, run: seq<State>, s: State)
    requires EndsIn(job, fs0, run, s)
    ensures IsRun(job, fs0, run) && run != [] && run[|run| - 1] == s
  {
    hide Next;
  }

  lemma NotAlwaysSafe(job: Job, fs0: FileSystem, run: seq<State>, s: State)
    requires EndsIn(job, fs0, run, s) && !SafeState(job, fs0, s)
    ensures !AlwaysSafe(job)
  {
    hide SafeState, Next;
  }

  /**
   Every run is safe exactly when no name of the set is the temp name of a file to replace, and
   each final name differs from all other names of the set or verification refuses everything.
   */
  lemma SafeExactly(job: Job)
    ensures AlwaysSafe(job) <==>
              NoTempClash(job) && ((DistinctFinals(job.finals) && KeptApart(job)) || !Verifiable(job))
  {
    hide NoTempClash, DistinctFinals, KeptApart, Verifiable, SafeState, IsRun, EndsIn;
    if !NoTempClash(job) {
      var run, s := TempClashUnsafe(job, map[]);
      NotAlwaysSafe(job, map[], run, s);
    } else if NoClash(job) {
      forall fs0: FileSystem, run: seq<State>, k: nat | IsRun(job, fs0, run) && k < |run|
        ensures SafeState(job, fs0, run[k])
      {
        RunIsSafe(job, fs0, run, k);
      }
    } else if Verifiable(job) {
      var contents := FittingContents(job);
      var run, s := NameClashUnsafe(job, map[], contents);
      NotAlwaysSafe(job, map[], run, s);
    } else {
      forall fs0: FileSystem, run: seq<State>, k: nat | IsRun(job, fs0, run) && k < |run|
        ensures SafeState(job, fs0, run[k])
      {
        NeverRenames(job, fs0, run, k);
        BeforeIsSafe(job, fs0, run[k]);
      }
    }
  }

  lemma FittingContents(job: Job) returns (contents: map<Path, Content>)
    requires Verifiable(job)
    ensures Fits(job, contents)
  {
    contents :| Fits(job, contents);
  }

  /** For names alone, whatever verification accepts: every run is safe exactly when no names clash. */
  lemma SafeForAllContents(finals: seq<Path>, kept: set<Path>)
    ensures (forall accepts: (nat, Content) -> bool :: AlwaysSafe(Job(finals, kept, accepts))) <==>
              NoClash(Job(finals, kept, (_, _) => true))
  {
    hide AlwaysSafe, NoTempNames, DistinctFinals;
    var all := Job(finals, kept, (_, _) => true);
    SafeExactly(all);
    assert Fits(all, map p | p in finals :: []);
    forall accepts: (nat, Content) -> bool | NoClash(all)
      ensures AlwaysSafe(Job(finals, kept, accepts))
    {
      SafeExactly(Job(finals, kept, accepts));
    }
  }

  // ----- runs, step by step

  lemma Extend(job: Job, fs0: FileSystem, run: seq<State>, s: State, s': State) returns (longer: seq<State>)
    requires EndsIn(job, fs0, run, s) && Next(job, s, s')
    ensures EndsIn(job, fs0, longer, s') && run <= longer
  {
    hide Next;
    longer := run + [s'];
    forall i | 0 <= i < |longer| - 1
      ensures Next(job, longer[i], longer[i + 1])
    {
      assert i < |run| - 1 ==> longer[i + 1] == run[i + 1];
    }
  }

  /** The file system after the first n temps are written. */
  function Written(job: Job, fs0: FileSystem, contents: seq<Content>, n: nat): FileSystem
    requires n <= |job.finals| == |contents|
  {
    if n == 0 then fs0 else Written(job, fs0, contents, n - 1)[Temp(job, n - 1) := contents[n - 1]]
  }

  lemma {:induction false} SetupRun(job: Job, fs0: FileSystem, contents: seq<Content>, n: nat) returns (run: seq<State>)
    requires n <= |job.finals| == |contents|
    ensures EndsIn(job, fs0, run, State(Setup(n), Written(job, fs0, contents, n), n))
    decreases n
  {
    hide EndsIn, TempPathFor;
    if n == 0 {
      run := [State(Setup(0), fs0, 0)];
      FirstState(job, fs0);
    } else {
      run := SetupRun(job, fs0, contents, n - 1);
      var s := State(Setup(n - 1), Written(job, fs0, contents, n - 1), n - 1);
      var s' := State(Setup(n), Written(job, fs0, contents, n), n);
      assert TempWritten(job, n - 1, s.fs, s'.fs);
      assert StepSetup(job, s, s');
      run := Extend(job, fs0, run, s, s');
    }
  }

  lemma FirstState(job: Job, fs0: FileSystem)
    ensures EndsIn(job, fs0, [State(Setup(0), fs0, 0)], State(Setup(0), fs0, 0))
  {
  }

  lemma ClashingName(job: Job) returns (p: Path, j: nat)
    requires !NoTempClash(job)
    ensures (p in job.finals || p in job.kept) && j < |job.finals| && p == Temp(job, j)
  {
    if i, k :| 0 <= i < |job.finals| && 0 <= k < |job.finals| && job.finals[i] == TempPathFor(job.finals[k]) {
      p, j := job.finals[i], k;
    } else {
      p, j :| p in job.kept && 0 <= j < |job.finals| && p == TempPathFor(job.finals[j]);
    }
  }

  /**
   A name of the set that is the temp name of a file to replace: creating that temp overwrites the
   file, or creates it, in a run from any file system.
   */
  lemma TempClashUnsafe(job: Job, fs0: FileSystem) returns (run: seq<State>, s: State)
    requires !NoTempClash(job)
    ensures EndsIn(job, fs0, run, s) && !SafeState(job, fs0, s)
  {
    hide TempPathFor, EndsIn;
    var p, j := ClashingName(job);
    var content := if p in fs0 then fs0[p] + [0] else [];
    var contents := seq(|job.finals|, _ => content);
    run := SetupRun(job, fs0, contents, j + 1);
    s := State(Setup(j + 1), Written(job, fs0, contents, j + 1), j + 1);
    assert s.fs[p] == content;
    assert p in fs0 ==> |content| != |fs0[p]|;
    assert !SameAt(fs0, s.fs, p);
    if p in job.finals {
      var i :| 0 <= i < |job.finals| && job.finals[i] == p;
      assert !SafeFile(job, fs0, s, i);
    }
  }

  /**
   A damaged file "x" beside an intact file "x.par2tmp": whatever is verified and whatever the file
   system holds, a run destroys the intact file.
   */
  lemma KeptFileLost(accepts: (nat, Content) -> bool, fs0: FileSystem) returns (run: seq<State>, s: State)
    ensures var job := Job([[0x78]], {[0x78] + TMP_SUFFIX}, accepts);
            EndsIn(job, fs0, run, s) && !SafeState(job, fs0, s)
  {
    var job := Job([[0x78]], {[0x78] + TMP_SUFFIX}, accepts);
    assert TempPathFor(job.finals[0]) in job.kept;
    run, s := TempClashUnsafe(job, fs0);
  }

  /** All temps hold these contents. */
  ghost predicate TempsHold(job: Job, fs: FileSystem, contents: seq<Content>) {
    && |contents| == |job.finals|
    && forall i :: 0 <= i < |job.finals| ==> Temp(job, i) in fs && fs[Temp(job, i)] == contents[i]
  }

  ghost predicate AcceptsAll(job: Job, contents: seq<Content>) {
    |contents| == |job.finals| && forall i :: 0 <= i < |job.finals| ==> job.accepts(i, contents[i])
  }

  /** Files of the same name have the same content. */
  predicate SameNamesAgree(finals: seq<Path>, contents: seq<Content>) {
    && |contents| == |finals|
    && forall i, j :: 0 <= i < |finals| && 0 <= j < |finals| && finals[i] == finals[j] ==> contents[i] == contents[j]
  }

  lemma {:induction false} WrittenHolds(job: Job, fs0: FileSystem, contents: seq<Content>, n: nat, i: nat)
    requires n <= |job.finals| && SameNamesAgree(job.finals, contents) && i < n
    ensures Temp(job, i) in Written(job, fs0, contents, n)
            && Written(job, fs0, contents, n)[Temp(job, i)] == contents[i]
    decreases n
  {
    hide TempPathFor;
    if i < n - 1 {
      WrittenHolds(job, fs0, contents, n - 1, i);
      TempInjective(job.finals[i], job.finals[n - 1]);
    }
  }

  /** Writes the contents into all temps. */
  lemma WriteRun(job: Job, fs0: FileSystem, contents: seq<Content>) returns (run: seq<State>, s: State)
    requires SameNamesAgree(job.finals, contents)
    ensures EndsIn(job, fs0, run, s) && s.phase == LastCheck && TempsHold(job, s.fs, contents)
    ensures s.fs == Written(job, fs0, contents, |job.finals|)
  {
    hide EndsIn, TempPathFor, Written;
    var n := |job.finals|;
    run := SetupRun(job, fs0, contents, n);
    var s0 := State(Setup(n), Written(job, fs0, contents, n), n);
    forall i | 0 <= i < n
      ensures Temp(job, i) in s0.fs && s0.fs[Temp(job, i)] == contents[i]
    {
      WrittenHolds(job, fs0, contents, n, i);
    }
    var s1, s2 := s0.(phase := Compute), s0.(phase := Writing);
    s := s0.(phase := LastCheck);
    assert StepSetup(job, s0, s1) && StepCompute(job, s1, s2) && StepWrite(job, s2, s);
    run := Extend(job, fs0, run, s0, s1);
    run := Extend(job, fs0, run, s1, s2);
    run := Extend(job, fs0, run, s2, s);
  }

  /** Verifies n temps of accepted content. */
  lemma {:induction false} VerifyRun(job: Job, fs0: FileSystem, before: seq<State>, s: State,
                                     contents: seq<Content>, n: nat)
    returns (run: seq<State>)
    requires EndsIn(job, fs0, before, s) && s.phase == LastCheck && n <= |job.finals|
    requires TempsHold(job, s.fs, contents) && AcceptsAll(job, contents)
    ensures EndsIn(job, fs0, run, s.(phase := Verifying(n))) && before <= run
    decreases n
  {
    hide EndsIn, TempPathFor;
    var s' := s.(phase := Verifying(n));
    if n == 0 {
      assert StepLastCheck(job, s, s');
      run := Extend(job, fs0, before, s, s');
    } else {
      run := VerifyRun(job, fs0, before, s, contents, n - 1);
      assert StepVerify(job, s.(phase := Verifying(n - 1)), s');
      run := Extend(job, fs0, run, s.(phase := Verifying(n - 1)), s');
    }
  }

  /** After n renames: the first n files are in place, and the temps of other names still there. */
  ghost predicate Renamed(job: Job, fs: FileSystem, contents: seq<Content>, n: nat) {
    && n <= |job.finals| == |contents|
    && (forall i :: 0 <= i < n ==> job.finals[i] in fs && fs[job.finals[i]] == contents[i])
    && (forall i :: n <= i < |job.finals| && job.finals[i] !in job.finals[..n] ==>
          Temp(job, i) in fs && fs[Temp(job, i)] == contents[i])
  }

  lemma RenameNext(job: Job, fs: FileSystem, contents: seq<Content>, n: nat)
    requires NoTempClash(job) && Renamed(job, fs, contents, n) && n < |job.finals| && job.finals[n] !in job.finals[..n]
    ensures Temp(job, n) in fs && Renamed(job, Rename(fs, Temp(job, n), job.finals[n]), contents, n + 1)
  {
    hide TempPathFor;
    var fs' := Rename(fs, Temp(job, n), job.finals[n]);
    assert job.finals[..n + 1] == job.finals[..n] + [job.finals[n]];
    forall i | 0 <= i < n
      ensures job.finals[i] in fs' && fs'[job.finals[i]] == contents[i]
    {
      assert job.finals[i] in job.finals[..n];
    }
    forall i | n + 1 <= i < |job.finals| && job.finals[i] !in job.finals[..n + 1]
      ensures Temp(job, i) in fs' && fs'[Temp(job, i)] == contents[i]
    {
      TempInjective(job.finals[i], job.finals[n]);
    }
  }

  /** Once the temps are written: verifies them, and renames the first n files, whose names are distinct. */
  lemma {:induction false} RenameRun(job: Job, fs0: FileSystem, before: seq<State>, s0: State,
                                     contents: seq<Content>, n: nat)
    returns (run: seq<State>, s: State)
    requires EndsIn(job, fs0, before, s0) && s0.phase == LastCheck && TempsHold(job, s0.fs, contents)
    requires NoTempClash(job) && AcceptsAll(job, contents)
    requires n <= |job.finals| && DistinctFinals(job.finals[..n])
    ensures EndsIn(job, fs0, run, s) && before <= run && s.phase == Renaming(n) && Renamed(job, s.fs, contents, n)
    decreases n
  {
    hide EndsIn, TempPathFor, NoTempClash;
    if n == 0 {
      run := VerifyRun(job, fs0, before, s0, contents, |job.finals|);
      var s1 := s0.(phase := Verifying(|job.finals|));
      s := s0.(phase := Renaming(0));
      assert StepVerify(job, s1, s);
      run := Extend(job, fs0, run, s1, s);
    } else {
      assert job.finals[..n - 1] == job.finals[..n][..n - 1];
      assert job.finals[n - 1] == job.finals[..n][n - 1];
      var s1;
      run, s1 := RenameRun(job, fs0, before, s0, contents, n - 1);
      RenameNext(job, s1.fs, contents, n - 1);
      s := s1.(fs := Rename(s1.fs, Temp(job, n - 1), job.finals[n - 1]), phase := Renaming(n));
      assert StepRename(job, s1, s);
      run := Extend(job, fs0, run, s1, s);
    }
  }

  /** Writes these contents into the temps and renames the first n. */
  lemma WriteAndRename(job: Job, fs0: FileSystem, contents: seq<Content>, n: nat)
    returns (run: seq<State>, s: State, k: nat)
    requires NoTempClash(job) && SameNamesAgree(job.finals, contents) && AcceptsAll(job, contents)
    requires n <= |job.finals| && DistinctFinals(job.finals[..n])
    ensures EndsIn(job, fs0, run, s) && s.phase == Renaming(n) && Renamed(job, s.fs, contents, n)
    ensures k < |run| && run[k].phase.LastCheck? && run[k].fs == Written(job, fs0, contents, |job.finals|)
  {
    hide IsRun, TempPathFor, NoTempClash, Renamed, Written;
    var before, s0 := WriteRun(job, fs0, contents);
    LastState(job, fs0, before, s0);
    k := |before| - 1;
    run, s := RenameRun(job, fs0, before, s0, contents, n);
  }

  /** Without clashes, contents that pass verification can be committed, from any file system. */
  lemma CanCommit(job: Job, fs0: FileSystem, contents: seq<Content>) returns (run: seq<State>, s: State, k: nat)
    requires NoClash(job) && AcceptsAll(job, contents)
    ensures EndsIn(job, fs0, run, s) && s.phase == Committed
    ensures k < |run| && run[k].phase.LastCheck? && run[k].fs == Written(job, fs0, contents, |job.finals|)
    ensures forall i :: 0 <= i < |job.finals| ==> job.finals[i] in s.fs && s.fs[job.finals[i]] == contents[i]
  {
    hide EndsIn, TempPathFor, NoTempClash, Written;
    var n := |job.finals|;
    assert job.finals[..n] == job.finals;
    var s0;
    run, s0, k := WriteAndRename(job, fs0, contents, n);
    s := s0.(phase := Committed);
    assert StepRename(job, s0, s);
    run := Extend(job, fs0, run, s0, s);
  }

  /** What writing the temps leaves: the contents at the temps, and everything else as it was. */
  lemma {:induction false} WrittenElsewhere(job: Job, fs0: FileSystem, contents: seq<Content>, n: nat, p: Path)
    requires n <= |job.finals| == |contents| && !IsTemp(job, p)
    ensures SameAt(fs0, Written(job, fs0, contents, n), p)
    decreases n
  {
    hide TempPathFor;
    if n > 0 {
      WrittenElsewhere(job, fs0, contents, n - 1, p);
    }
  }

  lemma WrittenIs(job: Job, fs0: FileSystem, contents: seq<Content>, fs: FileSystem)
    requires DistinctFinals(job.finals) && TempsHold(job, fs, contents) && Untouched(job, fs0, fs)
    ensures Written(job, fs0, contents, |job.finals|) == fs
  {
    hide TempPathFor, Written;
    var written := Written(job, fs0, contents, |job.finals|);
    forall p: Path
      ensures SameAt(fs, written, p)
    {
      if i :| 0 <= i < |job.finals| && p == Temp(job, i) {
        WrittenHolds(job, fs0, contents, |job.finals|, i);
      } else {
        WrittenElsewhere(job, fs0, contents, |job.finals|, p);
        assert SameAt(fs0, fs, p);
      }
    }
    SameEverywhere(fs, written);
  }

  lemma SameEverywhere(fs: FileSystem, fs': FileSystem)
    requires forall p: Path :: SameAt(fs, fs', p)
    ensures fs == fs'
  {
    forall p: Path
      ensures p in fs <==> p in fs'
      ensures p in fs ==> fs[p] == fs'[p]
    {
      assert SameAt(fs, fs', p);
    }
  }

  /** A name that occurs twice, at i and j, with no repetition before j. */
  lemma {:induction false} FirstDuplicate(finals: seq<Path>) returns (i: nat, j: nat)
    requires !DistinctFinals(finals)
    ensures i < j < |finals| && finals[i] == finals[j] && DistinctFinals(finals[..j])
    decreases |finals|
  {
    var n := |finals| - 1;
    if DistinctFinals(finals[..n]) {
      var a, b :| 0 <= a < b < |finals| && finals[a] == finals[b];
      PrefixDiffers(finals, n, a, b);
      i, j := a, n;
    } else {
      i, j := FirstDuplicate(finals[..n]);
      assert finals[..n][..j] == finals[..j];
    }
  }

  lemma PrefixDiffers(finals: seq<Path>, n: nat, a: nat, b: nat)
    requires n <= |finals| && DistinctFinals(finals[..n])
    ensures a < b < n ==> finals[a] != finals[b]
  {
    assert a < b < n ==> finals[..n][a] != finals[..n][b];
  }

  /**
   A final name that is also another name of the set, to be replaced or kept: renaming the file
   replaces one that counts as not replaced yet, or as kept, in a run from any file system that does
   not hold the new contents already.
   */
  lemma NameClashUnsafe(job: Job, fs0: FileSystem, contents: map<Path, Content>)
    returns (run: seq<State>, s: State)
    requires NoTempClash(job) && !NoClash(job) && Fits(job, contents)
    requires forall p :: p in job.finals && p in fs0 ==> fs0[p] != contents[p]
    ensures EndsIn(job, fs0, run, s) && !SafeState(job, fs0, s)
  {
    hide EndsIn, TempPathFor, NoTempClash;
    var list := seq(|job.finals|, i requires 0 <= i < |job.finals| => contents[job.finals[i]]);
    if DistinctFinals(job.finals) {
      var i :| 0 <= i < |job.finals| && job.finals[i] in job.kept;
      var k;
      run, s, k := WriteAndRename(job, fs0, list, i + 1);
      assert !SameAt(fs0, s.fs, job.finals[i]);
    } else {
      var i, j := FirstDuplicate(job.finals);
      assert job.finals[..i + 1] == job.finals[..j][..i + 1];
      var k;
      run, s, k := WriteAndRename(job, fs0, list, i + 1);
      assert !SafeFile(job, fs0, s, j);
    }
  }

  // ----- each path for itself

  ghost predicate HoldsAccepted(job: Job, fs: FileSystem, p: Path) {
    p in fs && exists i :: 0 <= i < |job.finals| && job.finals[i] == p && job.accepts(i, fs[p])
  }

  /**
   What holds of the paths, however often one is listed: a final path holds what it held or content
   accepted for it, and every other path that is kept, or no temp, holds what it held.
   */
  ghost predicate PathsSafe(job: Job, fs0: FileSystem, s: State) {
    forall p: Path :: p in job.kept || p in job.finals || !IsTemp(job, p) ==>
      SameAt(fs0, s.fs, p) || (p in job.finals && HoldsAccepted(job, s.fs, p))
  }

  ghost predicate AlwaysPathsSafe(job: Job) {
    forall fs0: FileSystem, run: seq<State>, k: nat :: IsRun(job, fs0, run) && k < |run| ==>
      PathsSafe(job, fs0, run[k])
  }

  /** What is at a temp that is still to be renamed has been accepted. */
  ghost predicate RestAccepted(job: Job, fs: FileSystem, n: nat) {
    forall i :: n <= i < |job.finals| && Temp(job, i) in fs ==> job.accepts(i, fs[Temp(job, i)])
  }

  ghost predicate PathInvariant(job: Job, fs0: FileSystem, s: State) {
    && (!Late(s.phase) ==> Untouched(job, fs0, s.fs))
    && (s.phase.Verifying? ==> AcceptedTemps(job, s.fs, 0, s.phase.n))
    && (s.phase.Renaming? ==> RestAccepted(job, s.fs, s.phase.n))
    && PathsSafe(job, fs0, s)
  }

  lemma TempKeepsPaths(job: Job, fs0: FileSystem, s: State, s': State, i: nat)
    requires i < |job.finals| && PathsSafe(job, fs0, s) && NoTempClash(job)
    requires s'.fs == s.fs - {Temp(job, i)} || TempWritten(job, i, s.fs, s'.fs)
    ensures PathsSafe(job, fs0, s')
  {
    hide TempPathFor;
    assert IsTemp(job, Temp(job, i));
    forall p: Path | p in job.kept || p in job.finals || !IsTemp(job, p)
      ensures SameAt(fs0, s'.fs, p) || (p in job.finals && HoldsAccepted(job, s'.fs, p))
    {
      assert p != Temp(job, i) && SameAt(s.fs, s'.fs, p);
      assert SameAt(fs0, s.fs, p) || (p in job.finals && HoldsAccepted(job, s.fs, p));
    }
  }

  lemma RenameKeepsPaths(job: Job, fs0: FileSystem, s: State, s': State, n: nat)
    requires NoTempClash(job) && n < |job.finals| && Temp(job, n) in s.fs && PathsSafe(job, fs0, s)
    requires RestAccepted(job, s.fs, n) && s'.fs == Rename(s.fs, Temp(job, n), job.finals[n])
    ensures PathsSafe(job, fs0, s') && RestAccepted(job, s'.fs, n + 1)
  {
    hide TempPathFor;
    var to := job.finals[n];
    assert job.accepts(n, s'.fs[to]);
    forall p: Path | p in job.kept || p in job.finals || !IsTemp(job, p)
      ensures SameAt(fs0, s'.fs, p) || (p in job.finals && HoldsAccepted(job, s'.fs, p))
    {
      if p != to {
        assert IsTemp(job, Temp(job, n));
        assert p != Temp(job, n) && SameAt(s.fs, s'.fs, p);
        assert SameAt(fs0, s.fs, p) || (p in job.finals && HoldsAccepted(job, s.fs, p));
      }
    }
  }

  lemma StepKeepsPaths(job: Job, fs0: FileSystem, s: State, s': State)
    requires NoTempClash(job) && PathInvariant(job, fs0, s) && Next(job, s, s')
    ensures PathInvariant(job, fs0, s')
  {
    hide Untouched, TempPathFor, NoTempClash, TempWritten, Rename, PathsSafe;
    if StepSetup(job, s, s') {
      if s.phase.n < |job.finals| && TempWritten(job, s.phase.n, s.fs, s'.fs) {
        UntouchedKeeps(job, fs0, s.fs, s'.fs, s.phase.n);
        TempKeepsPaths(job, fs0, s, s', s.phase.n);
      } else {
        SamePaths(job, fs0, s, s');
      }
    } else if StepWrite(job, s, s') {
      if i: nat :| i < |job.finals| && TempWritten(job, i, s.fs, s'.fs) {
        UntouchedKeeps(job, fs0, s.fs, s'.fs, i);
        TempKeepsPaths(job, fs0, s, s', i);
      } else {
        SamePaths(job, fs0, s, s');
      }
    } else if StepRename(job, s, s') && s.phase.n < |job.finals| && s'.phase.Renaming? {
      RenameKeepsPaths(job, fs0, s, s', s.phase.n);
    } else if StepCleanup(job, s, s') && s'.fs != s.fs {
      var n := if s.phase.Cleanup? then s.phase.n else s.phase.next;
      RemovalKeeps(job, fs0, s, s', n);
      TempKeepsPaths(job, fs0, s, s', n);
    } else {
      SamePaths(job, fs0, s, s');
    }
  }

  lemma RemovalKeeps(job: Job, fs0: FileSystem, s: State, s': State, n: nat)
    requires n < |job.finals| && s'.fs == s.fs - {Temp(job, n)}
    ensures Untouched(job, fs0, s.fs) ==> Untouched(job, fs0, s'.fs)
  {
    hide Untouched;
    if Untouched(job, fs0, s.fs) {
      UntouchedKeeps(job, fs0, s.fs, s'.fs, n);
    }
  }

  lemma SamePaths(job: Job, fs0: FileSystem, s: State, s': State)
    requires PathsSafe(job, fs0, s) && s'.fs == s.fs
    ensures PathsSafe(job, fs0, s')
  {
  }

  lemma {:induction false} RunKeepsPaths(job: Job, fs0: FileSystem, run: seq<State>, k: nat)
    requires NoTempClash(job) && IsRun(job, fs0, run) && k < |run|
    ensures PathInvariant(job, fs0, run[k])
    decreases k
  {
    hide Next, NoTempClash;
    if k == 0 {
      assert Untouched(job, fs0, fs0);
    } else {
      hide PathInvariant;
      RunKeepsPaths(job, fs0, run, k - 1);
      StepKeepsPaths(job, fs0, run[k - 1], run[k]);
    }
  }

  /** The cleanup may leave the first n temps where they are. */
  lemma {:induction false} CleanupRun(job: Job, fs0: FileSystem, before: seq<State>, s: State, n: nat)
    returns (run: seq<State>)
    requires EndsIn(job, fs0, before, s) && s.phase == Cleanup(0, SetupFailed) && n <= s.created && n <= |job.finals|
    ensures EndsIn(job, fs0, run, s.(phase := Cleanup(n, SetupFailed)))
    decreases n
  {
    hide EndsIn, TempPathFor;
    if n == 0 {
      run := before;
    } else {
      run := CleanupRun(job, fs0, before, s, n - 1);
      var s0, s1 := s.(phase := Cleanup(n - 1, SetupFailed)), s.(phase := Cleanup(n, SetupFailed));
      assert StepCleanup(job, s0, s1);
      run := Extend(job, fs0, run, s0, s1);
    }
  }

  /** A name of the set that is a temp name: the cleanup removes the file. */
  lemma ClashRemoves(job: Job) returns (fs0: FileSystem, run: seq<State>, s: State)
    requires !NoTempClash(job)
    ensures EndsIn(job, fs0, run, s) && !PathsSafe(job, fs0, s)
  {
    hide EndsIn, TempPathFor, NoTempClash;
    var p, j := ClashingName(job);
    fs0 := map[p := []];
    var contents: seq<Content> := seq(|job.finals|, _ => []);
    run := SetupRun(job, fs0, contents, j);
    var s0 := State(Setup(j), Written(job, fs0, contents, j), j);
    var s1 := State(Cleanup(0, SetupFailed), Written(job, fs0, contents, j + 1), j + 1);
    assert TempWritten(job, j, s0.fs, s1.fs);
    assert StepSetup(job, s0, s1);
    run := Extend(job, fs0, run, s0, s1);
    run := CleanupRun(job, fs0, run, s1, j);
    var s2 := s1.(phase := Cleanup(j, SetupFailed));
    s := State(Cleanup(j + 1, SetupFailed), s1.fs - {Temp(job, j)}, j + 1);
    assert StepCleanup(job, s2, s);
    run := Extend(job, fs0, run, s2, s);
    assert p in fs0 && p !in s.fs;
    assert !SameAt(fs0, s.fs, p);
  }

  /**
   Counted by paths, duplicate names do no harm: in every run every final path holds its old or an
   accepted content, and all other files theirs, exactly when no temp lies on a file of the set.
   */
  lemma PathsSafeExactly(job: Job)
    ensures AlwaysPathsSafe(job) <==> NoTempClash(job)
  {
    hide NoTempClash, PathsSafe, IsRun, EndsIn;
    if NoTempClash(job) {
      forall fs0: FileSystem, run: seq<State>, k: nat | IsRun(job, fs0, run) && k < |run|
        ensures PathsSafe(job, fs0, run[k])
      {
        RunKeepsPaths(job, fs0, run, k);
      }
    } else {
      var fs0, run, s := ClashRemoves(job);
      LastState(job, fs0, run, s);
      assert !PathsSafe(job, fs0, run[|run| - 1]);
    }
  }

  // ----- when verification refuses everything

  lemma UntouchedKeeps(job: Job, fs0: FileSystem, fs: FileSystem, fs': FileSystem, i: nat)
    requires i < |job.finals| && Untouched(job, fs0, fs)
    requires fs' == fs - {Temp(job, i)} || TempWritten(job, i, fs, fs')
    ensures Untouched(job, fs0, fs')
  {
    hide TempPathFor;
    assert IsTemp(job, Temp(job, i));
    forall p: Path | !IsTemp(job, p)
      ensures SameAt(fs0, fs', p)
    {
      assert SameAt(fs0, fs, p);
    }
  }

  /** Nothing has been renamed yet. */
  ghost predicate Before(job: Job, fs0: FileSystem, s: State) {
    && !Late(s.phase) && Untouched(job, fs0, s.fs)
    && (s.phase.Verifying? ==> AcceptedTemps(job, s.fs, 0, s.phase.n))
  }

  lemma AllAcceptedFits(job: Job, fs: FileSystem)
    requires AcceptedTemps(job, fs, 0, |job.finals|)
    ensures Verifiable(job)
  {
    hide TempPathFor;
    var contents := map p | p in job.finals && TempPathFor(p) in fs :: fs[TempPathFor(p)];
    forall i | 0 <= i < |job.finals|
      ensures job.finals[i] in contents && job.accepts(i, contents[job.finals[i]])
    {
      assert Temp(job, i) in fs;
    }
    assert Fits(job, contents);
  }

  lemma StepKeepsBefore(job: Job, fs0: FileSystem, s: State, s': State)
    requires !Verifiable(job) && Before(job, fs0, s) && Next(job, s, s')
    ensures Before(job, fs0, s')
  {
    hide Untouched, TempPathFor, TempWritten, Verifiable, Rename;
    if StepSetup(job, s, s') {
      if s.phase.n < |job.finals| && TempWritten(job, s.phase.n, s.fs, s'.fs) {
        UntouchedKeeps(job, fs0, s.fs, s'.fs, s.phase.n);
      }
    } else if StepWrite(job, s, s') {
      if i: nat :| i < |job.finals| && TempWritten(job, i, s.fs, s'.fs) {
        UntouchedKeeps(job, fs0, s.fs, s'.fs, i);
      }
    } else if StepVerify(job, s, s') {
      if s.phase.n >= |job.finals| {
        AllAcceptedFits(job, s.fs);
      }
    } else if StepCleanup(job, s, s') {
      if s.phase.Cleanup? && s.phase.n < s.created && s'.fs != s.fs {
        UntouchedKeeps(job, fs0, s.fs, s'.fs, s.phase.n);
      }
    }
  }

  /** If verification refuses everything, no run gets to rename. */
  lemma {:induction false} NeverRenames(job: Job, fs0: FileSystem, run: seq<State>, k: nat)
    requires !Verifiable(job) && IsRun(job, fs0, run) && k < |run|
    ensures Before(job, fs0, run[k])
    decreases k
  {
    hide Next, Verifiable;
    if k == 0 {
      assert Untouched(job, fs0, fs0);
    } else {
      NeverRenames(job, fs0, run, k - 1);
      StepKeepsBefore(job, fs0, run[k - 1], run[k]);
    }
  }

  lemma BeforeIsSafe(job: Job, fs0: FileSystem, s: State)
    requires NoTempClash(job) && Before(job, fs0, s)
    ensures SafeState(job, fs0, s)
  {
    hide TempPathFor;
    forall i | 0 <= i < |job.finals|
      ensures SafeFile(job, fs0, s, i)
    {
      assert !IsTemp(job, job.finals[i]);
    }
    assert forall p :: p in job.kept ==> !IsTemp(job, p);
  }

  // ----- what is installed is what was written

  function Rank(phase: Phase): nat {
    match phase
    case Setup(_) => 0
    case Compute => 1
    case Writing => 2
    case LastCheck => 3
    case Verifying(_) => 4
    case _ => 5
  }

  lemma {:induction false} RankGrows(job: Job, fs0: FileSystem, run: seq<State>, i: nat, j: nat)
    requires IsRun(job, fs0, run) && i <= j < |run|
    ensures Rank(run[i].phase) <= Rank(run[j].phase)
    decreases j
  {
    if i < j {
      RankGrows(job, fs0, run, i, j - 1);
      assert Next(job, run[j - 1], run[j]);
    }
  }

  /** From the last check until verification is over, nothing is written. */
  lemma {:induction false} NothingWritten(job: Job, fs0: FileSystem, run: seq<State>, k: nat, m: nat)
    requires IsRun(job, fs0, run) && k <= m < |run| && run[k].phase.LastCheck?
    requires run[m].phase.LastCheck? || run[m].phase.Verifying?
    ensures run[m].fs == run[k].fs
    decreases m
  {
    hide TempPathFor, TempWritten, Rename;
    if k < m {
      assert Next(job, run[m - 1], run[m]);
      RankGrows(job, fs0, run, k, m - 1);
      NothingWritten(job, fs0, run, k, m - 1);
    }
  }

  function Exactly(contents: seq<Content>): (nat, Content) -> bool {
    (i: nat, c: Content) => i < |contents| && c == contents[i]
  }

  /**
   If the temps hold these contents when everything has been written, a run that commits installs
   exactly these contents.
   */
  lemma InstallsWhatWasWritten(job: Job, fs0: FileSystem, run: seq<State>, k: nat, contents: seq<Content>)
    requires NoClash(job) && IsRun(job, fs0, run) && k < |run| && run[k].phase.LastCheck?
             && TempsHold(job, run[k].fs, contents)
    requires run[|run| - 1].phase.Committed?
    ensures forall i :: 0 <= i < |job.finals| ==>
              job.finals[i] in run[|run| - 1].fs && run[|run| - 1].fs[job.finals[i]] == contents[i]
  {
    hide NoTempNames, TempPathFor;
    var strict := Job(job.finals, job.kept, Exactly(contents));
    forall m | 0 <= m < |run| - 1
      ensures Next(strict, run[m], run[m + 1])
    {
      StrictStep(job, strict, fs0, run, k, contents, m);
    }
    RunEnds(strict, fs0, run);
  }

  lemma StrictStep(job: Job, strict: Job, fs0: FileSystem, run: seq<State>, k: nat, contents: seq<Content>, m: nat)
    requires IsRun(job, fs0, run) && k < |run| && run[k].phase.LastCheck? && TempsHold(job, run[k].fs, contents)
    requires strict == Job(job.finals, job.kept, Exactly(contents)) && m < |run| - 1
    ensures Next(strict, run[m], run[m + 1])
  {
    hide TempPathFor, TempWritten, Rename;
    var (s, s') := (run[m], run[m + 1]);
    assert Next(job, s, s');
    if StepVerify(job, s, s') {
      if m < k {
        RankGrows(job, fs0, run, m, k);
      } else {
        NothingWritten(job, fs0, run, k, m);
        assert StepVerify(strict, s, s');
      }
    } else {
      SameStep(job, strict, s, s');
    }
  }

  /** All other steps do not depend on what is accepted. */
  lemma SameStep(job: Job, strict: Job, s: State, s': State)
    requires job.finals == strict.finals && Next(job, s, s') && !StepVerify(job, s, s')
    ensures Next(strict, s, s')
  {
    hide TempPathFor, Rename;
    if StepSetup(job, s, s') {
      assert StepSetup(strict, s, s');
    } else if StepWrite(job, s, s') {
      if i: nat :| i < |job.finals| && TempWritten(job, i, s.fs, s'.fs) {
        assert TempWritten(strict, i, s.fs, s'.fs);
      }
      assert StepWrite(strict, s, s');
    } else if StepRename(job, s, s') {
      assert StepRename(strict, s, s');
    } else if StepCleanup(job, s, s') {
      assert StepCleanup(strict, s, s');
    }
  }

  // ----- cancelling

  /** What has been created at this point. */
  predicate CreatedOk(job: Job, s: State) {
    match s.phase
    case Setup(n) => s.created == n <= |job.finals|
    case Cleanup(n, _) => n <= s.created <= |job.finals|
    case Aborted(_) => s.created <= |job.finals|
    case _ => s.created == |job.finals|
  }

  lemma {:induction false} CreatedInRun(job: Job, fs0: FileSystem, run: seq<State>, k: nat)
    requires IsRun(job, fs0, run) && k < |run|
    ensures CreatedOk(job, run[k])
  {
    hide TempWritten, TempPathFor, Rename;
    if k > 0 {
      CreatedInRun(job, fs0, run, k - 1);
      assert Next(job, run[k - 1], run[k]);
    }
  }

  /** The file system without the temps from m up to n. */
  function WithoutTemps(job: Job, fs: FileSystem, m: nat, n: nat): FileSystem
    requires m <= n <= |job.finals|
    decreases n
  {
    if n == m then fs else WithoutTemps(job, fs, m, n - 1) - {Temp(job, n - 1)}
  }

  lemma {:induction false} WithoutTempsIs(job: Job, fs: FileSystem, m: nat, n: nat, p: Path)
    requires m <= n <= |job.finals|
    ensures (exists i :: m <= i < n && p == Temp(job, i)) ==> p !in WithoutTemps(job, fs, m, n)
    ensures (forall i :: m <= i < n ==> p != Temp(job, i)) ==> SameAt(fs, WithoutTemps(job, fs, m, n), p)
    decreases n
  {
    hide TempPathFor;
    if n > m {
      WithoutTempsIs(job, fs, m, n - 1, p);
    }
  }

  /** The cleanup may remove the first n temps. */
  lemma {:induction false} RemovalRun(job: Job, fs0: FileSystem, before: seq<State>, s: State, n: nat)
    returns (run: seq<State>)
    requires EndsIn(job, fs0, before, s) && s.phase.Cleanup? && s.phase.n == 0 && n <= s.created <= |job.finals|
    ensures EndsIn(job, fs0, run, s.(phase := Cleanup(n, s.phase.reason), fs := WithoutTemps(job, s.fs, 0, n)))
            && before <= run
    decreases n
  {
    hide EndsIn, TempPathFor;
    if n == 0 {
      run := before;
    } else {
      run := RemovalRun(job, fs0, before, s, n - 1);
      var s0 := s.(phase := Cleanup(n - 1, s.phase.reason), fs := WithoutTemps(job, s.fs, 0, n - 1));
      var s1 := s.(phase := Cleanup(n, s.phase.reason), fs := WithoutTemps(job, s.fs, 0, n));
      assert StepCleanup(job, s0, s1);
      run := Extend(job, fs0, run, s0, s1);
    }
  }

  /** The moments at which the cancel flag is looked at. */
  predicate LooksForCancel(job: Job, phase: Phase) {
    || phase == Setup(|job.finals|) || phase.Compute? || phase.LastCheck?
    || (phase.Verifying? && phase.n < |job.finals|)
  }

  /**
   At each of these moments of every run, a cancel can end it: then nothing has been replaced, no temp
   is left, and every path that is no temp is as it was at that moment; without clashes, as it was in
   the beginning.
   */
  lemma CanCancel(job: Job, fs0: FileSystem, before: seq<State>, s: State) returns (run: seq<State>, end: State)
    requires EndsIn(job, fs0, before, s) && LooksForCancel(job, s.phase)
    ensures EndsIn(job, fs0, run, end) && before <= run && end.phase == Aborted(WasCancelled)
    ensures forall i :: 0 <= i < |job.finals| ==> Temp(job, i) !in end.fs
    ensures forall p: Path :: !IsTemp(job, p) ==> SameAt(s.fs, end.fs, p)
    ensures NoClash(job) ==> forall p: Path :: !IsTemp(job, p) ==> SameAt(fs0, end.fs, p)
  {
    hide EndsIn, TempPathFor, NoClash, WithoutTemps, IsTemp;
    var n := |job.finals|;
    CreatedAtEnd(job, fs0, before, s);
    var s1 := s.(phase := Cleanup(0, WasCancelled));
    assert StepSetup(job, s, s1) || StepCompute(job, s, s1) || StepLastCheck(job, s, s1) || StepVerify(job, s, s1);
    run := Extend(job, fs0, before, s, s1);
    run := RemovalRun(job, fs0, run, s1, n);
    var s2 := s1.(phase := Cleanup(n, WasCancelled), fs := WithoutTemps(job, s.fs, 0, n));
    end := s2.(phase := Aborted(WasCancelled));
    assert StepCleanup(job, s2, end);
    run := Extend(job, fs0, run, s2, end);
    TempsRemoved(job, s.fs, 0);
    if NoClash(job) {
      UntouchedAtEnd(job, fs0, before, s);
    }
  }

  lemma CreatedAtEnd(job: Job, fs0: FileSystem, run: seq<State>, s: State)
    requires EndsIn(job, fs0, run, s) && LooksForCancel(job, s.phase)
    ensures s.created == |job.finals|
  {
    hide Next;
    CreatedInRun(job, fs0, run, |run| - 1);
  }

  lemma UntouchedAtEnd(job: Job, fs0: FileSystem, run: seq<State>, s: State)
    requires EndsIn(job, fs0, run, s) && LooksForCancel(job, s.phase) && NoClash(job)
    ensures Untouched(job, fs0, s.fs)
  {
    hide Next, NoClash;
    RunKeepsInvariant(job, fs0, run, |run| - 1);
  }

  lemma TempsRemoved(job: Job, fs: FileSystem, m: nat)
    requires m <= |job.finals|
    ensures var fs' := WithoutTemps(job, fs, m, |job.finals|);
            && (forall i :: m <= i < |job.finals| ==> Temp(job, i) !in fs')
            && (forall p: Path :: !IsTemp(job, p) ==> SameAt(fs, fs', p))
  {
    hide TempPathFor, WithoutTemps;
    var fs' := WithoutTemps(job, fs, m, |job.finals|);
    forall i | m <= i < |job.finals|
      ensures Temp(job, i) !in fs'
    {
      WithoutTempsIs(job, fs, m, |job.finals|, Temp(job, i));
    }
    forall p: Path | !IsTemp(job, p)
      ensures SameAt(fs, fs', p)
    {
      WithoutTempsIs(job, fs, m, |job.finals|, p);
    }
  }

  /** After a failed rename, the temps from the failed one on may be removed. */
  lemma {:induction false} LeftoverRun(job: Job, fs0: FileSystem, before: seq<State>, s: State, m: nat, n: nat)
    returns (run: seq<State>)
    requires EndsIn(job, fs0, before, s) && s.phase == AfterFailedRename(m, m) && m <= n <= |job.finals|
    ensures EndsIn(job, fs0, run, s.(phase := AfterFailedRename(m, n), fs := WithoutTemps(job, s.fs, m, n)))
            && before <= run
    decreases n
  {
    hide EndsIn, TempPathFor;
    if n == m {
      run := before;
    } else {
      run := LeftoverRun(job, fs0, before, s, m, n - 1);
      var s0 := s.(phase := AfterFailedRename(m, n - 1), fs := WithoutTemps(job, s.fs, m, n - 1));
      var s1 := s.(phase := AfterFailedRename(m, n), fs := WithoutTemps(job, s.fs, m, n));
      assert StepCleanup(job, s0, s1);
      run := Extend(job, fs0, run, s0, s1);
    }
  }

  /** Any rename may fail; then the temps that were not renamed can be removed, and nothing else changes. */
  lemma CanFailRename(job: Job, fs0: FileSystem, before: seq<State>, s: State, m: nat)
    returns (run: seq<State>, end: State)
    requires EndsIn(job, fs0, before, s) && s.phase == Renaming(m) && m < |job.finals|
    ensures EndsIn(job, fs0, run, end) && before <= run && end.phase == RenameFailed(m)
    ensures forall i :: m <= i < |job.finals| ==> Temp(job, i) !in end.fs
    ensures forall p: Path :: !IsTemp(job, p) ==> SameAt(s.fs, end.fs, p)
  {
    hide EndsIn, TempPathFor, WithoutTemps, IsTemp;
    var n := |job.finals|;
    var s1 := s.(phase := AfterFailedRename(m, m));
    assert StepRename(job, s, s1);
    run := Extend(job, fs0, before, s, s1);
    run := LeftoverRun(job, fs0, run, s1, m, n);
    var s2 := s1.(phase := AfterFailedRename(m, n), fs := WithoutTemps(job, s.fs, m, n));
    end := s2.(phase := RenameFailed(m));
    assert StepCleanup(job, s2, end);
    run := Extend(job, fs0, run, s2, end);
    TempsRemoved(job, s.fs, m);
  }
}
