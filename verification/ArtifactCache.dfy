/** The on-disk cache of kernel artifacts of build.rs. */
module ArtifactCache {
  import opened Lists
  import opened ArtifactKey

  /*
   `compile_artifact` and the clean-up in `main`, as a state machine over builds that may be cut
   off between any two file operations. Renaming and removing a file are atomic, writing is not.
   */

  type Bytes = seq<Byte>
  type Disk = map<string, Bytes>

  /** What the compiler makes of an artifact's input key: nothing when it fails. */
  type Compiler = (string, Bytes) -> Option<Bytes>

  // ---------------------------------------------------------------- file names

  const FINGERPRINT: string := ".fingerprint"
  const PARTIAL: string := ".partial"

  function Fingerprint(f: string): string { f + FINGERPRINT }

  function Partial(f: string): string { f + PARTIAL }

  predicate EndsWith(s: string, suffix: string) {
    |suffix| <= |s| && s[|s| - |suffix|..] == suffix
  }

  function StripSuffix(s: string, suffix: string): string {
    if EndsWith(s, suffix) then s[..|s| - |suffix|] else s
  }

  predicate IsArtifact(f: string) {
    EndsWith(f, ".cubin") || EndsWith(f, ".portable.ptx")
  }

  /** The artifact that a file belongs to, as the clean-up computes it. */
  function Owner(file: string): string {
    StripSuffix(StripSuffix(file, PARTIAL), FINGERPRINT)
  }

  /** The files of one artifact. */
  function Files(f: string): seq<string> {
    [f, Fingerprint(f), Partial(f), Partial(Fingerprint(f))]
  }

  lemma SuffixStripped(s: string, suffix: string)
    requires |suffix| > 0
    ensures EndsWith(s + suffix, suffix) && StripSuffix(s + suffix, suffix) == s
    ensures EndsWith(s, suffix) ==> s == StripSuffix(s, suffix) + suffix
  {
    assert (s + suffix)[|s|..] == suffix;
    assert (s + suffix)[..|s|] == s;
  }

  function LastChar(s: string): char
    requires |s| > 0
  {
    s[|s| - 1]
  }

  /** A file with one of the two suffixes is not an artifact. */
  lemma SuffixesApart(f: string)
    ensures IsArtifact(f) ==> !EndsWith(f, PARTIAL) && !EndsWith(f, FINGERPRINT)
    ensures !EndsWith(Fingerprint(f), PARTIAL)
  {
    forall suffix | suffix in {PARTIAL, FINGERPRINT, ".cubin", ".portable.ptx"}
      ensures EndsWith(f, suffix) ==> LastChar(f) == LastChar(suffix)
    {
      SuffixStripped(f, suffix);
    }
    assert LastChar(Fingerprint(f)) == LastChar(FINGERPRINT);
  }

  /** The clean-up attributes exactly the four files of an artifact to it. */
  lemma OwnsItsFiles(file: string, f: string)
    requires IsArtifact(f)
    ensures Owner(file) == f <==> file in Files(f)
  {
    OwnedFilesListed(file);
    FilesAreOwned(f);
  }

  lemma OwnedFilesListed(file: string)
    ensures file in Files(Owner(file))
  {
    SuffixStripped(file, PARTIAL);
    SuffixStripped(StripSuffix(file, PARTIAL), FINGERPRINT);
  }

  lemma FilesAreOwned(f: string)
    requires IsArtifact(f)
    ensures Owner(f) == Owner(Fingerprint(f)) == Owner(Partial(f)) == Owner(Partial(Fingerprint(f))) == f
  {
    SuffixesApart(f);
    SuffixStripped(f, FINGERPRINT);
    SuffixStripped(f, PARTIAL);
    SuffixStripped(Fingerprint(f), PARTIAL);
  }

  lemma FilesDistinct(f: string)
    requires IsArtifact(f)
    ensures var s := Files(f); forall i, j :: 0 <= i < j < |s| ==> s[i] != s[j]
  {
    SuffixesApart(f);
    assert |f| < |Fingerprint(f)| < |Partial(Fingerprint(f))| && |f| < |Partial(f)| != |Fingerprint(f)|;
  }

  // ---------------------------------------------------------------- the entry and the check

  /** The contents of a fingerprint file: the input key, then the artifact's hash. */
  function Entry(key: Bytes, artifact: Bytes): Bytes {
    key + LittleEndian(Fnv1a64(artifact), 8)
  }

  function Get(disk: Disk, name: string): Option<Bytes> {
    if name in disk then Some(disk[name]) else None
  }

  /** The test of the reuse branch on the two files read. */
  predicate Matches(fingerprint: Option<Bytes>, artifact: Option<Bytes>, key: Bytes)
    requires |key| == 32
  {
    && fingerprint.Some? && |fingerprint.value| == 40 && fingerprint.value[..32] == key
    && artifact.Some? && |artifact.value| > 0
    && fingerprint.value[32..] == LittleEndian(Fnv1a64(artifact.value), 8)
  }

  lemma MatchesIff(fingerprint: Option<Bytes>, artifact: Option<Bytes>, key: Bytes)
    requires |key| == 32
    ensures Matches(fingerprint, artifact, key)
            <==> artifact.Some? && artifact.value != [] && fingerprint == Some(Entry(key, artifact.value))
  {
    if Matches(fingerprint, artifact, key) {
      assert fingerprint.value == fingerprint.value[..32] + fingerprint.value[32..];
    } else if artifact.Some? && fingerprint == Some(Entry(key, artifact.value)) {
      assert Entry(key, artifact.value)[..32] == key;
    }
  }

  // ---------------------------------------------------------------- the state machine

  type Key = k: Bytes | |k| == 32 witness seq(32, _ => 0)

  /** How far `compile_artifact` has come with one artifact. */
  datatype Job =
    | Checking(key: Key)
    | Invalidating(key: Key)
    | Compiling(key: Key)
    | Publishing(key: Key)
    | Recording(key: Key, hash: Word)
    | Sealing(key: Key, hash: Word)
    | Done(key: Key, hash: Word)
    | Failed

  datatype Phase = Down | Cleaning | Building

  datatype State = State(disk: Disk, phase: Phase, expected: set<string>, jobs: map<string, Job>)

  datatype Step =
    | Start(expected: set<string>)
    | RemoveObsolete(file: string)
    | FinishCleaning
    | Begin(f: string, key: Key)
    | Check(f: string, readable: bool)
    | Invalidate(f: string)
    | Scribble(f: string, junk: Bytes)
    | FinishCompiler(f: string)
    | Publish(f: string)
    | WriteEntry(f: string)
    | Seal(f: string)
    | Fail(f: string)
    | Finish
    | Crash

  /** Should the clean-up remove this file? */
  predicate Obsolete(file: string, expected: set<string>) {
    IsArtifact(Owner(file)) && (EndsWith(file, PARTIAL) || Owner(file) !in expected)
  }

  predicate JobIs(s: State, f: string, test: Job -> bool) {
    s.phase.Building? && f in s.jobs && test(s.jobs[f])
  }

  predicate Enabled(make: Compiler, s: State, step: Step) {
    match step
    case Start(expected) => s.phase.Down? && forall f :: f in expected ==> IsArtifact(f)
    case RemoveObsolete(file) => s.phase.Cleaning? && file in s.disk && Obsolete(file, s.expected)
    case FinishCleaning => s.phase.Cleaning? && forall file :: file in s.disk ==> !Obsolete(file, s.expected)
    case Begin(f, _) => s.phase.Building? && f in s.expected && (f in s.jobs ==> s.jobs[f].Done?)
    case Check(f, _) => JobIs(s, f, (job: Job) => job.Checking?)
    case Invalidate(f) => JobIs(s, f, (job: Job) => job.Invalidating?)
    case Scribble(f, _) => JobIs(s, f, (job: Job) => job.Compiling? || job.Recording?)
    case FinishCompiler(f) =>
      JobIs(s, f, (job: Job) => job.Compiling? && make(f, job.key).Some? && make(f, job.key).value != [])
    case Publish(f) => JobIs(s, f, (job: Job) => job.Publishing?) && Partial(f) in s.disk
    case WriteEntry(f) => JobIs(s, f, (job: Job) => job.Recording?)
    case Seal(f) => JobIs(s, f, (job: Job) => job.Sealing?) && Partial(Fingerprint(f)) in s.disk
    case Fail(f) => JobIs(s, f, (job: Job) => !job.Done?)
    case Finish => s.phase.Building? && forall f :: f in s.expected ==> f in s.jobs && s.jobs[f].Done?
    case Crash => true
  }

  function Rename(disk: Disk, from: string, to: string): Disk
    requires from in disk
  {
    (disk - {from})[to := disk[from]]
  }

  /** The disk after a step. */
  function DiskAfter(make: Compiler, s: State, step: Step): Disk
    requires Enabled(make, s, step)
  {
    match step
    case RemoveObsolete(file) => s.disk - {file}
    case Invalidate(f) => s.disk - {Fingerprint(f)}
    case Scribble(f, junk) => s.disk[Partial(if s.jobs[f].Compiling? then f else Fingerprint(f)) := junk]
    case FinishCompiler(f) => s.disk[Partial(f) := make(f, s.jobs[f].key).value]
    case Publish(f) => Rename(s.disk, Partial(f), f)
    case WriteEntry(f) => s.disk[Partial(Fingerprint(f)) := s.jobs[f].key + LittleEndian(s.jobs[f].hash, 8)]
    case Seal(f) => Rename(s.disk, Partial(Fingerprint(f)), Fingerprint(f))
    case _ => s.disk
  }

  function Hash(artifact: Option<Bytes>): Word {
    Fnv1a64(if artifact.Some? then artifact.value else [])
  }

  /** The job of the step's artifact after the step. */
  function JobAfter(make: Compiler, s: State, step: Step): Job
    requires Enabled(make, s, step) && HasJob(step)
  {
    match step
    case Begin(_, key) => Checking(key)
    case Check(f, readable) =>
      var key := s.jobs[f].key;
      if readable && Matches(Get(s.disk, Fingerprint(f)), Get(s.disk, f), key) then Done(key, Hash(Get(s.disk, f)))
      else Invalidating(key)
    case Invalidate(f) => Compiling(s.jobs[f].key)
    case Scribble(f, _) => s.jobs[f]
    case FinishCompiler(f) => Publishing(s.jobs[f].key)
    case Publish(f) => Recording(s.jobs[f].key, Hash(Get(s.disk, Partial(f))))
    case WriteEntry(f) => Sealing(s.jobs[f].key, s.jobs[f].hash)
    case Seal(f) => Done(s.jobs[f].key, s.jobs[f].hash)
    case Fail(_) => Failed
  }

  predicate HasJob(step: Step) {
    !step.Start? && !step.RemoveObsolete? && !step.FinishCleaning? && !step.Finish? && !step.Crash?
  }

  function Apply(make: Compiler, s: State, step: Step): State
    requires Enabled(make, s, step)
  {
    var disk := DiskAfter(make, s, step);
    match step
    case Start(expected) => State(disk, Cleaning, expected, map[])
    case RemoveObsolete(_) => State(disk, Cleaning, s.expected, map[])
    case FinishCleaning => State(disk, Building, s.expected, map[])
    case Finish => State(disk, Down, {}, map[])
    case Crash => State(disk, Down, {}, map[])
    case _ => State(disk, Building, s.expected, s.jobs[step.f := JobAfter(make, s, step)])
  }

  // ---------------------------------------------------------------- what every step keeps

  /** The four files of one artifact. */
  datatype View = View(artifact: Option<Bytes>, fingerprint: Option<Bytes>, partial: Option<Bytes>,
                       entry: Option<Bytes>)

  function ViewOf(disk: Disk, f: string): View {
    View(Get(disk, f), Get(disk, Fingerprint(f)), Get(disk, Partial(f)), Get(disk, Partial(Fingerprint(f))))
  }

  predicate MadeFrom(make: Compiler, f: string, key: Key, artifact: Option<Bytes>) {
    artifact.Some? && artifact.value != [] && make(f, key) == artifact
  }

  /** A fingerprint and an artifact together: the artifact is what the compiler makes of the recorded key. */
  ghost predicate Coherent(make: Compiler, f: string, v: View) {
    v.artifact.Some? && v.fingerprint.Some? ==>
      exists key: Key :: MadeFrom(make, f, key, v.artifact) && v.fingerprint.value == Entry(key, v.artifact.value)
  }

  /** What the files of an artifact look like at each point of `compile_artifact`. */
  predicate JobFits(make: Compiler, f: string, v: View, job: Job) {
    match job
    case Checking(_) => v.partial.None? && v.entry.None?
    case Invalidating(_) => v.partial.None? && v.entry.None?
    case Compiling(_) => v.fingerprint.None? && v.entry.None?
    case Publishing(key) => v.fingerprint.None? && v.entry.None? && MadeFrom(make, f, key, v.partial)
    case Recording(key, hash) => v.fingerprint.None? && v.partial.None? && MadeFrom(make, f, key, v.artifact)
                                 && hash == Hash(v.artifact)
    case Sealing(key, hash) =>
      && v.fingerprint.None? && v.partial.None? && MadeFrom(make, f, key, v.artifact) && hash == Hash(v.artifact)
      && v.entry == Some(Entry(key, v.artifact.value))
    case Done(key, hash) =>
      && v.partial.None? && v.entry.None? && MadeFrom(make, f, key, v.artifact) && hash == Hash(v.artifact)
      && v.fingerprint == Some(Entry(key, v.artifact.value))
    case Failed => true
  }

  /** After the clean-up nothing is left of other artifacts, and no partial file of one not yet begun. */
  predicate Tidy(s: State, f: string, v: View) {
    s.phase.Building? && f !in s.jobs ==>
      v.partial.None? && v.entry.None? && (f !in s.expected ==> v.artifact.None? && v.fingerprint.None?)
  }

  ghost predicate ArtifactOk(make: Compiler, s: State, f: string) {
    var v := ViewOf(s.disk, f);
    Coherent(make, f, v) && Tidy(s, f, v) && (f in s.jobs ==> f in s.expected && JobFits(make, f, v, s.jobs[f]))
  }

  ghost predicate Invariant(make: Compiler, s: State) {
    && (forall f :: IsArtifact(f) ==> ArtifactOk(make, s, f))
    && (forall f :: f in s.expected ==> IsArtifact(f))
    && (forall f :: f in s.jobs ==> f in s.expected)
    && (!s.phase.Building? ==> s.jobs == map[])
  }

  /** The files of an artifact under one that is written or removed. */
  lemma OthersUntouched(disk: Disk, file: string, bytes: Bytes, g: string)
    requires IsArtifact(g) && file !in Files(g)
    ensures ViewOf(disk[file := bytes], g) == ViewOf(disk, g) == ViewOf(disk - {file}, g)
  {
    assert g in Files(g) && Fingerprint(g) in Files(g) && Partial(g) in Files(g) && Partial(Fingerprint(g)) in Files(g);
  }

  lemma FilesApart(f: string, g: string, file: string)
    requires IsArtifact(f) && IsArtifact(g) && f != g && file in Files(f)
    ensures file !in Files(g)
  {
    OwnsItsFiles(file, f);
    OwnsItsFiles(file, g);
  }

  /** A job's step leaves the files of every other artifact alone. */
  lemma OtherViewsKept(make: Compiler, s: State, step: Step, g: string)
    requires Enabled(make, s, step) && HasJob(step) && IsArtifact(step.f) && IsArtifact(g) && g != step.f
    ensures ViewOf(DiskAfter(make, s, step), g) == ViewOf(s.disk, g)
  {
    var f := step.f;
    var a, p, fp, e := f, Partial(f), Fingerprint(f), Partial(Fingerprint(f));
    assert a in Files(f) && p in Files(f) && fp in Files(f) && e in Files(f);
    FilesApart(f, g, a);
    FilesApart(f, g, p);
    FilesApart(f, g, fp);
    FilesApart(f, g, e);
    match step
    case Invalidate(_) => OthersUntouched(s.disk, fp, [], g);
    case Scribble(_, junk) => OthersUntouched(s.disk, if s.jobs[f].Compiling? then p else e, junk, g);
    case FinishCompiler(_) => OthersUntouched(s.disk, p, make(f, s.jobs[f].key).value, g);
    case Publish(_) =>
      OthersUntouched(s.disk, p, [], g);
      OthersUntouched(s.disk - {p}, a, s.disk[p], g);
    case WriteEntry(_) => OthersUntouched(s.disk, e, s.jobs[f].key + LittleEndian(s.jobs[f].hash, 8), g);
    case Seal(_) =>
      OthersUntouched(s.disk, e, [], g);
      OthersUntouched(s.disk - {e}, fp, s.disk[e], g);
    case _ =>
  }

  /** What a job's step does to its own files. */
  function ViewAfter(make: Compiler, s: State, step: Step): View
    requires Enabled(make, s, step) && HasJob(step)
  {
    var v := ViewOf(s.disk, step.f);
    match step
    case Invalidate(_) => v.(fingerprint := None)
    case Scribble(f, junk) => if s.jobs[f].Compiling? then v.(partial := Some(junk)) else v.(entry := Some(junk))
    case FinishCompiler(f) => v.(partial := make(f, s.jobs[f].key))
    case Publish(_) => v.(artifact := v.partial, partial := None)
    case WriteEntry(f) => v.(entry := Some(s.jobs[f].key + LittleEndian(s.jobs[f].hash, 8)))
    case Seal(_) => v.(fingerprint := v.entry, entry := None)
    case _ => v
  }

  lemma OwnView(make: Compiler, s: State, step: Step)
    requires Enabled(make, s, step) && HasJob(step) && IsArtifact(step.f)
    ensures ViewOf(DiskAfter(make, s, step), step.f) == ViewAfter(make, s, step)
  {
    var f := step.f;
    FilesDistinct(f);
    var s4 := Files(f);
    assert s4[0] != s4[1] && s4[0] != s4[2] && s4[0] != s4[3] && s4[1] != s4[2] && s4[1] != s4[3] && s4[2] != s4[3];
  }

  lemma JobStep(make: Compiler, s: State, step: Step)
    requires Enabled(make, s, step) && HasJob(step) && ArtifactOk(make, s, step.f)
    ensures JobFits(make, step.f, ViewAfter(make, s, step), JobAfter(make, s, step))
    ensures Coherent(make, step.f, ViewAfter(make, s, step))
  {
    var f, v := step.f, ViewOf(s.disk, step.f);
    match step
    case Check(_, _) =>
      if Matches(v.fingerprint, v.artifact, s.jobs[f].key) {
        CheckStep(make, f, v, s.jobs[f].key);
      }
    case Seal(_) => assert MadeFrom(make, f, s.jobs[f].key, v.artifact);
    case _ =>
  }

  /** What passes the test is what the compiler would make. */
  lemma CheckStep(make: Compiler, f: string, v: View, key: Key)
    requires Coherent(make, f, v) && Matches(v.fingerprint, v.artifact, key)
    ensures MadeFrom(make, f, key, v.artifact) && v.fingerprint == Some(Entry(key, v.artifact.value))
  {
    MatchesIff(v.fingerprint, v.artifact, key);
    var recorded: Key :| MadeFrom(make, f, recorded, v.artifact)
                         && v.fingerprint.value == Entry(recorded, v.artifact.value);
    SplitSame(key, LittleEndian(Fnv1a64(v.artifact.value), 8), recorded, LittleEndian(Fnv1a64(v.artifact.value), 8));
  }

  lemma JobStepKeeps(make: Compiler, s: State, step: Step, g: string)
    requires Invariant(make, s) && Enabled(make, s, step) && HasJob(step) && IsArtifact(g)
    ensures ArtifactOk(make, Apply(make, s, step), g)
  {
    assert ArtifactOk(make, s, g);
    if g == step.f {
      OwnView(make, s, step);
      JobStep(make, s, step);
    } else {
      OtherViewsKept(make, s, step, g);
    }
  }

  /** Removing a file keeps the implication, even when it is one half of a fingerprint and an artifact. */
  lemma RemovalKeeps(make: Compiler, disk: Disk, file: string, g: string)
    requires Coherent(make, g, ViewOf(disk, g))
    ensures Coherent(make, g, ViewOf(disk - {file}, g))
  {
    var v, v' := ViewOf(disk, g), ViewOf(disk - {file}, g);
    assert v'.artifact in {None, v.artifact} && v'.fingerprint in {None, v.fingerprint};
  }

  /** The clean-up leaves no file of an artifact that is not expected, and no partial file. */
  lemma CleanedIsTidy(s: State, f: string)
    requires IsArtifact(f) && forall file :: file in s.disk ==> !Obsolete(file, s.expected)
    ensures Tidy(s, f, ViewOf(s.disk, f))
  {
    forall file | file in Files(f)
      ensures Owner(file) == f
    {
      OwnsItsFiles(file, f);
    }
    var s4 := Files(f);
    assert s4[0] in s4 && s4[1] in s4 && s4[2] in s4 && s4[3] in s4;
    SuffixStripped(f, PARTIAL);
    SuffixStripped(Fingerprint(f), PARTIAL);
  }

  lemma InvariantKept(make: Compiler, s: State, step: Step)
    requires Invariant(make, s) && Enabled(make, s, step)
    ensures Invariant(make, Apply(make, s, step))
  {
    var s' := Apply(make, s, step);
    forall g | IsArtifact(g)
      ensures ArtifactOk(make, s', g)
    {
      assert ArtifactOk(make, s, g);
      if HasJob(step) {
        JobStepKeeps(make, s, step, g);
      } else if step.RemoveObsolete? {
        RemovalKeeps(make, s.disk, step.file, g);
      } else if step == FinishCleaning {
        CleanedIsTidy(s.(phase := Building), g);
        assert ViewOf(s'.disk, g) == ViewOf(s.disk, g);
      }
    }
  }

  // ---------------------------------------------------------------- runs: any number of builds and crashes

  /** No fingerprint on the disk next to an artifact that it does not describe. */
  ghost predicate CoherentDisk(make: Compiler, disk: Disk) {
    forall f :: IsArtifact(f) ==> Coherent(make, f, ViewOf(disk, f))
  }

  ghost predicate IsRun(make: Compiler, states: seq<State>, steps: seq<Step>) {
    && |states| == |steps| + 1
    && states[0] == State(states[0].disk, Down, {}, map[])
    && CoherentDisk(make, states[0].disk)
    && forall k :: 0 <= k < |steps| ==>
         Enabled(make, states[k], steps[k]) && states[k + 1] == Apply(make, states[k], steps[k])
  }

  lemma {:induction false} RunsKeepInvariant(make: Compiler, states: seq<State>, steps: seq<Step>, k: nat)
    requires IsRun(make, states, steps) && k <= |steps|
    ensures Invariant(make, states[k])
  {
    if k > 0 {
      RunsKeepInvariant(make, states, steps, k - 1);
      InvariantKept(make, states[k - 1], steps[k - 1]);
    }
  }

  /**
   At every point of every run, whatever was cut off before: a fingerprint next to an artifact
   records a key, and the artifact is what the compiler makes of that key.
   */
  lemma FingerprintsTellTheTruth(make: Compiler, states: seq<State>, steps: seq<Step>, k: nat, f: string)
    requires IsRun(make, states, steps) && k <= |steps| && IsArtifact(f)
    requires f in states[k].disk && Fingerprint(f) in states[k].disk
    ensures var entry, artifact := states[k].disk[Fingerprint(f)], states[k].disk[f];
            && |entry| == 40
            && make(f, entry[..32]) == Some(artifact) && artifact != []
            && entry[32..] == LittleEndian(Fnv1a64(artifact), 8)
  {
    RunsKeepInvariant(make, states, steps, k);
    assert ArtifactOk(make, states[k], f);
    var artifact := states[k].disk[f];
    var key: Key :| MadeFrom(make, f, key, Some(artifact)) && states[k].disk[Fingerprint(f)] == Entry(key, artifact);
    assert Entry(key, artifact)[..32] == key && Entry(key, artifact)[32..] == LittleEndian(Fnv1a64(artifact), 8);
  }

  /** The reuse branch returns exactly what compiling again would. */
  lemma ReuseEqualsRecompiling(make: Compiler, states: seq<State>, steps: seq<Step>, k: nat)
    requires IsRun(make, states, steps) && k < |steps| && steps[k].Check?
    requires states[k + 1].jobs[steps[k].f].Done?
    ensures var f := steps[k].f;
            var key := states[k].jobs[f].key;
            && f in states[k].disk && make(f, key) == Some(states[k].disk[f])
            && states[k + 1].jobs[f] == Done(key, Fnv1a64(states[k].disk[f]))
  {
    RunsKeepInvariant(make, states, steps, k + 1);
    assert ArtifactOk(make, states[k + 1], steps[k].f);
  }

  /** A finished artifact is reused by a later check with the same key, as long as its files are there. */
  lemma FinishedIsReused(make: Compiler, states: seq<State>, steps: seq<Step>, k: nat, f: string)
    requires IsRun(make, states, steps) && k <= |steps| && f in states[k].jobs && states[k].jobs[f].Done?
    ensures var v, key := ViewOf(states[k].disk, f), states[k].jobs[f].key; Matches(v.fingerprint, v.artifact, key)
  {
    RunsKeepInvariant(make, states, steps, k);
    assert ArtifactOk(make, states[k], f);
    var v := ViewOf(states[k].disk, f);
    MatchesIff(v.fingerprint, v.artifact, states[k].jobs[f].key);
  }

  /** The step does not stand in the way of reusing `f`: builds expect it, with the same key, and can read it. */
  predicate Undisturbed(step: Step, f: string, key: Key) {
    match step
    case Start(expected) => f in expected
    case Begin(g, other) => g == f ==> other == key
    case Check(g, readable) => g == f ==> readable
    case _ => true
  }

  /** `artifact` and its entry are on disk, and no job is about to replace them. */
  ghost predicate Reusable(s: State, f: string, key: Key, artifact: Bytes) {
    && artifact != [] && Get(s.disk, f) == Some(artifact) && Get(s.disk, Fingerprint(f)) == Some(Entry(key, artifact))
    && (!s.phase.Down? ==> f in s.expected)
    && (f in s.jobs ==> s.jobs[f] in {Checking(key), Done(key, Fnv1a64(artifact)), Failed})
  }

  /** The clean-up of a build that expects `f` keeps the artifact and its fingerprint. */
  lemma ExpectedSurvives(file: string, f: string, expected: set<string>)
    requires IsArtifact(f) && f in expected && Obsolete(file, expected)
    ensures file != f && file != Fingerprint(f)
  {
    SuffixesApart(f);
    FilesAreOwned(f);
  }

  lemma StaysReusable(make: Compiler, s: State, step: Step, f: string, key: Key, artifact: Bytes)
    requires Invariant(make, s) && Enabled(make, s, step) && IsArtifact(f)
    requires Reusable(s, f, key, artifact) && Undisturbed(step, f, key)
    ensures Reusable(Apply(make, s, step), f, key, artifact)
    ensures step.Check? && step.f == f ==> Apply(make, s, step).jobs[f] == Done(key, Fnv1a64(artifact))
  {
    var v := ViewOf(s.disk, f);
    if step.RemoveObsolete? {
      ExpectedSurvives(step.file, f, s.expected);
    } else if HasJob(step) && step.f != f {
      OtherViewsKept(make, s, step, f);
      assert ViewOf(Apply(make, s, step).disk, f) == v;
    } else if step.Check? {
      MatchesIff(v.fingerprint, v.artifact, key);
    }
  }

  lemma {:induction false} ReusableKept(make: Compiler, states: seq<State>, steps: seq<Step>, i: nat, k: nat, f: string,
                                        key: Key, artifact: Bytes)
    requires IsRun(make, states, steps) && i <= k <= |steps|
    requires IsArtifact(f) && Reusable(states[i], f, key, artifact)
    requires forall j :: i <= j < k ==> Undisturbed(steps[j], f, key)
    ensures Reusable(states[k], f, key, artifact)
    decreases k
  {
    if i < k {
      ReusableKept(make, states, steps, i, k - 1, f, key, artifact);
      RunsKeepInvariant(make, states, steps, k - 1);
      StaysReusable(make, states[k - 1], steps[k - 1], f, key, artifact);
    }
  }

  lemma DoneIsReusable(make: Compiler, s: State, f: string)
    requires Invariant(make, s) && f in s.jobs && s.jobs[f].Done?
    ensures f in s.disk && IsArtifact(f) && Reusable(s, f, s.jobs[f].key, s.disk[f])
  {
    assert ArtifactOk(make, s, f);
  }

  /**
   A finished artifact is reused by every later build, whatever else those builds do and wherever
   they are cut off: as long as they expect it with the same key and can read its files, it survives
   each clean-up, and each check of it ends in its reuse.
   */
  lemma LaterBuildsReuse(make: Compiler, states: seq<State>, steps: seq<Step>, i: nat, k: nat, f: string)
    requires IsRun(make, states, steps) && i <= k <= |steps| && f in states[i].jobs && states[i].jobs[f].Done?
    requires forall j :: i <= j < k ==> Undisturbed(steps[j], f, states[i].jobs[f].key)
    ensures f in states[i].disk && IsArtifact(f) && Reusable(states[k], f, states[i].jobs[f].key, states[i].disk[f])
    ensures forall j :: i <= j < k && steps[j].Check? && steps[j].f == f ==>
              f in states[j + 1].jobs
              && states[j + 1].jobs[f] == Done(states[i].jobs[f].key, Fnv1a64(states[i].disk[f]))
  {
    RunsKeepInvariant(make, states, steps, i);
    DoneIsReusable(make, states[i], f);
    var key, artifact := states[i].jobs[f].key, states[i].disk[f];
    ReusableKept(make, states, steps, i, k, f, key, artifact);
    forall j | i <= j < k && steps[j].Check? && steps[j].f == f
      ensures f in states[j + 1].jobs && states[j + 1].jobs[f] == Done(key, Fnv1a64(artifact))
    {
      ReusableKept(make, states, steps, i, j, f, key, artifact);
      RunsKeepInvariant(make, states, steps, j);
      StaysReusable(make, states[j], steps[j], f, key, artifact);
    }
  }

  /**
   When a build finishes, the output directory holds exactly the expected artifacts and their
   fingerprints, each artifact as the compiler makes it, and no partial file.
   */
  lemma FinishedBuildIsExact(make: Compiler, states: seq<State>, steps: seq<Step>, k: nat)
    requires IsRun(make, states, steps) && k < |steps| && steps[k] == Finish
    ensures var s := states[k];
            && (forall f :: f in s.expected ==>
                  && f in s.disk && s.jobs[f].Done? && make(f, s.jobs[f].key) == Some(s.disk[f])
                  && s.jobs[f].hash == Fnv1a64(s.disk[f])
                  && Get(s.disk, Fingerprint(f)) == Some(Entry(s.jobs[f].key, s.disk[f])))
            && (forall file :: file in s.disk && IsArtifact(Owner(file)) ==>
                  Owner(file) in s.expected && file in [Owner(file), Fingerprint(Owner(file))])
  {
    RunsKeepInvariant(make, states, steps, k);
    var s := states[k];
    forall f | f in s.expected
      ensures f in s.disk && make(f, s.jobs[f].key) == Some(s.disk[f])
      ensures s.jobs[f].hash == Fnv1a64(s.disk[f])
      ensures Get(s.disk, Fingerprint(f)) == Some(Entry(s.jobs[f].key, s.disk[f]))
    {
      assert ArtifactOk(make, s, f);
    }
    forall file | file in s.disk && IsArtifact(Owner(file))
      ensures Owner(file) in s.expected && file in [Owner(file), Fingerprint(Owner(file))]
    {
      var f := Owner(file);
      assert ArtifactOk(make, s, f);
      OwnsItsFiles(file, f);
    }
  }

  /** A reusable artifact with one byte changed is not reusable under any key. */
  lemma OneByteCorruptionIsNoticed(entry: Option<Bytes>, artifact: Bytes, key: Key, i: nat, b: Byte, other: Key)
    requires Matches(entry, Some(artifact), key) && i < |artifact| && artifact[i] != b
    ensures !Matches(entry, Some(artifact[i := b]), other)
  {
    OneByteChangesHash(artifact, i, b);
    if Matches(entry, Some(artifact[i := b]), other) {
      TwoTo64();
      LittleEndianInjective(Fnv1a64(artifact), Fnv1a64(artifact[i := b]), 8);
      assert false;
    }
  }

  // ---------------------------------------------------------------- names of the artifacts of one module

  function PortableName(name: string): string { name + ".portable.ptx" }

  function CubinName(name: string, arch: string): string { name + ("." + (arch + ".cubin")) }

  lemma {:induction false} DotSplits(a: string, x: string, b: string, y: string)
    requires '.' !in a && '.' !in b && a + (['.'] + x) == b + (['.'] + y)
    ensures a == b && x == y
    decreases |a|
  {
    var s, t := a + (['.'] + x), b + (['.'] + y);
    if |a| == 0 || |b| == 0 {
      assert s[0] == t[0];
      assert |a| == 0 && |b| == 0;
      assert x == s[1..] && y == t[1..];
    } else {
      assert s[1..] == a[1..] + (['.'] + x) && t[1..] == b[1..] + (['.'] + y);
      assert a[0] == s[0] && b[0] == t[0];
      DotSplits(a[1..], x, b[1..], y);
      assert a == [a[0]] + a[1..] && b == [b[0]] + b[1..];
    }
  }

  /** Modules compiled side by side never share an artifact, since their names have no dot. */
  lemma ModulesShareNothing(m: string, n: string, archs: seq<string>, i: nat, j: nat)
    requires '.' !in m && '.' !in n && m != n && i < |archs| && j < |archs|
    ensures PortableName(m) != PortableName(n) && CubinName(m, archs[i]) != CubinName(n, archs[j])
    ensures PortableName(m) != CubinName(n, archs[j])
    ensures IsArtifact(PortableName(m)) && IsArtifact(CubinName(m, archs[i]))
  {
    var ptx, cubin, cubin' := "portable.ptx", archs[i] + ".cubin", archs[j] + ".cubin";
    assert ".portable.ptx" == ['.'] + ptx;
    if PortableName(m) == PortableName(n) {
      DotSplits(m, ptx, n, ptx);
    }
    if CubinName(m, archs[i]) == CubinName(n, archs[j]) {
      DotSplits(m, cubin, n, cubin');
    }
    if PortableName(m) == CubinName(n, archs[j]) {
      DotSplits(m, ptx, n, cubin');
    }
    SuffixStripped(m, ".portable.ptx");
    SuffixStripped(m + ("." + archs[i]), ".cubin");
    assert m + ("." + archs[i]) + ".cubin" == CubinName(m, archs[i]);
  }
}
