/**
 `KernelCompiler` of crates/xlog-cuda/build.rs with the fields its methods update: the memo of input
 digests, the counters, and the output directory. `history` records the directory after every single
 file operation, so that what an interruption may leave behind can be talked about.
 */
module KernelCompiler {
  import opened Lists
  import opened ArtifactKey
  import opened ArtifactCache

  /** The digest of each dependency, as the memo holds it. */
  function WithDigests(inputs: map<Bytes, Key>, canonical: Bytes -> Option<Bytes>,
                       paths: seq<Bytes>): (deps: seq<Dependency>)
    requires forall p :: p in paths ==> canonical(p).Some? && canonical(p).value in inputs
    ensures |deps| == |paths|
  {
    if |paths| == 0 then []
    else [Dependency(paths[0], inputs[canonical(paths[0]).value])] + WithDigests(inputs, canonical, paths[1..])
  }

  predicate AllDigested(inputs: map<Bytes, Key>, canonical: Bytes -> Option<Bytes>, paths: seq<Bytes>) {
    forall p :: p in paths ==> canonical(p).Some? && canonical(p).value in inputs
  }

  /** The memo only grows, and a new entry is the digest of the file's contents. */
  ghost predicate Grown(before: map<Bytes, Key>, after: map<Bytes, Key>, files: map<Bytes, Bytes>, sha: Bytes -> Key) {
    && (forall p :: p in before ==> p in after && after[p] == before[p])
    && (forall p :: p in after && p !in before ==> p in files && after[p] == sha(files[p]))
  }

  lemma {:induction false} DigestsKept(a: map<Bytes, Key>, b: map<Bytes, Key>, canonical: Bytes -> Option<Bytes>,
                                       paths: seq<Bytes>)
    requires AllDigested(a, canonical, paths) && forall p :: p in a ==> p in b && b[p] == a[p]
    ensures AllDigested(b, canonical, paths) && WithDigests(a, canonical, paths) == WithDigests(b, canonical, paths)
  {
    if |paths| > 0 {
      DigestsKept(a, b, canonical, paths[1..]);
    }
  }

  lemma {:induction false} DigestsAppend(inputs: map<Bytes, Key>, canonical: Bytes -> Option<Bytes>, paths: seq<Bytes>,
                                         p: Bytes)
    requires AllDigested(inputs, canonical, paths + [p])
    ensures AllDigested(inputs, canonical, paths)
    ensures WithDigests(inputs, canonical, paths + [p])
            == (assert p in paths + [p];
                WithDigests(inputs, canonical, paths) + [Dependency(p, inputs[canonical(p).value])])
  {
    assert forall q :: q in paths ==> q in paths + [p];
    assert p in paths + [p];
    if |paths| > 0 {
      assert (paths + [p])[1..] == paths[1..] + [p];
      DigestsAppend(inputs, canonical, paths[1..], p);
    }
  }

  // ---------------------------------------------------------------- the memo, and what a key stands for

  predicate AllReadable(files: map<Bytes, Bytes>, canonical: Bytes -> Option<Bytes>, paths: seq<Bytes>) {
    forall p :: p in paths ==> canonical(p).Some? && canonical(p).value in files
  }

  /** The dependencies digested without a memo. */
  function ReadDigests(files: map<Bytes, Bytes>, sha: Bytes -> Key, canonical: Bytes -> Option<Bytes>,
                       paths: seq<Bytes>)
    : (deps: seq<Dependency>)
    requires AllReadable(files, canonical, paths)
  {
    if |paths| == 0 then []
    else [Dependency(paths[0], sha(files[canonical(paths[0]).value]))] + ReadDigests(files, sha, canonical, paths[1..])
  }

  ghost predicate Honest(inputs: map<Bytes, Key>, files: map<Bytes, Bytes>, sha: Bytes -> Key) {
    forall p :: p in inputs ==> p in files && inputs[p] == sha(files[p])
  }

  /** As long as the files stay as they are, the memo stays right and gives what reading every file would. */
  lemma {:induction false} MemoEqualsReading(before: map<Bytes, Key>, inputs: map<Bytes, Key>, files: map<Bytes, Bytes>,
                                             sha: Bytes -> Key, canonical: Bytes -> Option<Bytes>, paths: seq<Bytes>)
    requires Honest(before, files, sha) && Grown(before, inputs, files, sha) && AllDigested(inputs, canonical, paths)
    ensures Honest(inputs, files, sha) && AllReadable(files, canonical, paths)
    ensures WithDigests(inputs, canonical, paths) == ReadDigests(files, sha, canonical, paths)
  {
    if |paths| > 0 {
      MemoEqualsReading(before, inputs, files, sha, canonical, paths[1..]);
    }
  }

  ghost predicate CollisionFree(sha: Bytes -> Key, seen: set<Bytes>) {
    forall x, y :: x in seen && y in seen && sha(x) == sha(y) ==> x == y
  }

  /** One build's view of the files an artifact depends on. */
  datatype Sources = Sources(files: map<Bytes, Bytes>, canonical: Bytes -> Option<Bytes>, paths: seq<Bytes>) {
    predicate Valid() {
      AllReadable(files, canonical, paths) && forall p :: p in paths ==> Fits(p)
    }

    function Contents(i: nat): Bytes
      requires Valid() && i < |paths|
    {
      files[canonical(paths[i]).value]
    }

    ghost predicate SeenIn(seen: set<Bytes>)
      requires Valid()
    {
      forall i :: 0 <= i < |paths| ==> Contents(i) in seen
    }

    function Digests(sha: Bytes -> Key): seq<Dependency>
      requires Valid()
    {
      ReadDigests(files, sha, canonical, paths)
    }
  }

  lemma {:induction false} ReadDigestsAt(s: Sources, sha: Bytes -> Key)
    requires s.Valid()
    ensures AllValid(s.Digests(sha)) && |s.Digests(sha)| == |s.paths|
    ensures forall i :: 0 <= i < |s.paths| ==> s.Digests(sha)[i] == Dependency(s.paths[i], sha(s.Contents(i)))
    decreases |s.paths|
  {
    if |s.paths| > 0 {
      var rest := s.(paths := s.paths[1..]);
      ReadDigestsAt(rest, sha);
      assert s.Digests(sha) == [Dependency(s.paths[0], sha(s.Contents(0)))] + rest.Digests(sha);
      assert forall i :: 1 <= i < |s.paths| ==> s.Contents(i) == rest.Contents(i - 1);
    }
  }

  /**
   Unless two of the byte strings that were hashed collide, equal keys mean the same compiler,
   phase, arguments and PTX version, the same dependencies in the same order, and the same contents
   of each of them: for equal numbers of arguments always, and for what the build can come by also
   for numbers that differ by one and for equal numbers of dependencies, one for the assembler.
   */
  lemma EqualKeysMeanEqualInputs(sha: Bytes -> Key, seen: set<Bytes>, portable: bool, a: Inputs, b: Inputs, s: Sources,
                                 t: Sources)
    requires CollisionFree(sha, seen) && s.Valid() && t.Valid() && s.SeenIn(seen) && t.SeenIn(seen)
    requires a.deps == s.Digests(sha) && |a.compiler| == 32
    requires b.deps == t.Digests(sha) && |b.compiler| == 32
    requires Fits(a.phase) && Fits(b.phase) && AllFit(a.args) && AllFit(b.args) && Fits(a.maxVersion)
    requires Fits(b.maxVersion)
    requires Preimage(a, portable) in seen && Preimage(b, portable) in seen
    requires |a.args| == |b.args|
             || (Received(a) && Received(b) && (-1 <= |a.args| - |b.args| <= 1 || |a.deps| == |b.deps|))
    requires sha(Preimage(a, portable)) == sha(Preimage(b, portable))
    ensures a.compiler == b.compiler && a.phase == b.phase && a.args == b.args
    ensures (portable ==> a.maxVersion == b.maxVersion)
    ensures s.paths == t.paths && forall i :: 0 <= i < |s.paths| ==> s.Contents(i) == t.Contents(i)
  {
    ReadDigestsAt(s, sha);
    ReadDigestsAt(t, sha);
    if |a.args| == |b.args| {
      PreimageInjective(a, b, portable);
    } else if |a.deps| == |b.deps| {
      SameDependencyCount(a, b, portable);
    } else {
      CloseCounts(a, b, portable);
    }
    assert |s.paths| == |t.paths|;
    forall i | 0 <= i < |s.paths|
      ensures s.paths[i] == t.paths[i] && s.Contents(i) == t.Contents(i)
    {
      assert s.Digests(sha)[i] == t.Digests(sha)[i];
    }
  }

  /** Two directories that differ in files of `f` only. */
  ghost predicate OthersSame(before: Disk, after: Disk, f: string) {
    forall g :: IsArtifact(g) && g != f ==> ViewOf(after, g) == ViewOf(before, g)
  }

  lemma OwnFileEdited(before: Disk, f: string, file: string, bytes: Bytes)
    requires IsArtifact(f) && file in Files(f)
    ensures OthersSame(before, before[file := bytes], f) && OthersSame(before, before - {file}, f)
  {
    forall g | IsArtifact(g) && g != f
      ensures ViewOf(before[file := bytes], g) == ViewOf(before, g) == ViewOf(before - {file}, g)
    {
      FilesApart(f, g, file);
      OthersUntouched(before, file, bytes, g);
    }
  }

  /** A change to the files of `f` is harmless as long as those stay coherent. */
  lemma StillCoherent(make: Compiler, before: Disk, after: Disk, f: string)
    requires OthersSame(before, after, f) && CoherentDisk(make, before) && Coherent(make, f, ViewOf(after, f))
    ensures CoherentDisk(make, after)
  {
  }

  class Kernels {
    const compilerKey: Key
    const sha: Bytes -> Key
    const canonical: Bytes -> Option<Bytes>
    const make: Compiler
    var inputs: map<Bytes, Key>
    var reused: nat
    var compiled: nat
    var disk: Disk
    ghost var history: seq<Disk>

    constructor (compilerKey: Key, sha: Bytes -> Key, canonical: Bytes -> Option<Bytes>, make: Compiler, disk: Disk)
      ensures this.compilerKey == compilerKey && this.sha == sha && this.canonical == canonical && this.make == make
      ensures inputs == map[] && reused == compiled == 0 && this.disk == disk && history == [disk]
    {
      this.compilerKey, this.sha, this.canonical, this.make := compilerKey, sha, canonical, make;
      inputs, reused, compiled, this.disk, history := map[], 0, 0, disk, [disk];
    }

    /** `input_digest`: every file is read once. */
    method InputDigest(path: Bytes, files: map<Bytes, Bytes>) returns (r: Result<Key>)
      modifies this`inputs
      ensures Grown(old(inputs), inputs, files, sha)
      ensures r.Ok? <==> Known(path, old(inputs), files)
      ensures r.Ok? ==> canonical(path).value in inputs && inputs[canonical(path).value] == r.value
      ensures inputs.Keys == old(inputs).Keys + if r.Ok? then {canonical(path).value} else {}
    {
      var resolved := canonical(path);
      if resolved.None? {
        return Err("resolve build input");
      }
      var p := resolved.value;
      if p !in inputs {
        if p !in files {
          return Err("read build input");
        }
        inputs := inputs[p := sha(files[p])];
      }
      r := Ok(inputs[p]);
    }

    /** The hash of everything that decides an artifact, field by field. */
    method InputKey(phase: Bytes, args: seq<Bytes>, maxVersion: Bytes, portable: bool, paths: seq<Bytes>,
                    files: map<Bytes, Bytes>)
      returns (r: Result<Key>)
      modifies this`inputs
      ensures Grown(old(inputs), inputs, files, sha)
      ensures r.Ok? ==> AllDigested(inputs, canonical, paths)
                        && var deps := WithDigests(inputs, canonical, paths);
                           r.value == sha(Preimage(Inputs(compilerKey, phase, args, maxVersion, deps), portable))
      ensures r.Ok? <==> forall p :: p in paths ==> Known(p, old(inputs), files)
    {
      var hash := HashArguments(compilerKey + Field(phase), args);
      if portable {
        hash := hash + Field(maxVersion);
      }
      assert hash == compilerKey + Field(phase) + Fields(args) + if portable then Field(maxVersion) else [];
      var all := HashDependencies(hash, paths, files);
      r := if all.Ok? then Ok(sha(all.value)) else Err(all.error);
    }

    /** The path resolves to a file that was read before or can be read now. */
    predicate Known(path: Bytes, inputs: map<Bytes, Key>, files: map<Bytes, Bytes>) {
      canonical(path).Some? && (canonical(path).value in inputs || canonical(path).value in files)
    }

    method HashArguments(start: Bytes, args: seq<Bytes>) returns (hash: Bytes)
      ensures hash == start + Fields(args)
    {
      hash := start;
      for i := 0 to |args|
        invariant hash == start + Fields(args[..i])
      {
        HashedArgument(start, args, i);
        hash := hash + Field(args[i]);
      }
      assert args[..|args|] == args;
    }

    lemma HashedArgument(start: Bytes, args: seq<Bytes>, i: nat)
      requires i < |args|
      ensures start + Fields(args[..i + 1]) == start + Fields(args[..i]) + Field(args[i])
    {
      assert args[..i + 1] == args[..i] + [args[i]];
      FieldsConcat(args[..i], [args[i]]);
      FieldsOfOne(args[i]);
      Regroup(start, Fields(args[..i]), Field(args[i]));
    }

    method HashDependencies(start: Bytes, paths: seq<Bytes>, files: map<Bytes, Bytes>) returns (r: Result<Bytes>)
      modifies this`inputs
      ensures Grown(old(inputs), inputs, files, sha)
      ensures r.Ok? ==> AllDigested(inputs, canonical, paths)
      ensures r.Ok? ==> r.value == start + DependencyBytes(WithDigests(inputs, canonical, paths))
      ensures r.Ok? <==> forall p :: p in paths ==> Known(p, old(inputs), files)
    {
      var hash := start;
      for i := 0 to |paths|
        invariant Grown(old(inputs), inputs, files, sha)
        invariant HashedSoFar(hash, start, paths[..i], old(inputs), inputs, files)
      {
        ghost var now, path := inputs, paths[i];
        var digest := InputDigest(paths[i], files);
        KnownStays(path, old(inputs), now, files);
        if digest.Err? {
          assert path in paths && !Known(path, old(inputs), files);
          return Err(digest.error);
        }
        assert paths[..i + 1] == paths[..i] + [path];
        HashedDependency(hash, start, paths[..i], path, old(inputs), now, inputs, files, digest.value);
        hash := hash + Field(paths[i]) + digest.value;
      }
      assert paths[..|paths|] == paths;
      r := Ok(hash);
    }

    /** The dependencies read so far are known, in the memo `now`, and hashed. */
    predicate HashedSoFar(hash: Bytes, start: Bytes, paths: seq<Bytes>, before: map<Bytes, Key>, now: map<Bytes, Key>,
                          files: map<Bytes, Bytes>) {
      && AllDigested(now, canonical, paths) && (forall p :: p in paths ==> Known(p, before, files))
      && hash == start + DependencyBytes(WithDigests(now, canonical, paths))
    }

    /** One dependency more is one length-prefixed path and one digest more. */
    lemma HashedDependency(hash: Bytes, start: Bytes, paths: seq<Bytes>, p: Bytes, before: map<Bytes, Key>,
                           now: map<Bytes, Key>, next: map<Bytes, Key>, files: map<Bytes, Bytes>, digest: Key)
      requires HashedSoFar(hash, start, paths, before, now, files) && Known(p, before, files)
      requires forall q :: q in now ==> q in next && next[q] == now[q]
      requires canonical(p).Some? && canonical(p).value in next && next[canonical(p).value] == digest
      ensures HashedSoFar(hash + Field(p) + digest, start, paths + [p], before, next, files)
    {
      DigestsKept(now, next, canonical, paths);
      DigestsAppend(next, canonical, paths, p);
      var done := WithDigests(next, canonical, paths);
      HashedBytes(start, done, Dependency(p, digest));
    }

    lemma HashedBytes(start: Bytes, done: seq<Dependency>, d: Dependency)
      ensures start + DependencyBytes(done + [d]) == start + DependencyBytes(done) + Field(d.path) + d.digest
    {
      DependencyBytesConcat(done, [d]);
      OneDependency(d);
      Regroup(start + DependencyBytes(done), Field(d.path), d.digest);
      Regroup(start, DependencyBytes(done), Field(d.path) + d.digest);
    }

    /** Reading other files does not change whether a digest can be had. */
    lemma KnownStays(p: Bytes, before: map<Bytes, Key>, now: map<Bytes, Key>, files: map<Bytes, Bytes>)
      requires Grown(before, now, files, sha)
      ensures Known(p, now, files) <==> Known(p, before, files)
    {
    }

    // ---------------------------------------------------------------- file operations

    method RemoveFile(name: string)
      requires name in disk
      modifies this`disk, this`history
      ensures disk == old(disk) - {name} && history == old(history) + [disk]
    {
      disk := disk - {name};
      history := history + [disk];
    }

    /** Publishes a file of artifact `f` under another of its names. */
    method RenameFile(ghost f: string, source: string, target: string)
      requires source in disk && IsArtifact(f) && source in Files(f) && target in Files(f)
      modifies this`disk, this`history
      ensures disk == Rename(old(disk), source, target) && history == old(history) + [disk]
      ensures OthersSame(old(disk), disk, f)
    {
      OwnFileEdited(disk, f, source, []);
      OwnFileEdited(disk - {source}, f, target, disk[source]);
      disk := Rename(disk, source, target);
      history := history + [disk];
    }

    /** Writes a file of artifact `f`; not atomic: an interruption may leave any contents, here `junk`. */
    method WriteFile(ghost f: string, name: string, bytes: Bytes, ghost junk: Bytes)
      requires IsArtifact(f) && name in Files(f)
      modifies this`disk, this`history
      ensures disk == old(disk)[name := bytes] && history == old(history) + [old(disk)[name := junk], disk]
      ensures OthersSame(old(disk), disk, f) && OthersSame(old(disk), old(disk)[name := junk], f)
    {
      OwnFileEdited(disk, f, name, bytes);
      OwnFileEdited(disk, f, name, junk);
      history := history + [disk[name := junk]];
      disk := disk[name := bytes];
      history := history + [disk];
    }

    /** Every directory recorded since the history had `start` entries satisfies the cache's invariant. */
    ghost predicate CoherentSince(start: nat)
      reads this
    {
      start <= |history| && forall k :: start <= k < |history| ==> CoherentDisk(make, history[k])
    }

    /** The directory after a successful compilation. */
    function Published(before: Disk, f: string, key: Key, artifact: Bytes): Disk {
      (before - {Partial(f), Partial(Fingerprint(f))})[f := artifact][Fingerprint(f) := Entry(key, artifact)]
    }

    /** The directory after a failed compilation: no entry, and what the compiler left of its output. */
    function Abandoned(before: Disk, f: string, left: Bytes): Disk {
      (before - {Fingerprint(f)})[Partial(f) := left]
    }

    /** The reuse branch of `compile_artifact`: the hash of a valid previous output. */
    method TryReuse(f: string, key: Key) returns (r: Option<Word>)
      modifies this`reused
      ensures r.Some? <==> Matches(Get(disk, Fingerprint(f)), Get(disk, f), key)
      ensures r.Some? ==> r.value == Hash(Get(disk, f))
      ensures reused == old(reused) + if r.Some? then 1 else 0
    {
      if Fingerprint(f) in disk {
        var previous := disk[Fingerprint(f)];
        if |previous| == 40 && previous[..32] == key && f in disk {
          var bytes := disk[f];
          var hash := ComputeFnv1a64(bytes);
          if bytes != [] && previous[32..] == LittleEndian(hash, 8) {
            reused := reused + 1;
            return Some(hash);
          }
        }
      }
      r := None;
    }

    /**
     `compile_artifact` once the key is known. `junk` is what an interrupted or failed writer may
     leave. The result is the hash of what the compiler makes of the key, reused or not; the
     directory is coherent after every file operation; no other artifact is touched.
     */
    method CompileArtifact(f: string, key: Key, junk: Bytes) returns (r: Result<Word>)
      requires IsArtifact(f)
      modifies this`reused, this`compiled, this`disk, this`history
      ensures CoherentDisk(make, old(disk)) ==>
                && CoherentDisk(make, disk) && CoherentSince(|old(history)|)
                && (r.Ok? ==> MadeFrom(make, f, key, Get(disk, f)) && r.value == Hash(make(f, key)))
      ensures r.Ok? ==> Matches(Get(disk, Fingerprint(f)), Get(disk, f), key)
      ensures OthersSame(old(disk), disk, f)
      ensures var found, out := Matches(Get(old(disk), Fingerprint(f)), Get(old(disk), f), key), make(f, key);
              if found then r.Ok? && disk == old(disk) && reused == old(reused) + 1 && compiled == old(compiled)
              else
                && reused == old(reused)
                && (r.Ok? <==> out.Some? && out.value != [])
                && compiled == old(compiled) + (if r.Ok? then 1 else 0)
                && (r.Ok? ==> disk == Published(old(disk), f, key, out.value))
                && (r.Err? ==> disk == Abandoned(old(disk), f, if out.Some? then [] else junk))
    {
      var known := TryReuse(f, key);
      if known.Some? {
        if CoherentDisk(make, disk) {
          CheckStep(make, f, ViewOf(disk, f), key);
        }
        return Ok(known.value);
      }
      r := Recompile(f, key, junk);
      if r.Ok? {
        PublishedMatches(old(disk), f, key, make(f, key).value);
      }
    }

    lemma PublishedMatches(before: Disk, f: string, key: Key, artifact: Bytes)
      requires IsArtifact(f) && artifact != []
      ensures var disk := Published(before, f, key, artifact);
              Get(disk, f) == Some(artifact) && Matches(Get(disk, Fingerprint(f)), Get(disk, f), key)
    {
      FilesDistinct(f);
      assert Files(f)[0] != Files(f)[1];
      MatchesIff(Some(Entry(key, artifact)), Some(artifact), key);
    }

    /** Without a fingerprint, the files of `f` are coherent whatever they hold. */
    lemma NoFingerprint(before: Disk, after: Disk, f: string)
      requires OthersSame(before, after, f) && CoherentDisk(make, before) && Fingerprint(f) !in after
      ensures CoherentDisk(make, after)
    {
      StillCoherent(make, before, after, f);
    }

    /** From the removal of the old entry to the end of the compiler. */
    method RunCompiler(f: string, key: Key, junk: Bytes) returns (ok: bool)
      requires IsArtifact(f)
      modifies this`disk, this`history
      ensures CoherentDisk(make, old(disk)) ==> CoherentDisk(make, disk) && CoherentSince(|old(history)|)
      ensures OthersSame(old(disk), disk, f) && |history| >= |old(history)|
      ensures history[..|old(history)|] == old(history)
      ensures ok <==> make(f, key).Some?
      ensures disk == (old(disk) - {Fingerprint(f)})[Partial(f) := if ok then make(f, key).value else junk]
    {
      ghost var start := disk;
      FilesDistinct(f);
      OwnFileEdited(disk, f, Fingerprint(f), []);
      if Fingerprint(f) in disk {
        RemoveFile(Fingerprint(f));
      }
      assert disk == start - {Fingerprint(f)};
      var out := make(f, key);
      ok := out.Some?;
      WriteFile(f, Partial(f), if ok then out.value else junk, junk);
      assert Partial(f) != Fingerprint(f);
      if CoherentDisk(make, start) {
        NoFingerprint(start, start - {Fingerprint(f)}, f);
        NoFingerprint(start, (start - {Fingerprint(f)})[Partial(f) := junk], f);
        NoFingerprint(start, disk, f);
      }
    }

    /** From the published artifact to the published entry. */
    method Publish(f: string, key: Key, junk: Bytes) returns (hash: Word)
      requires IsArtifact(f) && Fingerprint(f) !in disk
      requires Partial(f) in disk && make(f, key) == Some(disk[Partial(f)]) && disk[Partial(f)] != []
      modifies this`disk, this`history
      ensures CoherentDisk(make, old(disk)) ==> CoherentDisk(make, disk) && CoherentSince(|old(history)|)
      ensures OthersSame(old(disk), disk, f) && |history| >= |old(history)|
      ensures history[..|old(history)|] == old(history)
      ensures disk == Published(old(disk), f, key, old(disk[Partial(f)])) && hash == Fnv1a64(old(disk[Partial(f)]))
    {
      ghost var start, bytes := disk, disk[Partial(f)];
      ghost var a, p, fp, e := f, Partial(f), Fingerprint(f), Partial(Fingerprint(f));
      FilesDistinct(f);
      ghost var s4 := Files(f);
      assert s4[0] != s4[1] && s4[0] != s4[2] && s4[0] != s4[3] && s4[1] != s4[2] && s4[1] != s4[3] && s4[2] != s4[3];
      hash := ComputeFnv1a64(disk[Partial(f)]);
      var entry := key + LittleEndian(hash, 8);
      RenameFile(f, Partial(f), f);
      ghost var renamed := disk;
      WriteFile(f, Partial(Fingerprint(f)), entry, junk);
      ghost var written := disk;
      RenameFile(f, Partial(Fingerprint(f)), Fingerprint(f));
      assert disk == Published(start, f, key, bytes);
      if CoherentDisk(make, start) {
        NoFingerprint(start, renamed, f);
        NoFingerprint(start, renamed[e := junk], f);
        NoFingerprint(start, written, f);
        assert MadeFrom(make, f, key, ViewOf(disk, f).artifact);
        StillCoherent(make, start, disk, f);
      }
    }

    method Recompile(f: string, key: Key, junk: Bytes) returns (r: Result<Word>)
      requires IsArtifact(f)
      modifies this`compiled, this`disk, this`history
      ensures CoherentDisk(make, old(disk)) ==> CoherentDisk(make, disk) && CoherentSince(|old(history)|)
      ensures OthersSame(old(disk), disk, f)
      ensures var out := make(f, key);
              && (r.Ok? <==> out.Some? && out.value != [])
              && compiled == old(compiled) + (if r.Ok? then 1 else 0)
              && (r.Ok? ==> disk == Published(old(disk), f, key, out.value) && r.value == Hash(out))
              && (r.Err? ==> disk == Abandoned(old(disk), f, if out.Some? then [] else junk))
    {
      FilesDistinct(f);
      assert Files(f)[1] != Files(f)[2];
      var ok := RunCompiler(f, key, junk);
      if !ok {
        return Err("compilation failed");
      }
      if disk[Partial(f)] == [] {
        return Err("compiler produced an empty artifact");
      }
      ghost var ran, out := disk, disk[Partial(f)];
      var hash := Publish(f, key, junk);
      assert Published(ran, f, key, out) == Published(old(disk), f, key, out);
      compiled := compiled + 1;
      r := Ok(hash);
    }

    /** The clean-up in `main`: each listed entry is removed if it is obsolete. */
    method RemoveObsoleteFiles(listing: seq<string>, expected: set<string>)
      requires forall n :: n in listing <==> n in disk
      requires forall i, j :: 0 <= i < j < |listing| ==> listing[i] != listing[j]
      modifies this`disk, this`history
      ensures forall n :: n in disk <==> n in old(disk) && !Obsolete(n, expected)
      ensures forall n :: n in disk ==> disk[n] == old(disk)[n]
      ensures CoherentDisk(make, old(disk)) ==> CoherentDisk(make, disk) && CoherentSince(|old(history)|)
    {
      ghost var start, before := |history|, disk;
      for i := 0 to |listing|
        invariant RemovedSoFar(before, disk, listing, expected, i)
        invariant start <= |history|
        invariant CoherentDisk(make, before) ==> CoherentDisk(make, disk) && CoherentSince(start)
      {
        RemovalStep(before, disk, listing, expected, i);
        if Obsolete(listing[i], expected) {
          RemovalIsCoherent(disk, listing[i]);
          RemoveFile(listing[i]);
        }
      }
      RemovedAll(before, disk, listing, expected);
    }

    lemma RemovalStep(before: Disk, after: Disk, listing: seq<string>, expected: set<string>, i: nat)
      requires RemovedSoFar(before, after, listing, expected, i) && i < |listing|
      requires forall i, j :: 0 <= i < j < |listing| ==> listing[i] != listing[j]
      ensures listing[i] in after
      ensures var removed := if Obsolete(listing[i], expected) then after - {listing[i]} else after;
              RemovedSoFar(before, removed, listing, expected, i + 1)
    {
      var removed := if Obsolete(listing[i], expected) then after - {listing[i]} else after;
      forall k | 0 <= k < |listing|
        ensures listing[k] in removed <==> !(k < i + 1 && Obsolete(listing[k], expected))
      {
        assert k != i ==> listing[k] != listing[i];
        assert listing[k] in after <==> !(k < i && Obsolete(listing[k], expected));
      }
    }

    lemma RemovedAll(before: Disk, after: Disk, listing: seq<string>, expected: set<string>)
      requires RemovedSoFar(before, after, listing, expected, |listing|)
      ensures forall n :: n in after <==> n in before && !Obsolete(n, expected)
    {
      forall n | n in before
        ensures n in after <==> !Obsolete(n, expected)
      {
        var k :| 0 <= k < |listing| && listing[k] == n;
      }
    }

    ghost predicate RemovedSoFar(before: Disk, after: Disk, listing: seq<string>, expected: set<string>, i: nat) {
      && i <= |listing|
      && (forall n :: n in before <==> n in listing)
      && (forall n :: n in after ==> n in before && after[n] == before[n])
      && forall k :: 0 <= k < |listing| ==> (listing[k] in after <==> !(k < i && Obsolete(listing[k], expected)))
    }

    lemma RemovalIsCoherent(before: Disk, name: string)
      ensures CoherentDisk(make, before) ==> CoherentDisk(make, before - {name})
    {
      forall g | CoherentDisk(make, before) && IsArtifact(g)
        ensures Coherent(make, g, ViewOf(before - {name}, g))
      {
        RemovalKeeps(make, before, name, g);
      }
    }
  }
}
