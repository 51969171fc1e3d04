/**
  Properties of a whole record(data) call: the record-or-compare protocol,
  what happens to the stored recording, and how the handler and the file name
  are resolved.
 */
module RecorderProperties {
  import opened Wrappers
  import opened Paths
  import opened FileSystem
  import opened PathSearch
  import opened MismatchDirs
  import opened RecorderTypes
  import opened DiffTemplate
  import opened RecorderSpec

  /** The recording file of a configuration whose directory and file name are set. */
  function PathOf(c: Config): Path
    requires c.recordingDir.Some? && c.recordingFilename.Some?
  {
    RecordingPath(c.recordingDir.value, c.recordingFilename.value)
  }

  /** record has a file name to use: a set one, or the default built from two non-empty test names. */
  predicate HasFilename(c: Config, env: Env)
  {
    c.recordingFilename.Some? || TestnameAsFilename(env.testCaseName, env.testName).Success?
  }

  /** The configuration with the file name record uses: the set one, otherwise `<case>_<name>.data`. */
  function Named(c: Config, env: Env): (n: Config)
    requires HasFilename(c, env)
    ensures n.recordingDir == c.recordingDir && n.onMismatch == c.onMismatch
    ensures n.recordingFilename == if c.recordingFilename.Some? then c.recordingFilename
                                   else Some(env.testCaseName + "_" + env.testName + ".data")
  {
    if c.recordingFilename.Some? then c
    else c.(recordingFilename := Some(TestnameAsFilename(env.testCaseName, env.testName).value))
  }

  /** The recording file a record call reads or writes. */
  function FileOf(c: Config, env: Env): Path
    requires c.recordingDir.Some? && HasFilename(c, env)
  {
    PathOf(Named(c, env))
  }

  /**
    With a directory set, a call without a file name behaves exactly as the
    call on the configuration whose file name is already the default one.
   */
  lemma DefaultNameReduces(c: Config, d: Disk, data: string, env: Env)
    requires c.recordingDir.Some? && HasFilename(c, env)
    ensures RecordSpec(c, d, data, env) == RecordSpec(Named(c, env), d, data, env)
  {
    var n := Named(c, env);
    assert WithHandler(n, env.cwd, d.paths)
           == WithHandler(c, env.cwd, d.paths).(recordingFilename := n.recordingFilename);
  }

  /** Only the handler field may change before the disk is touched. */
  lemma WithHandlerKeepsPaths(c: Config, cwd: Path, present: set<Path>)
    ensures WithHandler(c, cwd, present).recordingDir == c.recordingDir
    ensures WithHandler(c, cwd, present).recordingFilename == c.recordingFilename
    ensures WithHandler(c, cwd, present).onMismatch.Some?
  {
  }

  /** A call on an existing recording compares after the handler step, with the configuration it leaves. */
  lemma RecordExisting(c: Config, d: Disk, data: string, env: Env)
    requires c.recordingDir.Some? && HasFilename(c, env)
    requires FileOf(c, env) in d.paths
    ensures var c1 := WithHandler(Named(c, env), env.cwd, d.paths);
            var p := FileOf(c, env);
            RecordSpec(c, d, data, env)
            == if !d.CanRead(p) then Step(Abort(CannotOpenForReading(p)), c1, d)
               else
                 var e := CompareSpec(c1, d, data, d.files[p], env.tmp);
                 Step(e.outcome, c1, e.disk)
  {
    DefaultNameReduces(c, d, data, env);
    var c1 := WithHandler(Named(c, env), env.cwd, d.paths);
    assert c1.(recordingFilename := Some(c1.recordingFilename.value)) == c1;
  }

  /** The comparison of a configuration with directory, file name and handler set, step by step. */
  lemma CompareSteps(c: Config, d: Disk, data: string, recordingData: string, tmp: Path)
    requires c.recordingDir.Some? && c.recordingFilename.Some? && c.onMismatch.Some?
    ensures var a := AllocateSpec(c.recordingDir, d, tmp);
            CompareSpec(c, d, data, recordingData, tmp)
            == if a.result.Failure? then Effect(Abort(a.result.error), a.disk)
               else if data == recordingData then Effect(Pass, a.disk)
               else InvokeSpec(c.onMismatch.value, Mismatch(recordingData, data, a.result.value, PathOf(c)), a.disk)
  {
  }

  /** The allocation succeeds whenever the temporary directory exists and its numbered entries can be created. */
  lemma AllocationSucceeds(dir: Option<Path>, d: Disk, tmp: Path)
    requires dir.Some? && d.IsDir(tmp)
    requires forall n :: Candidate(tmp, n) !in d.faulty
    ensures AllocateSpec(dir, d, tmp).result.Success?
  {
    var n := LeastFree(tmp, d.paths);
    ParentOfChild(tmp, MismatchDirName(n));
  }

  /**
    A missing recording is written with the data verbatim, and the call passes;
    if it cannot be opened for writing the call aborts and the disk is unchanged.
   */
  lemma RecordWritesMissingRecording(c: Config, d: Disk, data: string, env: Env)
    requires c.recordingDir.Some? && HasFilename(c, env)
    requires FileOf(c, env) !in d.paths
    ensures var s := RecordSpec(c, d, data, env);
            var p := FileOf(c, env);
            && s.outcome == (if d.CanWrite(p) then Pass else Abort(CannotOpenForWriting(p)))
            && s.disk == (if d.CanWrite(p) then d.Write(p, data) else d)
            && (d.CanWrite(p) ==> s.disk.files[p] == data)
  {
    DefaultNameReduces(c, d, data, env);
  }

  /**
    An existing recording with the same data passes, but a mismatch directory
    is still allocated: the disk gains exactly that directory.
   */
  lemma RecordEqualData(c: Config, d: Disk, data: string, env: Env)
    requires c.recordingDir.Some? && HasFilename(c, env)
    requires d.CanRead(FileOf(c, env)) && d.files[FileOf(c, env)] == data
    ensures var s := RecordSpec(c, d, data, env);
            var a := AllocateSpec(c.recordingDir, d, env.tmp);
            && s.outcome == (if a.result.Success? then Pass else Abort(a.result.error))
            && s.disk == a.disk
            && (a.result.Success? ==> a.result.value !in d.paths && s.disk.paths == d.paths + {a.result.value})
  {
    RecordExisting(c, d, data, env);
    CompareSteps(WithHandler(Named(c, env), env.cwd, d.paths), d, data, data, env.tmp);
    var a := AllocateSpec(c.recordingDir, d, env.tmp);
    if a.result.Success? {
      AllocationIsFreshAndLeast(c.recordingDir, d, env.tmp);
    }
  }

  /**
    An existing recording with different data goes to the handler, which is
    told the stored data, the new data, the fresh mismatch directory and the
    recording's path; the call ends as the handler does.
   */
  lemma RecordMismatch(c: Config, d: Disk, data: string, env: Env)
    requires c.recordingDir.Some? && HasFilename(c, env)
    requires d.CanRead(FileOf(c, env)) && d.files[FileOf(c, env)] != data
    requires AllocateSpec(c.recordingDir, d, env.tmp).result.Success?
    ensures var s := RecordSpec(c, d, data, env);
            var a := AllocateSpec(c.recordingDir, d, env.tmp);
            var p := FileOf(c, env);
            var m := Mismatch(d.files[p], data, a.result.value, p);
            var h := WithHandler(c, env.cwd, d.paths).onMismatch.value;
            && s.outcome == InvokeSpec(h, m, a.disk).outcome
            && s.disk == InvokeSpec(h, m, a.disk).disk
  {
    RecordExisting(c, d, data, env);
    CompareSteps(WithHandler(Named(c, env), env.cwd, d.paths), d, data, d.files[FileOf(c, env)], env.tmp);
  }

  /** With a callback given by on_mismatch, a mismatch fails with the callback's error for that report. */
  lemma MismatchWithCallback(c: Config, d: Disk, data: string, env: Env, f: Mismatch -> Error)
    requires c.recordingDir.Some? && HasFilename(c, env) && c.onMismatch == Some(Custom(f))
    requires d.CanRead(FileOf(c, env)) && d.files[FileOf(c, env)] != data
    requires AllocateSpec(c.recordingDir, d, env.tmp).result.Success?
    ensures var a := AllocateSpec(c.recordingDir, d, env.tmp);
            var p := FileOf(c, env);
            RecordSpec(c, d, data, env)
            == Step(Fail(f(Mismatch(d.files[p], data, a.result.value, p))), Named(c, env), a.disk)
  {
    RecordMismatch(c, d, data, env);
  }

  /** With the default handler, a mismatch fails with the stored and the new data and changes nothing else. */
  lemma MismatchWithDefaultHandler(c: Config, d: Disk, data: string, env: Env)
    requires c.recordingDir.Some? && HasFilename(c, env) && c.onMismatch == Some(DefaultHandler)
    requires d.CanRead(FileOf(c, env)) && d.files[FileOf(c, env)] != data
    requires AllocateSpec(c.recordingDir, d, env.tmp).result.Success?
    ensures RecordSpec(c, d, data, env).outcome == Fail(DefaultMismatch(d.files[FileOf(c, env)], data))
    ensures RecordSpec(c, d, data, env).disk == AllocateSpec(c.recordingDir, d, env.tmp).disk
  {
    RecordMismatch(c, d, data, env);
  }

  /**
    A record call never rewrites an existing recording: whatever the outcome
    and the handler, the stored content is the same afterwards.
   */
  lemma RecordKeepsExistingRecording(c: Config, d: Disk, data: string, env: Env)
    requires d.Valid()
    requires c.recordingDir.Some? && HasFilename(c, env)
    requires FileOf(c, env) in d.files
    ensures var s := RecordSpec(c, d, data, env);
            var p := FileOf(c, env);
            p in s.disk.files && s.disk.files[p] == d.files[p]
  {
    var n := Named(c, env);
    var path := FileOf(c, env);
    var c1 := WithHandler(n, env.cwd, d.paths);
    RecordExisting(c, d, data, env);
    if d.CanRead(path) {
      CompareSteps(c1, d, data, d.files[path], env.tmp);
      var a := AllocateSpec(c1.recordingDir, d, env.tmp);
      if a.result.Success? && d.files[path] != data {
        AllocationIsFreshAndLeast(c1.recordingDir, d, env.tmp);
        ParentOfChild(n.recordingDir.value, n.recordingFilename.value);
        assert d.IsDir(ParentPath(path));
        var m := Mismatch(d.files[path], data, a.result.value, path);
        assert ParentPath(path) != m.mismatchDir;
        InvokeStaysInMismatchDir(c1.onMismatch.value, m, a.disk);
      }
    }
  }

  /**
    The handler is determined at most once: a handler already set (by
    on_mismatch or an earlier call) is kept, and an unset one becomes the diff
    handler exactly when the visualizer page is found upward, whatever else
    the call does. The directory never changes.
   */
  lemma RecordResolvesHandlerOnce(c: Config, d: Disk, data: string, env: Env)
    ensures var s := RecordSpec(c, d, data, env);
            && s.config.onMismatch == (if c.onMismatch.Some? then c.onMismatch
                                       else Some(ResolveHandler(env.cwd, d.paths)))
            && s.config.recordingDir == c.recordingDir
  {
  }

  /**
    The file name defaults to `<case>_<name>.data` only when it is unset, the
    directory is set and both names are non-empty; a set file name is kept.
   */
  lemma RecordDefaultsFilename(c: Config, d: Disk, data: string, env: Env)
    ensures var s := RecordSpec(c, d, data, env);
            && (c.recordingFilename.Some? ==> s.config.recordingFilename == c.recordingFilename)
            && (c.recordingFilename.None? ==>
                  s.config.recordingFilename
                  == if c.recordingDir.Some? && env.testCaseName != [] && env.testName != []
                     then Some(env.testCaseName + "_" + env.testName + ".data")
                     else None)
  {
  }

  /** A call that finds no directory set aborts without touching the disk. */
  lemma RecordWithoutDirectory(c: Config, d: Disk, data: string, env: Env)
    requires c.recordingDir.None?
    ensures RecordSpec(c, d, data, env).outcome == Abort(RecordingDirNotSet)
    ensures RecordSpec(c, d, data, env).disk == d
  {
  }

  /** The first call on a missing recording writes it and passes; its resulting state, as the second call sees it. */
  lemma FirstRecordWrites(c: Config, d: Disk, data: string, env: Env)
    requires d.Valid() && d.IsDir(env.tmp) && (forall n :: Candidate(env.tmp, n) !in d.faulty)
    requires c.recordingDir.Some? && HasFilename(c, env)
    requires FileOf(c, env) !in d.paths && d.CanWrite(FileOf(c, env))
    ensures var s1 := RecordSpec(c, d, data, env);
            var p := FileOf(c, env);
            && s1.outcome == Pass
            && s1.config.recordingDir == c.recordingDir && HasFilename(s1.config, env)
            && s1.config.onMismatch.Some?
            && FileOf(s1.config, env) == p
            && s1.disk == d.Write(p, data)
            && s1.disk.Valid() && s1.disk.IsDir(env.tmp)
            && (forall n :: Candidate(env.tmp, n) !in s1.disk.faulty)
  {
    var s1 := RecordSpec(c, d, data, env);
    var p := FileOf(c, env);
    RecordWritesMissingRecording(c, d, data, env);
    RecordDefaultsFilename(c, d, data, env);
    RecordResolvesHandlerOnce(c, d, data, env);
    assert s1.config.recordingFilename == Named(c, env).recordingFilename;
    WritePreservesValid(d, p, data);
  }

  /**
    The first call writes the baseline; a second call with the same data then
    passes (given a usable temporary directory).
   */
  lemma RecordTwice(c: Config, d: Disk, data: string, env: Env)
    requires d.Valid() && d.IsDir(env.tmp) && (forall n :: Candidate(env.tmp, n) !in d.faulty)
    requires c.recordingDir.Some? && HasFilename(c, env)
    requires FileOf(c, env) !in d.paths && d.CanWrite(FileOf(c, env))
    ensures var s1 := RecordSpec(c, d, data, env);
            var s2 := RecordSpec(s1.config, s1.disk, data, env);
            s1.outcome == Pass && s2.outcome == Pass
  {
    var s1 := RecordSpec(c, d, data, env);
    FirstRecordWrites(c, d, data, env);
    AllocationSucceeds(s1.config.recordingDir, s1.disk, env.tmp);
    RecordEqualData(s1.config, s1.disk, data, env);
  }

  /**
    The first call writes `a`; a second call with different data `b` reports
    the mismatch of `a` against `b` at the recording's path to the handler, and
    the recording still holds `a` afterwards.
   */
  lemma RecordThenDifferentData(c: Config, d: Disk, a: string, b: string, env: Env)
    requires d.Valid() && d.IsDir(env.tmp) && (forall n :: Candidate(env.tmp, n) !in d.faulty)
    requires c.recordingDir.Some? && HasFilename(c, env)
    requires FileOf(c, env) !in d.paths && d.CanWrite(FileOf(c, env))
    requires a != b
    ensures var s1 := RecordSpec(c, d, a, env);
            var s2 := RecordSpec(s1.config, s1.disk, b, env);
            var alloc := AllocateSpec(c.recordingDir, s1.disk, env.tmp);
            && s1.outcome == Pass
            && alloc.result.Success?
            && s2.outcome == InvokeSpec(s1.config.onMismatch.value,
                                        Mismatch(a, b, alloc.result.value, FileOf(c, env)), alloc.disk).outcome
            && FileOf(c, env) in s2.disk.files && s2.disk.files[FileOf(c, env)] == a
  {
    var s1 := RecordSpec(c, d, a, env);
    FirstRecordWrites(c, d, a, env);
    AllocationSucceeds(s1.config.recordingDir, s1.disk, env.tmp);
    RecordMismatch(s1.config, s1.disk, b, env);
    RecordKeepsExistingRecording(s1.config, s1.disk, b, env);
  }

  // ---------------------------------------------------------------------------
  // Well-formed disks stay well formed, so the properties chain across calls

  lemma AllocatePreservesValid(dir: Option<Path>, d: Disk, tmp: Path)
    requires d.Valid()
    ensures AllocateSpec(dir, d, tmp).disk.Valid()
  {
    if dir.Some? {
      var p := Candidate(tmp, LeastFree(tmp, d.paths));
      if d.CanCreateDirectory(p) {
        AddDirectoryPreservesValid(d, p);
      }
    }
  }

  lemma WriteDiffFilesPreservesValid(page: Path, html: string, m: Mismatch, d: Disk)
    requires d.Valid()
    ensures WriteDiffFiles(page, html, m, d).disk.Valid()
  {
    if d.CanWrite(page) {
      WritePreservesValid(d, page, html);
      var d1 := d.Write(page, html);
      if d1.CanWrite(MismatchDataPath(m)) {
        WritePreservesValid(d1, MismatchDataPath(m), m.mismatchData);
      }
    }
  }

  lemma InvokePreservesValid(h: Handler, m: Mismatch, d: Disk)
    requires d.Valid()
    ensures InvokeSpec(h, m, d).disk.Valid()
  {
    if h.DiffHandler? && d.CanRead(h.template) {
      WriteDiffFilesPreservesValid(DiffPagePath(h.template, m),
                                   RenderDiff(d.files[h.template], m.recordingData, m.mismatchData), m, d);
    }
  }

  lemma ComparePreservesValid(c: Config, d: Disk, data: string, recordingData: string, tmp: Path)
    requires d.Valid()
    ensures CompareSpec(c, d, data, recordingData, tmp).disk.Valid()
  {
    if c.recordingFilename.Some? {
      var a := AllocateSpec(c.recordingDir, d, tmp);
      AllocatePreservesValid(c.recordingDir, d, tmp);
      if a.result.Success? && data != recordingData && c.onMismatch.Some? {
        var m := Mismatch(recordingData, data, a.result.value,
                          RecordingPath(c.recordingDir.value, c.recordingFilename.value));
        InvokePreservesValid(c.onMismatch.value, m, a.disk);
      }
    }
  }

  /** A record call leaves a well-formed disk well formed, whatever it does. */
  lemma RecordPreservesValid(c: Config, d: Disk, data: string, env: Env)
    requires d.Valid()
    ensures RecordSpec(c, d, data, env).disk.Valid()
  {
    var c1 := WithHandler(c, env.cwd, d.paths);
    if c1.recordingDir.Some? {
      var name := if c1.recordingFilename.Some? then Success(c1.recordingFilename.value)
                  else TestnameAsFilename(env.testCaseName, env.testName);
      if name.Success? {
        var c2 := c1.(recordingFilename := Some(name.value));
        var path := RecordingPath(c1.recordingDir.value, name.value);
        if path in d.paths {
          if d.CanRead(path) {
            ComparePreservesValid(c2, d, data, d.files[path], env.tmp);
          }
        } else if d.CanWrite(path) {
          WritePreservesValid(d, path, data);
        }
      }
    }
  }

  /** A run of record calls on one recorder, each on the configuration and disk the previous one left. */
  ghost function RecordAll(c: Config, d: Disk, inputs: seq<string>, env: Env): Step
    decreases |inputs|
  {
    if inputs == [] then Step(Pass, c, d)
    else
      var s := RecordSpec(c, d, inputs[0], env);
      if |inputs| == 1 then s else RecordAll(s.config, s.disk, inputs[1..], env)
  }

  /** One record call on an existing recording: the paths stay, the disk stays well formed, the recording is kept. */
  lemma RecordStepKeepsRecording(c: Config, d: Disk, data: string, env: Env)
    requires d.Valid()
    requires c.recordingDir.Some? && HasFilename(c, env)
    requires FileOf(c, env) in d.files
    ensures var s := RecordSpec(c, d, data, env);
            var p := FileOf(c, env);
            && s.config.recordingDir == c.recordingDir
            && s.config.recordingFilename == Named(c, env).recordingFilename
            && s.disk.Valid()
            && p in s.disk.files && s.disk.files[p] == d.files[p]
  {
    RecordKeepsExistingRecording(c, d, data, env);
    RecordResolvesHandlerOnce(c, d, data, env);
    RecordDefaultsFilename(c, d, data, env);
    RecordPreservesValid(c, d, data, env);
  }

  /** However many record calls follow, an existing recording keeps its content. */
  lemma {:induction false} RecordAllKeepsRecording(c: Config, d: Disk, inputs: seq<string>, env: Env)
    requires d.Valid()
    requires c.recordingDir.Some? && HasFilename(c, env)
    requires FileOf(c, env) in d.files
    ensures var s := RecordAll(c, d, inputs, env);
            var p := FileOf(c, env);
            && s.config.recordingDir == c.recordingDir
            && s.config.recordingFilename == (if inputs == [] then c.recordingFilename
                                              else Named(c, env).recordingFilename)
            && p in s.disk.files && s.disk.files[p] == d.files[p]
    decreases |inputs|
  {
    if inputs != [] {
      var s := RecordSpec(c, d, inputs[0], env);
      RecordStepKeepsRecording(c, d, inputs[0], env);
      if |inputs| > 1 {
        assert FileOf(s.config, env) == FileOf(c, env);
        RecordAllKeepsRecording(s.config, s.disk, inputs[1..], env);
      }
    }
  }
}
