/**
  The recorder object: three optional fields that configuration calls set and
  record fills in lazily, and the record-or-compare protocol run against a
  FileStore. Every method is proved to do what its RecorderSpec function says.
 */
module DataRecorder {
  import opened Wrappers
  import opened Paths
  import opened FileSystem
  import opened PathSearch
  import opened MismatchDirs
  import opened DiffTemplate
  import opened RecorderTypes
  import opened RecorderSpec

  class DataRecorder {
    var recordingFilename: Option<string>
    var recordingDir: Option<Path>
    var onMismatch: Option<Handler>

    /** How many times determine_mismatch_handler has run on this recorder. */
    ghost var handlerResolutions: nat

    /** The handler is determined at most once, and once it has been, a handler is set. */
    ghost predicate Valid()
      reads this
    {
      handlerResolutions <= 1 && (handlerResolutions == 1 ==> onMismatch.Some?)
    }

    /** The three fields as a value. */
    function State(): Config
      reads this
    {
      Config(recordingDir, recordingFilename, onMismatch)
    }

    constructor ()
      ensures State() == Config(None, None, None)
      ensures handlerResolutions == 0 && Valid()
    {
      recordingFilename := None;
      recordingDir := None;
      onMismatch := None;
      handlerResolutions := 0;
    }

    /** set_recording_dir: stores the resolved directory, or aborts and keeps the old one. */
    method SetRecordingDir(dir: Path, cwd: Path, fs: FileStore) returns (r: Outcome)
      modifies this
      ensures var res := ResolveRecordingDir(dir, cwd, fs.disk.paths);
              && r == (if res.Success? then Pass else Abort(res.error))
              && recordingDir == (if res.Success? then Some(res.value) else old(recordingDir))
      ensures recordingFilename == old(recordingFilename) && onMismatch == old(onMismatch)
      ensures handlerResolutions == old(handlerResolutions)
    {
      if IsEmpty(dir) {
        return Abort(EmptyRecordingDir);
      }
      if dir.absolute {
        recordingDir := Some(dir);
        return Pass;
      }
      var basePath := ParentPath(dir);
      var fileName := FileName(dir);
      if IsEmpty(basePath) {
        recordingDir := Some(Join(cwd, Leaf(fileName)));
        return Pass;
      }
      var found := FindRelativePath(dir, cwd, fs);
      if found.NotFound? {
        return Abort(RecordingPathNotFound(dir, found.searched));
      }
      recordingDir := Some(found.path);
      r := Pass;
    }

    /** set_recording_filename: accepts exactly the names IsRecordingFilename admits, counting bytes in UTF-8. */
    method SetRecordingFilename(filename: string) returns (r: Outcome)
      modifies this
      ensures r == Pass <==> IsRecordingFilename(filename)
      ensures r != Pass ==> r == Abort(BadRecordingFilename(filename))
      ensures recordingFilename == if r == Pass then Some(filename) else old(recordingFilename)
      ensures recordingDir == old(recordingDir) && onMismatch == old(onMismatch)
      ensures handlerResolutions == old(handlerResolutions)
    {
      if !IsRecordingFilename(filename) {
        return Abort(BadRecordingFilename(filename));
      }
      recordingFilename := Some(filename);
      r := Pass;
    }

    /** on_mismatch: installs the caller's handler. */
    method OnMismatch(callback: Mismatch -> Error)
      requires Valid()
      modifies this
      ensures onMismatch == Some(Custom(callback))
      ensures recordingDir == old(recordingDir) && recordingFilename == old(recordingFilename)
      ensures handlerResolutions == old(handlerResolutions) && Valid()
    {
      onMismatch := Some(Custom(callback));
    }

    /** record(data): the record-or-compare protocol. */
    method Record(data: string, env: Env, fs: FileStore) returns (r: Outcome)
      requires Valid()
      modifies this, fs
      ensures Step(r, State(), fs.disk) == RecordSpec(old(State()), old(fs.disk), data, env)
      ensures handlerResolutions == old(handlerResolutions) + (if old(onMismatch).None? then 1 else 0)
      ensures Valid()
    {
      if onMismatch.None? {
        DetermineMismatchHandler(env.cwd, fs);
      }
      if recordingDir.None? {
        return Abort(RecordingDirNotSet);
      }
      if recordingFilename.None? {
        var name := TestnameAsFilename(env.testCaseName, env.testName);
        if name.Failure? {
          return Abort(name.error);
        }
        recordingFilename := Some(name.value);
      }
      var path := RecordingPath(recordingDir.value, recordingFilename.value);
      var found := fs.Exists(path);
      if found {
        var stored := ReadData(path, fs);
        if stored.Failure? {
          return Abort(stored.error);
        }
        r := CompareData(data, stored.value, env.tmp, fs);
      } else {
        r := WriteData(path, data, fs);
      }
    }

    /** record(vector): joins the lines, each followed by a line feed, and records the result. */
    method RecordLines(lines: seq<string>, env: Env, fs: FileStore) returns (r: Outcome)
      requires Valid()
      modifies this, fs
      ensures Step(r, State(), fs.disk) == RecordSpec(old(State()), old(fs.disk), JoinLines(lines), env)
      ensures handlerResolutions == old(handlerResolutions) + (if old(onMismatch).None? then 1 else 0)
      ensures Valid()
    {
      var dataString := JoinData(lines);
      r := Record(dataString, env, fs);
    }

    /** The loop of record(vector): appends every element and a line feed to the data string. */
    method JoinData(lines: seq<string>) returns (dataString: string)
      ensures dataString == JoinLines(lines)
    {
      dataString := "";
      for i := 0 to |lines|
        invariant dataString == JoinLines(lines[..i])
      {
        JoinLinesSnoc(lines[..i], lines[i]);
        assert lines[..i + 1] == lines[..i] + [lines[i]];
        dataString := dataString + lines[i] + "\n";
      }
      assert lines[..|lines|] == lines;
    }

    /** determine_mismatch_handler: the diff handler if the visualizer page is found upward, else the default one. */
    method DetermineMismatchHandler(cwd: Path, fs: FileStore)
      modifies this
      ensures onMismatch == Some(ResolveHandler(cwd, fs.disk.paths))
      ensures recordingDir == old(recordingDir) && recordingFilename == old(recordingFilename)
      ensures handlerResolutions == old(handlerResolutions) + 1
    {
      var visualizer := FindRelativePath(VisualizerPath, cwd, fs);
      if visualizer.Found? {
        onMismatch := Some(DiffHandler(visualizer.path));
      } else {
        onMismatch := Some(DefaultHandler);
      }
      handlerResolutions := handlerResolutions + 1;
    }

    /** determine_mismatch_dir: probes `tmp/cppmismatch-0`, `-1`, ... and creates the first free one. */
    method DetermineMismatchDir(tmp: Path, fs: FileStore) returns (r: Result<Path, Violation>)
      modifies fs
      ensures Allocation(r, fs.disk) == AllocateSpec(recordingDir, old(fs.disk), tmp)
    {
      if recordingDir.None? {
        return Failure(RecordingDirNotSet);
      }
      ghost var n := LeastFree(tmp, fs.disk.paths);
      var mismatchDir := Candidate(tmp, 0);
      var i := 0;
      var taken := fs.Exists(mismatchDir);
      while taken
        invariant i <= n && mismatchDir == Candidate(tmp, i)
        invariant taken <==> mismatchDir in fs.disk.paths
        invariant fs.disk == old(fs.disk)
        decreases n - i
      {
        i := i + 1;
        mismatchDir := Candidate(tmp, i);
        taken := fs.Exists(mismatchDir);
      }
      assert i == n;
      var created := fs.CreateDirectory(mismatchDir);
      if !created {
        return Failure(CannotCreateDirectory(mismatchDir));
      }
      r := Success(mismatchDir);
    }

    /** write_data: truncates or creates the file and writes the data. */
    method WriteData(path: Path, data: string, fs: FileStore) returns (r: Outcome)
      modifies fs
      ensures r == if old(fs.disk).CanWrite(path) then Pass else Abort(CannotOpenForWriting(path))
      ensures fs.disk == if r == Pass then old(fs.disk).Write(path, data) else old(fs.disk)
    {
      var ok := fs.Write(path, data);
      r := if ok then Pass else Abort(CannotOpenForWriting(path));
    }

    /** read_data: the whole content of a readable file. */
    method ReadData(path: Path, fs: FileStore) returns (r: Result<string, Violation>)
      ensures r.Success? <==> fs.disk.CanRead(path)
      ensures r.Success? ==> r.value == fs.disk.files[path]
      ensures r.Failure? ==> r.error == CannotOpenForReading(path)
    {
      var content := fs.Read(path);
      if content.None? {
        return Failure(CannotOpenForReading(path));
      }
      r := Success(content.value);
    }

    /** compare_data: allocates a mismatch directory, then passes or calls the handler. */
    method CompareData(data: string, recordingData: string, tmp: Path, fs: FileStore) returns (r: Outcome)
      modifies fs
      ensures Effect(r, fs.disk) == CompareSpec(State(), old(fs.disk), data, recordingData, tmp)
    {
      if recordingFilename.None? {
        return Abort(RecordingFilenameNotSet);
      }
      var mismatchDir := DetermineMismatchDir(tmp, fs);
      if mismatchDir.Failure? {
        return Abort(mismatchDir.error);
      }
      if data == recordingData {
        return Pass;
      }
      var mismatch := Mismatch(recordingData, data, mismatchDir.value,
                               RecordingPath(recordingDir.value, recordingFilename.value));
      if onMismatch.None? {
        return Abort(MismatchHandlerNotSet);
      }
      r := InvokeHandler(onMismatch.value, mismatch, fs);
    }

    /**
      find_relative_path: tries `d / p` for the working directory and each of
      its ancestors in turn, remembering every candidate it tried.
     */
    method FindRelativePath(p: Path, cwd: Path, fs: FileStore) returns (r: Lookup)
      ensures r == Search(cwd, p, fs.disk.paths)
    {
      var searched: seq<Path> := [];
      var current := cwd;
      while !IsEmpty(current)
        invariant Search(cwd, p, fs.disk.paths) == PrependTried(searched, Search(current, p, fs.disk.paths))
        decreases Height(current)
      {
        var candidate := Join(current, p);
        PrependTriedTwice(searched, [candidate], Search(ParentPath(current), p, fs.disk.paths));
        searched := searched + [candidate];
        var present := fs.Exists(candidate);
        if present {
          return Found(candidate);
        }
        current := ParentPath(current);
      }
      r := NotFound(searched);
    }

    /** Calls the installed handler on a mismatch. */
    method InvokeHandler(h: Handler, m: Mismatch, fs: FileStore) returns (r: Outcome)
      modifies fs
      ensures Effect(r, fs.disk) == InvokeSpec(h, m, old(fs.disk))
    {
      match h
      case Custom(f) =>
        r := Fail(f(m));
      case DefaultHandler =>
        r := Fail(DefaultMismatchHandler(m));
      case DiffHandler(template) =>
        r := DiffMismatchHandler(template, m, fs);
    }

    /** diff_mismatch_handler: renders the diff page and stores it with the mismatching data. */
    method DiffMismatchHandler(template: Path, m: Mismatch, fs: FileStore) returns (r: Outcome)
      modifies fs
      ensures Effect(r, fs.disk) == DiffSpec(template, m, old(fs.disk))
    {
      var content := ReadData(template, fs);
      if content.Failure? {
        return Abort(content.error);
      }
      var html := RenderDiff(content.value, m.recordingData, m.mismatchData);
      var page := Join(m.mismatchDir, Leaf(FileName(template)));
      var written := WriteData(page, html, fs);
      if written != Pass {
        return written;
      }
      var dataPath := Join(m.mismatchDir, Leaf(FileName(m.recordingPath)));
      written := WriteData(dataPath, m.mismatchData, fs);
      if written != Pass {
        return written;
      }
      r := Fail(DiffMismatch(m.recordingData, m.mismatchData, m.recordingPath, dataPath, page));
    }
  }
}
