/**
  What each step of the data recorder does, as functions of the configuration,
  the disk and the inputs. The methods of DataRecorder.DataRecorder are proved
  to compute exactly these; the properties of a whole record call are proved
  about them in RecorderProperties.
 */
module RecorderSpec {
  import opened Wrappers
  import opened Strings
  import opened Paths
  import opened FileSystem
  import opened PathSearch
  import opened MismatchDirs
  import opened DiffTemplate
  import opened RecorderTypes

  /** The diff page the recorder looks for, upward from the working directory. */
  const VisualizerPath: Path := Relative(["visualizer", "recording_diff.html"])

  const FilenameSuffix: string := ".data"

  // ---------------------------------------------------------------------------
  // Names

  /** testname_as_filename, given the current test case's and test's names. */
  function TestnameAsFilename(testCase: string, testName: string): (r: Result<string, Violation>)
    ensures r.Success? <==> testCase != [] && testName != []
    ensures r.Failure? ==> r.error == if testCase == [] then EmptyTestCaseName else EmptyTestName
  {
    if testCase == [] then Failure(EmptyTestCaseName)
    else if testName == [] then Failure(EmptyTestName)
    else Success(testCase + "_" + testName + FilenameSuffix)
  }

  /** Reads a default file name back as its test case and test name: split at the first `_`, drop the suffix. */
  function SplitTestname(f: string): (string, string)
  {
    var k := IndexOf(f, '_');
    if k + 1 + |FilenameSuffix| <= |f| then (f[..k], f[k + 1..|f| - |FilenameSuffix|]) else (f, "")
  }

  /** For a test case name without `_`, the default file name gives both names back. */
  lemma TestnameRoundTrip(testCase: string, testName: string)
    requires testCase != [] && testName != [] && '_' !in testCase
    ensures TestnameAsFilename(testCase, testName).Success?
    ensures SplitTestname(TestnameAsFilename(testCase, testName).value) == (testCase, testName)
  {
    var f := testCase + "_" + testName + FilenameSuffix;
    assert f == testCase + ("_" + testName + FilenameSuffix);
    IndexOfAppend(testCase, "_" + testName + FilenameSuffix, '_');
    assert IndexOf(testCase, '_') == |testCase|;
    assert IndexOf(f, '_') == |testCase|;
    assert f[..|testCase|] == testCase;
    assert f[|testCase| + 1..|f| - |FilenameSuffix|] == testName;
  }

  /** So distinct tests of such test cases record into distinct files. */
  lemma TestnameInjective(c1: string, n1: string, c2: string, n2: string)
    requires c1 != [] && n1 != [] && '_' !in c1
    requires c2 != [] && n2 != [] && '_' !in c2
    requires TestnameAsFilename(c1, n1) == TestnameAsFilename(c2, n2)
    ensures c1 == c2 && n1 == n2
  {
    TestnameRoundTrip(c1, n1);
    TestnameRoundTrip(c2, n2);
  }

  /** The number of bytes a character takes in UTF-8. */
  function Utf8Width(ch: char): nat
  {
    if ch as int < 0x80 then 1
    else if ch as int < 0x800 then 2
    else if ch as int < 0x1_0000 then 3
    else 4
  }

  /** std::string's size() of a name held in UTF-8: its byte count, between one and four bytes a character. */
  function Utf8Length(f: string): (n: nat)
    ensures |f| <= n <= 4 * |f|
    ensures f != [] ==> n == Utf8Width(f[0]) + Utf8Length(f[1..])
    decreases |f|
  {
    if f == [] then 0 else Utf8Width(f[0]) + Utf8Length(f[1..])
  }

  /** The check set_recording_filename makes: more than two bytes, the first a dot. */
  predicate IsRecordingFilename(f: string)
  {
    Utf8Length(f) > 2 && f[0] == '.'
  }

  /** An ASCII name's byte count is its length, so for ASCII names the check counts characters. */
  lemma {:induction false} AsciiLength(f: string)
    requires forall i :: 0 <= i < |f| ==> f[i] as int < 0x80
    ensures Utf8Length(f) == |f|
    decreases |f|
  {
    if f != [] {
      AsciiLength(f[1..]);
    }
  }

  /**
    Bytes, not characters, are counted: a dot and one non-ASCII character pass
    the check, while a dot and one ASCII character do not.
   */
  lemma RecordingFilenameBytes(ch: char)
    requires ch as int >= 0x80
    ensures IsRecordingFilename(['.', ch]) && !IsRecordingFilename(".x")
  {
    assert Utf8Length(['.', ch]) == 1 + Utf8Width(ch) + Utf8Length([]) by {
      assert ['.', ch][1..] == [ch];
      assert [ch][1..] == [];
    }
    assert ".x"[1..] == "x";
    assert "x"[1..] == [];
  }

  /** The file a recording is kept in. */
  function RecordingPath(dir: Path, filename: string): Path
  {
    Join(dir, Leaf(filename))
  }

  // ---------------------------------------------------------------------------
  // Lines

  /** The string record(vector) builds: every element followed by a line feed. */
  function JoinLines(xs: seq<string>): string
  {
    if xs == [] then "" else xs[0] + "\n" + JoinLines(xs[1..])
  }

  /** Appending one more element appends it and a line feed, the last element included. */
  lemma {:induction false} JoinLinesSnoc(xs: seq<string>, x: string)
    ensures JoinLines(xs + [x]) == JoinLines(xs) + x + "\n"
    decreases |xs|
  {
    if xs == [] {
      assert [] + [x] == [x];
      assert JoinLines([x]) == x + "\n" + JoinLines([]);
    } else {
      assert (xs + [x])[1..] == xs[1..] + [x];
      JoinLinesSnoc(xs[1..], x);
    }
  }

  /** Cuts a string into the lines that end at each line feed (and a last unterminated one). */
  function SplitLines(s: string): seq<string>
    decreases |s|
  {
    if s == [] then []
    else
      var k := IndexOf(s, '\n');
      if k == |s| then [s] else [s[..k]] + SplitLines(s[k + 1..])
  }

  /** Elements without line feeds are recovered from the joined string. */
  lemma {:induction false} SplitJoinLines(xs: seq<string>)
    requires forall i :: 0 <= i < |xs| ==> '\n' !in xs[i]
    ensures SplitLines(JoinLines(xs)) == xs
    decreases |xs|
  {
    if xs != [] {
      var rest := JoinLines(xs[1..]);
      var s := JoinLines(xs);
      assert s == xs[0] + ("\n" + rest);
      IndexOfAppend(xs[0], "\n" + rest, '\n');
      assert IndexOf(xs[0], '\n') == |xs[0]|;
      assert IndexOf(s, '\n') == |xs[0]|;
      assert s[..|xs[0]|] == xs[0];
      assert s[|xs[0]| + 1..] == rest;
      SplitJoinLines(xs[1..]);
    }
  }

  // ---------------------------------------------------------------------------
  // Configuration

  /**
    set_recording_dir: an empty path is refused, an absolute one is kept, a
    bare name goes under the working directory without any existence check,
    and any other relative path is looked up upward from the working directory.
   */
  function ResolveRecordingDir(dir: Path, cwd: Path, present: set<Path>): (r: Result<Path, Violation>)
  {
    if IsEmpty(dir) then Failure(EmptyRecordingDir)
    else if dir.absolute then Success(dir)
    else if IsEmpty(ParentPath(dir)) then Success(Join(cwd, Leaf(FileName(dir))))
    else
      match Search(cwd, dir, present)
      case Found(p) => Success(p)
      case NotFound(searched) => Failure(RecordingPathNotFound(dir, searched))
  }

  /**
    A relative path with a directory part resolves to the first existing
    candidate `d / dir` of the upward walk, and fails listing all candidates.
   */
  lemma ResolveRelativeRecordingDir(dir: Path, cwd: Path, present: set<Path>)
    requires !dir.absolute && !IsEmpty(ParentPath(dir))
    ensures var c := Candidates(cwd, dir);
            var k := FirstHit(c, present);
            ResolveRecordingDir(dir, cwd, present)
            == if k < |c| then Success(c[k]) else Failure(RecordingPathNotFound(dir, c))
  {
    SearchFindsFirstHit(cwd, dir, present);
  }

  /** The handler determine_mismatch_handler installs for a lookup of the visualizer page. */
  function HandlerFor(visualizer: Lookup): Handler
  {
    match visualizer
    case Found(p) => DiffHandler(p)
    case NotFound(_) => DefaultHandler
  }

  /** determine_mismatch_handler */
  function ResolveHandler(cwd: Path, present: set<Path>): Handler
  {
    HandlerFor(Search(cwd, VisualizerPath, present))
  }

  /** The diff handler is chosen exactly when some directory of the upward walk holds the page. */
  lemma ResolveHandlerChoice(cwd: Path, present: set<Path>)
    ensures var h := ResolveHandler(cwd, present);
            h.DiffHandler? <==> exists p :: p in Candidates(cwd, VisualizerPath) && p in present
    ensures ResolveHandler(cwd, present).DiffHandler? ==>
              ResolveHandler(cwd, present).template in present &&
              ResolveHandler(cwd, present).template in Candidates(cwd, VisualizerPath)
  {
    var c := Candidates(cwd, VisualizerPath);
    SearchFindsFirstHit(cwd, VisualizerPath, present);
    var k := FirstHit(c, present);
    if k == |c| {
      assert forall p :: p in c ==> p !in present by {
        forall p | p in c ensures p !in present {
          var j :| 0 <= j < |c| && c[j] == p;
        }
      }
    }
  }

  // ---------------------------------------------------------------------------
  // The mismatch directory

  /**
    determine_mismatch_dir: `tmp/cppmismatch-<n>` for the least `n` whose
    directory does not exist, created.
   */
  ghost function AllocateSpec(dir: Option<Path>, d: Disk, tmp: Path): (a: Allocation)
    ensures a.result.Success? ==> dir.Some?
  {
    if dir.None? then Allocation(Failure(RecordingDirNotSet), d)
    else
      var p := Candidate(tmp, LeastFree(tmp, d.paths));
      if d.CanCreateDirectory(p) then Allocation(Success(p), d.AddDirectory(p))
      else Allocation(Failure(CannotCreateDirectory(p)), d)
  }

  /**
    A successful allocation returns a directory that did not exist, whose
    number is the least free one, and adds exactly that directory.
   */
  lemma AllocationIsFreshAndLeast(dir: Option<Path>, d: Disk, tmp: Path)
    requires AllocateSpec(dir, d, tmp).result.Success?
    ensures var a := AllocateSpec(dir, d, tmp);
            && a.result.value !in d.paths
            && (exists n :: a.result.value == Candidate(tmp, n) && IsLeastFree(tmp, d.paths, n))
            && a.disk.paths == d.paths + {a.result.value}
            && a.disk.files == d.files
  {
    var n := LeastFree(tmp, d.paths);
    assert AllocateSpec(dir, d, tmp).result.value == Candidate(tmp, n);
  }

  // ---------------------------------------------------------------------------
  // Handlers

  /** default_mismatch_handler: reports the two data strings. */
  function DefaultMismatchHandler(m: Mismatch): Error
  {
    DefaultMismatch(m.recordingData, m.mismatchData)
  }

  /** Where the diff handler writes the rendered page. */
  function DiffPagePath(template: Path, m: Mismatch): Path
  {
    Join(m.mismatchDir, Leaf(FileName(template)))
  }

  /** Where the diff handler writes the data that did not match. */
  function MismatchDataPath(m: Mismatch): Path
  {
    Join(m.mismatchDir, Leaf(FileName(m.recordingPath)))
  }

  /**
    diff_mismatch_handler: read the page template, fill its slots with the
    escaped data, write it into the mismatch directory, write the raw
    mismatching data next to it, and report all the paths.
   */
  function DiffSpec(template: Path, m: Mismatch, d: Disk): Effect
  {
    if !d.CanRead(template) then Effect(Abort(CannotOpenForReading(template)), d)
    else WriteDiffFiles(DiffPagePath(template, m), RenderDiff(d.files[template], m.recordingData, m.mismatchData), m, d)
  }

  /** The writing half of diff_mismatch_handler: the page first, then the raw mismatching data. */
  function WriteDiffFiles(page: Path, html: string, m: Mismatch, d: Disk): Effect
  {
    if !d.CanWrite(page) then Effect(Abort(CannotOpenForWriting(page)), d)
    else
      var d1 := d.Write(page, html);
      var data := MismatchDataPath(m);
      if !d1.CanWrite(data) then Effect(Abort(CannotOpenForWriting(data)), d1)
      else
        Effect(Fail(DiffMismatch(m.recordingData, m.mismatchData, m.recordingPath, data, page)),
               d1.Write(data, m.mismatchData))
  }

  /** Whatever the page holds, writing the two files adds only those two paths and keeps every other file. */
  lemma WriteDiffFilesFrame(page: Path, html: string, m: Mismatch, d: Disk)
    ensures var e := WriteDiffFiles(page, html, m, d);
            && e.disk.paths <= d.paths + {page, MismatchDataPath(m)}
            && forall q :: q in d.files && q != page && q != MismatchDataPath(m) ==> q in e.disk.files && e.disk.files[q] == d.files[q]
  {
  }

  /**
    When every step succeeds, the diff handler's error names the recording and
    both written files, the raw data file holds the mismatching data, the page
    holds the rendered template (unless the two files coincide), and no other
    file changes.
   */
  lemma DiffHandlerWrites(template: Path, m: Mismatch, d: Disk)
    requires d.CanRead(template)
    requires d.CanWrite(DiffPagePath(template, m))
    requires d.CanWrite(MismatchDataPath(m))
    ensures var e := DiffSpec(template, m, d);
            var page, data := DiffPagePath(template, m), MismatchDataPath(m);
            && e.outcome == Fail(DiffMismatch(m.recordingData, m.mismatchData, m.recordingPath, data, page))
            && e.disk.files[data] == m.mismatchData
            && (page != data ==> e.disk.files[page] == RenderDiff(d.files[template], m.recordingData, m.mismatchData))
            && (forall q :: q in d.files && q != page && q != data ==> q in e.disk.files && e.disk.files[q] == d.files[q])
            && e.disk.paths == d.paths + {page, data}
  {
    var html := RenderDiff(d.files[template], m.recordingData, m.mismatchData);
    var page, data := DiffPagePath(template, m), MismatchDataPath(m);
    assert ParentPath(page) == m.mismatchDir == ParentPath(data);
    assert page != m.mismatchDir;
    assert d.Write(page, html).CanWrite(data);
  }

  /** Calls a mismatch handler. */
  function InvokeSpec(h: Handler, m: Mismatch, d: Disk): Effect
  {
    match h
    case Custom(f) => Effect(Fail(f(m)), d)
    case DefaultHandler => Effect(Fail(DefaultMismatchHandler(m)), d)
    case DiffHandler(t) => DiffSpec(t, m, d)
  }

  /** Only the diff handler touches the disk, and it adds nothing outside the mismatch directory. */
  lemma InvokeStaysInMismatchDir(h: Handler, m: Mismatch, d: Disk)
    ensures var e := InvokeSpec(h, m, d);
            forall q :: q in e.disk.paths && q !in d.paths ==> ParentPath(q) == m.mismatchDir
    ensures var e := InvokeSpec(h, m, d);
            forall q :: q in d.files && ParentPath(q) != m.mismatchDir ==> q in e.disk.files && e.disk.files[q] == d.files[q]
  {
    if h.DiffHandler? && d.CanRead(h.template) {
      ParentOfChild(m.mismatchDir, FileName(h.template));
      ParentOfChild(m.mismatchDir, FileName(m.recordingPath));
      WriteDiffFilesFrame(DiffPagePath(h.template, m), RenderDiff(d.files[h.template], m.recordingData, m.mismatchData), m, d);
    }
  }

  // ---------------------------------------------------------------------------
  // Comparing and recording

  /**
    compare_data: allocate a mismatch directory (also when the data are equal),
    then pass on equal data, and otherwise hand the mismatch to the handler.
   */
  ghost function CompareSpec(c: Config, d: Disk, data: string, recordingData: string, tmp: Path): Effect
  {
    if c.recordingFilename.None? then Effect(Abort(RecordingFilenameNotSet), d)
    else
      var a := AllocateSpec(c.recordingDir, d, tmp);
      if a.result.Failure? then Effect(Abort(a.result.error), a.disk)
      else if data == recordingData then Effect(Pass, a.disk)
      else
        var m := Mismatch(recordingData, data, a.result.value,
                          RecordingPath(c.recordingDir.value, c.recordingFilename.value));
        if c.onMismatch.None? then Effect(Abort(MismatchHandlerNotSet), a.disk)
        else InvokeSpec(c.onMismatch.value, m, a.disk)
  }

  /** The configuration after the handler step at the start of record: determined once, when unset. */
  function WithHandler(c: Config, cwd: Path, present: set<Path>): Config
  {
    if c.onMismatch.None? then c.(onMismatch := Some(ResolveHandler(cwd, present))) else c
  }

  /**
    record(data): make sure a handler is set, require a directory, default the
    file name, then write a missing recording or compare with the stored one.
   */
  ghost function RecordSpec(c: Config, d: Disk, data: string, env: Env): Step
  {
    var c1 := WithHandler(c, env.cwd, d.paths);
    if c1.recordingDir.None? then Step(Abort(RecordingDirNotSet), c1, d)
    else
      var name := if c1.recordingFilename.Some? then Success(c1.recordingFilename.value)
                  else TestnameAsFilename(env.testCaseName, env.testName);
      if name.Failure? then Step(Abort(name.error), c1, d)
      else
        var c2 := c1.(recordingFilename := Some(name.value));
        var path := RecordingPath(c1.recordingDir.value, name.value);
        if path in d.paths then
          if !d.CanRead(path) then Step(Abort(CannotOpenForReading(path)), c2, d)
          else
            var e := CompareSpec(c2, d, data, d.files[path], env.tmp);
            Step(e.outcome, c2, e.disk)
        else if d.CanWrite(path) then Step(Pass, c2, d.Write(path, data))
        else Step(Abort(CannotOpenForWriting(path)), c2, d)
  }
}
