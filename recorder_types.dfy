/**
  The values the data recorder works with: the mismatch report handed to a
  handler, the errors a record call can fail with, the broken requirements
  (VERIFY checks) that abort it, the handlers, and the recorder's configuration.
 */
module RecorderTypes {
  import opened Paths
  import opened Wrappers
  import opened FileSystem

  /**
    What a mismatch handler is told: the stored recording, the data that
    differs from it, the fresh directory for mismatch artifacts, and where the
    recording lives.
   */
  datatype Mismatch = Mismatch(recordingData: string, mismatchData: string, mismatchDir: Path, recordingPath: Path)

  /** The error a failed record call returns (a poke::error). */
  datatype Error =
    | DefaultMismatch(recordingData: string, mismatchData: string)
    | DiffMismatch(recordingData: string, mismatchData: string, recordingPath: Path, mismatchPath: Path, htmlDiff: Path)
    | HandlerError(code: int, message: string)

  /** A requirement checked with VERIFY that does not hold; the call is aborted. */
  datatype Violation =
    | EmptyRecordingDir
    | RecordingPathNotFound(path: Path, searched: seq<Path>)
    | BadRecordingFilename(filename: string)
    | RecordingDirNotSet
    | EmptyTestCaseName
    | EmptyTestName
    | CannotCreateDirectory(dir: Path)
    | CannotOpenForWriting(file: Path)
    | CannotOpenForReading(file: Path)
    | RecordingFilenameNotSet
    | MismatchHandlerNotSet

  /** How a call ends: success, an error returned to the caller, or a failed VERIFY. */
  datatype Outcome = Pass | Fail(error: Error) | Abort(violation: Violation)

  /**
    A mismatch handler: a callback given with on_mismatch, the default handler,
    or the diff handler that renders the HTML page found at `template`.
   */
  datatype Handler =
    | Custom(callback: Mismatch -> Error)
    | DefaultHandler
    | DiffHandler(template: Path)

  /** The recorder's three optional fields. */
  datatype Config = Config(recordingDir: Option<Path>, recordingFilename: Option<string>, onMismatch: Option<Handler>)

  /**
    What the recorder takes from its surroundings: the working directory, the
    temporary directory, and the names of the running test case and test.
   */
  datatype Env = Env(cwd: Path, tmp: Path, testCaseName: string, testName: string)

  /** The result of a call that may change the configuration and the disk. */
  datatype Step = Step(outcome: Outcome, config: Config, disk: Disk)

  /** The result of a call that may change the disk. */
  datatype Effect = Effect(outcome: Outcome, disk: Disk)

  /** The result of allocating a mismatch directory. */
  datatype Allocation = Allocation(result: Result<Path, Violation>, disk: Disk)
}
