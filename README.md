# cpp-datarecorder in Dafny

A model of the two parts of steinwurf's cpp-datarecorder that carry logic.

- **`data_recorder`** is the record-or-compare test helper.
  - A test gives it a recording directory (and optionally a file name and a mismatch callback), then calls `record(data)`.
  - If the recording file does not exist yet, the data is written to it and the call passes.
  - If it exists, a fresh numbered directory `<tmp>/cppmismatch-<n>` is allocated and the stored data is compared with the new data.
  - Equal data passes. Different data goes to the mismatch handler, which is one of three: the test's own callback; the diff handler, chosen when `visualizer/recording_diff.html` is found upward from the working directory, which renders an HTML diff page and stores it with the new data in the mismatch directory; or the default handler, which only reports both strings.
  - Failed `VERIFY` requirements abort the call.
- **`filter_json`** holds a JSON tree and rewrites it with `transform_objects(visitor)`. The rewrite is pre-order: the visitor runs on a value, then every object-valued member of its result is rewritten in turn. Arrays and scalars are not entered.

How the model is laid out:

- `FileSystem.FileStore` is a small disk. Its state is a `Disk` value: the existing paths, the file contents, and a set of "faulty" paths where opening or creating fails.
- `DataRecorder.DataRecorder` is a class with the recorder's three optional fields, `recordingFilename`, `recordingDir` and `onMismatch`.
  - Each of its methods is proved equal to a specification function in `RecorderSpec`, for example `Record` against `RecordSpec`.
  - A ghost counter proves that the mismatch handler is determined at most once.
  - The protocol's promises are lemmas about those functions, in `RecorderProperties`.
- `FilterJson.Filter` is a class holding the tree. `TransformObjects` rewrites it in place and returns the same object.
- The working directory, the temporary directory and the current gtest names are inputs (`Env`). A failed `VERIFY` is the outcome `Abort(violation)`. An error returned to the caller is `Fail(error)`.

Where the model follows the code rather than the prose around it:

- `set_recording_filename(".x")` is refused: the code asks for more than two bytes. Bytes are counted in UTF-8, so `".é"` is accepted.
- Comparing an existing recording allocates a mismatch directory even when the data is equal.
- `set_recording_dir` with a relative path that has a directory part searches upward for the whole path, file name included, and stores that path as the directory.
- A file name set with `set_recording_filename` is the recording's whole file name.

## Model

| member | source | states |
|---|---|---|
| Paths.ParentPath | src/datarecorder/data_recorder.hpp:357 | the parent of a non-empty path is strictly shorter; the root's parent is the empty path, so the upward walk ends |
| Paths.ParentOfChild | src/datarecorder/data_recorder.hpp:96-97 | for `dir / name`, parent_path is `dir` and filename is `name` |
| Paths.AncestorsOfAbsolute | src/datarecorder/data_recorder.hpp:348-358 | from an absolute directory the walk visits each prefix of it in turn, longest first, `|parts| + 1` directories ending at the root |
| Paths.StdWalkNeverEmpty | src/datarecorder/data_recorder.hpp:349-357 | with the standard parent_path (the parent of `/` is `/`), no number of steps from an absolute path reaches the empty path |
| Paths.StdWalkReachesRoot | src/datarecorder/data_recorder.hpp:349-357 | with the standard parent_path the walk settles on `/` for good |
| PathSearch.CandidatesFollowAncestors | src/datarecorder/data_recorder.hpp:349-351 | the k-th candidate is the k-th ancestor of the working directory joined with the target |
| PathSearch.Candidates | src/datarecorder/data_recorder.hpp:348-358 | the paths find_relative_path tries, `d / p` for the working directory and each ancestor in turn; CandidatesFollowAncestors states them one by one |
| PathSearch.Search | src/datarecorder/data_recorder.hpp:339-371 | find_relative_path as a function of the existing paths; SearchFindsFirstHit, SearchFound and SearchNotFound state what it returns |
| PathSearch.FirstHit | src/datarecorder/data_recorder.hpp:352-355 | the index of the first existing candidate, or the number of candidates when none exists; no earlier candidate exists |
| PathSearch.SearchFindsFirstHit | src/datarecorder/data_recorder.hpp:339-371 | find_relative_path returns the first existing candidate of the upward walk; on failure it reports all candidates, in order |
| PathSearch.SearchFound | src/datarecorder/data_recorder.hpp:352-355 | a found path is an existing candidate, and every candidate before it is missing |
| PathSearch.SearchNotFound | src/datarecorder/data_recorder.hpp:360-370 | a failed search lists exactly the candidates, and none of them exists |
| PathSearch.FoundTwoLevelsUp | src/datarecorder/data_recorder.hpp:61-76 | the documented example: from `/d/e/f`, a target present only as `/d/t` is found two levels up |
| Decimal.NatToString | src/datarecorder/data_recorder.hpp:263 | std::to_string gives a non-empty run of decimal digits without a leading zero |
| Decimal.ParseNatToString | src/datarecorder/data_recorder.hpp:263 | reading the digits back gives the number |
| Decimal.NatToStringInjective | src/datarecorder/data_recorder.hpp:263 | different numbers give different strings |
| MismatchDirs.Candidate | src/datarecorder/data_recorder.hpp:257-263 | the directory `tmp / ("cppmismatch-" + to_string(n))`; CandidateInjective states that numbers and directories correspond one to one |
| MismatchDirs.CandidateInjective | src/datarecorder/data_recorder.hpp:257-263 | different numbers give different `cppmismatch-<n>` directories |
| MismatchDirs.LeastFreeFrom | src/datarecorder/data_recorder.hpp:259-264 | when every directory below `i` exists, probing from `i` stops at the least free number |
| MismatchDirs.LeastFree | src/datarecorder/data_recorder.hpp:259-264 | the number the probing loop stops at: its directory is missing and every lower one exists |
| MismatchDirs.LeastFreeUnique | src/datarecorder/data_recorder.hpp:259-264 | that number is unique |
| MismatchDirs.AllocationsIncrease | src/datarecorder/data_recorder.hpp:257-270 | once the chosen directory exists, the next allocation picks a larger number and a different, missing directory |
| FileSystem.WritePreservesValid | src/datarecorder/data_recorder.hpp:275-284 | writing a file that can be opened keeps the disk well formed |
| FileSystem.AddDirectoryPreservesValid | src/datarecorder/data_recorder.hpp:266-270 | creating a directory that can be created keeps the disk well formed |
| FileSystem.FileStore.Exists | src/datarecorder/data_recorder.hpp:157 | std::filesystem::exists: true exactly for existing paths |
| FileSystem.FileStore.Read | src/datarecorder/data_recorder.hpp:288-297 | a readable file yields its whole content; anything else yields nothing |
| FileSystem.FileStore.Write | src/datarecorder/data_recorder.hpp:277-281 | opening succeeds exactly when the path can be written; the file then holds exactly the data; otherwise nothing changes |
| FileSystem.FileStore.CreateDirectory | src/datarecorder/data_recorder.hpp:267-268 | create_directory succeeds exactly when the directory is missing, its parent exists and it is not faulty; only that directory is added |
| DiffTemplate.PlaceholderLength | src/datarecorder/data_recorder.hpp:389 | a non-zero result is a match of `\$\{[^}]+\}` at the start of the text, up to the first `}`; PlaceholderMatches gives the converse |
| DiffTemplate.PlaceholderMatches | src/datarecorder/data_recorder.hpp:389 | `${`, a non-empty body without `}`, and `}` always form a match of exactly that length, whatever follows |
| DiffTemplate.EscapeDollarBracs | src/datarecorder/data_recorder.hpp:383-391 | regex_replace with the format `\$&`: a backslash in front of every leftmost, non-overlapping placeholder match, left to right; EscapeAtPlaceholder, EscapeWithoutPlaceholder and UnescapeEscape state it |
| DiffTemplate.EscapeAtPlaceholder | src/datarecorder/data_recorder.hpp:389-390 | a placeholder at the start of the data gets a backslash in front of it, and escaping goes on after it |
| DiffTemplate.EscapeKeepsCharacters | src/datarecorder/data_recorder.hpp:383-391 | escaping adds only backslashes: every other character occurs after escaping exactly when it occurred before |
| DiffTemplate.EscapedStartsWithoutPlaceholder | src/datarecorder/data_recorder.hpp:389-390 | the escaped text never starts with a placeholder |
| DiffTemplate.UnescapeEscape | src/datarecorder/data_recorder.hpp:383-391 | round trip: removing the backslash in front of each escaped placeholder gives back the original data, so escaping loses nothing |
| DiffTemplate.EscapeWithoutPlaceholder | src/datarecorder/data_recorder.hpp:389-390 | a text with no placeholder is left unchanged |
| DiffTemplate.SlotAt | src/datarecorder/data_recorder.hpp:400-401 | a slot match lies inside the text with a non-empty opening and room for the closing `` `; ``; SlotAtSound states that it is the opening grammar, a body without backticks and `` `; ``, SlotRecognised the converse |
| DiffTemplate.FillCopies | src/datarecorder/data_recorder.hpp:403-406 | where no slot starts, the character is copied |
| DiffTemplate.FillReplaces | src/datarecorder/data_recorder.hpp:403-406 | where a slot starts, its opening is kept, its body is replaced and `` `; `` is kept |
| DiffTemplate.FillSkipsPrefix | src/datarecorder/data_recorder.hpp:403-406 | a prefix in which no slot starts is copied unchanged |
| DiffTemplate.FillWithoutSlot | src/datarecorder/data_recorder.hpp:403-406 | a template without a slot is unchanged |
| DiffTemplate.OpeningRecognised | src/datarecorder/data_recorder.hpp:400-401 | `const`, white space, the name, optional white space, `=`, optional white space and a backtick are recognised as the whole opening |
| DiffTemplate.SlotRecognised | src/datarecorder/data_recorder.hpp:400-401 | an opening, a body without backticks and `` `; `` form one match whose body is exactly that body |
| DiffTemplate.SpaceRunSound | src/datarecorder/data_recorder.hpp:400-401 | the greedy run of `\s` is all white space and stops at the first other character |
| DiffTemplate.OpeningSound | src/datarecorder/data_recorder.hpp:400-401 | every recognised opening is `const`, non-empty white space, the name, white space, `=`, white space and a backtick |
| DiffTemplate.SlotAtSound | src/datarecorder/data_recorder.hpp:400-401 | every slot match is an opening written by its grammar, then a body without backticks, then `` `; ``: the converse of SlotRecognised |
| DiffTemplate.FillSlot | src/datarecorder/data_recorder.hpp:403-406 | regex_replace of the slot pattern with the data inserted literally between the opening and `` `; `` (the intended output, see Findings); FillReplaces, FillCopies and FillSingleSlot state it |
| DiffTemplate.RenderDiff | src/datarecorder/data_recorder.hpp:393-406 | the page the model writes: the `oldText` slot filled with the escaped recording, then the `newText` slot with the escaped new data |
| DiffTemplate.FillSingleSlot | src/datarecorder/data_recorder.hpp:400-406 | in a template with one slot, literal filling replaces exactly the body between the delimiters by the text, and the delimiters and all other text stay; FillAsWrittenAgrees gives the inputs for which the source does the same |
| DiffFormat.Expand | src/datarecorder/data_recorder.hpp:403-406 | the format substitution of regex_replace (ECMAScript rules as the GNU C++ library applies them): `$$`, `$&`, `` $` ``, `$'`, one- and two-digit group numbers, other text copied; ExpandInert and the two counterexamples below state its effect here |
| DiffFormat.FillSlotAsWritten | src/datarecorder/data_recorder.hpp:403-406 | regex_replace of the slot pattern with the format `"$1" + data + "$3"` as the source builds it, the text since the previous match serving as `` $` `` |
| DiffFormat.RenderDiffAsWritten | src/datarecorder/data_recorder.hpp:393-406 | the page as the source renders it, with both formats built by string concatenation |
| DiffFormat.ExpandInert | src/datarecorder/data_recorder.hpp:403-406 | data that does not start with a digit and whose every `$` is followed by a character without a format meaning comes out between group 1 and group 3 unchanged |
| DiffFormat.ReplacementInert | src/datarecorder/data_recorder.hpp:403-406 | at a slot match, the source's replacement of such data is the opening, the data and `` `; `` |
| DiffFormat.FillAsWrittenAgrees | src/datarecorder/data_recorder.hpp:403-406 | for such data, the source's regex_replace and the literal filling give the same text on every template |
| DiffFormat.RenderAsWrittenAgrees | src/datarecorder/data_recorder.hpp:393-406 | so the source's page is RenderDiff's page whenever both escaped data are format-inert |
| DiffFormat.LeadingDigitDropsOpening | src/datarecorder/data_recorder.hpp:403-406 | with the data `"42\n"`, `$1` and the first digit read as group 14, which the pattern does not have: the replacement is `` 2\n`; ``, without the opening |
| DiffFormat.TrailingDollarDropsClosing | src/datarecorder/data_recorder.hpp:403-406 | with data ending in `$`, that `$` and the `$` of `$3` read as `$$`: the replacement is the opening and `a$3`, without the closing `` `; `` |
| RecorderSpec.TestnameAsFilename | src/datarecorder/data_recorder.hpp:197-211 | succeeds exactly when both the test case name and the test name are non-empty; otherwise aborts on the first empty one |
| RecorderSpec.TestnameRoundTrip | src/datarecorder/data_recorder.hpp:209 | `<case>_<name>.data` splits back into the two names when the case name has no `_` |
| RecorderSpec.TestnameInjective | src/datarecorder/data_recorder.hpp:209 | so distinct tests of such test cases get distinct recording files |
| RecorderSpec.JoinLines | src/datarecorder/data_recorder.hpp:189-193 | the string record(vector) builds, every element followed by a line feed; JoinLinesSnoc and JoinData tie it to the loop |
| RecorderSpec.JoinLinesSnoc | src/datarecorder/data_recorder.hpp:190-193 | one more element appends that element and a line feed, the last element included |
| RecorderSpec.SplitJoinLines | src/datarecorder/data_recorder.hpp:185-194 | elements without line feeds can be recovered from the recorded string |
| RecorderSpec.ResolveRecordingDir | src/datarecorder/data_recorder.hpp:82-114 | set_recording_dir's resolution: empty aborts, absolute is kept, a bare name goes under the working directory, anything else is searched upward; ResolveRelativeRecordingDir states the search case |
| RecorderSpec.ResolveRelativeRecordingDir | src/datarecorder/data_recorder.hpp:107-113 | a relative directory with a directory part resolves to the first existing candidate of the upward walk, or aborts listing every candidate |
| RecorderSpec.ResolveHandler | src/datarecorder/data_recorder.hpp:219-248 | determine_mismatch_handler: the diff handler for the found visualizer page, else the default handler; ResolveHandlerChoice states when each is chosen |
| RecorderSpec.ResolveHandlerChoice | src/datarecorder/data_recorder.hpp:219-248 | the diff handler is chosen exactly when some candidate `d/visualizer/recording_diff.html` exists, and its template is an existing candidate |
| RecorderSpec.AllocateSpec | src/datarecorder/data_recorder.hpp:250-273 | an allocation succeeds only when a recording directory is set |
| RecorderSpec.AllocationIsFreshAndLeast | src/datarecorder/data_recorder.hpp:250-273 | a successful allocation returns a missing directory with the least free number, and adds exactly that directory without touching any file |
| RecorderSpec.DefaultMismatchHandler | src/datarecorder/data_recorder.hpp:431-439 | the default handler's error reports the recorded data and the new data |
| RecorderSpec.DiffSpec | src/datarecorder/data_recorder.hpp:373-429 | diff_mismatch_handler: abort if the template cannot be read, else render it and write the two files; DiffHandlerWrites states the successful run |
| RecorderSpec.WriteDiffFiles | src/datarecorder/data_recorder.hpp:408-428 | write the page, then the raw new data, aborting at the first file that cannot be opened, then fail with the report |
| RecorderSpec.WriteDiffFilesFrame | src/datarecorder/data_recorder.hpp:408-428 | whatever the page holds, the two writes add only those two paths and keep every other file |
| RecorderSpec.DiffHandlerWrites | src/datarecorder/data_recorder.hpp:398-428 | when every step can succeed, the diff handler fails with an error naming the recording, the data file and the page; the data file holds the new data; the page holds the rendered template; no other file changes |
| RecorderSpec.InvokeSpec | src/datarecorder/data_recorder.hpp:328 | the handler call: a callback and the default handler only fail with their error; the diff handler also writes its files |
| RecorderSpec.InvokeStaysInMismatchDir | src/datarecorder/data_recorder.hpp:328 | a handler adds paths only inside the mismatch directory and keeps every file outside it |
| RecorderSpec.CompareSpec | src/datarecorder/data_recorder.hpp:300-337 | compare_data as a function of the configuration and the disk; CompareSteps states its steps |
| RecorderSpec.RecordSpec | src/datarecorder/data_recorder.hpp:133-183 | record(data) as a function of the configuration, the disk and the environment; the RecorderProperties lemmas state what it does |
| RecorderProperties.WithHandlerKeepsPaths | src/datarecorder/data_recorder.hpp:135-139 | the handler step sets a handler and changes neither the directory nor the file name |
| RecorderProperties.RecordExisting | src/datarecorder/data_recorder.hpp:156-169 | on an existing recording, record aborts when the file cannot be read, and otherwise returns what compare_data returns, whether the file name was set or defaulted to `<case>_<name>.data` |
| RecorderProperties.CompareSteps | src/datarecorder/data_recorder.hpp:300-337 | the comparison allocates first, passes on equal data, and otherwise calls the handler with the report |
| RecorderProperties.AllocationSucceeds | src/datarecorder/data_recorder.hpp:250-273 | with an existing temporary directory whose numbered entries can be created, the allocation succeeds |
| RecorderProperties.RecordWritesMissingRecording | src/datarecorder/data_recorder.hpp:170-182 | a missing recording is written with the data verbatim and the call passes; if the file cannot be opened the call aborts and the disk is unchanged, whether the file name was set or defaulted to `<case>_<name>.data` |
| RecorderProperties.RecordEqualData | src/datarecorder/data_recorder.hpp:300-310 | equal data passes, and the disk gains exactly the freshly allocated mismatch directory, whether the file name was set or defaulted to `<case>_<name>.data` |
| RecorderProperties.RecordMismatch | src/datarecorder/data_recorder.hpp:310-328 | different data is reported to the handler with the stored data, the new data, the fresh mismatch directory and the recording path; the call ends as the handler does, whether the file name was set or defaulted to `<case>_<name>.data` |
| RecorderProperties.MismatchWithCallback | src/datarecorder/data_recorder.hpp:125-128 | with a callback set by on_mismatch, a mismatch fails with that callback's error for the report, whether the file name was set or defaulted to `<case>_<name>.data` |
| RecorderProperties.MismatchWithDefaultHandler | src/datarecorder/data_recorder.hpp:431-439 | with the default handler, a mismatch fails with both strings, and the disk changes only by the allocated mismatch directory, whether the file name was set or defaulted to `<case>_<name>.data` |
| RecorderProperties.RecordKeepsExistingRecording | src/datarecorder/data_recorder.hpp:156-169 | an existing recording is never rewritten, whatever the data and the handler, whether the file name was set or defaulted to `<case>_<name>.data` |
| RecorderProperties.RecordResolvesHandlerOnce | src/datarecorder/data_recorder.hpp:135-139 | a handler already set is kept; an unset one becomes the handler that the upward search picks; the directory never changes |
| RecorderProperties.RecordDefaultsFilename | src/datarecorder/data_recorder.hpp:144-151 | the file name defaults to `<case>_<name>.data` only when unset, with a directory set and both names non-empty; a set name is kept |
| RecorderProperties.Named | src/datarecorder/data_recorder.hpp:144-151 | the configuration a record call goes on with: a set file name is kept, an unset one becomes `<case>_<name>.data`; directory and handler are untouched |
| RecorderProperties.DefaultNameReduces | src/datarecorder/data_recorder.hpp:144-151 | with a directory set, a call without a file name does exactly what the call with the default name already set does, so every record lemma covers both |
| RecorderProperties.RecordWithoutDirectory | src/datarecorder/data_recorder.hpp:141-142 | without a directory the call aborts and the disk is unchanged |
| RecorderProperties.FirstRecordWrites | src/datarecorder/data_recorder.hpp:170-182 | the first call on a missing recording passes, writes the data, leaves the file name and a handler set, and leaves a well-formed disk for the next call |
| RecorderProperties.RecordTwice | src/datarecorder/data_recorder.hpp:133-183 | the first call writes the baseline; a second call with the same data passes, whether the file name was set or defaulted to `<case>_<name>.data` |
| RecorderProperties.RecordThenDifferentData | src/datarecorder/data_recorder.hpp:133-183 | after a baseline `a`, recording `b != a` reports `a` against `b` to the handler, and the recording still holds `a`, whether the file name was set or defaulted to `<case>_<name>.data`; with the default name this is the call sequence of test/src/test_datarecorder.cpp:7-21 |
| RecorderProperties.AllocatePreservesValid | src/datarecorder/data_recorder.hpp:250-273 | allocating a mismatch directory keeps the disk well formed |
| RecorderProperties.WriteDiffFilesPreservesValid | src/datarecorder/data_recorder.hpp:408-428 | the diff handler's two writes keep the disk well formed |
| RecorderProperties.InvokePreservesValid | src/datarecorder/data_recorder.hpp:328 | every handler keeps the disk well formed |
| RecorderProperties.ComparePreservesValid | src/datarecorder/data_recorder.hpp:300-337 | compare_data keeps the disk well formed |
| RecorderProperties.RecordPreservesValid | src/datarecorder/data_recorder.hpp:133-183 | a record call keeps the disk well formed, whatever its outcome, so the properties above apply to the next call |
| RecorderProperties.RecordStepKeepsRecording | src/datarecorder/data_recorder.hpp:133-183 | one call on an existing recording keeps the directory, a well-formed disk and the recording's content, and leaves the file name it used set |
| RecorderProperties.RecordAll | src/datarecorder/data_recorder.hpp:133-183 | a run of record calls on one recorder, each on the state the previous one left |
| RecorderProperties.RecordAllKeepsRecording | src/datarecorder/data_recorder.hpp:133-183 | however many record calls follow, an existing recording keeps its content, whether the file name was set or defaulted to `<case>_<name>.data` |
| DataRecorder.DataRecorder.constructor | src/datarecorder/data_recorder.hpp:41-43 | all three fields start unset |
| DataRecorder.DataRecorder.SetRecordingDir | src/datarecorder/data_recorder.hpp:82-114 | empty paths abort; absolute paths are kept; bare names go under the working directory; other relative paths are searched; a failure keeps the old directory |
| RecorderSpec.Utf8Length | src/datarecorder/data_recorder.hpp:119 | `size()` of the name held as UTF-8: between one and four bytes a character, summed over the characters |
| RecorderSpec.AsciiLength | src/datarecorder/data_recorder.hpp:119 | for an ASCII name the byte count is the number of characters |
| RecorderSpec.RecordingFilenameBytes | src/datarecorder/data_recorder.hpp:117-119 | a dot and one non-ASCII character pass the check, a dot and one ASCII character do not |
| DataRecorder.DataRecorder.SetRecordingFilename | src/datarecorder/data_recorder.hpp:116-123 | a name is accepted exactly when its UTF-8 encoding has more than two bytes and it starts with `.`; otherwise the call aborts and the old name stays |
| DataRecorder.DataRecorder.OnMismatch | src/datarecorder/data_recorder.hpp:125-128 | installs the callback and changes nothing else |
| DataRecorder.DataRecorder.Record | src/datarecorder/data_recorder.hpp:133-183 | outcome, fields and disk are exactly those of the record protocol; the handler is determined at most once per recorder |
| DataRecorder.DataRecorder.RecordLines | src/datarecorder/data_recorder.hpp:185-195 | records every element followed by a line feed |
| DataRecorder.DataRecorder.JoinData | src/datarecorder/data_recorder.hpp:189-193 | the loop builds exactly the joined lines; an empty vector gives `""` |
| DataRecorder.DataRecorder.DetermineMismatchHandler | src/datarecorder/data_recorder.hpp:219-248 | installs the diff handler for the found page, else the default handler |
| DataRecorder.DataRecorder.DetermineMismatchDir | src/datarecorder/data_recorder.hpp:250-273 | the probing loop and the creation give exactly the least-free allocation |
| DataRecorder.DataRecorder.WriteData | src/datarecorder/data_recorder.hpp:275-284 | passes and writes the data exactly when the file can be opened; otherwise aborts and changes nothing |
| DataRecorder.DataRecorder.ReadData | src/datarecorder/data_recorder.hpp:286-298 | succeeds exactly on readable files, with their content; otherwise aborts |
| DataRecorder.DataRecorder.CompareData | src/datarecorder/data_recorder.hpp:300-337 | outcome and disk are exactly those of the comparison |
| DataRecorder.DataRecorder.FindRelativePath | src/datarecorder/data_recorder.hpp:339-371 | the loop returns the upward search's result, every tried candidate included |
| DataRecorder.DataRecorder.InvokeHandler | src/datarecorder/data_recorder.hpp:328 | calls the installed handler, with its effect |
| DataRecorder.DataRecorder.DiffMismatchHandler | src/datarecorder/data_recorder.hpp:373-429 | read, render, write the page, write the data, then fail with the report, each step aborting as the code does |
| FilterJson.TransformMembers | src/datarecorder/filter_json.hpp:76-82 | every member keeps its key and place; object values are transformed; arrays and scalars are left untouched |
| FilterJson.TransformRoot | src/datarecorder/filter_json.hpp:72-75 | the root goes to the visitor first, whatever it is; a non-object result is the whole result |
| FilterJson.Transform | src/datarecorder/filter_json.hpp:71-83 | transform_object: the visitor runs on the value, then every object-valued member of its result is transformed; TransformRoot, TransformMembers and VisitsOncePerObject state it |
| FilterJson.VisitsOncePerObject | src/datarecorder/filter_json.hpp:72-83 | pre-order: the root is visited first; for a visitor that keeps objects, there is one visit per object reachable in the result |
| FilterJson.MembersVisitsOncePerObject | src/datarecorder/filter_json.hpp:76-82 | one visit per reachable object below the members |
| FilterJson.TransformIdentity | src/datarecorder/filter_json.hpp:52-56 | a visitor that changes nothing gives back the tree |
| FilterJson.MembersIdentity | src/datarecorder/filter_json.hpp:76-82 | the members come back unchanged |
| FilterJson.SetKey | src/datarecorder/filter_json.hpp:26 | `obj["pid"] = 0` on the members: the members with that key get the value; all others stay |
| FilterJson.ZeroPid | src/datarecorder/filter_json.hpp:23-28 | the documented visitor: an object with a `pid` key gets `pid` 0, anything else is kept; ZeroPidTransform states its effect |
| FilterJson.ZeroPidShallow | src/datarecorder/filter_json.hpp:23-28 | the pid visitor never deepens nesting |
| FilterJson.ZeroPidTransform | src/datarecorder/filter_json.hpp:14-32 | transform_objects with the pid visitor computes the direct definition `ZeroAll` |
| FilterJson.ZeroAllMembersAt | src/datarecorder/filter_json.hpp:23-28 | member by member, a `pid` becomes 0, an object value is filtered, and anything else is kept |
| FilterJson.ZeroAllPids | src/datarecorder/filter_json.hpp:14-32 | every reachable object's `pid` member is 0 afterwards |
| FilterJson.ZeroAllKeepsKeys | src/datarecorder/filter_json.hpp:14-32 | keys and their order are kept, so an object without `pid` gains none |
| FilterJson.ZeroAllIdempotent | src/datarecorder/filter_json.hpp:14-32 | filtering twice is filtering once |
| FilterJson.ZeroPidTwice | src/datarecorder/filter_json.hpp:52-56 | two chained passes of the pid visitor equal one pass |
| FilterJson.ChainedNotComposed | src/datarecorder/filter_json.hpp:52-56 | two chained passes are not in general one pass with the composed visitor: a counterexample on `{"a": {}}` |
| FilterJson.Filter.constructor | src/datarecorder/filter_json.hpp:46-48 | the filter holds the given tree |
| FilterJson.Filter.ToJson | src/datarecorder/filter_json.hpp:65-68 | to_json gives the held tree |
| FilterJson.Filter.TransformObjects | src/datarecorder/filter_json.hpp:52-56 | rewrites the held tree in place with the transform and returns the same object, so calls chain |

## Left out

- Logging through `poke::monitor`, `monitor()` and `to_json_property`: diagnostics only.
- The gtest runner in `test/main.cpp`, and gtest's `current_test_info()`: the test case name and test name are inputs.
- The real file system and streams, `errno`, `current_path()` and `temp_directory_path()`. The disk is an abstract value; opening or creating fails on its "faulty" paths; the two directories are inputs.
- A write that fails after the file opened (`file.good()` at data_recorder.hpp:283): the model's writes succeed once opened.
- Reading a directory, file names containing `/`, and paths with a trailing slash.
- Byte strings that are not valid UTF-8: strings are sequences of Unicode characters. Only `filename.size()` in set_recording_filename is a byte count, and RecorderSpec.Utf8Length models it as the name's UTF-8 length.
- `std::size_t` wrap-around in the mismatch directory counter: the counter is unbounded.
- Races with other processes on `cppmismatch-<n>`: concurrency is out of scope.
- DiffTemplate.FillSlot: inserts the data literally, which is what the page needs (see Findings). The source's format expansion is modelled separately by DiffFormat.FillSlotAsWritten. The two agree for format-inert data. The model proves the two counterexamples, a leading digit and a trailing `$`. It does not work out the page for data holding `$&`, `` $` ``, `$'`, `$$` or `$<digit>`.
- DiffTemplate.FillSingleSlot: states the literal insertion. The source's own output is proved to agree with it for format-inert data (DiffFormat.FillAsWrittenAgrees); a leading digit loses the opening (DiffFormat.LeadingDigitDropsOpening).
- DiffFormat.Expand: follows the GNU C++ library's reading of two-digit group numbers and of groups the pattern does not have; other C++ libraries may differ there.
- Paths.ParentPath: the parent of the root `/` is the empty path, not `/` as in std::filesystem, so that the upward walk ends. The code as written never ends that walk (see Findings); Paths.StdParentPath keeps the standard behaviour.
- The general `std::regex` engine: only the two fixed patterns are modelled, as string functions.
- The browser's reading of the rendered page.
- Side effects of a user's callback: callbacks are pure functions.
- `bourne::json` `parse`, `dump_min`, `to_str` and the two string constructors: the model starts from the tree.
- Floating-point JSON numbers: numbers are integers.
- `bourne::json` object key order and uniqueness: an object is a list of members, and `SetKey` sets every member with the key.
- Stateful visitors: visitors are pure functions.
- FilterJson.Transform: requires a visitor that never deepens object nesting, which is enough for the recursion to end. A visitor that deepens nesting and still terminates is not modelled.
- The composition of two chained `transform_objects` calls into one call with the composed visitor: it does not hold in general, and FilterJson.ChainedNotComposed gives a counterexample. It is proved for the pid visitor (FilterJson.ZeroPidTwice).

## Findings

| source | as written | input that shows it | evidently intended | confidence | as-written member | corrected member |
|---|---|---|---|---|---|---|
| src/datarecorder/data_recorder.hpp:349-357 | `while (!current_path.empty())` with `current_path = current_path.parent_path()`; for an absolute path, `parent_path()` of `/` is `/`, so the loop never ends when the path exists nowhere | any absolute working directory and a target that exists in none of its ancestors (for example a missing `visualizer/recording_diff.html`, which makes every first `record` call of a recorder without a callback hang) | stop after trying the root, and fail listing every candidate | not executed; high (std::filesystem's `parent_path("/")` is `"/"`) | Paths.StdWalkNeverEmpty | PathSearch.SearchFindsFirstHit |
| src/datarecorder/data_recorder.hpp:403-406 | the replacement format is built as `"$1" + escaped_data + "$3"`, so the data's first character joins the `$1` | recording data or new data that start with a digit, for example `42\n`: `$14` reads as group 14, which the three-group pattern does not have, so the page loses `` const oldText = ` `` and the `4` | insert the data literally between the opening and `` `; `` | not executed; medium (the two-digit reading is the GNU C++ library's; others may differ in detail, but none gives the opening back) | DiffFormat.LeadingDigitDropsOpening | DiffTemplate.FillSingleSlot |
| src/datarecorder/data_recorder.hpp:403-406 | the data's last character joins the `$3` | data ending in `$`, for example `a$`: `$$` reads as a dollar and `3` as plain text, so the page ends the slot with `a$3` and loses the closing `` `; `` | insert the data literally between the opening and `` `; `` | not executed; high (`$$` is the dollar escape in every ECMAScript format) | DiffFormat.TrailingDollarDropsClosing | DiffTemplate.FillSingleSlot |
