# sfTestsToXUnit, modelled in Dafny

sfTestsToXUnitPlugin runs the lime test files of a symfony project and turns
their TAP-style console output into one XUnit report for a continuous
integration server. This project models the part that does the work once the
output has been captured:

- the two line parsers of `sfTestsToXUnitUtil`, which read the test number and
  the optional ` - name` from an `ok` / `not ok` line (module `LineUtil`);
- the per-run fold of `sfTestsToXUnitTest`: the output is split at newlines,
  each trimmed line is classified as a pass, a fail, an information line or
  nothing, and the events are folded into test cases kept in creation order
  and keyed by number, a "current" case that information lines go to, and
  pass/fail line counters; plus the completion-marker check, the run's total,
  its suite name and its `testsuite` element (module `TestRuns`);
- the test-case record of `sfTestsToXUnitTestCase`: accumulating information
  text and rendering the `testcase` / `failure` element (module `TestCases`);
- the report of `sfTestsToXUnitOutput`: runs collected in order, empty suites
  dropped, the `testsuites` root built exactly once, and the path checks made
  before the document is written (module `Report`).

Supporting modules: `Wrappers` (an `Option` type standing for PHP's `false`
and `NULL`), `Strings` (the PHP string functions used: ASCII case folding as
PCRE's `/i` does it, `trim`, `explode` together with the model's own newline
join that describes accumulated information, `str_replace` of `.php`,
`basename`, `(int)` of a digit run) and `Xml` (an element tree in place of the
DOM: name, attributes in the order they are set, text, children).

Everything is a pure function over immutable values. The interpreter run, the
clock and the filesystem are inputs: `TestRuns.RunTest` takes the captured
output and the duration, and the save decisions take a `FileSystem` snapshot
listing which paths exist, are directories and are writable, plus whether the
final write succeeds.

Points where the model commits to one reading of PHP:

- A line parser's `false` is `None`. A pass or fail line without a number
  files its case under array key 0, as PHP does with a `false` key, so it
  collides with a test numbered 0 (`TestCases.KeyOf`). `array_key_exists`
  is taken with PHP 8 semantics, where `false` looks up key 0.
- `(int)` of a digit run is also read as in PHP 7 and later, on a 64-bit build.
  A value too large for the integer type goes through a double and
  saturates at 9223372036854775807 (`PHP_INT_MAX`). From 2^1024 - 2^970 up,
  the double is infinite and the cast gives 0. So such a line files its case
  under key 0, like a line without a number (`Strings.ToPhpInt`).
- `$` in the name pattern may also match before a final newline; lines have
  already lost their newline when the name is read, so the name is whatever
  follows the first ` - ` (`LineUtil.NameAfterFirstSeparator`).
- The tests `$this->info == NULL` and `getInfo() != NULL` are PHP's loose
  comparisons, for which the empty string also counts as no information
  (`TestCases.IsNull`).
- `file_exists` is false for the empty path, so a bare file name that does not
  exist yet has an undeterminable folder (`Report.BareMissingNameUndetermined`).

Consequences of the code that are easy to miss:

- A comment with one blank after `#` is not information. The information
  prefix needs `#` followed by four whitespace characters
  (lib/sfTestsToXUnitTest.php:23; `TestRuns.OneBlankCommentIgnored`).
- The number must follow the result token after exactly one space
  (lib/util/sfTestsToXUnitUtil.php:48; `LineUtil.TwoSpacesNoNumber`).
- The failure counter goes up for every fail line, even when the number was
  already seen and no case is created. So `failures` can exceed the number of
  failed cases (lib/sfTestsToXUnitTest.php:321-332; `TestRuns.RepeatedFailLine`).
- A run that stopped before any result counts one test and one error but has
  no `testcase` element, because the elements are made from the (empty) case
  list (lib/sfTestsToXUnitTest.php:120-131 and :198-208;
  `TestRuns.CrashedRunReportsOneTest`).

## Model

| member | source | states |
|---|---|---|
| Strings.Trim | lib/sfTestsToXUnitTest.php:263 | `trim` leaves no whitespace or NUL at either end, is empty exactly when the line is all such characters, and otherwise is the line with exactly the leading and trailing run removed |
| Strings.TrimTrimmed | lib/sfTestsToXUnitTest.php:263 | trimming an already trimmed line changes nothing |
| Strings.Split | lib/sfTestsToXUnitTest.php:260 | `explode("\n", …)` always yields at least one piece and no piece contains the separator |
| Strings.JoinSplit | lib/sfTestsToXUnitTest.php:260 | joining the pieces back with the separator gives the original output: no character is lost or added by the split |
| Strings.SplitJoin | lib/sfTestsToXUnitTestCase.php:91 | splitting a newline-join of newline-free pieces gives back those pieces |
| Strings.ToPhpInt | lib/util/sfTestsToXUnitUtil.php:54 | the `(int)` cast keeps a value up to the 64-bit maximum, saturates above it, and gives 0 from the first value a double cannot hold |
| Strings.NatToString | lib/sfTestsToXUnitTestCase.php:107 | a number renders as a non-empty decimal numeral without leading zeros whose value is the number |
| Strings.RemoveAllAbsent | lib/sfTestsToXUnitTest.php:170 | removing `.php` from a text that has no occurrence of it changes nothing |
| Strings.RemovePhpSuffix | lib/sfTestsToXUnitTest.php:170 | a trailing `.php` is removed along with every earlier one |
| Strings.BasenameSplits | lib/sfTestsToXUnitTest.php:170 | the base name of `dir/name` is `name` |
| LineUtil.TokensExclusive | lib/sfTestsToXUnitTest.php:282-290 | no line starts with both `ok` and `not ok`, in any letter case |
| LineUtil.TestNumberFromLine | lib/util/sfTestsToXUnitUtil.php:39-55 | a number is found exactly when the line starts with `ok` or `not ok` in any case, then one space, then a digit; it never exceeds the integer maximum |
| LineUtil.NumeralAfterToken | lib/util/sfTestsToXUnitUtil.php:48-54 | the number is the (saturated) value of the digit run directly after the token and its space, whatever follows the run |
| LineUtil.NumberRoundTrip | lib/util/sfTestsToXUnitUtil.php:48-54 | writing a number after a token in any case and reading it back gives the number |
| LineUtil.TwoSpacesNoNumber | lib/util/sfTestsToXUnitUtil.php:48-51 | two spaces after the token give no number |
| LineUtil.UpperCaseFailNumber | lib/util/sfTestsToXUnitUtil.php:48 | `NOT OK 3` yields 3 |
| LineUtil.LeadingDigitsOnly | lib/util/sfTestsToXUnitUtil.php:48-54 | `ok 12abc` yields 12 |
| LineUtil.NoNumberExamples | lib/util/sfTestsToXUnitUtil.php:48-51 | a bare `ok`, and `okay 4`, give no number |
| LineUtil.TestNameFromLine | lib/util/sfTestsToXUnitUtil.php:15-31 | a name, when found, is non-empty and holds no newline |
| LineUtil.NameAfterFirstSeparator | lib/util/sfTestsToXUnitUtil.php:24-30 | on a line without newlines the name is everything after the first ` - `, and there is none when ` - ` is absent or ends the line |
| TestCases.TestCase.AddInfo | lib/sfTestsToXUnitTestCase.php:82-93 | number, name and state are untouched and the information is present and at least as long as the added text |
| TestCases.InfoIsNewlineJoin | lib/sfTestsToXUnitTestCase.php:68-93 | starting without information, adding non-empty texts gives their newline-join in order, with number, name and state as constructed |
| TestCases.InfoLinesRecoverable | lib/sfTestsToXUnitTestCase.php:82-93 | the added texts can be read back by splitting the information at newlines |
| TestCases.TestCase.ToXml | lib/sfTestsToXUnitTestCase.php:100-122 | a `testcase` element named `Test <number>` with its time, holding one `failure` child with the name, a newline and the information exactly when the case failed and has non-empty information |
| TestCases.TestcaseNameIgnoresParsedName | lib/sfTestsToXUnitTestCase.php:107 | the parsed name never affects the attributes |
| TestCases.NoFailureWithoutInfoOrFailure | lib/sfTestsToXUnitTestCase.php:111-118 | passed cases and failed cases without information have no children |
| TestRuns.Classify | lib/sfTestsToXUnitTest.php:279-296 | a line is a pass exactly when it starts with `ok`, a fail exactly when it starts with `not ok`, information exactly when it is neither and starts with `#` and four whitespace characters; results carry the parsed number and name, information its trimmed text after `#` |
| TestRuns.CreateTestCase | lib/sfTestsToXUnitTest.php:360-370 | keys stay distinct and the current case stays the last created; an existing key leaves everything unchanged, a new one appends a case without information |
| TestRuns.ReportPass | lib/sfTestsToXUnitTest.php:303-314 | the pass counter goes up by one whether or not a case was created; the fail counter is unchanged |
| TestRuns.ReportFail | lib/sfTestsToXUnitTest.php:321-332 | the fail counter goes up by one whether or not a case was created; the pass counter is unchanged |
| TestRuns.ReportInfo | lib/sfTestsToXUnitTest.php:339-352 | with no case the state is unchanged; otherwise only the last created case receives the text, counters and current case unchanged |
| TestRuns.Step | lib/sfTestsToXUnitTest.php:279-296 | each line keeps the state valid, bumps exactly its own counter, and an ignored line changes nothing |
| TestRuns.Replay | lib/sfTestsToXUnitTest.php:261-264 | feeding lines one after another keeps keys distinct and the current case last |
| TestRuns.ParseOutput | lib/sfTestsToXUnitTest.php:257-265 | the loop over the trimmed pieces reaches the fold's state, whose counters equal the numbers of pass lines and fail lines |
| TestRuns.CountersCountLines | lib/sfTestsToXUnitTest.php:303-332 | the pass and fail counters equal the numbers of pass and fail lines, duplicates included |
| TestRuns.FailuresBoundFailedCases | lib/sfTestsToXUnitTest.php:321-332 | the fail counter is never below the number of failed cases |
| TestRuns.RepeatedFailLine | lib/sfTestsToXUnitTest.php:321-332 | the same failing line twice gives one failed case and a fail counter of two |
| TestRuns.CasesAreFirstResults | lib/sfTestsToXUnitTest.php:360-370 | the cases are, in order, the number, name and state of the first result line of each key, and a key has a case exactly when some result line carries it |
| TestRuns.NoResultNoChange | lib/sfTestsToXUnitTest.php:339-345 | before the first result line nothing is recorded: information lines are dropped |
| TestRuns.InfoGoesToLastCase | lib/sfTestsToXUnitTest.php:339-352 | information lines all go to the last created case, in order, and change no other case or counter |
| TestRuns.InfoTextNonEmpty | lib/sfTestsToXUnitTest.php:348 | the text taken from a trimmed information line is never empty |
| TestRuns.InfoOfNewCase | lib/sfTestsToXUnitTest.php:339-352 | a fresh case followed by information lines holds their texts joined by newlines |
| TestRuns.NotOkIsFail | lib/sfTestsToXUnitTest.php:282-290 | a `not ok` line is a fail, never a pass |
| TestRuns.OneBlankCommentIgnored | lib/sfTestsToXUnitTest.php:23 | `# detail one` is not an information line |
| TestRuns.MarkerLength | lib/sfTestsToXUnitTest.php:267 | a completion marker has at least 32 characters |
| TestRuns.FineMarker | lib/sfTestsToXUnitTest.php:267 | `Looks like everything went fine.` in any letter case, followed by anything, is a completion marker |
| TestRuns.FailedMarker | lib/sfTestsToXUnitTest.php:267 | `Looks like you failed <m> tests of <n>.` is a completion marker for all counts |
| TestRuns.MarkerAnywhere | lib/sfTestsToXUnitTest.php:267 | the marker is not anchored: text before or after it does not hide it |
| TestRuns.ShortOutputIsError | lib/sfTestsToXUnitTest.php:267-271 | output shorter than any completion marker flags the run as failed |
| TestRuns.RunTest | lib/sfTestsToXUnitTest.php:227-272 | the run is flagged exactly when no completion marker occurs anywhere in the output, independently of the parsed counters |
| TestRuns.TestRun.TotalTestCases | lib/sfTestsToXUnitTest.php:198-208 | the total is at least the number of cases, positive when an error is flagged, zero only with no cases and no error, and differs from the case count only as 1 for a flagged run without cases |
| TestRuns.TestRun.ToXml | lib/sfTestsToXUnitTest.php:112-134 | a `testsuite` element with name, total, fail counter, 1/0 errors and time, holding one `testcase` per case in creation order, each given the run time divided by the total, which equals the case count whenever there is a child |
| TestRuns.TestRun.Errors | lib/sfTestsToXUnitTest.php:122 | the `errors` count is 1 exactly when the run was flagged, and 0 otherwise |
| TestRuns.TestRun.Name | lib/sfTestsToXUnitTest.php:168-171 | the suite name contains no `/` and is no longer than the file path; its value for `dir/stem.php` is given by `TestRuns.SuiteNameOfTestFile` |
| TestRuns.CrashedRunReportsOneTest | lib/sfTestsToXUnitTest.php:198-208 | a flagged run without cases reports `tests="1"` and `errors="1"` and has no children |
| TestRuns.SuiteNameOfTestFile | lib/sfTestsToXUnitTest.php:168-171 | the suite of `dir/stem.php` is named `stem` |
| Report.NewOutput | lib/sfTestsToXUnitOutput.php:48-56 | a new report has no runs and an empty document |
| Report.AddTest | lib/sfTestsToXUnitOutput.php:63-67 | the run goes after all earlier runs, which stay as they were; the document is untouched |
| Report.TestsInAddOrder | lib/sfTestsToXUnitOutput.php:63-67 | runs added one by one are held in the order they were added |
| Report.Included | lib/sfTestsToXUnitOutput.php:112-120 | a run contributes a suite exactly when its total is positive |
| Report.IncludedCount | lib/sfTestsToXUnitOutput.php:115 | the contributing runs are as many as the runs with a positive total |
| Report.IncludedConcat | lib/sfTestsToXUnitOutput.php:112-120 | for two batches of runs added one after the other, the suites of the second batch all come after those of the first, and each batch contributes exactly the suites it would contribute alone |
| Report.Suites | lib/sfTestsToXUnitOutput.php:109-123 | the root is `testsuites`, with one `testsuite` child per contributing run in order |
| Report.NoEmptySuite | lib/sfTestsToXUnitOutput.php:114-119 | no suite in the report claims zero tests |
| Report.GenerateDom | lib/sfTestsToXUnitOutput.php:100-127 | a document with a node is returned unchanged; an empty one receives the root for the runs added so far; a well-formed document ends with exactly one node |
| Report.GenerateDomIdempotent | lib/sfTestsToXUnitOutput.php:103-106 | generating twice is the same as generating once |
| Report.LaterRunsNotReflected | lib/sfTestsToXUnitOutput.php:103-106 | runs added after the first generation do not change the document |
| Report.SingleRoot | lib/sfTestsToXUnitOutput.php:100-127 | generating the report, adding a batch of runs and generating again leaves a single `testsuites` root |
| Report.Folder | lib/sfTestsToXUnitOutput.php:140 | the folder is the prefix of the path whose length is the path's length minus its base name's |
| Report.FolderOfFile | lib/sfTestsToXUnitOutput.php:140 | the folder of `dir/name` is `dir/` |
| Report.CheckTarget | lib/sfTestsToXUnitOutput.php:134-159 | the save refuses a missing file whose folder is not an existing directory ("could not be determined") or not writable, and an existing file that is not writable; it accepts exactly the other cases |
| Report.BareMissingNameUndetermined | lib/sfTestsToXUnitOutput.php:137-144 | a missing bare file name has an undeterminable folder |
| Report.MissingFileIgnoresFileWritability | lib/sfTestsToXUnitOutput.php:137-151 | for a missing file the file's own writability never changes the outcome |
| Report.ExistingFileOnlyFileWritability | lib/sfTestsToXUnitOutput.php:152-159 | for an existing file the outcome depends on the file's writability only |
| Report.UndeterminedBeforeNotWritable | lib/sfTestsToXUnitOutput.php:141-144 | a folder that is not a directory is reported as undeterminable even when writable |
| Report.SaveDocument | lib/sfTestsToXUnitOutput.php:134-163 | the save raises exactly when a check fails, with that check's error, and otherwise hands the document to the write |
| Report.WriteFailureNotRaised | lib/sfTestsToXUnitOutput.php:162 | whether the write succeeds never changes whether the save raises |
| Report.WriteOutput | lib/sfTestsToXUnitOutput.php:82-89 | `output()` generates the document and saves exactly that document |

## Left out

- Running the test file (`passthru` with `2>&1`), output buffering and timing with `microtime` (lib/sfTestsToXUnitTest.php:227-255) are I/O: the captured output and the duration are parameters of `TestRuns.RunTest`.
- Locating the PHP interpreter with `sfToolkit::getPhpCli` (lib/sfTestsToXUnitTest.php:100-105) is a call into the framework and plays no part in the parsing.
- `executeTest` registering the run with the report before running it (lib/sfTestsToXUnitTest.php:141-151) is object wiring; `Report.AddTest` takes the finished run.
- `round(…, 4)` of the suite and per-case times is floating point: times are reals kept unrounded, and the per-case share divides by a total proved positive wherever a case exists.
- The DOM library, XML escaping and `saveXML` are replaced by the `Xml.Element` tree; integer attributes are handed over as numbers (`Xml.Number`), and a case's `Test <number>` name is written with `Strings.NatToString`.
- The real filesystem and `file_put_contents` are replaced by the `Report.FileSystem` snapshot and a flag saying whether the write succeeds.
- The `is_string` guards of the line parsers (lib/util/sfTestsToXUnitUtil.php:18-21, :42-45) cannot fail on `string` arguments.
- The pass counter is kept and proved to count pass lines, but nothing reads it beyond that.
- The plain getters are the datatypes' fields.
- The symfony task (lib/task/sfTestsToXUnitTask.class.php) only declares options and has an empty `execute`.
- `basename` is modelled for `/` separators only; Windows `\` separators and locale-dependent behaviour are not modelled.
- Strings.RemoveAll: its contract states only that the result is no longer than the input and has no character the input lacks; what it removes is pinned down by `Strings.RemoveAllAbsent` and `Strings.RemovePhpSuffix`.
- Strings.Basename: its contract states only that the result has no slash and is no longer than the path; `Strings.BasenameSplits` gives its value for `dir/name`.
- TestRuns.TestRun.Name: its contract states only that the name has no slash and is no longer than the path. Its full value is proved only for `dir/stem.php` with a stem free of `.php`, because `Strings.RemoveAll` and `Strings.Basename` are characterized only partly.
- TestRuns.HasCompletionMarker: the regular expression is written out as a predicate; what is proved about it is its minimum length, that it is found anywhere in the output, and that both summary lines are markers.
