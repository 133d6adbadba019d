# Jest coverage linter, modelled in Dafny

This project models the per-file coverage linter of the `jest-coverage` action. The linter starts from an istanbul coverage report: one record per source file, with statement spans and function spans and their hit counts. It keeps the files that exist and contain the pragma `"\n// @coverage-lint"`. For each such file it reports:

- one "Unmatched end jest-uncovered-block" failure for every block-end marker seen while no block is open;
- one failure per maximal run of uncovered, non-exempt lines. The run's message reads "Line N is not covered ..." for a single line and "Lines A-B are not covered ..." otherwise.

Exemptions come from four comment markers:

- `/* jest-uncovered-block */` and `/* end jest-uncovered-block */`, each preceded only by whitespace, delimit an exempt block;
- `// jest-uncovered-line` exempts its own line;
- `// jest-next-uncovered-line` exempts the line after it.

The source is imperative, and so is the model. Every loop of the source is a `method` with a `while` loop. Each method's `ensures` equates its result with a specification function: a fold over the first `n` items, or a comprehension. The properties the linter promises are proved as lemmas about those functions.

| file | module | what it holds |
|---|---|---|
| `text.dfy` | `Text` | splitting on `'\n'`, substring search, "leading whitespace then marker", decimal rendering of line numbers |
| `diagnostics.dfy` | `Diagnostics` | the report record, the unmatched-end error, the two message templates |
| `annotations.dfy` | `Annotations` | the marker scanner (`getIgnoredRanges`) |
| `statuses.dfy` | `Statuses` | the line-status map from statements and uncalled functions, `lastLine`, the ignored-line set |
| `runs.dfy` | `Runs` | the merge of uncovered lines into runs |
| `lint.dfy` | `Lint` | the per-file linter and the loop over the report's files |

Two behaviours of the code are easy to miss:

- The block-marker patterns (`jest-coverage.js:25`, `:27`) are anchored only at the start of the line, so text may follow the marker.
- A line with no status and no exemption does not close a run (`jest-coverage.js:128-140`). `Runs.NoInfoKeepsRunOpen` proves that two uncovered lines with no covered or ignored line between them lie in the same run; for example `uncovered, no info, uncovered` gives the single run `[1, 3]`.

## Model

| member | source | states |
|---|---|---|
| Text.SplitLines | jest-coverage.js:19 | splitting on newlines gives at least one piece, and no piece contains a newline |
| Text.JoinSplit | jest-coverage.js:19 | gluing the pieces back with newlines gives the original text |
| Text.SplitJoin | jest-coverage.js:19 | splitting the newline-joined pieces gives the same pieces back |
| Text.ContainsIff | jest-coverage.js:40 | `includes` holds exactly when the needle occurs at some position of the line |
| Text.StartsWithIff | jest-coverage.js:25 | the character-by-character prefix test agrees with the sequence prefix relation |
| Text.TrimStartDropsWhitespacePrefix | jest-coverage.js:25 | stripping leading whitespace removes exactly the longest all-whitespace prefix |
| Text.StartsWithAfterWhitespaceIff | jest-coverage.js:25-27 | the block-marker test holds exactly when some all-whitespace prefix is followed by the marker (regex `^\s*marker`) |
| Text.NatToString | jest-coverage.js:149-150 | a rendered line number is nonempty, all digits, with no leading zero |
| Text.DecimalValueOfNatToString | jest-coverage.js:149-150 | reading a rendered number back gives the number |
| Text.IntToStringInjective | jest-coverage.js:149-150 | different numbers render differently |
| Diagnostics.UnmatchedEndDiagnostic | jest-coverage.js:29-35 | the unmatched-end error is on the file, one line with column 0 at both ends, level "failure", fixed message |
| Diagnostics.CoverageMessageForm | jest-coverage.js:148-155 | the "Line N is ..." wording is used exactly when start equals end, the "Lines A-B are ..." wording exactly otherwise |
| Diagnostics.CoverageMessageInjective | jest-coverage.js:148-155 | two ranges with the same message are the same range |
| Diagnostics.UnmatchedIsNotCoverage | jest-coverage.js:31 | the unmatched-end message is never a range message |
| Diagnostics.RangeDiagnostic | jest-coverage.js:157-163 | a range failure is on the file, from (start, 0) to (end, 0), level "failure", with the range message |
| Annotations.ClassifyMeaning | jest-coverage.js:25-44 | a line's kind is the first test it passes, in the order block start, block end, this-line marker, next-line marker; block markers are anchored after leading whitespace, line markers may be anywhere |
| Annotations.GetIgnoredRanges | jest-coverage.js:18-47 | the loop over the lines returns the exemptions and errors of the scan of the split text |
| Annotations.PendingIsOpenBlock | jest-coverage.js:22-39 | the pending block start is line j exactly when line j is a block start and no block marker follows it up to now |
| Annotations.BlocksAreClosedBlocks | jest-coverage.js:27-39 | a block [j, k] is recorded exactly when line k is a block end with the block opened on line j still pending |
| Annotations.LinesAreExemptedLines | jest-coverage.js:40-44 | a single line k is recorded exactly when line k carries the this-line marker or line k-1 the next-line marker |
| Annotations.ErrorsOfPrefix | jest-coverage.js:27-36 | the errors are exactly the unmatched-end failures of block ends seen with no block open, in ascending line order |
| Annotations.ScanMeaning | jest-coverage.js:18-47 | for a whole file the blocks, the single lines and the errors are exactly as above |
| Annotations.ScanBounds | jest-coverage.js:37-43 | every block [j, k] has 1 <= j < k <= line count; every single line is between 1 and line count + 1 |
| Annotations.UnmatchedEndHasOneError | jest-coverage.js:28-35 | an unmatched block end produces exactly one error, and it is on its own line |
| Annotations.UnclosedBlockDropped | jest-coverage.js:26-46 | a block start never followed by another block marker yields no exemption and no later error |
| Annotations.SecondStartOverwrites | jest-coverage.js:25-26 | a second block start while one is pending replaces it; the first is never closed |
| Annotations.ScanLineAtMostOneEffect | jest-coverage.js:25-44 | each line pushes onto at most one list, at most one item, and only block markers change the pending start |
| Statuses.Interval | jest-coverage.js:83 | the lines a..b are exactly the integers from a to b |
| Statuses.PaintLines | jest-coverage.js:83-89 | the inner line loop sets every line of the span to the given status and leaves all other entries alone |
| Statuses.StatementLineStatuses | jest-coverage.js:78-91 | the statement loop returns the status map and the last line of the fold over the statements |
| Statuses.StatementStatusAt | jest-coverage.js:79-91 | a line has a status exactly when some statement covers it; the status is that of the last covering statement, false exactly when its hit count is 0 |
| Statuses.LastLineIsMax | jest-coverage.js:78-81 | lastLine is at least 1, at least every statement's end line, and is 1 or one of those end lines |
| Statuses.OverrideUncalledFunctions | jest-coverage.js:97-104 | the function loop returns the fold that repaints uncalled functions |
| Statuses.FunctionStatusAt | jest-coverage.js:97-104 | a line inside an uncalled function ends up false; every other line keeps its status or its absence of one |
| Statuses.FunctionsOnlyDowngrade | jest-coverage.js:97-104 | the function loop keeps every status key, and a line it leaves true was true before |
| Statuses.AllCalledChangesNothing | jest-coverage.js:99 | when every function was called the status map is unchanged |
| Statuses.IgnoredLines | jest-coverage.js:111-121 | the exemption loop returns the union of the lines each exemption names |
| Statuses.IgnoredIff | jest-coverage.js:111-121 | a line is ignored exactly when some exemption names it |
| Runs.UncoveredBlocks | jest-coverage.js:124-144 | the merge loop returns the runs of the merge of lines 1..lastLine |
| Runs.MergePrefixInv | jest-coverage.js:126-141 | after every line the finished runs are well formed, ascending and separated, and the open run has only lines without information after its end |
| Runs.RunsShape | jest-coverage.js:124-144 | every run lies in 1..lastLine, starts and ends uncovered, holds no covered or ignored line; runs ascend strictly; any two runs have a covered or ignored line between them; every uncovered line is in a run |
| Runs.UncoveredInExactlyOneRun | jest-coverage.js:126-144 | every uncovered, non-ignored line lies in exactly one run |
| Runs.RunsCharacterization | jest-coverage.js:126-144 | a line is in a run exactly when it lies in a stretch that starts and ends uncovered with no covered or ignored line in it |
| Runs.UncoveredBlocksEnds | jest-coverage.js:128-133 | both ends of every run are lines with status false that are not ignored, within 1..lastLine |
| Runs.UncoveredBlocksInterior | jest-coverage.js:134-140 | no line inside a run has status true or is ignored |
| Runs.UncoveredBlocksComplete | jest-coverage.js:128-144 | every line of 1..lastLine with status false that is not ignored lies in a run |
| Runs.NoInfoKeepsRunOpen | jest-coverage.js:128-136 | two uncovered lines with no covered or ignored line between them lie in the same run, so lines with no information do not end a run; `uncovered, no info, uncovered` gives the single run [1, 3] |
| Lint.RunDiagnostics | jest-coverage.js:147-164 | one range failure per run, in run order |
| Lint.AppendRangeMessages | jest-coverage.js:147-164 | the loop appends the range failures of the runs to the messages |
| Lint.LintFile | jest-coverage.js:65-164 | the per-file body returns the file's report |
| Lint.LintProject | jest-coverage.js:61-166 | the loop over the report's files returns their reports concatenated in key order |
| Lint.ReportsOnlyOptedIn | jest-coverage.js:65-71 | a file reports something only if it exists and its text contains the pragma |
| Lint.LintFileShape | jest-coverage.js:107-163 | every failure of a file is on it, at column 0, level "failure"; unmatched-end errors come first; the others carry the range message of lines within 1..lastLine |
| Lint.FilePaths | jest-coverage.js:162 | every failure of a file is on that file, and the file is linted |
| Lint.ProjectPaths | jest-coverage.js:64-71 | every failure of the project is on a report file that exists and carries the pragma |

## Left out

- `run()` and the top-level `.catch` (`jest-coverage.js:169-204`) are not modelled. They read environment variables, call `process.exit`, run jest as a subprocess, `require` the coverage JSON and send the report over the network.
- The file system is not accessed. `fs.existsSync` and `fs.readFileSync` become the `onDisk` and `contents` fields of `Lint.SourceFile`. A read that throws is not modelled.
- The regular-expression engine is not modelled. The two block-marker patterns are stated as "leading `\s` characters, then the literal marker". `Text.StartsWithAfterWhitespaceIff` ties that to the pattern's reading.
- `Object.keys` order is not modelled. The span lists and the file list are taken in the order the enumeration yields them.
- Repeated keys are accepted. The model paints the spans in list order, whatever their keys.
- Hit counts are modelled as integers. A count that is missing or is not a number counts as "not zero", as `=== 0` treats it. Other JSON value types are not distinguished.
- The coverage record always has all four of `statementMap`, `s`, `fnMap` and `f`. The exception the source raises when one is missing is not modelled.
- Line numbers in the coverage data are integers. Fractional or non-numeric values are not modelled.
- Line numbers are unbounded integers, where JavaScript uses doubles. Double-precision effects are not modelled: the loops at `jest-coverage.js:83`, `:87`, `:100`, `:117` and `:126` never end once `line` reaches 2^53, and `${start}` renders numbers from 10^21 on in exponent form. `Text.IntToString` renders every integer in plain digits.
- Columns in coverage locations are not modelled, because they are never read. Function declarations, names and branch maps are left out for the same reason.
- Status and ignored-line dictionaries keyed by line become a `map<int, bool>` and a `set<int>`. The set works because `ignoredLines` only ever holds `true`.
- The per-file loop body is modelled as helper methods, one per source loop, called in the source's order by `Lint.LintFile`. `Lint.LintProject` appends each file's report, where the source pushes onto one shared array.
- `String.prototype.match`, `includes` and template interpolation are modelled by their results on `seq<char>`. No Unicode case or normalisation behaviour is involved.
