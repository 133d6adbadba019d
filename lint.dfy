/**
 * The per-file linter and its loop over the files of a coverage report: a
 * file that exists and carries the coverage pragma gets the scanner's errors
 * followed by one failure per uncovered run.
 */
module Lint {
  import opened Text
  import opened Diagnostics
  import opened Annotations
  import opened Statuses
  import opened Runs

  /**
   * The pragma a file must contain to be linted. It must follow a newline, so a
   * pragma on the first line of a file does not count.
   */
  const CoveragePragma: string := "\n// @coverage-lint"

  /**
   * One entry of the coverage report together with what the file system says
   * of its path: whether it exists and, if so, its text.
   */
  datatype SourceFile = SourceFile(path: string, onDisk: bool, contents: string, coverage: FileCoverage)

  /** The linter looks at a file only when it exists and contains the pragma. */
  predicate OptedIn(file: SourceFile) {
    file.onDisk && Contains(file.contents, CoveragePragma)
  }

  /** One failure per run, in the order of the runs. */
  function RunDiagnostics(path: string, runs: seq<Run>): (ds: seq<Diagnostic>)
    ensures |ds| == |runs|
    ensures forall i :: 0 <= i < |runs| ==> ds[i] == RangeDiagnostic(path, runs[i].start, runs[i].end)
  {
    seq(|runs|, i requires 0 <= i < |runs| => RangeDiagnostic(path, runs[i].start, runs[i].end))
  }

  /** The loop that turns each uncovered run into a failure and pushes it onto `messages`. */
  method AppendRangeMessages(messages: seq<Diagnostic>, path: string, blocks: seq<Run>) returns (out: seq<Diagnostic>)
    ensures out == messages + RunDiagnostics(path, blocks)
  {
    out := messages;
    var i := 0;
    while i < |blocks|
      invariant 0 <= i <= |blocks|
      invariant out == messages + RunDiagnostics(path, blocks[..i])
    {
      assert blocks[..i + 1] == blocks[..i] + [blocks[i]];
      out := out + [RangeDiagnostic(path, blocks[i].start, blocks[i].end)];
      i := i + 1;
    }
    assert blocks[..|blocks|] == blocks;
  }

  /** The ignored lines of a file: every line its exemptions name. */
  function FileIgnored(file: SourceFile): set<int> {
    var scan := Scan(file.path, SplitLines(file.contents));
    IgnoredPrefix(scan.ranges, |scan.ranges|)
  }

  function FileLastLine(file: SourceFile): int {
    LastLine(file.coverage.statementMap, |file.coverage.statementMap|)
  }

  /** The uncovered runs of a file. */
  function FileRuns(file: SourceFile): seq<Run> {
    UncoveredRuns(Coverages(LineStatuses(file.coverage), FileIgnored(file), FileLastLine(file)))
  }

  /** What the linter reports for one file. */
  function LintFileSpec(file: SourceFile): seq<Diagnostic> {
    if !OptedIn(file) then []
    else Scan(file.path, SplitLines(file.contents)).errors + RunDiagnostics(file.path, FileRuns(file))
  }

  /** The body of the loop over the report's files, for one file. */
  method LintFile(file: SourceFile) returns (messages: seq<Diagnostic>)
    ensures messages == LintFileSpec(file)
  {
    messages := [];
    if !file.onDisk {
      return;
    }
    var contents := file.contents;
    if !Contains(contents, CoveragePragma) {
      return;
    }
    var data := file.coverage;
    var statuses, lastLine := StatementLineStatuses(data);
    statuses := OverrideUncalledFunctions(data, statuses);
    var ignoredRanges, errors := GetIgnoredRanges(file.path, contents);
    assert messages + errors == errors;
    messages := messages + errors;
    var ignored := IgnoredLines(ignoredRanges);
    var blocks := UncoveredBlocks(statuses, ignored, lastLine);
    messages := AppendRangeMessages(messages, file.path, blocks);
  }

  /** What the linter reports for the first `n` files of the report. */
  function LintProjectSpec(files: seq<SourceFile>, n: nat): seq<Diagnostic>
    requires n <= |files|
  {
    if n == 0 then [] else LintProjectSpec(files, n - 1) + LintFileSpec(files[n - 1])
  }

  lemma ProjectStep(files: seq<SourceFile>, i: nat, messages: seq<Diagnostic>, fileMessages: seq<Diagnostic>)
    requires i < |files|
    requires messages == LintProjectSpec(files, i)
    requires fileMessages == LintFileSpec(files[i])
    ensures messages + fileMessages == LintProjectSpec(files, i + 1)
  {
  }

  /** The loop over the report's files, in key order. */
  method LintProject(files: seq<SourceFile>) returns (messages: seq<Diagnostic>)
    ensures messages == LintProjectSpec(files, |files|)
  {
    messages := [];
    var i := 0;
    while i < |files|
      invariant 0 <= i <= |files|
      invariant messages == LintProjectSpec(files, i)
    {
      var fileMessages := LintFile(files[i]);
      ProjectStep(files, i, messages, fileMessages);
      messages := messages + fileMessages;
      i := i + 1;
    }
  }

  // ---------------------------------------------------------------------------
  // What the linter reports
  // ---------------------------------------------------------------------------

  /** A file reports something only if it exists and its text contains the pragma somewhere. */
  lemma ReportsOnlyOptedIn(file: SourceFile)
    ensures LintFileSpec(file) != [] ==>
      file.onDisk && exists k :: 0 <= k <= |file.contents| && CoveragePragma <= file.contents[k..]
  {
    ContainsIff(file.contents, CoveragePragma);
  }

  /**
   * The shape of a file's report: every failure is on `path`, at column 0,
   * with level "failure"; the unmatched-end errors come first; every other
   * failure carries the range message of its own lines, which lie in
   * `1..lastLine`.
   */
  ghost predicate ShapedReport(path: string, lastLine: int, ds: seq<Diagnostic>) {
    && (forall i :: 0 <= i < |ds| ==>
          ds[i].path == path && ds[i].annotationLevel == Failure &&
          ds[i].start.column == 0 && ds[i].end.column == 0)
    && (forall a, b :: 0 <= a < b < |ds| && ds[b].message == UnmatchedEndMessage ==>
          ds[a].message == UnmatchedEndMessage)
    && (forall i :: 0 <= i < |ds| ==>
          || (ds[i].message == UnmatchedEndMessage && ds[i].start == ds[i].end)
          || (ds[i].message == CoverageMessage(ds[i].start.line, ds[i].end.line) &&
              1 <= ds[i].start.line <= ds[i].end.line <= lastLine))
  }

  lemma ErrorsShaped(path: string, lastLine: int, errors: seq<Diagnostic>)
    requires forall e :: e in errors ==> exists k :: e == UnmatchedEndDiagnostic(path, k)
    ensures ShapedReport(path, lastLine, errors)
    ensures forall i :: 0 <= i < |errors| ==> errors[i].message == UnmatchedEndMessage
  {
    forall i | 0 <= i < |errors|
      ensures errors[i].path == path && errors[i].annotationLevel == Failure
      ensures errors[i].start.column == 0 && errors[i].end.column == 0
      ensures errors[i].message == UnmatchedEndMessage && errors[i].start == errors[i].end
    {
      assert errors[i] in errors;
      var k :| errors[i] == UnmatchedEndDiagnostic(path, k);
    }
  }

  lemma RunDiagnosticsShaped(path: string, lastLine: int, runs: seq<Run>)
    requires forall b :: 0 <= b < |runs| ==> 1 <= runs[b].start <= runs[b].end <= lastLine
    ensures ShapedReport(path, lastLine, RunDiagnostics(path, runs))
    ensures forall i :: 0 <= i < |runs| ==> RunDiagnostics(path, runs)[i].message != UnmatchedEndMessage
  {
    var rds := RunDiagnostics(path, runs);
    forall i | 0 <= i < |rds| ensures rds[i].message != UnmatchedEndMessage {
      UnmatchedIsNotCoverage(runs[i].start, runs[i].end);
    }
  }

  lemma ShapedConcat(path: string, lastLine: int, errors: seq<Diagnostic>, rds: seq<Diagnostic>)
    requires ShapedReport(path, lastLine, errors) && ShapedReport(path, lastLine, rds)
    requires forall i :: 0 <= i < |rds| ==> rds[i].message != UnmatchedEndMessage
    ensures ShapedReport(path, lastLine, errors + rds)
  {
    var ds := errors + rds;
    forall i | 0 <= i < |ds| ensures ds[i] == if i < |errors| then errors[i] else rds[i - |errors|] {
    }
  }

  /** The report of a file that is linted: the scanner's errors, then the range failures. */
  lemma OptedInReport(file: SourceFile)
    requires OptedIn(file)
    ensures LintFileSpec(file) == Scan(file.path, SplitLines(file.contents)).errors + RunDiagnostics(file.path, FileRuns(file))
  {
  }

  /** Every report of a file has the shape above. */
  lemma LintFileShape(file: SourceFile)
    ensures ShapedReport(file.path, FileLastLine(file), LintFileSpec(file))
  {
    if OptedIn(file) {
      var lines := SplitLines(file.contents);
      var errors := Scan(file.path, lines).errors;
      var runs := FileRuns(file);
      ScanMeaning(file.path, lines);
      ErrorsShaped(file.path, FileLastLine(file), errors);
      UncoveredBlocksEnds(LineStatuses(file.coverage), FileIgnored(file), FileLastLine(file));
      RunDiagnosticsShaped(file.path, FileLastLine(file), runs);
      ShapedConcat(file.path, FileLastLine(file), errors, RunDiagnostics(file.path, runs));
      OptedInReport(file);
    } else {
      assert LintFileSpec(file) == [];
    }
  }

  /** Every failure reported for a file is on that file, and the file is linted. */
  lemma FilePaths(file: SourceFile)
    ensures forall d :: d in LintFileSpec(file) ==> OptedIn(file) && d.path == file.path
  {
    LintFileShape(file);
    forall d | d in LintFileSpec(file) ensures OptedIn(file) && d.path == file.path {
      var i :| 0 <= i < |LintFileSpec(file)| && LintFileSpec(file)[i] == d;
    }
  }

  /** Every failure of the project is on a file of the report that exists and carries the pragma. */
  lemma {:induction false} ProjectPaths(files: seq<SourceFile>, n: nat)
    requires n <= |files|
    ensures forall d :: d in LintProjectSpec(files, n) ==>
      exists i :: 0 <= i < n && OptedIn(files[i]) && d.path == files[i].path
  {
    if n > 0 {
      ProjectPaths(files, n - 1);
      FilePaths(files[n - 1]);
      var before := LintProjectSpec(files, n - 1);
      var last := LintFileSpec(files[n - 1]);
      ProjectStep(files, n - 1, before, last);
      forall d: Diagnostic | d in before + last ensures exists i :: 0 <= i < n && OptedIn(files[i]) && d.path == files[i].path {
        if d in before {
          var i :| 0 <= i < n - 1 && OptedIn(files[i]) && d.path == files[i].path;
        } else {
          assert OptedIn(files[n - 1]) && d.path == files[n - 1].path;
        }
      }
    }
  }
}
