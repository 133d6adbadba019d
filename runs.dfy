/**
 * The merge of uncovered lines into runs: lines `1..lastLine` are scanned in
 * order, an uncovered line that is not ignored opens or extends the current
 * run, a covered or ignored line closes it, and a line with no information
 * leaves it as it is.
 */
module Runs {
  import opened Diagnostics
  import opened Statuses

  /** What one line means to the merge. */
  datatype LineCoverage = Uncovered | CoveredOrIgnored | NoInfo

  /** The two tests of the merge loop on line `line`, in their order. */
  function CoverageOf(statuses: map<int, bool>, ignored: set<int>, line: int): LineCoverage {
    if line in statuses && !statuses[line] && line !in ignored then Uncovered
    else if (line in statuses && statuses[line]) || line in ignored then CoveredOrIgnored
    else NoInfo
  }

  /** The coverage of lines `1..lastLine`; line `k` is at index `k - 1`. */
  function Coverages(statuses: map<int, bool>, ignored: set<int>, lastLine: int): (cov: seq<LineCoverage>)
    ensures |cov| == if lastLine > 0 then lastLine else 0
    ensures forall m :: 0 <= m < |cov| ==> cov[m] == CoverageOf(statuses, ignored, m + 1)
  {
    seq(if lastLine > 0 then lastLine else 0, m => CoverageOf(statuses, ignored, m + 1))
  }

  /** An inclusive range of line numbers. */
  datatype Run = Run(start: int, end: int)

  predicate Within(r: Run, line: int) {
    r.start <= line <= r.end
  }

  /** The finished runs and the run still open, if any. */
  datatype MergeState = MergeState(blocks: seq<Run>, current: Option<Run>)

  /** One iteration of the merge loop, on line `line`. */
  function MergeLine(st: MergeState, c: LineCoverage, line: int): MergeState {
    match c
    case Uncovered =>
      if st.current.None? then MergeState(st.blocks, Some(Run(line, line)))
      else MergeState(st.blocks, Some(Run(st.current.value.start, line)))
    case CoveredOrIgnored =>
      if st.current.Some? then MergeState(st.blocks + [st.current.value], None) else st
    case NoInfo => st
  }

  /** The merge state after lines `1..n`. */
  function MergePrefix(cov: seq<LineCoverage>, n: nat): MergeState
    requires n <= |cov|
  {
    if n == 0 then MergeState([], None) else MergeLine(MergePrefix(cov, n - 1), cov[n - 1], n)
  }

  /** The runs once the scan is over: a run still open is kept. */
  function Flush(st: MergeState): seq<Run> {
    if st.current.Some? then st.blocks + [st.current.value] else st.blocks
  }

  function UncoveredRuns(cov: seq<LineCoverage>): seq<Run> {
    Flush(MergePrefix(cov, |cov|))
  }

  /** The merge loop over lines `1..lastLine`. */
  method UncoveredBlocks(statuses: map<int, bool>, ignored: set<int>, lastLine: int) returns (blocks: seq<Run>)
    ensures blocks == UncoveredRuns(Coverages(statuses, ignored, lastLine))
  {
    ghost var cov := Coverages(statuses, ignored, lastLine);
    blocks := [];
    var current: Option<Run> := None;
    var line := 1;
    while line <= lastLine
      invariant 1 <= line && (line <= lastLine + 1 || line == 1)
      invariant line - 1 <= |cov|
      invariant MergeState(blocks, current) == MergePrefix(cov, line - 1)
    {
      if line in statuses && !statuses[line] && line !in ignored {
        if current.None? {
          current := Some(Run(line, line));
        } else {
          current := Some(Run(current.value.start, line));
        }
      } else if ((line in statuses && statuses[line]) || line in ignored) && current.Some? {
        blocks := blocks + [current.value];
        current := None;
      }
      line := line + 1;
    }
    if current.Some? {
      blocks := blocks + [current.value];
    }
  }

  // ---------------------------------------------------------------------------
  // What the runs are
  // ---------------------------------------------------------------------------

  /**
   * A run inside lines `1..n` that starts and ends on an uncovered line and
   * holds no covered or ignored line.
   */
  ghost predicate RunOK(cov: seq<LineCoverage>, r: Run, n: int) {
    && 1 <= r.start <= r.end <= n <= |cov|
    && cov[r.start - 1] == Uncovered && cov[r.end - 1] == Uncovered
    && forall m :: r.start - 1 <= m < r.end ==> cov[m] != CoveredOrIgnored
  }

  /** Some covered or ignored line lies strictly between lines `a` and `b`. */
  ghost predicate ClosedBetween(cov: seq<LineCoverage>, a: int, b: int) {
    exists m :: a <= m < b - 1 && 0 <= m < |cov| && cov[m] == CoveredOrIgnored
  }

  /** Line `m + 1` is uncovered. */
  ghost predicate UncoveredAt(cov: seq<LineCoverage>, m: int) {
    0 <= m < |cov| && cov[m] == Uncovered
  }

  /** Line `line` lies in one of `runs`. */
  ghost predicate InSomeRun(runs: seq<Run>, line: int) {
    exists b :: 0 <= b < |runs| && Within(runs[b], line)
  }

  /** Every uncovered line among `1..n` lies in one of `runs`. */
  ghost predicate CoversUncovered(cov: seq<LineCoverage>, n: int, runs: seq<Run>) {
    forall m :: 0 <= m < n && UncoveredAt(cov, m) ==> InSomeRun(runs, m + 1)
  }

  /** The shape of a run list: each run well formed, ascending, and any two runs separated by a closing line. */
  ghost predicate WellSeparated(cov: seq<LineCoverage>, n: int, runs: seq<Run>) {
    && (forall b :: 0 <= b < |runs| ==> RunOK(cov, runs[b], n))
    && (forall a, b :: 0 <= a < b < |runs| ==> runs[a].end < runs[b].start && ClosedBetween(cov, runs[a].end, runs[b].start))
  }

  /** The run still open after line `n`: lines after its end are all without information. */
  ghost predicate OpenRunInv(cov: seq<LineCoverage>, n: int, blocks: seq<Run>, r: Run) {
    && RunOK(cov, r, n)
    && (forall m :: r.end <= m < n ==> cov[m] == NoInfo)
    && (forall b :: 0 <= b < |blocks| ==> blocks[b].end < r.start)
    && (|blocks| > 0 ==> ClosedBetween(cov, blocks[|blocks| - 1].end, r.start))
  }

  /** With no run open after line `n`, a closing line follows the last finished run. */
  ghost predicate ClosedInv(cov: seq<LineCoverage>, n: int, blocks: seq<Run>) {
    |blocks| > 0 ==> ClosedBetween(cov, blocks[|blocks| - 1].end, n + 1)
  }

  /** What holds of the merge state after lines `1..n`. */
  ghost predicate MergeInv(cov: seq<LineCoverage>, n: nat, st: MergeState) {
    && n <= |cov|
    && WellSeparated(cov, n, st.blocks)
    && CoversUncovered(cov, n, Flush(st))
    && (if st.current.Some? then OpenRunInv(cov, n, st.blocks, st.current.value) else ClosedInv(cov, n, st.blocks))
  }

  lemma WellSeparatedGrow(cov: seq<LineCoverage>, n: int, runs: seq<Run>)
    requires WellSeparated(cov, n - 1, runs) && n <= |cov|
    ensures WellSeparated(cov, n, runs)
  {
    forall b | 0 <= b < |runs| ensures RunOK(cov, runs[b], n) {
      assert RunOK(cov, runs[b], n - 1);
    }
  }

  lemma WellSeparatedAppend(cov: seq<LineCoverage>, n: int, runs: seq<Run>, r: Run)
    requires WellSeparated(cov, n, runs) && RunOK(cov, r, n)
    requires forall b :: 0 <= b < |runs| ==> runs[b].end < r.start
    requires |runs| > 0 ==> ClosedBetween(cov, runs[|runs| - 1].end, r.start)
    ensures WellSeparated(cov, n, runs + [r])
  {
    var runs' := runs + [r];
    forall b | 0 <= b < |runs'| ensures RunOK(cov, runs'[b], n) {
      if b < |runs| {
        assert runs'[b] == runs[b];
      }
    }
    forall a, b | 0 <= a < b < |runs'|
      ensures runs'[a].end < runs'[b].start && ClosedBetween(cov, runs'[a].end, runs'[b].start)
    {
      assert runs'[a] == runs[a];
      if b < |runs| {
        assert runs'[b] == runs[b];
      } else {
        var last := runs[|runs| - 1];
        var w :| last.end <= w < r.start - 1 && 0 <= w < |cov| && cov[w] == CoveredOrIgnored;
        assert runs[a].end <= last.end by {
          if a < |runs| - 1 {
            assert RunOK(cov, last, n);
          }
        }
      }
    }
  }

  /** Uncovered lines stay covered by runs when every earlier run survives and line `n` is taken care of. */
  lemma CoversStep(cov: seq<LineCoverage>, n: int, runs: seq<Run>, runs': seq<Run>)
    requires CoversUncovered(cov, n - 1, runs)
    requires forall line :: line < n && InSomeRun(runs, line) ==> InSomeRun(runs', line)
    requires UncoveredAt(cov, n - 1) ==> InSomeRun(runs', n)
    ensures CoversUncovered(cov, n, runs')
  {
    forall m | 0 <= m < n && UncoveredAt(cov, m) ensures InSomeRun(runs', m + 1) {
      if m < n - 1 {
        assert InSomeRun(runs, m + 1);
      }
    }
  }

  /** An uncovered line with no run open opens a one-line run. */
  lemma OpenStep(cov: seq<LineCoverage>, n: nat, prev: MergeState)
    requires 0 < n <= |cov| && cov[n - 1] == Uncovered
    requires MergeInv(cov, n - 1, prev) && prev.current.None?
    ensures MergeInv(cov, n, MergeLine(prev, cov[n - 1], n))
  {
    var r := Run(n, n);
    var st := MergeLine(prev, Uncovered, n);
    assert st == MergeState(prev.blocks, Some(r));
    WellSeparatedGrow(cov, n, prev.blocks);
    forall b | 0 <= b < |prev.blocks| ensures prev.blocks[b].end < r.start {
      assert RunOK(cov, prev.blocks[b], n - 1);
    }
    assert OpenRunInv(cov, n, st.blocks, r);
    forall line | line < n && InSomeRun(prev.blocks, line) ensures InSomeRun(prev.blocks + [r], line) {
      var b :| 0 <= b < |prev.blocks| && Within(prev.blocks[b], line);
      assert (prev.blocks + [r])[b] == prev.blocks[b];
    }
    assert Within((prev.blocks + [r])[|prev.blocks|], n);
    CoversStep(cov, n, prev.blocks, Flush(st));
  }

  /** An uncovered line with a run open extends that run to it. */
  lemma ExtendStep(cov: seq<LineCoverage>, n: nat, prev: MergeState)
    requires 0 < n <= |cov| && cov[n - 1] == Uncovered
    requires MergeInv(cov, n - 1, prev) && prev.current.Some?
    ensures MergeInv(cov, n, MergeLine(prev, cov[n - 1], n))
  {
    var p := prev.current.value;
    var r := Run(p.start, n);
    var st := MergeLine(prev, Uncovered, n);
    assert st == MergeState(prev.blocks, Some(r));
    WellSeparatedGrow(cov, n, prev.blocks);
    assert RunOK(cov, r, n) by {
      forall m | r.start - 1 <= m < r.end ensures cov[m] != CoveredOrIgnored {
        if m < p.end {
        } else if m < n - 1 {
          assert cov[m] == NoInfo;
        }
      }
    }
    assert OpenRunInv(cov, n, st.blocks, r);
    forall line | line < n && InSomeRun(prev.blocks + [p], line) ensures InSomeRun(prev.blocks + [r], line) {
      var b :| 0 <= b < |prev.blocks + [p]| && Within((prev.blocks + [p])[b], line);
      if b < |prev.blocks| {
        assert (prev.blocks + [r])[b] == prev.blocks[b] == (prev.blocks + [p])[b];
      } else {
        assert Within((prev.blocks + [r])[b], line);
      }
    }
    assert Within((prev.blocks + [r])[|prev.blocks|], n);
    CoversStep(cov, n, Flush(prev), Flush(st));
  }

  /** A covered or ignored line with a run open closes it. */
  lemma CloseStep(cov: seq<LineCoverage>, n: nat, prev: MergeState)
    requires 0 < n <= |cov| && cov[n - 1] == CoveredOrIgnored
    requires MergeInv(cov, n - 1, prev) && prev.current.Some?
    ensures MergeInv(cov, n, MergeLine(prev, cov[n - 1], n))
  {
    var p := prev.current.value;
    var st := MergeLine(prev, CoveredOrIgnored, n);
    assert st == MergeState(prev.blocks + [p], None);
    WellSeparatedGrow(cov, n, prev.blocks);
    WellSeparatedAppend(cov, n, prev.blocks, p);
    assert ClosedBetween(cov, p.end, n + 1) by {
      assert p.end <= n - 1 < n && cov[n - 1] == CoveredOrIgnored;
    }
    assert Flush(st) == Flush(prev);
    CoversStep(cov, n, Flush(prev), Flush(st));
  }

  /** A line that is covered or ignored with no run open, or has no information, changes nothing. */
  lemma IdleStep(cov: seq<LineCoverage>, n: nat, prev: MergeState)
    requires 0 < n <= |cov| && cov[n - 1] != Uncovered
    requires cov[n - 1] == CoveredOrIgnored ==> prev.current.None?
    requires MergeInv(cov, n - 1, prev)
    ensures MergeInv(cov, n, MergeLine(prev, cov[n - 1], n))
  {
    var st := MergeLine(prev, cov[n - 1], n);
    assert st == prev;
    WellSeparatedGrow(cov, n, prev.blocks);
    CoversStep(cov, n, Flush(prev), Flush(st));
    if prev.current.Some? {
      var r := prev.current.value;
      assert RunOK(cov, r, n);
      assert OpenRunInv(cov, n, st.blocks, r);
    } else if |prev.blocks| > 0 {
      var w :| prev.blocks[|prev.blocks| - 1].end <= w < n - 1 && 0 <= w < |cov| && cov[w] == CoveredOrIgnored;
      assert ClosedBetween(cov, prev.blocks[|prev.blocks| - 1].end, n + 1);
    }
  }

  /** The merge invariant of the state the merge reaches after lines `1..n`. */
  ghost predicate MergeInvAt(cov: seq<LineCoverage>, n: nat)
    requires n <= |cov|
  {
    MergeInv(cov, n, MergePrefix(cov, n))
  }

  lemma MergeStep(cov: seq<LineCoverage>, n: nat)
    requires 0 < n <= |cov|
    requires MergeInvAt(cov, n - 1)
    ensures MergeInvAt(cov, n)
  {
    var prev := MergePrefix(cov, n - 1);
    assert MergePrefix(cov, n) == MergeLine(prev, cov[n - 1], n);
    if cov[n - 1] == Uncovered && prev.current.None? {
      OpenStep(cov, n, prev);
    } else if cov[n - 1] == Uncovered {
      ExtendStep(cov, n, prev);
    } else if cov[n - 1] == CoveredOrIgnored && prev.current.Some? {
      CloseStep(cov, n, prev);
    } else {
      IdleStep(cov, n, prev);
    }
  }

  lemma MergeBase(cov: seq<LineCoverage>)
    ensures MergeInvAt(cov, 0)
  {
    assert CoversUncovered(cov, 0, []);
  }

  /** The merge invariant holds after every line. */
  lemma {:induction false} MergePrefixInv(cov: seq<LineCoverage>, n: nat)
    requires n <= |cov|
    ensures MergeInvAt(cov, n)
  {
    if n == 0 {
      MergeBase(cov);
    } else {
      MergePrefixInv(cov, n - 1);
      MergeStep(cov, n);
    }
  }

  /**
   * The runs of a scan: each lies in `1..|cov|`, starts and ends on an
   * uncovered line and holds no covered or ignored line; they are strictly
   * ascending, any two runs have a covered or ignored line between them,
   * and every uncovered line lies in one of them.
   */
  lemma RunsShape(cov: seq<LineCoverage>)
    ensures WellSeparated(cov, |cov|, UncoveredRuns(cov))
    ensures CoversUncovered(cov, |cov|, UncoveredRuns(cov))
  {
    MergePrefixInv(cov, |cov|);
    var st := MergePrefix(cov, |cov|);
    var runs := UncoveredRuns(cov);
    if st.current.Some? {
      assert runs == st.blocks + [st.current.value];
      assert forall b :: 0 <= b < |runs| ==> RunOK(cov, runs[b], |cov|);
    }
  }

  /** Every uncovered line lies in exactly one run. */
  lemma UncoveredInExactlyOneRun(cov: seq<LineCoverage>, line: int)
    requires 1 <= line <= |cov| && cov[line - 1] == Uncovered
    ensures InSomeRun(UncoveredRuns(cov), line)
    ensures forall a, b ::
      (0 <= a < |UncoveredRuns(cov)| && 0 <= b < |UncoveredRuns(cov)| &&
       Within(UncoveredRuns(cov)[a], line) && Within(UncoveredRuns(cov)[b], line)) ==> a == b
  {
    RunsShape(cov);
    var runs := UncoveredRuns(cov);
    assert UncoveredAt(cov, line - 1);
    forall a, b | 0 <= a < |runs| && 0 <= b < |runs| && Within(runs[a], line) && Within(runs[b], line) ensures a == b {
      assert RunOK(cov, runs[a], |cov|) && RunOK(cov, runs[b], |cov|);
    }
  }

  /**
   * Lines `i + 1 .. j + 1` start and end uncovered and hold no covered or
   * ignored line.
   */
  ghost predicate UncoveredStretch(cov: seq<LineCoverage>, i: int, j: int) {
    && 0 <= i <= j < |cov|
    && cov[i] == Uncovered && cov[j] == Uncovered
    && forall m :: i <= m <= j ==> cov[m] != CoveredOrIgnored
  }

  /**
   * A line lies in a run exactly when it sits in an uncovered stretch. The runs
   * are therefore the maximal stretches; lines with no information may lie
   * inside them.
   */
  lemma RunsCharacterization(cov: seq<LineCoverage>, line: int)
    ensures InSomeRun(UncoveredRuns(cov), line) <==>
      exists i, j :: UncoveredStretch(cov, i, j) && i < line <= j + 1
  {
    RunsShape(cov);
    var runs := UncoveredRuns(cov);
    if InSomeRun(runs, line) {
      var b :| 0 <= b < |runs| && Within(runs[b], line);
      assert RunOK(cov, runs[b], |cov|);
      assert UncoveredStretch(cov, runs[b].start - 1, runs[b].end - 1);
    }
    if i, j :| UncoveredStretch(cov, i, j) && i < line <= j + 1 {
      assert UncoveredAt(cov, i) && UncoveredAt(cov, j);
      var bi :| 0 <= bi < |runs| && Within(runs[bi], i + 1);
      var bj :| 0 <= bj < |runs| && Within(runs[bj], j + 1);
      assert RunOK(cov, runs[bi], |cov|) && RunOK(cov, runs[bj], |cov|);
      if bi < bj {
        assert false;
      } else if bj < bi {
        assert false;
      }
      assert Within(runs[bi], line);
    }
  }

  /** Line `line` of the coverage sequence as the merge loop tests it. */
  lemma CoveragesAt(statuses: map<int, bool>, ignored: set<int>, lastLine: int, line: int)
    requires 1 <= line <= lastLine
    ensures Coverages(statuses, ignored, lastLine)[line - 1] == CoverageOf(statuses, ignored, line)
  {
  }

  /**
   * Each run of the merge loop lies in `1..lastLine` and both its ends are
   * uncovered lines that are not ignored.
   */
  lemma UncoveredBlocksEnds(statuses: map<int, bool>, ignored: set<int>, lastLine: int)
    ensures var runs := UncoveredRuns(Coverages(statuses, ignored, lastLine));
      forall b :: 0 <= b < |runs| ==>
        && 1 <= runs[b].start <= runs[b].end <= lastLine
        && runs[b].start in statuses && !statuses[runs[b].start] && runs[b].start !in ignored
        && runs[b].end in statuses && !statuses[runs[b].end] && runs[b].end !in ignored
  {
    var cov := Coverages(statuses, ignored, lastLine);
    var runs := UncoveredRuns(cov);
    RunsShape(cov);
    forall b | 0 <= b < |runs|
      ensures 1 <= runs[b].start <= runs[b].end <= lastLine
      ensures runs[b].start in statuses && !statuses[runs[b].start] && runs[b].start !in ignored
      ensures runs[b].end in statuses && !statuses[runs[b].end] && runs[b].end !in ignored
    {
      assert RunOK(cov, runs[b], |cov|);
      CoveragesAt(statuses, ignored, lastLine, runs[b].start);
      CoveragesAt(statuses, ignored, lastLine, runs[b].end);
    }
  }

  /** No line inside a run is covered or ignored. */
  lemma UncoveredBlocksInterior(statuses: map<int, bool>, ignored: set<int>, lastLine: int, line: int)
    ensures var runs := UncoveredRuns(Coverages(statuses, ignored, lastLine));
      InSomeRun(runs, line) ==> line !in ignored && !(line in statuses && statuses[line])
  {
    var cov := Coverages(statuses, ignored, lastLine);
    var runs := UncoveredRuns(cov);
    RunsShape(cov);
    if InSomeRun(runs, line) {
      var b :| 0 <= b < |runs| && Within(runs[b], line);
      assert RunOK(cov, runs[b], |cov|);
      CoveragesAt(statuses, ignored, lastLine, line);
    }
  }

  /** Every uncovered line of `1..lastLine` that is not ignored lies in a run. */
  lemma UncoveredBlocksComplete(statuses: map<int, bool>, ignored: set<int>, lastLine: int, line: int)
    requires 1 <= line <= lastLine && line in statuses && !statuses[line] && line !in ignored
    ensures InSomeRun(UncoveredRuns(Coverages(statuses, ignored, lastLine)), line)
  {
    var cov := Coverages(statuses, ignored, lastLine);
    RunsShape(cov);
    CoveragesAt(statuses, ignored, lastLine, line);
    assert UncoveredAt(cov, line - 1);
  }

  /**
   * A line with no information does not end a run: two uncovered lines with
   * no covered or ignored line between them lie in the same run, so
   * `uncovered, no info, uncovered` is the single run `[1, 3]`.
   */
  lemma NoInfoKeepsRunOpen(cov: seq<LineCoverage>, i: int, j: int)
    requires 0 <= i < j < |cov| && cov[i] == Uncovered && cov[j] == Uncovered
    requires forall m :: i < m < j ==> cov[m] != CoveredOrIgnored
    ensures exists b ::
      && 0 <= b < |UncoveredRuns(cov)|
      && Within(UncoveredRuns(cov)[b], i + 1) && Within(UncoveredRuns(cov)[b], j + 1)
    ensures UncoveredRuns([Uncovered, NoInfo, Uncovered]) == [Run(1, 3)]
  {
    RunsShape(cov);
    var runs := UncoveredRuns(cov);
    assert UncoveredStretch(cov, i, j);
    RunsCharacterization(cov, j + 1);
    var b :| 0 <= b < |runs| && Within(runs[b], j + 1);
    assert UncoveredAt(cov, i);
    var a :| 0 <= a < |runs| && Within(runs[a], i + 1);
    assert RunOK(cov, runs[a], |cov|) && RunOK(cov, runs[b], |cov|);
    if a < b {
      assert false;
    } else if b < a {
      assert false;
    }
    assert Within(runs[a], j + 1);
  }
}
