/**
 * The annotation scanner (`getIgnoredRanges`): one pass over the lines of a
 * file that collects the lines and blocks its author exempted from coverage,
 * and an error for every block-end marker that has no open block.
 */
module Annotations {
  import opened Text
  import opened Diagnostics

  const BlockStartMarker: string := "/* jest-uncovered-block */"
  const BlockEndMarker: string := "/* end jest-uncovered-block */"
  const LineMarker: string := "// jest-uncovered-line"
  const NextLineMarker: string := "// jest-next-uncovered-line"

  /** An exemption: one line, or the inclusive interval `[start, end]`. */
  datatype Exemption = Line(line: int) | Block(start: int, end: int)

  /** `^\s*\/\* jest-uncovered-block \*\/` (no end anchor). */
  predicate IsBlockStart(line: string) {
    StartsWithAfterWhitespace(line, BlockStartMarker)
  }

  /** `^\s*\/\* end jest-uncovered-block \*\/` (no end anchor). */
  predicate IsBlockEnd(line: string) {
    StartsWithAfterWhitespace(line, BlockEndMarker)
  }

  /** Which of the scanner's branches a line takes. */
  datatype LineKind = StartsBlock | EndsBlock | ExemptsItself | ExemptsNext | Plain {
    predicate IsBlockMarker() { StartsBlock? || EndsBlock? }
  }

  /**
   * The branch a line takes, tested in the scanner's order: block start, block
   * end, `// jest-uncovered-line`, `// jest-next-uncovered-line`.
   */
  function Classify(line: string): LineKind {
    if IsBlockStart(line) then StartsBlock
    else if IsBlockEnd(line) then EndsBlock
    else if Contains(line, LineMarker) then ExemptsItself
    else if Contains(line, NextLineMarker) then ExemptsNext
    else Plain
  }

  /** The regular-expression reading of `^\s*` followed by `marker`. */
  ghost predicate MatchesAfterWhitespace(line: string, marker: string) {
    exists k :: 0 <= k <= |line| && (forall i :: 0 <= i < k ==> IsWhitespace(line[i])) && marker <= line[k..]
  }

  /** `marker` occurs somewhere in `line`. */
  ghost predicate Includes(line: string, marker: string) {
    exists k :: 0 <= k <= |line| && marker <= line[k..]
  }

  /**
   * A line has the kind of the first test it passes, in the order block
   * start, block end, this-line marker, next-line marker; the block markers
   * may be preceded only by whitespace, the line markers may sit anywhere.
   */
  lemma ClassifyMeaning(line: string)
    ensures Classify(line) == StartsBlock <==> MatchesAfterWhitespace(line, BlockStartMarker)
    ensures Classify(line) == EndsBlock <==>
      !MatchesAfterWhitespace(line, BlockStartMarker) && MatchesAfterWhitespace(line, BlockEndMarker)
    ensures Classify(line) == ExemptsItself <==>
      && !MatchesAfterWhitespace(line, BlockStartMarker) && !MatchesAfterWhitespace(line, BlockEndMarker)
      && Includes(line, LineMarker)
    ensures Classify(line) == ExemptsNext <==>
      && !MatchesAfterWhitespace(line, BlockStartMarker) && !MatchesAfterWhitespace(line, BlockEndMarker)
      && !Includes(line, LineMarker) && Includes(line, NextLineMarker)
  {
    assert !IsWhitespace('/');
    StartsWithAfterWhitespaceIff(line, BlockStartMarker);
    StartsWithAfterWhitespaceIff(line, BlockEndMarker);
    ContainsIff(line, LineMarker);
    ContainsIff(line, NextLineMarker);
  }

  function Kinds(lines: seq<string>): (kinds: seq<LineKind>)
    ensures |kinds| == |lines|
    ensures forall i :: 0 <= i < |lines| ==> kinds[i] == Classify(lines[i])
  {
    seq(|lines|, i requires 0 <= i < |lines| => Classify(lines[i]))
  }

  /** What the scan has built after some lines: the pushes so far and the pending block start. */
  datatype ScanState = ScanState(ranges: seq<Exemption>, errors: seq<Diagnostic>, blockStart: Option<int>)

  /** The effect of line number `i` (1-based), a line of kind `kind`. */
  function ScanLine(path: string, st: ScanState, kind: LineKind, i: int): ScanState {
    match kind
    case StartsBlock => st.(blockStart := Some(i))
    case EndsBlock =>
      if st.blockStart.None? then st.(errors := st.errors + [UnmatchedEndDiagnostic(path, i)])
      else ScanState(st.ranges + [Block(st.blockStart.value, i)], st.errors, None)
    case ExemptsItself => st.(ranges := st.ranges + [Line(i)])
    case ExemptsNext => st.(ranges := st.ranges + [Line(i + 1)])
    case Plain => st
  }

  /** The state after the first `n` lines. */
  function ScanPrefix(path: string, kinds: seq<LineKind>, n: nat): ScanState
    requires n <= |kinds|
  {
    if n == 0 then ScanState([], [], None)
    else ScanLine(path, ScanPrefix(path, kinds, n - 1), kinds[n - 1], n)
  }

  /** The scan of a whole file; a block still pending at the end is dropped. */
  function Scan(path: string, lines: seq<string>): ScanState {
    ScanPrefix(path, Kinds(lines), |lines|)
  }

  method GetIgnoredRanges(path: string, contents: string) returns (ranges: seq<Exemption>, errors: seq<Diagnostic>)
    ensures ranges == Scan(path, SplitLines(contents)).ranges
    ensures errors == Scan(path, SplitLines(contents)).errors
  {
    var lines := SplitLines(contents);
    ghost var kinds := Kinds(lines);
    ranges, errors := [], [];
    var blockStart: Option<int> := None;
    var i := 0;
    while i < |lines|
      invariant 0 <= i <= |lines|
      invariant ScanState(ranges, errors, blockStart) == ScanPrefix(path, kinds, i)
    {
      ghost var before := ScanState(ranges, errors, blockStart);
      var kind := Classify(lines[i]);
      assert kind == kinds[i];
      var n := i + 1;  // 1-indexed lines
      match kind {  // the if / else-if chain on the markers
        case StartsBlock =>
          blockStart := Some(n);
        case EndsBlock =>
          if blockStart.None? {
            errors := errors + [UnmatchedEndDiagnostic(path, n)];
          } else {
            ranges := ranges + [Block(blockStart.value, n)];
            blockStart := None;
          }
        case ExemptsItself =>
          ranges := ranges + [Line(n)];
        case ExemptsNext =>
          ranges := ranges + [Line(n + 1)];
        case Plain =>
      }
      assert ScanState(ranges, errors, blockStart) == ScanLine(path, before, kind, n);
      i := i + 1;
    }
  }

  // ---------------------------------------------------------------------------
  // What the scan means, stated line by line: line number k has kind kinds[k - 1]
  // ---------------------------------------------------------------------------

  /** After line `n`, the block opened on line `j` is still open: no block marker since. */
  ghost predicate OpenAt(kinds: seq<LineKind>, j: int, n: int) {
    && 1 <= j <= n <= |kinds|
    && kinds[j - 1].StartsBlock?
    && forall m :: j <= m < n ==> !kinds[m].IsBlockMarker()
  }

  /** After line `n` no block is open. */
  ghost predicate NoBlockOpen(kinds: seq<LineKind>, n: int) {
    forall j :: !OpenAt(kinds, j, n)
  }

  /** Line `k` is a block end while no block is open. */
  ghost predicate UnmatchedEndAt(kinds: seq<LineKind>, k: int) {
    1 <= k <= |kinds| && kinds[k - 1].EndsBlock? && NoBlockOpen(kinds, k - 1)
  }

  /** Line `k` is the block end that closes the block opened on line `j`. */
  ghost predicate ClosesBlock(kinds: seq<LineKind>, j: int, k: int) {
    1 <= k <= |kinds| && kinds[k - 1].EndsBlock? && OpenAt(kinds, j, k - 1)
  }

  /** Line `k` is exempt: it says so itself, or the line above it says so. */
  ghost predicate LineExempted(kinds: seq<LineKind>, k: int, n: int) {
    && n <= |kinds|
    && (|| (1 <= k <= n && kinds[k - 1].ExemptsItself?)
        || (2 <= k <= n + 1 && kinds[k - 2].ExemptsNext?))
  }

  /** The pending block start is the last block marker seen, when that marker is a start. */
  lemma {:induction false} PendingIsOpenBlock(path: string, kinds: seq<LineKind>, n: nat)
    requires n <= |kinds|
    ensures forall j :: ScanPrefix(path, kinds, n).blockStart == Some(j) <==> OpenAt(kinds, j, n)
  {
    if n > 0 {
      PendingIsOpenBlock(path, kinds, n - 1);
      forall j ensures ScanPrefix(path, kinds, n).blockStart == Some(j) <==> OpenAt(kinds, j, n) {
        if OpenAt(kinds, j, n) && j < n {
          assert !kinds[n - 1].IsBlockMarker();
          assert OpenAt(kinds, j, n - 1);
        }
        if !kinds[n - 1].IsBlockMarker() && OpenAt(kinds, j, n - 1) {
          assert OpenAt(kinds, j, n);
        }
      }
    }
  }

  /** After `n` lines the blocks are exactly the (start, end) pairs of block ends that closed an open block. */
  lemma {:induction false} BlocksAreClosedBlocks(path: string, kinds: seq<LineKind>, n: nat)
    requires n <= |kinds|
    ensures forall j, k :: Block(j, k) in ScanPrefix(path, kinds, n).ranges <==> k <= n && ClosesBlock(kinds, j, k)
  {
    if n > 0 {
      BlocksAreClosedBlocks(path, kinds, n - 1);
      PendingIsOpenBlock(path, kinds, n - 1);
      var prev := ScanPrefix(path, kinds, n - 1);
      forall j, k ensures Block(j, k) in ScanPrefix(path, kinds, n).ranges <==> k <= n && ClosesBlock(kinds, j, k) {
        if k == n && ClosesBlock(kinds, j, k) {
          assert prev.blockStart == Some(j);
        }
      }
    }
  }

  /** After `n` lines the single-line exemptions are exactly the lines some marker exempted. */
  lemma {:induction false} LinesAreExemptedLines(path: string, kinds: seq<LineKind>, n: nat)
    requires n <= |kinds|
    ensures forall k :: Line(k) in ScanPrefix(path, kinds, n).ranges <==> LineExempted(kinds, k, n)
  {
    if n > 0 {
      LinesAreExemptedLines(path, kinds, n - 1);
    }
  }

  /**
   * After `n` lines the errors are the unmatched-end failures, one for each
   * unmatched block end, in ascending line order.
   */
  ghost predicate ErrorsAreUnmatchedEnds(path: string, kinds: seq<LineKind>, n: nat, errors: seq<Diagnostic>) {
    && (forall k :: UnmatchedEndDiagnostic(path, k) in errors <==> k <= n && UnmatchedEndAt(kinds, k))
    && (forall e :: e in errors ==> exists k :: e == UnmatchedEndDiagnostic(path, k))
    && (forall a, b :: 0 <= a < b < |errors| ==> errors[a].start.line < errors[b].start.line)
    && (forall a :: 0 <= a < |errors| ==> errors[a].start.line <= n)
  }

  lemma {:induction false} ErrorsOfPrefix(path: string, kinds: seq<LineKind>, n: nat)
    requires n <= |kinds|
    ensures ErrorsAreUnmatchedEnds(path, kinds, n, ScanPrefix(path, kinds, n).errors)
  {
    if n > 0 {
      ErrorsOfPrefix(path, kinds, n - 1);
      PendingIsOpenBlock(path, kinds, n - 1);
      var prev := ScanPrefix(path, kinds, n - 1);
      var errors := ScanPrefix(path, kinds, n).errors;
      forall k ensures UnmatchedEndDiagnostic(path, k) in errors <==> k <= n && UnmatchedEndAt(kinds, k) {
        assert prev.blockStart.Some? ==> OpenAt(kinds, prev.blockStart.value, n - 1);
        if UnmatchedEndDiagnostic(path, k) in errors && UnmatchedEndDiagnostic(path, k) !in prev.errors {
          assert errors == prev.errors + [UnmatchedEndDiagnostic(path, n)];
        }
      }
    }
  }

  /**
   * The scan of a whole file, line by line: its blocks are the closed blocks,
   * its single lines the exempted lines, and its errors one unmatched-end
   * failure per unmatched block end, in line order.
   */
  lemma ScanMeaning(path: string, lines: seq<string>)
    ensures var st := Scan(path, lines); var kinds := Kinds(lines);
      && (forall j, k :: Block(j, k) in st.ranges <==> ClosesBlock(kinds, j, k))
      && (forall k :: Line(k) in st.ranges <==> LineExempted(kinds, k, |lines|))
      && ErrorsAreUnmatchedEnds(path, kinds, |lines|, st.errors)
  {
    BlocksAreClosedBlocks(path, Kinds(lines), |lines|);
    LinesAreExemptedLines(path, Kinds(lines), |lines|);
    ErrorsOfPrefix(path, Kinds(lines), |lines|);
  }

  /**
   * Every exemption names lines of the file or the line just after it: a block
   * `[j, k]` has `1 <= j < k <= |lines|`, a single line is at least 1 and at most `|lines| + 1`.
   */
  lemma ScanBounds(path: string, lines: seq<string>)
    ensures forall r :: r in Scan(path, lines).ranges ==>
      if r.Block? then 1 <= r.start < r.end <= |lines| else 1 <= r.line <= |lines| + 1
  {
    ScanMeaning(path, lines);
    forall r | r in Scan(path, lines).ranges
      ensures if r.Block? then 1 <= r.start < r.end <= |lines| else 1 <= r.line <= |lines| + 1
    {
      if r.Block? {
        assert Block(r.start, r.end) in Scan(path, lines).ranges;
      } else {
        assert Line(r.line) in Scan(path, lines).ranges;
      }
    }
  }

  /** An unmatched block end on line `k` produces exactly one error, a one-line failure at `k`. */
  lemma UnmatchedEndHasOneError(path: string, kinds: seq<LineKind>, k: int)
    requires UnmatchedEndAt(kinds, k)
    ensures var errs := ScanPrefix(path, kinds, |kinds|).errors;
      |set a | 0 <= a < |errs| && errs[a].start.line == k| == 1
    ensures UnmatchedEndDiagnostic(path, k) in ScanPrefix(path, kinds, |kinds|).errors
  {
    ErrorsOfPrefix(path, kinds, |kinds|);
    var errs := ScanPrefix(path, kinds, |kinds|).errors;
    var d := UnmatchedEndDiagnostic(path, k);
    assert d in errs;
    var a0 :| 0 <= a0 < |errs| && errs[a0] == d;
    assert (set a | 0 <= a < |errs| && errs[a].start.line == k) == {a0} by {
      forall a | 0 <= a < |errs| && errs[a].start.line == k ensures a == a0 {
        assert !(a < a0) && !(a0 < a);
      }
    }
  }

  /** A block start never followed by another block marker adds no exemption, and no error comes after it. */
  lemma UnclosedBlockDropped(path: string, kinds: seq<LineKind>, j: int)
    requires OpenAt(kinds, j, |kinds|)
    ensures forall k :: Block(j, k) !in ScanPrefix(path, kinds, |kinds|).ranges
    ensures forall e :: e in ScanPrefix(path, kinds, |kinds|).errors ==> e.start.line < j
  {
    var st := ScanPrefix(path, kinds, |kinds|);
    BlocksAreClosedBlocks(path, kinds, |kinds|);
    ErrorsOfPrefix(path, kinds, |kinds|);
    forall k ensures Block(j, k) !in st.ranges {
      assert ClosesBlock(kinds, j, k) ==> !kinds[k - 1].IsBlockMarker();
    }
    forall e | e in st.errors ensures e.start.line < j {
      var k :| e == UnmatchedEndDiagnostic(path, k);
      assert UnmatchedEndAt(kinds, k) && kinds[k - 1].EndsBlock?;
    }
  }

  /** A second block start while a block is pending replaces it: the first start is never closed. */
  lemma SecondStartOverwrites(path: string, kinds: seq<LineKind>, j1: int, j2: int)
    requires 1 <= j1 < j2 <= |kinds|
    requires OpenAt(kinds, j1, j2 - 1) && kinds[j2 - 1].StartsBlock?
    ensures forall k :: Block(j1, k) !in ScanPrefix(path, kinds, |kinds|).ranges
    ensures ScanPrefix(path, kinds, j2).blockStart == Some(j2)
  {
    BlocksAreClosedBlocks(path, kinds, |kinds|);
    assert kinds[j2 - 1].IsBlockMarker();
    forall k ensures Block(j1, k) !in ScanPrefix(path, kinds, |kinds|).ranges {
      assert !ClosesBlock(kinds, j1, k);
    }
  }

  /** A line has at most one effect: one push onto one list, or none, and only block markers touch the pending start. */
  lemma ScanLineAtMostOneEffect(path: string, st: ScanState, kind: LineKind, i: int)
    ensures var st' := ScanLine(path, st, kind, i);
      && st.ranges <= st'.ranges && st.errors <= st'.errors
      && |st'.ranges| + |st'.errors| <= |st.ranges| + |st.errors| + 1
      && (st'.blockStart != st.blockStart ==> kind.IsBlockMarker())
  {
  }
}
