/**
 * The per-line coverage status of one file, built from its istanbul coverage
 * record: statement spans paint their lines covered or uncovered, uncalled
 * functions repaint theirs uncovered, and the exemptions found by the
 * annotation scanner become a set of ignored lines.
 *
 * A status map holds `true` for covered, `false` for uncovered; a line that is
 * not a key has no information.
 */
module Statuses {
  import opened Annotations

  /** The line part of an istanbul location (columns are never read). */
  datatype Loc = Loc(startLine: int, endLine: int)

  /** One entry of `statementMap` or `fnMap`: its key and its location. */
  datatype Span = Span(key: string, loc: Loc)

  /**
   * The coverage record of one file. The span sequences list the map entries
   * in key-enumeration order; `s` and `f` are the hit counts by key.
   */
  datatype FileCoverage = FileCoverage(
    statementMap: seq<Span>,
    s: map<string, int>,
    fnMap: seq<Span>,
    f: map<string, int>)

  /** `counts[key] === 0`: only a present count equal to zero means "never run". */
  predicate HitIsZero(counts: map<string, int>, key: string) {
    key in counts && counts[key] == 0
  }

  predicate Covers(loc: Loc, line: int) {
    loc.startLine <= line <= loc.endLine
  }

  /** The lines `a..b`, empty when `a > b`. */
  function Interval(a: int, b: int): (lines: set<int>)
    decreases b - a
    ensures forall line :: line in lines <==> a <= line <= b
  {
    if a > b then {} else {a} + Interval(a + 1, b)
  }

  /** `m` with every line of `a..b` set to `v`. */
  function Painted(m: map<int, bool>, a: int, b: int, v: bool): map<int, bool> {
    map line | line in m.Keys + Interval(a, b) :: if a <= line <= b then v else m[line]
  }

  /** The inner `for (let line = start; line <= end; line++) statuses[line] = v` loop. */
  method PaintLines(m: map<int, bool>, a: int, b: int, v: bool) returns (r: map<int, bool>)
    ensures r == Painted(m, a, b, v)
  {
    r := m;
    assert r == Painted(m, a, a - 1, v);
    var line := a;
    while line <= b
      invariant a <= line && (line <= b + 1 || line == a)
      invariant r == Painted(m, a, line - 1, v)
    {
      r := r[line := v];
      line := line + 1;
      assert r == Painted(m, a, line - 1, v);
    }
    assert Painted(m, a, line - 1, v) == Painted(m, a, b, v);
  }

  // ---------------------------------------------------------------------------
  // Statements
  // ---------------------------------------------------------------------------

  /** The status map after the first `n` statements, each painting its span. */
  function StatementStatuses(stmts: seq<Span>, s: map<string, int>, n: nat): map<int, bool>
    requires n <= |stmts|
  {
    if n == 0 then map[]
    else
      var span := stmts[n - 1];
      Painted(StatementStatuses(stmts, s, n - 1), span.loc.startLine, span.loc.endLine, !HitIsZero(s, span.key))
  }

  /** `lastLine` after the first `n` statements: 1 raised to each span's end line. */
  function LastLine(stmts: seq<Span>, n: nat): int
    requires n <= |stmts|
  {
    if n == 0 then 1
    else
      var prev := LastLine(stmts, n - 1);
      if stmts[n - 1].loc.endLine > prev then stmts[n - 1].loc.endLine else prev
  }

  /** The statement loop: the status map and the last line it reaches. */
  method StatementLineStatuses(data: FileCoverage) returns (statuses: map<int, bool>, lastLine: int)
    ensures statuses == StatementStatuses(data.statementMap, data.s, |data.statementMap|)
    ensures lastLine == LastLine(data.statementMap, |data.statementMap|)
  {
    statuses := map[];
    lastLine := 1;
    var i := 0;
    while i < |data.statementMap|
      invariant 0 <= i <= |data.statementMap|
      invariant statuses == StatementStatuses(data.statementMap, data.s, i)
      invariant lastLine == LastLine(data.statementMap, i)
    {
      var span := data.statementMap[i];
      if span.loc.endLine > lastLine {
        lastLine := span.loc.endLine;
      }
      if HitIsZero(data.s, span.key) {
        statuses := PaintLines(statuses, span.loc.startLine, span.loc.endLine, false);
      } else {
        statuses := PaintLines(statuses, span.loc.startLine, span.loc.endLine, true);
      }
      i := i + 1;
    }
  }

  /** No statement after the `i`-th among the first `n` covers `line`. */
  ghost predicate LastToCover(stmts: seq<Span>, i: int, n: int, line: int)
    requires n <= |stmts|
  {
    forall i' :: i < i' < n && 0 <= i' ==> !Covers(stmts[i'].loc, line)
  }

  /**
   * A line has a status exactly when some statement span covers it, and then
   * the status is that of the last covering span: uncovered exactly when that
   * statement's hit count is 0.
   */
  lemma {:induction false} StatementStatusAt(stmts: seq<Span>, s: map<string, int>, n: nat, line: int)
    requires n <= |stmts|
    ensures line in StatementStatuses(stmts, s, n) <==> exists i :: 0 <= i < n && Covers(stmts[i].loc, line)
    ensures forall i :: 0 <= i < n && Covers(stmts[i].loc, line) && LastToCover(stmts, i, n, line) ==>
      line in StatementStatuses(stmts, s, n) && StatementStatuses(stmts, s, n)[line] == !HitIsZero(s, stmts[i].key)
  {
    if n > 0 {
      StatementStatusAt(stmts, s, n - 1, line);
      forall i | 0 <= i < n && Covers(stmts[i].loc, line) && LastToCover(stmts, i, n, line)
        ensures line in StatementStatuses(stmts, s, n) && StatementStatuses(stmts, s, n)[line] == !HitIsZero(s, stmts[i].key)
      {
        if i < n - 1 {
          assert !Covers(stmts[n - 1].loc, line);
          assert LastToCover(stmts, i, n - 1, line);
        }
      }
    }
  }

  /** `lastLine` is the largest of 1 and every statement's end line. */
  lemma {:induction false} LastLineIsMax(stmts: seq<Span>, n: nat)
    requires n <= |stmts|
    ensures LastLine(stmts, n) >= 1
    ensures forall i :: 0 <= i < n ==> stmts[i].loc.endLine <= LastLine(stmts, n)
    ensures LastLine(stmts, n) == 1 || exists i :: 0 <= i < n && stmts[i].loc.endLine == LastLine(stmts, n)
  {
    if n > 0 {
      LastLineIsMax(stmts, n - 1);
    }
  }

  // ---------------------------------------------------------------------------
  // Functions
  // ---------------------------------------------------------------------------

  /** The status map after the first `n` functions: each uncalled one paints its span uncovered. */
  function FunctionStatuses(fns: seq<Span>, f: map<string, int>, m: map<int, bool>, n: nat): map<int, bool>
    requires n <= |fns|
  {
    if n == 0 then m
    else
      var prev := FunctionStatuses(fns, f, m, n - 1);
      var span := fns[n - 1];
      if HitIsZero(f, span.key) then Painted(prev, span.loc.startLine, span.loc.endLine, false) else prev
  }

  /** The function loop: repaints the lines of every uncalled function. */
  method OverrideUncalledFunctions(data: FileCoverage, statuses0: map<int, bool>) returns (statuses: map<int, bool>)
    ensures statuses == FunctionStatuses(data.fnMap, data.f, statuses0, |data.fnMap|)
  {
    statuses := statuses0;
    var i := 0;
    while i < |data.fnMap|
      invariant 0 <= i <= |data.fnMap|
      invariant statuses == FunctionStatuses(data.fnMap, data.f, statuses0, i)
    {
      var span := data.fnMap[i];
      if HitIsZero(data.f, span.key) {
        statuses := PaintLines(statuses, span.loc.startLine, span.loc.endLine, false);
      }
      i := i + 1;
    }
  }

  /** Some function among the first `n` was never called and its location covers `line`. */
  ghost predicate UncalledCovers(fns: seq<Span>, f: map<string, int>, n: nat, line: int)
    requires n <= |fns|
  {
    exists i :: 0 <= i < n && HitIsZero(f, fns[i].key) && Covers(fns[i].loc, line)
  }

  /**
   * After the function loop a line inside an uncalled function is uncovered,
   * and any other line keeps exactly the status (or the absence of one) it had.
   */
  lemma {:induction false} FunctionStatusAt(fns: seq<Span>, f: map<string, int>, m: map<int, bool>, n: nat, line: int)
    requires n <= |fns|
    ensures UncalledCovers(fns, f, n, line) ==>
      line in FunctionStatuses(fns, f, m, n) && !FunctionStatuses(fns, f, m, n)[line]
    ensures !UncalledCovers(fns, f, n, line) ==>
      (line in FunctionStatuses(fns, f, m, n) <==> line in m) &&
      (line in m ==> FunctionStatuses(fns, f, m, n)[line] == m[line])
  {
    if n > 0 {
      FunctionStatusAt(fns, f, m, n - 1, line);
      if UncalledCovers(fns, f, n, line) && !(HitIsZero(f, fns[n - 1].key) && Covers(fns[n - 1].loc, line)) {
        var i :| 0 <= i < n && HitIsZero(f, fns[i].key) && Covers(fns[i].loc, line);
        assert UncalledCovers(fns, f, n - 1, line);
      }
    }
  }

  /** The function loop only adds `false` statuses: a covered line afterwards was covered before. */
  lemma FunctionsOnlyDowngrade(fns: seq<Span>, f: map<string, int>, m: map<int, bool>, line: int)
    ensures line in m ==> line in FunctionStatuses(fns, f, m, |fns|)
    ensures line in FunctionStatuses(fns, f, m, |fns|) && FunctionStatuses(fns, f, m, |fns|)[line] ==>
      line in m && m[line]
  {
    FunctionStatusAt(fns, f, m, |fns|, line);
  }

  /** When every function was called the function loop changes nothing. */
  lemma AllCalledChangesNothing(fns: seq<Span>, f: map<string, int>, m: map<int, bool>)
    requires forall i :: 0 <= i < |fns| ==> !HitIsZero(f, fns[i].key)
    ensures FunctionStatuses(fns, f, m, |fns|) == m
  {
    forall line ensures (line in FunctionStatuses(fns, f, m, |fns|) <==> line in m) {
      FunctionStatusAt(fns, f, m, |fns|, line);
    }
    forall line | line in m ensures FunctionStatuses(fns, f, m, |fns|)[line] == m[line] {
      FunctionStatusAt(fns, f, m, |fns|, line);
    }
  }

  /** The statuses of a file: statements first, then uncalled functions on top. */
  function LineStatuses(data: FileCoverage): map<int, bool> {
    FunctionStatuses(data.fnMap, data.f, StatementStatuses(data.statementMap, data.s, |data.statementMap|), |data.fnMap|)
  }

  // ---------------------------------------------------------------------------
  // Ignored lines
  // ---------------------------------------------------------------------------

  /** The lines one exemption stands for. */
  function ExemptLines(r: Exemption): set<int> {
    match r
    case Line(line) => {line}
    case Block(start, end) => Interval(start, end)
  }

  /** The ignored lines of the first `n` exemptions. */
  function IgnoredPrefix(ranges: seq<Exemption>, n: nat): set<int>
    requires n <= |ranges|
  {
    if n == 0 then {} else IgnoredPrefix(ranges, n - 1) + ExemptLines(ranges[n - 1])
  }

  /** The ignored-lines loop: single lines as they are, blocks expanded line by line. */
  method IgnoredLines(ranges: seq<Exemption>) returns (ignored: set<int>)
    ensures ignored == IgnoredPrefix(ranges, |ranges|)
  {
    ignored := {};
    var i := 0;
    while i < |ranges|
      invariant 0 <= i <= |ranges|
      invariant ignored == IgnoredPrefix(ranges, i)
    {
      match ranges[i] {
        case Line(line) =>
          ignored := ignored + {line};
        case Block(start, end) =>
          ghost var before := ignored;
          assert Interval(start, start - 1) == {};
          var line := start;
          while line <= end
            invariant start <= line && (line <= end + 1 || line == start)
            invariant ignored == before + Interval(start, line - 1)
          {
            ignored := ignored + {line};
            line := line + 1;
            assert ignored == before + Interval(start, line - 1);
          }
          assert Interval(start, line - 1) == Interval(start, end);
      }
      i := i + 1;
    }
  }

  /** A line is ignored exactly when one of the exemptions names it. */
  lemma {:induction false} IgnoredIff(ranges: seq<Exemption>, n: nat, line: int)
    requires n <= |ranges|
    ensures line in IgnoredPrefix(ranges, n) <==> exists i :: 0 <= i < n && line in ExemptLines(ranges[i])
  {
    if n > 0 {
      IgnoredIff(ranges, n - 1, line);
    }
  }
}
