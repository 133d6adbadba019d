/**
 * The records the linter hands to the report sink: a check-run annotation
 * with a path, a message, start and end positions and an annotation level,
 * and the two message templates it fills in.
 */
module Diagnostics {
  import opened Text

  datatype Option<T> = None | Some(value: T)

  datatype Position = Position(line: int, column: int)

  datatype Diagnostic = Diagnostic(
    path: string,
    message: string,
    start: Position,
    end: Position,
    annotationLevel: string)

  /** The only annotation level the linter uses. */
  const Failure: string := "failure"

  const UnmatchedEndMessage: string := "Unmatched end jest-uncovered-block"

  /** The error for a block-end marker on line `line` while no block is open. */
  function UnmatchedEndDiagnostic(path: string, line: int): (d: Diagnostic)
    ensures d.path == path && d.message == UnmatchedEndMessage && d.annotationLevel == Failure
    ensures d.start == d.end == Position(line, 0)
  {
    Diagnostic(path, UnmatchedEndMessage, Position(line, 0), Position(line, 0), Failure)
  }

  // The parts of the uncovered-range message that do not depend on the range.
  const MessageBody: string :=
    " not covered by jest tests! If it's dead code, remove it.\nOtherwise, try to write a test for the use case that the code is fulfilling.\nTo silence this error, "
  const LineAdvice: string := "use // jest-uncovered-line or // jest-next-uncovered-line"
  const BlockAdvice: string := "surround with /* jest-uncovered-block */ and /* end jest-uncovered-block */"

  const SingleLineTail: string := " is" + MessageBody + LineAdvice
  const BlockTail: string := " are" + MessageBody + BlockAdvice

  /** The sentence for a one-line range: "Line N is not covered ...". */
  function SingleLineMessage(line: int): string {
    "Line " + (IntToString(line) + SingleLineTail)
  }

  /** The sentence for a longer range: "Lines A-B are not covered ...". */
  function BlockMessage(start: int, end: int): string {
    "Lines " + (IntToString(start) + ("-" + (IntToString(end) + BlockTail)))
  }

  /** The message of the failure for the uncovered range `[start, end]`. */
  function CoverageMessage(start: int, end: int): string {
    if start == end then SingleLineMessage(start) else BlockMessage(start, end)
  }

  /**
   * The one-line wording ("Line N is ...") is used exactly when the range is
   * one line, and the block wording ("Lines A-B are ...") exactly when it is
   * longer.
   */
  lemma CoverageMessageForm(start: int, end: int)
    ensures CoverageMessage(start, end) == SingleLineMessage(start) <==> start == end
    ensures CoverageMessage(start, end) == BlockMessage(start, end) <==> start != end
  {
    SingleLineIsNotBlock(start, start, end);
  }

  /** Different ranges never share a message. */
  lemma CoverageMessageInjective(a: int, b: int, c: int, d: int)
    requires CoverageMessage(a, b) == CoverageMessage(c, d)
    ensures a == c && b == d
  {
    if a == b && c == d {
      SingleLineInjective(a, c);
    } else if a == b {
      SingleLineIsNotBlock(a, c, d);
    } else if c == d {
      SingleLineIsNotBlock(c, a, b);
    } else {
      BlockInjective(a, b, c, d);
    }
  }

  /** The unmatched-end error never reads like a range failure. */
  lemma UnmatchedIsNotCoverage(start: int, end: int)
    ensures UnmatchedEndMessage != CoverageMessage(start, end)
  {
    assert UnmatchedEndMessage[0] == 'U';
    assert CoverageMessage(start, end)[0] == 'L';
  }

  lemma SingleLineIsNotBlock(a: int, c: int, d: int)
    ensures SingleLineMessage(a) != BlockMessage(c, d)
  {
    assert SingleLineMessage(a)[4] == ' ';
    assert BlockMessage(c, d)[4] == 's';
  }

  lemma SingleLineInjective(a: int, c: int)
    requires SingleLineMessage(a) == SingleLineMessage(c)
    ensures a == c
  {
    var tail := SingleLineTail;
    assert tail[0] == ' ';
    CancelPrefix("Line ", IntToString(a) + tail, IntToString(c) + tail);
    RenderedIntPrefix(a, c, tail, tail);
  }

  lemma BlockInjective(a: int, b: int, c: int, d: int)
    requires BlockMessage(a, b) == BlockMessage(c, d)
    ensures a == c && b == d
  {
    var tail := BlockTail;
    assert tail[0] == ' ';
    var x := "-" + (IntToString(b) + tail);
    var y := "-" + (IntToString(d) + tail);
    CancelPrefix("Lines ", IntToString(a) + x, IntToString(c) + y);
    RenderedIntPrefix(a, c, x, y);
    CancelPrefix("-", IntToString(b) + tail, IntToString(d) + tail);
    RenderedIntPrefix(b, d, tail, tail);
  }

  lemma CancelPrefix(p: string, x: string, y: string)
    requires p + x == p + y
    ensures x == y
  {
    assert x == (p + x)[|p|..];
    assert y == (p + y)[|p|..];
  }

  /** No character of a rendered integer is '-' after its first. */
  lemma IntToStringDigitsAfterSign(n: int, i: int)
    requires 0 < i < |IntToString(n)|
    ensures '0' <= IntToString(n)[i] <= '9'
  {
    if n < 0 {
      assert IntToString(n)[i] == NatToString(-n)[i - 1];
    }
  }

  /**
   * A rendered integer followed by text that starts with a non-digit can be
   * read back: both the integer and the rest are determined.
   */
  lemma RenderedIntPrefix(a: int, c: int, x: string, y: string)
    requires IntToString(a) + x == IntToString(c) + y
    requires |x| > 0 && !('0' <= x[0] <= '9')
    requires |y| > 0 && !('0' <= y[0] <= '9')
    ensures a == c && x == y
  {
    var sa, sc := IntToString(a), IntToString(c);
    var m := sa + x;
    if |sa| < |sc| {
      assert m[|sa|] == x[0];
      assert m[|sa|] == sc[|sa|];
      IntToStringDigitsAfterSign(c, |sa|);
    } else if |sc| < |sa| {
      assert m[|sc|] == y[0];
      assert m[|sc|] == sa[|sc|];
      IntToStringDigitsAfterSign(a, |sc|);
    }
    assert sa == m[..|sa|];
    assert sc == m[..|sc|];
    IntToStringInjective(a, c);
    assert x == m[|sa|..];
    assert y == m[|sc|..];
  }

  /** The failure reported for the uncovered range `[start, end]` of file `path`. */
  function RangeDiagnostic(path: string, start: int, end: int): (d: Diagnostic)
    ensures d.path == path && d.annotationLevel == Failure
    ensures d.start == Position(start, 0) && d.end == Position(end, 0)
    ensures d.message == CoverageMessage(start, end)
  {
    Diagnostic(path, CoverageMessage(start, end), Position(start, 0), Position(end, 0), Failure)
  }
}
