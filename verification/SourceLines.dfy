/** Lines and columns of a source text, as the lexer counts them and as diagnostics find them again. */
module SourceLines {
  import opened Wrappers
  import opened Utf8

  // ---- Lines ----

  predicate IsBreak(c: char) {
    c == '\r' || c == '\n'
  }

  /** Whether the byte at k ends a line: a carriage return, or a line feed that does not follow one. */
  predicate EndsLine(s: string, k: nat)
    requires k < |s|
  {
    s[k] == '\r' || (s[k] == '\n' && !(k > 0 && s[k - 1] == '\r'))
  }

  function LineOf(s: string, p: nat): (line: nat)
    requires p <= |s|
    ensures line >= 1
  {
    if p == 0 then 1 else LineOf(s, p - 1) + if EndsLine(s, p - 1) then 1 else 0
  }

  function LineStart(s: string, p: nat): (start: nat)
    requires p <= |s|
    ensures start <= p
  {
    if p == 0 || IsBreak(s[p - 1]) then p else LineStart(s, p - 1)
  }

  function LineEnd(s: string, p: nat): (end: nat)
    requires p <= |s|
    ensures p <= end <= |s|
    ensures end < |s| ==> IsBreak(s[end])
    ensures forall k :: p <= k < end ==> !IsBreak(s[k])
    decreases |s| - p
  {
    if p == |s| || IsBreak(s[p]) then p else LineEnd(s, p + 1)
  }

  /** Not between a carriage return and its line feed. */
  predicate Settled(s: string, p: nat) {
    p <= |s| && !(0 < p < |s| && s[p - 1] == '\r' && s[p] == '\n')
  }

  lemma {:induction false} LinesIncrease(s: string, p: nat, q: nat)
    requires p <= q <= |s|
    ensures LineOf(s, p) <= LineOf(s, q)
    ensures LineOf(s, p) == LineOf(s, q) ==> forall k :: p <= k < q ==> !EndsLine(s, k)
  {
    if p < q {
      LinesIncrease(s, p, q - 1);
    }
  }

  lemma {:induction false} NoBreakBetween(s: string, p: nat, q: nat)
    requires p <= q <= |s| && forall k :: p <= k < q ==> !IsBreak(s[k])
    ensures LineStart(s, p) == LineStart(s, q) && LineEnd(s, p) == LineEnd(s, q) && LineOf(s, p) == LineOf(s, q)
  {
    if p < q {
      NoBreakBetween(s, p, q - 1);
    }
  }

  /** A line number selects one line. */
  lemma OneLine(s: string, p: nat, q: nat)
    requires Settled(s, p) && Settled(s, q) && LineOf(s, p) == LineOf(s, q)
    ensures LineStart(s, p) == LineStart(s, q) && LineEnd(s, p) == LineEnd(s, q)
  {
    var low, high := if p <= q then p else q, if p <= q then q else p;
    LinesIncrease(s, low, high);
    forall k | low <= k < high
      ensures !IsBreak(s[k])
    {
      assert !EndsLine(s, k);
      if k > low {
        assert !EndsLine(s, k - 1);
      }
    }
    NoBreakBetween(s, low, high);
  }

  /** The line that a position lies on. */
  function LineText(s: string, p: nat): string
    requires p <= |s|
  {
    s[LineStart(s, p)..LineEnd(s, p)]
  }

  method SourceLineAt(source: string, requestedLine: nat) returns (found: bool, sourceLine: string)
    ensures found <==> 1 <= requestedLine <= LineOf(source, |source|)
    ensures forall p :: Settled(source, p) && LineOf(source, p) == requestedLine ==>
      found && sourceLine == LineText(source, p)
  {
    if requestedLine == 0 {
      return false, "";
    }
    var line, begin, index := 1, 0, 0;
    while index < |source|
      invariant begin <= index && Settled(source, index)
      invariant line == LineOf(source, index) <= requestedLine && begin == LineStart(source, index)
    {
      if source[index] != '\n' && source[index] != '\r' {
        index := index + 1;
        continue;
      }
      if line == requestedLine {
        LinesIncrease(source, index, |source|);
        forall p | Settled(source, p) && LineOf(source, p) == requestedLine
          ensures LineText(source, p) == source[begin..index]
        {
          OneLine(source, p, index);
        }
        return true, source[begin..index];
      }
      if source[index] == '\r' && index + 1 < |source| && source[index + 1] == '\n' {
        index := index + 1;
      }
      line := line + 1;
      begin := index + 1;
      index := index + 1;
    }
    forall p | Settled(source, p)
      ensures LineOf(source, p) <= line
      ensures LineOf(source, p) == line ==> LineText(source, p) == source[begin..]
    {
      LinesIncrease(source, p, |source|);
      if LineOf(source, p) == line {
        OneLine(source, p, |source|);
      }
    }
    if line != requestedLine {
      return false, "";
    }
    return true, source[begin..];
  }

  /** The scan of the command-line printer for the same line. */
  method FindLine(source: string, requestedLine: nat) returns (lineStart: nat, lineEnd: nat)
    requires requestedLine >= 1
    ensures lineStart <= lineEnd <= |source|
    ensures lineEnd < |source| ==> IsBreak(source[lineEnd])
    ensures forall p :: Settled(source, p) && LineOf(source, p) == requestedLine ==>
      lineStart == LineStart(source, p) && lineEnd == LineEnd(source, p)
  {
    lineStart := 0;
    var currentLine := 1;
    while currentLine < requestedLine && lineStart < |source|
      invariant Settled(source, lineStart) && currentLine == LineOf(source, lineStart) <= requestedLine
      invariant currentLine == requestedLine ==> LineStart(source, lineStart) == lineStart
    {
      if source[lineStart] == '\r' {
        lineStart := lineStart + 1;
        if lineStart < |source| && source[lineStart] == '\n' {
          lineStart := lineStart + 1;
        }
        currentLine := currentLine + 1;
      } else {
        if source[lineStart] == '\n' {
          currentLine := currentLine + 1;
        }
        lineStart := lineStart + 1;
      }
    }
    lineEnd := lineStart;
    while lineEnd < |source| && source[lineEnd] != '\n' && source[lineEnd] != '\r'
      invariant lineStart <= lineEnd <= |source| && LineEnd(source, lineEnd) == LineEnd(source, lineStart)
    {
      lineEnd := lineEnd + 1;
    }
    forall p | Settled(source, p) && LineOf(source, p) == requestedLine
      ensures lineStart == LineStart(source, p) && lineEnd == LineEnd(source, p)
    {
      LinesIncrease(source, p, |source|);
      OneLine(source, p, lineStart);
    }
  }

  // ---- Columns ----

  /** The position n scalars further on, stopping at the end. */
  function Steps(s: string, from: nat, end: nat, n: nat): (to: nat)
    requires from <= end <= |s|
    ensures from <= to <= end
    decreases n
  {
    if n == 0 || from == end then from else Steps(s, from + SequenceLength(s, from, end), end, n - 1)
  }

  lemma {:induction false} OneMoreStep(s: string, from: nat, end: nat, n: nat)
    requires from <= end <= |s| && Steps(s, from, end, n) < end
    ensures var to := Steps(s, from, end, n);
      Steps(s, from, end, n + 1) == to + SequenceLength(s, to, end)
    decreases n
  {
    hide SequenceLength;
    if n > 0 {
      OneMoreStep(s, from + SequenceLength(s, from, end), end, n - 1);
    }
  }

  /** A scalar never runs over a line end, so scanning up to it or up to the end of the text is the same. */
  lemma LengthWithinLine(s: string, offset: nat, end: nat)
    requires offset < end <= |s| && (end < |s| ==> IsBreak(s[end]))
    ensures SequenceLength(s, offset, end) == SequenceLength(s, offset, |s|)
  {
    if end < |s| {
      assert !IsContinuation(s[end]);
    }
  }

  lemma {:induction false} StepsWithinLine(s: string, from: nat, end: nat, n: nat)
    requires from <= end <= |s| && (end < |s| ==> IsBreak(s[end]))
    requires Steps(s, from, |s|, n) <= end
    ensures Steps(s, from, end, n) == Steps(s, from, |s|, n)
    decreases n
  {
    hide SequenceLength;
    if n > 0 && from < end {
      LengthWithinLine(s, from, end);
      StepsWithinLine(s, from + SequenceLength(s, from, end), end, n - 1);
    } else if n > 0 && from < |s| {
      assert false;
    }
  }

  /** What the lexer keeps about the characters read so far. */
  datatype Cursor = Cursor(line: nat, column: nat, pending: nat, afterReturn: bool)

  const ORIGIN := Cursor(1, 1, 0, false)

  /** Reading the character at p. */
  function Advance(s: string, p: nat, at: Cursor): Cursor
    requires p < |s|
  {
    var c := s[p];
    if c == '\r' then Cursor(at.line + 1, 1, 0, true)
    else if c == '\n' then Cursor(if at.afterReturn then at.line else at.line + 1, 1, 0, false)
    else if at.pending != 0 && IsContinuation(c) then at.(pending := at.pending - 1, afterReturn := false)
    else Cursor(at.line, at.column + 1, SequenceLength(s, p, |s|) - 1, false)
  }

  function CursorAt(s: string, p: nat): Cursor
    requires p <= |s|
  {
    if p == 0 then ORIGIN else Advance(s, p - 1, CursorAt(s, p - 1))
  }

  /** The lexer's line is the line; its column counts the scalars since the line began, and the pending
      bytes are the rest of the last one. */
  lemma {:induction false} CursorMeaning(s: string, p: nat)
    requires p <= |s|
    ensures var at := CursorAt(s, p);
      && at.line == LineOf(s, p)
      && (at.afterReturn <==> p > 0 && s[p - 1] == '\r')
      && at.column >= 1 && p + at.pending <= |s|
      && (forall k :: p <= k < p + at.pending ==> IsContinuation(s[k]))
      && Steps(s, LineStart(s, p), |s|, at.column - 1) == p + at.pending
  {
    hide SequenceLength, LineEnd;
    if p > 0 {
      CursorMeaning(s, p - 1);
      var before := CursorAt(s, p - 1);
      if !IsBreak(s[p - 1]) && before.pending == 0 {
        OneMoreStep(s, LineStart(s, p - 1), |s|, before.column - 1);
      }
    }
  }

  /** Where a token may start: not inside a scalar or a line break. */
  predicate AtBoundary(s: string, p: nat) {
    Settled(s, p) && (p < |s| ==> !IsContinuation(s[p]))
  }

  /** Counting column - 1 scalars from the start of its line leads to the position. */
  lemma ColumnLeadsBack(s: string, p: nat)
    requires AtBoundary(s, p)
    ensures var at := CursorAt(s, p);
      && at.line == LineOf(s, p) && at.column >= 1
      && Steps(s, LineStart(s, p), LineEnd(s, p), at.column - 1) == p
  {
    CursorMeaning(s, p);
    NoBreakSinceStart(s, p);
    StepsWithinLine(s, LineStart(s, p), LineEnd(s, p), CursorAt(s, p).column - 1);
  }

  lemma {:induction false} NoBreakSinceStart(s: string, p: nat)
    requires p <= |s|
    ensures forall k :: LineStart(s, p) <= k < p ==> !IsBreak(s[k])
  {
    if p > 0 && !IsBreak(s[p - 1]) {
      NoBreakSinceStart(s, p - 1);
    }
  }

  /** The terminal column after n scalars, with tab stops every eight columns. */
  function TerminalColumn(s: string, from: nat, end: nat, n: nat, start: nat): nat
    requires from <= end <= |s|
    decreases n
  {
    if n == 0 || from == end then start
    else
      TerminalColumn(s, from + SequenceLength(s, from, end), end, n - 1,
        if s[from] == '\t' then (start / 8 + 1) * 8 else start + 1)
  }

  /** What a terminal does with one more character: a tab goes to the next multiple of eight. */
  predicate Displays(c: char, before: nat, after: nat) {
    if c == '\t' then before < after <= before + 8 && after % 8 == 0 else after == before + 1
  }

  /** The terminal column moves as the terminal does, one scalar at a time. */
  lemma TabStops(s: string, from: nat, end: nat, n: nat, start: nat) returns (after: nat)
    requires from < end <= |s| && n > 0
    ensures Displays(s[from], start, after)
    ensures TerminalColumn(s, from, end, n, start)
         == TerminalColumn(s, from + SequenceLength(s, from, end), end, n - 1, after)
  {
    after := if s[from] == '\t' then (start / 8 + 1) * 8 else start + 1;
  }

  /** The padding before a caret that stands after a number of scalars of a line. */
  method CaretPrefix(source: string, lineStart: nat, lineEnd: nat, scalarsBefore: nat)
    returns (index: nat, caretPrefix: string)
    requires lineStart <= lineEnd <= |source|
    ensures lineStart + index == Steps(source, lineStart, lineEnd, scalarsBefore)
    ensures 2 + |caretPrefix| == TerminalColumn(source, lineStart, lineEnd, scalarsBefore, 2)
    ensures forall k :: 0 <= k < |caretPrefix| ==> caretPrefix[k] == ' '
  {
    hide SequenceLength;
    caretPrefix := "";
    var terminalColumn, seen := 2, 0;
    index := 0;
    while index < lineEnd - lineStart && seen < scalarsBefore
      invariant lineStart + index <= lineEnd && seen <= scalarsBefore
      invariant Steps(source, lineStart + index, lineEnd, scalarsBefore - seen)
             == Steps(source, lineStart, lineEnd, scalarsBefore)
      invariant terminalColumn == 2 + |caretPrefix|
      invariant TerminalColumn(source, lineStart + index, lineEnd, scalarsBefore - seen, terminalColumn)
             == TerminalColumn(source, lineStart, lineEnd, scalarsBefore, 2)
      invariant forall k :: 0 <= k < |caretPrefix| ==> caretPrefix[k] == ' '
    {
      if source[lineStart + index] == '\t' {
        TabIsOneByte(source, lineStart + index, lineEnd);
        var nextStop := (terminalColumn / 8 + 1) * 8;
        caretPrefix := caretPrefix + seq(nextStop - terminalColumn, _ => ' ');
        terminalColumn := nextStop;
        index := index + 1;
      } else {
        var length := Utf8SequenceLength(source, lineStart + index, lineEnd);
        caretPrefix := caretPrefix + " ";
        terminalColumn := terminalColumn + 1;
        index := index + length;
      }
      seen := seen + 1;
    }
  }

  /** Whether the lexer would report that line and column for a token starting at p. */
  ghost predicate ReportedAt(s: string, p: nat, line: nat, column: nat) {
    AtBoundary(s, p) && CursorAt(s, p).line == line && CursorAt(s, p).column == column
  }

  /** The line shown for a diagnostic and the caret under it: the caret points at the first byte of the
      token whose line and column they are. */
  method PlaceCaret(source: string, line: nat, column: nat)
    returns (lineStart: nat, lineEnd: nat, index: nat, caretPrefix: string)
    requires line >= 1
    ensures lineStart + index <= lineEnd <= |source|
    ensures 2 + |caretPrefix|
         == TerminalColumn(source, lineStart, lineEnd, if column > 0 then column - 1 else 0, 2)
    ensures forall p :: ReportedAt(source, p, line, column) ==>
      lineStart == LineStart(source, p) && lineEnd == LineEnd(source, p) && lineStart + index == p
  {
    hide SequenceLength, LineEnd, LineStart, LineOf, CursorAt, Steps, TerminalColumn;
    lineStart, lineEnd := FindLine(source, line);
    var scalarsBefore := if column > 0 then column - 1 else 0;
    index, caretPrefix := CaretPrefix(source, lineStart, lineEnd, scalarsBefore);
    forall p | ReportedAt(source, p, line, column)
      ensures lineStart == LineStart(source, p) && lineEnd == LineEnd(source, p) && lineStart + index == p
    {
      ColumnLeadsBack(source, p);
    }
  }

  lemma TabIsOneByte(s: string, offset: nat, end: nat)
    requires offset < end <= |s| && s[offset] == '\t'
    ensures SequenceLength(s, offset, end) == 1
  {
  }
}
