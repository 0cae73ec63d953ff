/** Blanks, comments and tokens side by side: what a text reads as does not depend on how it is laid out. */
module TextLayout {
  import opened Wrappers
  import opened SourceLines
  import opened LexerRules
  import opened Grammar
  import opened PrintedTokens
  import opened Spelling

  // ---- Reading looks forward only ----

  /** What follows a prefix is read as it is read alone. */
  lemma CharShifts(u: string, s: string, p: nat)
    ensures CharAt(u + s, |u| + p) == CharAt(s, p)
  {
  }

  lemma {:induction false} RunShifts(u: string, s: string, p: nat, isMember: char -> bool)
    requires p <= |s|
    ensures RunEnd(u + s, |u| + p, isMember) == |u| + RunEnd(s, p, isMember)
    decreases |s| - p
  {
    if p < |s| && isMember(s[p]) {
      RunShifts(u, s, p + 1, isMember);
    }
  }

  lemma {:induction false} LineShifts(u: string, s: string, p: nat)
    requires p <= |s|
    ensures LineEnd(u + s, |u| + p) == |u| + LineEnd(s, p)
    decreases |s| - p
  {
    if p < |s| && !IsBreak(s[p]) {
      LineShifts(u, s, p + 1);
    }
  }

  /** An end found in the rest of a text, counted from the start of the whole. */
  function Shifted(n: nat, end: Option<nat>): Option<nat> {
    if end.None? then None else Some(n + end.value)
  }

  lemma {:induction false} CommentShifts(u: string, s: string, p: nat)
    requires p <= |s|
    ensures CommentEnd(u + s, |u| + p) == Shifted(|u|, CommentEnd(s, p))
    decreases |s| - p
  {
    CharShifts(u, s, p + 1);
    if p < |s| && !(s[p] == '*' && CharAt(s, p + 1) == '/') {
      CommentShifts(u, s, p + 1);
    }
  }

  lemma {:induction false} StringShifts(u: string, s: string, p: nat, escaped: bool)
    requires p <= |s|
    ensures StringEnd(u + s, |u| + p, escaped) == Shifted(|u|, StringEnd(s, p, escaped))
    decreases |s| - p
  {
    if p < |s| && !(s[p] == '"' && !escaped) {
      StringShifts(u, s, p + 1, s[p] == '\\' && !escaped);
    }
  }

  lemma {:induction false} SpecialShifts(u: string, s: string, p: nat, dots: bool)
    requires p <= |s|
    ensures SpecialRun(u + s, |u| + p, dots) == |u| + SpecialRun(s, p, dots)
    decreases |s| - p
  {
    CharShifts(u, s, p + 1);
    if p < |s| && (IsLetterOrDigit(s[p]) || (dots && s[p] == '.' && IsLetter(CharAt(s, p + 1)))) {
      SpecialShifts(u, s, p + 1, dots);
    }
  }

  lemma {:induction false} SpaceShifts(u: string, s: string, p: nat)
    requires p <= |s|
    ensures SpaceEnd(u + s, |u| + p) == Shifted(|u|, SpaceEnd(s, p))
    decreases |s| - p
  {
    hide LineEnd, CommentEnd;
    CharShifts(u, s, p + 1);
    if p < |s| {
      if IsSpace(s[p]) {
        SpaceShifts(u, s, p + 1);
      } else if s[p] == '/' && CharAt(s, p + 1) == '/' {
        LineShifts(u, s, p + 2);
        SpaceShifts(u, s, LineEnd(s, p + 2));
      } else if s[p] == '/' && CharAt(s, p + 1) == '*' {
        CommentShifts(u, s, p + 2);
        if CommentEnd(s, p + 2).Some? {
          SpaceShifts(u, s, CommentEnd(s, p + 2).value);
        }
      }
    }
  }

  lemma NumberShifts(u: string, s: string, p: nat)
    requires p < |s| && (IsDigit(s[p]) || (s[p] == '-' && IsDigit(CharAt(s, p + 1))))
    ensures IsDigit((u + s)[|u| + p]) || ((u + s)[|u| + p] == '-' && IsDigit(CharAt(u + s, |u| + p + 1)))
    ensures NumberEnd(u + s, |u| + p) == Shifted(|u|, NumberEnd(s, p))
  {
    hide RunEnd, RadixEnd, DecimalEnd;
    var q := if s[p] == '-' then p + 1 else p;
    CharShifts(u, s, p + 1);
    CharShifts(u, s, q + 1);
    assert (u + s)[|u| + p] == s[p] && (u + s)[|u| + q] == s[q];
    var marker := CharAt(s, q + 1);
    if s[q] == '0' && (marker == 'x' || marker == 'X') {
      RadixShifts(u, s, q, IsHexDigit);
    } else if s[q] == '0' && (marker == 'o' || marker == 'O') {
      RadixShifts(u, s, q, IsOctalDigit);
    } else {
      DecimalShifts(u, s, q);
    }
  }

  lemma RadixShifts(u: string, s: string, q: nat, isMember: char -> bool)
    requires q + 2 <= |s|
    ensures RadixEnd(u + s, |u| + q, isMember) == Shifted(|u|, RadixEnd(s, q, isMember))
  {
    RunShifts(u, s, q + 2, isMember);
  }

  lemma DecimalShifts(u: string, s: string, q: nat)
    requires q < |s| && IsDigit(s[q])
    ensures DecimalEnd(u + s, |u| + q) == |u| + DecimalEnd(s, q)
  {
    hide RunEnd;
    RunShifts(u, s, q, IsDigit);
    var whole := RunEnd(s, q, IsDigit);
    CharShifts(u, s, whole);
    CharShifts(u, s, whole + 1);
    if whole + 1 <= |s| {
      RunShifts(u, s, whole + 1, IsDigit);
    }
  }

  lemma TokenShifts(u: string, s: string, p: nat)
    requires p < |s|
    ensures TokenAt(u + s, |u| + p)
         == if TokenAt(s, p).None? then None else Some((TokenAt(s, p).value.0, |u| + TokenAt(s, p).value.1))
  {
    hide RunEnd, NumberEnd, StringEnd, SpecialRun;
    var c := s[p];
    CharShifts(u, s, p + 1);
    RunShifts(u, s, p + 1, IsLetterOrDigit);
    StringShifts(u, s, p + 1, false);
    SpecialShifts(u, s, p + 1, false);
    SpecialShifts(u, s, p + 1, true);
    if IsDigit(c) || (c == '-' && IsDigit(CharAt(s, p + 1))) {
      NumberShifts(u, s, p);
    }
  }

  // ---- Lexemes of a text ----

  function Bare(tokens: seq<Token>): seq<Lexeme> {
    seq(|tokens|, i requires 0 <= i < |tokens| => Lexeme(tokens[i].kind, tokens[i].text))
  }

  lemma BareSplits(first: Token, rest: seq<Token>)
    ensures Bare([first] + rest) == [Lexeme(first.kind, first.text)] + Bare(rest)
  {
  }

  /** The tokens of a text without their places. */
  function LexemesFrom(s: string, p: nat): Option<seq<Lexeme>>
    requires p <= |s|
  {
    if Tokens(s, p).None? then None else Some(Bare(Tokens(s, p).value))
  }

  function LexemesOf(s: string): Option<seq<Lexeme>> {
    LexemesFrom(s, 0)
  }

  function Prepended(l: Lexeme, rest: Option<seq<Lexeme>>): Option<seq<Lexeme>> {
    if rest.None? then None else Some([l] + rest.value)
  }

  lemma LexemesSplit(s: string, p: nat)
    requires p <= |s|
    ensures LexemesFrom(s, p)
         == match SpaceEnd(s, p)
            case None => None
            case Some(start) =>
              if start == |s| then Some([END])
              else match TokenAt(s, start)
                   case None => None
                   case Some((kind, end)) => Prepended(Lexeme(kind, s[start..end]), LexemesFrom(s, end))
  {
    hide SpaceEnd, TokenAt, CursorAt, Bare;
    if SpaceEnd(s, p).Some? {
      var start := SpaceEnd(s, p).value;
      if start == |s| {
        LastIsBare(s);
      } else if TokenAt(s, start).Some? && Tokens(s, TokenAt(s, start).value.1).Some? {
        var (kind, end) := TokenAt(s, start).value;
        BareSplits(Made(s, kind, start, end), Tokens(s, end).value);
      }
    }
  }

  lemma LastIsBare(s: string)
    ensures Bare([Made(s, EndOfFile, |s|, |s|)]) == [END]
  {
    hide CursorAt;
    assert s[|s|..|s|] == "";
  }

  lemma {:induction false} LexemesShift(u: string, s: string, p: nat)
    requires p <= |s|
    ensures LexemesFrom(u + s, |u| + p) == LexemesFrom(s, p)
    decreases |s| - p
  {
    hide SpaceEnd, TokenAt, LexemesFrom;
    LexemesSplit(s, p);
    LexemesSplit(u + s, |u| + p);
    SpaceShifts(u, s, p);
    if SpaceEnd(s, p).Some? && SpaceEnd(s, p).value < |s| {
      var start := SpaceEnd(s, p).value;
      TokenShifts(u, s, start);
      if TokenAt(s, start).Some? {
        var end := TokenAt(s, start).value.1;
        LexemesShift(u, s, end);
        assert (u + s)[|u| + start..|u| + end] == s[start..end];
      }
    }
  }

  // ---- Blanks and comments ----

  /** What may stand between tokens. A line comment carries the line break that ends it. */
  datatype Piece = Blank(c: char) | LineComment(text: string, end: char) | BlockComment(text: string)

  predicate IsPiece(piece: Piece) {
    match piece
    case Blank(c) => c in {' ', '\t', '\n', '\r'} || c as int == 12
    case LineComment(text, end) => end in {'\n', '\r'} && NoBreak(text)
    case BlockComment(text) => forall k :: 0 <= k < |text| ==> !(text[k] == '*' && CharAt(text, k + 1) == '/')
  }

  predicate NoBreak(text: string) {
    forall k :: 0 <= k < |text| ==> text[k] != '\n' && text[k] != '\r'
  }

  function WritePiece(piece: Piece): string {
    match piece
    case Blank(c) => [c]
    case LineComment(text, end) => "//" + text + [end]
    case BlockComment(text) => "/*" + text + "*/"
  }

  lemma {:induction false} LineEndsAt(s: string, p: nat, end: nat)
    requires p <= end <= |s| && (end < |s| ==> IsBreak(s[end]))
    requires forall k :: p <= k < end ==> s[k] != '\n' && s[k] != '\r'
    ensures LineEnd(s, p) == end
    decreases end - p
  {
    if p < end {
      LineEndsAt(s, p + 1, end);
    }
  }

  lemma {:induction false} CommentEndsAt(s: string, p: nat, end: nat)
    requires p <= end && end + 2 <= |s| && s[end] == '*' && s[end + 1] == '/'
    requires forall k :: p <= k < end ==> !(s[k] == '*' && s[k + 1] == '/')
    ensures CommentEnd(s, p) == Some(end + 2)
    decreases end - p
  {
    if p < end {
      CommentEndsAt(s, p + 1, end);
    }
  }

  lemma SpaceAfterPiece(piece: Piece, s: string)
    requires IsPiece(piece)
    ensures SpaceEnd(WritePiece(piece) + s, 0) == SpaceEnd(WritePiece(piece) + s, |WritePiece(piece)|)
  {
    hide LineEnd, CommentEnd;
    var u := WritePiece(piece);
    var t := u + s;
    match piece
    case Blank(_) =>
    case LineComment(text, end) =>
      assert t[0] == '/' && t[1] == '/' && t[|u| - 1] == end;
      forall k | 2 <= k < |u| - 1
        ensures t[k] != '\n' && t[k] != '\r'
      {
        assert t[k] == text[k - 2];
      }
      LineEndsAt(t, 2, |u| - 1);
      assert IsSpace(end);
    case BlockComment(text) =>
      var n := |text| + 2;
      assert t[0] == '/' && t[1] == '*' && t[n] == '*' && t[n + 1] == '/';
      forall k | 2 <= k < n
        ensures !(t[k] == '*' && t[k + 1] == '/')
      {
        assert t[k] == text[k - 2];
        if k + 1 < n {
          assert t[k + 1] == text[k - 1];
        }
      }
      CommentEndsAt(t, 2, n);
  }

  /** A blank or a comment in front of a text changes nothing. */
  lemma PieceSkipped(piece: Piece, s: string)
    requires IsPiece(piece)
    ensures LexemesOf(WritePiece(piece) + s) == LexemesOf(s)
  {
    hide SpaceEnd, TokenAt, LexemesFrom, WritePiece, IsPiece;
    var u := WritePiece(piece);
    SpaceAfterPiece(piece, s);
    LexemesSplit(u + s, 0);
    LexemesSplit(u + s, |u|);
    LexemesShift(u, s, 0);
  }

  // ---- Tokens ----

  predicate StandsAlone(kind: Kind) {
    !(kind.Identifier? || kind.Number? || kind.SpecialRegister? || kind.SpecialInstruction?)
  }

  /** What may come right after a token. Names and numbers end before anything but letters, digits and points, and
      a point ends an identifier or the name of a special register. */
  predicate MayFollow(kind: Kind, rest: string) {
    || rest == "" || StandsAlone(kind)
    || (!IsLetterOrDigit(rest[0]) && rest[0] != '.')
    || (rest[0] == '.' && (kind.Identifier? || kind.SpecialRegister?))
  }

  lemma {:induction false} RunAgrees(text: string, rest: string, p: nat, isMember: char -> bool)
    requires p <= |text| && !isMember(' ') && (rest != "" ==> !isMember(rest[0]))
    ensures RunEnd(text + rest, p, isMember) == RunEnd(text + " ", p, isMember) <= |text|
    decreases |text| - p
  {
    if p < |text| {
      assert (text + rest)[p] == text[p] && (text + " ")[p] == text[p];
      if isMember(text[p]) {
        RunAgrees(text, rest, p + 1, isMember);
      }
    }
  }

  lemma {:induction false} StringAgrees(text: string, rest: string, p: nat, escaped: bool)
    requires p <= |text| && StringEnd(text + " ", p, escaped) == Some(|text|)
    ensures StringEnd(text + rest, p, escaped) == Some(|text|)
    decreases |text| - p
  {
    if p < |text| {
      assert (text + rest)[p] == text[p] && (text + " ")[p] == text[p];
      if !(text[p] == '"' && !escaped) {
        StringAgrees(text, rest, p + 1, text[p] == '\\' && !escaped);
      }
    }
  }

  lemma {:induction false} SpecialAgrees(text: string, rest: string, p: nat, dots: bool)
    requires p <= |text| && SpecialRun(text + " ", p, dots) == |text|
    requires rest != "" ==> !IsLetterOrDigit(rest[0]) && !(dots && rest[0] == '.')
    ensures SpecialRun(text + rest, p, dots) == |text|
    decreases |text| - p
  {
    if p < |text| {
      assert (text + rest)[p] == text[p] && (text + " ")[p] == text[p];
      if p + 1 < |text| {
        assert (text + rest)[p + 1] == text[p + 1] && (text + " ")[p + 1] == text[p + 1];
      }
      SpecialAgrees(text, rest, p + 1, dots);
    }
  }

  lemma DecimalAgrees(text: string, rest: string, q: nat)
    requires q < |text| && IsDigit(text[q]) && MayFollow(Number, rest)
    ensures DecimalEnd(text + rest, q) == DecimalEnd(text + " ", q)
  {
    var x, y := text + " ", text + rest;
    RunAgrees(text, rest, q, IsDigit);
    var whole := RunEnd(x, q, IsDigit);
    hide RunEnd;
    if whole < |text| {
      assert x[whole] == y[whole];
      if whole + 1 < |text| {
        assert x[whole + 1] == y[whole + 1];
      }
      RunAgrees(text, rest, whole + 1, IsDigit);
    }
  }

  lemma NumberAgrees(text: string, rest: string)
    requires text != "" && MayFollow(Number, rest)
    requires IsDigit(text[0]) || (text[0] == '-' && IsDigit(CharAt(text + " ", 1)))
    ensures IsDigit((text + rest)[0]) || ((text + rest)[0] == '-' && IsDigit(CharAt(text + rest, 1)))
    ensures NumberEnd(text + rest, 0) == NumberEnd(text + " ", 0)
  {
    hide RunEnd, DecimalEnd;
    var x, y := text + " ", text + rest;
    var q := if text[0] == '-' then 1 else 0;
    assert q < |text| && x[q] == text[q] && y[q] == text[q];
    if q + 1 < |text| {
      assert x[q + 1] == text[q + 1] && y[q + 1] == text[q + 1];
      RunAgrees(text, rest, q + 2, IsHexDigit);
      RunAgrees(text, rest, q + 2, IsOctalDigit);
      if q + 2 < |text| {
        assert x[q + 2] == text[q + 2] && y[q + 2] == text[q + 2];
      }
    }
    DecimalAgrees(text, rest, q);
  }

  /** A token ends where its text ends, whatever may follow it. */
  lemma TokenEnds(l: Lexeme, rest: string)
    requires Spelled(l) && MayFollow(l.kind, rest)
    ensures l.text != "" && TokenAt(l.text + rest, 0) == Some((l.kind, |l.text|))
  {
    hide RunEnd, NumberEnd, StringEnd, SpecialRun;
    var text := l.text;
    assert text != "";
    var c := text[0];
    assert (text + " ")[0] == c && (text + rest)[0] == c;
    if |text| > 1 {
      assert (text + " ")[1] == text[1] && (text + rest)[1] == text[1];
    }
    if IsLetter(c) {
      RunAgrees(text, rest, 1, IsLetterOrDigit);
    } else if IsDigit(c) || (c == '-' && IsDigit(CharAt(text + " ", 1))) {
      NumberAgrees(text, rest);
    } else if c == '"' {
      StringAgrees(text, rest, 1, false);
    } else if c == '%' || c == '#' {
      SpecialAgrees(text, rest, 1, c == '#');
    }
  }

  /** A token in front of a text is read first, and then the text as it is read alone. */
  lemma TokenLexes(l: Lexeme, rest: string)
    requires Spelled(l) && MayFollow(l.kind, rest)
    ensures LexemesOf(l.text + rest) == Prepended(l, LexemesOf(rest))
  {
    TokenEnds(l, rest);
    TokenStands(l.text + rest, 0);
    hide SpaceEnd, TokenAt, LexemesFrom, MayFollow;
    LexemesSplit(l.text + rest, 0);
    LexemesShift(l.text, rest, 0);
    assert (l.text + rest)[0..|l.text|] == l.text;
  }

  // ---- Whole layouts ----

  function WriteGap(gap: seq<Piece>): string {
    if gap == [] then "" else WritePiece(gap[0]) + WriteGap(gap[1..])
  }

  /** Tokens with gaps before, between and after them, and perhaps a last line comment without a break. */
  function Lay(input: Input, gaps: seq<seq<Piece>>, tail: string): string
    requires |gaps| == |input|
  {
    WriteGap(gaps[0]) + if |input| == 1 then tail else input[0].text + Lay(input[1..], gaps[1..], tail)
  }

  predicate IsTail(tail: string) {
    tail == "" || (|tail| >= 2 && tail[..2] == "//" && NoBreak(tail))
  }

  /** Gaps are blanks and comments, and there is one wherever two tokens would run into each other. */
  predicate WellLaid(input: Input, gaps: seq<seq<Piece>>, tail: string) {
    && |gaps| == |input| && IsTail(tail)
    && (forall gap <- gaps, piece <- gap :: IsPiece(piece))
    && (forall k :: 0 < k < |input| && gaps[k] == [] ==> MayFollow(input[k - 1].kind, input[k].text))
  }

  lemma {:induction false} GapSkipped(gap: seq<Piece>, s: string)
    requires forall piece <- gap :: IsPiece(piece)
    ensures LexemesOf(WriteGap(gap) + s) == LexemesOf(s)
  {
    hide LexemesOf, IsPiece, WritePiece;
    if gap == [] {
      assert "" + s == s;
    } else {
      var rest := WriteGap(gap[1..]);
      assert WriteGap(gap) + s == WritePiece(gap[0]) + (rest + s);
      assert gap[0] in gap;
      PieceSkipped(gap[0], rest + s);
      GapSkipped(gap[1..], s);
    }
  }

  lemma TailSkipped(tail: string)
    requires IsTail(tail)
    ensures LexemesOf(tail) == Some([END])
  {
    if tail != "" {
      assert tail[..2][0] == '/' && tail[..2][1] == '/';
      LineEndsAt(tail, 2, |tail|);
    }
    assert SpaceEnd(tail, 0) == Some(|tail|);
    LexemesSplit(tail, 0);
  }

  lemma GapFollows(kind: Kind, gap: seq<Piece>, rest: string)
    requires gap != [] && IsPiece(gap[0])
    ensures MayFollow(kind, WriteGap(gap) + rest)
  {
  }

  lemma LaidFollows(kind: Kind, input: Input, gaps: seq<seq<Piece>>, tail: string)
    requires |gaps| == |input| && IsTail(tail) && AllSpelled(input)
    requires forall gap <- gaps, piece <- gap :: IsPiece(piece)
    requires gaps[0] == [] ==> MayFollow(kind, input[0].text)
    ensures MayFollow(kind, Lay(input, gaps, tail))
  {
    hide IsPiece;
    if gaps[0] != [] {
      assert gaps[0] in gaps && gaps[0][0] in gaps[0];
      GapFollows(kind, gaps[0], if |input| == 1 then tail else input[0].text + Lay(input[1..], gaps[1..], tail));
    } else if |input| == 1 {
      if tail != "" {
        assert tail[..2][0] == '/';
      }
    } else {
      assert Spelled(input[0]);
      SpelledNotEmpty(input[0]);
    }
  }

  lemma SpelledNotEmpty(l: Lexeme)
    requires Spelled(l)
    ensures l.text != ""
  {
  }

  /** However tokens are laid out, the text is read as those tokens. */
  lemma {:induction false} LayoutLexes(input: Input, gaps: seq<seq<Piece>>, tail: string)
    requires AllSpelled(input) && WellLaid(input, gaps, tail)
    ensures LexemesOf(Lay(input, gaps, tail)) == Some(input)
    decreases |input|
  {
    hide LexemesOf, IsPiece, WritePiece, WriteGap, MayFollow, Spelled, IsTail;
    assert gaps[0] in gaps;
    if |input| == 1 {
      GapSkipped(gaps[0], tail);
      TailSkipped(tail);
      assert input == [END];
    } else {
      var rest := Lay(input[1..], gaps[1..], tail);
      LayoutLexes(input[1..], gaps[1..], tail);
      LaidFollows(input[0].kind, input[1..], gaps[1..], tail);
      GapSkipped(gaps[0], input[0].text + rest);
      TokenLexes(input[0], rest);
      assert input == [input[0]] + input[1..];
    }
  }

  /** A block comment that is never closed makes the text unreadable. */
  lemma OpenCommentFails(text: string)
    requires forall k :: 0 <= k < |text| ==> !(text[k] == '*' && CharAt(text, k + 1) == '/')
    ensures LexemesOf("/*" + text) == None
  {
    var s := "/*" + text;
    NeverCloses(s, 2);
  }

  lemma {:induction false} NeverCloses(s: string, p: nat)
    requires p <= |s| && forall k :: p <= k < |s| ==> !(s[k] == '*' && CharAt(s, k + 1) == '/')
    ensures CommentEnd(s, p) == None
    decreases |s| - p
  {
    if p < |s| {
      NeverCloses(s, p + 1);
    }
  }

  // ---- Every token of a text can stand elsewhere ----

  lemma {:induction false} RunCut(text: string, rest: string, p: nat, isMember: char -> bool)
    requires p <= |text| && !isMember(' ') && RunEnd(text + rest, p, isMember) <= |text|
    ensures RunEnd(text + " ", p, isMember) == RunEnd(text + rest, p, isMember)
    decreases |text| - p
  {
    if p < |text| {
      assert (text + rest)[p] == text[p] && (text + " ")[p] == text[p];
      if isMember(text[p]) {
        RunCut(text, rest, p + 1, isMember);
      }
    }
  }

  lemma {:induction false} StringCut(text: string, rest: string, p: nat, escaped: bool)
    requires p <= |text| && StringEnd(text + rest, p, escaped) == Some(|text|)
    ensures StringEnd(text + " ", p, escaped) == Some(|text|)
    decreases |text| - p
  {
    if p < |text| {
      assert (text + rest)[p] == text[p] && (text + " ")[p] == text[p];
      if !(text[p] == '"' && !escaped) {
        StringCut(text, rest, p + 1, text[p] == '\\' && !escaped);
      }
    }
  }

  /** A name with dots never ends in a dot. */
  lemma {:induction false} SpecialCut(text: string, rest: string, p: nat, dots: bool)
    requires p <= |text| && SpecialRun(text + rest, p, dots) == |text|
    ensures SpecialRun(text + " ", p, dots) == |text|
    decreases |text| - p
  {
    if p < |text| {
      assert (text + rest)[p] == text[p] && (text + " ")[p] == text[p];
      if p + 1 < |text| {
        assert (text + rest)[p + 1] == text[p + 1] && (text + " ")[p + 1] == text[p + 1];
      }
      SpecialCut(text, rest, p + 1, dots);
    }
  }

  lemma DecimalCut(text: string, rest: string, q: nat)
    requires q < |text| && IsDigit(text[q]) && DecimalEnd(text + rest, q) == |text|
    ensures DecimalEnd(text + " ", q) == |text|
  {
    var x, y := text + " ", text + rest;
    RunCut(text, rest, q, IsDigit);
    var whole := RunEnd(y, q, IsDigit);
    hide RunEnd;
    if whole < |text| {
      assert x[whole] == y[whole];
      assert whole + 1 <= |text|;
      RunCut(text, rest, whole + 1, IsDigit);
      if whole + 1 < |text| {
        assert x[whole + 1] == y[whole + 1];
      }
    }
  }

  lemma NumberCut(text: string, rest: string)
    requires text != ""
    requires IsDigit(text[0]) || (text[0] == '-' && IsDigit(CharAt(text + rest, 1)))
    requires NumberEnd(text + rest, 0) == Some(|text|)
    ensures IsDigit((text + " ")[0]) || ((text + " ")[0] == '-' && IsDigit(CharAt(text + " ", 1)))
    ensures NumberEnd(text + " ", 0) == Some(|text|)
  {
    hide RunEnd, DecimalEnd;
    var x, y := text + " ", text + rest;
    var q := if text[0] == '-' then 1 else 0;
    assert q < |text| && x[q] == text[q] && y[q] == text[q];
    if q + 1 < |text| {
      assert x[q + 1] == text[q + 1] && y[q + 1] == text[q + 1];
    }
    var marker := CharAt(y, q + 1);
    if text[q] == '0' && (marker == 'x' || marker == 'X') {
      RadixCut(text, rest, q, IsHexDigit);
    } else if text[q] == '0' && (marker == 'o' || marker == 'O') {
      RadixCut(text, rest, q, IsOctalDigit);
    } else {
      DecimalCut(text, rest, q);
    }
  }

  lemma RadixCut(text: string, rest: string, q: nat, isMember: char -> bool)
    requires q + 2 <= |text + rest| && RadixEnd(text + rest, q, isMember) == Some(|text|) && !isMember(' ')
    ensures q + 2 < |text| && RadixEnd(text + " ", q, isMember) == Some(|text|)
  {
    RunCut(text, rest, q + 2, isMember);
    assert (text + rest)[q + 2] == text[q + 2] && (text + " ")[q + 2] == text[q + 2];
  }

  lemma NameHasLetter(s: string, dots: bool)
    requires IsLetter(CharAt(s, 1))
    ensures |s| > 1 && SpecialRun(s, 1, dots) > 1
  {
  }

  /** What was read as a token is read as that token anywhere. */
  lemma TokenCut(text: string, rest: string, kind: Kind)
    requires text != "" && TokenAt(text + rest, 0) == Some((kind, |text|))
    ensures Spelled(Lexeme(kind, text))
  {
    hide RunEnd, NumberEnd, StringEnd, SpecialRun;
    var c := text[0];
    assert (text + " ")[0] == c && (text + rest)[0] == c;
    if |text| > 1 {
      assert (text + " ")[1] == text[1] && (text + rest)[1] == text[1];
    }
    if IsLetter(c) {
      RunCut(text, rest, 1, IsLetterOrDigit);
    } else if IsDigit(c) || (c == '-' && IsDigit(CharAt(text + rest, 1))) {
      NumberCut(text, rest);
    } else if c == '"' {
      StringCut(text, rest, 1, false);
    } else if c == '%' || c == '#' {
      NameHasLetter(text + rest, c == '#');
      SpecialCut(text, rest, 1, c == '#');
    }
  }

  predicate AllTokensSpelled(lexemes: seq<Lexeme>) {
    && lexemes != [] && lexemes[|lexemes| - 1] == END
    && (forall k :: 0 <= k < |lexemes| - 1 ==> Spelled(lexemes[k]) && lexemes[k].kind != EndOfFile)
  }

  /** Every token that a text is read as is spelled as a token. */
  lemma {:induction false} LexedAreSpelled(s: string, p: nat)
    requires p <= |s| && LexemesFrom(s, p).Some?
    ensures AllTokensSpelled(LexemesFrom(s, p).value)
    decreases |s| - p
  {
    hide SpaceEnd, TokenAt, LexemesFrom, Spelled;
    LexemesSplit(s, p);
    var start := SpaceEnd(s, p).value;
    if start < |s| {
      var (kind, end) := TokenAt(s, start).value;
      var text, rest := s[start..end], s[end..];
      assert s == s[..start] + (text + rest);
      TokenShifts(s[..start], text + rest, 0);
      TokenCut(text, rest, kind);
      LexedAreSpelled(s, end);
      var more := LexemesFrom(s, end).value;
      assert LexemesFrom(s, p).value == [Lexeme(kind, text)] + more;
    }
  }

  // ---- Shapes of names ----

  lemma {:induction false} SpecialRunBelongs(s: string, p: nat, dots: bool, k: nat)
    requires p <= |s| && p <= k < SpecialRun(s, p, dots)
    ensures k < |s| && (ContinuesName(s[k]) || (dots && s[k] == '.' && k + 1 < |s| && StartsName(s[k + 1])))
    decreases |s| - p
  {
    if p < k {
      SpecialRunBelongs(s, p + 1, dots, k);
    }
  }

  /** Tokens of names are exactly what names look like. */
  lemma NamesSpelled(text: string)
    ensures Spelled(Lexeme(Identifier, text)) <==> IsName(text)
    ensures Spelled(Lexeme(SpecialRegister, text)) ==> text != "" && text[0] == '%' && IsName(text[1..])
    ensures Spelled(Lexeme(SpecialInstruction, text)) ==> text != "" && text[0] == '#' && IsDottedName(text[1..])
  {
    var s := text + " ";
    if Spelled(Lexeme(Identifier, text)) {
      assert text != "" && s[0] == text[0];
      forall k | 0 < k < |text| ensures ContinuesName(text[k]) {
        assert s[k] == text[k] && IsLetterOrDigit(s[k]);
      }
    }
    if IsName(text) {
      NameReads(text);
      assert Stops(" ");
    }
    if Spelled(Lexeme(SpecialRegister, text)) {
      SpecialShape(text, false);
    }
    if Spelled(Lexeme(SpecialInstruction, text)) {
      SpecialShape(text, true);
    }
  }

  lemma SpecialShape(text: string, dots: bool)
    requires Spelled(Lexeme(if dots then SpecialInstruction else SpecialRegister, text))
    ensures text != "" && text[0] == (if dots then '#' else '%')
    ensures if dots then IsDottedName(text[1..]) else IsName(text[1..])
  {
    var s := text + " ";
    assert text != "" && s[0] == text[0];
    NameHasLetter(s, dots);
    assert |text| > 1 && s[1] == text[1] && text[1..][0] == text[1];
    forall k | 0 <= k < |text| - 1
      ensures BelongsToName(text[1..], k, dots)
    {
      SpecialRunBelongs(s, 1, dots, k + 1);
      assert s[k + 1] == text[k + 1] == text[1..][k];
      if k + 2 < |text| {
        assert s[k + 2] == text[k + 2] == text[1..][k + 1];
      } else {
        assert s[k + 2] == ' ';
      }
    }
    if !dots {
      forall k | 0 <= k < |text| - 1 ensures ContinuesName(text[1..][k]) {
        assert BelongsToName(text[1..], k, false);
      }
    }
  }
}
