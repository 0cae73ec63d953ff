/** Which bytes of a source text make up its tokens. */
module LexerRules {
  import opened Wrappers
  import opened SourceLines

  datatype Kind =
    | Identifier | Number | Quoted | SpecialRegister | SpecialInstruction
    | LeftBrace | RightBrace | LeftBracket | RightBracket | Star | Dot | Colon | Equals | Semicolon | Comma
    | EndOfFile

  datatype Token = Token(kind: Kind, text: string, line: nat, column: nat)

  predicate IsDigit(c: char) { '0' <= c <= '9' }

  predicate IsOctalDigit(c: char) { '0' <= c <= '7' }

  predicate IsHexDigit(c: char) { '0' <= c <= '9' || 'a' <= c <= 'f' || 'A' <= c <= 'F' }

  predicate IsLetter(c: char) { 'a' <= c <= 'z' || 'A' <= c <= 'Z' || c == '_' }

  predicate IsLetterOrDigit(c: char) { IsLetter(c) || IsDigit(c) }

  predicate IsSpace(c: char) { c == ' ' || c == '\t' || c == '\n' || c == '\r' || c as int == 12 }

  /** The character at a position; a zero byte beyond the end. */
  function CharAt(s: string, p: nat): char {
    if p < |s| then s[p] else 0 as char
  }

  /** The end of the run of characters of one class. */
  function RunEnd(s: string, p: nat, isMember: char -> bool): (end: nat)
    requires p <= |s|
    ensures p <= end <= |s|
    ensures forall k :: p <= k < end ==> isMember(s[k])
    ensures end < |s| ==> !isMember(s[end])
    decreases |s| - p
  {
    if p < |s| && isMember(s[p]) then RunEnd(s, p + 1, isMember) else p
  }

  /** The end of a block comment whose opening has been read. */
  function CommentEnd(s: string, p: nat): (end: Option<nat>)
    requires p <= |s|
    ensures end.Some? ==> p < end.value <= |s|
    decreases |s| - p
  {
    if p == |s| then None
    else if s[p] == '*' && CharAt(s, p + 1) == '/' then Some(p + 2)
    else CommentEnd(s, p + 1)
  }

  /** Where the next token starts; None inside an unterminated comment. */
  function SpaceEnd(s: string, p: nat): (end: Option<nat>)
    requires p <= |s|
    ensures end.Some? ==> p <= end.value <= |s|
    ensures end.Some? && end.value < |s| ==> !IsSpace(s[end.value])
    decreases |s| - p
  {
    if p == |s| then Some(p)
    else if IsSpace(s[p]) then SpaceEnd(s, p + 1)
    else if s[p] == '/' && CharAt(s, p + 1) == '/' then SpaceEnd(s, LineEnd(s, p + 2))
    else if s[p] == '/' && CharAt(s, p + 1) == '*' then
      match CommentEnd(s, p + 2)
      case None => None
      case Some(q) => SpaceEnd(s, q)
    else Some(p)
  }

  /** The digits after a two-character base prefix; there must be one. */
  function RadixEnd(s: string, q: nat, isMember: char -> bool): (end: Option<nat>)
    requires q + 2 <= |s|
    ensures end.Some? ==> q < end.value <= |s|
  {
    if q + 2 < |s| && isMember(s[q + 2]) then Some(RunEnd(s, q + 2, isMember)) else None
  }

  /** Decimal digits, with a fraction if a digit follows the point. */
  function DecimalEnd(s: string, q: nat): (end: nat)
    requires q < |s| && IsDigit(s[q])
    ensures q < end <= |s|
  {
    var whole := RunEnd(s, q, IsDigit);
    if CharAt(s, whole) == '.' && IsDigit(CharAt(s, whole + 1)) then RunEnd(s, whole + 1, IsDigit) else whole
  }

  function NumberEnd(s: string, p: nat): (end: Option<nat>)
    requires p < |s| && (IsDigit(s[p]) || (s[p] == '-' && IsDigit(CharAt(s, p + 1))))
    ensures end.Some? ==> p < end.value <= |s|
  {
    var q := if s[p] == '-' then p + 1 else p;
    var marker := CharAt(s, q + 1);
    if s[q] == '0' && (marker == 'x' || marker == 'X') then RadixEnd(s, q, IsHexDigit)
    else if s[q] == '0' && (marker == 'o' || marker == 'O') then RadixEnd(s, q, IsOctalDigit)
    else Some(DecimalEnd(s, q))
  }

  /** The end of a string whose opening quote has been read. */
  function StringEnd(s: string, p: nat, escaped: bool): (end: Option<nat>)
    requires p <= |s|
    ensures end.Some? ==> p < end.value <= |s|
    decreases |s| - p
  {
    if p == |s| then None
    else if s[p] == '"' && !escaped then Some(p + 1)
    else StringEnd(s, p + 1, s[p] == '\\' && !escaped)
  }

  /** The end of the name after a marker. A special instruction may have dots inside its name. */
  function SpecialRun(s: string, p: nat, dots: bool): (end: nat)
    requires p <= |s|
    ensures p <= end <= |s|
    decreases |s| - p
  {
    if p == |s| then p
    else if IsLetterOrDigit(s[p]) || (dots && s[p] == '.' && IsLetter(CharAt(s, p + 1)))
    then SpecialRun(s, p + 1, dots)
    else p
  }

  function SpecialEnd(s: string, p: nat, dots: bool): (end: Option<nat>)
    requires p < |s|
    ensures end.Some? ==> p < end.value <= |s|
  {
    if IsLetter(CharAt(s, p + 1)) then Some(SpecialRun(s, p + 1, dots)) else None
  }

  function Punctuation(c: char): Option<Kind> {
    match c
    case '{' => Some(LeftBrace)
    case '}' => Some(RightBrace)
    case '[' => Some(LeftBracket)
    case ']' => Some(RightBracket)
    case '*' => Some(Star)
    case '.' => Some(Dot)
    case ':' => Some(Colon)
    case '=' => Some(Equals)
    case ';' => Some(Semicolon)
    case ',' => Some(Comma)
    case _ => None
  }

  /** The kind and the end of the token that starts at p; None where the lexer reports an error. */
  function TokenAt(s: string, p: nat): (r: Option<(Kind, nat)>)
    requires p < |s|
    ensures r.Some? ==> p < r.value.1 <= |s| && r.value.0 != EndOfFile && s[p] as int < 0x80
  {
    var c := s[p];
    if IsLetter(c) then Some((Identifier, RunEnd(s, p + 1, IsLetterOrDigit)))
    else if IsDigit(c) || (c == '-' && IsDigit(CharAt(s, p + 1))) then
      match NumberEnd(s, p) case None => None case Some(end) => Some((Number, end))
    else if c == '"' then
      match StringEnd(s, p + 1, false) case None => None case Some(end) => Some((Quoted, end))
    else if c == '%' then
      match SpecialEnd(s, p, false) case None => None case Some(end) => Some((SpecialRegister, end))
    else if c == '#' then
      match SpecialEnd(s, p, true) case None => None case Some(end) => Some((SpecialInstruction, end))
    else
      match Punctuation(c) case None => None case Some(kind) => Some((kind, p + 1))
  }

  /** A token with the line and column that the lexer has counted to when it starts. */
  function Made(s: string, kind: Kind, start: nat, end: nat): Token
    requires start <= end <= |s|
  {
    Token(kind, s[start..end], CursorAt(s, start).line, CursorAt(s, start).column)
  }

  /** The tokens from p on, ending with the end-of-file token. */
  function Tokens(s: string, p: nat): (r: Option<seq<Token>>)
    requires p <= |s|
    decreases |s| - p
  {
    match SpaceEnd(s, p)
    case None => None
    case Some(start) =>
      if start == |s| then Some([Made(s, EndOfFile, start, start)])
      else
        match TokenAt(s, start)
        case None => None
        case Some((kind, end)) =>
          Continued([Made(s, kind, start, end)], Tokens(s, end))
  }

  /** Tokens read so far, then the tokens from some position on. */
  function Continued(read: seq<Token>, rest: Option<seq<Token>>): Option<seq<Token>> {
    if rest.None? then None else Some(read + rest.value)
  }

  lemma ContinuedStep(read: seq<Token>, token: Token, rest: Option<seq<Token>>)
    ensures Continued(read, Continued([token], rest)) == Continued(read + [token], rest)
  {
    if rest.Some? {
      assert read + ([token] + rest.value) == (read + [token]) + rest.value;
    }
  }

  /** What the lexer promises the parser: the end-of-file token comes last and nowhere else. */
  predicate EndsOnce(tokens: seq<Token>) {
    && tokens != []
    && (forall k :: 0 <= k < |tokens| ==> (tokens[k].kind == EndOfFile <==> k == |tokens| - 1))
  }

  lemma {:induction false} TokensEndOnce(s: string, p: nat)
    requires p <= |s| && Tokens(s, p).Some?
    ensures EndsOnce(Tokens(s, p).value)
    decreases |s| - p
  {
    hide SpaceEnd, TokenAt, CursorAt;
    var start := SpaceEnd(s, p).value;
    if start < |s| {
      TokensEndOnce(s, TokenAt(s, start).value.1);
    }
  }

  lemma SlicesJoin(s: string, a: nat, b: nat, c: nat)
    requires a <= b <= c <= |s|
    ensures s[a..b] + s[b..c] == s[a..c]
  {
  }

  /** Where in the text a token is. */
  ghost predicate Located(s: string, t: Token, p: nat) {
    && ReportedAt(s, p, t.line, t.column)
    && p + |t.text| <= |s| && s[p..p + |t.text|] == t.text
  }

  /** Every token is where its line and column say, and so the diagnostics that use them point at it. */
  lemma {:induction false} TokensLocated(s: string, p: nat, k: nat) returns (at: nat)
    requires p <= |s| && Tokens(s, p).Some? && k < |Tokens(s, p).value|
    ensures p <= at && Located(s, Tokens(s, p).value[k], at)
    decreases |s| - p
  {
    hide CursorAt;
    hide TokenAt;
    var start := SpaceEnd(s, p).value;
    if k == 0 {
      at := start;
    } else {
      at := TokensLocated(s, TokenAt(s, start).value.1, k - 1);
    }
  }

  /** The line shown for a token contains it, at the place its column leads to. */
  lemma TokenInItsLine(s: string, k: nat) returns (at: nat)
    requires Tokens(s, 0).Some? && k < |Tokens(s, 0).value|
    ensures var t := Tokens(s, 0).value[k];
      && Located(s, t, at) && t.line == LineOf(s, at) && t.column >= 1
      && Steps(s, LineStart(s, at), LineEnd(s, at), t.column - 1) == at
  {
    hide CursorAt, Tokens;
    at := TokensLocated(s, 0, k);
    ColumnLeadsBack(s, at);
  }
}
