/** The lexer: one position that moves through the source while lines and columns are counted. */
module Lexer {
  import opened Wrappers
  import opened Utf8
  import opened SourceLines
  import opened LexerRules

  class Lexer {
    const source: string
    var position: nat
    var line: nat
    var column: nat
    var utf8ContinuationBytes: nat
    var previousWasCarriageReturn: bool

    ghost predicate Valid()
      reads this
    {
      position <= |source|
      && Cursor(line, column, utf8ContinuationBytes, previousWasCarriageReturn) == CursorAt(source, position)
    }

    constructor (source: string)
      ensures Valid() && this.source == source && position == 0
    {
      this.source := source;
      position, line, column := 0, 1, 1;
      utf8ContinuationBytes, previousWasCarriageReturn := 0, false;
    }

    function CurrentChar(): char
      reads this
    {
      CharAt(source, position)
    }

    function LookAheadChar(): char
      reads this
    {
      CharAt(source, position + 1)
    }

    method ReadChar() returns (c: char)
      requires Valid() && position < |source|
      modifies this
      ensures Valid() && position == old(position) + 1 && c == source[old(position)]
    {
      hide SequenceLength;
      var byteOffset := position;
      c := source[position];
      position := position + 1;
      if c == '\r' {
        line := line + 1;
        column := 1;
        utf8ContinuationBytes := 0;
        previousWasCarriageReturn := true;
      } else if c == '\n' {
        if !previousWasCarriageReturn {
          line := line + 1;
        }
        column := 1;
        utf8ContinuationBytes := 0;
        previousWasCarriageReturn := false;
      } else {
        if utf8ContinuationBytes != 0 && IsContinuation(c) {
          utf8ContinuationBytes := utf8ContinuationBytes - 1;
        } else {
          column := column + 1;
          var length := Utf8SequenceLength(source, byteOffset, |source|);
          utf8ContinuationBytes := length - 1;
        }
        previousWasCarriageReturn := false;
      }
    }

    /** Reads characters of one class, appending them to the text. */
    method ReadWhile(isMember: char -> bool, text: string) returns (extended: string)
      requires Valid()
      modifies this
      ensures Valid() && position == RunEnd(source, old(position), isMember)
      ensures extended == text + source[old(position)..position]
    {
      hide CursorAt;
      extended := text;
      while position < |source| && isMember(CurrentChar())
        invariant Valid() && old(position) <= position
        invariant RunEnd(source, position, isMember) == RunEnd(source, old(position), isMember)
        invariant extended == text + source[old(position)..position]
        decreases |source| - position
      {
        var c := ReadChar();
        SlicesJoin(source, old(position), position - 1, position);
        assert source[position - 1..position] == [c];
        extended := extended + [c];
      }
    }

    method SkipBlockComment() returns (closed: bool)
      requires Valid() && CurrentChar() == '/' && LookAheadChar() == '*'
      modifies this
      ensures Valid()
      ensures CommentEnd(source, old(position) + 2) == if closed then Some(position) else None
    {
      hide CursorAt;
      var _ := ReadChar();
      var _ := ReadChar();
      closed := false;
      while position < |source|
        invariant Valid() && old(position) + 2 <= position
        invariant CommentEnd(source, position) == CommentEnd(source, old(position) + 2)
        decreases |source| - position
      {
        if CurrentChar() == '*' && LookAheadChar() == '/' {
          var _ := ReadChar();
          var _ := ReadChar();
          return true;
        }
        var _ := ReadChar();
      }
    }

    method SkipLineComment()
      requires Valid() && CurrentChar() == '/' && LookAheadChar() == '/'
      modifies this
      ensures Valid() && position == LineEnd(source, old(position) + 2)
    {
      hide CursorAt;
      var _ := ReadChar();
      var _ := ReadChar();
      while position < |source| && CurrentChar() != '\n' && CurrentChar() != '\r'
        invariant Valid() && old(position) + 2 <= position
        invariant LineEnd(source, position) == LineEnd(source, old(position) + 2)
        decreases |source| - position
      {
        var _ := ReadChar();
      }
    }

    method SkipWhitespaceAndComments() returns (ok: bool)
      requires Valid()
      modifies this
      ensures Valid()
      ensures SpaceEnd(source, old(position)) == if ok then Some(position) else None
    {
      hide CursorAt, CommentEnd, LineEnd;
      while position < |source|
        invariant Valid() && SpaceEnd(source, position) == SpaceEnd(source, old(position))
        decreases |source| - position
      {
        var c := CurrentChar();
        if IsSpace(c) {
          var _ := ReadChar();
        } else if c == '/' && LookAheadChar() == '/' {
          SkipLineComment();
        } else if c == '/' && LookAheadChar() == '*' {
          var closed := SkipBlockComment();
          if !closed {
            return false;
          }
        } else {
          return true;
        }
      }
      return true;
    }

    method ReadIdentifier() returns (token: Token)
      requires Valid() && position < |source| && IsLetter(CurrentChar())
      modifies this
      ensures Valid() && TokenAt(source, old(position)) == Some((Identifier, position))
      ensures token == Made(source, Identifier, old(position), position)
    {
      hide CursorAt, NumberEnd, StringEnd, SpecialEnd;
      var startLine, startColumn := line, column;
      var text := ReadWhile(IsLetterOrDigit, "");
      token := Token(Identifier, text, startLine, startColumn);
    }

    /** Reads a base prefix and the digits after it. */
    method ReadRadix(isMember: char -> bool, text: string) returns (extended: Option<string>)
      requires Valid() && position + 2 <= |source|
      modifies this
      ensures Valid()
      ensures RadixEnd(source, old(position), isMember) == if extended.Some? then Some(position) else None
      ensures extended.Some? ==> extended.value == text + source[old(position)..position]
    {
      hide CursorAt;
      var zero := ReadChar();
      var marker := ReadChar();
      if position == |source| || !isMember(CurrentChar()) {
        return None;
      }
      var all := ReadWhile(isMember, text + [zero, marker]);
      assert [zero, marker] == source[old(position)..old(position) + 2];
      SlicesJoin(source, old(position), old(position) + 2, position);
      extended := Some(all);
    }

    method ReadDecimal(text: string) returns (extended: string)
      requires Valid() && position < |source| && IsDigit(CurrentChar())
      modifies this
      ensures Valid() && position == DecimalEnd(source, old(position))
      ensures extended == text + source[old(position)..position]
    {
      hide CursorAt, RunEnd;
      extended := ReadWhile(IsDigit, text);
      if CurrentChar() == '.' && IsDigit(LookAheadChar()) {
        ghost var whole := position;
        var dot := ReadChar();
        assert [dot] == source[whole..whole + 1];
        extended := ReadWhile(IsDigit, extended + [dot]);
        SlicesJoin(source, old(position), whole, whole + 1);
        SlicesJoin(source, old(position), whole + 1, position);
      }
    }

    method ReadNumber() returns (token: Option<Token>)
      requires Valid() && position < |source|
      requires IsDigit(CurrentChar()) || (CurrentChar() == '-' && IsDigit(LookAheadChar()))
      modifies this
      ensures Valid()
      ensures NumberEnd(source, old(position)) == if token.Some? then Some(position) else None
      ensures token.Some? ==> token.value == Made(source, Number, old(position), position)
    {
      hide CursorAt, RadixEnd, DecimalEnd;
      var startLine, startColumn := line, column;
      var text := "";
      if CurrentChar() == '-' {
        var c := ReadChar();
        text := [c];
      }
      ghost var unsigned := position;
      assert text == source[old(position)..unsigned];
      var digits := None;
      if CurrentChar() == '0' && (LookAheadChar() == 'x' || LookAheadChar() == 'X') {
        digits := ReadRadix(IsHexDigit, text);
      } else if CurrentChar() == '0' && (LookAheadChar() == 'o' || LookAheadChar() == 'O') {
        digits := ReadRadix(IsOctalDigit, text);
      } else {
        var decimal := ReadDecimal(text);
        digits := Some(decimal);
      }
      if digits.None? {
        return None;
      }
      SlicesJoin(source, old(position), unsigned, position);
      token := Some(Token(Number, digits.value, startLine, startColumn));
    }

    method ReadString() returns (token: Option<Token>)
      requires Valid() && position < |source| && CurrentChar() == '"'
      modifies this
      ensures Valid()
      ensures StringEnd(source, old(position) + 1, false) == if token.Some? then Some(position) else None
      ensures token.Some? ==> token.value == Made(source, Quoted, old(position), position)
    {
      hide CursorAt;
      var startLine, startColumn := line, column;
      var c := ReadChar();
      var text := [c];
      var escaped := false;
      while position < |source|
        invariant Valid() && old(position) < position
        invariant text == source[old(position)..position]
        invariant StringEnd(source, position, escaped) == StringEnd(source, old(position) + 1, false)
        decreases |source| - position
      {
        c := ReadChar();
        SlicesJoin(source, old(position), position - 1, position);
        text := text + [c];
        if c == '"' && !escaped {
          return Some(Token(Quoted, text, startLine, startColumn));
        }
        escaped := c == '\\' && !escaped;
      }
      return None;
    }

    method ReadSpecialToken(kind: Kind) returns (token: Option<Token>)
      requires Valid() && position < |source|
      modifies this
      ensures Valid()
      ensures SpecialEnd(source, old(position), CharAt(source, old(position)) == '#')
           == if token.Some? then Some(position) else None
      ensures token.Some? ==> token.value == Made(source, kind, old(position), position)
    {
      hide CursorAt;
      var startLine, startColumn := line, column;
      var marker := ReadChar();
      var text := [marker];
      if !IsLetter(CurrentChar()) {
        return None;
      }
      while position < |source|
        invariant Valid() && old(position) < position
        invariant text == source[old(position)..position]
        invariant SpecialRun(source, position, marker == '#') == SpecialRun(source, old(position) + 1, marker == '#')
        decreases |source| - position
      {
        if IsLetterOrDigit(CurrentChar()) {
          var c := ReadChar();
          text := text + [c];
        } else if marker == '#' && CurrentChar() == '.' && IsLetter(LookAheadChar()) {
          var c := ReadChar();
          text := text + [c];
        } else {
          return Some(Token(kind, text, startLine, startColumn));
        }
      }
      token := Some(Token(kind, text, startLine, startColumn));
    }

    /** Reads the token that starts at the current position. */
    method ReadToken() returns (token: Option<Token>)
      requires Valid() && position < |source|
      modifies this
      ensures Valid()
      ensures match TokenAt(source, old(position))
        case None => token.None?
        case Some((kind, end)) => token == Some(Made(source, kind, old(position), end)) && position == end
    {
      hide CursorAt, NumberEnd, StringEnd, SpecialEnd;
      var c := CurrentChar();
      if IsLetter(c) {
        var identifier := ReadIdentifier();
        return Some(identifier);
      }
      if IsDigit(c) || (c == '-' && IsDigit(LookAheadChar())) {
        token := ReadNumber();
        return;
      }
      if c == '"' {
        token := ReadString();
        return;
      }
      if c == '%' {
        token := ReadSpecialToken(SpecialRegister);
        return;
      }
      if c == '#' {
        token := ReadSpecialToken(SpecialInstruction);
        return;
      }
      var startLine, startColumn := line, column;
      var _ := ReadChar();
      var kind := Punctuation(c);
      if kind.None? {
        return None;
      }
      assert [c] == source[old(position)..position];
      token := Some(Token(kind.value, [c], startLine, startColumn));
    }

    method Tokenize() returns (tokens: Option<seq<Token>>)
      requires Valid() && position == 0
      modifies this
      ensures tokens == Tokens(source, 0)
      ensures tokens.Some? ==> EndsOnce(tokens.value)
    {
      hide CursorAt, SpaceEnd, TokenAt;
      var read: seq<Token> := [];
      assert Continued(read, Tokens(source, 0)) == Tokens(source, 0) by {
        if Tokens(source, 0).Some? {
          assert read + Tokens(source, 0).value == Tokens(source, 0).value;
        }
      }
      while true
        invariant Valid() && Continued(read, Tokens(source, position)) == Tokens(source, 0)
        decreases |source| - position
      {
        var ok := SkipWhitespaceAndComments();
        if !ok {
          return None;
        }
        if position == |source| {
          read := read + [Token(EndOfFile, "", line, column)];
          assert source[position..position] == "";
          TokensEndOnce(source, 0);
          return Some(read);
        }
        var token := ReadToken();
        if token.None? {
          return None;
        }
        ContinuedStep(read, token.value, Tokens(source, position));
        read := read + [token.value];
      }
    }
  }
}
