/** The parser: a position that moves over a list of tokens. */
module Parser {
  import opened Wrappers
  import opened Ast
  import opened LexerRules
  import opened Literals
  import opened Grammar

  function Lexemes(tokens: seq<Token>): seq<Lexeme> {
    seq(|tokens|, i requires 0 <= i < |tokens| => Lexeme(tokens[i].kind, tokens[i].text))
  }

  /** A parser needs what the lexer delivers: an end-of-file token, last and nowhere else. Then every method
      stops, and moves past the tokens that the grammar gives it. */
  class Parser {
    const tokens: seq<Token>
    var position: nat

    ghost predicate Valid()
      reads this
    {
      EndsOnce(tokens) && position < |tokens|
    }

    ghost function Remaining(): Input
      requires Valid()
      reads this
    {
      Lexemes(tokens)[position..]
    }

    /** Whether a result and the new position are what the grammar says. */
    ghost predicate Agrees<T>(r: Option<T>, parsed: Parsed<T>)
      requires Valid()
      reads this
    {
      match parsed
      case Failure => r.None?
      case Success(value, rest) => r == Some(value) && Remaining() == rest
    }

    constructor (tokenList: seq<Token>)
      requires EndsOnce(tokenList)
      ensures Valid() && tokens == tokenList && position == 0
      ensures Remaining() == Lexemes(tokenList)
    {
      tokens := tokenList;
      position := 0;
      new;
      assert Lexemes(tokens)[0..] == Lexemes(tokens);
    }

    // ---- Tokens ----

    function LookAheadToken(n: nat): (token: Lexeme)
      requires Valid()
      reads this
      ensures token == Ahead(Remaining(), n)
    {
      var token := tokens[if position + n < |tokens| then position + n else |tokens| - 1];
      Lexeme(token.kind, token.text)
    }

    function Check(kind: Kind): (b: bool)
      requires Valid()
      reads this
      ensures b <==> Is(Remaining(), kind)
    {
      LookAheadToken(0).kind == kind
    }

    function CheckKeyword(text: string): (b: bool)
      requires Valid()
      reads this
      ensures b <==> IsWord(Remaining(), text)
    {
      LookAheadToken(0) == Lexeme(Identifier, text)
    }

    /** Moves on, except at the last token. */
    method ConsumeToken() returns (token: Lexeme)
      requires Valid()
      modifies this
      ensures Valid() && token == old(Remaining())[0]
      ensures Remaining() == if |old(Remaining())| > 1 then old(Remaining())[1..] else old(Remaining())
    {
      token := LookAheadToken(0);
      if position + 1 < |tokens| {
        position := position + 1;
      }
    }

    method ExpectToken(kind: Kind) returns (r: Option<string>)
      requires Valid() && kind != EndOfFile
      modifies this
      ensures Valid() && Agrees(r, Expect(old(Remaining()), kind))
    {
      hide IsReserved;
      if !Check(kind) {
        return None;
      }
      if kind == Identifier && IsReserved(LookAheadToken(0).text) {
        return None;
      }
      var token := ConsumeToken();
      r := Some(token.text);
    }

    method ExpectIndexNumber() returns (r: Option<nat>)
      requires Valid()
      modifies this
      ensures Valid() && Agrees(r, ExpectIndex(old(Remaining())))
    {
      hide IndexValue;
      if !Check(Number) {
        return None;
      }
      var token := ConsumeToken();
      r := ReadIndexNumber(token.text);
    }

    // ---- Types, registers and values ----

    method ReadType() returns (r: Option<TypeNode>)
      requires Valid()
      modifies this
      ensures Valid() && Agrees(r, ParseType(old(Remaining())))
    {
      hide ParseStars, ParseView, ParseAlignment, Expect;
      var t := ReadQualifiers();
      if t.None? {
        return None;
      }
      var base := ExpectToken(Identifier);
      if base.None? {
        return None;
      }
      t := ReadStarsAndView(t.value.(base := base.value));
      if t.None? {
        return None;
      }
      r := ReadAlignment(t.value);
    }

    method ReadQualifiers() returns (r: Option<TypeNode>)
      requires Valid()
      modifies this
      ensures Valid() && Agrees(r, ParseQualifiers(old(Remaining()), BARE))
    {
      var t := BARE;
      while CheckKeyword("const") || CheckKeyword("volatile")
        invariant Valid() && ParseQualifiers(Remaining(), t) == ParseQualifiers(old(Remaining()), BARE)
        decreases |Remaining()|
      {
        if CheckKeyword("const") {
          if t.isConst {
            return None;
          }
          t := t.(isConst := true);
        } else {
          if t.isVolatile {
            return None;
          }
          t := t.(isVolatile := true);
        }
        var _ := ConsumeToken();
      }
      r := Some(t);
    }

    method ReadStarsAndView(t: TypeNode) returns (r: Option<TypeNode>)
      requires Valid()
      modifies this
      ensures Valid()
      ensures var stars := ParseStars(old(Remaining()), t); Agrees(r, ParseView(stars.rest, stars.value))
    {
      var typ := t;
      while Check(Star)
        invariant Valid() && ParseStars(Remaining(), typ) == ParseStars(old(Remaining()), t)
        decreases |Remaining()|
      {
        var _ := ConsumeToken();
        typ := typ.(pointers := typ.pointers + 1);
      }
      if Check(LeftBracket) && LookAheadToken(1).kind == RightBracket {
        var _ := ConsumeToken();
        var _ := ConsumeToken();
        if Check(Star) {
          return None;
        }
        typ := typ.(isView := true);
      }
      r := Some(typ);
    }

    method ReadAlignment(t: TypeNode) returns (r: Option<TypeNode>)
      requires Valid()
      modifies this
      ensures Valid() && Agrees(r, ParseAlignment(old(Remaining()), t))
    {
      hide ExpectIndex;
      if !Check(Colon) {
        return Some(t);
      }
      var _ := ConsumeToken();
      var alignment := ExpectIndexNumber();
      if alignment.None? {
        return None;
      }
      r := Some(t.(alignment := alignment));
    }

    method ReadRegister() returns (r: Option<Register>)
      requires Valid()
      modifies this
      ensures Valid() && Agrees(r, ParseRegister(old(Remaining())))
    {
      hide Expect, ExpectIndex;
      var name := ExpectToken(Identifier);
      if name.None? {
        return None;
      }
      var accessors := [];
      ghost var start := Remaining();
      while Check(LeftBracket) || Check(Dot)
        invariant Valid() && ParseAccessors(Remaining(), accessors) == ParseAccessors(start, [])
        decreases |Remaining()|
      {
        if Check(LeftBracket) {
          var _ := ConsumeToken();
          var index := ExpectIndexNumber();
          if index.None? {
            return None;
          }
          var close := ExpectToken(RightBracket);
          if close.None? {
            return None;
          }
          accessors := accessors + [Index(index.value)];
        } else {
          var _ := ConsumeToken();
          var field := ExpectToken(Identifier);
          if field.None? {
            return None;
          }
          accessors := accessors + [Field(field.value)];
        }
      }
      r := Some(Register(name.value, accessors));
    }

    method ReadNumberValue(text: string) returns (r: Option<Value>)
      ensures r == NumberValue(text)
    {
      hide IntegerValue;
      var unsigned := if IsNegative(text) then text[1..] else text;
      var isHex := HasPrefix(unsigned, 'x', 'X');
      var isOctal := HasPrefix(unsigned, 'o', 'O');
      if !isHex && !isOctal && '.' in text {
        return Some(Floating(text));
      }
      var n := ParseSignedIntegerLiteral(text);
      if n.None? {
        return None;
      }
      r := Some(Integer(n.value));
    }

    method ReadStringValue(text: string) returns (r: Option<string>)
      ensures r == StringValue(text)
    {
      hide Decode;
      if |text| < 2 {
        return None;
      }
      var decoding := DecodeStringEscapes(text);
      r := if decoding.Decoded? then Some(decoding.content) else None;
    }

    method ReadValue() returns (r: Option<Value>)
      requires Valid()
      modifies this
      ensures Valid() && Agrees(r, ParseValue(old(Remaining())))
      decreases |Remaining()|, 0
    {
      hide NumberValue, StringValue, ParseRegister, Expect;
      var token := LookAheadToken(0);
      if token.kind == Number {
        var _ := ConsumeToken();
        r := ReadNumberValue(token.text);
        return;
      }
      if token.kind == Quoted {
        var _ := ConsumeToken();
        var content := ReadStringValue(token.text);
        return if content.None? then None else Some(Text(content.value));
      }
      if token.kind == SpecialRegister {
        var _ := ConsumeToken();
        return Some(Special(Unmarked(token.text)));
      }
      if token.kind == LeftBracket {
        r := ReadArray();
        return;
      }
      if token.kind == Identifier {
        if token.text == "true" || token.text == "false" {
          var _ := ConsumeToken();
          return Some(Truth(token.text == "true"));
        }
        if token.text == "null" || token.text == "nullptr" {
          var _ := ConsumeToken();
          return Some(Null);
        }
        var reg := ReadRegister();
        return if reg.None? then None else Some(Named(reg.value));
      }
      return None;
    }

    method ReadArray() returns (r: Option<Value>)
      requires Valid() && Is(Remaining(), LeftBracket)
      modifies this
      ensures Valid() && Agrees(r, ParseValue(old(Remaining())))
      decreases |Remaining()|, -1
    {
      hide NumberValue, StringValue, ParseRegister;
      var _ := ConsumeToken();
      var items := [];
      if !Check(RightBracket) {
        ghost var inside := Remaining();
        var item := ReadValue();
        if item.None? {
          return None;
        }
        items := [item.value];
        ghost var start := Remaining();
        while Check(Comma)
          invariant Valid() && |Remaining()| < |old(Remaining())|
          invariant ParseMoreItems(Remaining(), items) == ParseMoreItems(start, [item.value])
          decreases |Remaining()|
        {
          var _ := ConsumeToken();
          var next := ReadValue();
          if next.None? {
            return None;
          }
          items := items + [next.value];
        }
      }
      var close := ExpectToken(RightBracket);
      if close.None? {
        return None;
      }
      r := Some(Array(items));
    }

    // ---- Commands ----

    method ReadInstruction() returns (r: Option<Instruction>)
      requires Valid()
      modifies this
      ensures Valid() && Agrees(r, ParseInstruction(old(Remaining())))
    {
      hide IsInstructionName;
      if Check(SpecialInstruction) {
        var token := ConsumeToken();
        return Some(Instruction(Unmarked(token.text), true));
      }
      if StartsInstruction(LookAheadToken(0)) {
        var token := ConsumeToken();
        return Some(Instruction(token.text, false));
      }
      return None;
    }

    method ReadOperands() returns (r: Option<seq<Value>>)
      requires Valid()
      modifies this
      ensures Valid() && Agrees(r, ParseOperands(old(Remaining()), []))
    {
      hide ParseValue;
      var values := [];
      while !Check(Semicolon)
        invariant Valid() && ParseOperands(Remaining(), values) == ParseOperands(old(Remaining()), [])
        decreases |Remaining()|
      {
        var value := ReadValue();
        if value.None? {
          return None;
        }
        values := values + [value.value];
      }
      r := Some(values);
    }

    /** Skips the word `volatile` if an instruction follows it. */
    method ReadVolatile() returns (volatileAccess: bool)
      requires Valid()
      modifies this
      ensures Valid() && volatileAccess == StartsVolatileAccess(old(Remaining()))
      ensures Remaining() == SkipVolatile(old(Remaining()))
    {
      hide StartsInstruction;
      volatileAccess := CheckKeyword("volatile") && StartsInstruction(LookAheadToken(1));
      if volatileAccess {
        var _ := ConsumeToken();
      }
    }

    method ReadTarget() returns (r: Option<(Option<TypeNode>, Target)>)
      requires Valid()
      modifies this
      ensures Valid() && Agrees(r, ParseTarget(old(Remaining())))
    {
      hide ParseType, ParseRegister, IsReserved, StartsInstruction;
      if Check(SpecialRegister) {
        var token := ConsumeToken();
        return Some((None, SpecialTarget(Unmarked(token.text))));
      }
      if StartsInstruction(LookAheadToken(0)) {
        return Some((None, NoTarget));
      }
      if !Check(Identifier) {
        return None;
      }
      var next, second := LookAheadToken(1).kind, LookAheadToken(2).kind;
      var startsDeclaration := next == Identifier || next == Star || next == Colon
        || (next == LeftBracket && second == RightBracket);
      var startsAssignment := next == Equals || next == LeftBracket || next == Dot;
      var declared := None;
      if startsDeclaration {
        declared := ReadType();
        if declared.None? {
          return None;
        }
      } else if !startsAssignment || IsReserved(LookAheadToken(0).text) {
        return None;
      }
      var reg := ReadRegister();
      if reg.None? {
        return None;
      }
      r := Some((declared, RegisterTarget(reg.value)));
    }

    method ReadBody() returns (r: Option<(Option<Instruction>, seq<Value>)>)
      requires Valid()
      modifies this
      ensures Valid() && Agrees(r, ParseBody(old(Remaining())))
    {
      hide ParseInstruction, ParseOperands, ParseValue, StartsInstruction;
      if StartsInstruction(LookAheadToken(0)) {
        var instruction := ReadInstruction();
        if instruction.None? {
          return None;
        }
        var values := ReadOperands();
        return if values.None? then None else Some((instruction, values.value));
      }
      if Check(Semicolon) {
        return Some((None, []));
      }
      var value := ReadValue();
      return if value.None? then None else Some((None, [value.value]));
    }

    method ReadAction(volatileAccess: bool, declared: Option<TypeNode>, target: Target) returns (r: Option<Command>)
      requires Valid()
      modifies this
      ensures Valid() && Agrees(r, ParseAction(old(Remaining()), volatileAccess, declared, target))
    {
      hide ParseBody, Expect, SkipVolatile, StartsVolatileAccess;
      var isVolatile, instruction, values := volatileAccess, None, [];
      if !(declared.Some? && Check(Semicolon)) {
        if !target.NoTarget? {
          var equals := ExpectToken(Equals);
          if equals.None? {
            return None;
          }
        }
        var again := ReadVolatile();
        isVolatile := volatileAccess || again;
        var body := ReadBody();
        if body.None? {
          return None;
        }
        instruction, values := body.value.0, body.value.1;
        var semicolon := ExpectToken(Semicolon);
        if semicolon.None? {
          return None;
        }
      } else {
        var _ := ConsumeToken();
      }
      r := Some(Command(isVolatile, declared, target, instruction, values));
    }

    method ReadCommand() returns (r: Option<Command>)
      requires Valid()
      modifies this
      ensures Valid() && Agrees(r, ParseCommand(old(Remaining())))
    {
      hide ParseTarget, ParseAction, SkipVolatile, StartsVolatileAccess;
      if Check(Semicolon) {
        var _ := ConsumeToken();
        return Some(EMPTY_COMMAND);
      }
      var volatileAccess := ReadVolatile();
      var target := ReadTarget();
      if target.None? {
        return None;
      }
      r := ReadAction(volatileAccess, target.value.0, target.value.1);
    }

    method ReadBlock() returns (r: Option<seq<Command>>)
      requires Valid()
      modifies this
      ensures Valid() && Agrees(r, ParseBlock(old(Remaining())))
    {
      hide ParseCommand, Expect;
      var open := ExpectToken(LeftBrace);
      if open.None? {
        return None;
      }
      var commands := [];
      ghost var start := Remaining();
      while !Check(RightBrace)
        invariant Valid() && ParseCommands(Remaining(), commands) == ParseCommands(start, [])
        decreases |Remaining()|
      {
        var command := ReadCommand();
        if command.None? {
          return None;
        }
        commands := commands + [command.value];
      }
      var close := ExpectToken(RightBrace);
      if close.None? {
        return None;
      }
      r := Some(commands);
    }

    // ---- Declarations ----

    method ReadArgument() returns (r: Option<Argument>)
      requires Valid()
      modifies this
      ensures Valid() && Agrees(r, ParseArgument(old(Remaining())))
    {
      hide ParseType, Expect;
      var t := ReadType();
      if t.None? {
        return None;
      }
      var name := ExpectToken(Identifier);
      if name.None? {
        return None;
      }
      r := Some(Argument(t.value, name.value));
    }

    method ReadSeparator() returns (r: Option<()>)
      requires Valid()
      modifies this
      ensures Valid() && Agrees(r, SkipSeparator(old(Remaining())))
    {
      if Check(Semicolon) {
        var _ := ConsumeToken();
      } else if !Check(RightBrace) && !(Check(Identifier) || Check(SpecialRegister)) {
        return None;
      }
      r := Some(());
    }

    method ReadStruct() returns (r: Option<Declaration>)
      requires Valid()
      modifies this
      ensures Valid() && Agrees(r, ParseStruct(old(Remaining())))
    {
      hide ParseType, Expect, ParseArgument, SkipSeparator;
      var t := ReadType();
      if t.None? {
        return None;
      }
      var open := ExpectToken(LeftBrace);
      if open.None? {
        return None;
      }
      var fields := [];
      ghost var start := Remaining();
      while !Check(RightBrace)
        invariant Valid() && ParseFields(Remaining(), fields) == ParseFields(start, [])
        decreases |Remaining()|
      {
        var field := ReadArgument();
        if field.None? {
          return None;
        }
        var separator := ReadSeparator();
        if separator.None? {
          return None;
        }
        fields := fields + [field.value];
      }
      var close := ExpectToken(RightBrace);
      if close.None? {
        return None;
      }
      r := Some(Struct(t.value, fields));
    }

    method ReadFunc() returns (r: Option<Declaration>)
      requires Valid()
      modifies this
      ensures Valid() && Agrees(r, ParseFunc(old(Remaining())))
    {
      hide ParseArgument, ParseBlock;
      var head := ReadArgument();
      if head.None? {
        return None;
      }
      var args := [];
      ghost var start := Remaining();
      while !Check(LeftBrace) && !Check(Semicolon)
        invariant Valid() && ParseArguments(Remaining(), args) == ParseArguments(start, [])
        decreases |Remaining()|
      {
        var arg := ReadArgument();
        if arg.None? {
          return None;
        }
        args := args + [arg.value];
      }
      if Check(Semicolon) {
        var _ := ConsumeToken();
        return Some(Func(head.value.typ, head.value.name, args, None));
      }
      var body := ReadBlock();
      return if body.None? then None else Some(Func(head.value.typ, head.value.name, args, body));
    }

    method ReadDefinition() returns (r: Option<(Argument, Value)>)
      requires Valid()
      modifies this
      ensures Valid() && Agrees(r, ParseDefinition(old(Remaining())))
    {
      hide ParseArgument, Expect, ParseValue;
      var head := ReadArgument();
      if head.None? {
        return None;
      }
      var equals := ExpectToken(Equals);
      if equals.None? {
        return None;
      }
      var value := ReadValue();
      if value.None? {
        return None;
      }
      var semicolon := ExpectToken(Semicolon);
      if semicolon.None? {
        return None;
      }
      r := Some((head.value, value.value));
    }

    method ReadEntry() returns (r: Option<Declaration>)
      requires Valid()
      modifies this
      ensures Valid() && Agrees(r, ParseEntry(old(Remaining())))
    {
      hide Expect, ParseBlock;
      var name := ExpectToken(Identifier);
      if name.None? {
        return None;
      }
      var body := ReadBlock();
      return if body.None? then None else Some(Entry(name.value, body.value));
    }

    method ReadDeclaration() returns (r: Option<Declaration>)
      requires Valid()
      modifies this
      ensures Valid() && Agrees(r, ParseDeclaration(old(Remaining())))
    {
      hide ParseEntry, ParseStruct, ParseFunc, ParseDefinition;
      if CheckKeyword("entry") {
        var _ := ConsumeToken();
        r := ReadEntry();
      } else if CheckKeyword("struct") {
        var _ := ConsumeToken();
        r := ReadStruct();
      } else if CheckKeyword("func") {
        var _ := ConsumeToken();
        r := ReadFunc();
      } else if CheckKeyword("const") {
        var _ := ConsumeToken();
        var definition := ReadDefinition();
        if definition.None? {
          return None;
        }
        var (head, value) := definition.value;
        r := Some(Constant(head.typ.(isConst := true), head.name, value));
      } else {
        var definition := ReadDefinition();
        if definition.None? {
          return None;
        }
        var (head, value) := definition.value;
        r := Some(Global(head.typ, head.name, value));
      }
    }

    /** Every list of tokens from the lexer is parsed to the end or rejected; success ends at the end of file. */
    method ReadProgram() returns (r: Option<seq<Declaration>>)
      requires Valid()
      modifies this
      ensures Valid() && r == ParseProgram(old(Remaining()), [])
      ensures r.Some? ==> position == |tokens| - 1
    {
      hide ParseDeclaration;
      var declarations := [];
      while !Check(EndOfFile)
        invariant Valid() && ParseProgram(Remaining(), declarations) == ParseProgram(old(Remaining()), [])
        decreases |Remaining()|
      {
        var declaration := ReadDeclaration();
        if declaration.None? {
          return None;
        }
        declarations := declarations + [declaration.value];
      }
      r := Some(declarations);
    }
  }
}
