/** Writing a syntax tree as tokens, and the proof that parsing undoes it. */
module Printing {
  import opened Wrappers
  import opened Ast
  import opened LexerRules
  import opened Literals
  import opened Grammar

  // ---- Printing in front of the tokens that follow ----

  function Put(kind: Kind, text: string, rest: Input): Input
    requires kind != EndOfFile
  {
    [Lexeme(kind, text)] + rest
  }

  function PutWord(text: string, rest: Input): Input {
    Put(Identifier, text, rest)
  }

  function PutStars(n: nat, rest: Input): Input {
    if n == 0 then rest else Put(Star, "*", PutStars(n - 1, rest))
  }

  function PutAlignment(alignment: Option<nat>, rest: Input): Input {
    match alignment
    case None => rest
    case Some(n) => Put(Colon, ":", Put(Number, Digits(n, 10), rest))
  }

  function PutView(isView: bool, rest: Input): Input {
    if isView then Put(LeftBracket, "[", Put(RightBracket, "]", rest)) else rest
  }

  function PutType(t: TypeNode, rest: Input): Input {
    var named := PutWord(t.base, PutStars(t.pointers, PutView(t.isView, PutAlignment(t.alignment, rest))));
    var qualified := if t.isConst then PutWord("const", named) else named;
    if t.isVolatile then PutWord("volatile", qualified) else qualified
  }

  function PutAccessor(a: Accessor, rest: Input): Input {
    match a
    case Index(n) => Put(LeftBracket, "[", Put(Number, Digits(n, 10), Put(RightBracket, "]", rest)))
    case Field(name) => Put(Dot, ".", PutWord(name, rest))
  }

  function PutAccessors(accessors: seq<Accessor>, rest: Input): Input {
    if accessors == [] then rest else PutAccessor(accessors[0], PutAccessors(accessors[1..], rest))
  }

  function PutRegister(reg: Register, rest: Input): Input {
    PutWord(reg.name, PutAccessors(reg.accessors, rest))
  }

  function EscapeStyles(content: string): (styles: seq<Style>)
    ensures CanSpell(content, styles)
  {
    if content == "" then []
    else
      [if content[0] == '"' || content[0] == '\\' then Lettered(content[0]) else Raw] + EscapeStyles(content[1..])
  }

  function QuotedText(content: string): string {
    "\"" + Escaped(content, EscapeStyles(content)) + "\""
  }

  function PutValue(v: Value, rest: Input): Input
    decreases v, 0
  {
    match v
    case Integer(n) => Put(Number, Literal(n, 10), rest)
    case Floating(spelling) => Put(Number, spelling, rest)
    case Text(content) => Put(Quoted, QuotedText(content), rest)
    case Named(reg) => PutRegister(reg, rest)
    case Array(items) => Put(LeftBracket, "[", PutItems(items, Put(RightBracket, "]", rest)))
    case Special(name) => Put(SpecialRegister, "%" + name, rest)
    case Truth(flag) => PutWord(if flag then "true" else "false", rest)
    case Null => PutWord("null", rest)
  }

  function PutItems(items: seq<Value>, rest: Input): Input
    decreases items, 1
  {
    if items == [] then rest else PutValue(items[0], PutMoreItems(items[1..], rest))
  }

  function PutMoreItems(items: seq<Value>, rest: Input): Input
    decreases items, 1
  {
    if items == [] then rest else Put(Comma, ",", PutValue(items[0], PutMoreItems(items[1..], rest)))
  }

  function PutOperands(values: seq<Value>, rest: Input): Input {
    if values == [] then rest else PutValue(values[0], PutOperands(values[1..], rest))
  }

  function PutInstruction(i: Instruction, rest: Input): Input {
    if i.isSpecial then Put(SpecialInstruction, "#" + i.name, rest) else PutWord(i.name, rest)
  }

  function PutBody(c: Command, rest: Input): Input {
    if c.instruction.None? then PutOperands(c.values, rest)
    else
      var body := PutInstruction(c.instruction.value, PutOperands(c.values, rest));
      if c.volatileAccess then PutWord("volatile", body) else body
  }

  function PutTarget(declared: Option<TypeNode>, target: Target, rest: Input): Input {
    match target
    case NoTarget => rest
    case SpecialTarget(name) => Put(SpecialRegister, "%" + name, rest)
    case RegisterTarget(reg) =>
      if declared.None? then PutRegister(reg, rest) else PutType(declared.value, PutRegister(reg, rest))
  }

  predicate NoInitializer(c: Command) {
    c.declared.Some? && c.instruction.None? && c.values == []
  }

  function PutCommand(c: Command, rest: Input): Input {
    var end := Put(Semicolon, ";", rest);
    if c == EMPTY_COMMAND then end
    else if c.target.NoTarget? then PutBody(c, end)
    else if NoInitializer(c) then PutTarget(c.declared, c.target, end)
    else PutTarget(c.declared, c.target, Put(Equals, "=", PutBody(c, end)))
  }

  function PutCommands(commands: seq<Command>, rest: Input): Input {
    if commands == [] then rest else PutCommand(commands[0], PutCommands(commands[1..], rest))
  }

  function PutBlock(commands: seq<Command>, rest: Input): Input {
    Put(LeftBrace, "{", PutCommands(commands, Put(RightBrace, "}", rest)))
  }

  function PutArgument(arg: Argument, rest: Input): Input {
    PutType(arg.typ, PutWord(arg.name, rest))
  }

  function PutArguments(args: seq<Argument>, rest: Input): Input {
    if args == [] then rest else PutArgument(args[0], PutArguments(args[1..], rest))
  }

  function PutFields(fields: seq<Argument>, rest: Input): Input {
    if fields == [] then rest else PutArgument(fields[0], Put(Semicolon, ";", PutFields(fields[1..], rest)))
  }

  function PutDefinition(head: Argument, value: Value, rest: Input): Input {
    PutArgument(head, Put(Equals, "=", PutValue(value, Put(Semicolon, ";", rest))))
  }

  function PutDeclaration(d: Declaration, rest: Input): Input {
    match d
    case Entry(name, block) => PutWord("entry", PutWord(name, PutBlock(block, rest)))
    case Struct(t, fields) =>
      PutWord("struct", PutType(t, Put(LeftBrace, "{", PutFields(fields, Put(RightBrace, "}", rest)))))
    case Func(t, name, args, body) =>
      PutWord("func", PutArgument(Argument(t, name), PutArguments(args,
        if body.None? then Put(Semicolon, ";", rest) else PutBlock(body.value, rest))))
    case Global(t, name, value) => PutDefinition(Argument(t, name), value, rest)
    case Constant(t, name, value) =>
      PutWord("const", PutDefinition(Argument(t.(isConst := false), name), value, rest))
  }

  function PutProgram(declarations: seq<Declaration>): Input {
    if declarations == [] then [END] else PutDeclaration(declarations[0], PutProgram(declarations[1..]))
  }

  // ---- Trees that have a printed form ----

  predicate LegalName(name: string) {
    !IsReserved(name)
  }

  predicate LegalType(t: TypeNode) {
    LegalName(t.base) && (t.alignment.Some? ==> t.alignment.value <= MAX_INDEX)
  }

  predicate LegalAccessor(a: Accessor) {
    match a
    case Index(n) => n <= MAX_INDEX
    case Field(name) => LegalName(name)
  }

  predicate LegalRegister(reg: Register) {
    LegalName(reg.name) && forall k :: 0 <= k < |reg.accessors| ==> LegalAccessor(reg.accessors[k])
  }

  predicate LegalValue(v: Value) {
    match v
    case Integer(n) => Signed64(n).Some?
    case Floating(spelling) => NumberValue(spelling) == Some(v)
    case Named(reg) => LegalRegister(reg)
    case Array(items) => forall item <- items :: LegalValue(item)
    case _ => true
  }

  predicate LegalInstruction(i: Instruction) {
    i.isSpecial || IsInstructionName(i.name)
  }

  /** An array right after a register would read as an index. */
  predicate LegalOperands(values: seq<Value>) {
    && (forall v <- values :: LegalValue(v))
    && (forall k :: 0 < k < |values| ==> !(values[k - 1].Named? && values[k].Array?))
  }

  predicate LegalCommand(c: Command) {
    || c == EMPTY_COMMAND
    || (&& LegalOperands(c.values)
        && (if c.instruction.Some? then LegalInstruction(c.instruction.value)
            else |c.values| <= 1 && !c.volatileAccess
                 && forall v <- c.values :: v.Named? ==> !IsInstructionName(v.register.name))
        && LegalTarget(c))
  }

  predicate LegalTarget(c: Command) {
    match c.target
    case NoTarget => c.declared.None? && c.instruction.Some?
    case SpecialTarget(_) => c.declared.None?
    case RegisterTarget(reg) =>
      && LegalRegister(reg)
      && (if c.declared.None? then !IsInstructionName(reg.name)
          else LegalType(c.declared.value) && (IsInstructionName(c.declared.value.base) ==> c.declared.value.isConst))
  }

  predicate LegalCommands(commands: seq<Command>) {
    forall c <- commands :: LegalCommand(c)
  }

  predicate LegalArguments(args: seq<Argument>) {
    forall a <- args :: LegalType(a.typ) && LegalName(a.name)
  }

  predicate LegalDeclaration(d: Declaration) {
    match d
    case Entry(name, block) => LegalName(name) && LegalCommands(block)
    case Struct(t, fields) => LegalType(t) && LegalArguments(fields)
    case Func(t, name, args, body) =>
      LegalType(t) && LegalName(name) && LegalArguments(args) && (body.Some? ==> LegalCommands(body.value))
    case Global(t, name, value) =>
      && LegalType(t) && LegalName(name) && LegalValue(value)
      && (t.isConst || t.base in ["entry", "struct", "func"] ==> t.isVolatile)
    case Constant(t, name, value) => LegalType(t) && LegalName(name) && LegalValue(value) && t.isConst
  }

  predicate LegalProgram(declarations: seq<Declaration>) {
    forall d <- declarations :: LegalDeclaration(d)
  }

  // ---- Parsing undoes printing ----

  /** A type is followed by a name or an opening brace. */
  predicate FollowsType(rest: Input) {
    Is(rest, Identifier) || Is(rest, LeftBrace)
  }

  predicate FollowsRegister(rest: Input) {
    !Is(rest, LeftBracket) && !Is(rest, Dot)
  }

  lemma {:induction false} StarsUndone(t: TypeNode, n: nat, rest: Input)
    requires !Is(rest, Star)
    ensures ParseStars(PutStars(n, rest), t) == Success(t.(pointers := t.pointers + n), rest)
    decreases n
  {
    if n > 0 {
      StarsUndone(t.(pointers := t.pointers + 1), n - 1, rest);
    }
  }

  lemma AlignmentUndone(t: TypeNode, alignment: Option<nat>, rest: Input)
    requires FollowsType(rest) && t.alignment.None? && (alignment.Some? ==> alignment.value <= MAX_INDEX)
    ensures ParseAlignment(PutAlignment(alignment, rest), t) == Success(t.(alignment := alignment), rest)
    ensures !Is(PutAlignment(alignment, rest), Star) && !Is(PutAlignment(alignment, rest), LeftBracket)
  {
    if alignment.Some? {
      IndexReads(alignment.value);
    }
  }

  lemma TypeUndone(t: TypeNode, rest: Input)
    requires LegalType(t) && FollowsType(rest)
    ensures ParseType(PutType(t, rest)) == Success(t, rest)
  {
    hide PutStars, PutAlignment, ParseStars, ParseAlignment, IsReserved;
    var q := BARE.(isConst := t.isConst, isVolatile := t.isVolatile);
    var aligned := PutAlignment(t.alignment, rest);
    var viewed := PutView(t.isView, aligned);
    var named := PutWord(t.base, PutStars(t.pointers, viewed));
    QualifiersUndone(t, named);
    var bare := q.(base := t.base, pointers := t.pointers, isView := t.isView);
    AlignmentUndone(bare, t.alignment, rest);
    StarsUndone(q.(base := t.base), t.pointers, viewed);
  }

  lemma QualifiersUndone(t: TypeNode, named: Input)
    requires LegalName(t.base) && Is(named, Identifier) && named[0].text == t.base
    ensures var qualified := if t.isConst then PutWord("const", named) else named;
      ParseQualifiers(if t.isVolatile then PutWord("volatile", qualified) else qualified, BARE)
      == Success(BARE.(isConst := t.isConst, isVolatile := t.isVolatile), named)
  {
    assert !IsWord(named, "const") && !IsWord(named, "volatile");
    var expected := BARE.(isConst := t.isConst, isVolatile := t.isVolatile);
    assert ParseQualifiers(named, expected) == Success(expected, named);
    hide IsReserved;
    var qualified := if t.isConst then PutWord("const", named) else named;
    assert ParseQualifiers(qualified, BARE.(isVolatile := t.isVolatile)) == Success(expected, named);
  }

  lemma AccessorUndone(before: seq<Accessor>, a: Accessor, rest: Input)
    requires LegalAccessor(a)
    ensures ParseAccessors(PutAccessor(a, rest), before) == ParseAccessors(rest, before + [a])
  {
    hide IndexValue, Digits, IsReserved;
    if a.Index? {
      IndexReads(a.index);
    }
  }

  lemma NoMoreAccessors(before: seq<Accessor>, rest: Input)
    requires FollowsRegister(rest)
    ensures ParseAccessors(rest, before) == Success(before, rest)
  {
  }

  lemma {:induction false} AccessorsUndone(before: seq<Accessor>, accessors: seq<Accessor>, rest: Input)
    requires FollowsRegister(rest) && forall k :: 0 <= k < |accessors| ==> LegalAccessor(accessors[k])
    ensures ParseAccessors(PutAccessors(accessors, rest), before) == Success(before + accessors, rest)
    decreases accessors
  {
    hide PutAccessor, LegalAccessor, ParseAccessors;
    if accessors == [] {
      NoMoreAccessors(before, rest);
      assert before + accessors == before;
    } else {
      AccessorUndone(before, accessors[0], PutAccessors(accessors[1..], rest));
      AccessorsUndone(before + [accessors[0]], accessors[1..], rest);
      assert before + [accessors[0]] + accessors[1..] == before + accessors;
    }
  }

  lemma RegisterUndone(reg: Register, rest: Input)
    requires LegalRegister(reg) && FollowsRegister(rest)
    ensures ParseRegister(PutRegister(reg, rest)) == Success(reg, rest)
  {
    hide PutAccessors, ParseAccessors, IsReserved;
    AccessorsUndone([], reg.accessors, rest);
    assert [] + reg.accessors == reg.accessors;
  }

  lemma StringUndone(content: string)
    ensures StringValue(QuotedText(content)) == Some(content)
  {
    hide Decode, Escaped;
    var styles := EscapeStyles(content);
    EscapedReads(content, styles);
    assert QuotedText(content)[1..|QuotedText(content)| - 1] == Escaped(content, styles);
  }

  /** An integer in any base is no float, and is rejected exactly when it does not fit 64 bits. */
  lemma NumberUndone(n: int, base: nat)
    requires base == 8 || base == 10 || base == 16
    ensures NumberValue(Literal(n, base)) == if Signed64(n).Some? then Some(Integer(n)) else None
  {
    hide Digits, IntegerValue;
    LiteralReads(n, base);
    var magnitude := if n < 0 then -n else n;
    UnsignedLiteral(magnitude, base);
    var text := Literal(n, base);
    var digits := Digits(magnitude, base);
    var unsigned := Prefix(base) + digits;
    if n < 0 {
      assert text[1..] == unsigned;
    } else {
      assert text == unsigned;
    }
    if base == 10 {
      assert unsigned == digits;
      forall c | c in text
        ensures c != '.'
      {
        if c in digits {
          var k :| 0 <= k < |digits| && digits[k] == c;
          DigitsAreDigits(magnitude, 10, k);
        }
      }
    } else {
      assert unsigned[..2] == Prefix(base);
      assert HasPrefix(unsigned, 'x', 'X') || HasPrefix(unsigned, 'o', 'O');
    }
  }

  lemma IntegerUndone(n: int)
    requires Signed64(n).Some?
    ensures NumberValue(Literal(n, 10)) == Some(Integer(n))
  {
    NumberUndone(n, 10);
  }

  /** The six reserved words are constants or qualifiers and never name anything. */
  lemma ReservedWordsParse(word: string, rest: Input)
    requires word in ["true", "false", "null", "nullptr", "const", "volatile"]
    ensures ParseRegister(PutWord(word, rest)) == Failure && Expect(PutWord(word, rest), Identifier) == Failure
    ensures ParseValue(PutWord(word, rest))
         == if word == "true" || word == "false" then Success(Truth(word == "true"), rest)
            else if word == "null" || word == "nullptr" then Success(Null, rest)
            else Failure
  {
  }

  predicate FollowsValue(v: Value, rest: Input) {
    v.Named? ==> FollowsRegister(rest)
  }

  lemma {:induction false} ValueUndone(v: Value, rest: Input)
    requires LegalValue(v) && FollowsValue(v, rest)
    ensures ParseValue(PutValue(v, rest)) == Success(v, rest)
    decreases v, 0
  {
    hide NumberValue, StringValue, Literal, QuotedText, PutRegister, ParseRegister, PutItems, ParseMoreItems,
         LegalRegister;
    match v {
      case Integer(n) => IntegerUndone(n);
      case Floating(_) =>
      case Text(content) => StringUndone(content);
      case Named(reg) => NamedUndone(reg, rest);
      case Array(items) => ArrayUndone(items, rest);
      case Special(name) => assert ("%" + name)[1..] == name;
      case Truth(_) =>
      case Null =>
    }
  }

  lemma NamedUndone(reg: Register, rest: Input)
    requires LegalRegister(reg) && FollowsRegister(rest)
    ensures ParseValue(PutRegister(reg, rest)) == Success(Named(reg), rest)
  {
    hide ParseRegister, PutAccessors, StringValue, NumberValue;
    RegisterUndone(reg, rest);
  }

  /** The first token of a value never closes or separates anything. */
  lemma ValueStart(v: Value, rest: Input)
    ensures PutValue(v, rest)[0].kind in [Number, Quoted, Identifier, LeftBracket, SpecialRegister]
    ensures !v.Array? ==> FollowsRegister(PutValue(v, rest))
  {
    hide PutAccessors, PutItems;
  }

  lemma EmptyArrayUndone(rest: Input)
    ensures ParseValue(PutValue(Array([]), rest)) == Success(Array([]), rest)
  {
  }

  lemma ArrayParses(inside: Input, first: Value, afterFirst: Input, items: seq<Value>, close: Input)
    requires !Is(inside, RightBracket) && ParseValue(inside) == Success(first, afterFirst)
    requires ParseMoreItems(afterFirst, [first]) == Success(items, close) && Is(close, RightBracket)
    ensures ParseValue(Put(LeftBracket, "[", inside)) == Success(Array(items), Next(close))
  {
    hide NumberValue, StringValue, ParseRegister, ParseMoreItems;
  }

  lemma ArrayPrinted(items: seq<Value>, close: Input)
    requires items != []
    ensures PutItems(items, close) == PutValue(items[0], PutMoreItems(items[1..], close))
  {
  }

  lemma {:induction false} ArrayUndone(items: seq<Value>, rest: Input)
    requires forall item <- items :: LegalValue(item)
    ensures ParseValue(PutValue(Array(items), rest)) == Success(Array(items), rest)
    decreases items, 2
  {
    hide ParseValue, LegalValue, PutItems, PutMoreItems, ParseMoreItems, PutRegister, Literal, QuotedText;
    if items == [] {
      EmptyArrayUndone(rest);
    } else {
      var close := Put(RightBracket, "]", rest);
      var more := PutMoreItems(items[1..], close);
      assert items[0] in items;
      ItemFollows(items[1..], close);
      ValueUndone(items[0], more);
      MoreItemsUndone([items[0]], items[1..], close);
      assert [items[0]] + items[1..] == items;
      ValueStart(items[0], more);
      ArrayPrinted(items, close);
      ArrayParses(PutItems(items, close), items[0], more, items, close);
    }
  }

  lemma ItemFollows(items: seq<Value>, close: Input)
    requires Is(close, RightBracket)
    ensures FollowsRegister(PutMoreItems(items, close))
  {
  }

  lemma {:induction false} MoreItemsUndone(before: seq<Value>, items: seq<Value>, close: Input)
    requires Is(close, RightBracket) && forall item <- items :: LegalValue(item)
    ensures ParseMoreItems(PutMoreItems(items, close), before) == Success(before + items, close)
    decreases items, 1
  {
    hide ParseValue, PutValue, LegalValue;
    if items == [] {
      assert before + items == before;
    } else {
      assert items[0] in items;
      ItemFollows(items[1..], close);
      ValueUndone(items[0], PutMoreItems(items[1..], close));
      MoreItemsUndone(before + [items[0]], items[1..], close);
      assert before + [items[0]] + items[1..] == before + items;
    }
  }

  // ---- Commands ----

  lemma {:induction false} OperandsUndone(before: seq<Value>, values: seq<Value>, end: Input)
    requires LegalOperands(values) && Is(end, Semicolon)
    ensures ParseOperands(PutOperands(values, end), before) == Success(before + values, end)
    decreases values
  {
    hide ParseValue, PutValue, LegalValue;
    if values == [] {
      assert before + values == before;
    } else {
      var rest := PutOperands(values[1..], end);
      if |values| > 1 {
        assert !(values[0].Named? && values[1].Array?);
        ValueStart(values[1], PutOperands(values[2..], end));
      }
      ValueStart(values[0], rest);
      ValueUndone(values[0], rest);
      OperandsUndone(before + [values[0]], values[1..], end);
      assert before + [values[0]] + values[1..] == before + values;
    }
  }

  lemma QualifiersApart()
    ensures !IsInstructionName("volatile") && !IsInstructionName("const")
    ensures IsReserved("volatile") && IsReserved("const")
  {
  }

  lemma WordsApart()
    ensures !IsInstructionName("volatile") && !IsInstructionName("const")
    ensures !IsInstructionName("true") && !IsInstructionName("false") && !IsInstructionName("null")
    ensures IsReserved("volatile") && IsReserved("const")
  {
    QualifiersApart();
    hide IsReserved;
  }

  lemma InstructionUndone(i: Instruction, rest: Input)
    requires LegalInstruction(i)
    ensures StartsInstruction(PutInstruction(i, rest)[0])
    ensures ParseInstruction(PutInstruction(i, rest)) == Success(i, rest)
    ensures !IsWord(PutInstruction(i, rest), "volatile")
  {
    WordsApart();
    hide IsInstructionName;
    assert ("#" + i.name)[1..] == i.name;
  }

  lemma LoneValue(v: Value, end: Input)
    requires LegalValue(v) && (v.Named? ==> !IsInstructionName(v.register.name))
    ensures var input := PutValue(v, end);
      !StartsInstruction(input[0]) && !IsWord(input, "volatile") && !Is(input, Semicolon)
  {
    WordsApart();
    hide IsInstructionName, IsReserved, PutAccessors, PutItems, NumberValue;
  }

  lemma BodyUndone(c: Command, end: Input)
    requires LegalCommand(c) && c != EMPTY_COMMAND && Is(end, Semicolon)
    ensures StartsVolatileAccess(PutBody(c, end)) == c.volatileAccess
    ensures ParseBody(SkipVolatile(PutBody(c, end))) == Success((c.instruction, c.values), end)
    ensures c.instruction.Some? ==> StartsInstruction(SkipVolatile(PutBody(c, end))[0])
  {
    hide LegalTarget, PutValue, ParseValue, LegalValue, ParseInstruction, PutInstruction, IsInstructionName,
         LegalInstruction,
         PutOperands, ParseOperands;
    if c.instruction.Some? {
      var operands := PutOperands(c.values, end);
      var body := PutInstruction(c.instruction.value, operands);
      InstructionUndone(c.instruction.value, operands);
      OperandsUndone([], c.values, end);
      assert [] + c.values == c.values;
    } else {
      NoOperands(end);
      if c.values != [] {
        var v := c.values[0];
        assert v in c.values && c.values == [v];
        OneOperand(v, end);
        LoneValue(v, end);
        assert FollowsRegister(end);
        ValueUndone(v, end);
      }
    }
  }

  lemma NoOperands(end: Input)
    ensures PutOperands([], end) == end
  {
  }

  lemma OneOperand(v: Value, end: Input)
    ensures PutOperands([v], end) == PutValue(v, end)
  {
  }

  /** A declared type shows itself to be one by its second token, unless it is qualified. */
  lemma DeclarationStart(t: TypeNode, rest: Input)
    requires LegalType(t) && (IsInstructionName(t.base) ==> t.isConst) && Is(rest, Identifier)
    ensures var input := PutType(t, rest);
      && Is(input, Identifier) && !StartsInstruction(input[0])
      && StartsDeclaration(input) && !StartsVolatileAccess(input)
  {
    WordsApart();
    hide IsInstructionName, IsReserved;
  }

  lemma AssignmentStart(reg: Register, rest: Input)
    requires LegalRegister(reg) && !IsInstructionName(reg.name) && Is(rest, Equals)
    ensures var input := PutRegister(reg, rest);
      && Is(input, Identifier) && !StartsInstruction(input[0]) && !IsReserved(input[0].text)
      && !StartsDeclaration(input) && StartsAssignment(input) && !StartsVolatileAccess(input)
  {
    WordsApart();
    hide IsInstructionName, IsReserved;
  }

  lemma TargetUndone(c: Command, rest: Input)
    requires LegalTarget(c) && !c.target.NoTarget?
    requires Is(rest, Equals) || (c.declared.Some? && Is(rest, Semicolon))
    ensures var input := PutTarget(c.declared, c.target, rest);
      && !Is(input, Semicolon) && !StartsVolatileAccess(input)
      && ParseTarget(input) == Success((c.declared, c.target), rest)
  {
    hide PutType, ParseType, PutRegister, ParseRegister, LegalRegister, LegalType, StartsDeclaration, StartsAssignment,
         IsInstructionName, IsReserved;
    match c.target {
      case SpecialTarget(name) => assert ("%" + name)[1..] == name;
      case RegisterTarget(reg) =>
        if c.declared.Some? {
          var named := PutRegister(reg, rest);
          RegisterStart(reg, rest);
          DeclarationStart(c.declared.value, named);
          TypeUndone(c.declared.value, named);
          RegisterUndone(reg, rest);
        } else {
          AssignmentStart(reg, rest);
          RegisterUndone(reg, rest);
        }
    }
  }

  lemma RegisterStart(reg: Register, rest: Input)
    ensures Is(PutRegister(reg, rest), Identifier)
  {
  }

  lemma CommandUndone(c: Command, rest: Input)
    requires LegalCommand(c)
    ensures ParseCommand(PutCommand(c, rest)) == Success(c, rest)
  {
    hide PutBody, ParseBody, PutTarget, ParseTarget, LegalTarget, LegalOperands, LegalInstruction, SkipVolatile,
         StartsVolatileAccess;
    var end := Put(Semicolon, ";", rest);
    if c != EMPTY_COMMAND {
      BodyUndone(c, end);
      LegalHasTarget(c);
      if c.target.NoTarget? {
        UntargetedUndone(c, rest);
      } else if NoInitializer(c) {
        TargetUndone(c, end);
        NeverSkips(PutTarget(c.declared, c.target, end));
      } else {
        var action := Put(Equals, "=", PutBody(c, end));
        TargetUndone(c, action);
        NeverSkips(PutTarget(c.declared, c.target, action));
      }
    }
  }

  lemma LegalHasTarget(c: Command)
    requires LegalCommand(c) && c != EMPTY_COMMAND
    ensures LegalTarget(c)
  {
  }

  lemma NeverSkips(input: Input)
    requires !StartsVolatileAccess(input)
    ensures SkipVolatile(input) == input
  {
  }

  lemma UntargetedUndone(c: Command, rest: Input)
    requires LegalCommand(c) && c != EMPTY_COMMAND && c.target.NoTarget?
    ensures ParseCommand(PutCommand(c, rest)) == Success(c, rest)
  {
    hide PutBody, ParseBody, IsInstructionName, LegalOperands, LegalInstruction;
    WordsApart();
    var end := Put(Semicolon, ";", rest);
    BodyUndone(c, end);
  }

  lemma {:induction false} CommandsUndone(before: seq<Command>, commands: seq<Command>, rest: Input)
    requires LegalCommands(commands) && Is(rest, RightBrace)
    ensures ParseCommands(PutCommands(commands, rest), before) == Success(before + commands, rest)
    decreases commands
  {
    hide LegalCommand, ParseCommand, PutCommand;
    if commands == [] {
      assert before + commands == before;
    } else {
      assert commands[0] in commands;
      var more := PutCommands(commands[1..], rest);
      CommandUndone(commands[0], more);
      CommandStart(commands[0], more);
      CommandsUndone(before + [commands[0]], commands[1..], rest);
      assert before + [commands[0]] + commands[1..] == before + commands;
    }
  }

  lemma CommandStart(c: Command, rest: Input)
    requires LegalCommand(c)
    ensures !Is(PutCommand(c, rest), RightBrace)
  {
    hide PutOperands, PutAccessors, PutStars, PutView, PutAlignment, LegalOperands;
  }

  lemma BlockUndone(commands: seq<Command>, rest: Input)
    requires LegalCommands(commands)
    ensures ParseBlock(PutBlock(commands, rest)) == Success(commands, rest)
  {
    hide LegalCommands, ParseCommands, PutCommands;
    CommandsUndone([], commands, Put(RightBrace, "}", rest));
    assert [] + commands == commands;
  }

  // ---- Declarations ----

  lemma ArgumentUndone(arg: Argument, rest: Input)
    requires LegalType(arg.typ) && LegalName(arg.name)
    ensures ParseArgument(PutArgument(arg, rest)) == Success(arg, rest)
    ensures Is(PutArgument(arg, rest), Identifier)
  {
    hide ParseType, LegalType, IsReserved, PutStars, PutView, PutAlignment;
    TypeUndone(arg.typ, PutWord(arg.name, rest));
  }

  lemma {:induction false} ArgumentsUndone(before: seq<Argument>, args: seq<Argument>, rest: Input)
    requires LegalArguments(args) && (Is(rest, LeftBrace) || Is(rest, Semicolon))
    ensures ParseArguments(PutArguments(args, rest), before) == Success(before + args, rest)
    decreases args
  {
    hide ParseArgument, PutArgument, LegalType, LegalName;
    if args == [] {
      assert before + args == before;
    } else {
      assert args[0] in args;
      ArgumentUndone(args[0], PutArguments(args[1..], rest));
      ArgumentsUndone(before + [args[0]], args[1..], rest);
      assert before + [args[0]] + args[1..] == before + args;
    }
  }

  lemma {:induction false} FieldsUndone(before: seq<Argument>, fields: seq<Argument>, rest: Input)
    requires LegalArguments(fields) && Is(rest, RightBrace)
    ensures ParseFields(PutFields(fields, rest), before) == Success(before + fields, rest)
    decreases fields
  {
    hide ParseArgument, PutArgument, LegalType, LegalName;
    if fields == [] {
      assert before + fields == before;
    } else {
      assert fields[0] in fields;
      ArgumentUndone(fields[0], Put(Semicolon, ";", PutFields(fields[1..], rest)));
      FieldsUndone(before + [fields[0]], fields[1..], rest);
      assert before + [fields[0]] + fields[1..] == before + fields;
    }
  }

  lemma DefinitionUndone(head: Argument, value: Value, rest: Input)
    requires LegalType(head.typ) && LegalName(head.name) && LegalValue(value)
    ensures ParseDefinition(PutDefinition(head, value, rest)) == Success((head, value), rest)
  {
    hide ParseArgument, PutArgument, PutValue, ParseValue, LegalType, LegalName, LegalValue;
    var end := Put(Semicolon, ";", rest);
    ValueUndone(value, end);
    ArgumentUndone(head, Put(Equals, "=", PutValue(value, end)));
  }

  lemma GlobalStart(head: Argument, value: Value, rest: Input)
    requires LegalType(head.typ)
    requires head.typ.isConst || head.typ.base in ["entry", "struct", "func"] ==> head.typ.isVolatile
    ensures var input := PutDefinition(head, value, rest);
      !IsWord(input, "entry") && !IsWord(input, "struct") && !IsWord(input, "func") && !IsWord(input, "const")
  {
    hide PutStars, PutView, PutAlignment, PutValue;
  }

  lemma StructUndone(t: TypeNode, fields: seq<Argument>, rest: Input)
    requires LegalType(t) && LegalArguments(fields)
    ensures ParseDeclaration(PutDeclaration(Struct(t, fields), rest)) == Success(Struct(t, fields), rest)
  {
    hide PutType, ParseType, LegalType, LegalArguments, ParseFields, PutFields;
    var close := Put(RightBrace, "}", rest);
    FieldsUndone([], fields, close);
    assert [] + fields == fields;
    TypeUndone(t, Put(LeftBrace, "{", PutFields(fields, close)));
  }

  lemma FuncUndone(t: TypeNode, name: string, args: seq<Argument>, body: Option<seq<Command>>, rest: Input)
    requires LegalDeclaration(Func(t, name, args, body))
    ensures ParseDeclaration(PutDeclaration(Func(t, name, args, body), rest))
         == Success(Func(t, name, args, body), rest)
  {
    hide ParseArgument, PutArgument, LegalType, LegalName, LegalArguments, LegalCommands, ParseArguments, PutArguments,
         ParseCommands, PutCommands;
    var tail := if body.None? then Put(Semicolon, ";", rest) else PutBlock(body.value, rest);
    if body.Some? {
      BlockUndone(body.value, rest);
    }
    ArgumentsUndone([], args, tail);
    assert [] + args == args;
    ArgumentUndone(Argument(t, name), PutArguments(args, tail));
  }

  lemma DeclarationUndone(d: Declaration, rest: Input)
    requires LegalDeclaration(d)
    ensures ParseDeclaration(PutDeclaration(d, rest)) == Success(d, rest)
    ensures !Is(PutDeclaration(d, rest), EndOfFile)
  {
    hide LegalType, LegalArguments, LegalCommands, LegalValue, ParseBlock, PutBlock, ParseDefinition, PutDefinition,
         ParseStruct, ParseFunc, PutType, PutArgument, PutArguments, PutFields;
    match d {
      case Entry(name, block) => BlockUndone(block, rest);
      case Struct(t, fields) => StructUndone(t, fields, rest);
      case Func(t, name, args, body) => FuncUndone(t, name, args, body, rest);
      case Global(t, name, value) =>
        DefinitionUndone(Argument(t, name), value, rest);
        GlobalStart(Argument(t, name), value, rest);
      case Constant(t, name, value) =>
        UnqualifiedLegal(t);
        DefinitionUndone(Argument(t.(isConst := false), name), value, rest);
        assert t.(isConst := false).(isConst := true) == t;
    }
  }

  lemma UnqualifiedLegal(t: TypeNode)
    requires LegalType(t)
    ensures LegalType(t.(isConst := false))
  {
  }

  lemma {:induction false} ProgramUndone(before: seq<Declaration>, declarations: seq<Declaration>)
    requires LegalProgram(declarations)
    ensures ParseProgram(PutProgram(declarations), before) == Some(before + declarations)
    decreases declarations
  {
    hide ParseDeclaration, PutDeclaration, LegalDeclaration;
    if declarations == [] {
      assert before + declarations == before;
    } else {
      assert declarations[0] in declarations;
      DeclarationUndone(declarations[0], PutProgram(declarations[1..]));
      ProgramUndone(before + [declarations[0]], declarations[1..]);
      assert before + [declarations[0]] + declarations[1..] == before + declarations;
    }
  }

  /** Every printable program parses back to itself. */
  lemma ParsingUndoesPrinting(declarations: seq<Declaration>)
    requires LegalProgram(declarations)
    ensures ParseProgram(PutProgram(declarations), []) == Some(declarations)
  {
    ProgramUndone([], declarations);
    assert [] + declarations == declarations;
  }
}
