/** What a list of tokens parses to. */
module Grammar {
  import opened Wrappers
  import opened Ast
  import opened LexerRules
  import opened Literals

  /** A token without its place in the text. */
  datatype Lexeme = Lexeme(kind: Kind, text: string)

  predicate Terminated(input: seq<Lexeme>) {
    && input != []
    && (forall k :: 0 <= k < |input| ==> (input[k].kind == EndOfFile <==> k == |input| - 1))
  }

  const END := Lexeme(EndOfFile, "")

  /** Tokens still to be read; the end-of-file token is last and nowhere else. */
  type Input = s: seq<Lexeme> | Terminated(s) witness [END]

  datatype Parsed<T> = Failure | Success(value: T, rest: Input)

  // ---- Looking at tokens ----

  predicate Is(input: Input, kind: Kind) {
    input[0].kind == kind
  }

  function Next(input: Input): Input
    requires !Is(input, EndOfFile)
  {
    input[1..]
  }

  /** The token n places ahead, or the last one. */
  function Ahead(input: Input, n: nat): Lexeme {
    if n < |input| then input[n] else input[|input| - 1]
  }

  predicate IsWord(input: Input, text: string) {
    input[0] == Lexeme(Identifier, text)
  }

  predicate IsReserved(text: string) {
    text in ["true", "false", "null", "nullptr", "const", "volatile"]
  }

  predicate IsInstructionName(text: string) {
    text in ["add", "sub", "mul", "div", "mod", "eq", "gt", "lt", "neq", "gte", "lte", "and", "or", "not", "xor",
             "lsh", "rsh", "land", "lor", "lnot", "ref", "load", "store", "jmp", "cjmp", "call", "ret", "label"]
  }

  predicate StartsInstruction(token: Lexeme) {
    token.kind == SpecialInstruction || (token.kind == Identifier && IsInstructionName(token.text))
  }

  /** A token of one kind; an identifier must not be a reserved word. */
  function Expect(input: Input, kind: Kind): (r: Parsed<string>)
    requires kind != EndOfFile
    ensures r.Success? ==> |r.rest| < |input|
  {
    if !Is(input, kind) || (kind == Identifier && IsReserved(input[0].text)) then Failure
    else Success(input[0].text, Next(input))
  }

  function ExpectIndex(input: Input): (r: Parsed<nat>)
    ensures r.Success? ==> |r.rest| < |input|
  {
    if !Is(input, Number) || IndexValue(input[0].text).None? then Failure
    else Success(IndexValue(input[0].text).value, Next(input))
  }

  // ---- Types and registers ----

  const BARE := TypeNode("", 0, false, false, false, None)

  function ParseQualifiers(input: Input, t: TypeNode): (r: Parsed<TypeNode>)
    ensures r.Success? ==> |r.rest| <= |input|
    decreases |input|
  {
    if IsWord(input, "const") then
      if t.isConst then Failure else ParseQualifiers(Next(input), t.(isConst := true))
    else if IsWord(input, "volatile") then
      if t.isVolatile then Failure else ParseQualifiers(Next(input), t.(isVolatile := true))
    else Success(t, input)
  }

  function ParseStars(input: Input, t: TypeNode): (r: Parsed<TypeNode>)
    ensures r.Success? && |r.rest| <= |input|
    decreases |input|
  {
    if Is(input, Star) then ParseStars(Next(input), t.(pointers := t.pointers + 1)) else Success(t, input)
  }

  /** The brackets of a view; a star after them is an error. */
  function ParseView(input: Input, t: TypeNode): (r: Parsed<TypeNode>)
    ensures r.Success? ==> |r.rest| <= |input|
  {
    if !(Is(input, LeftBracket) && Ahead(input, 1).kind == RightBracket) then Success(t, input)
    else if Is(Next(Next(input)), Star) then Failure
    else Success(t.(isView := true), Next(Next(input)))
  }

  function ParseAlignment(input: Input, t: TypeNode): (r: Parsed<TypeNode>)
    ensures r.Success? ==> |r.rest| <= |input|
  {
    if !Is(input, Colon) then Success(t, input)
    else
      match ExpectIndex(Next(input))
      case Failure => Failure
      case Success(n, rest) => Success(t.(alignment := Some(n)), rest)
  }

  function ParseType(input: Input): (r: Parsed<TypeNode>)
    ensures r.Success? ==> |r.rest| < |input|
  {
    match ParseQualifiers(input, BARE)
    case Failure => Failure
    case Success(q, afterQualifiers) =>
      match Expect(afterQualifiers, Identifier)
      case Failure => Failure
      case Success(base, afterBase) =>
        var stars := ParseStars(afterBase, q.(base := base));
        match ParseView(stars.rest, stars.value)
        case Failure => Failure
        case Success(t, afterView) => ParseAlignment(afterView, t)
  }

  function ParseAccessors(input: Input, accessors: seq<Accessor>): (r: Parsed<seq<Accessor>>)
    ensures r.Success? ==> |r.rest| <= |input|
    decreases |input|
  {
    if Is(input, LeftBracket) then
      match ExpectIndex(Next(input))
      case Failure => Failure
      case Success(n, afterIndex) =>
        match Expect(afterIndex, RightBracket)
        case Failure => Failure
        case Success(_, rest) => ParseAccessors(rest, accessors + [Index(n)])
    else if Is(input, Dot) then
      match Expect(Next(input), Identifier)
      case Failure => Failure
      case Success(name, rest) => ParseAccessors(rest, accessors + [Field(name)])
    else Success(accessors, input)
  }

  function ParseRegister(input: Input): (r: Parsed<Register>)
    ensures r.Success? ==> |r.rest| < |input|
  {
    match Expect(input, Identifier)
    case Failure => Failure
    case Success(name, afterName) =>
      match ParseAccessors(afterName, [])
      case Failure => Failure
      case Success(accessors, rest) => Success(Register(name, accessors), rest)
  }

  // ---- Values ----

  /** The value of a number token: an integer unless it has a decimal point. */
  function NumberValue(text: string): Option<Value> {
    var unsigned := if IsNegative(text) then text[1..] else text;
    if !HasPrefix(unsigned, 'x', 'X') && !HasPrefix(unsigned, 'o', 'O') && '.' in text then Some(Floating(text))
    else
      match IntegerValue(text)
      case None => None
      case Some(n) => Some(Integer(n))
  }

  function StringValue(text: string): Option<string> {
    if |text| < 2 then None
    else
      match Decode(text[1..|text| - 1])
      case Decoded(content) => Some(content)
      case _ => None
  }

  /** The text after a one-character marker. */
  function Unmarked(text: string): string {
    if text == "" then "" else text[1..]
  }

  function ParseValue(input: Input): (r: Parsed<Value>)
    ensures r.Success? ==> |r.rest| < |input|
    decreases |input|, 0
  {
    var text := input[0].text;
    match input[0].kind
    case Number => if NumberValue(text).None? then Failure else Success(NumberValue(text).value, Next(input))
    case Quoted => if StringValue(text).None? then Failure else Success(Text(StringValue(text).value), Next(input))
    case SpecialRegister => Success(Special(Unmarked(text)), Next(input))
    case LeftBracket =>
      if Is(Next(input), RightBracket) then Success(Array([]), Next(Next(input)))
      else
        (match ParseValue(Next(input))
         case Failure => Failure
         case Success(first, afterFirst) =>
           match ParseMoreItems(afterFirst, [first])
           case Failure => Failure
           case Success(items, afterItems) =>
             match Expect(afterItems, RightBracket)
             case Failure => Failure
             case Success(_, rest) => Success(Array(items), rest))
    case Identifier =>
      if text == "true" || text == "false" then Success(Truth(text == "true"), Next(input))
      else if text == "null" || text == "nullptr" then Success(Null, Next(input))
      else
        (match ParseRegister(input)
         case Failure => Failure
         case Success(reg, rest) => Success(Named(reg), rest))
    case _ => Failure
  }

  function ParseMoreItems(input: Input, items: seq<Value>): (r: Parsed<seq<Value>>)
    ensures r.Success? ==> |r.rest| <= |input|
    decreases |input|, 1
  {
    if !Is(input, Comma) then Success(items, input)
    else
      match ParseValue(Next(input))
      case Failure => Failure
      case Success(item, rest) => ParseMoreItems(rest, items + [item])
  }

  // ---- Commands ----

  function ParseInstruction(input: Input): (r: Parsed<Instruction>)
    ensures r.Success? ==> |r.rest| < |input|
  {
    if Is(input, SpecialInstruction) then Success(Instruction(Unmarked(input[0].text), true), Next(input))
    else if StartsInstruction(input[0]) then Success(Instruction(input[0].text, false), Next(input))
    else Failure
  }

  function ParseOperands(input: Input, values: seq<Value>): (r: Parsed<seq<Value>>)
    ensures r.Success? ==> |r.rest| <= |input|
    decreases |input|
  {
    if Is(input, Semicolon) then Success(values, input)
    else
      match ParseValue(input)
      case Failure => Failure
      case Success(value, rest) => ParseOperands(rest, values + [value])
  }

  predicate StartsDeclaration(input: Input) {
    var next := Ahead(input, 1).kind;
    next == Identifier || next == Star || next == Colon
    || (next == LeftBracket && Ahead(input, 2).kind == RightBracket)
  }

  predicate StartsAssignment(input: Input) {
    var next := Ahead(input, 1).kind;
    next == Equals || next == LeftBracket || next == Dot
  }

  /** The word `volatile` before an instruction. */
  predicate StartsVolatileAccess(input: Input) {
    IsWord(input, "volatile") && StartsInstruction(Ahead(input, 1))
  }

  function SkipVolatile(input: Input): (rest: Input)
    ensures |rest| <= |input|
  {
    if StartsVolatileAccess(input) then Next(input) else input
  }

  /** What stands before the equals sign: nothing, a special register, a declaration or a register. */
  function ParseTarget(input: Input): (r: Parsed<(Option<TypeNode>, Target)>)
    ensures r.Success? ==> |r.rest| <= |input|
    ensures r.Success? && r.value.1.NoTarget? ==> StartsInstruction(r.rest[0])
  {
    if Is(input, SpecialRegister) then Success((None, SpecialTarget(Unmarked(input[0].text))), Next(input))
    else if StartsInstruction(input[0]) then Success((None, NoTarget), input)
    else if !Is(input, Identifier) then Failure
    else if StartsDeclaration(input) then
      match ParseType(input)
      case Failure => Failure
      case Success(t, afterType) =>
        (match ParseRegister(afterType)
         case Failure => Failure
         case Success(reg, rest) => Success((Some(t), RegisterTarget(reg)), rest))
    else if StartsAssignment(input) && !IsReserved(input[0].text) then
      match ParseRegister(input)
      case Failure => Failure
      case Success(reg, rest) => Success((None, RegisterTarget(reg)), rest)
    else Failure
  }

  /** What stands after the equals sign: an instruction with its operands, or at most one value. */
  function ParseBody(input: Input): (r: Parsed<(Option<Instruction>, seq<Value>)>)
    ensures r.Success? ==> |r.rest| <= |input|
  {
    if StartsInstruction(input[0]) then
      match ParseInstruction(input)
      case Failure => Failure
      case Success(instruction, afterInstruction) =>
        (match ParseOperands(afterInstruction, [])
         case Failure => Failure
         case Success(values, rest) => Success((Some(instruction), values), rest))
    else if Is(input, Semicolon) then Success((None, []), input)
    else
      match ParseValue(input)
      case Failure => Failure
      case Success(value, rest) => Success((None, [value]), rest)
  }

  /** The rest of a command whose target has been read. */
  function ParseAction(input: Input, volatileAccess: bool, declared: Option<TypeNode>, target: Target)
    : (r: Parsed<Command>)
    ensures r.Success? ==> |r.rest| < |input|
  {
    if declared.Some? && Is(input, Semicolon)
    then Success(Command(volatileAccess, declared, target, None, []), Next(input))
    else
      var equals := if target.NoTarget? then Success("", input) else Expect(input, Equals);
      if equals.Failure? then Failure
      else
        var isVolatile := volatileAccess || StartsVolatileAccess(equals.rest);
        match ParseBody(SkipVolatile(equals.rest))
        case Failure => Failure
        case Success((instruction, values), afterBody) =>
          match Expect(afterBody, Semicolon)
          case Failure => Failure
          case Success(_, rest) => Success(Command(isVolatile, declared, target, instruction, values), rest)
  }

  function ParseCommand(input: Input): (r: Parsed<Command>)
    ensures r.Success? ==> |r.rest| < |input|
  {
    if Is(input, Semicolon) then Success(EMPTY_COMMAND, Next(input))
    else
      match ParseTarget(SkipVolatile(input))
      case Failure => Failure
      case Success((declared, target), afterTarget) =>
        ParseAction(afterTarget, StartsVolatileAccess(input), declared, target)
  }

  function ParseCommands(input: Input, commands: seq<Command>): (r: Parsed<seq<Command>>)
    ensures r.Success? ==> |r.rest| <= |input|
    decreases |input|
  {
    if Is(input, RightBrace) then Success(commands, input)
    else
      match ParseCommand(input)
      case Failure => Failure
      case Success(command, rest) => ParseCommands(rest, commands + [command])
  }

  function ParseBlock(input: Input): (r: Parsed<seq<Command>>)
    ensures r.Success? ==> |r.rest| < |input|
  {
    match Expect(input, LeftBrace)
    case Failure => Failure
    case Success(_, inside) =>
      match ParseCommands(inside, [])
      case Failure => Failure
      case Success(commands, afterCommands) =>
        match Expect(afterCommands, RightBrace)
        case Failure => Failure
        case Success(_, rest) => Success(commands, rest)
  }

  // ---- Declarations ----

  function ParseArgument(input: Input): (r: Parsed<Argument>)
    ensures r.Success? ==> |r.rest| < |input|
  {
    match ParseType(input)
    case Failure => Failure
    case Success(t, afterType) =>
      match Expect(afterType, Identifier)
      case Failure => Failure
      case Success(name, rest) => Success(Argument(t, name), rest)
  }

  /** After a struct member: a semicolon, the closing brace, or directly the next member. */
  function SkipSeparator(input: Input): (r: Parsed<()>)
    ensures r.Success? ==> |r.rest| <= |input|
  {
    if Is(input, Semicolon) then Success((), Next(input))
    else if Is(input, RightBrace) || Is(input, Identifier) || Is(input, SpecialRegister) then Success((), input)
    else Failure
  }

  function ParseFields(input: Input, fields: seq<Argument>): (r: Parsed<seq<Argument>>)
    ensures r.Success? ==> |r.rest| <= |input|
    decreases |input|
  {
    if Is(input, RightBrace) then Success(fields, input)
    else
      match ParseArgument(input)
      case Failure => Failure
      case Success(field, afterField) =>
        match SkipSeparator(afterField)
        case Failure => Failure
        case Success(_, rest) => ParseFields(rest, fields + [field])
  }

  function ParseStruct(input: Input): (r: Parsed<Declaration>)
    ensures r.Success? ==> |r.rest| < |input|
  {
    match ParseType(input)
    case Failure => Failure
    case Success(t, afterType) =>
      match Expect(afterType, LeftBrace)
      case Failure => Failure
      case Success(_, inside) =>
        match ParseFields(inside, [])
        case Failure => Failure
        case Success(fields, afterFields) =>
          match Expect(afterFields, RightBrace)
          case Failure => Failure
          case Success(_, rest) => Success(Struct(t, fields), rest)
  }

  function ParseArguments(input: Input, args: seq<Argument>): (r: Parsed<seq<Argument>>)
    ensures r.Success? ==> |r.rest| <= |input| && (Is(r.rest, LeftBrace) || Is(r.rest, Semicolon))
    decreases |input|
  {
    if Is(input, LeftBrace) || Is(input, Semicolon) then Success(args, input)
    else
      match ParseArgument(input)
      case Failure => Failure
      case Success(arg, rest) => ParseArguments(rest, args + [arg])
  }

  function ParseFunc(input: Input): (r: Parsed<Declaration>)
    ensures r.Success? ==> |r.rest| < |input|
  {
    match ParseArgument(input)
    case Failure => Failure
    case Success(head, afterName) =>
      match ParseArguments(afterName, [])
      case Failure => Failure
      case Success(args, afterArgs) =>
        if Is(afterArgs, Semicolon) then Success(Func(head.typ, head.name, args, None), Next(afterArgs))
        else
          match ParseBlock(afterArgs)
          case Failure => Failure
          case Success(body, rest) => Success(Func(head.typ, head.name, args, Some(body)), rest)
  }

  /** The common form of globals and constants: a type, a name and an initializer. */
  function ParseDefinition(input: Input): (r: Parsed<(Argument, Value)>)
    ensures r.Success? ==> |r.rest| < |input|
  {
    match ParseArgument(input)
    case Failure => Failure
    case Success(head, afterName) =>
      match Expect(afterName, Equals)
      case Failure => Failure
      case Success(_, afterEquals) =>
        match ParseValue(afterEquals)
        case Failure => Failure
        case Success(value, afterValue) =>
          match Expect(afterValue, Semicolon)
          case Failure => Failure
          case Success(_, rest) => Success((head, value), rest)
  }

  function ParseEntry(input: Input): (r: Parsed<Declaration>)
    ensures r.Success? ==> |r.rest| < |input|
  {
    match Expect(input, Identifier)
    case Failure => Failure
    case Success(name, afterName) =>
      match ParseBlock(afterName)
      case Failure => Failure
      case Success(body, rest) => Success(Entry(name, body), rest)
  }

  function ParseDeclaration(input: Input): (r: Parsed<Declaration>)
    ensures r.Success? ==> |r.rest| < |input|
  {
    if IsWord(input, "entry") then ParseEntry(Next(input))
    else if IsWord(input, "struct") then ParseStruct(Next(input))
    else if IsWord(input, "func") then ParseFunc(Next(input))
    else if IsWord(input, "const") then
      match ParseDefinition(Next(input))
      case Failure => Failure
      case Success((head, value), rest) => Success(Constant(head.typ.(isConst := true), head.name, value), rest)
    else
      match ParseDefinition(input)
      case Failure => Failure
      case Success((head, value), rest) => Success(Global(head.typ, head.name, value), rest)
  }

  function ParseProgram(input: Input, declarations: seq<Declaration>): Option<seq<Declaration>>
    decreases |input|
  {
    if Is(input, EndOfFile) then Some(declarations)
    else
      match ParseDeclaration(input)
      case Failure => None
      case Success(declaration, rest) => ParseProgram(rest, declarations + [declaration])
  }
}
