/** The tokens of a printed program are spelled as tokens, as soon as its names are. */
module PrintedTokens {
  import opened Wrappers
  import opened Ast
  import opened LexerRules
  import opened Literals
  import opened Grammar
  import opened Printing
  import opened Spelling

  /** A token whose text, before a blank, is read as that token. */
  predicate Spelled(l: Lexeme) {
    TokenAt(l.text + " ", 0) == Some((l.kind, |l.text|))
  }

  predicate AllSpelled(input: Input) {
    input[|input| - 1] == END && forall k :: 0 <= k < |input| - 1 ==> Spelled(input[k])
  }

  // ---- Programs whose names are names ----

  predicate NamedType(t: TypeNode) {
    IsName(t.base)
  }

  predicate NamedAccessor(a: Accessor) {
    a.Field? ==> IsName(a.name)
  }

  predicate NamedRegister(reg: Register) {
    IsName(reg.name) && forall k :: 0 <= k < |reg.accessors| ==> NamedAccessor(reg.accessors[k])
  }

  predicate NamedValue(v: Value) {
    match v
    case Named(reg) => NamedRegister(reg)
    case Array(items) => forall item <- items :: NamedValue(item)
    case Special(name) => IsName(name)
    case Floating(spelling) => IsDecimalFraction(spelling)
    case _ => true
  }

  predicate NamedCommand(c: Command) {
    && (c.declared.Some? ==> NamedType(c.declared.value))
    && (c.target.RegisterTarget? ==> NamedRegister(c.target.register))
    && (c.target.SpecialTarget? ==> IsName(c.target.name))
    && (c.instruction.Some? && c.instruction.value.isSpecial ==> IsDottedName(c.instruction.value.name))
    && (forall v <- c.values :: NamedValue(v))
  }

  predicate NamedArgument(a: Argument) {
    NamedType(a.typ) && IsName(a.name)
  }

  predicate NamedDeclaration(d: Declaration) {
    match d
    case Entry(name, block) => IsName(name) && forall c <- block :: NamedCommand(c)
    case Struct(t, fields) => NamedType(t) && forall a <- fields :: NamedArgument(a)
    case Func(t, name, args, body) =>
      && NamedType(t) && IsName(name) && (forall a <- args :: NamedArgument(a))
      && (body.Some? ==> forall c <- body.value :: NamedCommand(c))
    case Global(t, name, value) => NamedType(t) && IsName(name) && NamedValue(value)
    case Constant(t, name, value) => NamedType(t) && IsName(name) && NamedValue(value)
  }

  /** Names are letters, digits and underscores; special instructions may have dots inside their names; float
      spellings are digits around a point. */
  predicate NamedProgram(declarations: seq<Declaration>) {
    forall d <- declarations :: NamedDeclaration(d)
  }

  // ---- One token in front of spelled tokens ----

  lemma PutSpelled(kind: Kind, text: string, rest: Input)
    requires kind != EndOfFile && Reads(kind, text) && AllSpelled(rest)
    ensures AllSpelled(Put(kind, text, rest))
  {
    assert Stops(" ");
    assert Spelled(Lexeme(kind, text));
    hide Spelled, Reads;
    var input := Put(kind, text, rest);
    forall k | 0 <= k < |input| - 1
      ensures Spelled(input[k])
    {
      if k > 0 {
        assert input[k] == rest[k - 1];
      }
    }
  }

  lemma PutNameSpelled(name: string, rest: Input)
    requires IsName(name) && AllSpelled(rest)
    ensures AllSpelled(PutWord(name, rest))
  {
    hide AllSpelled, IsName, Reads;
    NameReads(name);
    PutSpelled(Identifier, name, rest);
  }

  lemma PutMarkSpelled(c: char, rest: Input)
    requires Punctuation(c).Some? && AllSpelled(rest)
    ensures AllSpelled(Put(Punctuation(c).value, [c], rest))
  {
    hide AllSpelled, Reads;
    PunctuationReads(c);
    PutSpelled(Punctuation(c).value, [c], rest);
  }

  lemma PutIndexSpelled(n: nat, rest: Input)
    requires AllSpelled(rest)
    ensures AllSpelled(Put(Number, Digits(n, 10), rest))
  {
    hide AllSpelled, Reads, Digits;
    NumberReads(n, 10);
    assert Literal(n, 10) == Digits(n, 10);
    PutSpelled(Number, Digits(n, 10), rest);
  }

  lemma QualifiersAreNames()
    ensures IsName("const") && IsName("volatile")
  {
  }

  lemma ConstantsAreNames()
    ensures IsName("true") && IsName("false") && IsName("null")
  {
  }

  lemma KeywordsAreNames()
    ensures IsName("entry") && IsName("struct") && IsName("func")
  {
  }

  // ---- Types, registers and values ----

  lemma {:induction false} StarsSpelled(n: nat, rest: Input)
    requires AllSpelled(rest)
    ensures AllSpelled(PutStars(n, rest))
    decreases n
  {
    hide AllSpelled;
    if n > 0 {
      StarsSpelled(n - 1, rest);
      PutMarkSpelled('*', PutStars(n - 1, rest));
    }
  }

  lemma TypeSpelled(t: TypeNode, rest: Input)
    requires NamedType(t) && AllSpelled(rest)
    ensures AllSpelled(PutType(t, rest))
  {
    hide AllSpelled, IsName, Put, Digits;
    QualifiersAreNames();
    var aligned := PutAlignment(t.alignment, rest);
    if t.alignment.Some? {
      var number := Put(Number, Digits(t.alignment.value, 10), rest);
      PutIndexSpelled(t.alignment.value, rest);
      PutMarkSpelled(':', number);
    }
    var viewed := PutView(t.isView, aligned);
    if t.isView {
      PutMarkSpelled(']', aligned);
      PutMarkSpelled('[', Put(RightBracket, "]", aligned));
    }
    StarsSpelled(t.pointers, viewed);
    var named := PutWord(t.base, PutStars(t.pointers, viewed));
    PutNameSpelled(t.base, PutStars(t.pointers, viewed));
    var qualified := if t.isConst then PutWord("const", named) else named;
    if t.isConst {
      PutNameSpelled("const", named);
    }
    if t.isVolatile {
      PutNameSpelled("volatile", qualified);
    }
  }

  lemma {:induction false} AccessorsSpelled(accessors: seq<Accessor>, rest: Input)
    requires AllSpelled(rest) && forall k :: 0 <= k < |accessors| ==> NamedAccessor(accessors[k])
    ensures AllSpelled(PutAccessors(accessors, rest))
    decreases accessors
  {
    hide AllSpelled, IsName, Put, Digits;
    if accessors != [] {
      AccessorsSpelled(accessors[1..], rest);
      var more := PutAccessors(accessors[1..], rest);
      assert NamedAccessor(accessors[0]);
      match accessors[0] {
        case Index(n) =>
          PutMarkSpelled(']', more);
          var close := Put(RightBracket, "]", more);
          PutIndexSpelled(n, close);
          PutMarkSpelled('[', Put(Number, Digits(n, 10), close));
        case Field(name) =>
          PutNameSpelled(name, more);
          PutMarkSpelled('.', PutWord(name, more));
      }
    }
  }

  lemma RegisterSpelled(reg: Register, rest: Input)
    requires NamedRegister(reg) && AllSpelled(rest)
    ensures AllSpelled(PutRegister(reg, rest))
  {
    hide AllSpelled, IsName, PutAccessors;
    AccessorsSpelled(reg.accessors, rest);
    PutNameSpelled(reg.name, PutAccessors(reg.accessors, rest));
  }

  lemma SpecialSpelled(name: string, dots: bool, rest: Input)
    requires (if dots then IsDottedName(name) else IsName(name)) && AllSpelled(rest)
    ensures var text := (if dots then "#" else "%") + name;
      AllSpelled(Put(if dots then SpecialInstruction else SpecialRegister, text, rest))
  {
    hide AllSpelled, Reads, IsName, IsDottedName;
    SpecialReads(name, dots);
    PutSpelled(if dots then SpecialInstruction else SpecialRegister, (if dots then "#" else "%") + name, rest);
  }

  lemma LiteralSpelled(v: Value, rest: Input)
    requires (v.Integer? || v.Floating? || v.Text?) && NamedValue(v) && AllSpelled(rest)
    ensures AllSpelled(PutValue(v, rest))
  {
    hide AllSpelled, Reads, Literal, QuotedText, IsDecimalFraction;
    match v {
      case Integer(n) =>
        NumberReads(n, 10);
        PutSpelled(Number, Literal(n, 10), rest);
      case Floating(spelling) =>
        FractionReads(spelling);
        PutSpelled(Number, spelling, rest);
      case Text(content) =>
        TextReads(content);
        PutSpelled(Quoted, QuotedText(content), rest);
    }
  }

  lemma TextReads(content: string)
    ensures Reads(Quoted, QuotedText(content))
  {
    hide Reads, Escaped, Balanced;
    EscapedReads(content, EscapeStyles(content));
    QuotedReads(Escaped(content, EscapeStyles(content)));
  }

  lemma {:induction false} ValueSpelled(v: Value, rest: Input)
    requires NamedValue(v) && AllSpelled(rest)
    ensures AllSpelled(PutValue(v, rest))
    decreases v, 0
  {
    hide AllSpelled, IsName, Put, Literal, QuotedText, IsDecimalFraction, PutItems, PutRegister, NamedRegister;
    ConstantsAreNames();
    match v {
      case Named(reg) => RegisterSpelled(reg, rest);
      case Array(items) =>
        var close := Put(RightBracket, "]", rest);
        PutMarkSpelled(']', rest);
        ItemsSpelled(items, close, false);
        PutMarkSpelled('[', PutItems(items, close));
      case Special(name) => SpecialSpelled(name, false, rest);
      case Truth(flag) => PutNameSpelled(if flag then "true" else "false", rest);
      case Null => PutNameSpelled("null", rest);
      case _ => LiteralSpelled(v, rest);
    }
  }

  lemma {:induction false} ItemsSpelled(items: seq<Value>, rest: Input, more: bool)
    requires (forall item <- items :: NamedValue(item)) && AllSpelled(rest)
    ensures AllSpelled(if more then PutMoreItems(items, rest) else PutItems(items, rest))
    decreases items, 1
  {
    hide AllSpelled, Put, NamedValue, PutValue;
    if items != [] {
      assert items[0] in items;
      ItemsSpelled(items[1..], rest, true);
      var tail := PutMoreItems(items[1..], rest);
      ValueSpelled(items[0], tail);
      PutMarkSpelled(',', PutValue(items[0], tail));
    }
  }

  // ---- Commands ----

  lemma {:induction false} OperandsSpelled(values: seq<Value>, rest: Input)
    requires (forall v <- values :: NamedValue(v)) && AllSpelled(rest)
    ensures AllSpelled(PutOperands(values, rest))
    decreases values
  {
    hide AllSpelled, NamedValue, PutValue;
    if values != [] {
      assert values[0] in values;
      OperandsSpelled(values[1..], rest);
      ValueSpelled(values[0], PutOperands(values[1..], rest));
    }
  }

  lemma FirstInstructions(name: string)
    requires name in ["add", "sub", "mul", "div", "mod", "eq", "gt", "lt", "neq", "gte", "lte", "and", "or", "not"]
    ensures IsName(name) && IsInstructionName(name)
  {
  }

  lemma LastInstructions(name: string)
    requires name in ["xor", "lsh", "rsh", "land", "lor", "lnot", "ref", "load", "store", "jmp", "cjmp", "call", "ret",
                      "label"]
    ensures IsName(name) && IsInstructionName(name)
  {
  }

  lemma InstructionsAreNames(name: string)
    requires IsInstructionName(name)
    ensures IsName(name)
  {
    hide IsName;
    if name in ["add", "sub", "mul", "div", "mod", "eq", "gt", "lt", "neq", "gte", "lte", "and", "or", "not"] {
      FirstInstructions(name);
    } else {
      LastInstructions(name);
    }
  }

  lemma BodySpelled(c: Command, rest: Input)
    requires LegalCommand(c) && NamedCommand(c) && AllSpelled(rest)
    ensures AllSpelled(PutBody(c, rest))
  {
    hide AllSpelled, Put, NamedValue, PutOperands, IsName, IsDottedName, IsInstructionName, LegalOperands, LegalTarget;
    OperandsSpelled(c.values, rest);
    if c.instruction.Some? {
      var i, operands := c.instruction.value, PutOperands(c.values, rest);
      if i.isSpecial {
        SpecialSpelled(i.name, true, operands);
      } else {
        InstructionsAreNames(i.name);
        PutNameSpelled(i.name, operands);
      }
      QualifiersAreNames();
      PutNameSpelled("volatile", PutInstruction(i, operands));
    }
  }

  lemma TargetSpelled(c: Command, rest: Input)
    requires NamedCommand(c) && AllSpelled(rest)
    ensures AllSpelled(PutTarget(c.declared, c.target, rest))
  {
    hide AllSpelled, Put, PutRegister, PutType, NamedType, NamedRegister, IsName;
    match c.target {
      case NoTarget =>
      case SpecialTarget(name) => SpecialSpelled(name, false, rest);
      case RegisterTarget(reg) =>
        RegisterSpelled(reg, rest);
        if c.declared.Some? {
          TypeSpelled(c.declared.value, PutRegister(reg, rest));
        }
    }
  }

  lemma CommandSpelled(c: Command, rest: Input)
    requires LegalCommand(c) && NamedCommand(c) && AllSpelled(rest)
    ensures AllSpelled(PutCommand(c, rest))
  {
    hide AllSpelled, Put, PutBody, PutTarget, LegalCommand, NamedCommand;
    var end := Put(Semicolon, ";", rest);
    PutMarkSpelled(';', rest);
    BodySpelled(c, end);
    TargetSpelled(c, end);
    PutMarkSpelled('=', PutBody(c, end));
    TargetSpelled(c, Put(Equals, "=", PutBody(c, end)));
  }

  lemma {:induction false} CommandsSpelled(commands: seq<Command>, rest: Input)
    requires LegalCommands(commands) && (forall c <- commands :: NamedCommand(c)) && AllSpelled(rest)
    ensures AllSpelled(PutCommands(commands, rest))
    decreases commands
  {
    hide AllSpelled, LegalCommand, NamedCommand, PutCommand;
    if commands != [] {
      assert commands[0] in commands;
      CommandsSpelled(commands[1..], rest);
      CommandSpelled(commands[0], PutCommands(commands[1..], rest));
    }
  }

  lemma BlockSpelled(commands: seq<Command>, rest: Input)
    requires LegalCommands(commands) && (forall c <- commands :: NamedCommand(c)) && AllSpelled(rest)
    ensures AllSpelled(PutBlock(commands, rest))
  {
    hide AllSpelled, LegalCommands, NamedCommand, Put, PutCommands;
    var close := Put(RightBrace, "}", rest);
    PutMarkSpelled('}', rest);
    CommandsSpelled(commands, close);
    PutMarkSpelled('{', PutCommands(commands, close));
  }

  // ---- Declarations ----

  lemma ArgumentSpelled(a: Argument, rest: Input)
    requires NamedArgument(a) && AllSpelled(rest)
    ensures AllSpelled(PutArgument(a, rest))
  {
    hide AllSpelled, IsName, PutType, PutWord, NamedType;
    PutNameSpelled(a.name, rest);
    TypeSpelled(a.typ, PutWord(a.name, rest));
  }

  lemma {:induction false} ArgumentsSpelled(args: seq<Argument>, rest: Input)
    requires (forall a <- args :: NamedArgument(a)) && AllSpelled(rest)
    ensures AllSpelled(PutArguments(args, rest))
    decreases args
  {
    hide AllSpelled, NamedArgument, PutArgument;
    if args != [] {
      assert args[0] in args;
      ArgumentsSpelled(args[1..], rest);
      ArgumentSpelled(args[0], PutArguments(args[1..], rest));
    }
  }

  lemma {:induction false} FieldsSpelled(fields: seq<Argument>, rest: Input)
    requires (forall a <- fields :: NamedArgument(a)) && AllSpelled(rest)
    ensures AllSpelled(PutFields(fields, rest))
    decreases fields
  {
    hide AllSpelled, NamedArgument, PutArgument, Put;
    if fields != [] {
      assert fields[0] in fields;
      FieldsSpelled(fields[1..], rest);
      PutMarkSpelled(';', PutFields(fields[1..], rest));
      ArgumentSpelled(fields[0], Put(Semicolon, ";", PutFields(fields[1..], rest)));
    }
  }

  lemma DefinitionSpelled(head: Argument, value: Value, rest: Input)
    requires NamedArgument(head) && NamedValue(value) && AllSpelled(rest)
    ensures AllSpelled(PutDefinition(head, value, rest))
  {
    hide AllSpelled, NamedArgument, NamedValue, PutArgument, PutValue, Put;
    var end := Put(Semicolon, ";", rest);
    PutMarkSpelled(';', rest);
    ValueSpelled(value, end);
    PutMarkSpelled('=', PutValue(value, end));
    ArgumentSpelled(head, Put(Equals, "=", PutValue(value, end)));
  }

  lemma FuncSpelled(t: TypeNode, name: string, args: seq<Argument>, body: Option<seq<Command>>, rest: Input)
    requires LegalDeclaration(Func(t, name, args, body)) && NamedDeclaration(Func(t, name, args, body))
    requires AllSpelled(rest)
    ensures AllSpelled(PutDeclaration(Func(t, name, args, body), rest))
  {
    hide AllSpelled, NamedArgument, NamedCommand, LegalCommands, LegalType, LegalArguments, PutArgument,
         PutArguments, PutBlock,
         Put, IsName, IsReserved, NamedType;
    KeywordsAreNames();
    var tail := if body.None? then Put(Semicolon, ";", rest) else PutBlock(body.value, rest);
    if body.None? {
      PutMarkSpelled(';', rest);
    } else {
      BlockSpelled(body.value, rest);
    }
    ArgumentsSpelled(args, tail);
    var head := Argument(t, name);
    assert NamedArgument(head) by {
      NamedHead(t, name);
    }
    ArgumentSpelled(head, PutArguments(args, tail));
    PutNameSpelled("func", PutArgument(head, PutArguments(args, tail)));
  }

  lemma NamedHead(t: TypeNode, name: string)
    requires NamedType(t) && IsName(name)
    ensures NamedArgument(Argument(t, name)) && NamedArgument(Argument(t.(isConst := false), name))
  {
    hide IsName;
  }

  lemma StructSpelled(t: TypeNode, fields: seq<Argument>, rest: Input)
    requires NamedDeclaration(Struct(t, fields)) && AllSpelled(rest)
    ensures AllSpelled(PutDeclaration(Struct(t, fields), rest))
  {
    hide AllSpelled, NamedArgument, PutType, PutFields, Put, IsName, NamedType;
    KeywordsAreNames();
    var close := Put(RightBrace, "}", rest);
    PutMarkSpelled('}', rest);
    FieldsSpelled(fields, close);
    var open := Put(LeftBrace, "{", PutFields(fields, close));
    PutMarkSpelled('{', PutFields(fields, close));
    TypeSpelled(t, open);
    PutNameSpelled("struct", PutType(t, open));
  }

  lemma DeclarationSpelled(d: Declaration, rest: Input)
    requires LegalDeclaration(d) && NamedDeclaration(d) && AllSpelled(rest)
    ensures AllSpelled(PutDeclaration(d, rest))
  {
    hide AllSpelled, NamedArgument, NamedCommand, NamedValue, LegalCommands, LegalType, LegalArguments, LegalValue,
         PutBlock,
         PutDefinition, Put, IsName, IsReserved, NamedType, PutType, PutArgument, PutArguments, PutFields;
    KeywordsAreNames();
    QualifiersAreNames();
    match d {
      case Entry(name, block) =>
        BlockSpelled(block, rest);
        PutNameSpelled(name, PutBlock(block, rest));
        PutNameSpelled("entry", PutWord(name, PutBlock(block, rest)));
      case Struct(t, fields) => StructSpelled(t, fields, rest);
      case Func(t, name, args, body) => FuncSpelled(t, name, args, body, rest);
      case Global(t, name, value) =>
        NamedHead(t, name);
        DefinitionSpelled(Argument(t, name), value, rest);
      case Constant(t, name, value) =>
        NamedHead(t, name);
        var head := Argument(t.(isConst := false), name);
        DefinitionSpelled(head, value, rest);
        PutNameSpelled("const", PutDefinition(head, value, rest));
    }
  }

  /** Every token of a printed program is spelled as a token, if the names in the program are names. */
  lemma {:induction false} ProgramSpelled(declarations: seq<Declaration>)
    requires LegalProgram(declarations) && NamedProgram(declarations)
    ensures AllSpelled(PutProgram(declarations))
    decreases declarations
  {
    hide LegalDeclaration, NamedDeclaration, PutDeclaration, Spelled;
    if declarations != [] {
      assert declarations[0] in declarations;
      ProgramSpelled(declarations[1..]);
      DeclarationSpelled(declarations[0], PutProgram(declarations[1..]));
    }
  }
}
