/** Every tree that parsing yields has a printed form, so the printable programs are exactly the parsed ones. */
module ParsedTrees {
  import opened Wrappers
  import opened Ast
  import opened LexerRules
  import opened Literals
  import opened Grammar
  import opened Printing

  // ---- Types and registers ----

  lemma {:induction false} QualifiersParsed(input: Input, t: TypeNode)
    requires ParseQualifiers(input, t).Success?
    ensures var r := ParseQualifiers(input, t);
      && r.value == t.(isConst := r.value.isConst, isVolatile := r.value.isVolatile)
      && (t.isConst || IsWord(input, "const") ==> r.value.isConst)
      && (t.isVolatile || IsWord(input, "volatile") ==> r.value.isVolatile)
      && (r.value.isConst && !t.isConst ==> IsWord(input, "const") || IsWord(input, "volatile"))
      && (!r.value.isConst ==>
            if r.value.isVolatile && !t.isVolatile then IsWord(input, "volatile") && r.rest == Next(input)
            else r.rest == input)
    decreases |input|
  {
    if IsWord(input, "const") {
      QualifiersParsed(Next(input), t.(isConst := true));
    } else if IsWord(input, "volatile") {
      QualifiersParsed(Next(input), t.(isVolatile := true));
    }
  }

  lemma {:induction false} StarsParsed(input: Input, t: TypeNode)
    ensures var r := ParseStars(input, t).value; r == t.(pointers := r.pointers)
    decreases |input|
  {
    if Is(input, Star) {
      StarsParsed(Next(input), t.(pointers := t.pointers + 1));
    }
  }

  lemma IndexBounded(text: string)
    ensures IndexValue(text).Some? ==> IndexValue(text).value <= MAX_INDEX
  {
  }

  lemma AlignmentParsed(input: Input, t: TypeNode)
    requires ParseAlignment(input, t).Success? && t.alignment.None?
    ensures var r := ParseAlignment(input, t).value;
      r == t.(alignment := r.alignment) && (r.alignment.Some? ==> r.alignment.value <= MAX_INDEX)
  {
    hide IndexValue, MAX_INDEX;
    if Is(input, Colon) {
      IndexBounded(Next(input)[0].text);
    }
  }

  /** A parsed type is legal, and unless it is qualified its first token is its base. */
  lemma TypeParsed(input: Input)
    requires ParseType(input).Success?
    ensures var t := ParseType(input).value;
      && LegalType(t)
      && (IsWord(input, "volatile") ==> t.isVolatile)
      && (t.isConst ==> IsWord(input, "const") || IsWord(input, "volatile"))
      && (!t.isConst ==>
            if t.isVolatile then IsWord(input, "volatile") && Ahead(input, 1) == Lexeme(Identifier, t.base)
            else IsWord(input, t.base))
  {
    hide ParseStars, ParseAlignment, IsReserved, MAX_INDEX;
    QualifiersParsed(input, BARE);
    var q := ParseQualifiers(input, BARE);
    var base := Expect(q.rest, Identifier);
    var bare := q.value.(base := base.value);
    StarsParsed(base.rest, bare);
    var stars := ParseStars(base.rest, bare);
    var viewed := ParseView(stars.rest, stars.value);
    AlignmentParsed(viewed.rest, viewed.value);
  }

  lemma {:induction false} AccessorsParsed(input: Input, before: seq<Accessor>)
    requires ParseAccessors(input, before).Success?
    requires forall k :: 0 <= k < |before| ==> LegalAccessor(before[k])
    ensures var r := ParseAccessors(input, before);
      (forall k :: 0 <= k < |r.value| ==> LegalAccessor(r.value[k])) && FollowsRegister(r.rest)
    decreases |input|
  {
    hide IndexValue, IsReserved, MAX_INDEX;
    if Is(input, LeftBracket) {
      var n := ExpectIndex(Next(input));
      IndexBounded(Next(input)[0].text);
      AccessorsParsed(Expect(n.rest, RightBracket).rest, before + [Index(n.value)]);
    } else if Is(input, Dot) {
      var name := Expect(Next(input), Identifier);
      AccessorsParsed(name.rest, before + [Field(name.value)]);
    }
  }

  lemma RegisterParsed(input: Input)
    requires ParseRegister(input).Success?
    ensures var r := ParseRegister(input);
      LegalRegister(r.value) && IsWord(input, r.value.name) && FollowsRegister(r.rest)
  {
    hide ParseAccessors, IsReserved, LegalAccessor;
    AccessorsParsed(Next(input), []);
  }

  // ---- Values ----

  lemma NumberParsed(text: string)
    requires NumberValue(text).Some?
    ensures var v := NumberValue(text).value; LegalValue(v) && !v.Named? && !v.Array?
  {
    hide Magnitude, BaseAndDigits, HasPrefix, IsNegative;
  }

  /** What a value's first token tells, and what follows a register. */
  predicate Shaped(input: Input, v: Value, rest: Input) {
    && LegalValue(v)
    && (v.Array? ==> Is(input, LeftBracket))
    && (v.Named? ==> IsWord(input, v.register.name) && FollowsRegister(rest))
  }

  lemma {:induction false} ValueParsed(input: Input)
    requires ParseValue(input).Success?
    ensures Shaped(input, ParseValue(input).value, ParseValue(input).rest)
    decreases |input|, 0
  {
    hide NumberValue, StringValue, ParseRegister, LegalRegister, ParseMoreItems;
    match input[0].kind
    case Number => NumberParsed(input[0].text);
    case LeftBracket =>
      if !Is(Next(input), RightBracket) {
        var first := ParseValue(Next(input));
        ValueParsed(Next(input));
        MoreItemsParsed(first.rest, [first.value]);
      }
    case Identifier =>
      if ParseValue(input).value.Named? {
        RegisterParsed(input);
      }
    case _ =>
  }

  lemma {:induction false} MoreItemsParsed(input: Input, items: seq<Value>)
    requires ParseMoreItems(input, items).Success? && forall item <- items :: LegalValue(item)
    ensures forall item <- ParseMoreItems(input, items).value :: LegalValue(item)
    decreases |input|, 1
  {
    hide ParseValue, LegalValue;
    if Is(input, Comma) {
      var item := ParseValue(Next(input));
      ValueParsed(Next(input));
      MoreItemsParsed(item.rest, items + [item.value]);
    }
  }

  /** An array never follows a register: its bracket would have been an index. */
  lemma {:induction false} OperandsParsed(input: Input, before: seq<Value>)
    requires ParseOperands(input, before).Success? && LegalOperands(before)
    requires before != [] && before[|before| - 1].Named? ==> FollowsRegister(input)
    ensures LegalOperands(ParseOperands(input, before).value)
    decreases |input|
  {
    hide ParseValue, LegalValue;
    if !Is(input, Semicolon) {
      var v := ParseValue(input);
      ValueParsed(input);
      OperandsParsed(v.rest, before + [v.value]);
    }
  }

  // ---- Commands ----

  predicate LegalBody(instruction: Option<Instruction>, values: seq<Value>) {
    && LegalOperands(values)
    && (if instruction.Some? then LegalInstruction(instruction.value)
        else |values| <= 1 && forall v <- values :: v.Named? ==> !IsInstructionName(v.register.name))
  }

  lemma BodyParsed(input: Input)
    requires ParseBody(input).Success?
    ensures var (instruction, values) := ParseBody(input).value;
      LegalBody(instruction, values) && (StartsInstruction(input[0]) <==> instruction.Some?)
  {
    hide ParseValue, ParseOperands, LegalValue, IsInstructionName;
    if StartsInstruction(input[0]) {
      OperandsParsed(ParseInstruction(input).rest, []);
    } else if !Is(input, Semicolon) {
      ValueParsed(input);
    }
  }

  predicate LegalDeclared(declared: Option<TypeNode>, target: Target) {
    match target
    case NoTarget => declared.None?
    case SpecialTarget(_) => declared.None?
    case RegisterTarget(reg) =>
      && LegalRegister(reg)
      && (if declared.None? then !IsInstructionName(reg.name)
          else LegalType(declared.value) && (IsInstructionName(declared.value.base) ==> declared.value.isConst))
  }

  lemma TargetParsed(input: Input)
    requires ParseTarget(input).Success? && !StartsVolatileAccess(input)
    ensures var (declared, target) := ParseTarget(input).value;
      && LegalDeclared(declared, target)
      && (target.NoTarget? <==> StartsInstruction(input[0]))
      && (target.NoTarget? ==> ParseTarget(input).rest == input)
  {
    hide ParseType, ParseRegister, LegalType, LegalRegister, StartsDeclaration, StartsAssignment, IsInstructionName,
         IsReserved;
    var (declared, target) := ParseTarget(input).value;
    if declared.Some? {
      TypeParsed(input);
      RegisterParsed(ParseType(input).rest);
    } else if target.RegisterTarget? {
      RegisterParsed(input);
    }
  }

  lemma VolatileThenInstruction(input: Input)
    requires StartsVolatileAccess(input)
    ensures !StartsVolatileAccess(Next(input)) && StartsInstruction(Next(input)[0])
  {
    WordsApart();
    hide IsInstructionName;
  }

  lemma CommandParsed(input: Input)
    requires ParseCommand(input).Success?
    ensures LegalCommand(ParseCommand(input).value)
  {
    hide ParseTarget, ParseBody, StartsVolatileAccess, LegalDeclared, LegalBody, IsInstructionName;
    if !Is(input, Semicolon) {
      if StartsVolatileAccess(input) {
        VolatileThenInstruction(input);
      }
      var start := SkipVolatile(input);
      TargetParsed(start);
      var (declared, target) := ParseTarget(start).value;
      ActionParsed(ParseTarget(start).rest, StartsVolatileAccess(input), declared, target);
    }
  }

  lemma ActionParsed(input: Input, volatileAccess: bool, declared: Option<TypeNode>, target: Target)
    requires ParseAction(input, volatileAccess, declared, target).Success? && LegalDeclared(declared, target)
    requires volatileAccess ==> target.NoTarget?
    requires target.NoTarget? ==> StartsInstruction(input[0])
    ensures LegalCommand(ParseAction(input, volatileAccess, declared, target).value)
  {
    hide ParseBody, LegalOperands, LegalInstruction, LegalRegister, LegalType, IsInstructionName, IsReserved;
    if !(declared.Some? && Is(input, Semicolon)) {
      var body := if target.NoTarget? then input else Expect(input, Equals).rest;
      if StartsVolatileAccess(body) {
        VolatileThenInstruction(body);
      }
      BodyParsed(SkipVolatile(body));
      assert target.NoTarget? || volatileAccess ==> StartsInstruction(SkipVolatile(body)[0]);
    } else {
      NoOperandsLegal();
    }
  }

  lemma NoOperandsLegal()
    ensures LegalOperands([])
  {
  }

  lemma {:induction false} CommandsParsed(input: Input, before: seq<Command>)
    requires ParseCommands(input, before).Success? && LegalCommands(before)
    ensures LegalCommands(ParseCommands(input, before).value)
    decreases |input|
  {
    hide ParseCommand, LegalCommand;
    if !Is(input, RightBrace) {
      var c := ParseCommand(input);
      CommandParsed(input);
      CommandsParsed(c.rest, before + [c.value]);
    }
  }

  lemma BlockParsed(input: Input)
    requires ParseBlock(input).Success?
    ensures LegalCommands(ParseBlock(input).value)
  {
    hide ParseCommands, LegalCommands;
    assert LegalCommands([]) by { NoCommands(); }
    CommandsParsed(Next(input), []);
  }

  lemma NoCommands()
    ensures LegalCommands([])
  {
  }

  // ---- Declarations ----

  lemma ArgumentParsed(input: Input)
    requires ParseArgument(input).Success?
    ensures var a := ParseArgument(input).value;
      && LegalType(a.typ) && LegalName(a.name)
      && (IsWord(input, "volatile") ==> a.typ.isVolatile)
      && (a.typ.isConst ==> IsWord(input, "const") || IsWord(input, "volatile"))
      && (!a.typ.isConst && !a.typ.isVolatile ==> IsWord(input, a.typ.base))
  {
    hide ParseType, LegalType, IsReserved;
    TypeParsed(input);
  }

  lemma {:induction false} ArgumentsParsed(input: Input, before: seq<Argument>)
    requires ParseArguments(input, before).Success? && LegalArguments(before)
    ensures LegalArguments(ParseArguments(input, before).value)
    decreases |input|
  {
    hide ParseArgument, LegalType, LegalName;
    if !Is(input, LeftBrace) && !Is(input, Semicolon) {
      var a := ParseArgument(input);
      ArgumentParsed(input);
      ArgumentsParsed(a.rest, before + [a.value]);
    }
  }

  lemma {:induction false} FieldsParsed(input: Input, before: seq<Argument>)
    requires ParseFields(input, before).Success? && LegalArguments(before)
    ensures LegalArguments(ParseFields(input, before).value)
    decreases |input|
  {
    hide ParseArgument, LegalType, LegalName;
    if !Is(input, RightBrace) {
      var a := ParseArgument(input);
      ArgumentParsed(input);
      FieldsParsed(SkipSeparator(a.rest).rest, before + [a.value]);
    }
  }

  lemma StructParsed(input: Input)
    requires ParseStruct(input).Success?
    ensures LegalDeclaration(ParseStruct(input).value)
  {
    hide ParseType, ParseFields, LegalType, LegalName;
    TypeParsed(input);
    FieldsParsed(Expect(ParseType(input).rest, LeftBrace).rest, []);
  }

  lemma FuncParsed(input: Input)
    requires ParseFunc(input).Success?
    ensures LegalDeclaration(ParseFunc(input).value)
  {
    hide ParseArgument, ParseArguments, ParseBlock, LegalType, LegalName, LegalCommands;
    ArgumentParsed(input);
    var args := ParseArguments(ParseArgument(input).rest, []);
    ArgumentsParsed(ParseArgument(input).rest, []);
    if !Is(args.rest, Semicolon) {
      BlockParsed(args.rest);
    }
  }

  lemma DefinitionParsed(input: Input)
    requires ParseDefinition(input).Success?
    ensures var (head, value) := ParseDefinition(input).value;
      && LegalValue(value) && ParseArgument(input).Success? && head == ParseArgument(input).value
  {
    hide ParseArgument, ParseValue, LegalValue;
    ValueParsed(Expect(ParseArgument(input).rest, Equals).rest);
  }

  /** Without a keyword in front, a qualified or keyword-named type shows that `volatile` comes first. */
  lemma DeclarationParsed(input: Input)
    requires ParseDeclaration(input).Success?
    ensures LegalDeclaration(ParseDeclaration(input).value)
  {
    hide ParseArgument, ParseDefinition, ParseStruct, ParseFunc, ParseBlock, LegalValue, LegalCommands, IsReserved;
    if IsWord(input, "entry") {
      BlockParsed(Expect(Next(input), Identifier).rest);
    } else if IsWord(input, "struct") {
      StructParsed(Next(input));
    } else if IsWord(input, "func") {
      FuncParsed(Next(input));
    } else if IsWord(input, "const") {
      DefinitionParsed(Next(input));
      ArgumentParsed(Next(input));
    } else {
      DefinitionParsed(input);
      ArgumentParsed(input);
    }
  }

  lemma {:induction false} DeclarationsParsed(input: Input, before: seq<Declaration>)
    requires ParseProgram(input, before).Some? && LegalProgram(before)
    ensures LegalProgram(ParseProgram(input, before).value)
    decreases |input|
  {
    hide ParseDeclaration, LegalDeclaration;
    if !Is(input, EndOfFile) {
      var d := ParseDeclaration(input);
      DeclarationParsed(input);
      DeclarationsParsed(d.rest, before + [d.value]);
    }
  }

  /** The programs with a printed form are exactly those that some tokens parse to. */
  lemma LegalExactlyParsed(declarations: seq<Declaration>)
    ensures LegalProgram(declarations) <==> exists input: Input :: ParseProgram(input, []) == Some(declarations)
  {
    hide LegalDeclaration, ParseProgram, PutProgram;
    if LegalProgram(declarations) {
      ParsingUndoesPrinting(declarations);
    } else if input: Input :| ParseProgram(input, []) == Some(declarations) {
      DeclarationsParsed(input, []);
    }
  }

  /** Printing what was parsed and parsing it again changes nothing. */
  lemma PrintingKeepsMeaning(input: Input)
    requires ParseProgram(input, []).Some?
    ensures ParseProgram(PutProgram(ParseProgram(input, []).value), []) == ParseProgram(input, [])
  {
    hide LegalDeclaration, ParseProgram, PutProgram;
    DeclarationsParsed(input, []);
    ParsingUndoesPrinting(ParseProgram(input, []).value);
  }

  // ---- Other spellings of the same tree ----

  /** The semicolon after a struct member may be missing. */
  function PutFieldsLoosely(fields: seq<Argument>, semicolons: seq<bool>, rest: Input): Input
    requires |semicolons| == |fields|
  {
    if fields == [] then rest
    else
      var more := PutFieldsLoosely(fields[1..], semicolons[1..], rest);
      PutArgument(fields[0], if semicolons[0] then Put(Semicolon, ";", more) else more)
  }

  lemma LooseStart(fields: seq<Argument>, semicolons: seq<bool>, rest: Input)
    requires |semicolons| == |fields| && Is(rest, RightBrace)
    ensures var more := PutFieldsLoosely(fields, semicolons, rest); Is(more, RightBrace) || Is(more, Identifier)
  {
    hide PutStars, PutView, PutAlignment;
  }

  lemma {:induction false} LooseFieldsParse(before: seq<Argument>, fields: seq<Argument>, semicolons: seq<bool>,
                                            rest: Input)
    requires |semicolons| == |fields| && LegalArguments(fields) && Is(rest, RightBrace)
    ensures ParseFields(PutFieldsLoosely(fields, semicolons, rest), before) == Success(before + fields, rest)
    decreases fields
  {
    hide ParseArgument, PutArgument, LegalType, LegalName;
    if fields == [] {
      assert before + fields == before;
    } else {
      var more := PutFieldsLoosely(fields[1..], semicolons[1..], rest);
      LooseStart(fields[1..], semicolons[1..], rest);
      assert fields[0] in fields;
      ArgumentUndone(fields[0], if semicolons[0] then Put(Semicolon, ";", more) else more);
      LooseFieldsParse(before + [fields[0]], fields[1..], semicolons[1..], rest);
      assert before + [fields[0]] + fields[1..] == before + fields;
    }
  }

  /** The two qualifiers may come in either order. */
  lemma QualifiersEitherOrder(rest: Input)
    ensures ParseType(PutWord("const", PutWord("volatile", rest)))
         == ParseType(PutWord("volatile", PutWord("const", rest)))
  {
    hide ParseStars, ParseView, ParseAlignment;
    var both := BARE.(isConst := true, isVolatile := true);
    assert ParseQualifiers(PutWord("const", PutWord("volatile", rest)), BARE) == ParseQualifiers(rest, both);
    assert ParseQualifiers(PutWord("volatile", PutWord("const", rest)), BARE) == ParseQualifiers(rest, both);
  }

  /** A declaration with an equals sign and no value is a declaration without initializer. */
  lemma EmptyInitializer(t: TypeNode, reg: Register, rest: Input)
    requires LegalType(t) && (IsInstructionName(t.base) ==> t.isConst) && LegalRegister(reg)
    ensures var end := Put(Semicolon, ";", rest);
      ParseCommand(PutType(t, PutRegister(reg, Put(Equals, "=", end))))
      == ParseCommand(PutType(t, PutRegister(reg, end)))
  {
    hide PutType, ParseType, PutRegister, ParseRegister, ParseTarget, LegalType, LegalRegister, IsInstructionName;
    var end := Put(Semicolon, ";", rest);
    var c := Command(false, Some(t), RegisterTarget(reg), None, []);
    TargetUndone(c, end);
    TargetUndone(c, Put(Equals, "=", end));
    NeverSkips(PutType(t, PutRegister(reg, end)));
    NeverSkips(PutType(t, PutRegister(reg, Put(Equals, "=", end))));
  }
}
