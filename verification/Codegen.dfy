/** The builder that turns a command list into basic blocks, block by block and in place. */
module Codegen {
  import opened Words
  import opened Wrappers
  import opened PsiSyntax
  import opened IrCode
  import opened Lowering
  import opened Layout
  import opened BodyPlan

  lemma Assoc<T>(a: seq<T>, b: seq<T>, c: seq<T>)
    ensures (a + b) + c == a + (b + c)
  {
  }

  lemma FromNothing<T>(a: seq<T>)
    ensures [] + a == a
  {
  }

  lemma AppendThree<T>(s: seq<T>, x: T, y: T, z: T)
    ensures s + [x] + [y] + [z] == s + [x, y, z]
  {
  }

  lemma AppendTwo<T>(s: seq<T>, x: T, y: T)
    ensures s + [x] + [y] == s + [x, y]
  {
  }

  function PrependCode(items: seq<Item>, vals: seq<Val>, code: LoweredList): LoweredList {
    match code
    case FailedList => FailedList
    case CodeList(rest, more, next) => CodeList(items + rest, vals + more, next)
  }

  lemma PrependTwice(items: seq<Item>, vals: seq<Val>, head: seq<Item>, val: Val, code: LoweredList)
    ensures PrependCode(items, vals, PrependCode(head, [val], code)) == PrependCode(items + head, vals + [val], code)
  {
    if code.CodeList? {
      Assoc(items, head, code.items);
      Assoc(vals, [val], code.vals);
    }
  }

  /** The per-function tables: visible locals, their types, reserved slots, and label blocks. */
  datatype Symbols = Symbols(
    locals: map<string, nat>,
    localTypes: map<string, IntType>,
    localStorage: map<string, nat>,
    labels: map<string, nat>)

  class FunctionBuilder {
    const program: Program
    var cursor: Cursor
    var symbols: Symbols
    var nextTemp: nat
    var errors: bool
    /** What has been emitted for the current command, and the cursor it started from. */
    ghost var start: Cursor
    ghost var done: seq<Item>

    ghost predicate Valid()
      reads this
    {
      Open(start) && cursor == EmitAll(start, done)
    }

    function CurrentNames(): Names
      reads this
    {
      Names(symbols.locals, Scope(symbols.localTypes, program.globals))
    }

    /** Emission adds the given items at the cursor and changes nothing else. */
    twostate predicate Emitted(items: seq<Item>)
      reads this
    {
      && Valid() && done == old(done) + items && errors == old(errors)
      && symbols == old(symbols) && start == old(start)
    }

    /** A logged error: the rest of the body is abandoned. */
    twostate predicate Failing()
      reads this
    {
      Valid() && errors && symbols == old(symbols) && start == old(start)
    }

    constructor (p: Program)
      ensures program == p && cursor == Cursor([Block([], None)], 0)
      ensures symbols == Symbols(map[], map[], map[], map[])
      ensures nextTemp == |p.args| && !errors && Valid() && done == []
    {
      program := p;
      cursor, symbols := Cursor([Block([], None)], 0), Symbols(map[], map[], map[], map[]);
      nextTemp, errors := |p.args|, false;
      start, done := Cursor([Block([], None)], 0), [];
    }

    method Append(inst: Inst)
      requires Valid()
      modifies this
      ensures Emitted([Emit(inst)]) && nextTemp == old(nextTemp)
    {
      assert (done + [Emit(inst)])[..|done|] == done;
      var block := cursor.blocks[cursor.insert];
      cursor := cursor.(blocks := cursor.blocks[cursor.insert := block.(insts := block.insts + [inst])]);
      done := done + [Emit(inst)];
    }

    method CreateTerminator(term: Terminator)
      requires cursor.insert < |cursor.blocks|
      modifies this`cursor
      ensures cursor == Terminate(old(cursor), term)
    {
      var block := cursor.blocks[cursor.insert];
      cursor := cursor.(blocks := cursor.blocks[cursor.insert := block.(term := Some(term))]);
    }

    /** Splits the current block: the condition leads to a trap block, its negation continues. */
    method TrapIfCondition(condition: Val)
      requires Valid()
      modifies this
      ensures Emitted([TrapIf(condition)]) && nextTemp == old(nextTemp)
    {
      assert (done + [TrapIf(condition)])[..|done|] == done;
      var trap, ok := |cursor.blocks|, |cursor.blocks| + 1;
      CreateTerminator(CondBr(condition, trap, ok));
      cursor := Cursor(cursor.blocks + [Block([], Some(Trap)), Block([], None)], ok);
      done := done + [TrapIf(condition)];
    }

    method ProcessValue(v: Operand) returns (ok: bool, val: Val, width: nat)
      requires Valid()
      modifies this
      ensures var code := LowerOperand(CurrentNames(), v, old(nextTemp));
        ok == code.Code?
        && if ok then Emitted(code.items) && val == code.val && width == code.width && nextTemp == code.next
           else Failing()
    {
      hide EmitAll;
      ok, val, width := true, Imm(0), 64;
      assert done + [] == done;
      match v
      case Number(n) => val := Imm(Wrap(64, n));
      case Truth(b) => val, width := Imm(BoolWord(b)), 1;
      case Register(name) =>
        if name in symbols.localTypes {
          width := symbols.localTypes[name].width;
        } else if name in program.globals {
          width := program.globals[name].width;
        } else {
          ok, errors := false, true;
          return;
        }
        var cell := if name in symbols.locals then Slot(symbols.locals[name]) else Global(name);
        val := Tmp(nextTemp);
        Append(Load(nextTemp, cell));
        nextTemp := nextTemp + 1;
    }

    method CoerceValue(v: Val, from: nat, to: nat, unsigned: bool) returns (val: Val)
      requires Valid()
      modifies this
      ensures var code := LowerCoerce(from, to, unsigned, v, old(nextTemp));
        Emitted(code.items) && val == code.val && nextTemp == code.next
    {
      hide EmitAll;
      val := v;
      assert done + [] == done;
      if from == to { return; }
      val := Tmp(nextTemp);
      if from < to {
        Append(Cast(nextTemp, if unsigned then ZExt else SExt, from, to, v));
      } else {
        Append(Cast(nextTemp, Trunc, from, to, v));
      }
      nextTemp := nextTemp + 1;
    }

    method CreateArith(op: IrOp, width: nat, a: Val, b: Val) returns (val: Val)
      requires Valid()
      modifies this
      ensures Emitted([Emit(Arith(old(nextTemp), op, width, a, b))])
      ensures val == Tmp(old(nextTemp)) && nextTemp == old(nextTemp) + 1
    {
      hide EmitAll;
      val := Tmp(nextTemp);
      Append(Arith(nextTemp, op, width, a, b));
      nextTemp := nextTemp + 1;
    }

    /** The overflow flag of a signed division, together with its zero test. */
    method SignedOverflow(w: nat, a: Val, b: Val, minimum: Word, minusOne: Word)
      requires Valid()
      modifies this
      ensures Emitted(SignedGuard(w, a, b, minimum, minusOne, old(nextTemp))) && nextTemp == old(nextTemp) + 5
    {
      hide EmitAll;
      ghost var before, t := done, nextTemp;
      var isZero := CreateArith(CmpEq, w, b, Imm(0));
      var isMinimum := CreateArith(CmpEq, w, a, Imm(minimum));
      var isNegativeOne := CreateArith(CmpEq, w, b, Imm(minusOne));
      ghost var g := SignedGuard(w, a, b, minimum, minusOne, t);
      AppendThree(before, g[0], g[1], g[2]);
      ghost var middle := done;
      var overflow := CreateArith(IAnd, 1, isMinimum, isNegativeOne);
      var invalid := CreateArith(IOr, 1, isZero, overflow);
      TrapIfCondition(invalid);
      AppendThree(middle, g[3], g[4], g[5]);
      Assoc(before, [g[0], g[1], g[2]], [g[3], g[4], g[5]]);
      assert g == [g[0], g[1], g[2]] + [g[3], g[4], g[5]];
    }

    method TrapIfTest(op: IrOp, w: nat, a: Val, b: Val)
      requires Valid()
      modifies this
      ensures Emitted([Emit(Arith(old(nextTemp), op, w, a, b)), TrapIf(Tmp(old(nextTemp)))])
      ensures nextTemp == old(nextTemp) + 1
    {
      hide EmitAll;
      var condition := CreateArith(op, w, a, b);
      AppendTwo(old(done), Emit(Arith(old(nextTemp), op, w, a, b)), TrapIf(condition));
      TrapIfCondition(condition);
    }

    method ProcessOperatorGuard(op: BinaryOp, unsigned: bool, w: nat, a: Val, b: Val)
      requires Valid()
      modifies this
      ensures var code := OperatorGuard(op, unsigned, w, a, b, old(nextTemp));
        Emitted(code.items) && nextTemp == code.next
    {
      hide EmitAll;
      assert done + [] == done;
      if (op.Div? || op.Mod?) && !unsigned {
        SignedOverflow(w, a, b, Wrap(w, Pow2(if w > 0 then w - 1 else 0)), Wrap(w, -1));
      } else if op.Div? || op.Mod? {
        TrapIfTest(CmpEq, w, b, Imm(0));
      } else if op.Lsh? || op.Rsh? {
        TrapIfTest(CmpUge, w, b, Imm(Wrap(w, w)));
      }
    }

    method ProcessLogical(op: IrOp, w: nat, a: Val, b: Val) returns (val: Val)
      requires Valid()
      modifies this
      ensures Emitted(LogicalItems(op, w, a, b, old(nextTemp)))
      ensures val == Tmp(old(nextTemp) + 2) && nextTemp == old(nextTemp) + 3
    {
      hide EmitAll;
      ghost var items := LogicalItems(op, w, a, b, nextTemp);
      AppendThree(done, items[0], items[1], items[2]);
      var left := CreateArith(CmpNe, w, a, Imm(0));
      var right := CreateArith(CmpNe, w, b, Imm(0));
      val := CreateArith(op, 1, left, right);
    }

    method ProcessDirect(op: BinaryOp, direct: IrOp, unsigned: bool, w: nat, a: Val, b: Val, ghost guard: Straight)
      returns (val: Val)
      requires Valid() && guard == OperatorGuard(op, unsigned, w, a, b, nextTemp)
      modifies this
      ensures Emitted(guard.items + [Emit(Arith(guard.next, direct, w, a, b))])
      ensures val == Tmp(guard.next) && nextTemp == guard.next + 1
    {
      hide EmitAll, OperatorGuard;
      ProcessOperatorGuard(op, unsigned, w, a, b);
      assert nextTemp == guard.next;
      Assoc(old(done), guard.items, [Emit(Arith(guard.next, direct, w, a, b))]);
      val := CreateArith(direct, w, a, b);
    }

    method ProcessOperator(op: BinaryOp, unsigned: bool, w: nat, a: Val, b: Val) returns (val: Val, width: nat)
      requires Valid()
      modifies this
      ensures var code := LowerOperator(op, unsigned, w, a, b, old(nextTemp));
        Emitted(code.items) && val == code.val && width == code.width && nextTemp == code.next
    {
      hide EmitAll, OperatorGuard, LogicalItems;
      match DirectOp(op, unsigned)
      case Some(direct) =>
        width := if YieldsTruth(op) then 1 else w;
        val := ProcessDirect(op, direct, unsigned, w, a, b, OperatorGuard(op, unsigned, w, a, b, nextTemp));
      case None =>
        width := 1;
        val := ProcessLogical(if op.Land? then IAnd else IOr, w, a, b);
    }

    method ProcessArguments(args: seq<Operand>) returns (ok: bool, vals: seq<Val>)
      requires Valid()
      modifies this
      ensures var code := LowerOperands(CurrentNames(), args, old(nextTemp));
        ok == code.CodeList?
        && if ok then Emitted(code.items) && vals == code.vals && nextTemp == code.next else Failing()
    {
      hide EmitAll, LowerOperand;
      ok, vals := true, [];
      ghost var names := CurrentNames();
      ghost var emitted: seq<Item> := [];
      assert done == done + emitted;
      var i := 0;
      while i < |args|
        invariant 0 <= i <= |args| && Emitted(emitted)
        invariant LowerOperands(names, args, old(nextTemp))
               == PrependCode(emitted, vals, LowerOperands(names, args[i..], nextTemp))
      {
        assert args[i..][0] == args[i] && args[i..][1..] == args[i + 1..];
        ghost var head := LowerOperand(names, args[i], nextTemp);
        assert head.Failed? ==> LowerOperands(names, args[i..], nextTemp).FailedList?;
        var val, w;
        ok, val, w := ProcessValue(args[i]);
        if !ok { return; }
        PrependTwice(emitted, vals, head.items, val, LowerOperands(names, args[i + 1..], nextTemp));
        Assoc(old(done), emitted, head.items);
        emitted := emitted + head.items;
        vals := vals + [val];
        i := i + 1;
      }
      assert args[i..] == [];
      assert emitted + [] == emitted && vals + [] == vals;
    }

    method ProcessGuards(name: string, guards: nat, vals: seq<Val>)
      requires Valid()
      modifies this
      ensures Emitted(GuardItems(name, 0, guards, vals, old(nextTemp))) && nextTemp == old(nextTemp) + guards
    {
      hide EmitAll;
      ghost var emitted: seq<Item> := [];
      assert done == done + emitted;
      var k := 0;
      while k < guards
        invariant 0 <= k <= guards && nextTemp == old(nextTemp) + k && Emitted(emitted)
        invariant GuardItems(name, 0, guards, vals, old(nextTemp))
               == emitted + GuardItems(name, k, guards, vals, nextTemp)
      {
        ghost var pair := [Emit(TestGuard(nextTemp, name, k, vals)), TrapIf(Tmp(nextTemp))];
        Assoc(emitted, pair, GuardItems(name, k + 1, guards, vals, nextTemp + 1));
        AppendTwo(done, pair[0], pair[1]);
        Assoc(old(done), emitted, pair);
        Append(TestGuard(nextTemp, name, k, vals));
        TrapIfCondition(Tmp(nextTemp));
        emitted := emitted + pair;
        nextTemp, k := nextTemp + 1, k + 1;
      }
      assert emitted + [] == emitted;
    }

    method GuardedInvoke(name: string, guards: nat, vals: seq<Val>) returns (val: Val)
      requires Valid()
      modifies this
      ensures Emitted(InvokeItems(name, guards, vals, old(nextTemp)))
      ensures val == Tmp(old(nextTemp) + guards) && nextTemp == old(nextTemp) + guards + 1
    {
      hide EmitAll, GuardItems;
      ghost var guarding := GuardItems(name, 0, guards, vals, nextTemp);
      ProcessGuards(name, guards, vals);
      Assoc(old(done), guarding, [Emit(Invoke(nextTemp, name, vals))]);
      val := Tmp(nextTemp);
      Append(Invoke(nextTemp, name, vals));
      nextTemp := nextTemp + 1;
    }

    method ProcessForeign(c: Computation) returns (ok: bool, val: Val)
      requires Valid() && c.Foreign?
      modifies this
      ensures var code := LowerComputation(CurrentNames(), c, old(nextTemp));
        ok == code.Code?
        && if ok then Emitted(code.items) && val == code.val && nextTemp == code.next else Failing()
    {
      hide EmitAll, LowerOperands, InvokeItems, LowerOperand, LowerOperator, LowerCoerce;
      ghost var args := LowerOperands(CurrentNames(), c.args, nextTemp);
      var vals;
      val := Imm(0);
      ok, vals := ProcessArguments(c.args);
      if ok {
        Assoc(old(done), args.items, InvokeItems(c.name, c.guards, vals, nextTemp));
        val := GuardedInvoke(c.name, c.guards, vals);
      }
    }

    method ProcessBinary(c: Computation) returns (ok: bool, val: Val, width: nat)
      requires Valid() && c.Binary?
      modifies this
      ensures var code := LowerComputation(CurrentNames(), c, old(nextTemp));
        ok == code.Code?
        && if ok then Emitted(code.items) && val == code.val && width == code.width && nextTemp == code.next
           else Failing()
    {
      hide EmitAll, LowerOperand, LowerCoerce, LowerOperator;
      var b, w;
      ghost var first := LowerOperand(CurrentNames(), c.lhs, nextTemp);
      ok, val, width := ProcessValue(c.lhs);
      if !ok { return; }
      ghost var second := LowerOperand(CurrentNames(), c.rhs, nextTemp);
      var a := val;
      ok, b, w := ProcessValue(c.rhs);
      if !ok { return; }
      Assoc(old(done), first.items, second.items);
      var unsigned := IsUnsigned(CurrentNames().scope, c.lhs);
      ghost var cast := LowerCoerce(w, width, unsigned, b, nextTemp);
      b := CoerceValue(b, w, width, unsigned);
      Assoc(old(done), first.items + second.items, cast.items);
      ghost var body := LowerOperator(c.op, unsigned, width, a, b, nextTemp);
      val, width := ProcessOperator(c.op, unsigned, width, a, b);
      Assoc(old(done), first.items + second.items + cast.items, body.items);
    }

    method ProcessUnary(c: Computation) returns (ok: bool, val: Val, width: nat)
      requires Valid() && (c.Not? || c.Lnot?)
      modifies this
      ensures var code := LowerComputation(CurrentNames(), c, old(nextTemp));
        ok == code.Code?
        && if ok then Emitted(code.items) && val == code.val && width == code.width && nextTemp == code.next
           else Failing()
    {
      hide EmitAll, LowerOperand, LowerOperands, LowerOperator, LowerCoerce;
      ghost var operand := LowerOperand(CurrentNames(), c.operand, nextTemp);
      ok, val, width := ProcessValue(c.operand);
      if ok {
        var inst := if c.Not? then Complement(nextTemp, width, val)
                    else Arith(nextTemp, CmpEq, width, val, Imm(0));
        Assoc(old(done), operand.items, [Emit(inst)]);
        Append(inst);
        val, width, nextTemp := Tmp(nextTemp), if c.Not? then width else 1, nextTemp + 1;
      }
    }

    method ComputeCommandValue(c: Computation) returns (ok: bool, val: Val, width: nat)
      requires Valid()
      modifies this
      ensures var code := LowerComputation(CurrentNames(), c, old(nextTemp));
        ok == code.Code?
        && if ok then Emitted(code.items) && val == code.val && width == code.width && nextTemp == code.next
           else Failing()
    {
      hide EmitAll, LowerOperand, LowerOperands, LowerOperator, LowerCoerce;
      if c.Binary? {
        ok, val, width := ProcessBinary(c);
      } else if c.Foreign? {
        width := c.width;
        ok, val := ProcessForeign(c);
      } else if c.Copy? {
        ok, val, width := ProcessValue(c.source);
      } else {
        ok, val, width := ProcessUnary(c);
      }
    }

    /** One command either extends the graph by its shape or logs an error. */
    twostate predicate Extended(c: Command)
      reads this
    {
      var before := old(cursor);
      var shape := ShapeOf(program, old(CurrentNames()), old(symbols.localStorage), old(symbols.labels), c,
                           old(nextTemp));
      if errors then shape == Reject
      else Accepts(before, shape) && cursor == Extend(before, shape)
    }

    /** Stores a computed value, converted to the type of its destination. */
    method StoreComputation(c: Computation, typ: IntType, cell: Cell)
      requires Valid() && !errors
      modifies this
      ensures var code := LowerStore(CurrentNames(), c, typ, cell, old(nextTemp));
        errors != code.Code? && if errors then Failing() else Emitted(code.items)
    {
      hide EmitAll, LowerComputation, LowerCoerce;
      ghost var code := LowerComputation(CurrentNames(), c, nextTemp);
      var ok, val, width := ComputeCommandValue(c);
      if ok {
        ghost var cast := LowerCoerce(width, typ.width, typ.unsigned, val, nextTemp);
        val := CoerceValue(val, width, typ.width, typ.unsigned);
        Append(Store(cell, val));
        Assoc(old(done), code.items, cast.items);
        Assoc(old(done), code.items + cast.items, [Emit(Store(cell, val))]);
      }
    }

    method ProcessLocalDeclaration(c: Command)
      requires c.Declare? && Open(cursor) && !errors
      requires c.name in symbols.localStorage && c.name !in symbols.locals
      modifies this
      ensures Extended(c)
      ensures !errors ==> symbols == old(symbols).(
        locals := old(symbols.locals)[c.name := old(symbols.localStorage)[c.name]],
        localTypes := old(symbols.localTypes)[c.name := c.typ])
    {
      hide LowerStore, LowerComputation, LowerResult, LowerCondition;
      start, done := cursor, [];
      if c.init.Some? {
        ghost var code := LowerStore(CurrentNames(), c.init.value, c.typ, Slot(symbols.localStorage[c.name]), nextTemp);
        if code.Code? { FromNothing(code.items); }
        StoreComputation(c.init.value, c.typ, Slot(symbols.localStorage[c.name]));
        if errors { return; }
      }
      symbols := symbols.(
        locals := symbols.locals[c.name := symbols.localStorage[c.name]],
        localTypes := symbols.localTypes[c.name := c.typ]);
    }

    method ProcessRegisterAssignment(c: Command)
      requires c.Assign? && Open(cursor) && !errors && WellScoped(CurrentNames())
      modifies this
      ensures Extended(c) && (!errors ==> symbols == old(symbols))
    {
      hide LowerStore, LowerComputation, LowerResult, LowerCondition;
      start, done := cursor, [];
      if TypeOf(CurrentNames().scope, c.name).Some? {
        ghost var typ := TypeOf(CurrentNames().scope, c.name).value;
        ghost var code := LowerStore(CurrentNames(), c.comp, typ, CellOf(CurrentNames(), c.name), nextTemp);
        if code.Code? { FromNothing(code.items); }
      }
      if c.name in symbols.localTypes {
        StoreComputation(c.comp, symbols.localTypes[c.name], Slot(symbols.locals[c.name]));
      } else if c.name in program.globals {
        StoreComputation(c.comp, program.globals[c.name], Global(c.name));
      } else {
        errors := true;
      }
    }

    method ProcessResult(v: Operand, typ: IntType) returns (ok: bool, val: Val)
      requires Valid() && !errors
      modifies this
      ensures var code := LowerResult(CurrentNames(), v, typ, old(nextTemp));
        ok == code.Code? && if ok then Emitted(code.items) && val == code.val else Failing()
    {
      hide EmitAll, LowerOperand, LowerCoerce;
      ghost var operand := LowerOperand(CurrentNames(), v, nextTemp);
      var width;
      ok, val, width := ProcessValue(v);
      if ok {
        ghost var cast := LowerCoerce(width, typ.width, typ.unsigned, val, nextTemp);
        val := CoerceValue(val, width, typ.width, typ.unsigned);
        Assoc(old(done), operand.items, cast.items);
      }
    }

    /** Only this command-level fact is left of a finished command. */
    twostate predicate ExtendedBy(shape: Shape)
      reads this
    {
      && (!errors ==> symbols == old(symbols))
      && if errors then shape == Reject
         else Accepts(old(cursor), shape) && cursor == Extend(old(cursor), shape)
    }

    method EndBlock(term: Terminator, ghost items: seq<Item>)
      requires Valid() && done == items
      modifies this`cursor
      ensures Accepts(start, Stop(items, term)) && cursor == Extend(start, Stop(items, term))
    {
      CreateTerminator(term);
    }

    method EndInFork(condition: Val, target: nat, ghost items: seq<Item>)
      requires Valid() && done == items
      modifies this`cursor
      ensures Accepts(start, Fork(items, condition, target)) && cursor == Extend(start, Fork(items, condition, target))
    {
      CreateCondBr(condition, target);
    }

    method ReturnValue(v: Operand, typ: IntType, ghost code: Lowered)
      requires Open(cursor) && !errors && code == LowerResult(CurrentNames(), v, typ, nextTemp)
      modifies this
      ensures ExtendedBy(CodeReturn(code))
    {
      start, done := cursor, [];
      assert Valid();
      hide EmitAll, LowerResult, Extend, Accepts;
      var ok, val := ProcessResult(v, typ);
      if ok {
        FromNothing(code.items);
        EndBlock(Return(Some(val)), code.items);
      }
    }

    method ProcessReturn(value: Option<Operand>)
      requires Open(cursor) && !errors
      modifies this
      ensures Extended(Ret(value)) && (!errors ==> symbols == old(symbols))
    {
      hide LowerStore, LowerComputation, LowerResult, LowerCondition;
      if value.None? {
        CreateTerminator(Return(None));
      } else if program.result.None? {
        errors := true;
      } else {
        ReturnValue(value.value, program.result.value,
          LowerResult(CurrentNames(), value.value, program.result.value, nextTemp));
      }
    }

    method ProcessCondition(v: Operand) returns (ok: bool, val: Val)
      requires Valid() && !errors
      modifies this
      ensures var code := LowerCondition(CurrentNames(), v, old(nextTemp));
        ok == code.Code? && if ok then Emitted(code.items) && val == code.val else Failing()
    {
      hide EmitAll, LowerOperand;
      ghost var operand := LowerOperand(CurrentNames(), v, nextTemp);
      var width;
      ok, val, width := ProcessValue(v);
      if ok && width != 1 {
        Assoc(old(done), operand.items, [Emit(Arith(nextTemp, CmpNe, width, val, Imm(0)))]);
        val := CreateArith(CmpNe, width, val, Imm(0));
      }
    }

    method CreateCondBr(condition: Val, target: nat)
      requires cursor.insert < |cursor.blocks|
      modifies this`cursor
      ensures cursor == Branch(old(cursor), condition, target)
    {
      var next := |cursor.blocks|;
      CreateTerminator(CondBr(condition, target, next));
      cursor := Cursor(cursor.blocks + [Block([], None)], next);
    }

    method BranchTo(v: Operand, target: nat, ghost code: Lowered)
      requires Open(cursor) && !errors && code == LowerCondition(CurrentNames(), v, nextTemp)
      modifies this
      ensures ExtendedBy(CodeFork(code, target))
    {
      start, done := cursor, [];
      assert Valid();
      hide EmitAll, LowerCondition, Extend, Accepts;
      var ok, val := ProcessCondition(v);
      if ok {
        FromNothing(code.items);
        EndInFork(val, target, code.items);
      }
    }

    method ProcessConditionalJump(v: Operand, target: string)
      requires Open(cursor) && !errors
      modifies this
      ensures Extended(Cjmp(v, target)) && (!errors ==> symbols == old(symbols))
    {
      hide LowerStore, LowerComputation, LowerResult, LowerCondition;
      if target in symbols.labels {
        BranchTo(v, symbols.labels[target], LowerCondition(CurrentNames(), v, nextTemp));
      } else {
        errors := true;
      }
    }

    method ProcessPlain(c: Computation)
      requires Open(cursor) && !errors
      modifies this
      ensures Extended(Perform(c)) && (!errors ==> symbols == old(symbols))
    {
      hide LowerStore, LowerComputation, LowerResult, LowerCondition;
      start, done := cursor, [];
      ghost var code := LowerComputation(CurrentNames(), c, nextTemp);
      if code.Code? { FromNothing(code.items); }
      var ok, _, _ := ComputeCommandValue(c);
    }

    method ProcessUntargetedInstruction(c: Command)
      requires c.Perform? || c.Label? || c.Jmp? || c.Cjmp? || c.Ret?
      requires !errors && cursor.insert < |cursor.blocks| && (Open(cursor) || c.Label?)
      requires c.Label? ==> c.mark in symbols.labels && symbols.labels[c.mark] < |cursor.blocks|
      modifies this
      ensures Extended(c) && (!errors ==> symbols == old(symbols))
    {
      hide LowerStore, LowerComputation, LowerResult, LowerCondition;
      if c.Ret? {
        ProcessReturn(c.value);
      } else if c.Cjmp? {
        ProcessConditionalJump(c.condition, c.target);
      } else if c.Perform? {
        ProcessPlain(c.comp);
      } else if c.Jmp? {
        if c.target in symbols.labels {
          CreateTerminator(Br(symbols.labels[c.target]));
        } else {
          errors := true;
        }
      } else {
        if cursor.blocks[cursor.insert].term.None? {
          CreateTerminator(Br(symbols.labels[c.mark]));
        }
        cursor := cursor.(insert := symbols.labels[c.mark]);
      }
    }
  
    /** Reserves and zeroes the slot of every declaration, in the entry block. */
    method ReserveLocals()
      requires Valid() && symbols.localStorage == map[]
      modifies this
      ensures Valid() && done == old(done) + ZeroItems(program.commands, |program.commands|)
      ensures start == old(start) && errors == old(errors) && nextTemp == old(nextTemp)
      ensures symbols == old(symbols).(localStorage := DeclaredSlots(program.commands, |program.commands|))
    {
      hide EmitAll;
      ghost var emitted: seq<Item> := [];
      assert done == done + emitted;
      for i := 0 to |program.commands|
        invariant Valid() && start == old(start) && errors == old(errors) && nextTemp == old(nextTemp)
        invariant emitted == ZeroItems(program.commands, i) && done == old(done) + emitted
        invariant symbols == old(symbols).(localStorage := DeclaredSlots(program.commands, i))
      {
        if program.commands[i].Declare? {
          Assoc(old(done), emitted, [Emit(Store(Slot(i), Imm(0)))]);
          Append(Store(Slot(i), Imm(0)));
          emitted := emitted + [Emit(Store(Slot(i), Imm(0)))];
          symbols := symbols.(localStorage := symbols.localStorage[program.commands[i].name := i]);
        }
      }
    }

    method StoreArgument(name: string, typ: IntType, slot: nat, k: nat)
      requires Valid()
      modifies this
      ensures Valid() && done == old(done) + [Emit(Store(Slot(slot), Tmp(k)))]
      ensures start == old(start) && errors == old(errors) && nextTemp == old(nextTemp)
      ensures symbols == old(symbols).(locals := old(symbols.locals)[name := slot],
                                       localTypes := old(symbols.localTypes)[name := typ])
    {
      hide EmitAll;
      Append(Store(Slot(slot), Tmp(k)));
      symbols := symbols.(locals := symbols.locals[name := slot], localTypes := symbols.localTypes[name := typ]);
    }

    method StoreArguments()
      requires Valid() && symbols.locals == map[] && symbols.localTypes == map[]
      modifies this
      ensures Valid() && done == old(done) + ArgumentItems(program, |program.args|)
      ensures start == old(start) && errors == old(errors) && nextTemp == old(nextTemp)
      ensures symbols == old(symbols).(locals := ArgumentSlots(program, |program.args|),
                                       localTypes := ArgumentTypes(program.args))
    {
      hide EmitAll;
      ghost var emitted: seq<Item> := [];
      assert done == done + emitted;
      for k := 0 to |program.args|
        invariant Valid() && start == old(start) && errors == old(errors) && nextTemp == old(nextTemp)
        invariant emitted == ArgumentItems(program, k) && done == old(done) + emitted
        invariant symbols == old(symbols).(locals := ArgumentSlots(program, k),
                                           localTypes := ArgumentTypes(program.args[..k]))
      {
        ghost var inst := Store(Slot(|program.commands| + k), Tmp(k));
        Assoc(old(done), emitted, [Emit(inst)]);
        assert program.args[..k + 1][..k] == program.args[..k];
        StoreArgument(program.args[k].0, program.args[k].1, |program.commands| + k, k);
        emitted := emitted + [Emit(inst)];
      }
      assert program.args[..|program.args|] == program.args;
    }

    /** Creates one empty block for every label, so that forward jumps have a target. */
    method PredeclareLabels()
      requires Open(cursor) && symbols.labels == map[] && |cursor.blocks| == 1
      modifies this
      ensures errors == old(errors) && nextTemp == old(nextTemp)
      ensures symbols == old(symbols).(labels := symbols.labels)
      ensures cursor.insert == 0 && Open(cursor) && old(cursor).blocks <= cursor.blocks
      ensures LabelsPredeclared(program.commands, |program.commands|, symbols.labels, cursor.blocks)
    {
      for i := 0 to |program.commands|
        invariant errors == old(errors) && nextTemp == old(nextTemp)
        invariant symbols == old(symbols).(labels := symbols.labels)
        invariant cursor.insert == 0 && Open(cursor) && old(cursor).blocks <= cursor.blocks
        invariant LabelsPredeclared(program.commands, i, symbols.labels, cursor.blocks)
      {
        var c := program.commands[i];
        PredeclareStep(program.commands, i, symbols.labels, cursor.blocks);
        if c.Label? && c.mark !in symbols.labels {
          symbols := symbols.(labels := symbols.labels[c.mark := |cursor.blocks|]);
          cursor := cursor.(blocks := cursor.blocks + [Block([], None)]);
        }
      }
    }
  
    /** The tables the builder holds before command i. */
    ghost predicate TablesAt(i: nat, labels: map<string, nat>)
      reads this
      requires i <= |program.commands|
    {
      && CurrentNames() == NamesAt(program, i)
      && symbols.localStorage == DeclaredSlots(program.commands, |program.commands|)
      && symbols.labels == labels
    }

    method ProcessCommand(i: nat, ghost plan: Plan)
      requires Validated(program) && !errors && i < |program.commands|
      requires Reached(program, plan, cursor, i) && TablesAt(i, plan.labels) && nextTemp == plan.temps[i]
      requires LiveAt(program, i) || program.commands[i].Label?
      modifies this
      ensures var shape := ShapeAt(program, plan, i);
        if errors then shape == Reject
        else Accepts(old(cursor), shape) && cursor == Extend(old(cursor), shape) && TablesAt(i + 1, plan.labels)
    {
      hide LowerStore, LowerComputation, LowerResult, LowerCondition, Reached;
      var c := program.commands[i];
      assert WellScoped(CurrentNames()) by { NamesWithin(program, i); }
      CursorReady(program, plan, cursor, i);
      if c.Declare? {
        DeclarationNames(program, i);
        ProcessLocalDeclaration(c);
      } else {
        assert NamesAt(program, i + 1) == NamesAt(program, i);
        if c.Assign? {
          ProcessRegisterAssignment(c);
        } else if !c.Empty? {
          ProcessUntargetedInstruction(c);
        }
      }
    }

    method GenerateCommand(i: nat, ghost plan: Plan) returns (ghost plan': Plan)
      requires Validated(program) && !errors && i < |program.commands|
      requires Reached(program, plan, cursor, i) && TablesAt(i, plan.labels) && nextTemp == plan.temps[i]
      modifies this
      ensures errors ==> !CommandLowers(program, i)
      ensures !errors ==> Reached(program, plan', cursor, i + 1) && TablesAt(i + 1, plan'.labels)
      ensures !errors ==> i + 1 < |plan'.temps| && nextTemp == plan'.temps[i + 1]
      ensures !errors && old(NoBareReturn(cursor.blocks)) && program.commands[i] != Ret(None)
        ==> NoBareReturn(cursor.blocks)
    {
      hide ShapeAt, Reached, LiveAt, NamesAt, DeclaredSlots, NoBareReturn;
      plan' := plan;
      var c := program.commands[i];
      CursorReady(program, plan, cursor, i);
      if cursor.blocks[cursor.insert].term.Some? && !c.Label? {
        DeadText(program, i);
        if c.Empty? {
          plan' := ReachedSkip(program, plan, cursor, i, nextTemp);
          StableNames(program, i);
        } else {
          errors := true;
        }
      } else {
        ShapeDecides(program, plan, cursor, i);
        ghost var before := cursor;
        ProcessCommand(i, plan);
        if !errors {
          plan' := ReachedStep(program, plan, before, i, nextTemp);
          if NoBareReturn(before.blocks) && c != Ret(None) {
            ExtendNoBareReturn(program, plan, before, i);
          }
        } else {
          assert !Lowers(program, i);
        }
      }
    }

    /** Ends an open last block, then lets the function verifier compare returns with the signature. */
    method Finish(ghost plan: Plan)
      requires Validated(program) && !errors && Reached(program, plan, cursor, |program.commands|)
      requires (forall k :: 0 <= k < |program.commands| ==> program.commands[k] != Ret(None))
        ==> NoBareReturn(cursor.blocks)
      modifies this
      ensures !errors <==> Lowerable(program)
      ensures !errors ==> WellFormed(cursor.blocks) && Realizes(program, cursor.blocks, plan)
    {
      hide Reached, CommandLowers, Realizes, WellFormed, LiveAt;
      assert cursor.insert < |cursor.blocks| && (Open(cursor) <==> LiveAt(program, |program.commands|)) by {
        EndReady(program, plan, cursor);
      }
      if cursor.blocks[cursor.insert].term.None? && program.result.Some? {
        errors := true;
        return;
      }
      VerifierDecides(program, plan, cursor);
      ReachedEnd(program, plan, cursor, if Open(cursor) then Terminate(cursor, Return(None)).blocks else cursor.blocks);
      if program.result.Some? && !NoBareReturn(cursor.blocks) {
        errors := true;
      }
      if cursor.blocks[cursor.insert].term.None? {
        CreateTerminator(Return(None));
      }
    }

    /** Entry block, argument slots and label blocks. */
    method GenerateEntry() returns (ghost plan: Plan)
      requires Validated(program) && !errors
      requires cursor == Cursor([Block([], None)], 0) && symbols == Symbols(map[], map[], map[], map[])
      modifies this
      ensures !errors && Reached(program, plan, cursor, 0) && TablesAt(0, plan.labels)
      ensures nextTemp == old(nextTemp) && plan.temps == [nextTemp] && NoBareReturn(cursor.blocks)
    {
      hide Reached, NamesAt, ZeroItems, ArgumentItems, DeclaredSlots, ArgumentSlots, ArgumentTypes;
      start, done := cursor, [];
      ReserveLocals();
      StoreArguments();
      FromNothing(ZeroItems(program.commands, |program.commands|));
      EntryOneBlock(program);
      ghost var entry := cursor;
      PredeclareLabels();
      plan := ReachedStart(program, symbols.labels, entry, cursor, nextTemp);
      EntryNames(program);
      NamesAtEntry(program);
    }

    method GenerateCommands(ghost plan: Plan) returns (ghost plan': Plan)
      requires Validated(program) && !errors && Reached(program, plan, cursor, 0) && TablesAt(0, plan.labels)
      requires |plan.temps| == 1 && nextTemp == plan.temps[0] && NoBareReturn(cursor.blocks)
      modifies this
      ensures errors ==> !Lowerable(program)
      ensures !errors ==> Reached(program, plan', cursor, |program.commands|)
      ensures !errors && (forall k :: 0 <= k < |program.commands| ==> program.commands[k] != Ret(None))
        ==> NoBareReturn(cursor.blocks)
    {
      hide Reached, NamesAt, DeclaredSlots, NoBareReturn, LiveAt, CommandLowers;
      plan' := plan;
      var i := 0;
      while i < |program.commands| && !errors
        invariant 0 <= i <= |program.commands|
        invariant errors ==> !Lowerable(program)
        invariant !errors ==> Reached(program, plan', cursor, i) && TablesAt(i, plan'.labels)
        invariant !errors ==> i < |plan'.temps| && nextTemp == plan'.temps[i]
        invariant !errors && (forall k :: 0 <= k < i ==> program.commands[k] != Ret(None))
          ==> NoBareReturn(cursor.blocks)
        decreases |program.commands| - i, !errors
      {
        plan' := GenerateCommand(i, plan');
        i := i + 1;
      }
    }

    /** Lowers a whole body. It succeeds exactly on the lowerable programs; the blocks are then
        well formed and contain every command's code where the plan says. */
    method GenerateFunctionBody() returns (ghost plan: Plan)
      requires Validated(program) && !errors && nextTemp == |program.args|
      requires cursor == Cursor([Block([], None)], 0) && symbols == Symbols(map[], map[], map[], map[])
      modifies this
      ensures !errors <==> Lowerable(program)
      ensures !errors ==> WellFormed(cursor.blocks) && Realizes(program, cursor.blocks, plan)
    {
      hide Reached, TablesAt, NoBareReturn, WellFormed, Realizes, Lowerable;
      plan := GenerateEntry();
      plan := GenerateCommands(plan);
      if !errors {
        Finish(plan);
      }
    }
  }
}
