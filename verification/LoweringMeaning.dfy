/** What lowered straight-line code means on the target machine. */
module LoweringMeaning {
  import opened Words
  import opened Wrappers
  import opened PsiSyntax
  import opened PsiMachine
  import opened IrCode
  import opened IrMachine
  import opened Lowering

  /** The frame holds exactly the source state; `storage` gives every local its slot. */
  ghost predicate Agrees(storage: map<string, nat>, s: State, f: Frame) {
    && f.globals == s.globals && f.trace == s.trace
    && (forall name :: name in storage ==>
          name in s.locals && storage[name] in f.slots && f.slots[storage[name]] == s.locals[name])
  }

  ghost predicate Within(names: Names, storage: map<string, nat>) {
    && WellScoped(names)
    && forall name :: name in names.slots ==> name in storage && storage[name] == names.slots[name]
  }

  /** Only temporaries from t on were defined. */
  ghost predicate OnlyTemps(t: nat, f: Frame, f': Frame) {
    && f' == f.(temps := f'.temps)
    && forall id: nat :: id < t ==> Get(Tmp(id), f'.temps) == Get(Tmp(id), f.temps)
  }

  predicate Below(v: Val, t: nat) {
    v.Tmp? ==> v.id < t
  }

  lemma OperandMeaning(o: Oracle, names: Names, storage: map<string, nat>, s: State, v: Operand, t: nat, f: Frame)
    returns (f': Frame)
    requires Agrees(storage, s, f) && Within(names, storage)
    requires LowerOperand(names, v, t).Code?
    ensures var c := LowerOperand(names, v, t);
      && RunItems(o, c.items, f) == Fine(f') && OnlyTemps(t, f, f')
      && EvalOperand(names.scope, s, v) == Typed(c.width, Get(c.val, f'.temps))
      && Below(c.val, c.next) && c.next >= t
  {
    var c := LowerOperand(names, v, t);
    f' := f;
    if v.Register? {
      var inst := c.items[0].inst;
      f' := Execute(o, inst, f).frame;
      assert RunItems(o, c.items[1..], f') == Fine(f');
    }
  }

  lemma CoerceMeaning(o: Oracle, from: nat, to: nat, unsigned: bool, v: Val, t: nat, f: Frame) returns (f': Frame)
    requires Below(v, t)
    ensures var c := LowerCoerce(from, to, unsigned, v, t);
      && RunItems(o, c.items, f) == Fine(f') && OnlyTemps(t, f, f')
      && Get(c.val, f'.temps) == Coerce(from, to, unsigned, Get(v, f.temps))
      && Below(c.val, c.next) && c.next >= t
  {
    var c := LowerCoerce(from, to, unsigned, v, t);
    f' := f;
    if from != to {
      f' := Execute(o, c.items[0].inst, f).frame;
      assert RunItems(o, c.items[1..], f') == Fine(f');
    }
  }

  lemma RunEmit(o: Oracle, inst: Inst, rest: seq<Item>, f: Frame)
    requires Execute(o, inst, f).Fine?
    ensures RunItems(o, [Emit(inst)] + rest, f) == RunItems(o, rest, Execute(o, inst, f).frame)
  {
    assert ([Emit(inst)] + rest)[1..] == rest;
  }

  lemma RunTrapIf(o: Oracle, c: Val, rest: seq<Item>, f: Frame)
    ensures RunItems(o, [TrapIf(c)] + rest, f)
         == if Get(c, f.temps) != 0 then Crashed(f.globals, f.trace) else RunItems(o, rest, f)
  {
    assert ([TrapIf(c)] + rest)[1..] == rest;
  }

  lemma RunArith(o: Oracle, dst: nat, op: IrOp, w: nat, a: Val, b: Val, rest: seq<Item>, f: Frame)
    returns (f': Frame)
    ensures f' == AfterArith(dst, op, w, a, b, f)
    ensures RunItems(o, [Emit(Arith(dst, op, w, a, b))] + rest, f) == RunItems(o, rest, f')
  {
    RunEmit(o, Arith(dst, op, w, a, b), rest, f);
    f' := Execute(o, Arith(dst, op, w, a, b), f).frame;
  }

  function AfterArith(dst: nat, op: IrOp, w: nat, a: Val, b: Val, f: Frame): Frame {
    Define(f, dst, ApplyOp(op, w, Get(a, f.temps), Get(b, f.temps)))
  }

  /** The frame before the signed trap test. */
  function SignedGuardFrame(w: nat, a: Val, b: Val, minimum: Word, minusOne: Word, t: nat, f: Frame): Frame {
    AfterArith(t + 4, IOr, 1, Tmp(t), Tmp(t + 3),
      AfterArith(t + 3, IAnd, 1, Tmp(t + 1), Tmp(t + 2),
        AfterArith(t + 2, CmpEq, w, b, Imm(minusOne),
          AfterArith(t + 1, CmpEq, w, a, Imm(minimum),
            AfterArith(t, CmpEq, w, b, Imm(0), f)))))
  }

  lemma SignedGuardFlag(w: nat, a: Val, b: Val, minimum: Word, minusOne: Word, t: nat, f: Frame)
    requires Below(a, t) && Below(b, t)
    ensures var x, y := Get(a, f.temps), Get(b, f.temps);
      var f' := SignedGuardFrame(w, a, b, minimum, minusOne, t, f);
      OnlyTemps(t, f, f') && Get(Tmp(t + 4), f'.temps) == BoolWord(y == 0 || (x == minimum && y == minusOne))
  {
    var x, y := Get(a, f.temps), Get(b, f.temps);
    OneBitLogic(x == minimum, y == minusOne);
    OneBitLogic(y == 0, x == minimum && y == minusOne);
  }

  lemma SignedGuardRuns(o: Oracle, w: nat, a: Val, b: Val, minimum: Word, minusOne: Word, t: nat, f: Frame)
    ensures RunItems(o, SignedGuard(w, a, b, minimum, minusOne, t), f)
         == RunItems(o, [TrapIf(Tmp(t + 4))] + [], SignedGuardFrame(w, a, b, minimum, minusOne, t, f))
  {
    var e0 := [TrapIf(Tmp(t + 4))] + [];
    var e1 := [Emit(Arith(t + 4, IOr, 1, Tmp(t), Tmp(t + 3)))] + e0;
    var e2 := [Emit(Arith(t + 3, IAnd, 1, Tmp(t + 1), Tmp(t + 2)))] + e1;
    var e3 := [Emit(Arith(t + 2, CmpEq, w, b, Imm(minusOne)))] + e2;
    var e4 := [Emit(Arith(t + 1, CmpEq, w, a, Imm(minimum)))] + e3;
    assert SignedGuard(w, a, b, minimum, minusOne, t) == [Emit(Arith(t, CmpEq, w, b, Imm(0)))] + e4;
    var f0 := RunArith(o, t, CmpEq, w, b, Imm(0), e4, f);
    var f1 := RunArith(o, t + 1, CmpEq, w, a, Imm(minimum), e3, f0);
    var f2 := RunArith(o, t + 2, CmpEq, w, b, Imm(minusOne), e2, f1);
    var f3 := RunArith(o, t + 3, IAnd, 1, Tmp(t + 1), Tmp(t + 2), e1, f2);
    var f4 := RunArith(o, t + 4, IOr, 1, Tmp(t), Tmp(t + 3), e0, f3);
  }

  lemma SignedGuardMeaning(
    o: Oracle, w: nat, a: Val, b: Val, minimum: Word, minusOne: Word, t: nat, f: Frame)
    requires Below(a, t) && Below(b, t)
    ensures var x, y := Get(a, f.temps), Get(b, f.temps);
      var traps := y == 0 || (x == minimum && y == minusOne);
      match RunItems(o, SignedGuard(w, a, b, minimum, minusOne, t), f)
        case Fine(f') => !traps && OnlyTemps(t, f, f')
        case Crashed(g, tr) => traps && g == f.globals && tr == f.trace
  {
    SignedGuardFlag(w, a, b, minimum, minusOne, t, f);
    SignedGuardRuns(o, w, a, b, minimum, minusOne, t, f);
    RunTrapIf(o, Tmp(t + 4), [], SignedGuardFrame(w, a, b, minimum, minusOne, t, f));
  }

  lemma TestMeaning(o: Oracle, op: IrOp, w: nat, a: Val, b: Val, t: nat, f: Frame)
    ensures match RunItems(o, [Emit(Arith(t, op, w, a, b)), TrapIf(Tmp(t))], f)
      case Fine(f') => ApplyOp(op, w, Get(a, f.temps), Get(b, f.temps)) == 0 && OnlyTemps(t, f, f')
      case Crashed(g, tr) =>
        ApplyOp(op, w, Get(a, f.temps), Get(b, f.temps)) != 0 && g == f.globals && tr == f.trace
  {
    hide ApplyOp;
    assert [Emit(Arith(t, op, w, a, b)), TrapIf(Tmp(t))] == [Emit(Arith(t, op, w, a, b))] + ([TrapIf(Tmp(t))] + []);
    var f0 := RunArith(o, t, op, w, a, b, [TrapIf(Tmp(t))] + [], f);
    RunTrapIf(o, Tmp(t), [], f0);
  }

  lemma GuardMeaning(o: Oracle, op: BinaryOp, unsigned: bool, w: nat, a: Val, b: Val, t: nat, f: Frame)
    requires Below(a, t) && Below(b, t)
    ensures var c := OperatorGuard(op, unsigned, w, a, b, t);
      var x, y := Get(a, f.temps), Get(b, f.temps);
      c.next >= t && match RunItems(o, c.items, f)
        case Fine(f') => !OperatorTraps(op, unsigned, w, x, y) && OnlyTemps(t, f, f')
        case Crashed(g, tr) => OperatorTraps(op, unsigned, w, x, y) && g == f.globals && tr == f.trace
  {
    hide Wrap, Product, Quotient, Remainder, BitAnd, BitOr, BitXor, ShiftLeft, ShiftRight, Signed, Pow2;
    if (op.Div? || op.Mod?) && !unsigned {
      SignedGuardMeaning(o, w, a, b, Wrap(w, Pow2(if w > 0 then w - 1 else 0)), Wrap(w, -1), t, f);
    } else if op.Div? || op.Mod? {
      TestMeaning(o, CmpEq, w, b, Imm(0), t, f);
    } else if op.Lsh? || op.Rsh? {
      TestMeaning(o, CmpUge, w, b, Imm(Wrap(w, w)), t, f);
    }
  }

  predicate OperatorTraps(op: BinaryOp, unsigned: bool, w: nat, x: Word, y: Word) {
    match op
    case Div => DivisionTraps(unsigned, w, x, y)
    case Mod => DivisionTraps(unsigned, w, x, y)
    case Lsh => y >= Wrap(w, w)
    case Rsh => y >= Wrap(w, w)
    case _ => false
  }

  lemma DirectOpMeaning(op: BinaryOp, unsigned: bool, w: nat, x: Word, y: Word)
    requires DirectOp(op, unsigned).Some?
    ensures EvalBinary(op, unsigned, w, x, y)
         == if OperatorTraps(op, unsigned, w, x, y) then Traps
            else Ok(if YieldsTruth(op) then 1 else w, ApplyOp(DirectOp(op, unsigned).value, w, x, y))
  {
    hide Wrap, Product, Quotient, Remainder, BitAnd, BitOr, BitXor, ShiftLeft, ShiftRight, Signed, DivisionTraps, Pow2;
  }

  /** The frame after both truth tests and their combination. */
  function LogicalFrame(op: IrOp, w: nat, a: Val, b: Val, t: nat, f: Frame): Frame {
    AfterArith(t + 2, op, 1, Tmp(t), Tmp(t + 1),
      AfterArith(t + 1, CmpNe, w, b, Imm(0),
        AfterArith(t, CmpNe, w, a, Imm(0), f)))
  }

  lemma LogicalFlag(op: IrOp, w: nat, a: Val, b: Val, t: nat, f: Frame)
    requires Below(a, t) && Below(b, t) && (op.IAnd? || op.IOr?)
    ensures var x, y := Get(a, f.temps), Get(b, f.temps);
      var f' := LogicalFrame(op, w, a, b, t, f);
      OnlyTemps(t, f, f')
      && Get(Tmp(t + 2), f'.temps) == BoolWord(if op.IAnd? then x != 0 && y != 0 else x != 0 || y != 0)
  {
    OneBitLogic(Get(a, f.temps) != 0, Get(b, f.temps) != 0);
  }

  lemma LogicalRuns(o: Oracle, op: IrOp, w: nat, a: Val, b: Val, t: nat, f: Frame)
    ensures RunItems(o, LogicalItems(op, w, a, b, t), f) == Fine(LogicalFrame(op, w, a, b, t, f))
  {
    var e0 := [Emit(Arith(t + 2, op, 1, Tmp(t), Tmp(t + 1)))] + [];
    var e1 := [Emit(Arith(t + 1, CmpNe, w, b, Imm(0)))] + e0;
    assert LogicalItems(op, w, a, b, t) == [Emit(Arith(t, CmpNe, w, a, Imm(0)))] + e1;
    var f0 := RunArith(o, t, CmpNe, w, a, Imm(0), e1, f);
    var f1 := RunArith(o, t + 1, CmpNe, w, b, Imm(0), e0, f0);
    var f2 := RunArith(o, t + 2, op, 1, Tmp(t), Tmp(t + 1), [], f1);
  }

  /** What running lowered code must do: define its value, or trap before any effect. */
  ghost predicate Means(o: Oracle, c: Lowered, t: nat, f: Frame, r: BinaryResult) {
    && c.Code? && c.next >= t && Below(c.val, c.next)
    && var run := RunItems(o, c.items, f);
       match r
       case Ok(width, x) =>
         run.Fine? && OnlyTemps(t, f, run.frame) && c.width == width && Get(c.val, run.frame.temps) == x
       case Traps => run == Crashed(f.globals, f.trace)
  }

  lemma DirectMeaning(o: Oracle, op: BinaryOp, unsigned: bool, w: nat, a: Val, b: Val, t: nat, f: Frame)
    requires Below(a, t) && Below(b, t) && DirectOp(op, unsigned).Some?
    ensures var traps := OperatorTraps(op, unsigned, w, Get(a, f.temps), Get(b, f.temps));
      var x := ApplyOp(DirectOp(op, unsigned).value, w, Get(a, f.temps), Get(b, f.temps));
      Means(o, LowerOperator(op, unsigned, w, a, b, t), t, f,
            if traps then Traps else Ok(if YieldsTruth(op) then 1 else w, x))
  {
    var direct := DirectOp(op, unsigned).value;
    var guard := OperatorGuard(op, unsigned, w, a, b, t);
    var last := [Emit(Arith(guard.next, direct, w, a, b))] + [];
    assert LowerOperator(op, unsigned, w, a, b, t).items == guard.items + last;
    RunItemsAppend(o, guard.items, last, f);
    GuardMeaning(o, op, unsigned, w, a, b, t, f);
    match RunItems(o, guard.items, f)
    case Crashed(_, _) =>
    case Fine(f') =>
      var _ := RunArith(o, guard.next, direct, w, a, b, [], f');
  }

  lemma OperatorMeaning(o: Oracle, op: BinaryOp, unsigned: bool, w: nat, a: Val, b: Val, t: nat, f: Frame)
    requires Below(a, t) && Below(b, t)
    ensures Means(o, LowerOperator(op, unsigned, w, a, b, t), t, f,
                  EvalBinary(op, unsigned, w, Get(a, f.temps), Get(b, f.temps)))
  {
    if op.Land? || op.Lor? {
      var last := if op.Land? then IAnd else IOr;
      LogicalFlag(last, w, a, b, t, f);
      LogicalRuns(o, last, w, a, b, t, f);
    } else {
      DirectMeaning(o, op, unsigned, w, a, b, t, f);
      DirectOpMeaning(op, unsigned, w, Get(a, f.temps), Get(b, f.temps));
    }
  }

  lemma {:induction false} OperandsMeaning(
    o: Oracle, names: Names, storage: map<string, nat>, s: State, vs: seq<Operand>, t: nat, f: Frame)
    returns (f': Frame)
    requires Agrees(storage, s, f) && Within(names, storage)
    requires LowerOperands(names, vs, t).CodeList?
    ensures var c := LowerOperands(names, vs, t);
      && RunItems(o, c.items, f) == Fine(f') && OnlyTemps(t, f, f') && c.next >= t
      && EvalOperands(names.scope, s, vs) == Some(GetAll(c.vals, f'.temps))
      && forall k :: 0 <= k < |c.vals| ==> Below(c.vals[k], c.next)
    decreases |vs|
  {
    if vs == [] {
      f' := f;
    } else {
      var f1 := OperandMeaning(o, names, storage, s, vs[0], t, f);
      var head := LowerOperand(names, vs[0], t);
      f' := OperandsMeaning(o, names, storage, s, vs[1..], head.next, f1);
      var rest := LowerOperands(names, vs[1..], head.next);
      RunItemsAppend(o, head.items, rest.items, f);
      var vals := [head.val] + rest.vals;
      assert vals[1..] == rest.vals;
      assert Get(head.val, f'.temps) == Get(head.val, f1.temps);
    }
  }

  /** Defining later temporaries does not change what earlier values denote. */
  lemma {:induction false} GetAllStays(vs: seq<Val>, t: nat, f: Frame, f': Frame)
    requires forall k :: 0 <= k < |vs| ==> Below(vs[k], t)
    requires OnlyTemps(t, f, f')
    ensures GetAll(vs, f'.temps) == GetAll(vs, f.temps)
  {
    if vs != [] {
      GetAllStays(vs[1..], t, f, f');
      assert Below(vs[0], t);
    }
  }

  lemma {:induction false} GuardItemsMeaning(
    o: Oracle, name: string, from: nat, guards: nat, args: seq<Val>, t: nat, f: Frame, xs: seq<Word>)
    requires from <= guards && (forall k :: 0 <= k < |args| ==> Below(args[k], t))
    requires xs == GetAll(args, f.temps)
    ensures match RunItems(o, GuardItems(name, from, guards, args, t), f)
      case Fine(f') =>
        OnlyTemps(t, f, f') && forall k: nat :: from <= k < guards ==> !o.guard(InMemory(o, f), name, k, xs)
      case Crashed(g, tr) => g == f.globals && tr == f.trace && AnyGuard(o, InMemory(o, f), name, guards, xs)
    decreases guards - from
  {
    if from < guards {
      var inst := TestGuard(t, name, from, args);
      var rest := GuardItems(name, from + 1, guards, args, t + 1);
      assert GuardItems(name, from, guards, args, t) == [Emit(inst)] + ([TrapIf(Tmp(t))] + rest);
      RunEmit(o, inst, [TrapIf(Tmp(t))] + rest, f);
      var f1 := Execute(o, inst, f).frame;
      RunTrapIf(o, Tmp(t), rest, f1);
      if !o.guard(InMemory(o, f), name, from, xs) {
        GetAllStays(args, t, f, f1);
        GuardItemsMeaning(o, name, from + 1, guards, args, t + 1, f1, xs);
      }
    }
  }

  /** The environment finds in the slots what the source state holds. */
  lemma MemoryAgrees(o: Oracle, s: State, f: Frame)
    requires Agrees(o.places, s, f)
    ensures InMemory(o, f) == Visible(o, s)
  {
    assert Found(o.places, f.slots) == Visible(o, s).locals;
  }

  /** An answer changes the locals of both sides alike. */
  lemma AnswerAgrees(o: Oracle, s: State, f: Frame, globals: Globals, trace: seq<Event>, answer: map<string, Word>,
                     temps: map<nat, Word>)
    requires Agrees(o.places, s, f)
    ensures Agrees(o.places, State(Rewritten(o, s.locals, answer), globals, trace),
                   Frame(temps, Overwritten(o.places, f.slots, answer), globals, trace))
  {
    var changed := map name | name in o.places && name in answer :: o.places[name] := answer[name];
    forall name | name in o.places
      ensures var slot := o.places[name];
        && slot in Overwritten(o.places, f.slots, answer)
        && Overwritten(o.places, f.slots, answer)[slot] == Rewritten(o, s.locals, answer)[name]
    {
      var slot := o.places[name];
      if name in answer {
        assert slot in changed && changed[slot] == answer[name];
      } else {
        assert slot !in changed;
      }
    }
  }

  /** Lowered code reaches exactly the computed value and state, or the same crash. */
  ghost predicate Computes(o: Oracle, c: Lowered, t: nat, f: Frame, r: Computed) {
    && c.Code? && c.next >= t && Below(c.val, c.next)
    && var run := RunItems(o, c.items, f);
       match r
       case Value(w, x, after) =>
         run.Fine? && Agrees(o.places, after, run.frame) && c.width == w && Get(c.val, run.frame.temps) == x
       case Crash(globals, trace) => run == Crashed(globals, trace)
       case Undefined => false
  }

  lemma TempsAgree(storage: map<string, nat>, s: State, t: nat, f: Frame, f': Frame)
    requires Agrees(storage, s, f) && OnlyTemps(t, f, f')
    ensures Agrees(storage, s, f')
  {
  }

  lemma UnaryMeaning(o: Oracle, names: Names, s: State, c: Computation, t: nat, f: Frame)
    requires Agrees(o.places, s, f) && Within(names, o.places)
    requires c.Copy? || c.Not? || c.Lnot?
    requires LowerComputation(names, c, t).Code?
    ensures Computes(o, LowerComputation(names, c, t), t, f, EvalComputation(o, names.scope, s, c))
  {
    var v := if c.Copy? then c.source else c.operand;
    var f1 := OperandMeaning(o, names, o.places, s, v, t, f);
    TempsAgree(o.places, s, t, f, f1);
    var code := LowerOperand(names, v, t);
    hide Agrees, Within;
    if !c.Copy? {
      var inst := if c.Not? then Complement(code.next, code.width, code.val)
                  else Arith(code.next, CmpEq, code.width, code.val, Imm(0));
      assert [Emit(inst)] + [] == [Emit(inst)];
      RunItemsAppend(o, code.items, [Emit(inst)], f);
      RunEmit(o, inst, [], f1);
      TempsAgree(o.places, s, code.next, f1, Execute(o, inst, f1).frame);
    }
  }

  lemma BinaryMeaning(o: Oracle, names: Names, s: State, c: Computation, t: nat, f: Frame)
    requires Agrees(o.places, s, f) && Within(names, o.places)
    requires c.Binary? && LowerComputation(names, c, t).Code?
    ensures Computes(o, LowerComputation(names, c, t), t, f, EvalComputation(o, names.scope, s, c))
  {
    var first := LowerOperand(names, c.lhs, t);
    var f1 := OperandMeaning(o, names, o.places, s, c.lhs, t, f);
    TempsAgree(o.places, s, t, f, f1);
    var second := LowerOperand(names, c.rhs, first.next);
    var f2 := OperandMeaning(o, names, o.places, s, c.rhs, first.next, f1);
    TempsAgree(o.places, s, first.next, f1, f2);
    hide Agrees, Within;
    var unsigned := IsUnsigned(names.scope, c.lhs);
    var cast := LowerCoerce(second.width, first.width, unsigned, second.val, second.next);
    var f3 := CoerceMeaning(o, second.width, first.width, unsigned, second.val, second.next, f2);
    TempsAgree(o.places, s, second.next, f2, f3);
    var body := LowerOperator(c.op, unsigned, first.width, first.val, cast.val, cast.next);
    OperatorMeaning(o, c.op, unsigned, first.width, first.val, cast.val, cast.next, f3);
    RunItemsAppend(o, first.items, second.items, f);
    RunItemsAppend(o, first.items + second.items, cast.items, f);
    RunItemsAppend(o, first.items + second.items + cast.items, body.items, f);
    assert Get(first.val, f3.temps) == Get(first.val, f1.temps);
    if RunItems(o, body.items, f3).Fine? {
      TempsAgree(o.places, s, cast.next, f3, RunItems(o, body.items, f3).frame);
    }
  }

  /** The call itself: it is answered as in the source, and the answer reaches the slots of the locals it changes. */
  lemma InvokeMeaning(o: Oracle, s: State, name: string, args: seq<Val>, dst: nat, f: Frame, answer: Response)
    requires Agrees(o.places, s, f)
    requires answer == o.respond(Visible(o, s), name, GetAll(args, f.temps))
    ensures var run := RunItems(o, [Emit(Invoke(dst, name, args))], f);
      var trace := s.trace + [Event(name, GetAll(args, f.temps), s.globals, Visible(o, s).locals)];
      if answer.Abort? then run == Crashed(s.globals, trace)
      else
        && run.Fine? && Get(Tmp(dst), run.frame.temps) == answer.value
        && Agrees(o.places, State(Rewritten(o, s.locals, answer.locals), answer.globals, trace), run.frame)
  {
    MemoryAgrees(o, s, f);
    assert f.trace == s.trace && f.globals == s.globals;
    var inst := Invoke(dst, name, args);
    var event := Event(name, GetAll(args, f.temps), s.globals, Visible(o, s).locals);
    assert [Emit(inst)] == [Emit(inst)] + [];
    if answer.Result? {
      RunEmit(o, inst, [], f);
      AnswerAgrees(o, s, f, answer.globals, s.trace + [event], answer.locals, Define(f, dst, answer.value).temps);
    }
  }

  lemma GuardsMeaning(o: Oracle, s: State, name: string, guards: nat, args: seq<Val>, t: nat, f: Frame)
    requires Agrees(o.places, s, f) && forall k :: 0 <= k < |args| ==> Below(args[k], t)
    ensures var traps := AnyGuard(o, Visible(o, s), name, guards, GetAll(args, f.temps));
      match RunItems(o, GuardItems(name, 0, guards, args, t), f)
      case Fine(f') => !traps && Agrees(o.places, s, f') && GetAll(args, f'.temps) == GetAll(args, f.temps)
      case Crashed(g, tr) => traps && g == s.globals && tr == s.trace
  {
    MemoryAgrees(o, s, f);
    assert f.globals == s.globals && f.trace == s.trace;
    hide Agrees, Visible, InMemory, GuardItems;
    GuardItemsMeaning(o, name, 0, guards, args, t, f, GetAll(args, f.temps));
    match RunItems(o, GuardItems(name, 0, guards, args, t), f)
    case Crashed(_, _) =>
    case Fine(f1) =>
      GetAllStays(args, t, f, f1);
      TempsAgree(o.places, s, t, f, f1);
  }

  /** The guards and the call: a guard that fires traps before the call. */
  lemma CallMeaning(o: Oracle, s: State, name: string, guards: nat, args: seq<Val>, width: nat, t: nat, f: Frame)
    requires Agrees(o.places, s, f) && forall k :: 0 <= k < |args| ==> Below(args[k], t)
    ensures Computes(o, Code(InvokeItems(name, guards, args, t), Tmp(t + guards), width, t + guards + 1), t, f,
                     Answer(o, s, name, guards, GetAll(args, f.temps), width))
  {
    hide Agrees, Visible, InMemory, Rewritten, GuardItems, AnyGuard, Execute;
    var tests := GuardItems(name, 0, guards, args, t);
    var call := [Emit(Invoke(t + guards, name, args))];
    GuardsMeaning(o, s, name, guards, args, t, f);
    RunItemsAppend(o, tests, call, f);
    match RunItems(o, tests, f)
    case Crashed(_, _) =>
    case Fine(f1) =>
      InvokeMeaning(o, s, name, args, t + guards, f1, o.respond(Visible(o, s), name, GetAll(args, f.temps)));
  }

  /** Code in front that succeeds only moves the start. */
  lemma ComputesAfter(o: Oracle, before: seq<Item>, c: Lowered, t: nat, f: Frame, f1: Frame, t1: nat, r: Computed)
    requires RunItems(o, before, f) == Fine(f1) && t <= t1 && c.Code? && Computes(o, c, t1, f1, r)
    ensures Computes(o, c.(items := before + c.items), t, f, r)
  {
    hide Agrees;
    RunItemsAppend(o, before, c.items, f);
  }

  /** Both sides take the operands first. */
  lemma ForeignParts(o: Oracle, names: Names, s: State, c: Computation, t: nat)
    requires c.Foreign? && LowerComputation(names, c, t).Code?
    ensures var code := LowerOperands(names, c.args, t);
      && code.CodeList?
      && LowerComputation(names, c, t)
         == Code(code.items + InvokeItems(c.name, c.guards, code.vals, code.next), Tmp(code.next + c.guards), c.width,
                 code.next + c.guards + 1)
    ensures EvalOperands(names.scope, s, c.args).Some? ==>
      EvalComputation(o, names.scope, s, c)
      == Answer(o, s, c.name, c.guards, EvalOperands(names.scope, s, c.args).value, c.width)
  {
    hide LowerOperands, EvalOperands, InvokeItems, Answer;
  }

  lemma ForeignMeaning(o: Oracle, names: Names, s: State, c: Computation, t: nat, f: Frame)
    requires Agrees(o.places, s, f) && Within(names, o.places)
    requires c.Foreign? && LowerComputation(names, c, t).Code?
    ensures Computes(o, LowerComputation(names, c, t), t, f, EvalComputation(o, names.scope, s, c))
  {
    hide Agrees, Within, LowerOperands, EvalOperands, InvokeItems, Answer, Computes, RunItems, LowerComputation,
         EvalComputation, OnlyTemps, Below;
    ForeignParts(o, names, s, c, t);
    var code := LowerOperands(names, c.args, t);
    var f1 := OperandsMeaning(o, names, o.places, s, c.args, t, f);
    TempsAgree(o.places, s, t, f, f1);
    CallMeaning(o, s, c.name, c.guards, code.vals, c.width, code.next, f1);
    var call := Code(InvokeItems(c.name, c.guards, code.vals, code.next), Tmp(code.next + c.guards), c.width,
                     code.next + c.guards + 1);
    ComputesAfter(o, code.items, call, t, f, f1, code.next, EvalComputation(o, names.scope, s, c));
  }

  lemma ComputationMeaning(o: Oracle, names: Names, s: State, c: Computation, t: nat, f: Frame)
    requires Agrees(o.places, s, f) && Within(names, o.places)
    requires LowerComputation(names, c, t).Code?
    ensures Computes(o, LowerComputation(names, c, t), t, f, EvalComputation(o, names.scope, s, c))
  {
    match c
    case Binary(_, _, _) => BinaryMeaning(o, names, s, c, t, f);
    case Foreign(_, _, _, _) => ForeignMeaning(o, names, s, c, t, f);
    case _ => UnaryMeaning(o, names, s, c, t, f);
  }
}
