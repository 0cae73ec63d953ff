/** The straight-line code each computation lowers to. */
module Lowering {
  import opened Words
  import opened Wrappers
  import opened PsiSyntax
  import opened IrCode

  /** Names resolved at one command: slots of the visible locals, and all their types. */
  datatype Names = Names(slots: map<string, nat>, scope: Scope)

  datatype Lowered = Code(items: seq<Item>, val: Val, width: nat, next: nat) | Failed

  /** Code that is always emitted. */
  type Straight = c: Lowered | c.Code? witness Code([], Imm(0), 0, 0)

  predicate WellScoped(names: Names) {
    names.slots.Keys == names.scope.locals.Keys
  }

  function CellOf(names: Names, name: string): Cell {
    if name in names.slots then Slot(names.slots[name]) else Global(name)
  }

  function LowerOperand(names: Names, v: Operand, t: nat): Lowered {
    match v
    case Number(n) => Code([], Imm(Wrap(64, n)), 64, t)
    case Truth(b) => Code([], Imm(BoolWord(b)), 1, t)
    case Register(name) =>
      match TypeOf(names.scope, name)
      case None => Failed
      case Some(typ) => Code([Emit(Load(t, CellOf(names, name)))], Tmp(t), typ.width, t + 1)
  }

  function LowerCoerce(from: nat, to: nat, unsigned: bool, v: Val, t: nat): Straight {
    if from == to then Code([], v, to, t)
    else
      var kind := if from < to then (if unsigned then ZExt else SExt) else Trunc;
      Code([Emit(Cast(t, kind, from, to, v))], Tmp(t), to, t + 1)
  }

  function SignedGuard(w: nat, a: Val, b: Val, minimum: Word, minusOne: Word, t: nat): seq<Item> {
    [Emit(Arith(t, CmpEq, w, b, Imm(0))),
     Emit(Arith(t + 1, CmpEq, w, a, Imm(minimum))),
     Emit(Arith(t + 2, CmpEq, w, b, Imm(minusOne))),
     Emit(Arith(t + 3, IAnd, 1, Tmp(t + 1), Tmp(t + 2))),
     Emit(Arith(t + 4, IOr, 1, Tmp(t), Tmp(t + 3))),
     TrapIf(Tmp(t + 4))]
  }

  /** The trap condition of an integer division: zero divisor, or signed minimum over minus one. */
  function DivisionGuard(unsigned: bool, w: nat, a: Val, b: Val, t: nat): Straight {
    if unsigned then Code([Emit(Arith(t, CmpEq, w, b, Imm(0))), TrapIf(Tmp(t))], Tmp(t), 1, t + 1)
    else
      var minimum := Wrap(w, Pow2(if w > 0 then w - 1 else 0));
      Code(SignedGuard(w, a, b, minimum, Wrap(w, -1), t), Tmp(t + 4), 1, t + 5)
  }

  /** The single IR instruction behind an operator that needs no trap test. */
  function DirectOp(op: BinaryOp, unsigned: bool): Option<IrOp> {
    match op
    case Add => Some(IAdd)
    case Sub => Some(ISub)
    case Mul => Some(IMul)
    case Div => Some(if unsigned then IUDiv else ISDiv)
    case Mod => Some(if unsigned then IURem else ISRem)
    case Eq => Some(CmpEq)
    case Neq => Some(CmpNe)
    case Gt => Some(if unsigned then CmpUgt else CmpSgt)
    case Lt => Some(if unsigned then CmpUlt else CmpSlt)
    case Gte => Some(if unsigned then CmpUge else CmpSge)
    case Lte => Some(if unsigned then CmpUle else CmpSle)
    case And => Some(IAnd)
    case Or => Some(IOr)
    case Xor => Some(IXor)
    case Lsh => Some(IShl)
    case Rsh => Some(if unsigned then ILShr else IAShr)
    case _ => None
  }

  predicate YieldsTruth(op: BinaryOp) {
    op in {Eq, Neq, Gt, Lt, Gte, Lte, Land, Lor}
  }

  function OperatorGuard(op: BinaryOp, unsigned: bool, w: nat, a: Val, b: Val, t: nat): Straight {
    match op
    case Div => DivisionGuard(unsigned, w, a, b, t)
    case Mod => DivisionGuard(unsigned, w, a, b, t)
    case Lsh => Code([Emit(Arith(t, CmpUge, w, b, Imm(Wrap(w, w)))), TrapIf(Tmp(t))], Tmp(t), 1, t + 1)
    case Rsh => Code([Emit(Arith(t, CmpUge, w, b, Imm(Wrap(w, w)))), TrapIf(Tmp(t))], Tmp(t), 1, t + 1)
    case _ => Code([], a, w, t)
  }

  function LowerDirect(op: BinaryOp, direct: IrOp, unsigned: bool, w: nat, a: Val, b: Val, t: nat): Straight {
    var guard := OperatorGuard(op, unsigned, w, a, b, t);
    var n := guard.next;
    Code(guard.items + [Emit(Arith(n, direct, w, a, b))], Tmp(n), if YieldsTruth(op) then 1 else w, n + 1)
  }

  function LowerOperator(op: BinaryOp, unsigned: bool, w: nat, a: Val, b: Val, t: nat): Straight {
    match DirectOp(op, unsigned)
    case Some(direct) => LowerDirect(op, direct, unsigned, w, a, b, t)
    case None => Code(LogicalItems(if op.Land? then IAnd else IOr, w, a, b, t), Tmp(t + 2), 1, t + 3)
  }

  function LogicalItems(op: IrOp, w: nat, a: Val, b: Val, t: nat): seq<Item> {
    [Emit(Arith(t, CmpNe, w, a, Imm(0))),
     Emit(Arith(t + 1, CmpNe, w, b, Imm(0))),
     Emit(Arith(t + 2, op, 1, Tmp(t), Tmp(t + 1)))]
  }

  datatype LoweredList = CodeList(items: seq<Item>, vals: seq<Val>, next: nat) | FailedList

  function LowerOperands(names: Names, vs: seq<Operand>, t: nat): LoweredList
    decreases |vs|
  {
    if vs == [] then CodeList([], [], t)
    else
      match LowerOperand(names, vs[0], t)
      case Failed => FailedList
      case Code(items, val, _, n) =>
        match LowerOperands(names, vs[1..], n)
        case FailedList => FailedList
        case CodeList(rest, vals, next) => CodeList(items + rest, [val] + vals, next)
  }

  function GuardItems(name: string, from: nat, guards: nat, args: seq<Val>, t: nat): seq<Item>
    decreases guards - from
  {
    if from >= guards then []
    else [Emit(TestGuard(t, name, from, args)), TrapIf(Tmp(t))] + GuardItems(name, from + 1, guards, args, t + 1)
  }

  function InvokeItems(name: string, guards: nat, args: seq<Val>, t: nat): seq<Item> {
    GuardItems(name, 0, guards, args, t) + [Emit(Invoke(t + guards, name, args))]
  }

  function LowerComputation(names: Names, c: Computation, t: nat): Lowered {
    match c
    case Copy(v) => LowerOperand(names, v, t)
    case Not(v) =>
      (match LowerOperand(names, v, t)
       case Failed => Failed
       case Code(items, a, w, n) => Code(items + [Emit(Complement(n, w, a))], Tmp(n), w, n + 1))
    case Lnot(v) =>
      (match LowerOperand(names, v, t)
       case Failed => Failed
       case Code(items, a, w, n) => Code(items + [Emit(Arith(n, CmpEq, w, a, Imm(0)))], Tmp(n), 1, n + 1))
    case Binary(op, lhs, rhs) =>
      (match LowerOperand(names, lhs, t)
       case Failed => Failed
       case Code(first, a, w, n) =>
         match LowerOperand(names, rhs, n)
         case Failed => Failed
         case Code(second, b, w', n') =>
           var unsigned := IsUnsigned(names.scope, lhs);
           var cast := LowerCoerce(w', w, unsigned, b, n');
           var body := LowerOperator(op, unsigned, w, a, cast.val, cast.next);
           Code(first + second + cast.items + body.items, body.val, body.width, body.next))
    case Foreign(name, guards, args, width) =>
      match LowerOperands(names, args, t)
      case FailedList => Failed
      case CodeList(items, vals, n) =>
        Code(items + InvokeItems(name, guards, vals, n), Tmp(n + guards), width, n + guards + 1)
  }

  /** A computation followed by the store into its destination. */
  function LowerStore(names: Names, c: Computation, target: IntType, cell: Cell, t: nat): Lowered {
    match LowerComputation(names, c, t)
    case Failed => Failed
    case Code(items, v, w, n) =>
      var cast := LowerCoerce(w, target.width, target.unsigned, v, n);
      Code(items + cast.items + [Emit(Store(cell, cast.val))], cast.val, target.width, cast.next)
  }

  function LowerCondition(names: Names, v: Operand, t: nat): Lowered {
    match LowerOperand(names, v, t)
    case Failed => Failed
    case Code(items, a, w, n) =>
      if w == 1 then Code(items, a, 1, n)
      else Code(items + [Emit(Arith(n, CmpNe, w, a, Imm(0)))], Tmp(n), 1, n + 1)
  }

  function LowerResult(names: Names, v: Operand, target: IntType, t: nat): Lowered {
    match LowerOperand(names, v, t)
    case Failed => Failed
    case Code(items, a, w, n) =>
      var cast := LowerCoerce(w, target.width, target.unsigned, a, n);
      Code(items + cast.items, cast.val, target.width, cast.next)
  }
}
