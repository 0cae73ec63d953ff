/** The target machine that runs basic blocks. */
module IrMachine {
  import opened Words
  import opened Wrappers
  import opened PsiSyntax
  import opened PsiMachine
  import opened IrCode

  datatype Frame = Frame(temps: map<nat, Word>, slots: map<nat, Word>, globals: Globals, trace: seq<Event>)

  datatype Machine = At(pos: Pos, frame: Frame) | Stopped(outcome: Outcome)

  function Get(v: Val, temps: map<nat, Word>): Word {
    match v
    case Imm(x) => x
    case Tmp(id) => if id in temps then temps[id] else 0
  }

  function GetAll(vs: seq<Val>, temps: map<nat, Word>): seq<Word> {
    if vs == [] then [] else [Get(vs[0], temps)] + GetAll(vs[1..], temps)
  }

  function Fetch(cell: Cell, f: Frame): Word {
    match cell
    case Slot(id) => if id in f.slots then f.slots[id] else 0
    case Global(name) => if name in f.globals then f.globals[name] else 0
  }

  function ApplyOp(op: IrOp, w: nat, a: Word, b: Word): Word {
    match op
    case IAdd => Wrap(w, a + b)
    case ISub => Wrap(w, a - b)
    case IMul => Product(w, a, b)
    case IUDiv => Quotient(true, w, a, b)
    case ISDiv => Quotient(false, w, a, b)
    case IURem => Remainder(true, w, a, b)
    case ISRem => Remainder(false, w, a, b)
    case IAnd => BitAnd(w, a, b)
    case IOr => BitOr(w, a, b)
    case IXor => BitXor(w, a, b)
    case IShl => ShiftLeft(w, a, b)
    case ILShr => ShiftRight(true, w, a, b)
    case IAShr => ShiftRight(false, w, a, b)
    case CmpEq => BoolWord(a == b)
    case CmpNe => BoolWord(a != b)
    case CmpUgt => BoolWord(a > b)
    case CmpSgt => BoolWord(Signed(w, a) > Signed(w, b))
    case CmpUlt => BoolWord(a < b)
    case CmpSlt => BoolWord(Signed(w, a) < Signed(w, b))
    case CmpUge => BoolWord(a >= b)
    case CmpSge => BoolWord(Signed(w, a) >= Signed(w, b))
    case CmpUle => BoolWord(a <= b)
    case CmpSle => BoolWord(Signed(w, a) <= Signed(w, b))
  }

  function ApplyCast(kind: CastKind, from: nat, to: nat, a: Word): Word {
    match kind
    case SExt => Wrap(to, Signed(from, a))
    case ZExt => a
    case Trunc => Wrap(to, a)
  }

  datatype Executed = Fine(frame: Frame) | Crashed(globals: Globals, trace: seq<Event>)

  function Define(f: Frame, dst: nat, x: Word): Frame {
    f.(temps := f.temps[dst := x])
  }

  /** The locals as the environment finds them, in their slots. */
  function Found(places: map<string, nat>, slots: map<nat, Word>): map<string, Word> {
    map name | name in places :: if places[name] in slots then slots[places[name]] else 0
  }

  function InMemory(o: Oracle, f: Frame): Memory {
    Memory(f.trace, f.globals, Found(o.places, f.slots))
  }

  /** The slots after an answer that changes locals. */
  function Overwritten(places: Places, slots: map<nat, Word>, answer: map<string, Word>): map<nat, Word> {
    slots + (map name | name in places && name in answer :: places[name] := answer[name])
  }

  function Execute(o: Oracle, inst: Inst, f: Frame): Executed {
    match inst
    case Load(dst, cell) => Fine(Define(f, dst, Fetch(cell, f)))
    case Store(Slot(id), v) => Fine(f.(slots := f.slots[id := Get(v, f.temps)]))
    case Store(Global(name), v) => Fine(f.(globals := f.globals[name := Get(v, f.temps)]))
    case Arith(dst, op, w, a, b) => Fine(Define(f, dst, ApplyOp(op, w, Get(a, f.temps), Get(b, f.temps))))
    case Complement(dst, w, a) => Fine(Define(f, dst, BitNot(w, Get(a, f.temps))))
    case Cast(dst, kind, from, to, a) => Fine(Define(f, dst, ApplyCast(kind, from, to, Get(a, f.temps))))
    case TestGuard(dst, name, k, args) =>
      Fine(Define(f, dst, BoolWord(o.guard(InMemory(o, f), name, k, GetAll(args, f.temps)))))
    case Invoke(dst, name, args) =>
      var xs := GetAll(args, f.temps);
      var trace := f.trace + [Event(name, xs, f.globals, InMemory(o, f).locals)];
      match o.respond(InMemory(o, f), name, xs)
      case Result(x, globals, locals) =>
        Fine(Define(f, dst, x).(slots := Overwritten(o.places, f.slots, locals), globals := globals, trace := trace))
      case Abort => Crashed(f.globals, trace)
  }

  /** One step: an instruction, or the terminator once all instructions of the block are done. */
  function StepIr(o: Oracle, blocks: seq<Block>, m: Machine): Machine {
    if m.Stopped? then m
    else if m.pos.block >= |blocks| then Stopped(Wrong)
    else
      var block := blocks[m.pos.block];
      var f := m.frame;
      if m.pos.offset < |block.insts| then
        match Execute(o, block.insts[m.pos.offset], f)
        case Fine(f') => At(Pos(m.pos.block, m.pos.offset + 1), f')
        case Crashed(globals, trace) => Stopped(Trapped(globals, trace))
      else
        match block.term
        case None => Stopped(Wrong)
        case Some(Br(target)) => At(Pos(target, 0), f)
        case Some(CondBr(c, yes, no)) => At(Pos(if Get(c, f.temps) != 0 then yes else no, 0), f)
        case Some(Return(None)) => Stopped(Returned(None, f.globals, f.trace))
        case Some(Return(Some(v))) => Stopped(Returned(Some(Get(v, f.temps)), f.globals, f.trace))
        case Some(Trap) => Stopped(Trapped(f.globals, f.trace))
  }

  function RunIr(o: Oracle, blocks: seq<Block>, m: Machine, n: nat): Machine
    decreases n
  {
    if n == 0 then m else RunIr(o, blocks, StepIr(o, blocks, m), n - 1)
  }

  lemma {:induction false} RunIrAdds(o: Oracle, blocks: seq<Block>, m: Machine, n: nat, k: nat)
    ensures RunIr(o, blocks, m, n + k) == RunIr(o, blocks, RunIr(o, blocks, m, n), k)
    decreases n
  {
    if n > 0 {
      RunIrAdds(o, blocks, StepIr(o, blocks, m), n - 1, k);
    }
  }

  /** A halted machine stays halted, so an outcome is reached at most once. */
  lemma {:induction false} StoppedStays(o: Oracle, blocks: seq<Block>, m: Machine, n: nat)
    requires m.Stopped?
    ensures RunIr(o, blocks, m, n) == m
    decreases n
  {
    if n > 0 {
      StoppedStays(o, blocks, m, n - 1);
    }
  }

  function RunItems(o: Oracle, items: seq<Item>, f: Frame): Executed {
    if items == [] then Fine(f)
    else
      match items[0]
      case TrapIf(c) =>
        if Get(c, f.temps) != 0 then Crashed(f.globals, f.trace) else RunItems(o, items[1..], f)
      case Emit(inst) =>
        match Execute(o, inst, f)
        case Crashed(_, _) => Execute(o, inst, f)
        case Fine(f') => RunItems(o, items[1..], f')
  }

  lemma {:induction false} RunItemsAppend(o: Oracle, xs: seq<Item>, ys: seq<Item>, f: Frame)
    ensures RunItems(o, xs + ys, f)
         == (match RunItems(o, xs, f) case Fine(f') => RunItems(o, ys, f') case Crashed(_, _) => RunItems(o, xs, f))
  {
    if xs == [] {
      assert xs + ys == ys;
    } else {
      assert (xs + ys)[1..] == xs[1..] + ys;
      match xs[0]
      case TrapIf(c) => RunItemsAppend(o, xs[1..], ys, f);
      case Emit(inst) =>
        match Execute(o, inst, f)
        case Fine(f') => RunItemsAppend(o, xs[1..], ys, f');
        case Crashed(_, _) =>
    }
  }

  /** Placed items run exactly as their straight-line meaning, one step an item. */
  lemma {:induction false} PlacedRuns(o: Oracle, blocks: seq<Block>, from: Pos, items: seq<Item>, to: Pos, f: Frame)
    returns (steps: nat)
    requires Placed(blocks, from, items, to)
    ensures match RunItems(o, items, f)
            case Fine(f') => steps == |items| && RunIr(o, blocks, At(from, f), steps) == At(to, f')
            case Crashed(globals, trace) => RunIr(o, blocks, At(from, f), steps) == Stopped(Trapped(globals, trace))
    decreases |items|
  {
    if items == [] {
      steps := 0;
    } else {
      var next := StepIr(o, blocks, At(from, f));
      match items[0]
      case Emit(inst) =>
        match Execute(o, inst, f) {
          case Fine(f') =>
            var rest := PlacedRuns(o, blocks, Pos(from.block, from.offset + 1), items[1..], to, f');
            steps := rest + 1;
          case Crashed(_, _) =>
            steps := 1;
            assert RunIr(o, blocks, next, 0) == next;
        }
      case TrapIf(c) =>
        var trap: nat, ok: nat :| Splits(blocks, from, c, trap, ok) && Placed(blocks, Pos(ok, 0), items[1..], to);
        if Get(c, f.temps) != 0 {
          steps := 2;
          assert next == At(Pos(trap, 0), f);
          var last := StepIr(o, blocks, next);
          assert RunIr(o, blocks, next, 1) == RunIr(o, blocks, last, 0);
        } else {
          var rest := PlacedRuns(o, blocks, Pos(ok, 0), items[1..], to, f);
          steps := rest + 1;
        }
    }
  }
}
