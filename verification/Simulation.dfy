/** The generated blocks behave like the command list, step for step, forever. */
module Simulation {
  import opened Words
  import opened Wrappers
  import opened PsiSyntax
  import opened PsiMachine
  import opened IrCode
  import opened IrMachine
  import opened Lowering
  import opened LoweringMeaning
  import opened Layout
  import opened BodyPlan
  import opened Codegen

  /** The frame after a value was stored into a cell. */
  function AfterStore(f: Frame, cell: Cell, x: Word): Frame {
    match cell
    case Slot(id) => f.(slots := f.slots[id := x])
    case Global(name) => f.(globals := f.globals[name := x])
  }

  lemma WriteAgrees(storage: Places, scope: Scope, s: State, f: Frame, name: string, cell: Cell, x: Word)
    requires Agrees(storage, s, f)
    requires if name in scope.locals then name in storage && cell == Slot(storage[name]) else cell == Global(name)
    ensures Agrees(storage, Write(scope, s, name, x), AfterStore(f, cell, x))
  {
  }

  lemma StoreMeaning(o: Oracle, names: Names, s: State, c: Computation, typ: IntType, cell: Cell, t: nat, f: Frame)
    returns (f': Frame)
    requires Agrees(o.places, s, f) && Within(names, o.places) && LowerStore(names, c, typ, cell, t).Code?
    ensures var run := RunItems(o, LowerStore(names, c, typ, cell, t).items, f);
      match EvalComputation(o, names.scope, s, c)
      case Value(w, x, after) =>
        && run == Fine(AfterStore(f', cell, Coerce(w, typ.width, typ.unsigned, x)))
        && Agrees(o.places, after, f')
      case Crash(globals, trace) => run == Crashed(globals, trace)
      case Undefined => false
  {
    hide LowerComputation, EvalComputation, LowerCoerce, Coerce, Agrees, Within;
    var code := LowerComputation(names, c, t);
    ComputationMeaning(o, names, s, c, t, f);
    var cast := LowerCoerce(code.width, typ.width, typ.unsigned, code.val, code.next);
    var last := [Emit(Store(cell, cast.val))] + [];
    assert LowerStore(names, c, typ, cell, t).items == code.items + cast.items + last;
    RunItemsAppend(o, code.items + cast.items, last, f);
    RunItemsAppend(o, code.items, cast.items, f);
    f' := f;
    var computed := EvalComputation(o, names.scope, s, c);
    if computed.Value? {
      var f1 := RunItems(o, code.items, f).frame;
      f' := CoerceMeaning(o, code.width, typ.width, typ.unsigned, code.val, code.next, f1);
      TempsAgree(o.places, computed.after, code.next, f1, f');
      RunEmit(o, Store(cell, cast.val), [], f');
    }
  }

  lemma RunLastStore(o: Oracle, items: seq<Item>, slot: nat, v: Val, f: Frame, f1: Frame) returns (f': Frame)
    requires RunItems(o, items, f) == Fine(f1)
    ensures RunItems(o, items + [Emit(Store(Slot(slot), v))], f) == Fine(f')
    ensures f' == f1.(slots := f1.slots[slot := Get(v, f1.temps)])
  {
    var last := [Emit(Store(Slot(slot), v))] + [];
    assert last == [Emit(Store(Slot(slot), v))];
    RunItemsAppend(o, items, last, f);
    RunEmit(o, Store(Slot(slot), v), [], f1);
    f' := f1.(slots := f1.slots[slot := Get(v, f1.temps)]);
  }

  lemma {:induction false} ZeroRun(o: Oracle, commands: seq<Command>, n: nat, f: Frame) returns (f': Frame)
    requires n <= |commands|
    ensures RunItems(o, ZeroItems(commands, n), f) == Fine(f') && f' == f.(slots := f'.slots)
    ensures forall k :: 0 <= k < n && commands[k].Declare? ==> k in f'.slots && f'.slots[k] == 0
  {
    if n == 0 {
      f' := f;
    } else {
      var f1 := ZeroRun(o, commands, n - 1, f);
      f' := f1;
      if commands[n - 1].Declare? {
        f' := RunLastStore(o, ZeroItems(commands, n - 1), n - 1, Imm(0), f, f1);
      }
    }
  }

  lemma {:induction false} ArgumentRun(o: Oracle, p: Program, n: nat, f: Frame) returns (f': Frame)
    requires n <= |p.args|
    ensures RunItems(o, ArgumentItems(p, n), f) == Fine(f') && f' == f.(slots := f'.slots)
    ensures forall id :: |p.commands| <= id < |p.commands| + n ==>
      id in f'.slots && f'.slots[id] == Get(Tmp(id - |p.commands|), f.temps)
    ensures forall id :: id in f.slots && id < |p.commands| ==> id in f'.slots && f'.slots[id] == f.slots[id]
  {
    if n == 0 {
      f' := f;
    } else {
      var f1 := ArgumentRun(o, p, n - 1, f);
      f' := RunLastStore(o, ArgumentItems(p, n - 1), |p.commands| + n - 1, Tmp(n - 1), f, f1);
    }
  }

  lemma {:induction false} BoundArguments(args: seq<(string, IntType)>, inputs: seq<Word>, locals: map<string, Word>)
    requires |inputs| == |args|
    requires forall i, j :: 0 <= i < j < |args| ==> args[i].0 != args[j].0
    ensures var r := BindArguments(args, inputs, locals);
      && (forall k :: 0 <= k < |args| ==> args[k].0 in r && r[args[k].0] == inputs[k])
      && (forall name :: name in locals ==> name in r)
      && (forall name :: name in locals && (forall k :: 0 <= k < |args| ==> args[k].0 != name) ==>
            r[name] == locals[name])
  {
    if args != [] {
      var n := |args| - 1;
      BoundArguments(args[..n], inputs[..n], locals);
      forall k | 0 <= k < n ensures args[..n][k] == args[k] && inputs[..n][k] == inputs[k] {}
    }
  }

  function InitialFrame(inputs: seq<Word>, globals: Globals): Frame {
    Frame(map k: nat | k < |inputs| :: inputs[k], map[], globals, [])
  }

  lemma InitialLocalAt(p: Program, inputs: seq<Word>, name: string)
    requires Validated(p) && |inputs| == |p.args| && name in Storage(p)
    ensures name in InitialLocals(p, inputs)
    ensures var k := Storage(p)[name];
      if k < |p.commands| then p.commands[k].Declare? && InitialLocals(p, inputs)[name] == 0
      else k < |p.commands| + |p.args| && InitialLocals(p, inputs)[name] == inputs[k - |p.commands|]
  {
    StorageFrom(p, name);
    BoundArguments(p.args, inputs, map n | n in DeclaredNames(p.commands) :: 0);
    var k := Storage(p)[name];
    if k < |p.commands| {
      assert name in DeclaredNames(p.commands);
      assert forall j :: 0 <= j < |p.args| ==> p.args[j].0 != name;
    }
  }

  /** After the entry block every local, declared later or not, is zero, and arguments are bound. */
  lemma EntryMeaning(o: Oracle, p: Program, inputs: seq<Word>, globals: Globals) returns (f: Frame)
    requires Validated(p) && |inputs| == |p.args|
    ensures RunItems(o, EntryItems(p), InitialFrame(inputs, globals)) == Fine(f)
    ensures Agrees(Storage(p), State(InitialLocals(p, inputs), globals, []), f)
  {
    hide InitialLocals, Storage, ZeroItems, ArgumentItems;
    var f0 := InitialFrame(inputs, globals);
    var f1 := ZeroRun(o, p.commands, |p.commands|, f0);
    f := ArgumentRun(o, p, |p.args|, f1);
    RunItemsAppend(o, ZeroItems(p.commands, |p.commands|), ArgumentItems(p, |p.args|), f0);
    forall name | name in Storage(p)
      ensures name in InitialLocals(p, inputs) && Storage(p)[name] in f.slots
      ensures f.slots[Storage(p)[name]] == InitialLocals(p, inputs)[name]
    {
      InitialLocalAt(p, inputs, name);
    }
  }

  /** Source and target agree: same place, same locals, same globals, same trace. */
  ghost predicate Related(p: Program, plan: Plan, c: Config, m: Machine) {
    match c
    case Halted(outcome) => outcome != Wrong && m == Stopped(outcome)
    case Running(pc, s) =>
      && pc <= |p.commands| && pc < |plan.starts| && LiveAt(p, pc)
      && m.At? && m.pos == plan.starts[pc] && Agrees(Storage(p), s, m.frame)
  }

  lemma {:induction false} LabelFound(p: Program, name: string, from: nat)
    requires from <= |p.commands| && exists k :: from <= k < |p.commands| && p.commands[k] == Label(name)
    ensures var r := AfterLabel(p.commands, name, from);
      r.Some? && from < r.value <= |p.commands| && p.commands[r.value - 1] == Label(name)
    decreases |p.commands| - from
  {
    if p.commands[from] != Label(name) {
      LabelFound(p, name, from + 1);
    }
  }

  /** A jump lands just after its label, where the label's block begins. */
  lemma JumpLands(p: Program, blocks: seq<Block>, plan: Plan, name: string, s: State, f: Frame)
    requires Realizes(p, blocks, plan) && name in plan.labels && Agrees(Storage(p), s, f)
    ensures Related(p, plan, JumpTo(p, name, s), At(Pos(plan.labels[name], 0), f))
  {
    hide Agrees, Placed;
    LabelFound(p, name, 0);
    var i := AfterLabel(p.commands, name, 0).value;
    assert CommandPlaced(p, blocks, plan, i - 1);
    EnterShape(p, plan, i - 1);
    LiveStep(p, i - 1);
  }

  lemma CloseStep(o: Oracle, blocks: seq<Block>, pos: Pos, term: Terminator, f: Frame)
    requires Closes(blocks, pos, term)
    ensures StepIr(o, blocks, At(pos, f)) == (match term
      case Br(target) => At(Pos(target, 0), f)
      case CondBr(c, yes, no) => At(Pos(if Get(c, f.temps) != 0 then yes else no, 0), f)
      case Return(None) => Stopped(Returned(None, f.globals, f.trace))
      case Return(Some(v)) => Stopped(Returned(Some(Get(v, f.temps)), f.globals, f.trace))
      case Trap => Stopped(Trapped(f.globals, f.trace)))
    ensures RunIr(o, blocks, At(pos, f), 1) == StepIr(o, blocks, At(pos, f))
  {
    var next := StepIr(o, blocks, At(pos, f));
    assert RunIr(o, blocks, next, 0) == next;
  }

  /** Straight code, then its closing terminator. */
  lemma RunThenClose(o: Oracle, blocks: seq<Block>, from: Pos, items: seq<Item>, mid: Pos, term: Terminator, f: Frame)
    returns (n: nat)
    requires Placed(blocks, from, items, mid) && Closes(blocks, mid, term) && RunItems(o, items, f).Fine?
    ensures n >= 1 && RunIr(o, blocks, At(from, f), n) == StepIr(o, blocks, At(mid, RunItems(o, items, f).frame))
  {
    var k := PlacedRuns(o, blocks, from, items, mid, f);
    CloseStep(o, blocks, mid, term, RunItems(o, items, f).frame);
    RunIrAdds(o, blocks, At(from, f), k, 1);
    n := k + 1;
  }

  ghost predicate StepsTo(o: Oracle, p: Program, blocks: seq<Block>, plan: Plan, pc: nat, s: State, f: Frame, n: nat)
    requires pc < |plan.starts|
  {
    var next := Step(p, o, Running(pc, s));
    && Related(p, plan, next, RunIr(o, blocks, At(plan.starts[pc], f), n))
    && (n >= 1 || (next.Running? && next.pc == pc + 1))
  }

  /** The situation in which one more command is about to run. */
  ghost predicate Ready(p: Program, blocks: seq<Block>, plan: Plan, pc: nat, s: State, f: Frame) {
    && Validated(p) && Lowerable(p) && Realizes(p, blocks, plan)
    && pc < |p.commands| && LiveAt(p, pc) && Agrees(Storage(p), s, f)
    && CommandLowers(p, pc) && CommandPlaced(p, blocks, plan, pc)
  }

  lemma NamesFit(p: Program, i: nat)
    requires Validated(p) && i <= |p.commands|
    ensures Within(NamesAt(p, i), Storage(p))
  {
    NamesWithin(p, i);
  }

  lemma FlowResolves(p: Program, blocks: seq<Block>, plan: Plan, pc: nat, s: State, f: Frame)
    requires Ready(p, blocks, plan, pc, s, f)
    ensures ShapeAt(p, plan, pc) != Reject
  {
    hide ShapeOf;
  }

  lemma StoreStep(o: Oracle, p: Program, blocks: seq<Block>, plan: Plan, pc: nat, s: State, f: Frame,
                  name: string, typ: IntType, comp: Computation, cell: Cell, scope: Scope) returns (n: nat)
    requires o.places == Storage(p)
    requires Ready(p, blocks, plan, pc, s, f)
    requires !p.commands[pc].Jmp? && !p.commands[pc].Ret?
    requires ShapeAt(p, plan, pc) == CodeFlow(LowerStore(NamesAt(p, pc), comp, typ, cell, plan.temps[pc]))
    requires if name in scope.locals then name in Storage(p) && cell == Slot(Storage(p)[name]) else cell == Global(name)
    requires Step(p, o, Running(pc, s))
          == StoreComputed(scope, name, typ, EvalComputation(o, NamesAt(p, pc).scope, s, comp), pc)
    ensures StepsTo(o, p, blocks, plan, pc, s, f, n)
  {
    hide ShapeAt, Step, EvalComputation, LowerStore, Validated, Lowerable, NamesAt, Placed, CommandLowers, Storage,
      Agrees, Coerce, Write, AfterStore;
    FlowResolves(p, blocks, plan, pc, s, f);
    NamesFit(p, pc);
    LiveStep(p, pc);
    var items := ShapeAt(p, plan, pc).items;
    var f1 := StoreMeaning(o, NamesAt(p, pc), s, comp, typ, cell, plan.temps[pc], f);
    n := PlacedRuns(o, blocks, plan.starts[pc], items, plan.starts[pc + 1], f);
    var computed := EvalComputation(o, NamesAt(p, pc).scope, s, comp);
    if computed.Value? {
      var x := Coerce(computed.width, typ.width, typ.unsigned, computed.bits);
      WriteAgrees(o.places, scope, computed.after, f1, name, cell, x);
    }
  }

  lemma PerformStep(o: Oracle, p: Program, blocks: seq<Block>, plan: Plan, pc: nat, s: State, f: Frame) returns (n: nat)
    requires o.places == Storage(p)
    requires Ready(p, blocks, plan, pc, s, f) && p.commands[pc].Perform?
    ensures StepsTo(o, p, blocks, plan, pc, s, f, n)
  {
    hide EvalComputation, LowerComputation, Validated, Lowerable, NamesAt, Placed, CommandLowers, Storage;
    var comp, t := p.commands[pc].comp, plan.temps[pc];
    assert ShapeAt(p, plan, pc) == CodeFlow(LowerComputation(NamesAt(p, pc), comp, t));
    NamesFit(p, pc);
    NamesScope(p, pc);
    LiveStep(p, pc);
    ComputationMeaning(o, NamesAt(p, pc), s, comp, t, f);
    n := PlacedRuns(o, blocks, plan.starts[pc], LowerComputation(NamesAt(p, pc), comp, t).items, plan.starts[pc + 1],
                    f);
  }

  lemma NamesScope(p: Program, i: nat)
    requires i <= |p.commands|
    ensures NamesAt(p, i).scope == Scope(VisibleLocals(p, i), p.globals)
  {
  }

  /** Commands that emit nothing: empty ones and declarations without initializer. */
  lemma IdleStep(o: Oracle, p: Program, blocks: seq<Block>, plan: Plan, pc: nat, s: State, f: Frame) returns (n: nat)
    requires Ready(p, blocks, plan, pc, s, f)
    requires p.commands[pc].Empty? || (p.commands[pc].Declare? && p.commands[pc].init.None?)
    ensures StepsTo(o, p, blocks, plan, pc, s, f, n)
  {
    hide Validated, Lowerable, NamesAt, CommandLowers, Storage, VisibleLocals;
    assert ShapeAt(p, plan, pc) == Flow([]);
    LiveStep(p, pc);
    n := 0;
  }

  lemma LabelStep(o: Oracle, p: Program, blocks: seq<Block>, plan: Plan, pc: nat, s: State, f: Frame) returns (n: nat)
    requires Ready(p, blocks, plan, pc, s, f) && p.commands[pc].Label?
    ensures StepsTo(o, p, blocks, plan, pc, s, f, n)
  {
    hide Validated, Lowerable, NamesAt, Storage, VisibleLocals, Placed;
    assert p.commands[pc] == Label(p.commands[pc].mark);
    EnterShape(p, plan, pc);
    LiveStep(p, pc);
    CloseStep(o, blocks, plan.starts[pc], Br(plan.labels[p.commands[pc].mark]), f);
    n := 1;
  }

  lemma JmpStep(o: Oracle, p: Program, blocks: seq<Block>, plan: Plan, pc: nat, s: State, f: Frame) returns (n: nat)
    requires Ready(p, blocks, plan, pc, s, f) && p.commands[pc].Jmp?
    ensures StepsTo(o, p, blocks, plan, pc, s, f, n)
  {
    hide Validated, Lowerable, NamesAt, Storage, VisibleLocals;
    var name := p.commands[pc].target;
    assert ShapeAt(p, plan, pc) == Stop([], Br(plan.labels[name]));
    var mid :| Placed(blocks, plan.starts[pc], [], mid) && Closes(blocks, mid, Br(plan.labels[name]));
    CloseStep(o, blocks, mid, Br(plan.labels[name]), f);
    JumpLands(p, blocks, plan, name, s, f);
    n := 1;
  }

  lemma ConditionMeaning(o: Oracle, names: Names, storage: map<string, nat>, s: State, v: Operand, t: nat, f: Frame)
    returns (f': Frame)
    requires Agrees(storage, s, f) && Within(names, storage) && LowerCondition(names, v, t).Code?
    ensures var c := LowerCondition(names, v, t);
      && RunItems(o, c.items, f) == Fine(f') && OnlyTemps(t, f, f')
      && EvalOperand(names.scope, s, v).Typed?
      && (Get(c.val, f'.temps) != 0 <==> EvalOperand(names.scope, s, v).bits != 0)
  {
    hide LowerOperand, EvalOperand, Agrees, Within;
    var code := LowerOperand(names, v, t);
    f' := OperandMeaning(o, names, storage, s, v, t, f);
    if code.width != 1 {
      var inst := Arith(code.next, CmpNe, code.width, code.val, Imm(0));
      assert [Emit(inst)] + [] == [Emit(inst)];
      RunItemsAppend(o, code.items, [Emit(inst)], f);
      RunEmit(o, inst, [], f');
      f' := Execute(o, inst, f').frame;
    }
  }

  lemma CjmpStep(o: Oracle, p: Program, blocks: seq<Block>, plan: Plan, pc: nat, s: State, f: Frame) returns (n: nat)
    requires Ready(p, blocks, plan, pc, s, f) && p.commands[pc].Cjmp?
    ensures StepsTo(o, p, blocks, plan, pc, s, f, n)
  {
    hide Validated, Lowerable, Storage, VisibleLocals, EvalOperand, LowerCondition, NamesAt, CommandLowers;
    var v, name, t := p.commands[pc].condition, p.commands[pc].target, plan.temps[pc];
    var names := NamesAt(p, pc);
    var code := LowerCondition(names, v, t);
    FlowResolves(p, blocks, plan, pc, s, f);
    var next := plan.starts[pc + 1];
    assert ShapeAt(p, plan, pc) == Fork(code.items, code.val, plan.labels[name]);
    NamesFit(p, pc);
    NamesScope(p, pc);
    LiveStep(p, pc);
    var mid :| Placed(blocks, plan.starts[pc], code.items, mid)
            && Closes(blocks, mid, CondBr(code.val, plan.labels[name], next.block));
    var f1 := ConditionMeaning(o, names, Storage(p), s, v, t, f);
    n := RunThenClose(o, blocks, plan.starts[pc], code.items, mid, CondBr(code.val, plan.labels[name], next.block), f);
    CloseStep(o, blocks, mid, CondBr(code.val, plan.labels[name], next.block), f1);
    if EvalOperand(names.scope, s, v).bits != 0 {
      JumpLands(p, blocks, plan, name, s, f1);
    }
  }

  lemma ResultMeaning(o: Oracle, names: Names, storage: map<string, nat>, s: State, v: Operand, typ: IntType, t: nat,
                      f: Frame)
    returns (f': Frame)
    requires Agrees(storage, s, f) && Within(names, storage) && LowerResult(names, v, typ, t).Code?
    ensures var c := LowerResult(names, v, typ, t);
      var e := EvalOperand(names.scope, s, v);
      && RunItems(o, c.items, f) == Fine(f') && OnlyTemps(t, f, f')
      && e.Typed? && Get(c.val, f'.temps) == Coerce(e.width, typ.width, typ.unsigned, e.bits)
  {
    hide LowerOperand, EvalOperand, Agrees, Within, LowerCoerce, Coerce;
    var code := LowerOperand(names, v, t);
    var f1 := OperandMeaning(o, names, storage, s, v, t, f);
    var cast := LowerCoerce(code.width, typ.width, typ.unsigned, code.val, code.next);
    f' := CoerceMeaning(o, code.width, typ.width, typ.unsigned, code.val, code.next, f1);
    RunItemsAppend(o, code.items, cast.items, f);
  }

  lemma RetStep(o: Oracle, p: Program, blocks: seq<Block>, plan: Plan, pc: nat, s: State, f: Frame) returns (n: nat)
    requires Ready(p, blocks, plan, pc, s, f) && p.commands[pc].Ret?
    ensures StepsTo(o, p, blocks, plan, pc, s, f, n)
  {
    hide Validated, Lowerable, Storage, VisibleLocals, EvalOperand, LowerResult, NamesAt;
    if p.commands[pc].value.None? {
      assert ShapeAt(p, plan, pc) == Stop([], Return(None));
      var mid :| Placed(blocks, plan.starts[pc], [], mid) && Closes(blocks, mid, Return(None));
      CloseStep(o, blocks, mid, Return(None), f);
      n := 1;
    } else {
      var v, typ, t := p.commands[pc].value.value, p.result.value, plan.temps[pc];
      var code := LowerResult(NamesAt(p, pc), v, typ, t);
      FlowResolves(p, blocks, plan, pc, s, f);
      assert ShapeAt(p, plan, pc) == Stop(code.items, Return(Some(code.val)));
      NamesFit(p, pc);
      NamesScope(p, pc);
      var mid :| Placed(blocks, plan.starts[pc], code.items, mid) && Closes(blocks, mid, Return(Some(code.val)));
      var f1 := ResultMeaning(o, NamesAt(p, pc), Storage(p), s, v, typ, t, f);
      n := RunThenClose(o, blocks, plan.starts[pc], code.items, mid, Return(Some(code.val)), f);
      CloseStep(o, blocks, mid, Return(Some(code.val)), f1);
    }
  }

  lemma DeclareStep(o: Oracle, p: Program, blocks: seq<Block>, plan: Plan, pc: nat, s: State, f: Frame) returns (n: nat)
    requires o.places == Storage(p)
    requires Ready(p, blocks, plan, pc, s, f)
    requires p.commands[pc].Declare? && p.commands[pc].init.Some?
    ensures StepsTo(o, p, blocks, plan, pc, s, f, n)
  {
    hide EvalComputation, LowerStore, Lowerable, Placed, CommandLowers, LowerComputation;
    var c := p.commands[pc];
    DeclarationNames(p, pc);
    DeclarationCell(p, pc);
    NamesScope(p, pc);
    var scope := Scope(VisibleLocals(p, pc)[c.name := c.typ], p.globals);
    n := StoreStep(o, p, blocks, plan, pc, s, f, c.name, c.typ, c.init.value, Slot(Storage(p)[c.name]), scope);
  }

  lemma DeclarationCell(p: Program, i: nat)
    requires Validated(p) && i < |p.commands| && p.commands[i].Declare?
    ensures var name := p.commands[i].name;
      && name in Storage(p) && name in DeclaredSlots(p.commands, |p.commands|)
      && Storage(p)[name] == DeclaredSlots(p.commands, |p.commands|)[name]
  {
    var name := p.commands[i].name;
    DeclaredSlotAt(p, |p.commands|, i);
    if name in ArgumentSlots(p, |p.args|) {
      ArgumentSlotFrom(p, |p.args|, name);
    }
  }

  lemma AssignStep(o: Oracle, p: Program, blocks: seq<Block>, plan: Plan, pc: nat, s: State, f: Frame) returns (n: nat)
    requires o.places == Storage(p)
    requires Ready(p, blocks, plan, pc, s, f) && p.commands[pc].Assign?
    ensures StepsTo(o, p, blocks, plan, pc, s, f, n)
  {
    hide EvalComputation, LowerStore, Lowerable, Placed, LowerComputation, Storage, VisibleLocals, ComputationResolves;
    var c := p.commands[pc];
    var names := NamesAt(p, pc);
    NamesWithin(p, pc);
    NamesScope(p, pc);
    var typ := TypeOf(names.scope, c.name).value;
    n := StoreStep(o, p, blocks, plan, pc, s, f, c.name, typ, c.comp, CellOf(names, c.name), names.scope);
  }

  /** One source step is some number of target steps, none only when the counter moves forward. */
  lemma StepSimulated(o: Oracle, p: Program, blocks: seq<Block>, plan: Plan, pc: nat, s: State,
                      f: Frame) returns (n: nat)
    requires o.places == Storage(p)
    requires Validated(p) && Lowerable(p) && Realizes(p, blocks, plan)
    requires pc < |plan.starts| && Related(p, plan, Running(pc, s), At(plan.starts[pc], f))
    ensures StepsTo(o, p, blocks, plan, pc, s, f, n)
  {
    hide Placed, Step, Agrees, StepsTo, LiveAt;
    if pc == |p.commands| {
      n := EndStep(o, p, blocks, plan, s, f);
    } else {
      assert Ready(p, blocks, plan, pc, s, f);
      var c := p.commands[pc];
      if c.Declare? && c.init.Some? { n := DeclareStep(o, p, blocks, plan, pc, s, f); }
      else if c.Declare? || c.Empty? { n := IdleStep(o, p, blocks, plan, pc, s, f); }
      else if c.Assign? { n := AssignStep(o, p, blocks, plan, pc, s, f); }
      else if c.Perform? { n := PerformStep(o, p, blocks, plan, pc, s, f); }
      else if c.Label? { n := LabelStep(o, p, blocks, plan, pc, s, f); }
      else if c.Jmp? { n := JmpStep(o, p, blocks, plan, pc, s, f); }
      else if c.Cjmp? { n := CjmpStep(o, p, blocks, plan, pc, s, f); }
      else { n := RetStep(o, p, blocks, plan, pc, s, f); }
    }
  }

  lemma EndStep(o: Oracle, p: Program, blocks: seq<Block>, plan: Plan, s: State, f: Frame) returns (n: nat)
    requires Validated(p) && Lowerable(p) && Realizes(p, blocks, plan)
    requires Related(p, plan, Running(|p.commands|, s), At(plan.starts[|p.commands|], f))
    ensures StepsTo(o, p, blocks, plan, |p.commands|, s, f, n)
  {
    hide Placed, CommandPlaced, CommandLowers;
    CloseStep(o, blocks, plan.starts[|p.commands|], Return(None), f);
    n := 1;
  }

  /** After any number of source steps the target has a matching state, and it has made at least one
      step for every pass of the counter over the whole text. */
  lemma {:induction false} RunSimulated(o: Oracle, p: Program, blocks: seq<Block>, plan: Plan,
                                        pc: nat, s: State, f: Frame, steps: nat) returns (n: nat)
    requires o.places == Storage(p)
    requires Validated(p) && Lowerable(p) && Realizes(p, blocks, plan)
    requires pc < |plan.starts| && Related(p, plan, Running(pc, s), At(plan.starts[pc], f))
    ensures var last := Run(p, o, Running(pc, s), steps);
      && Related(p, plan, last, RunIr(o, blocks, At(plan.starts[pc], f), n))
      && (last.Running? ==> n * (|p.commands| + 1) + last.pc >= steps + pc)
    decreases steps
  {
    hide Realizes, Lowerable, Step, StepIr, Agrees, LiveAt;
    if steps == 0 {
      n := 0;
    } else {
      var k := StepSimulated(o, p, blocks, plan, pc, s, f);
      var c := Step(p, o, Running(pc, s));
      var m := RunIr(o, blocks, At(plan.starts[pc], f), k);
      match c
      case Halted(_) =>
        HaltedStays(p, o, c, steps - 1);
        n := k;
      case Running(pc', s') =>
        var rest := RunSimulated(o, p, blocks, plan, pc', s', m.frame, steps - 1);
        RunIrAdds(o, blocks, At(plan.starts[pc], f), k, rest);
        n := k + rest;
        var last := Run(p, o, Running(pc, s), steps);
        if last.Running? {
          StepsCovered(k, rest, |p.commands|, pc, pc', last.pc, steps);
        }
    }
  }

  lemma StepsCovered(k: nat, rest: nat, size: nat, pc: nat, pc': nat, last: nat, steps: nat)
    requires rest * (size + 1) + last >= steps - 1 + pc' && pc <= size
    requires k >= 1 || pc' == pc + 1
    ensures (k + rest) * (size + 1) + last >= steps + pc
  {
    assert (k + rest) * (size + 1) == k * (size + 1) + rest * (size + 1);
    if k >= 1 {
      assert k * (size + 1) >= size + 1;
    }
  }

  lemma {:induction false} HaltedStays(p: Program, o: Oracle, c: Config, n: nat)
    requires c.Halted?
    ensures Run(p, o, c, n) == c
    decreases n
  {
    if n > 0 {
      HaltedStays(p, o, c, n - 1);
    }
  }

  function EntryMachine(inputs: seq<Word>, globals: Globals): Machine {
    At(Pos(0, 0), InitialFrame(inputs, globals))
  }

  /** Every source run is matched by a target run from the function's entry. */
  lemma BodySimulated(p: Program, blocks: seq<Block>, plan: Plan, o: Oracle, inputs: seq<Word>, globals: Globals,
                      steps: nat)
    returns (n: nat)
    requires o.places == Storage(p)
    requires Validated(p) && Lowerable(p) && Realizes(p, blocks, plan) && |inputs| == |p.args|
    ensures var last := Run(p, o, Start(p, inputs, globals), steps);
      && Related(p, plan, last, RunIr(o, blocks, EntryMachine(inputs, globals), n))
      && (last.Running? ==> n * (|p.commands| + 1) + last.pc >= steps)
  {
    hide Storage, InitialLocals, EntryItems, InitialFrame, Agrees, Lowerable, RunItems, Step;
    var f := EntryMeaning(o, p, inputs, globals);
    var k := PlacedRuns(o, blocks, Pos(0, 0), EntryItems(p), plan.starts[0], InitialFrame(inputs, globals));
    var rest := RunSimulated(o, p, blocks, plan, 0, State(InitialLocals(p, inputs), globals, []), f, steps);
    RunIrAdds(o, blocks, EntryMachine(inputs, globals), k, rest);
    n := k + rest;
    assert (k + rest) * (|p.commands| + 1) == k * (|p.commands| + 1) + rest * (|p.commands| + 1);
  }

  ghost predicate SourceHalts(p: Program, o: Oracle, c: Config, outcome: Outcome) {
    exists n: nat :: Run(p, o, c, n) == Halted(outcome)
  }

  ghost predicate TargetStops(blocks: seq<Block>, o: Oracle, m: Machine, outcome: Outcome) {
    exists n: nat :: RunIr(o, blocks, m, n) == Stopped(outcome)
  }

  lemma ManyRounds(j: nat, k: nat, size: nat, pc: nat)
    requires j * size + pc >= (k + 1) * size && pc < size
    ensures j > k
  {
  }

  /** A target that stops is matched by a source that halts: otherwise the source would drive the
      target past its last step. */
  lemma HaltsToo(p: Program, blocks: seq<Block>, plan: Plan, o: Oracle, inputs: seq<Word>, globals: Globals,
                 k: nat, outcome: Outcome)
    requires o.places == Storage(p)
    requires Validated(p) && Lowerable(p) && Realizes(p, blocks, plan) && |inputs| == |p.args|
    requires RunIr(o, blocks, EntryMachine(inputs, globals), k) == Stopped(outcome)
    ensures SourceHalts(p, o, Start(p, inputs, globals), outcome)
  {
    hide Start, EntryMachine, Realizes, Lowerable, Storage, Agrees, LiveAt, Run, RunIr;
    var entry := EntryMachine(inputs, globals);
    var size := |p.commands| + 1;
    var n := (k + 1) * size;
    var j := BodySimulated(p, blocks, plan, o, inputs, globals, n);
    var last := Run(p, o, Start(p, inputs, globals), n);
    if last.Running? {
      ManyRounds(j, k, size, last.pc);
    }
    if j >= k {
      RunIrAdds(o, blocks, entry, k, j - k);
      StoppedStays(o, blocks, Stopped(outcome), j - k);
    } else {
      RunIrAdds(o, blocks, entry, j, k - j);
      StoppedStays(o, blocks, Stopped(last.outcome), k - j);
    }
    assert last == Halted(outcome);
  }

  /** Lowering preserves meaning: for every input, initial globals and environment that knows where the
      locals are, the generated function stops with exactly the outcomes (result, globals, trace of
      foreign instructions, or trap) of the command list, so it also runs forever exactly when the
      command list does. The environment may change any local, in its slot, at every foreign instruction. */
  lemma LoweringPreservesMeaning(p: Program, blocks: seq<Block>, plan: Plan, o: Oracle,
                                 inputs: seq<Word>, globals: Globals, outcome: Outcome)
    requires o.places == Storage(p)
    requires Validated(p) && Lowerable(p) && Realizes(p, blocks, plan) && |inputs| == |p.args|
    ensures SourceHalts(p, o, Start(p, inputs, globals), outcome)
       <==> TargetStops(blocks, o, EntryMachine(inputs, globals), outcome)
    ensures SourceHalts(p, o, Start(p, inputs, globals), outcome) ==> outcome != Wrong
  {
    hide Start, EntryMachine, Realizes, Lowerable, Storage, Agrees, LiveAt, Run, RunIr;
    var start, entry := Start(p, inputs, globals), EntryMachine(inputs, globals);
    if SourceHalts(p, o, start, outcome) {
      var n: nat :| Run(p, o, start, n) == Halted(outcome);
      var k := BodySimulated(p, blocks, plan, o, inputs, globals, n);
      assert RunIr(o, blocks, entry, k) == Stopped(outcome);
    }
    if TargetStops(blocks, o, entry, outcome) {
      var k: nat :| RunIr(o, blocks, entry, k) == Stopped(outcome);
      HaltsToo(p, blocks, plan, o, inputs, globals, k, outcome);
    }
  }

  /** Compiling a body: it succeeds exactly on the lowerable ones, and then the blocks form a closed
      graph that halts, traps, traces and diverges as the command list does. */
  method CompileBody(p: Program) returns (ok: bool, blocks: seq<Block>)
    requires Validated(p)
    ensures ok <==> Lowerable(p)
    ensures ok ==> WellFormed(blocks)
    ensures ok ==> forall o: Oracle, inputs, globals, outcome
      {:trigger SourceHalts(p, o, Start(p, inputs, globals), outcome)} ::
      |inputs| == |p.args| && o.places == Storage(p) ==>
      (SourceHalts(p, o, Start(p, inputs, globals), outcome)
       <==> TargetStops(blocks, o, EntryMachine(inputs, globals), outcome))
  {
    var builder := new FunctionBuilder(p);
    ghost var plan := builder.GenerateFunctionBody();
    ok, blocks := !builder.errors, builder.cursor.blocks;
    if ok {
      forall o: Oracle, inputs, globals, outcome | |inputs| == |p.args| && o.places == Storage(p)
        ensures SourceHalts(p, o, Start(p, inputs, globals), outcome)
           <==> TargetStops(blocks, o, EntryMachine(inputs, globals), outcome)
      {
        LoweringPreservesMeaning(p, blocks, plan, o, inputs, globals, outcome);
      }
    }
  }
}
