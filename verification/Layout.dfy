/** How each command extends the control-flow graph, and where its code ends up. */
module Layout {
  import opened Words
  import opened Wrappers
  import opened PsiSyntax
  import opened IrCode
  import opened Lowering

  /** The branch targets of a terminator. */
  function Targets(t: Terminator): set<nat> {
    match t
    case Br(target) => {target}
    case CondBr(_, yes, no) => {yes, no}
    case _ => {}
  }

  /** The function under construction and the block instructions are added to. */
  datatype Cursor = Cursor(blocks: seq<Block>, insert: nat)

  predicate Open(c: Cursor) {
    c.insert < |c.blocks| && c.blocks[c.insert].term.None?
  }

  ghost function Here(c: Cursor): Pos
    requires Open(c)
  {
    Pos(c.insert, |c.blocks[c.insert].insts|)
  }

  function EmitItem(c: Cursor, item: Item): (r: Cursor)
    requires Open(c)
    ensures Open(r)
  {
    match item
    case Emit(inst) =>
      c.(blocks := c.blocks[c.insert := c.blocks[c.insert].(insts := c.blocks[c.insert].insts + [inst])])
    case TrapIf(condition) =>
      var trap, ok := |c.blocks|, |c.blocks| + 1;
      Cursor(c.blocks[c.insert := c.blocks[c.insert].(term := Some(CondBr(condition, trap, ok)))]
             + [Block([], Some(Trap)), Block([], None)], ok)
  }

  function EmitAll(c: Cursor, items: seq<Item>): (r: Cursor)
    requires Open(c)
    ensures Open(r)
    decreases |items|
  {
    if items == [] then c
    else EmitItem(EmitAll(c, items[..|items| - 1]), items[|items| - 1])
  }

  /** The graph a command contributes: straight code, code that ends the block, a two-way branch
      whose false side continues in a fresh block, or the start of a labelled block. */
  datatype Shape =
    | Flow(items: seq<Item>)
    | Stop(items: seq<Item>, term: Terminator)
    | Fork(items: seq<Item>, condition: Val, target: nat)
    | Enter(target: nat)
    | Reject

  function CodeFlow(code: Lowered): Shape {
    if code.Code? then Flow(code.items) else Reject
  }

  function CodeFork(code: Lowered, target: nat): Shape {
    if code.Code? then Fork(code.items, code.val, target) else Reject
  }

  function CodeReturn(code: Lowered): Shape {
    if code.Code? then Stop(code.items, Return(Some(code.val))) else Reject
  }

  function ShapeOf(p: Program, names: Names, storage: map<string, nat>, labels: map<string, nat>, c: Command,
                   t: nat): Shape {
    match c
    case Empty => Flow([])
    case Declare(_, _, None) => Flow([])
    case Declare(name, typ, Some(comp)) =>
      if name in storage then CodeFlow(LowerStore(names, comp, typ, Slot(storage[name]), t)) else Reject
    case Assign(name, comp) =>
      (match TypeOf(names.scope, name)
       case Some(typ) => CodeFlow(LowerStore(names, comp, typ, CellOf(names, name), t))
       case None => Reject)
    case Perform(comp) => CodeFlow(LowerComputation(names, comp, t))
    case Label(mark) => if mark in labels then Enter(labels[mark]) else Reject
    case Jmp(target) => if target in labels then Stop([], Br(labels[target])) else Reject
    case Cjmp(v, target) =>
      if target in labels then CodeFork(LowerCondition(names, v, t), labels[target]) else Reject
    case Ret(None) => Stop([], Return(None))
    case Ret(Some(v)) =>
      if p.result.Some? then CodeReturn(LowerResult(names, v, p.result.value, t)) else Reject
  }

  function Terminate(c: Cursor, term: Terminator): Cursor
    requires c.insert < |c.blocks|
  {
    c.(blocks := c.blocks[c.insert := c.blocks[c.insert].(term := Some(term))])
  }

  /** A conditional branch whose false side continues in a fresh block. */
  function Branch(c: Cursor, condition: Val, target: nat): Cursor
    requires c.insert < |c.blocks|
  {
    var next := |c.blocks|;
    Cursor(Terminate(c, CondBr(condition, target, next)).blocks + [Block([], None)], next)
  }

  /** Only a label may follow a terminated block. */
  predicate Accepts(c: Cursor, shape: Shape) {
    match shape
    case Enter(target) => c.insert < |c.blocks| && target < |c.blocks|
    case Reject => false
    case _ => Open(c)
  }

  function Extend(c: Cursor, shape: Shape): Cursor
    requires Accepts(c, shape)
  {
    match shape
    case Flow(items) => EmitAll(c, items)
    case Stop(items, term) => Terminate(EmitAll(c, items), term)
    case Fork(items, condition, target) => Branch(EmitAll(c, items), condition, target)
    case Enter(target) =>
      Cursor(if c.blocks[c.insert].term.None? then Terminate(c, Br(target)).blocks else c.blocks, target)
  }

  /** The block ends at the position with the given terminator. */
  predicate Closes(blocks: seq<Block>, pos: Pos, term: Terminator) {
    && pos.block < |blocks| && pos.offset == |blocks[pos.block].insts|
    && blocks[pos.block].term == Some(term)
  }

  /** The command's code lies between two positions; an unreachable start matters to no one. */
  ghost predicate Implements(blocks: seq<Block>, live: bool, here: Pos, shape: Shape, next: Pos) {
    match shape
    case Flow(items) => live ==> Placed(blocks, here, items, next)
    case Stop(items, term) => live ==> exists mid :: Placed(blocks, here, items, mid) && Closes(blocks, mid, term)
    case Fork(items, condition, target) =>
      && next.offset == 0
      && (live ==> exists mid :: Placed(blocks, here, items, mid)
                              && Closes(blocks, mid, CondBr(condition, target, next.block)))
    case Enter(target) => next == Pos(target, 0) && (live ==> Closes(blocks, here, Br(target)))
    case Reject => false
  }

  lemma EmitItemPlaced(c: Cursor, item: Item)
    requires Open(c)
    ensures Extends(c.blocks, EmitItem(c, item).blocks)
    ensures Placed(EmitItem(c, item).blocks, Here(c), [item], Here(EmitItem(c, item)))
  {
    var r := EmitItem(c, item);
    match item {
      case Emit(_) =>
      case TrapIf(condition) => assert Splits(r.blocks, Here(c), condition, |c.blocks|, r.insert);
    }
    assert [item][1..] == [];
  }

  lemma {:induction false} EmitAllPlaced(c: Cursor, items: seq<Item>)
    requires Open(c)
    ensures Extends(c.blocks, EmitAll(c, items).blocks)
    ensures Placed(EmitAll(c, items).blocks, Here(c), items, Here(EmitAll(c, items)))
    decreases |items|
  {
    if items != [] {
      hide EmitItem, Placed;
      var n := |items| - 1;
      EmitAllPlaced(c, items[..n]);
      var m := EmitAll(c, items[..n]);
      var r := EmitItem(m, items[n]);
      EmitItemPlaced(m, items[n]);
      PlacedStays(m.blocks, r.blocks, Here(c), items[..n], Here(m));
      PlacedAppend(r.blocks, Here(c), items[..n], Here(m), [items[n]], Here(r));
      assert items[..n] + [items[n]] == items;
    }
  }

  /** Only the insertion block and the blocks of labels not yet reached lack a terminator, and no
      branch leaves the function or re-enters its entry block. */
  ghost predicate Closed(c: Cursor, pending: set<nat>) {
    && c.insert < |c.blocks| && c.insert !in pending
    && (forall b :: b in pending ==> b < |c.blocks|)
    && (forall b :: 0 <= b < |c.blocks| && b != c.insert ==>
          if b in pending then c.blocks[b] == Block([], None) else c.blocks[b].term.Some?)
    && (forall b :: 0 <= b < |c.blocks| && c.blocks[b].term.Some? ==>
          forall t :: t in Targets(c.blocks[b].term.value) ==> 0 < t < |c.blocks|)
  }

  lemma {:induction false} EmitAllClosed(c: Cursor, items: seq<Item>, pending: set<nat>)
    requires Open(c) && Closed(c, pending)
    ensures Closed(EmitAll(c, items), pending)
    decreases |items|
  {
    if items != [] {
      EmitAllClosed(c, items[..|items| - 1], pending);
    }
  }

  ghost predicate TargetsInside(shape: Shape, blocks: seq<Block>) {
    match shape
    case Stop(_, term) => forall t :: t in Targets(term) ==> 0 < t < |blocks|
    case Fork(_, _, target) => 0 < target < |blocks|
    case Enter(target) => 0 < target < |blocks|
    case _ => true
  }

  /** What one command keeps: the graph stays closed, earlier blocks survive, its code is in place. */
  ghost predicate Progress(c: Cursor, shape: Shape, pending: set<nat>, here: Pos)
    requires Accepts(c, shape)
  {
    var r := Extend(c, shape);
    && Closed(r, if shape.Enter? then pending - {shape.target} else pending)
    && Extends(c.blocks, r.blocks)
    && (if shape.Stop? then !Open(r) else Open(r))
    && Implements(r.blocks, Open(c), here, shape, if Open(r) then Here(r) else here)
  }

  lemma FlowProgress(c: Cursor, shape: Shape, pending: set<nat>)
    requires shape.Flow? && Open(c) && Closed(c, pending)
    ensures Progress(c, shape, pending, Here(c))
  {
    EmitAllPlaced(c, shape.items);
    EmitAllClosed(c, shape.items, pending);
  }

  lemma StopProgress(c: Cursor, shape: Shape, pending: set<nat>)
    requires shape.Stop? && Open(c) && Closed(c, pending) && TargetsInside(shape, c.blocks)
    ensures Progress(c, shape, pending, Here(c))
  {
    var m, r := EmitAll(c, shape.items), Extend(c, shape);
    EmitAllPlaced(c, shape.items);
    EmitAllClosed(c, shape.items, pending);
    assert Extends(m.blocks, r.blocks);
    PlacedStays(m.blocks, r.blocks, Here(c), shape.items, Here(m));
    assert Closes(r.blocks, Here(m), shape.term);
  }

  lemma ForkProgress(c: Cursor, shape: Shape, pending: set<nat>)
    requires shape.Fork? && Open(c) && Closed(c, pending) && TargetsInside(shape, c.blocks)
    ensures Progress(c, shape, pending, Here(c))
  {
    var m, r := EmitAll(c, shape.items), Extend(c, shape);
    EmitAllPlaced(c, shape.items);
    EmitAllClosed(c, shape.items, pending);
    assert Extends(m.blocks, r.blocks);
    PlacedStays(m.blocks, r.blocks, Here(c), shape.items, Here(m));
    assert Closes(r.blocks, Here(m), CondBr(shape.condition, shape.target, r.insert));
  }

  lemma EnterProgress(c: Cursor, shape: Shape, pending: set<nat>, here: Pos)
    requires shape.Enter? && Closed(c, pending) && shape.target in pending && shape.target > 0
    requires Open(c) ==> here == Here(c)
    ensures Progress(c, shape, pending, here)
  {
  }

  /** Whether control can fall into command i from the commands before it. */
  predicate LiveAt(p: Program, i: nat)
    requires i <= |p.commands|
  {
    i == 0 || match p.commands[i - 1]
              case Label(_) => true
              case Jmp(_) => false
              case Ret(_) => false
              case _ => LiveAt(p, i - 1)
  }

  /** Slots of the first n commands' declarations; a slot is named by its command. */
  function DeclaredSlots(commands: seq<Command>, n: nat): map<string, nat>
    requires n <= |commands|
  {
    if n == 0 then map[]
    else if commands[n - 1].Declare? then DeclaredSlots(commands, n - 1)[commands[n - 1].name := n - 1]
    else DeclaredSlots(commands, n - 1)
  }

  function ArgumentSlots(p: Program, n: nat): map<string, nat>
    requires n <= |p.args|
  {
    if n == 0 then map[] else ArgumentSlots(p, n - 1)[p.args[n - 1].0 := |p.commands| + n - 1]
  }

  function Storage(p: Program): map<string, nat> {
    DeclaredSlots(p.commands, |p.commands|) + ArgumentSlots(p, |p.args|)
  }

  function ZeroItems(commands: seq<Command>, n: nat): seq<Item>
    requires n <= |commands|
  {
    if n == 0 then []
    else if commands[n - 1].Declare? then ZeroItems(commands, n - 1) + [Emit(Store(Slot(n - 1), Imm(0)))]
    else ZeroItems(commands, n - 1)
  }

  function ArgumentItems(p: Program, n: nat): seq<Item>
    requires n <= |p.args|
  {
    if n == 0 then [] else ArgumentItems(p, n - 1) + [Emit(Store(Slot(|p.commands| + n - 1), Tmp(n - 1)))]
  }

  /** The entry block zeroes every declared local, then stores the arguments. */
  function EntryItems(p: Program): seq<Item> {
    ZeroItems(p.commands, |p.commands|) + ArgumentItems(p, |p.args|)
  }

  function NamesAt(p: Program, i: nat): Names
    requires i <= |p.commands|
  {
    var visible := VisibleLocals(p, i);
    var storage := Storage(p);
    Names(map name | name in visible :: if name in storage then storage[name] else 0, Scope(visible, p.globals))
  }

  predicate HasLabel(commands: seq<Command>, name: string) {
    Label(name) in commands
  }

  predicate Resolves(scope: Scope, v: Operand) {
    v.Register? ==> TypeOf(scope, v.name).Some?
  }

  predicate ComputationResolves(scope: Scope, c: Computation) {
    match c
    case Copy(v) => Resolves(scope, v)
    case Not(v) => Resolves(scope, v)
    case Lnot(v) => Resolves(scope, v)
    case Binary(_, lhs, rhs) => Resolves(scope, lhs) && Resolves(scope, rhs)
    case Foreign(_, _, args, _) => forall v :: v in args ==> Resolves(scope, v)
  }

  /** Command i can be lowered: it is reachable in the text, its names resolve, its label exists. */
  predicate CommandLowers(p: Program, i: nat)
    requires i < |p.commands|
  {
    var c := p.commands[i];
    var scope := Scope(VisibleLocals(p, i), p.globals);
    && (LiveAt(p, i) || c.Empty? || c.Label?)
    && match c
       case Declare(_, _, Some(comp)) => ComputationResolves(scope, comp)
       case Assign(name, comp) => TypeOf(scope, name).Some? && ComputationResolves(scope, comp)
       case Perform(comp) => ComputationResolves(scope, comp)
       case Jmp(target) => HasLabel(p.commands, target)
       case Cjmp(v, target) => Resolves(scope, v) && HasLabel(p.commands, target)
       case Ret(None) => p.result.None?
       case Ret(Some(v)) => p.result.Some? && Resolves(scope, v)
       case _ => true
  }

  /** The bodies that lower without a logged error. */
  predicate Lowerable(p: Program) {
    && (forall i :: 0 <= i < |p.commands| ==> CommandLowers(p, i))
    && (LiveAt(p, |p.commands|) ==> p.result.None?)
  }

  lemma {:induction false} OperandsResolve(names: Names, vs: seq<Operand>, t: nat)
    ensures LowerOperands(names, vs, t).CodeList? <==> forall v :: v in vs ==> Resolves(names.scope, v)
    decreases |vs|
  {
    if vs != [] {
      assert vs[0] in vs && forall v :: v in vs <==> v == vs[0] || v in vs[1..];
      var head := LowerOperand(names, vs[0], t);
      if head.Code? {
        OperandsResolve(names, vs[1..], head.next);
      }
    }
  }

  lemma ComputationResolve(names: Names, c: Computation, t: nat)
    ensures LowerComputation(names, c, t).Code? <==> ComputationResolves(names.scope, c)
  {
    match c
    case Foreign(_, _, args, _) => OperandsResolve(names, args, t);
    case _ =>
  }

  /** A shape is rejected exactly for an unresolved name, a missing label or a stray result. */
  lemma ShapeAccepted(p: Program, names: Names, storage: map<string, nat>, labels: map<string, nat>, i: nat, t: nat)
    requires i < |p.commands| && LiveAt(p, i)
    requires names.scope == Scope(VisibleLocals(p, i), p.globals)
    requires p.commands[i].Declare? ==> p.commands[i].name in storage
    requires forall name :: name in labels <==> HasLabel(p.commands, name)
    ensures var c := p.commands[i];
      var shape := ShapeOf(p, names, storage, labels, c, t);
      if c == Ret(None) then shape == Stop([], Return(None))
      else shape != Reject <==> CommandLowers(p, i)
  {
    match p.commands[i]
    case Declare(_, _, Some(comp)) => ComputationResolve(names, comp, t);
    case Assign(_, comp) => ComputationResolve(names, comp, t);
    case Perform(comp) => ComputationResolve(names, comp, t);
    case _ =>
  }

  /** Where everything ended up: label blocks, and each command's first position and temporary. */
  datatype Plan = Plan(labels: map<string, nat>, starts: seq<Pos>, temps: seq<nat>)

  function ShapeAt(p: Program, plan: Plan, i: nat): Shape
    requires i < |p.commands| && i < |plan.temps|
  {
    ShapeOf(p, NamesAt(p, i), DeclaredSlots(p.commands, |p.commands|), plan.labels, p.commands[i], plan.temps[i])
  }

  ghost predicate CommandPlaced(p: Program, blocks: seq<Block>, plan: Plan, i: nat)
    requires i < |p.commands| && i < |plan.temps| && i + 1 < |plan.starts|
  {
    Implements(blocks, LiveAt(p, i), plan.starts[i], ShapeAt(p, plan, i), plan.starts[i + 1])
  }

  /** The blocks are the program's code under the plan. */
  ghost predicate Realizes(p: Program, blocks: seq<Block>, plan: Plan) {
    var n := |p.commands|;
    && |plan.starts| == n + 1 && |plan.temps| == n + 1
    && Placed(blocks, Pos(0, 0), EntryItems(p), plan.starts[0])
    && (forall name :: name in plan.labels <==> HasLabel(p.commands, name))
    && (forall i :: 0 <= i < n ==> CommandPlaced(p, blocks, plan, i))
    && (LiveAt(p, n) ==> Closes(blocks, plan.starts[n], Return(None)))
  }

  /** Every block has its one terminator, and branches stay inside, away from the entry block. */
  ghost predicate WellFormed(blocks: seq<Block>) {
    forall b :: 0 <= b < |blocks| ==>
      && blocks[b].term.Some?
      && forall t :: t in Targets(blocks[b].term.value) ==> 0 < t < |blocks|
  }

  lemma ImplementsStays(before: seq<Block>, after: seq<Block>, live: bool, here: Pos, shape: Shape, next: Pos)
    requires Extends(before, after) && Implements(before, live, here, shape, next)
    ensures Implements(after, live, here, shape, next)
  {
    if live {
      match shape
      case Flow(items) => PlacedStays(before, after, here, items, next);
      case Stop(items, term) =>
        var mid :| Placed(before, here, items, mid) && Closes(before, mid, term);
        PlacedStays(before, after, here, items, mid);
        assert Closes(after, mid, term);
      case Fork(items, condition, target) =>
        var mid :| Placed(before, here, items, mid) && Closes(before, mid, CondBr(condition, target, next.block));
        PlacedStays(before, after, here, items, mid);
        assert Closes(after, mid, CondBr(condition, target, next.block));
      case Enter(_) =>
    }
  }

  /** Each label of the first n commands has its own empty block, and there are no other blocks
      besides the entry block. */
  ghost predicate LabelsPredeclared(commands: seq<Command>, n: nat, labels: map<string, nat>, blocks: seq<Block>)
    requires n <= |commands|
  {
    && (forall i :: 0 <= i < n && commands[i].Label? ==> commands[i].mark in labels)
    && (forall name :: name in labels ==> 0 < labels[name] < |blocks|)
    && (forall name :: name in labels ==> exists i :: 0 <= i < n && commands[i] == Label(name))
    && (forall a, b :: a in labels && b in labels && a != b ==> labels[a] != labels[b])
    && (forall b :: 0 < b < |blocks| ==> blocks[b] == Block([], None) && b in labels.Values)
  }

  lemma PredeclareStep(commands: seq<Command>, n: nat, labels: map<string, nat>, blocks: seq<Block>)
    requires n < |commands| && |blocks| > 0 && LabelsPredeclared(commands, n, labels, blocks)
    ensures var c := commands[n];
      if c.Label? && c.mark !in labels
      then LabelsPredeclared(commands, n + 1, labels[c.mark := |blocks|], blocks + [Block([], None)])
      else LabelsPredeclared(commands, n + 1, labels, blocks)
  {
    var c := commands[n];
    if c.Label? && c.mark !in labels {
      var labels' := labels[c.mark := |blocks|];
      var after := blocks + [Block([], None)];
      forall b | 0 < b < |after| ensures after[b] == Block([], None) && b in labels'.Values {
        if b < |blocks| {
          assert after[b] == blocks[b];
          var name :| name in labels && labels[name] == b;
          assert name in labels' && labels'[name] == b;
        } else {
          assert c.mark in labels' && labels'[c.mark] == b;
        }
      }
      assert commands[n] == Label(c.mark);
      forall name | name in labels' ensures exists i :: 0 <= i < n + 1 && commands[i] == Label(name) {
        if name != c.mark {
          var i :| 0 <= i < n && commands[i] == Label(name);
        }
      }
    } else {
      forall name | name in labels ensures exists i :: 0 <= i < n + 1 && commands[i] == Label(name) {
        var i :| 0 <= i < n && commands[i] == Label(name);
      }
    }
  }
}
