/** What holds after each command of a body has been lowered. */
module BodyPlan {
  import opened Words
  import opened Wrappers
  import opened PsiSyntax
  import opened IrCode
  import opened Lowering
  import opened Layout

  lemma {:induction false} DeclaredSlotAt(p: Program, n: nat, k: nat)
    requires Validated(p) && k < n <= |p.commands| && p.commands[k].Declare?
    ensures p.commands[k].name in DeclaredSlots(p.commands, n) && DeclaredSlots(p.commands, n)[p.commands[k].name] == k
  {
    if k < n - 1 {
      DeclaredSlotAt(p, n - 1, k);
    }
  }

  lemma {:induction false} DeclaredSlotFrom(p: Program, n: nat, name: string)
    requires n <= |p.commands| && name in DeclaredSlots(p.commands, n)
    ensures var k := DeclaredSlots(p.commands, n)[name];
      k < n && p.commands[k].Declare? && p.commands[k].name == name
  {
    if !(p.commands[n - 1].Declare? && p.commands[n - 1].name == name) {
      DeclaredSlotFrom(p, n - 1, name);
    }
  }

  lemma {:induction false} ArgumentSlotFrom(p: Program, n: nat, name: string)
    requires n <= |p.args| && name in ArgumentSlots(p, n)
    ensures var k := ArgumentSlots(p, n)[name];
      |p.commands| <= k < |p.commands| + n && p.args[k - |p.commands|].0 == name
  {
    if p.args[n - 1].0 != name {
      ArgumentSlotFrom(p, n - 1, name);
    }
  }

  lemma {:induction false} ArgumentSlotAt(p: Program, n: nat, k: nat)
    requires Validated(p) && k < n <= |p.args|
    ensures p.args[k].0 in ArgumentSlots(p, n) && ArgumentSlots(p, n)[p.args[k].0] == |p.commands| + k
  {
    if k < n - 1 {
      ArgumentSlotAt(p, n - 1, k);
    }
  }

  lemma {:induction false} ArgumentDomain(p: Program, n: nat)
    requires n <= |p.args|
    ensures ArgumentTypes(p.args[..n]).Keys == ArgumentSlots(p, n).Keys
  {
    if n > 0 {
      assert p.args[..n][..n - 1] == p.args[..n - 1];
      ArgumentDomain(p, n - 1);
    }
  }

  lemma {:induction false} VisibleDomain(p: Program, i: nat)
    requires i <= |p.commands|
    ensures VisibleLocals(p, i).Keys == ArgumentSlots(p, |p.args|).Keys + DeclaredSlots(p.commands, i).Keys
  {
    if i == 0 {
      assert p.args[..|p.args|] == p.args;
      ArgumentDomain(p, |p.args|);
    } else {
      VisibleDomain(p, i - 1);
    }
  }

  lemma {:induction false} DeclaredSlotsGrow(p: Program, i: nat, name: string)
    requires Validated(p) && i <= |p.commands| && name in DeclaredSlots(p.commands, i)
    ensures name in DeclaredSlots(p.commands, |p.commands|)
    ensures DeclaredSlots(p.commands, |p.commands|)[name] == DeclaredSlots(p.commands, i)[name]
  {
    DeclaredSlotFrom(p, i, name);
    DeclaredSlotAt(p, |p.commands|, DeclaredSlots(p.commands, i)[name]);
  }

  /** Visible names have their own reserved slot, and the table of slots is well scoped. */
  lemma NamesWithin(p: Program, i: nat)
    requires Validated(p) && i <= |p.commands|
    ensures WellScoped(NamesAt(p, i))
    ensures forall name :: name in VisibleLocals(p, i) ==> name in Storage(p)
  {
    VisibleDomain(p, i);
    forall name | name in VisibleLocals(p, i) ensures name in Storage(p) {
      if name in DeclaredSlots(p.commands, i) {
        DeclaredSlotsGrow(p, i, name);
      }
    }
  }

  /** A declaration's name is new, and its slot is the one reserved for it. */
  lemma DeclarationNames(p: Program, i: nat)
    requires Validated(p) && i < |p.commands| && p.commands[i].Declare?
    ensures var name := p.commands[i].name;
      && name !in VisibleLocals(p, i) && name in DeclaredSlots(p.commands, |p.commands|)
      && VisibleLocals(p, i + 1) == VisibleLocals(p, i)[name := p.commands[i].typ]
      && NamesAt(p, i + 1).slots == NamesAt(p, i).slots[name := DeclaredSlots(p.commands, |p.commands|)[name]]
  {
    var name := p.commands[i].name;
    VisibleDomain(p, i);
    DeclaredSlotAt(p, |p.commands|, i);
    if name in DeclaredSlots(p.commands, i) {
      DeclaredSlotFrom(p, i, name);
    }
    if name in ArgumentSlots(p, |p.args|) {
      ArgumentSlotFrom(p, |p.args|, name);
    }
  }

  lemma EntryNames(p: Program)
    requires Validated(p)
    ensures NamesAt(p, 0).slots == ArgumentSlots(p, |p.args|)
  {
    VisibleDomain(p, 0);
  }

  lemma StorageInjective(p: Program)
    requires Validated(p)
    ensures forall a, b :: a in Storage(p) && b in Storage(p) && a != b ==> Storage(p)[a] != Storage(p)[b]
  {
    forall a, b | a in Storage(p) && b in Storage(p) && a != b ensures Storage(p)[a] != Storage(p)[b] {
      StorageFrom(p, a);
      StorageFrom(p, b);
    }
  }

  lemma StorageFrom(p: Program, name: string)
    requires name in Storage(p)
    ensures var k := Storage(p)[name];
      if k < |p.commands| then p.commands[k].Declare? && p.commands[k].name == name
      else k < |p.commands| + |p.args| && p.args[k - |p.commands|].0 == name
  {
    if name in ArgumentSlots(p, |p.args|) {
      ArgumentSlotFrom(p, |p.args|, name);
    } else {
      DeclaredSlotFrom(p, |p.commands|, name);
    }
  }

  /** Blocks of the labels at or after command i. */
  ghost function Pending(commands: seq<Command>, labels: map<string, nat>, i: nat): set<nat> {
    set k | i <= k < |commands| && commands[k].Label? && commands[k].mark in labels :: labels[commands[k].mark]
  }

  ghost predicate LabelTable(p: Program, labels: map<string, nat>, size: nat) {
    && (forall name :: name in labels <==> HasLabel(p.commands, name))
    && (forall name :: name in labels ==> 0 < labels[name] < size)
    && (forall a, b :: a in labels && b in labels && a != b ==> labels[a] != labels[b])
  }

  /** Everything about command i but the agreement of a bare `ret` with the result type, which only
      the final check of the whole function sees. */
  predicate Lowers(p: Program, i: nat)
    requires i < |p.commands|
  {
    (p.commands[i] == Ret(None) && LiveAt(p, i)) || CommandLowers(p, i)
  }

  /** The construction after the first i commands. */
  ghost predicate Reached(p: Program, plan: Plan, c: Cursor, i: nat) {
    && i <= |p.commands| && |plan.starts| == i + 1 && |plan.temps| == i + 1
    && Closed(c, Pending(p.commands, plan.labels, i))
    && (Open(c) <==> LiveAt(p, i)) && (Open(c) ==> plan.starts[i] == Here(c))
    && Placed(c.blocks, Pos(0, 0), EntryItems(p), plan.starts[0])
    && LabelTable(p, plan.labels, |c.blocks|)
    && (forall k :: 0 <= k < i ==> CommandPlaced(p, c.blocks, plan, k))
    && (forall k :: 0 <= k < i ==> Lowers(p, k))
  }

  function AddStart(plan: Plan, next: Pos, temp: nat): Plan {
    Plan(plan.labels, plan.starts + [next], plan.temps + [temp])
  }

  lemma PendingStep(p: Program, labels: map<string, nat>, size: nat, i: nat)
    requires Validated(p) && LabelTable(p, labels, size) && i < |p.commands|
    ensures Pending(p.commands, labels, i + 1)
         == if p.commands[i].Label? then Pending(p.commands, labels, i) - {labels[p.commands[i].mark]}
            else Pending(p.commands, labels, i)
    ensures p.commands[i].Label? ==> labels[p.commands[i].mark] in Pending(p.commands, labels, i)
  {
    if p.commands[i].Label? {
      assert p.commands[i] == Label(p.commands[i].mark);
    }
  }

  lemma ShapeTargets(p: Program, plan: Plan, blocks: seq<Block>, i: nat)
    requires i < |p.commands| && i < |plan.temps| && LabelTable(p, plan.labels, |blocks|)
    ensures TargetsInside(ShapeAt(p, plan, i), blocks)
    ensures ShapeAt(p, plan, i).Enter? <==> p.commands[i].Label? && p.commands[i].mark in plan.labels
    ensures ShapeAt(p, plan, i).Stop? ==> p.commands[i].Jmp? || p.commands[i].Ret?
    ensures ShapeAt(p, plan, i).Flow? || ShapeAt(p, plan, i).Fork? ==> !p.commands[i].Jmp? && !p.commands[i].Ret?
  {
    hide LowerStore, LowerComputation, LowerResult, LowerCondition;
  }

  lemma ExtendProgress(c: Cursor, shape: Shape, pending: set<nat>, here: Pos)
    requires Accepts(c, shape) && Closed(c, pending) && TargetsInside(shape, c.blocks)
    requires shape.Enter? ==> shape.target in pending
    requires Open(c) ==> here == Here(c)
    ensures Progress(c, shape, pending, here)
  {
    match shape
    case Flow(_) => FlowProgress(c, shape, pending);
    case Stop(_, _) => StopProgress(c, shape, pending);
    case Fork(_, _, _) => ForkProgress(c, shape, pending);
    case Enter(_) => EnterProgress(c, shape, pending, here);
  }

  lemma PlacedCommandsStay(p: Program, plan: Plan, plan': Plan, before: seq<Block>, after: seq<Block>, i: nat)
    requires i <= |p.commands| && |plan.starts| == i + 1 && |plan.temps| == i + 1
    requires plan'.labels == plan.labels && plan.starts <= plan'.starts && plan.temps <= plan'.temps
    requires Extends(before, after)
    requires forall k :: 0 <= k < i ==> CommandPlaced(p, before, plan, k)
    ensures forall k :: 0 <= k < i ==> CommandPlaced(p, after, plan', k)
  {
    forall k | 0 <= k < i ensures CommandPlaced(p, after, plan', k) {
      assert CommandPlaced(p, before, plan, k);
      ImplementsStays(before, after, LiveAt(p, k), plan.starts[k], ShapeAt(p, plan, k), plan.starts[k + 1]);
    }
  }

  lemma LiveStep(p: Program, i: nat)
    requires i < |p.commands|
    ensures var c := p.commands[i];
      LiveAt(p, i + 1) == (c.Label? || (!c.Jmp? && !c.Ret? && LiveAt(p, i)))
  {
  }

  lemma LabelTableStays(p: Program, labels: map<string, nat>, before: seq<Block>, after: seq<Block>)
    requires LabelTable(p, labels, |before|) && Extends(before, after)
    ensures LabelTable(p, labels, |after|)
  {
  }

  /** Lowering one more command keeps the construction on plan. */
  lemma ReachedStep(p: Program, plan: Plan, c: Cursor, i: nat, temp: nat)
    returns (plan': Plan)
    requires Validated(p) && Reached(p, plan, c, i) && i < |p.commands|
    requires Accepts(c, ShapeAt(p, plan, i))
    requires Lowers(p, i)
    ensures var r := Extend(c, ShapeAt(p, plan, i));
      Reached(p, plan', r, i + 1) && plan'.temps == plan.temps + [temp] && plan'.labels == plan.labels
  {
    hide ShapeOf, Lowers, LiveAt, EntryItems, Extend, Pending, Closed, Extends, Implements, Placed;
    LiveStep(p, i);
    var shape := ShapeAt(p, plan, i);
    var pending := Pending(p.commands, plan.labels, i);
    var r := Extend(c, shape);
    var next := if Open(r) then Here(r) else plan.starts[i];
    plan' := AddStart(plan, next, temp);
    ShapeTargets(p, plan, c.blocks, i);
    PendingStep(p, plan.labels, |c.blocks|, i);
    if shape.Enter? { EnterShape(p, plan, i); }
    ExtendProgress(c, shape, pending, plan.starts[i]);
    PlacedCommandsStay(p, plan, plan', c.blocks, r.blocks, i);
    PlacedStays(c.blocks, r.blocks, Pos(0, 0), EntryItems(p), plan.starts[0]);
    LabelTableStays(p, plan.labels, c.blocks, r.blocks);
    assert ShapeAt(p, plan', i) == shape;
  }

  lemma EnterShape(p: Program, plan: Plan, i: nat)
    requires i < |p.commands| && i < |plan.temps|
    requires p.commands[i].Label? && p.commands[i].mark in plan.labels
    ensures ShapeAt(p, plan, i) == Enter(plan.labels[p.commands[i].mark])
  {
  }

  /** Text after a terminator that holds no command is skipped. */
  lemma ReachedSkip(p: Program, plan: Plan, c: Cursor, i: nat, temp: nat) returns (plan': Plan)
    requires Validated(p) && Reached(p, plan, c, i) && i < |p.commands|
    requires p.commands[i].Empty? && !LiveAt(p, i)
    ensures Reached(p, plan', c, i + 1) && plan'.temps == plan.temps + [temp] && plan'.labels == plan.labels
  {
    plan' := AddStart(plan, plan.starts[i], temp);
    PendingStep(p, plan.labels, |c.blocks|, i);
    PlacedCommandsStay(p, plan, plan', c.blocks, c.blocks, i);
    assert CommandPlaced(p, c.blocks, plan', i);
    assert CommandLowers(p, i);
  }

  /** The start: entry code emitted, labels predeclared, no command lowered yet. */
  lemma ReachedStart(p: Program, labels: map<string, nat>, entry: Cursor, c: Cursor, temp: nat) returns (plan: Plan)
    requires Validated(p) && entry == EmitAll(Cursor([Block([], None)], 0), EntryItems(p)) && |entry.blocks| == 1
    requires c.insert == 0 && Open(c) && entry.blocks <= c.blocks
    requires LabelsPredeclared(p.commands, |p.commands|, labels, c.blocks)
    ensures Reached(p, plan, c, 0) && plan.temps == [temp] && plan.labels == labels
  {
    var first := Cursor([Block([], None)], 0);
    plan := Plan(labels, [Here(c)], [temp]);
    EmitAllPlaced(first, EntryItems(p));
    PlacedStays(entry.blocks, c.blocks, Pos(0, 0), EntryItems(p), Here(entry));
    forall name | HasLabel(p.commands, name) ensures name in labels {
      var k :| 0 <= k < |p.commands| && p.commands[k] == Label(name);
      assert p.commands[k].Label?;
    }
    forall b | b in labels.Values ensures b in Pending(p.commands, labels, 0) {
      var name :| name in labels && labels[name] == b;
      var k :| 0 <= k < |p.commands| && p.commands[k] == Label(name);
      assert p.commands[k].Label? && p.commands[k].mark in labels;
    }
  }

  predicate Straightline(items: seq<Item>) {
    forall k :: 0 <= k < |items| ==> items[k].Emit?
  }

  /** Straight code without traps stays in one block. */
  lemma {:induction false} StraightlineOneBlock(c: Cursor, items: seq<Item>)
    requires Open(c) && Straightline(items)
    ensures |EmitAll(c, items).blocks| == |c.blocks| && EmitAll(c, items).insert == c.insert
    decreases |items|
  {
    if items != [] {
      StraightlineOneBlock(c, items[..|items| - 1]);
    }
  }

  lemma {:induction false} ZeroItemsStraight(commands: seq<Command>, n: nat)
    requires n <= |commands|
    ensures Straightline(ZeroItems(commands, n))
  {
    if n > 0 { ZeroItemsStraight(commands, n - 1); }
  }

  lemma {:induction false} ArgumentItemsStraight(p: Program, n: nat)
    requires n <= |p.args|
    ensures Straightline(ArgumentItems(p, n))
  {
    if n > 0 { ArgumentItemsStraight(p, n - 1); }
  }

  lemma EntryOneBlock(p: Program)
    ensures var entry := EmitAll(Cursor([Block([], None)], 0), EntryItems(p));
      |entry.blocks| == 1 && entry.insert == 0
  {
    ZeroItemsStraight(p.commands, |p.commands|);
    ArgumentItemsStraight(p, |p.args|);
    StraightlineOneBlock(Cursor([Block([], None)], 0), EntryItems(p));
  }

  /** No block returns without a value. */
  predicate NoBareReturn(blocks: seq<Block>) {
    forall b :: 0 <= b < |blocks| ==> blocks[b].term != Some(Return(None))
  }

  lemma {:induction false} EmitAllNoBareReturn(c: Cursor, items: seq<Item>)
    requires Open(c) && NoBareReturn(c.blocks)
    ensures NoBareReturn(EmitAll(c, items).blocks)
    decreases |items|
  {
    if items != [] {
      EmitAllNoBareReturn(c, items[..|items| - 1]);
    }
  }

  lemma ExtendNoBareReturn(p: Program, plan: Plan, c: Cursor, i: nat)
    requires i < |p.commands| && i < |plan.temps| && NoBareReturn(c.blocks)
    requires Accepts(c, ShapeAt(p, plan, i)) && p.commands[i] != Ret(None)
    ensures NoBareReturn(Extend(c, ShapeAt(p, plan, i)).blocks)
  {
    hide LowerStore, LowerComputation, LowerResult, LowerCondition;
    var shape := ShapeAt(p, plan, i);
    if !shape.Enter? {
      EmitAllNoBareReturn(c, shape.items);
    }
  }

  /** Closing the last open block completes the function. */
  lemma ReachedEnd(p: Program, plan: Plan, c: Cursor, blocks: seq<Block>)
    requires Validated(p) && Reached(p, plan, c, |p.commands|)
    requires blocks == if Open(c) then Terminate(c, Return(None)).blocks else c.blocks
    ensures Realizes(p, blocks, plan) && WellFormed(blocks)
  {
    hide ShapeOf;
    var n := |p.commands|;
    assert Pending(p.commands, plan.labels, n) == {};
    assert Extends(c.blocks, blocks);
    PlacedCommandsStay(p, plan, plan, c.blocks, blocks, n);
    PlacedStays(c.blocks, blocks, Pos(0, 0), EntryItems(p), plan.starts[0]);
  }

  /** A live bare `ret` leaves a block that returns no value. */
  lemma BareReturnSeen(p: Program, plan: Plan, c: Cursor, k: nat)
    requires Reached(p, plan, c, |p.commands|) && k < |p.commands|
    requires p.commands[k] == Ret(None) && LiveAt(p, k)
    ensures !NoBareReturn(c.blocks)
  {
    assert CommandPlaced(p, c.blocks, plan, k);
    assert ShapeAt(p, plan, k) == Stop([], Return(None));
    var mid :| Placed(c.blocks, plan.starts[k], [], mid) && Closes(c.blocks, mid, Return(None));
  }

  lemma CursorReady(p: Program, plan: Plan, c: Cursor, i: nat)
    requires Reached(p, plan, c, i) && i < |p.commands|
    ensures c.insert < |c.blocks| && (Open(c) <==> LiveAt(p, i))
    ensures |plan.starts| == |plan.temps| == i + 1
    ensures p.commands[i].Label? ==>
      p.commands[i].mark in plan.labels && plan.labels[p.commands[i].mark] < |c.blocks|
  {
    if p.commands[i].Label? {
      assert p.commands[i] == Label(p.commands[i].mark);
    }
  }

  /** A command of a live position is rejected exactly when it does not lower. */
  lemma ShapeDecides(p: Program, plan: Plan, c: Cursor, i: nat)
    requires Validated(p) && Reached(p, plan, c, i) && i < |p.commands|
    requires LiveAt(p, i) || p.commands[i].Label?
    ensures ShapeAt(p, plan, i) == Reject <==> !Lowers(p, i)
  {
    CursorReady(p, plan, c, i);
    if p.commands[i].Label? {
      EnterShape(p, plan, i);
      assert CommandLowers(p, i);
    } else {
      if p.commands[i].Declare? { DeclarationNames(p, i); }
      ShapeAccepted(p, NamesAt(p, i), DeclaredSlots(p.commands, |p.commands|), plan.labels, i, plan.temps[i]);
    }
  }

  lemma DeadText(p: Program, i: nat)
    requires i < |p.commands| && !LiveAt(p, i)
    ensures CommandLowers(p, i) ==> p.commands[i].Empty? || p.commands[i].Label?
  {
  }

  lemma StableNames(p: Program, i: nat)
    requires i < |p.commands| && !p.commands[i].Declare?
    ensures NamesAt(p, i + 1) == NamesAt(p, i)
  {
  }

  /** The function verifier's complaint about results is exactly a bare `ret` in a typed function. */
  lemma VerifierDecides(p: Program, plan: Plan, c: Cursor)
    requires Validated(p) && Reached(p, plan, c, |p.commands|)
    requires (forall k :: 0 <= k < |p.commands| ==> p.commands[k] != Ret(None)) ==> NoBareReturn(c.blocks)
    requires LiveAt(p, |p.commands|) ==> p.result.None?
    ensures (p.result.None? || NoBareReturn(c.blocks)) <==> Lowerable(p)
  {
    if p.result.Some? && NoBareReturn(c.blocks) {
      forall k | 0 <= k < |p.commands| ensures CommandLowers(p, k) {
        assert Lowers(p, k);
        if p.commands[k] == Ret(None) && LiveAt(p, k) { BareReturnSeen(p, plan, c, k); }
      }
    } else if p.result.None? {
      forall k | 0 <= k < |p.commands| ensures CommandLowers(p, k) {
        assert Lowers(p, k);
      }
    } else {
      var k :| 0 <= k < |p.commands| && p.commands[k] == Ret(None);
      assert !CommandLowers(p, k);
    }
  }

  lemma EndReady(p: Program, plan: Plan, c: Cursor)
    requires Reached(p, plan, c, |p.commands|)
    ensures c.insert < |c.blocks| && (Open(c) <==> LiveAt(p, |p.commands|))
  {
  }

  lemma NamesAtEntry(p: Program)
    requires Validated(p)
    ensures NamesAt(p, 0) == Names(ArgumentSlots(p, |p.args|), Scope(ArgumentTypes(p.args), p.globals))
  {
    EntryNames(p);
  }
}
