/** Basic blocks over numbered temporaries and stack slots. */
module IrCode {
  import opened Words
  import opened Wrappers
  import opened PsiSyntax

  /** An immediate pattern or the temporary an earlier instruction defined. */
  datatype Val = Imm(bits: Word) | Tmp(id: nat)

  datatype Cell = Slot(id: nat) | Global(name: string)

  datatype IrOp =
    | IAdd | ISub | IMul | IUDiv | ISDiv | IURem | ISRem | IAnd | IOr | IXor | IShl | ILShr | IAShr
    | CmpEq | CmpNe | CmpUgt | CmpSgt | CmpUlt | CmpSlt | CmpUge | CmpSge | CmpUle | CmpSle

  datatype CastKind = SExt | ZExt | Trunc

  datatype Inst =
    | Load(dst: nat, cell: Cell)
    | Store(cell: Cell, source: Val)
    | Arith(dst: nat, op: IrOp, width: nat, a: Val, b: Val)
    | Complement(dst: nat, width: nat, a: Val)
    | Cast(dst: nat, kind: CastKind, from: nat, to: nat, a: Val)
    | TestGuard(dst: nat, name: string, index: nat, args: seq<Val>)
    | Invoke(dst: nat, name: string, args: seq<Val>)

  datatype Terminator =
    | Br(target: nat)
    | CondBr(condition: Val, yes: nat, no: nat)
    | Return(value: Option<Val>)
    | Trap

  datatype Block = Block(insts: seq<Inst>, term: Option<Terminator>)

  datatype Pos = Pos(block: nat, offset: nat)

  /** Straight-line code as the builder emits it: plain instructions, and conditions that split
      the current block into a trapping and a continuing successor. */
  datatype Item = Emit(inst: Inst) | TrapIf(condition: Val)

  /** The items lie in the blocks from one position to another, following ok-branches. */
  ghost predicate Placed(blocks: seq<Block>, from: Pos, items: seq<Item>, to: Pos)
    decreases |items|
  {
    && from.block < |blocks|
    && if items == [] then from == to
       else
         match items[0]
         case Emit(inst) =>
           && from.offset < |blocks[from.block].insts|
           && blocks[from.block].insts[from.offset] == inst
           && Placed(blocks, Pos(from.block, from.offset + 1), items[1..], to)
         case TrapIf(c) =>
           exists trap: nat, ok: nat ::
             && Splits(blocks, from, c, trap, ok)
             && Placed(blocks, Pos(ok, 0), items[1..], to)
  }

  predicate Splits(blocks: seq<Block>, from: Pos, c: Val, trap: nat, ok: nat) {
    && from.block < |blocks| && trap < |blocks|
    && from.offset == |blocks[from.block].insts|
    && blocks[from.block].term == Some(CondBr(c, trap, ok))
    && blocks[trap] == Block([], Some(Trap))
  }

  /** Later code generation only appends to open blocks and adds blocks. */
  ghost predicate Extends(before: seq<Block>, after: seq<Block>) {
    && |before| <= |after|
    && forall i :: 0 <= i < |before| ==>
         && before[i].insts <= after[i].insts
         && (before[i].term.Some? ==> after[i] == before[i])
  }

  lemma {:induction false} PlacedStays(before: seq<Block>, after: seq<Block>, from: Pos, items: seq<Item>, to: Pos)
    requires Extends(before, after) && Placed(before, from, items, to)
    ensures Placed(after, from, items, to)
    decreases |items|
  {
    if items != [] {
      match items[0]
      case Emit(inst) => PlacedStays(before, after, Pos(from.block, from.offset + 1), items[1..], to);
      case TrapIf(c) =>
        var trap: nat, ok: nat :| Splits(before, from, c, trap, ok) && Placed(before, Pos(ok, 0), items[1..], to);
        PlacedStays(before, after, Pos(ok, 0), items[1..], to);
        assert Splits(after, from, c, trap, ok);
    }
  }

  lemma {:induction false} PlacedAppend(blocks: seq<Block>, from: Pos, xs: seq<Item>, mid: Pos, ys: seq<Item>, to: Pos)
    requires Placed(blocks, from, xs, mid) && Placed(blocks, mid, ys, to)
    ensures Placed(blocks, from, xs + ys, to)
    decreases |xs|
  {
    if xs == [] {
      assert xs + ys == ys;
    } else {
      assert (xs + ys)[1..] == xs[1..] + ys;
      match xs[0]
      case Emit(inst) => PlacedAppend(blocks, Pos(from.block, from.offset + 1), xs[1..], mid, ys, to);
      case TrapIf(c) =>
        var trap: nat, ok: nat :| Splits(blocks, from, c, trap, ok) && Placed(blocks, Pos(ok, 0), xs[1..], mid);
        PlacedAppend(blocks, Pos(ok, 0), xs[1..], mid, ys, to);
    }
  }
}
