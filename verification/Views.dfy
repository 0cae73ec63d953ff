/** Bounded views: a data pointer and a length that travel together over an array literal. */
module Views {
  import opened Wrappers
  import opened Words
  import opened ByteMemory
  import opened StructMemory

  datatype View = View(data: Word, length: Word)

  /** An integer operand: a pattern, its width and its signedness. */
  datatype Operand = Operand(bits: nat, unsigned: bool, pattern: Word)

  predicate IsOperand(x: Operand) {
    0 < x.bits <= 64 && x.pattern < Pow2(x.bits)
  }

  /** The number it stands for. */
  function Number(x: Operand): int {
    if x.unsigned then x.pattern else Signed(x.bits, x.pattern)
  }

  /** The operand brought to 64 bits by its own signedness. */
  function ConvertInteger(x: Operand): Word {
    if x.bits == 64 then x.pattern
    else Wrap(64, if x.unsigned then x.pattern else Signed(x.bits, x.pattern))
  }

  /** The address of an element: the index is read as signed and the sum is cut to the pointer width. */
  function ElementAddress(w: nat, data: Word, index: Word, size: nat): Word {
    Wrap(w, data + Signed(64, index) * size)
  }

  // ---- What the operations mean ----

  /** Slicing succeeds when the slice lies inside the view, counted without wrapping. */
  function Sliced(w: nat, view: View, start: int, count: int, size: nat): Option<View> {
    if 0 <= start && 0 <= count && start + count <= view.length
    then Some(View(Wrap(w, view.data + start * size), count)) else None
  }

  /** The address of an element inside the view, if it is not null and can be accessed. */
  function Checked(w: nat, view: View, index: int, size: nat): Option<Word> {
    var a := Wrap(w, view.data + index * size);
    if 0 <= index < view.length && view.data != 0 && a != 0 && a + size < Pow2(w) then Some(a) else None
  }

  /** The storage behind an array literal. */
  datatype Backing = Backing(base: Word, cells: nat, typ: Type)

  function CellAddress(b: Backing, k: nat): nat {
    b.base + k * b.typ.allocSize
  }

  /** An allocation: not at null, and it ends inside the address space. */
  predicate Allocated(w: nat, b: Backing) {
    b.base > 0 && CellAddress(b, b.cells) < Pow2(w) && b.cells < Pow2(64)
  }

  /** The view shows the cells of the backing from an offset on. */
  predicate Shows(view: View, b: Backing, offset: nat) {
    view.data == CellAddress(b, offset) && offset + view.length <= b.cells
  }

  function Cell(bytes: seq<Byte>, b: Backing, k: nat): Value
    requires k < b.cells && CellAddress(b, b.cells) <= |bytes|
  {
    CellInside(b, k);
    Decode(b.typ, bytes[CellAddress(b, k)..CellAddress(b, k) + b.typ.allocSize])
  }

  lemma CellInside(b: Backing, k: nat)
    requires k < b.cells
    ensures CellAddress(b, k) + b.typ.allocSize == CellAddress(b, k + 1) <= CellAddress(b, b.cells)
  {
    MulAtLeast(b.cells, k + 1, b.typ.allocSize);
  }

  lemma CellsApart(b: Backing, k: nat, m: nat)
    requires k < m
    ensures CellAddress(b, k) + b.typ.allocSize <= CellAddress(b, m)
  {
    MulAtLeast(m, k + 1, b.typ.allocSize);
  }

  // ---- Address arithmetic ----

  lemma SignedIndex(w: nat, index: Word) returns (high: nat)
    requires w <= 64 && index < Pow2(64)
    ensures Signed(64, index) == index - high * Pow2(w)
  {
    hide Pow2;
    PowersMultiply(64 - w, w);
    high := if index >= Pow2(63) then Pow2(64 - w) else 0;
  }

  /** Reading the index as signed does not matter once the address is cut to at most 64 bits. */
  lemma ElementAddressExact(w: nat, data: Word, index: Word, size: nat)
    requires w <= 64 && index < Pow2(64)
    ensures ElementAddress(w, data, index, size) == Wrap(w, data + index * size)
  {
    hide Pow2, Wrap, Signed;
    var high := SignedIndex(w, index);
    MulSub(index, high * Pow2(w), size);
    WrapAway(w, data + index * size, high, size);
  }

  lemma WrapAway(w: nat, x: int, high: nat, size: nat)
    ensures Wrap(w, x - high * Pow2(w) * size) == Wrap(w, x)
  {
    hide Pow2;
    var m := Pow2(w);
    var q, r := x / m, x % m;
    MulSub(q, high * size, m);
    assert high * m * size == (high * size) * m;
    assert x - high * m * size == (q - high * size) * m + r;
    ModUnique(x - high * m * size, m, q - high * size, r);
  }

  lemma AddressOfCell(w: nat, view: View, b: Backing, offset: nat, k: nat)
    requires Allocated(w, b) && Shows(view, b, offset) && offset + k <= b.cells
    ensures Wrap(w, view.data + k * b.typ.allocSize) == CellAddress(b, offset + k) < Pow2(w)
  {
    hide Pow2;
    MulAtLeast(b.cells, offset + k, b.typ.allocSize);
    assert (offset + k) * b.typ.allocSize == offset * b.typ.allocSize + k * b.typ.allocSize;
    WrapSmall(w, CellAddress(b, offset + k));
  }

  /** Brought to 64 bits, a number that is not negative is itself, and a negative one is at least 2^63. */
  lemma ConvertedMeans(x: Operand)
    requires IsOperand(x)
    ensures ConvertInteger(x) < Pow2(64)
    ensures Number(x) >= 0 ==> ConvertInteger(x) == Number(x)
    ensures Number(x) < 0 ==> ConvertInteger(x) >= Pow2(63)
  {
    PowersMultiply(64 - x.bits, x.bits);
    assert Pow2(64) == 2 * Pow2(63) && Pow2(x.bits) == 2 * Pow2(x.bits - 1);
    hide Pow2;
    MulAtLeast(Pow2(64 - x.bits), 1, Pow2(x.bits));
    if x.bits < 64 {
      if Number(x) >= 0 {
        WrapSmall(64, Number(x));
      } else {
        WrapBelow(64, Number(x));
      }
    }
  }

  // ---- The emitted sequences ----

  /** `#viewslice`; None is the trap. The remaining length has wrapped when the start is already too large. */
  method Slice(w: nat, view: View, start: Operand, count: Operand, size: nat) returns (r: Option<View>)
    requires w <= 64 && view.length < Pow2(64) && IsOperand(start) && IsOperand(count)
    ensures r == Sliced(w, view, ConvertInteger(start), ConvertInteger(count), size)
    ensures view.length < Pow2(63) ==> r == Sliced(w, view, Number(start), Number(count), size)
  {
    assert Pow2(64) == 2 * Pow2(63);
    ConvertedMeans(start);
    ConvertedMeans(count);
    hide Pow2, ConvertInteger, Number, IsOperand;
    var start', count' := ConvertInteger(start), ConvertInteger(count);
    var startOutOfBounds := start' > view.length;
    var remaining := Wrap(64, view.length - start');
    if !startOutOfBounds {
      WrapSmall(64, view.length - start');
    }
    var countOutOfBounds := count' > remaining;
    if startOutOfBounds || countOutOfBounds {
      return None;
    }
    ElementAddressExact(w, view.data, start', size);
    r := Some(View(ElementAddress(w, view.data, start', size), count'));
  }

  /** The bounds test and the pointer checks before a view access; None is the trap. */
  method CheckedElement(w: nat, view: View, index: Operand, size: nat) returns (address: Option<Word>)
    requires w <= 64 && view.length < Pow2(64) && IsOperand(index) && view.data < Pow2(w)
    ensures address == Checked(w, view, ConvertInteger(index), size)
    ensures view.length < Pow2(63) ==> address == Checked(w, view, Number(index), size)
  {
    ConvertedMeans(index);
    hide Pow2, ConvertInteger, Number, IsOperand;
    var index' := ConvertInteger(index);
    if index' >= view.length {
      return None;
    }
    if view.data == 0 {
      return None;
    }
    ElementAddressExact(w, view.data, index', size);
    var a := ElementAddress(w, view.data, index', size);
    if a == 0 {
      return None;
    }
    AccessWrapsIff(w, a, size);
    if AccessWraps(w, a, size) {
      return None;
    }
    address := Some(a);
  }

  /** Inside its backing a view access passes exactly the bounds test, and lands on the cell. */
  lemma AccessLands(w: nat, view: View, b: Backing, offset: nat, index: Word)
    requires Allocated(w, b) && Shows(view, b, offset)
    ensures var a := Wrap(w, view.data + index * b.typ.allocSize);
      index < view.length ==>
        view.data != 0 && a != 0 && a == CellAddress(b, offset + index) && a + b.typ.allocSize < Pow2(w)
  {
    hide Pow2;
    if index < view.length {
      AddressOfCell(w, view, b, offset, index);
      CellInside(b, offset + index);
    }
  }

  /** A view access succeeds exactly inside the view, and then at its cell. */
  lemma ViewFinds(w: nat, view: View, i: Word, b: Backing, offset: nat)
    requires Allocated(w, b) && Shows(view, b, offset)
    ensures view.length < Pow2(64) && view.data < Pow2(w)
    ensures Checked(w, view, i, b.typ.allocSize) == if i < view.length then Some(CellAddress(b, offset + i)) else None
    ensures i < view.length ==> offset + i < b.cells && CellAddress(b, offset + i) + b.typ.allocSize < Pow2(w)
  {
    hide Pow2, Wrap;
    AddressOfCell(w, view, b, offset, 0);
    AccessLands(w, view, b, offset, i);
  }

  /** On a view shorter than 2^63 an index is inside exactly as the number it stands for. */
  lemma IndexMeans(index: Operand, length: Word)
    requires IsOperand(index) && length < Pow2(63)
    ensures if 0 <= Number(index) < length then ConvertInteger(index) == Number(index)
            else ConvertInteger(index) >= length
  {
    ConvertedMeans(index);
    hide Pow2, Number, IsOperand, ConvertInteger;
  }

  /** `#viewload` reads exactly the cell, and traps exactly on an index outside the view, negative ones included. */
  method ViewLoad(w: nat, mem: array<Byte>, view: View, index: Operand, ghost b: Backing, ghost offset: nat, t: Type)
    returns (value: Option<Value>)
    requires w <= 64 && IsOperand(index) && IsMemory(w, mem)
    requires Allocated(w, b) && b.typ == t && Shows(view, b, offset)
    ensures var i := ConvertInteger(index);
      value == if i < view.length then Some(Cell(mem[..], b, offset + i)) else None
    ensures view.length < Pow2(63) ==>
      value == if 0 <= Number(index) < view.length then Some(Cell(mem[..], b, offset + Number(index))) else None
  {
    ViewFinds(w, view, ConvertInteger(index), b, offset);
    if view.length < Pow2(63) {
      IndexMeans(index, view.length);
    }
    hide Pow2, Wrap, Decode, Number, IsOperand, ConvertInteger, Checked, Allocated, Shows, CellAddress;
    var address := CheckedElement(w, view, index, t.allocSize);
    if address.None? {
      return None;
    }
    var loaded := LoadBytewise(mem, t, address.value);
    assert mem[..][address.value..address.value + t.allocSize] == mem[address.value..address.value + t.allocSize];
    value := Some(loaded);
  }

  /** Only the cell changes, among the cells and among all bytes. */
  ghost predicate CellWritten(now: seq<Byte>, before: seq<Byte>, b: Backing, k: nat, v: Value)
    requires k < b.cells && CellAddress(b, b.cells) <= |before|
  {
    && Written(now, before, CellAddress(b, k), Image(b.typ, v))
    && (forall m :: 0 <= m < b.cells ==> Cell(now, b, m) == if m == k then v else Cell(before, b, m))
  }

  lemma WrittenCells(now: seq<Byte>, before: seq<Byte>, b: Backing, k: nat, v: Value)
    requires k < b.cells && CellAddress(b, b.cells) <= |before|
    requires WellFormed(b.typ) && HasType(v, b.typ)
    requires Written(now, before, CellAddress(b, k), Image(b.typ, v))
    ensures CellWritten(now, before, b, k, v)
  {
    hide Image, WellFormed, HasType;
    forall m | 0 <= m < b.cells
      ensures Cell(now, b, m) == if m == k then v else Cell(before, b, m)
    {
      hide Decode;
      CellInside(b, m);
      CellInside(b, k);
      var a := CellAddress(b, m);
      if m == k {
        assert now[a..a + b.typ.allocSize] == Image(b.typ, v);
        DecodeImage(b.typ, v);
      } else {
        if m < k {
          CellsApart(b, m, k);
        } else {
          CellsApart(b, k, m);
        }
        assert now[a..a + b.typ.allocSize] == before[a..a + b.typ.allocSize];
      }
    }
  }

  /** `#viewstore` writes exactly the cell, and traps before any byte changes on an index outside the view. */
  method ViewStore(w: nat, mem: array<Byte>, view: View, index: Operand, v: Value, ghost b: Backing,
                   ghost offset: nat, t: Type) returns (ok: bool)
    requires w <= 64 && IsOperand(index) && IsMemory(w, mem)
    requires Allocated(w, b) && b.typ == t && Shows(view, b, offset) && WellFormed(t) && HasType(v, t)
    modifies mem
    ensures ok <==> ConvertInteger(index) < view.length
    ensures view.length < Pow2(63) ==> (ok <==> 0 <= Number(index) < view.length)
    ensures ok ==> CellWritten(mem[..], old(mem[..]), b, offset + ConvertInteger(index), v)
    ensures !ok ==> mem[..] == old(mem[..])
  {
    ViewFinds(w, view, ConvertInteger(index), b, offset);
    if view.length < Pow2(63) {
      IndexMeans(index, view.length);
    }
    hide Pow2, Decode, Written, Image, WellFormed, HasType, CellWritten, Number, IsOperand, ConvertInteger, Checked,
         Shows, CellAddress;
    var address := CheckedElement(w, view, index, t.allocSize);
    if address.None? {
      return false;
    }
    StoreWithZeroedPadding(mem, t, v, address.value);
    WrittenCells(mem[..], old(mem[..]), b, offset + ConvertInteger(index), v);
    ok := true;
  }

  lemma NothingElseWritten(now: seq<Byte>, before: seq<Byte>, b: Backing, k: nat, v: Value)
    requires k < b.cells && WellFormed(b.typ) && HasType(v, b.typ)
    requires Written(now, before, CellAddress(b, k), Image(b.typ, v))
    ensures forall a :: 0 <= a < |before| && !(b.base <= a < CellAddress(b, b.cells)) ==> now[a] == before[a]
  {
    CellInside(b, k);
    hide Image, WellFormed, HasType;
  }

  /** Fills the backing of an array literal and returns the view of all of it. */
  method BuildArrayLiteral(w: nat, mem: array<Byte>, values: seq<Value>, b: Backing) returns (view: View)
    requires IsMemory(w, mem) && Allocated(w, b) && b.cells == |values| && WellFormed(b.typ)
    requires forall k :: 0 <= k < |values| ==> HasType(values[k], b.typ)
    modifies mem
    ensures Shows(view, b, 0) && view.length == |values|
    ensures forall k :: 0 <= k < |values| ==> Cell(mem[..], b, k) == values[k]
    ensures forall a :: 0 <= a < mem.Length && !(b.base <= a < CellAddress(b, b.cells)) ==> mem[a] == old(mem[a])
  {
    hide Pow2, Decode, Written, Image, WellFormed, HasType, Cell;
    for i := 0 to |values|
      invariant forall k :: 0 <= k < i ==> Cell(mem[..], b, k) == values[k]
      invariant forall a :: 0 <= a < mem.Length && !(b.base <= a < CellAddress(b, b.cells)) ==> mem[a] == old(mem[a])
    {
      ghost var before := mem[..];
      CellInside(b, i);
      StoreWithZeroedPadding(mem, b.typ, values[i], CellAddress(b, i));
      WrittenCells(mem[..], before, b, i, values[i]);
      NothingElseWritten(mem[..], before, b, i, values[i]);
    }
    view := View(b.base, |values|);
  }

  // ---- Chains of slices ----

  /** Slices taken one after another. */
  function SliceAll(w: nat, view: View, steps: seq<(int, int)>, size: nat): Option<View>
    decreases steps
  {
    if steps == [] then Some(view)
    else
      match Sliced(w, view, steps[0].0, steps[0].1, size)
      case None => None
      case Some(next) => SliceAll(w, next, steps[1..], size)
  }

  function Starts(steps: seq<(int, int)>): int {
    if steps == [] then 0 else steps[0].0 + Starts(steps[1..])
  }

  /** A chain of slices succeeds when each step fits the one before, counted without wrapping. */
  predicate Fits(length: int, steps: seq<(int, int)>) {
    steps != [] ==>
      && 0 <= steps[0].0 && 0 <= steps[0].1 && steps[0].0 + steps[0].1 <= length
      && Fits(steps[0].1, steps[1..])
  }

  /** However long the chain, the view stays inside its backing, at the sum of the starts. */
  lemma {:induction false} ChainStaysInside(w: nat, view: View, b: Backing, offset: nat, steps: seq<(int, int)>)
    requires Allocated(w, b) && Shows(view, b, offset)
    ensures var r := SliceAll(w, view, steps, b.typ.allocSize);
      && (r.Some? <==> Fits(view.length, steps))
      && (r.Some? ==> Starts(steps) >= 0 && Shows(r.value, b, offset + Starts(steps)))
    decreases steps
  {
    hide Pow2, Wrap;
    if steps != [] {
      var next := Sliced(w, view, steps[0].0, steps[0].1, b.typ.allocSize);
      if next.Some? {
        AddressOfCell(w, view, b, offset, steps[0].0);
        ChainStaysInside(w, next.value, b, offset + steps[0].0, steps[1..]);
      }
    }
  }

  /** A slice of a slice is one slice at the summed start. */
  lemma SliceOfSlice(w: nat, view: View, first: (int, int), second: (int, int), size: nat)
    requires Fits(view.length, [first, second])
    ensures SliceAll(w, view, [first, second], size) == Sliced(w, view, first.0 + second.0, second.1, size)
  {
    hide Pow2, Wrap;
    var steps := [first, second];
    assert steps[1..] == [second] && [second][1..] == [];
    assert Fits(first.1, [second]);
    AddressesAdd(w, view.data, first.0, second.0, size);
    var next := View(Wrap(w, view.data + first.0 * size), first.1);
    assert SliceAll(w, next, [second], size) == Sliced(w, next, second.0, second.1, size) by {
      OneSlice(w, next, second, size);
    }
  }

  lemma OneSlice(w: nat, view: View, step: (int, int), size: nat)
    ensures SliceAll(w, view, [step], size) == Sliced(w, view, step.0, step.1, size)
  {
    assert [step][1..] == [];
  }

  lemma AddressesAdd(w: nat, data: Word, a: Word, b: Word, size: nat)
    ensures Wrap(w, Wrap(w, data + a * size) + b * size) == Wrap(w, data + (a + b) * size)
  {
    hide Pow2;
    var m := Pow2(w);
    var x := data + a * size;
    var q := x / m;
    assert x == q * m + Wrap(w, x);
    assert (a + b) * size == a * size + b * size;
    var y := Wrap(w, x) + b * size;
    var p, r := y / m, y % m;
    assert y == p * m + r;
    MulSub(q, -p, m);
    ModUnique(data + (a + b) * size, m, q + p, r);
  }
}
