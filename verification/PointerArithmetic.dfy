/** Pointer offsets and pointer differences, on pointers of any width. */
module PointerArithmetic {
  import opened Words

  /** An integer operand brought to the pointer width: extended by its own signedness, or cut. */
  function OffsetOperand(w: nat, bits: nat, unsigned: bool, value: Word): Word {
    if bits < w then (if unsigned then Wrap(w, value) else Wrap(w, Signed(bits, value))) else Wrap(w, value)
  }

  /** The number that an integer operand stands for. */
  function OperandValue(bits: nat, unsigned: bool, value: Word): int {
    if unsigned then value else Signed(bits, value)
  }

  /** `add`: the pointer moved by a number of elements. */
  function AddElements(w: nat, pointer: Word, offset: Word, size: nat): Word {
    Wrap(w, pointer + Signed(w, offset) * size)
  }

  /** `sub`: the byte distance, read as signed, divided in w + 1 bits and cut to w bits. */
  function Difference(w: nat, left: Word, right: Word, size: nat): Word
    requires 0 < size < Pow2(w)
  {
    Wrap(w, Elements(w, left, right, size))
  }

  /** The two operands of the division, as w + 1 bit patterns. */
  function Dividend(w: nat, left: Word, right: Word): Word {
    Wrap(w + 1, Signed(w, Wrap(w, left - right)))
  }

  function Divisor(w: nat, size: nat): Word {
    Wrap(w + 1, size)
  }

  function Elements(w: nat, left: Word, right: Word, size: nat): int
    requires 0 < size < Pow2(w)
  {
    DivisorIsSize(w, size);
    TruncatedDiv(Signed(w + 1, Dividend(w, left, right)), Signed(w + 1, Divisor(w, size)))
  }

  predicate FitsSigned(w: nat, x: int)
    requires w > 0
  {
    0 <= x + Pow2(w - 1) && x < Pow2(w - 1)
  }

  lemma SignedOfWrap(w: nat, x: int)
    requires w > 0 && FitsSigned(w, x)
    ensures Signed(w, Wrap(w, x)) == x
  {
    assert Pow2(w) == 2 * Pow2(w - 1);
    hide Pow2;
    if x >= 0 {
      WrapSmall(w, x);
    } else {
      WrapBelow(w, x);
    }
  }

  lemma SignedFits(w: nat, x: Word)
    requires w > 0 && x < Pow2(w)
    ensures FitsSigned(w, Signed(w, x))
  {
    assert Pow2(w) == 2 * Pow2(w - 1);
  }

  lemma DivisorIsSize(w: nat, size: nat)
    requires 0 < size < Pow2(w)
    ensures Signed(w + 1, Divisor(w, size)) == size
  {
    assert Pow2(w + 1) == 2 * Pow2(w);
    SignedOfWrap(w + 1, size);
  }

  lemma DividendIsDelta(w: nat, left: Word, right: Word)
    requires w > 0
    ensures Signed(w + 1, Dividend(w, left, right)) == Signed(w, Wrap(w, left - right))
  {
    SignedFits(w, Wrap(w, left - right));
    assert Pow2(w) == 2 * Pow2(w - 1);
    SignedOfWrap(w + 1, Signed(w, Wrap(w, left - right)));
  }

  lemma TruncatedBounds(a: int, b: int)
    requires b > 0
    ensures var q := TruncatedDiv(a, b);
      -b < a - q * b < b && (a >= 0 ==> 0 <= q <= a) && (a <= 0 ==> a <= q <= 0)
  {
    if a >= 0 {
      NatDivision(a, b);
    } else {
      NatDivision(-a, b);
    }
  }

  lemma NatDivision(a: nat, b: nat)
    requires b > 0
    ensures 0 <= a / b <= a && 0 <= a - a / b * b < b
  {
    var q := a / b;
    assert a == q * b + a % b;
    MulAtLeast(b, 1, q);
  }

  /** The division never divides by zero or by minus one, and its quotient fits the pointer width. */
  lemma DivisionIsSafe(w: nat, left: Word, right: Word, size: nat)
    requires w > 0 && 0 < size < Pow2(w)
    ensures Signed(w + 1, Divisor(w, size)) == size
    ensures Signed(w + 1, Dividend(w, left, right)) == Signed(w, Wrap(w, left - right))
    ensures FitsSigned(w, Elements(w, left, right, size))
    ensures Signed(w, Difference(w, left, right, size)) == Elements(w, left, right, size)
  {
    hide Pow2;
    DivisorIsSize(w, size);
    DividendIsDelta(w, left, right);
    var delta := Signed(w, Wrap(w, left - right));
    SignedFits(w, Wrap(w, left - right));
    TruncatedBounds(delta, size);
    SignedOfWrap(w, Elements(w, left, right, size));
  }

  lemma WrapShift(w: nat, x: int) returns (m: int)
    ensures Wrap(w, x) == x - m * Pow2(w)
  {
    m := x / Pow2(w);
  }

  lemma SignedShift(w: nat, x: Word) returns (m: int)
    ensures Signed(w, x) == x - m * Pow2(w) && (m == 0 || m == 1)
  {
    m := if w > 0 && x >= Pow2(w - 1) then 1 else 0;
  }

  lemma WrapCongruent(w: nat, x: int, y: int, m: int)
    requires x == y + m * Pow2(w)
    ensures Wrap(w, x) == Wrap(w, y)
  {
    hide Pow2;
    var q, r := y / Pow2(w), y % Pow2(w);
    assert y == q * Pow2(w) + r;
    MulSub(q, -m, Pow2(w));
    assert x == (q + m) * Pow2(w) + r;
    ModUnique(x, Pow2(w), q + m, r);
  }

  /** The byte distance that an offset of k elements produces, read as signed. */
  lemma DistanceOfOffset(w: nat, pointer: Word, k: int, size: nat) returns (m: int)
    requires w > 0 && FitsSigned(w, k) && pointer < Pow2(w)
    ensures Signed(w, Wrap(w, AddElements(w, pointer, Wrap(w, k), size) - pointer)) == k * size - m * Pow2(w)
    ensures FitsSigned(w, k * size) ==> m == 0
  {
    SignedOfWrap(w, k);
    hide Pow2, Signed, FitsSigned;
    var sum := pointer + k * size;
    var a := WrapShift(w, sum);
    var moved := AddElements(w, pointer, Wrap(w, k), size);
    assert moved == sum - a * Pow2(w);
    WrapCongruent(w, moved - pointer, k * size, -a);
    var b := WrapShift(w, k * size);
    var c := SignedShift(w, Wrap(w, k * size));
    m := b + c;
    assert (b + c) * Pow2(w) == b * Pow2(w) + c * Pow2(w);
    if FitsSigned(w, k * size) {
      SignedOfWrap(w, k * size);
      m := 0;
    }
  }

  /** For an offset already of pointer width. */
  lemma SubUndoesElements(w: nat, pointer: Word, k: int, size: nat)
    requires w > 0 && pointer < Pow2(w) && FitsSigned(w, k) && 0 < size < Pow2(w)
    ensures Difference(w, AddElements(w, pointer, Wrap(w, k), size), pointer, size) == Wrap(w, k)
       <==> FitsSigned(w, k * size)
  {
    hide Pow2, FitsSigned, Difference, AddElements;
    var moved := AddElements(w, pointer, Wrap(w, k), size);
    var m := DistanceOfOffset(w, pointer, k, size);
    DivisionIsSafe(w, moved, pointer, size);
    var delta := Signed(w, Wrap(w, moved - pointer));
    var q := Elements(w, moved, pointer, size);
    TruncatedBounds(delta, size);
    SignedFits(w, Wrap(w, moved - pointer));
    SignedOfWrap(w, k);
    if q == k {
      if m != 0 {
        FarFromMultiple(k, size, m, Pow2(w));
      }
    } else if m == 0 {
      ExactQuotient(k, size);
    }
    hide Elements;
    if Difference(w, moved, pointer, size) == Wrap(w, k) {
      assert q == k;
    } else {
      assert Difference(w, moved, pointer, size) == Wrap(w, q) by {
        DifferenceIsWrap(w, moved, pointer, size);
      }
      assert q != k;
    }
  }

  lemma DifferenceIsWrap(w: nat, left: Word, right: Word, size: nat)
    requires 0 < size < Pow2(w)
    ensures Difference(w, left, right, size) == Wrap(w, Elements(w, left, right, size))
  {
  }

  lemma FarFromMultiple(k: int, size: nat, m: int, modulus: nat)
    requires m != 0 && size < modulus
    ensures var gap := (k * size - m * modulus) - k * size; gap + size <= 0 || gap >= size
  {
    if m > 0 {
      MulAtLeast(m, 1, modulus);
    } else {
      MulAtLeast(-1, m, modulus);
    }
  }

  lemma ExactQuotient(k: int, size: nat)
    requires size > 0
    ensures TruncatedDiv(k * size, size) == k
  {
    var q := TruncatedDiv(k * size, size);
    TruncatedBounds(k * size, size);
    MulSub(k, q, size);
    if k > q {
      MulAtLeast(k - q, 1, size);
    } else if k < q {
      MulAtLeast(-1, k - q, size);
    }
  }

  lemma WideWrap(w: nat, bits: nat, x: int)
    requires w <= bits
    ensures Wrap(w, x - Pow2(bits)) == Wrap(w, x)
  {
    PowersMultiply(bits - w, w);
    var m := Pow2(bits - w);
    WrapCongruent(w, x, x - Pow2(bits), m);
  }

  /** Extending or cutting an operand keeps the number it stands for, up to a multiple of 2^w. */
  lemma OffsetIsValue(w: nat, bits: nat, unsigned: bool, value: Word)
    ensures OffsetOperand(w, bits, unsigned, value) == Wrap(w, OperandValue(bits, unsigned, value))
  {
    hide Pow2, Wrap;
    if bits >= w {
      WideWrap(w, bits, value);
    }
  }

  lemma SmallerFits(w: nat, n: int, size: nat)
    requires w > 0 && size > 0 && FitsSigned(w, n * size)
    ensures FitsSigned(w, n)
  {
    hide Pow2;
    if n >= 0 {
      MulAtLeast(size, 1, n);
    } else {
      MulAtLeast(size, 1, -n);
      assert (-n) * size == -(n * size);
    }
  }

  /** For an offset operand of any width and signedness: subtracting the old pointer from the moved one gives
      back the number the operand stands for exactly when the bytes moved are a signed pointer-width integer. */
  lemma SubUndoesAdd(w: nat, pointer: Word, bits: nat, unsigned: bool, value: Word, size: nat)
    requires w > 0 && pointer < Pow2(w) && 0 < size < Pow2(w)
    ensures var n := OperandValue(bits, unsigned, value);
      var moved := AddElements(w, pointer, OffsetOperand(w, bits, unsigned, value), size);
      Signed(w, Difference(w, moved, pointer, size)) == n <==> FitsSigned(w, n * size)
  {
    hide Pow2, Signed, Wrap, AddElements, Difference, Elements, OffsetOperand, FitsSigned;
    var n := OperandValue(bits, unsigned, value);
    OffsetIsValue(w, bits, unsigned, value);
    var moved := AddElements(w, pointer, Wrap(w, n), size);
    DivisionIsSafe(w, moved, pointer, size);
    DifferenceIsWrap(w, moved, pointer, size);
    if FitsSigned(w, n * size) {
      SmallerFits(w, n, size);
    }
    if FitsSigned(w, n) {
      SubUndoesElements(w, pointer, n, size);
      SignedOfWrap(w, n);
    }
  }
}
