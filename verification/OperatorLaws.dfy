/** What the integer operators compute, said of numbers and bits and not of the functions that compute them. */
module OperatorLaws {
  import opened Wrappers
  import opened Words
  import opened PsiSyntax
  import opened PsiMachine

  // ---- Readings of a pattern ----

  /** The number a pattern stands for: itself, or its two's-complement reading. */
  function Reading(t: IntType, x: Word): int {
    if t.unsigned || 2 * x < Pow2(t.width) then x else x - Pow2(t.width)
  }

  predicate Same(w: nat, m: int, n: int) {
    (m - n) % Pow2(w) == 0
  }

  predicate Bit(x: Word, k: nat) {
    x / Pow2(k) % 2 == 1
  }

  /** Widening keeps the number, narrowing keeps the low bits. */
  predicate Converts(from: nat, t: IntType, x: Word, y: Word) {
    && y < Pow2(t.width)
    && (if from <= t.width then Reading(t, y) == Reading(IntType(from, t.unsigned), x) else Same(t.width, x, y))
  }

  // ---- What operators compute ----

  /** Quotient and remainder rounded toward zero. */
  predicate Divides(x: int, y: int, quotient: int, remainder: int) {
    && x == quotient * y + remainder
    && (if y > 0 then -y < remainder < y else y < remainder < -y)
    && (remainder == 0 || (remainder < 0 <==> x < 0))
  }

  predicate Faults(op: BinaryOp, t: IntType, a: Word, b: Word)
    requires t.width > 0
  {
    var x, y := Reading(t, a), Reading(t, b);
    match op
    case Div => y == 0 || (!t.unsigned && x + Pow2(t.width - 1) == 0 && y == -1)
    case Mod => y == 0 || (!t.unsigned && x + Pow2(t.width - 1) == 0 && y == -1)
    case Lsh => b >= t.width
    case Rsh => b >= t.width
    case _ => false
  }

  predicate IsTruth(width: nat, r: Word, b: bool) {
    width == 1 && r == if b then 1 else 0
  }

  ghost predicate Operates(op: BinaryOp, t: IntType, a: Word, b: Word, width: nat, r: Word) {
    var x, y := Reading(t, a), Reading(t, b);
    match op
    case Eq => IsTruth(width, r, x == y)
    case Neq => IsTruth(width, r, x != y)
    case Gt => IsTruth(width, r, x > y)
    case Lt => IsTruth(width, r, x < y)
    case Gte => IsTruth(width, r, x >= y)
    case Lte => IsTruth(width, r, x <= y)
    case Land => IsTruth(width, r, x != 0 && y != 0)
    case Lor => IsTruth(width, r, x != 0 || y != 0)
    case _ => width == t.width && r < Pow2(width) && OperatesInWidth(op, t, a, b, r)
  }

  ghost predicate OperatesInWidth(op: BinaryOp, t: IntType, a: Word, b: Word, r: Word) {
    var w, x, y, z := t.width, Reading(t, a), Reading(t, b), Reading(t, r);
    match op
    case Add => Same(w, r, x + y)
    case Sub => Same(w, r, x - y)
    case Mul => Same(w, r, x * y)
    case Div => exists remainder :: Divides(x, y, z, remainder)
    case Mod => exists quotient :: Divides(x, y, quotient, z)
    case And => forall k: nat :: k < w ==> (Bit(r, k) <==> Bit(a, k) && Bit(b, k))
    case Or => forall k: nat :: k < w ==> (Bit(r, k) <==> Bit(a, k) || Bit(b, k))
    case Xor => forall k: nat :: k < w ==> (Bit(r, k) <==> Bit(a, k) != Bit(b, k))
    case Lsh => Same(w, r, x * Pow2(b))
    case Rsh => z * Pow2(b) <= x < (z + 1) * Pow2(b)
    case _ => false
  }

  // ---- Patterns and readings ----

  lemma ReadingIsSigned(t: IntType, x: Word)
    requires t.width > 0
    ensures Reading(t, x) == if t.unsigned then x else Signed(t.width, x)
  {
    assert Pow2(t.width) == 2 * Pow2(t.width - 1);
  }

  lemma ReadingBounds(t: IntType, x: Word)
    requires t.width > 0 && x < Pow2(t.width)
    ensures t.unsigned ==> 0 <= Reading(t, x) < Pow2(t.width)
    ensures !t.unsigned ==> 0 <= Reading(t, x) + Pow2(t.width - 1) < Pow2(t.width)
  {
    assert Pow2(t.width) == 2 * Pow2(t.width - 1);
  }

  /** A number in range is the reading of its pattern. */
  lemma WrapReads(t: IntType, n: int)
    requires t.width > 0
    requires if t.unsigned then 0 <= n < Pow2(t.width) else 0 <= n + Pow2(t.width - 1) < Pow2(t.width)
    ensures Reading(t, Wrap(t.width, n)) == n
  {
    assert Pow2(t.width) == 2 * Pow2(t.width - 1);
    hide Pow2;
    if n >= 0 {
      WrapSmall(t.width, n);
    } else {
      WrapBelow(t.width, n);
    }
  }

  lemma ReadingsDiffer(t: IntType, x: Word, y: Word)
    requires t.width > 0 && x < Pow2(t.width) && y < Pow2(t.width) && Reading(t, x) == Reading(t, y)
    ensures x == y
  {
    hide Pow2;
  }

  /** Every multiple of the modulus away is the same number. */
  lemma ShiftedSame(w: nat, m: int, n: int, k: int)
    requires m == n + k * Pow2(w)
    ensures Same(w, m, n) && Wrap(w, m) == Wrap(w, n)
  {
    hide Pow2;
    ModUnique(m - n, Pow2(w), k, 0);
    var q, r := n / Pow2(w), n % Pow2(w);
    MulSub(q, -k, Pow2(w));
    ModUnique(m, Pow2(w), q + k, r);
  }

  lemma WrapSame(w: nat, n: int)
    ensures Same(w, Wrap(w, n), n)
  {
    hide Pow2;
    var k := n / Pow2(w);
    assert n == k * Pow2(w) + Wrap(w, n);
    ModUnique(Wrap(w, n) - n, Pow2(w), -k, 0);
  }

  lemma SameUnique(w: nat, m: Word, n: Word)
    requires m < Pow2(w) && n < Pow2(w) && Same(w, m, n)
    ensures m == n
  {
    hide Pow2;
    var k := (m - n) / Pow2(w);
    assert m - n == k * Pow2(w);
    if k >= 1 {
      MulAtLeast(k, 1, Pow2(w));
    } else if k <= -1 {
      MulAtLeast(-1, k, Pow2(w));
    }
  }

  lemma ReadingShift(t: IntType, x: Word) returns (k: int)
    ensures Reading(t, x) == x - k * Pow2(t.width)
  {
    k := if t.unsigned || 2 * x < Pow2(t.width) then 0 else 1;
  }

  // ---- Conversions ----

  lemma {:induction false} PowersGrow(m: nat, n: nat)
    requires m <= n
    ensures Pow2(m) <= Pow2(n)
  {
    if m < n {
      PowersGrow(m, n - 1);
    }
  }

  /** The conversion before an operator: the left operand's signedness chooses the extension. */
  lemma CoerceConverts(from: nat, t: IntType, x: Word)
    requires from > 0 && t.width > 0 && x < Pow2(from)
    ensures Converts(from, t, x, Coerce(from, t.width, t.unsigned, x))
  {
    var source := IntType(from, t.unsigned);
    ReadingIsSigned(source, x);
    ReadingBounds(source, x);
    hide Pow2, Signed;
    if from <= t.width {
      PowersGrow(from, t.width);
      if from < t.width && !t.unsigned {
        HalvesGrow(from, t.width);
        WrapReads(t, Reading(source, x));
      }
    } else {
      hide Reading;
      WrapSame(t.width, x);
      SameBackwards(t.width, Wrap(t.width, x), x);
    }
  }

  lemma HalvesGrow(m: nat, n: nat)
    requires 0 < m <= n
    ensures 2 * Pow2(m - 1) == Pow2(m) && 2 * Pow2(n - 1) == Pow2(n) && Pow2(m - 1) <= Pow2(n - 1)
  {
    PowersGrow(m - 1, n - 1);
  }

  lemma SameBackwards(w: nat, m: int, n: int)
    requires Same(w, m, n)
    ensures Same(w, n, m)
  {
    hide Pow2;
    var k := (m - n) / Pow2(w);
    assert m - n == k * Pow2(w);
    ModUnique(n - m, Pow2(w), -k, 0);
  }

  lemma SameTwice(w: nat, l: int, m: int, n: int)
    requires Same(w, l, m) && Same(w, m, n)
    ensures Same(w, l, n)
  {
    hide Pow2;
    var j, k := (l - m) / Pow2(w), (m - n) / Pow2(w);
    assert l - m == j * Pow2(w) && m - n == k * Pow2(w);
    ModUnique(l - n, Pow2(w), j + k, 0);
  }

  lemma ConvertsUniquely(from: nat, t: IntType, x: Word, y: Word, y': Word)
    requires t.width > 0 && Converts(from, t, x, y) && Converts(from, t, x, y')
    ensures y == y'
  {
    hide Pow2;
    if from <= t.width {
      ReadingsDiffer(t, y, y');
    } else {
      hide Reading;
      SameBackwards(t.width, x, y);
      SameTwice(t.width, y, x, y');
      SameUnique(t.width, y, y');
    }
  }

  // ---- Sums and products ----

  lemma SumLaw(t: IntType, a: Word, b: Word, negate: bool)
    requires t.width > 0
    ensures var x, y := Reading(t, a), Reading(t, b);
      if negate then Same(t.width, Wrap(t.width, a - b), x - y) else Same(t.width, Wrap(t.width, a + b), x + y)
  {
    var j := ReadingShift(t, a);
    var k := ReadingShift(t, b);
    hide Pow2, Reading;
    var m := Pow2(t.width);
    var n, k' := if negate then a - b else a + b, if negate then j - k else j + k;
    MulSub(j, k, m);
    MulSub(j, -k, m);
    var r := if negate then Reading(t, a) - Reading(t, b) else Reading(t, a) + Reading(t, b);
    assert n == r + k' * m;
    ShiftedSame(t.width, n, r, k');
    WrapSame(t.width, n);
    SameTwice(t.width, Wrap(t.width, n), n, r);
  }

  lemma ProductShift(a: int, b: int, j: int, k: int, m: int)
    ensures a * b == (a - j * m) * (b - k * m) + (k * a + j * b - j * k * m) * m
  {
    var x, y := a - j * m, b - k * m;
    assert a * b == (x + j * m) * b;
    assert (x + j * m) * b == x * b + j * m * b;
    assert x * b == x * (y + k * m);
    assert x * (y + k * m) == x * y + x * (k * m);
    assert x * (k * m) == a * (k * m) - j * m * (k * m);
    assert j * m * b == j * b * m;
    assert a * (k * m) == k * a * m;
    assert j * m * (k * m) == j * k * m * m;
  }

  lemma ProductLaw(t: IntType, a: Word, b: Word)
    requires t.width > 0
    ensures Same(t.width, Product(t.width, a, b), Reading(t, a) * Reading(t, b))
  {
    var j := ReadingShift(t, a);
    var k := ReadingShift(t, b);
    hide Pow2, Reading;
    var m := Pow2(t.width);
    ProductShift(a, b, j, k, m);
    var r := Reading(t, a) * Reading(t, b);
    ShiftedSame(t.width, a * b, r, k * a + j * b - j * k * m);
    WrapSame(t.width, a * b);
    SameTwice(t.width, Wrap(t.width, a * b), a * b, r);
  }

  lemma ShiftLeftLaw(t: IntType, a: Word, b: Word)
    requires t.width > 0
    ensures Same(t.width, ShiftLeft(t.width, a, b), Reading(t, a) * Pow2(b))
  {
    var j := ReadingShift(t, a);
    hide Pow2, Reading;
    var m, p := Pow2(t.width), Pow2(b);
    MulSub(a, j * m, p);
    assert j * m * p == j * p * m;
    var r := Reading(t, a) * p;
    ShiftedSame(t.width, a * p, r, j * p);
    WrapSame(t.width, a * p);
    SameTwice(t.width, Wrap(t.width, a * p), a * p, r);
  }

  // ---- Division ----

  lemma NatDivides(x: nat, y: nat)
    requires y > 0
    ensures Divides(x, y, x / y, x % y) && x / y <= x
  {
    var q := x / y;
    assert x == q * y + x % y;
    MulAtLeast(y, 1, q);
  }

  lemma TruncatedDivides(x: int, y: int)
    requires y != 0
    ensures Divides(x, y, TruncatedDiv(x, y), TruncatedRem(x, y))
    ensures var q := TruncatedDiv(x, y); if x >= 0 then -x <= q <= x else x <= q <= -x
    ensures TruncatedDiv(x, y) == -x && x != 0 ==> y == -1
  {
    var q, r := TruncatedParts(x, y);
    hide TruncatedDiv;
    var d := if y > 0 then y else -y;
    SignsMultiply(q, d);
    if d > 1 && q > 0 {
      MulAtLeast(d, 2, q);
    }
  }

  /** The magnitudes of a division that rounds toward zero. */
  lemma TruncatedParts(x: int, y: int) returns (q: int, r: int)
    requires y != 0
    ensures var m, d := if x >= 0 then x else -x, if y > 0 then y else -y;
      m == q * d + r && 0 <= r < d && 0 <= q <= m
    ensures TruncatedDiv(x, y) == if (x >= 0) == (y > 0) then q else -q
  {
    if y > 0 {
      q, r := PositiveParts(if x >= 0 then x else -x, y);
    } else {
      q, r := PositiveParts(if x >= 0 then x else -x, -y);
      QuotientSign(if x >= 0 then x else -x, y);
    }
  }

  lemma PositiveParts(m: nat, d: nat) returns (q: int, r: int)
    requires d > 0
    ensures m == q * d + r && 0 <= r < d && 0 <= q <= m && q == m / d
  {
    q, r := m / d, m % d;
    NatDivides(m, d);
  }

  lemma SignsMultiply(q: int, d: int)
    ensures (-q) * d == -(q * d) && q * (-d) == -(q * d) && (-q) * (-d) == q * d
  {
  }

  /** Dafny's quotient of a natural number by a negative one is the negated quotient. */
  lemma QuotientSign(m: nat, y: int)
    requires y < 0
    ensures m / y == -(m / -y)
  {
    var d := -y;
    var q, r := m / y, m % y;
    assert m == q * y + r && 0 <= r < d;
    assert m == (-q) * d + r;
    ModUnique(m, d, -q, r);
  }

  lemma DivisionLaw(t: IntType, a: Word, b: Word)
    requires t.width > 0 && a < Pow2(t.width) && b < Pow2(t.width) && !Faults(Div, t, a, b)
    ensures OperatesInWidth(Div, t, a, b, Quotient(t.unsigned, t.width, a, b))
    ensures OperatesInWidth(Mod, t, a, b, Remainder(t.unsigned, t.width, a, b))
    ensures Remainder(t.unsigned, t.width, a, b) < Pow2(t.width)
  {
    if t.unsigned {
      UnsignedDivisionLaw(t, a, b);
    } else {
      ReadingIsSigned(t, a);
      ReadingIsSigned(t, b);
      SignedDivisionLaw(t, a, b);
      hide Pow2, Reading, Signed, TruncatedDiv, TruncatedRem, Wrap, Divides;
      var x, y := Reading(t, a), Reading(t, b);
      assert Quotient(false, t.width, a, b) == Wrap(t.width, TruncatedDiv(x, y));
      assert Remainder(false, t.width, a, b) == Wrap(t.width, TruncatedRem(x, y));
    }
  }

  lemma UnsignedDivisionLaw(t: IntType, a: Word, b: Word)
    requires t.width > 0 && t.unsigned && a < Pow2(t.width) && 0 < b < Pow2(t.width)
    ensures Divides(a, b, Reading(t, Quotient(true, t.width, a, b)), a % b)
    ensures Divides(a, b, a / b, Reading(t, Remainder(true, t.width, a, b))) && a % b < Pow2(t.width)
  {
    hide Pow2;
    NatDivides(a, b);
    hide Divides;
    WrapReads(t, a / b);
  }

  lemma SignedDivisionLaw(t: IntType, a: Word, b: Word)
    requires t.width > 0 && !t.unsigned && a < Pow2(t.width) && b < Pow2(t.width) && !Faults(Div, t, a, b)
    ensures var x, y := Reading(t, a), Reading(t, b);
      && Divides(x, y, Reading(t, Wrap(t.width, TruncatedDiv(x, y))), TruncatedRem(x, y))
      && Divides(x, y, TruncatedDiv(x, y), Reading(t, Wrap(t.width, TruncatedRem(x, y))))
  {
    var x, y := Reading(t, a), Reading(t, b);
    ReadingBounds(t, a);
    ReadingBounds(t, b);
    HalvesGrow(t.width, t.width);
    TruncatedDivides(x, y);
    hide Pow2, Reading, TruncatedDiv, TruncatedRem, Wrap;
    WrapReads(t, TruncatedDiv(x, y));
    WrapReads(t, TruncatedRem(x, y));
  }

  // ---- Bits ----

  lemma HalfBits(x: Word, k: nat)
    requires k > 0
    ensures Bit(x, k) == Bit(x / 2, k - 1)
  {
    var p := Pow2(k - 1);
    hide Pow2;
    var q, r := x / 2 / p, x / 2 % p;
    assert x / 2 == q * p + r;
    assert x == q * (2 * p) + (2 * r + x % 2);
    ModUnique(x, 2 * p, q, 2 * r + x % 2);
  }

  lemma LowBit(x: Word)
    ensures Bit(x, 0) <==> x % 2 == 1
  {
    assert x / Pow2(0) == x;
  }

  /** A pattern built from a low bit and the rest. */
  lemma BuiltBits(low: Word, high: Word, k: nat)
    requires low < 2
    ensures Bit(low + 2 * high, k) <==> if k == 0 then low == 1 else Bit(high, k - 1)
  {
    ModUnique(low + 2 * high, 2, high, low);
    if k == 0 {
      LowBit(low + 2 * high);
    } else {
      HalfBits(low + 2 * high, k);
    }
  }

  lemma {:induction false} AndBits(w: nat, a: Word, b: Word)
    ensures BitAnd(w, a, b) < Pow2(w)
    ensures forall k: nat :: k < w ==> (Bit(BitAnd(w, a, b), k) <==> Bit(a, k) && Bit(b, k))
  {
    if w > 0 {
      AndBits(w - 1, a / 2, b / 2);
      forall k: nat | k < w
        ensures Bit(BitAnd(w, a, b), k) <==> Bit(a, k) && Bit(b, k)
      {
        BitOf(w, a, b, BitAnd(w, a, b), if a % 2 == 1 && b % 2 == 1 then 1 else 0, BitAnd(w - 1, a / 2, b / 2), k);
      }
    }
  }

  lemma {:induction false} OrBits(w: nat, a: Word, b: Word)
    ensures BitOr(w, a, b) < Pow2(w)
    ensures forall k: nat :: k < w ==> (Bit(BitOr(w, a, b), k) <==> Bit(a, k) || Bit(b, k))
  {
    if w > 0 {
      OrBits(w - 1, a / 2, b / 2);
      forall k: nat | k < w
        ensures Bit(BitOr(w, a, b), k) <==> Bit(a, k) || Bit(b, k)
      {
        BitOf(w, a, b, BitOr(w, a, b), if a % 2 == 1 || b % 2 == 1 then 1 else 0, BitOr(w - 1, a / 2, b / 2), k);
      }
    }
  }

  lemma {:induction false} XorBits(w: nat, a: Word, b: Word)
    ensures BitXor(w, a, b) < Pow2(w)
    ensures forall k: nat :: k < w ==> (Bit(BitXor(w, a, b), k) <==> Bit(a, k) != Bit(b, k))
  {
    if w > 0 {
      XorBits(w - 1, a / 2, b / 2);
      forall k: nat | k < w
        ensures Bit(BitXor(w, a, b), k) <==> Bit(a, k) != Bit(b, k)
      {
        BitOf(w, a, b, BitXor(w, a, b), if a % 2 != b % 2 then 1 else 0, BitXor(w - 1, a / 2, b / 2), k);
      }
    }
  }

  lemma {:induction false} NotBits(w: nat, a: Word)
    ensures BitNot(w, a) < Pow2(w)
    ensures forall k: nat :: k < w ==> (Bit(BitNot(w, a), k) <==> !Bit(a, k))
  {
    if w > 0 {
      NotBits(w - 1, a / 2);
      forall k: nat | k < w
        ensures Bit(BitNot(w, a), k) <==> !Bit(a, k)
      {
        BitOf(w, a, a, BitNot(w, a), if a % 2 == 1 then 0 else 1, BitNot(w - 1, a / 2), k);
      }
    }
  }

  lemma BitOf(w: nat, a: Word, b: Word, r: Word, low: Word, high: Word, k: nat)
    requires low < 2 && r == low + 2 * high
    ensures Bit(r, k) <==> if k == 0 then low == 1 else Bit(high, k - 1)
    ensures Bit(a, k) <==> if k == 0 then a % 2 == 1 else Bit(a / 2, k - 1)
    ensures Bit(b, k) <==> if k == 0 then b % 2 == 1 else Bit(b / 2, k - 1)
  {
    BuiltBits(low, high, k);
    LowBit(a);
    LowBit(b);
    if k > 0 {
      HalfBits(a, k);
      HalfBits(b, k);
    }
  }

  // ---- Shifts to the right ----

  lemma FloorLaw(x: int, p: nat)
    requires p > 0
    ensures x / p * p <= x < (x / p + 1) * p
    ensures x >= 0 ==> 0 <= x / p <= x
    ensures x < 0 ==> x <= x / p < 0
  {
    FloorBounds(x, p, x / p, x % p);
  }

  lemma Grows(q: nat, p: int)
    requires p > 0
    ensures q * p >= q
  {
    MulAtLeast(p, 1, q);
  }

  lemma FloorBounds(x: int, p: int, q: int, r: int)
    requires p > 0 && x == q * p + r && 0 <= r < p
    ensures q * p <= x < (q + 1) * p
    ensures x >= 0 ==> 0 <= q <= x
    ensures x < 0 ==> x <= q < 0
  {
    assert (q + 1) * p == q * p + p;
    if q >= 0 {
      Grows(q, p);
    } else {
      Grows(-(q + 1), p);
      assert -(q + 1) * p == -((q + 1) * p);
    }
  }

  lemma ShiftRightLaw(t: IntType, a: Word, b: Word)
    requires t.width > 0 && a < Pow2(t.width)
    ensures OperatesInWidth(Rsh, t, a, b, ShiftRight(t.unsigned, t.width, a, b))
  {
    var x := Reading(t, a);
    ReadingIsSigned(t, a);
    ReadingBounds(t, a);
    HalvesGrow(t.width, t.width);
    hide Pow2, Signed, Reading;
    FloorLaw(x, Pow2(b));
    WrapReads(t, x / Pow2(b));
  }

  // ---- Every operator ----

  lemma {:induction false} WidthFits(w: nat)
    ensures w < Pow2(w)
  {
    if w > 0 {
      WidthFits(w - 1);
    }
  }

  lemma FaultsExactly(t: IntType, a: Word, b: Word)
    requires t.width > 0 && a < Pow2(t.width) && b < Pow2(t.width)
    ensures DivisionTraps(t.unsigned, t.width, a, b) <==> Faults(Div, t, a, b)
    ensures Wrap(t.width, t.width) == t.width
  {
    WidthFits(t.width);
    WrapSmall(t.width, t.width);
    HalvesGrow(t.width, t.width);
    hide Pow2;
    WrapSmall(t.width, Pow2(t.width - 1));
    WrapBelow(t.width, -1);
  }

  lemma ComparisonLaw(op: BinaryOp, t: IntType, a: Word, b: Word)
    requires t.width > 0 && a < Pow2(t.width) && b < Pow2(t.width)
    requires op.Eq? || op.Neq? || op.Gt? || op.Lt? || op.Gte? || op.Lte? || op.Land? || op.Lor?
    ensures match EvalBinary(op, t.unsigned, t.width, a, b)
      case Ok(width, r) => Operates(op, t, a, b, width, r)
      case Traps => false
  {
    ReadingIsSigned(t, a);
    ReadingIsSigned(t, b);
    if Reading(t, a) == Reading(t, b) {
      ReadingsDiffer(t, a, b);
    }
    hide Pow2, Signed;
  }

  lemma ArithmeticLaw(op: BinaryOp, t: IntType, a: Word, b: Word)
    requires t.width > 0 && a < Pow2(t.width) && b < Pow2(t.width)
    requires op.Add? || op.Sub? || op.Mul? || op.Div? || op.Mod?
    ensures match EvalBinary(op, t.unsigned, t.width, a, b)
      case Ok(width, r) => !Faults(op, t, a, b) && Operates(op, t, a, b, width, r)
      case Traps => Faults(op, t, a, b)
  {
    FaultsExactly(t, a, b);
    hide Pow2, Reading, DivisionTraps, Same, Divides, Wrap, Product, Quotient, Remainder;
    if op.Add? || op.Sub? {
      SumLaw(t, a, b, op.Sub?);
    } else if op.Mul? {
      ProductLaw(t, a, b);
    } else if !Faults(Div, t, a, b) {
      DivisionLaw(t, a, b);
    }
  }

  lemma BitwiseLaw(op: BinaryOp, t: IntType, a: Word, b: Word)
    requires t.width > 0 && a < Pow2(t.width) && b < Pow2(t.width)
    requires op.And? || op.Or? || op.Xor? || op.Lsh? || op.Rsh?
    ensures match EvalBinary(op, t.unsigned, t.width, a, b)
      case Ok(width, r) => !Faults(op, t, a, b) && Operates(op, t, a, b, width, r)
      case Traps => Faults(op, t, a, b)
  {
    FaultsExactly(t, a, b);
    AndBits(t.width, a, b);
    OrBits(t.width, a, b);
    XorBits(t.width, a, b);
    ShiftLeftLaw(t, a, b);
    ShiftRightLaw(t, a, b);
    hide Pow2, Reading, Same, Bit;
  }

  /** On patterns of one type every operator computes, or traps on, what its name says. */
  lemma BinaryLaw(op: BinaryOp, t: IntType, a: Word, b: Word)
    requires t.width > 0 && a < Pow2(t.width) && b < Pow2(t.width)
    ensures match EvalBinary(op, t.unsigned, t.width, a, b)
      case Ok(width, r) => !Faults(op, t, a, b) && Operates(op, t, a, b, width, r)
      case Traps => Faults(op, t, a, b)
  {
    hide EvalBinary, Operates, Pow2;
    match op
    case Add => ArithmeticLaw(op, t, a, b);
    case Sub => ArithmeticLaw(op, t, a, b);
    case Mul => ArithmeticLaw(op, t, a, b);
    case Div => ArithmeticLaw(op, t, a, b);
    case Mod => ArithmeticLaw(op, t, a, b);
    case And => BitwiseLaw(op, t, a, b);
    case Or => BitwiseLaw(op, t, a, b);
    case Xor => BitwiseLaw(op, t, a, b);
    case Lsh => BitwiseLaw(op, t, a, b);
    case Rsh => BitwiseLaw(op, t, a, b);
    case _ => ComparisonLaw(op, t, a, b);
  }

  // ---- Operands of a command ----

  predicate DeclaresLocal(c: Command, name: string, t: IntType) {
    c.Declare? && c.name == name && c.typ == t
  }

  /** An argument, or a local declared by an earlier command. */
  predicate IsLocal(p: Program, i: nat, name: string, t: IntType)
    requires i <= |p.commands|
  {
    || (exists k :: 0 <= k < |p.args| && p.args[k] == (name, t))
    || (exists k :: 0 <= k < i && DeclaresLocal(p.commands[k], name, t))
  }

  predicate NoLocal(p: Program, i: nat, name: string)
    requires i <= |p.commands|
  {
    && (forall k :: 0 <= k < |p.args| ==> p.args[k].0 != name)
    && (forall k :: 0 <= k < i && p.commands[k].Declare? ==> p.commands[k].name != name)
  }

  /** In front of command i the operand has this type and stands for this pattern. Literals are signed. */
  predicate Holds(p: Program, i: nat, s: State, v: Operand, t: IntType, x: Word)
    requires i <= |p.commands|
  {
    && t.width > 0 && x < Pow2(t.width)
    && match v
       case Number(n) => t == IntType(64, false) && Same(64, x, n)
       case Truth(b) => t == IntType(1, false) && x == if b then 1 else 0
       case Register(name) =>
         || (IsLocal(p, i, name, t) && name in s.locals && s.locals[name] == x)
         || (NoLocal(p, i, name) && name in p.globals && p.globals[name] == t
             && name in s.globals && s.globals[name] == x)
  }

  lemma {:induction false} ArgumentTyped(args: seq<(string, IntType)>, k: nat)
    requires k < |args| && forall i, j :: 0 <= i < j < |args| ==> args[i].0 != args[j].0
    ensures args[k].0 in ArgumentTypes(args) && ArgumentTypes(args)[args[k].0] == args[k].1
  {
    var n := |args| - 1;
    if k < n {
      ArgumentTyped(args[..n], k);
    }
  }

  lemma {:induction false} ArgumentNamed(args: seq<(string, IntType)>, name: string)
    requires name in ArgumentTypes(args)
    ensures exists k :: 0 <= k < |args| && args[k].0 == name
  {
    var n := |args| - 1;
    if args[n].0 != name {
      ArgumentNamed(args[..n], name);
      var k :| 0 <= k < n && args[..n][k].0 == name;
      assert args[k].0 == name;
    }
  }

  lemma {:induction false} LocalTyped(p: Program, i: nat, name: string, t: IntType)
    requires Validated(p) && i <= |p.commands| && IsLocal(p, i, name, t)
    ensures name in VisibleLocals(p, i) && VisibleLocals(p, i)[name] == t
  {
    if i == 0 {
      var k :| 0 <= k < |p.args| && p.args[k] == (name, t);
      ArgumentTyped(p.args, k);
    } else if DeclaresLocal(p.commands[i - 1], name, t) {
      if name in VisibleLocals(p, i - 1) {
        LocalNamed(p, i - 1, name);
      }
    } else {
      LocalTyped(p, i - 1, name, t);
    }
  }

  lemma {:induction false} LocalNamed(p: Program, i: nat, name: string)
    requires i <= |p.commands| && name in VisibleLocals(p, i)
    ensures !NoLocal(p, i, name)
  {
    if i == 0 {
      ArgumentNamed(p.args, name);
    } else if name in VisibleLocals(p, i - 1) {
      LocalNamed(p, i - 1, name);
    }
  }

  lemma HeldOperand(p: Program, i: nat, s: State, v: Operand, t: IntType, x: Word)
    requires Validated(p) && i <= |p.commands| && Holds(p, i, s, v, t, x)
    ensures var scope := Scope(VisibleLocals(p, i), p.globals);
      EvalOperand(scope, s, v) == Typed(t.width, x) && IsUnsigned(scope, v) == t.unsigned
  {
    hide Pow2, Validated, VisibleLocals;
    match v
    case Number(n) =>
      WrapSame(64, n);
      SameBackwards(64, x, n);
      SameTwice(64, Wrap(64, n), n, x);
      SameUnique(64, Wrap(64, n), x);
    case Truth(_) =>
    case Register(name) =>
      if IsLocal(p, i, name, t) && name in s.locals && s.locals[name] == x {
        LocalTyped(p, i, name, t);
      } else if name in VisibleLocals(p, i) {
        LocalNamed(p, i, name);
      }
  }

  /** In front of any command of a validated body: the signedness declared for the left operand decides what a
      binary operator computes and when it traps, after the right operand has been converted to its type. */
  lemma BinaryMeans(o: Oracle, p: Program, i: nat, s: State, op: BinaryOp, lhs: Operand, t: IntType, a: Word,
                    rhs: Operand, t': IntType, given: Word, b: Word)
    requires Validated(p) && i <= |p.commands| && Holds(p, i, s, lhs, t, a) && Holds(p, i, s, rhs, t', given)
    requires Converts(t'.width, t, given, b)
    ensures match EvalComputation(o, Scope(VisibleLocals(p, i), p.globals), s, Binary(op, lhs, rhs))
      case Value(width, r, after) => after == s && !Faults(op, t, a, b) && Operates(op, t, a, b, width, r)
      case Crash(globals, trace) => Faults(op, t, a, b) && globals == s.globals && trace == s.trace
      case Undefined => false
  {
    HeldOperand(p, i, s, lhs, t, a);
    HeldOperand(p, i, s, rhs, t', given);
    ConvertedOperand(t', t, given, b);
    hide Pow2, Validated, VisibleLocals, Converts, Faults, Operates, EvalBinary, Coerce, EvalOperand, IsUnsigned, Holds;
    BinaryLaw(op, t, a, b);
  }

  lemma ConvertedOperand(t': IntType, t: IntType, x: Word, y: Word)
    requires t'.width > 0 && t.width > 0 && x < Pow2(t'.width) && Converts(t'.width, t, x, y)
    ensures y == Coerce(t'.width, t.width, t.unsigned, x) && y < Pow2(t.width)
  {
    CoerceConverts(t'.width, t, x);
    hide Coerce, Pow2, Converts;
    ConvertsUniquely(t'.width, t, x, y, Coerce(t'.width, t.width, t.unsigned, x));
    WithinWidth(t'.width, t, x, y);
  }

  lemma WithinWidth(from: nat, t: IntType, x: Word, y: Word)
    requires Converts(from, t, x, y)
    ensures y < Pow2(t.width)
  {
  }

  /** The unary computations, in front of any command of a validated body. */
  lemma UnaryMeans(o: Oracle, p: Program, i: nat, s: State, v: Operand, t: IntType, a: Word)
    requires Validated(p) && i <= |p.commands| && Holds(p, i, s, v, t, a)
    ensures var scope := Scope(VisibleLocals(p, i), p.globals);
      && EvalComputation(o, scope, s, Copy(v)) == Value(t.width, a, s)
      && EvalComputation(o, scope, s, Lnot(v)) == Value(1, if a == 0 then 1 else 0, s)
      && EvalComputation(o, scope, s, Not(v)).Value?
      && var r := EvalComputation(o, scope, s, Not(v));
         && r.width == t.width && r.after == s && r.bits < Pow2(t.width)
         && forall k: nat :: k < t.width ==> (Bit(r.bits, k) <==> !Bit(a, k))
  {
    HeldOperand(p, i, s, v, t, a);
    NotBits(t.width, a);
    hide Pow2, Validated, VisibleLocals, EvalOperand, Bit;
  }
}
