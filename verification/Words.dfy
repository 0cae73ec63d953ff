/** Machine words: bit patterns of a given width, read unsigned or in two's complement. */
module Words {

  /** A bit pattern; a pattern of width w is below Pow2(w). */
  type Word = nat

  function Pow2(n: nat): (r: nat)
    ensures r > 0
  {
    if n == 0 then 1 else 2 * Pow2(n - 1)
  }

  /** Reduces an integer to the pattern of width w it is congruent to. */
  function Wrap(w: nat, x: int): (r: Word)
    ensures r < Pow2(w)
  {
    x % Pow2(w)
  }

  /** The two's-complement reading of a pattern. */
  function Signed(w: nat, x: Word): int {
    if w > 0 && x >= Pow2(w - 1) then x - Pow2(w) else x
  }

  function BoolWord(b: bool): Word {
    if b then 1 else 0
  }

  /** Division that rounds toward zero, as sdiv does; Dafny's own division is Euclidean. */
  function TruncatedDiv(a: int, b: int): int
    requires b != 0
  {
    if a >= 0 then a / b else -((-a) / b)
  }

  function TruncatedRem(a: int, b: int): int
    requires b != 0
  {
    a - TruncatedDiv(a, b) * b
  }

  function Product(w: nat, a: Word, b: Word): Word {
    Wrap(w, a * b)
  }

  function Quotient(unsigned: bool, w: nat, a: Word, b: Word): Word {
    if unsigned then (if b == 0 then 0 else Wrap(w, a / b))
    else if Signed(w, b) == 0 then 0
    else Wrap(w, TruncatedDiv(Signed(w, a), Signed(w, b)))
  }

  function Remainder(unsigned: bool, w: nat, a: Word, b: Word): Word {
    if unsigned then (if b == 0 then 0 else a % b)
    else if Signed(w, b) == 0 then 0
    else Wrap(w, TruncatedRem(Signed(w, a), Signed(w, b)))
  }

  function ShiftLeft(w: nat, a: Word, b: Word): Word {
    Wrap(w, a * Pow2(b))
  }

  /** Logical for unsigned operands; otherwise arithmetic, rounding toward minus infinity. */
  function ShiftRight(unsigned: bool, w: nat, a: Word, b: Word): Word {
    Wrap(w, if unsigned then a / Pow2(b) else Signed(w, a) / Pow2(b))
  }

  function BitAnd(w: nat, a: Word, b: Word): Word {
    if w == 0 then 0 else (a % 2) * (b % 2) + 2 * BitAnd(w - 1, a / 2, b / 2)
  }

  function BitOr(w: nat, a: Word, b: Word): Word {
    if w == 0 then 0
    else (if a % 2 + b % 2 > 0 then 1 else 0) + 2 * BitOr(w - 1, a / 2, b / 2)
  }

  function BitXor(w: nat, a: Word, b: Word): Word {
    if w == 0 then 0 else (a + b) % 2 + 2 * BitXor(w - 1, a / 2, b / 2)
  }

  function BitNot(w: nat, a: Word): Word {
    if w == 0 then 0 else (1 - a % 2) + 2 * BitNot(w - 1, a / 2)
  }

  /** On one-bit words the bitwise operators are the Boolean ones. */
  lemma OneBitLogic(a: bool, b: bool)
    ensures BitAnd(1, BoolWord(a), BoolWord(b)) == BoolWord(a && b)
    ensures BitOr(1, BoolWord(a), BoolWord(b)) == BoolWord(a || b)
  {
    assert BitAnd(0, BoolWord(a) / 2, BoolWord(b) / 2) == 0;
    assert BitOr(0, BoolWord(a) / 2, BoolWord(b) / 2) == 0;
  }

  lemma MulAtLeast(a: int, b: int, c: int)
    requires a >= b && c >= 0
    ensures a * c >= b * c
  {
  }

  lemma MulSub(a: int, b: int, c: int)
    ensures (a - b) * c == a * c - b * c
  {
  }

  /** Quotient and remainder are determined by where the number falls. */
  lemma ModUnique(x: int, m: int, q: int, r: int)
    requires 0 <= r < m && x == q * m + r
    ensures x % m == r && x / m == q
  {
    var q', r' := x / m, x % m;
    assert q' * m + r' == x && 0 <= r' < m;
    MulSub(q', q, m);
    if q' > q {
      MulAtLeast(q' - q, 1, m);
    } else if q' < q {
      MulAtLeast(-1, q' - q, m);
    }
  }

  lemma WrapSmall(w: nat, x: int)
    requires 0 <= x < Pow2(w)
    ensures Wrap(w, x) == x
  {
    hide Pow2;
    ModUnique(x, Pow2(w), 0, x);
  }

  lemma WrapOnce(w: nat, x: int)
    requires Pow2(w) <= x < 2 * Pow2(w)
    ensures Wrap(w, x) == x - Pow2(w)
  {
    hide Pow2;
    ModUnique(x, Pow2(w), 1, x - Pow2(w));
  }

  lemma WrapBelow(w: nat, x: int)
    requires 0 <= x + Pow2(w) && x < 0
    ensures Wrap(w, x) == x + Pow2(w)
  {
    hide Pow2;
    ModUnique(x, Pow2(w), -1, x + Pow2(w));
  }

  lemma {:induction false} PowersMultiply(a: nat, b: nat)
    ensures Pow2(a + b) == Pow2(a) * Pow2(b)
  {
    if a > 0 {
      PowersMultiply(a - 1, b);
      assert Pow2(a - 1 + b) * 2 == Pow2(a + b);
    }
  }
}
