/** `#vmin` and `#vmax` on one floating-point lane: a target's minnum or maxnum, made bit-exact. */
module FloatMinMax {
  import opened FloatBits
  import opened FloatValues

  // ---- The order of lane values, with -0 below +0 ----

  predicate IsNegative(fmt: Format, x: Bits) {
    x & fmt.sign != 0
  }

  function Size(fmt: Format, x: Bits): Bits {
    x & (fmt.exponent | fmt.fraction)
  }

  predicate IsZero(fmt: Format, x: Bits) {
    Size(fmt, x) == 0
  }

  /** The place of a lane value on the number line: the two zeros are neighbours. */
  function Key(fmt: Format, x: Bits): int {
    var size := Size(fmt, x) as int;
    if IsNegative(fmt, x) then -1 - size else size
  }

  predicate AtMost(fmt: Format, x: Bits, y: Bits) {
    Key(fmt, x) <= Key(fmt, y)
  }

  /** A lane operand that is a number and has been flushed. */
  predicate IsNumber(fmt: Format, x: Bits) {
    IsPattern(fmt, x) && !IsNaN(fmt, x) && !IsSubnormal(fmt, x)
  }

  function Least(fmt: Format, x: Bits, y: Bits): Bits {
    if AtMost(fmt, x, y) then x else y
  }

  function Greatest(fmt: Format, x: Bits, y: Bits): Bits {
    if AtMost(fmt, x, y) then y else x
  }

  // ---- What targets may do ----

  /** All that is assumed of a target's minnum or maxnum (IEEE 754-2008, section 5.3.1): on numbers that are
      not both zero it returns the lesser or the greater; on two zeros it returns a zero of either sign; with
      a NaN operand it may return anything. */
  predicate NativeAllows(fmt: Format, isMin: bool, a: Bits, b: Bits, native: Bits) {
    IsNaN(fmt, a) || IsNaN(fmt, b)
    || (IsPattern(fmt, native)
        && if IsZero(fmt, a) && IsZero(fmt, b) then IsZero(fmt, native)
           else native == if isMin then Least(fmt, a, b) else Greatest(fmt, a, b))
  }

  // ---- The emitted selection ----

  predicate IsSignaling(fmt: Format, x: Bits) {
    IsNaN(fmt, x) && x & fmt.quiet == 0
  }

  function Select(condition: bool, x: Bits, y: Bits): Bits {
    if condition then x else y
  }

  /** The chain of selects applied to the native result; a and b have been flushed. */
  function Stable(fmt: Format, isMin: bool, a: Bits, b: Bits, native: Bits): Bits {
    var signBits := if isMin then a | b else a & b;
    var stableZero := signBits & fmt.sign;
    var bothZero := IsZero(fmt, a) && IsZero(fmt, b);
    var nanA, nanB := IsNaN(fmt, a), IsNaN(fmt, b);
    var anySignaling := IsSignaling(fmt, a) || IsSignaling(fmt, b);
    var onlyB := Select(nanA && !nanB, b, a);
    var onlyA := Select(nanB && !nanA, a, onlyB);
    var neither := Select(nanA && nanB, CanonicalNaN(fmt), onlyA);
    var nanResult := Select(anySignaling, CanonicalNaN(fmt), neither);
    Select(bothZero, stableZero, Select(nanA || nanB, nanResult, native))
  }

  /** One lane of `#vmin` or `#vmax`, given what the target's instruction returns on the flushed operands. */
  function Lane(fmt: Format, isMin: bool, a: Bits, b: Bits, native: Bits): Bits {
    Stable(fmt, isMin, FlushSubnormal(fmt, a), FlushSubnormal(fmt, b), native)
  }

  // ---- What the lane means ----

  /** A number beats a quiet NaN; a signaling NaN, or two NaNs, give the canonical NaN. */
  function Meaning(fmt: Format, isMin: bool, a: Bits, b: Bits): Bits {
    if IsNaN(fmt, a) || IsNaN(fmt, b) then
      if IsSignaling(fmt, a) || IsSignaling(fmt, b) || (IsNaN(fmt, a) && IsNaN(fmt, b)) then CanonicalNaN(fmt)
      else if IsNaN(fmt, a) then b
      else a
    else if isMin then Least(fmt, a, b)
    else Greatest(fmt, a, b)
  }

  lemma ZeroBits(fmt: Format, isMin: bool, a: Bits, b: Bits)
    requires Supported(fmt) && IsPattern(fmt, a) && IsPattern(fmt, b) && IsZero(fmt, a) && IsZero(fmt, b)
    ensures !IsNaN(fmt, a) && !IsNaN(fmt, b)
    ensures (if isMin then a | b else a & b) & fmt.sign == if IsNegative(fmt, a) == isMin then a else b
  {
    if fmt == BINARY32 {
    } else {
      assert fmt == BINARY64;
    }
  }

  lemma KeyOfZero(fmt: Format, x: Bits)
    requires IsZero(fmt, x)
    ensures Key(fmt, x) == if IsNegative(fmt, x) then -1 else 0
  {
    hide Size;
  }

  lemma SameKey(fmt: Format, x: Bits, y: Bits)
    requires Supported(fmt) && IsPattern(fmt, x) && IsPattern(fmt, y) && Key(fmt, x) == Key(fmt, y)
    ensures x == y
  {
    hide IsNegative, IsPattern, Size, Supported;
    assert (Size(fmt, x) as int) as Bits == Size(fmt, x);
    assert (Size(fmt, y) as int) as Bits == Size(fmt, y);
    SameParts(fmt, x, y);
  }

  lemma SameParts(fmt: Format, x: Bits, y: Bits)
    requires Supported(fmt) && IsPattern(fmt, x) && IsPattern(fmt, y)
    requires IsNegative(fmt, x) == IsNegative(fmt, y) && Size(fmt, x) == Size(fmt, y)
    ensures x == y
  {
    if fmt == BINARY32 {
    } else {
      assert fmt == BINARY64;
    }
  }

  lemma StablePicksZero(fmt: Format, isMin: bool, a: Bits, b: Bits, native: Bits)
    requires Supported(fmt) && IsPattern(fmt, a) && IsPattern(fmt, b) && IsZero(fmt, a) && IsZero(fmt, b)
    ensures !IsNaN(fmt, a) && !IsNaN(fmt, b)
    ensures Stable(fmt, isMin, a, b, native) == if IsNegative(fmt, a) == isMin then a else b
  {
    hide Supported, IsPattern, IsNegative, IsNaN, IsZero, IsSignaling, CanonicalNaN;
    ZeroBits(fmt, isMin, a, b);
  }

  lemma StableZeros(fmt: Format, isMin: bool, a: Bits, b: Bits, native: Bits)
    requires Supported(fmt) && IsPattern(fmt, a) && IsPattern(fmt, b) && IsZero(fmt, a) && IsZero(fmt, b)
    ensures Stable(fmt, isMin, a, b, native) == Meaning(fmt, isMin, a, b)
  {
    hide Stable, Supported, IsPattern, IsNegative, IsNaN, IsZero, IsSignaling, CanonicalNaN, Key;
    StablePicksZero(fmt, isMin, a, b, native);
    KeyOfZero(fmt, a);
    KeyOfZero(fmt, b);
    if Key(fmt, a) == Key(fmt, b) {
      SameKey(fmt, a, b);
    }
  }

  /** The emitted selection computes the meaning, whatever the target does within its freedom. */
  lemma StableMeans(fmt: Format, isMin: bool, a: Bits, b: Bits, native: Bits)
    requires Supported(fmt) && IsPattern(fmt, a) && IsPattern(fmt, b) && NativeAllows(fmt, isMin, a, b, native)
    ensures Stable(fmt, isMin, a, b, native) == Meaning(fmt, isMin, a, b)
  {
    hide IsNaN, IsZero, IsPattern, CanonicalNaN, AtMost, IsSignaling;
    if IsZero(fmt, a) && IsZero(fmt, b) {
      StableZeros(fmt, isMin, a, b, native);
    } else {
      SignalingIsNaN(fmt, a);
      SignalingIsNaN(fmt, b);
    }
  }

  lemma SignalingIsNaN(fmt: Format, x: Bits)
    ensures IsSignaling(fmt, x) ==> IsNaN(fmt, x)
  {
  }

  /** Two targets that differ only on zero signs and NaNs give the same bits. */
  lemma TargetIndependent(fmt: Format, isMin: bool, a: Bits, b: Bits, one: Bits, other: Bits)
    requires Supported(fmt) && IsPattern(fmt, a) && IsPattern(fmt, b)
    requires NativeAllows(fmt, isMin, FlushSubnormal(fmt, a), FlushSubnormal(fmt, b), one)
    requires NativeAllows(fmt, isMin, FlushSubnormal(fmt, a), FlushSubnormal(fmt, b), other)
    ensures Lane(fmt, isMin, a, b, one) == Lane(fmt, isMin, a, b, other)
  {
    hide NativeAllows, Stable, IsPattern, FlushSubnormal;
    FlushKeepsPattern(fmt, a);
    FlushKeepsPattern(fmt, b);
    StableMeans(fmt, isMin, FlushSubnormal(fmt, a), FlushSubnormal(fmt, b), one);
    StableMeans(fmt, isMin, FlushSubnormal(fmt, a), FlushSubnormal(fmt, b), other);
  }

  lemma MeaningCommutes(fmt: Format, isMin: bool, a: Bits, b: Bits)
    requires Supported(fmt) && IsPattern(fmt, a) && IsPattern(fmt, b)
    ensures Meaning(fmt, isMin, a, b) == Meaning(fmt, isMin, b, a)
  {
    hide Key, IsNaN, IsPattern, CanonicalNaN, IsSignaling;
    if Key(fmt, a) == Key(fmt, b) {
      SameKey(fmt, a, b);
    }
  }

  /** Swapping the operands does not change the bits, even if the target treats them differently. */
  lemma LaneCommutes(fmt: Format, isMin: bool, a: Bits, b: Bits, one: Bits, other: Bits)
    requires Supported(fmt) && IsPattern(fmt, a) && IsPattern(fmt, b)
    requires NativeAllows(fmt, isMin, FlushSubnormal(fmt, a), FlushSubnormal(fmt, b), one)
    requires NativeAllows(fmt, isMin, FlushSubnormal(fmt, b), FlushSubnormal(fmt, a), other)
    ensures Lane(fmt, isMin, a, b, one) == Lane(fmt, isMin, b, a, other)
  {
    hide NativeAllows, Stable, IsPattern, FlushSubnormal, Meaning;
    var x, y := FlushSubnormal(fmt, a), FlushSubnormal(fmt, b);
    FlushKeepsPattern(fmt, a);
    FlushKeepsPattern(fmt, b);
    StableMeans(fmt, isMin, x, y, one);
    StableMeans(fmt, isMin, y, x, other);
    MeaningCommutes(fmt, isMin, x, y);
  }

  lemma NumberIsCanonical(fmt: Format, x: Bits)
    requires IsNumber(fmt, x)
    ensures Canonical(fmt, x)
  {
    hide IsPattern, IsSubnormal, IsNaN;
  }

  lemma MeaningIsCanonical(fmt: Format, isMin: bool, a: Bits, b: Bits)
    requires Supported(fmt) && IsPattern(fmt, a) && IsPattern(fmt, b)
    requires !IsSubnormal(fmt, a) && !IsSubnormal(fmt, b)
    ensures Canonical(fmt, Meaning(fmt, isMin, a, b))
  {
    hide AtMost, Supported, IsPattern, IsSubnormal, CanonicalNaN, IsNaN, IsSignaling, Canonical;
    CanonicalNaNIsCanonical(fmt);
    if !IsNaN(fmt, a) {
      NumberIsCanonical(fmt, a);
    }
    if !IsNaN(fmt, b) {
      NumberIsCanonical(fmt, b);
    }
  }

  /** The result is never subnormal and never a NaN other than the canonical one. */
  lemma LaneIsCanonical(fmt: Format, isMin: bool, a: Bits, b: Bits, native: Bits)
    requires Supported(fmt) && IsPattern(fmt, a) && IsPattern(fmt, b)
    requires NativeAllows(fmt, isMin, FlushSubnormal(fmt, a), FlushSubnormal(fmt, b), native)
    ensures Canonical(fmt, Lane(fmt, isMin, a, b, native))
  {
    hide NativeAllows, Stable, FlushSubnormal, IsPattern, IsSubnormal, Canonical, Meaning, Supported;
    var x, y := FlushSubnormal(fmt, a), FlushSubnormal(fmt, b);
    FlushKeepsPattern(fmt, a);
    FlushKeepsPattern(fmt, b);
    StableMeans(fmt, isMin, x, y, native);
    MeaningIsCanonical(fmt, isMin, x, y);
  }

  lemma CanonicalNaNIsCanonical(fmt: Format)
    requires Supported(fmt)
    ensures Canonical(fmt, CanonicalNaN(fmt))
  {
    if fmt == BINARY32 {
    } else {
      assert fmt == BINARY64;
    }
  }

  /** On numbers the two operations are the meet and the join of the order. */
  lemma LatticeOnNumbers(fmt: Format, a: Bits, b: Bits, c: Bits)
    requires Supported(fmt) && IsNumber(fmt, a) && IsNumber(fmt, b)
    ensures var low := Meaning(fmt, true, a, b);
      AtMost(fmt, low, a) && AtMost(fmt, low, b) && (AtMost(fmt, c, a) && AtMost(fmt, c, b) <==> AtMost(fmt, c, low))
    ensures var high := Meaning(fmt, false, a, b);
      AtMost(fmt, a, high) && AtMost(fmt, b, high) && (AtMost(fmt, a, c) && AtMost(fmt, b, c) <==> AtMost(fmt, high, c))
    ensures IsNumber(fmt, Meaning(fmt, true, a, b)) && IsNumber(fmt, Meaning(fmt, false, a, b))
  {
    hide Key, IsNaN, IsPattern, IsSubnormal;
  }

  /** The order is antisymmetric on lane patterns, so meet and join are unique. */
  lemma OrderIsAntisymmetric(fmt: Format, a: Bits, b: Bits)
    requires Supported(fmt) && IsNumber(fmt, a) && IsNumber(fmt, b)
    requires AtMost(fmt, a, b) && AtMost(fmt, b, a)
    ensures a == b
  {
    SameKey(fmt, a, b);
  }

  // ---- The lane said by fields ----

  /** Patterns of numbers are ordered as sign and magnitude; -0 comes right before +0. */
  function Place(fmt: Format, x: Bits): int {
    var size := (if fmt == BINARY32 then x & 0x7fff_ffff else x & 0x7fff_ffff_ffff_ffff) as int;
    if Negative(fmt, x) then -1 - size else size
  }

  lemma SizeIsMagnitude(fmt: Format, x: Bits)
    requires Supported(fmt)
    ensures Size(fmt, x) == if fmt == BINARY32 then x & 0x7fff_ffff else x & 0x7fff_ffff_ffff_ffff
  {
    if fmt == BINARY32 {
      assert fmt.exponent | fmt.fraction == 0x7fff_ffff;
    } else {
      assert fmt == BINARY64;
      assert fmt.exponent | fmt.fraction == 0x7fff_ffff_ffff_ffff;
    }
  }

  lemma SignIsNegative(fmt: Format, x: Bits)
    requires Supported(fmt)
    ensures IsNegative(fmt, x) ==> Negative(fmt, x)
    ensures Negative(fmt, x) ==> IsNegative(fmt, x)
  {
    if fmt == BINARY32 {
    } else {
      assert fmt == BINARY64;
    }
  }

  lemma KeyIsPlace(fmt: Format, x: Bits)
    requires Supported(fmt)
    ensures Key(fmt, x) == Place(fmt, x)
  {
    SizeIsMagnitude(fmt, x);
    hide Size, IsNegative, Negative, Supported;
    SignIsNegative(fmt, x);
  }

  lemma SignalingMeans(fmt: Format, x: Bits)
    requires Supported(fmt)
    ensures IsSignaling(fmt, x) <==> Signals(fmt, x)
  {
    NaNIsNoNumber(fmt, x);
    hide IsNaN, NoNumber;
    if fmt == BINARY32 {
    } else {
      assert fmt == BINARY64;
    }
  }

  /** What a lane gives for flushed operands. */
  function Chosen(fmt: Format, isMin: bool, x: Bits, y: Bits): Bits {
    if Signals(fmt, x) || Signals(fmt, y) || (NoNumber(fmt, x) && NoNumber(fmt, y)) then QuietNaN(fmt)
    else if NoNumber(fmt, x) then y
    else if NoNumber(fmt, y) then x
    else if isMin then (if Place(fmt, x) <= Place(fmt, y) then x else y)
    else if Place(fmt, x) > Place(fmt, y) then x
    else y
  }

  lemma MeaningIsChosen(fmt: Format, isMin: bool, x: Bits, y: Bits)
    requires Supported(fmt)
    ensures Meaning(fmt, isMin, x, y) == Chosen(fmt, isMin, x, y)
  {
    hide Supported, IsNaN, NoNumber, IsSignaling, Signals, CanonicalNaN, QuietNaN, Key, Place, Least, Greatest;
    NaNIsNoNumber(fmt, x);
    NaNIsNoNumber(fmt, y);
    SignalingMeans(fmt, x);
    SignalingMeans(fmt, y);
    if IsNaN(fmt, x) || IsNaN(fmt, y) {
      CanonicalIsQuiet(fmt);
    } else {
      SignalingIsNaN(fmt, x);
      SignalingIsNaN(fmt, y);
      ChoiceByPlace(fmt, x, y);
    }
  }

  lemma CanonicalIsQuiet(fmt: Format)
    requires Supported(fmt)
    ensures CanonicalNaN(fmt) == QuietNaN(fmt)
  {
  }

  lemma ChoiceByPlace(fmt: Format, x: Bits, y: Bits)
    requires Supported(fmt)
    ensures Least(fmt, x, y) == if Place(fmt, x) <= Place(fmt, y) then x else y
    ensures Greatest(fmt, x, y) == if Place(fmt, x) > Place(fmt, y) then x else y
  {
    hide Supported, Key, Place;
    KeyIsPlace(fmt, x);
    KeyIsPlace(fmt, y);
  }

  /** A lane of `#vmin` or `#vmax` for every pair of patterns and every result the target may give. */
  lemma LaneMeans(fmt: Format, isMin: bool, a: Bits, b: Bits, native: Bits)
    requires Supported(fmt) && IsPattern(fmt, a) && IsPattern(fmt, b)
    requires NativeAllows(fmt, isMin, FlushSubnormal(fmt, a), FlushSubnormal(fmt, b), native)
    ensures Lane(fmt, isMin, a, b, native) == Chosen(fmt, isMin, CountsAs(fmt, a), CountsAs(fmt, b))
  {
    hide NativeAllows, Supported, IsPattern, FlushSubnormal, CountsAs, Chosen, Meaning, Stable;
    FlushKeepsPattern(fmt, a);
    FlushKeepsPattern(fmt, b);
    FlushMeans(fmt, a);
    FlushMeans(fmt, b);
    StableMeans(fmt, isMin, FlushSubnormal(fmt, a), FlushSubnormal(fmt, b), native);
    MeaningIsChosen(fmt, isMin, CountsAs(fmt, a), CountsAs(fmt, b));
  }
}
