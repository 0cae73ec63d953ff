/** Float patterns by their fields, and what the masks do to them. */
module FloatValues {
  import opened FloatBits

  // ---- Fields ----

  predicate InFormat(fmt: Format, x: Bits) {
    fmt == BINARY32 ==> x <= 0xffff_ffff
  }

  predicate Negative(fmt: Format, x: Bits) {
    (if fmt == BINARY32 then x >> 31 else x >> 63) & 1 == 1
  }

  function Exponent(fmt: Format, x: Bits): Bits {
    if fmt == BINARY32 then (x >> 23) & 0xff else (x >> 52) & 0x7ff
  }

  function Fraction(fmt: Format, x: Bits): Bits {
    if fmt == BINARY32 then x & 0x7f_ffff else x & 0xf_ffff_ffff_ffff
  }

  /** A subnormal number: exponent zero and fraction not zero. */
  predicate Tiny(fmt: Format, x: Bits) {
    Exponent(fmt, x) == 0 && Fraction(fmt, x) != 0
  }

  /** Exponent all ones and fraction not zero. */
  predicate NoNumber(fmt: Format, x: Bits) {
    Exponent(fmt, x) == (if fmt == BINARY32 then 0xff else 0x7ff) && Fraction(fmt, x) != 0
  }

  /** No number, and the first bit of the fraction is zero. */
  predicate Signals(fmt: Format, x: Bits) {
    NoNumber(fmt, x) && (if fmt == BINARY32 then x >> 22 else x >> 51) & 1 == 0
  }

  function QuietNaN(fmt: Format): Bits {
    if fmt == BINARY32 then 0x7fc0_0000 else 0x7ff8_0000_0000_0000
  }

  function SignedZero(fmt: Format, negative: bool): Bits {
    if !negative then 0 else if fmt == BINARY32 then 0x8000_0000 else 0x8000_0000_0000_0000
  }

  // ---- What the masks mean ----

  /** A subnormal counts as the zero of its sign, and everything else as itself. */
  function CountsAs(fmt: Format, x: Bits): Bits {
    if Tiny(fmt, x) then SignedZero(fmt, Negative(fmt, x)) else x
  }

  /** A result that is no number becomes the one quiet NaN. */
  function SettlesAs(fmt: Format, x: Bits): Bits {
    if NoNumber(fmt, x) then QuietNaN(fmt) else CountsAs(fmt, x)
  }

  lemma PatternInFormat(fmt: Format, x: Bits)
    requires Supported(fmt)
    ensures IsPattern(fmt, x) ==> InFormat(fmt, x)
    ensures InFormat(fmt, x) ==> IsPattern(fmt, x)
  {
    if fmt == BINARY32 {
    } else {
      assert fmt == BINARY64;
    }
  }

  lemma SubnormalIsTiny(fmt: Format, x: Bits)
    requires Supported(fmt)
    ensures IsSubnormal(fmt, x) ==> Tiny(fmt, x)
    ensures Tiny(fmt, x) ==> IsSubnormal(fmt, x)
  {
    if fmt == BINARY32 {
    } else {
      assert fmt == BINARY64;
    }
  }

  lemma NaNIsNoNumber(fmt: Format, x: Bits)
    requires Supported(fmt)
    ensures IsNaN(fmt, x) ==> NoNumber(fmt, x)
    ensures NoNumber(fmt, x) ==> IsNaN(fmt, x)
  {
    if fmt == BINARY32 {
    } else {
      assert fmt == BINARY64;
    }
  }

  lemma SignBit(fmt: Format, x: Bits)
    requires Supported(fmt)
    ensures x & fmt.sign == SignedZero(fmt, Negative(fmt, x))
  {
    if fmt == BINARY32 {
    } else {
      assert fmt == BINARY64;
    }
  }

  /** The masks test the fields. */
  lemma MasksAreFields(fmt: Format, x: Bits)
    requires Supported(fmt)
    ensures IsPattern(fmt, x) <==> InFormat(fmt, x)
    ensures IsSubnormal(fmt, x) <==> Tiny(fmt, x)
    ensures IsNaN(fmt, x) <==> NoNumber(fmt, x)
  {
    hide Supported, IsPattern, InFormat, IsSubnormal, Tiny, IsNaN, NoNumber;
    PatternInFormat(fmt, x);
    SubnormalIsTiny(fmt, x);
    NaNIsNoNumber(fmt, x);
  }

  /** Flushing changes subnormals only, and keeps their sign. */
  lemma FlushMeans(fmt: Format, x: Bits)
    requires Supported(fmt)
    ensures FlushSubnormal(fmt, x) == CountsAs(fmt, x)
  {
    hide Supported, IsSubnormal, Tiny, Negative;
    SubnormalIsTiny(fmt, x);
    SignBit(fmt, x);
  }

  lemma CountsAsNumber(fmt: Format, x: Bits)
    requires Supported(fmt)
    ensures NoNumber(fmt, CountsAs(fmt, x)) <==> NoNumber(fmt, x)
  {
    if fmt == BINARY32 {
    } else {
      assert fmt == BINARY64;
    }
  }

  /** Canonicalizing changes subnormals and NaNs only. */
  lemma CanonicalizeMeans(fmt: Format, x: Bits)
    requires Supported(fmt)
    ensures CanonicalizeNaN(fmt, x) == SettlesAs(fmt, x)
  {
    assert CanonicalNaN(fmt) == QuietNaN(fmt);
    hide Supported, IsNaN, NoNumber, CanonicalNaN, QuietNaN, FlushSubnormal, CountsAs;
    FlushMeans(fmt, x);
    NaNIsNoNumber(fmt, CountsAs(fmt, x));
    CountsAsNumber(fmt, x);
  }
}
