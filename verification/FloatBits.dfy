/** IEEE 754 bit patterns, handled with the masks the compiler emits. A binary32 pattern occupies the
    low half of the word. */
module FloatBits {

  type Bits = bv64

  datatype Format = Format(sign: Bits, exponent: Bits, fraction: Bits, quiet: Bits)

  const BINARY32 := Format(0x8000_0000, 0x7f80_0000, 0x007f_ffff, 0x0040_0000)
  const BINARY64 := Format(0x8000_0000_0000_0000, 0x7ff0_0000_0000_0000, 0x000f_ffff_ffff_ffff, 0x0008_0000_0000_0000)

  predicate Supported(fmt: Format) {
    fmt == BINARY32 || fmt == BINARY64
  }

  predicate IsPattern(fmt: Format, x: Bits) {
    x & (fmt.sign | fmt.exponent | fmt.fraction) == x
  }

  predicate IsSubnormal(fmt: Format, x: Bits) {
    x & fmt.exponent == 0 && x & fmt.fraction != 0
  }

  predicate IsNaN(fmt: Format, x: Bits) {
    x & fmt.exponent == fmt.exponent && x & fmt.fraction != 0
  }

  function CanonicalNaN(fmt: Format): Bits {
    fmt.exponent | fmt.quiet
  }

  function FlushSubnormal(fmt: Format, x: Bits): Bits {
    if IsSubnormal(fmt, x) then x & fmt.sign else x
  }

  function CanonicalizeNaN(fmt: Format, x: Bits): Bits {
    var flushed := FlushSubnormal(fmt, x);
    if IsNaN(fmt, flushed) then CanonicalNaN(fmt) else flushed
  }

  /** Neither subnormal nor a NaN other than the canonical one. */
  predicate Canonical(fmt: Format, x: Bits) {
    IsPattern(fmt, x) && !IsSubnormal(fmt, x) && (IsNaN(fmt, x) ==> x == CanonicalNaN(fmt))
  }

  lemma FlushKeepsPattern(fmt: Format, x: Bits)
    requires Supported(fmt) && IsPattern(fmt, x)
    ensures IsPattern(fmt, FlushSubnormal(fmt, x)) && !IsSubnormal(fmt, FlushSubnormal(fmt, x))
  {
  }

  lemma CanonicalizeYieldsCanonical(fmt: Format, x: Bits)
    requires Supported(fmt) && IsPattern(fmt, x)
    ensures Canonical(fmt, CanonicalizeNaN(fmt, x))
  {
    FlushKeepsPattern(fmt, x);
    assert IsPattern(fmt, CanonicalNaN(fmt)) && !IsSubnormal(fmt, CanonicalNaN(fmt));
  }
}
