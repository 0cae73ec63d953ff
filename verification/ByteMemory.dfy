/** Byte memory addressed modulo 2^w, and the run-time checks that guard accesses to it. */
module ByteMemory {
  import opened Words

  type Byte = x: int | 0 <= x < 256

  /** The memory of a target with w-bit pointers. */
  ghost predicate IsMemory(w: nat, mem: array<Byte>) {
    mem.Length == Pow2(w)
  }

  /** The emitted end-address test: the sum, reduced to the pointer width, fell below the start. */
  predicate RangeWraps(w: nat, address: Word, length: Word) {
    Wrap(w, address + length) < address
  }

  /** The test fires exactly when the range's end leaves the address space. */
  lemma RangeWrapsIff(w: nat, address: Word, length: Word)
    requires address < Pow2(w) && length < Pow2(w)
    ensures RangeWraps(w, address, length) <==> address + length >= Pow2(w)
  {
    if address + length >= Pow2(w) {
      WrapOnce(w, address + length);
    } else {
      WrapSmall(w, address + length);
    }
  }

  /** The check before an access of a fixed size: one that no pointer can count always fails it. */
  predicate AccessWraps(w: nat, address: Word, size: nat) {
    size > Pow2(w) - 1 || RangeWraps(w, address, size)
  }

  lemma AccessWrapsIff(w: nat, address: Word, size: nat)
    requires address < Pow2(w)
    ensures AccessWraps(w, address, size) <==> address + size >= Pow2(w)
  {
    if size < Pow2(w) {
      RangeWrapsIff(w, address, size);
    }
  }
}
