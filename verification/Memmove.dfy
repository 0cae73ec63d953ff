/** The byte loop emitted for `#memcpy` and `#memset`. */
module Memmove {
  import opened Words
  import opened ByteMemory

  /** A length operand may be wider than a pointer; it must survive narrowing. */
  predicate LengthTooLarge(w: nat, length: Word) {
    Wrap(w, length) != length
  }

  lemma LengthFits(w: nat, length: Word)
    ensures LengthTooLarge(w, length) <==> length >= Pow2(w)
  {
    if length < Pow2(w) {
      WrapSmall(w, length);
    }
  }

  /** When the operation traps, said without modular arithmetic: a non-empty range that is not inside
      the address space or starts at null, or an empty one that starts outside. */
  predicate BadRange(w: nat, address: Word, length: Word) {
    length >= Pow2(w) || address + length >= Pow2(w) || (length != 0 && address == 0)
  }

  /** Memory after moving `length` bytes from source to destination. */
  function Moved(memory: seq<Byte>, destination: nat, source: nat, length: nat): seq<Byte>
    requires destination + length <= |memory| && source + length <= |memory|
  {
    memory[..destination] + memory[source..source + length] + memory[destination + length..]
  }

  function Filled(memory: seq<Byte>, destination: nat, value: Byte, length: nat): seq<Byte>
    requires destination + length <= |memory|
  {
    memory[..destination] + seq(length, _ => value) + memory[destination + length..]
  }

  /** The direction test: copy from the last byte down when the destination starts inside the source. */
  function CopiesBackward(w: nat, destination: Word, source: Word, length: Word): bool {
    destination > source && Wrap(w, destination - source) < length
  }

  /** Byte number index of the copy, in the chosen direction, in pointer-width arithmetic. */
  function ByteIndex(w: nat, backward: bool, length: Word, index: Word): Word {
    if backward then Wrap(w, Wrap(w, length - 1) - index) else index
  }

  lemma ByteIndexExact(w: nat, backward: bool, length: Word, index: Word)
    requires index < length < Pow2(w)
    ensures ByteIndex(w, backward, length, index) == if backward then length - 1 - index else index
  {
    WrapSmall(w, length - 1);
    WrapSmall(w, length - 1 - index);
  }

  /** Which bytes the first `done` iterations have written. */
  predicate Copied(backward: bool, length: nat, done: nat, k: int) {
    0 <= k < length && (if backward then length - done <= k else k < done)
  }

  /** Memory after `done` iterations. */
  ghost predicate PartlyMoved(now: seq<Byte>, before: seq<Byte>, destination: nat, source: nat, length: nat,
                              backward: bool, done: nat)
    requires destination + length <= |before| && source + length <= |before|
  {
    && |now| == |before|
    && (forall k {:trigger Copied(backward, length, done, k)} :: 0 <= k < length ==>
          now[destination + k] ==
            if Copied(backward, length, done, k) then before[source + k] else before[destination + k])
    && (forall a :: 0 <= a < |before| && !(destination <= a < destination + length) ==> now[a] == before[a])
  }

  /** The byte about to be read has not been overwritten. */
  lemma SourceIntact(now: seq<Byte>, before: seq<Byte>, destination: nat, source: nat, length: nat,
                     backward: bool, done: nat, index: nat)
    requires destination + length <= |before| && source + length <= |before| && done < length
    requires PartlyMoved(now, before, destination, source, length, backward, done)
    requires backward <==> destination > source && destination - source < length
    requires index == if backward then length - 1 - done else done
    ensures now[source + index] == before[source + index]
  {
    var k := source + index - destination;
    if 0 <= k < length {
      assert !Copied(backward, length, done, k);
      assert now[destination + k] == before[destination + k];
    }
  }

  lemma MoveOne(now: seq<Byte>, before: seq<Byte>, destination: nat, source: nat, length: nat,
                backward: bool, done: nat, index: nat)
    requires destination + length <= |before| && source + length <= |before| && done < length
    requires PartlyMoved(now, before, destination, source, length, backward, done)
    requires index == if backward then length - 1 - done else done
    ensures PartlyMoved(now[destination + index := before[source + index]], before, destination, source, length,
                        backward, done + 1)
  {
    var after := now[destination + index := before[source + index]];
    forall k {:trigger Copied(backward, length, done + 1, k)} | 0 <= k < length
      ensures after[destination + k]
           == if Copied(backward, length, done + 1, k) then before[source + k] else before[destination + k]
    {
      assert Copied(backward, length, done + 1, k) <==> Copied(backward, length, done, k) || k == index;
    }
  }

  method CopyLoop(w: nat, mem: array<Byte>, destination: Word, source: Word, length: Word, backward: bool)
    requires IsMemory(w, mem) && destination + length < Pow2(w) && source + length < Pow2(w)
    requires backward == CopiesBackward(w, destination, source, length)
    modifies mem
    ensures mem[..] == Moved(old(mem[..]), destination, source, length)
  {
    hide Pow2, Wrap, ByteIndex, PartlyMoved;
    if destination > source { WrapSmall(w, destination - source); }
    ghost var before := mem[..];
    NothingMoved(before, destination, source, length, backward);
    var index := 0;
    while index < length
      invariant 0 <= index <= length
      invariant PartlyMoved(mem[..], before, destination, source, length, backward, index)
    {
      ByteIndexExact(w, backward, length, index);
      var byteIndex := ByteIndex(w, backward, length, index);
      SourceIntact(mem[..], before, destination, source, length, backward, index, byteIndex);
      MoveOne(mem[..], before, destination, source, length, backward, index, byteIndex);
      ghost var now := mem[..];
      mem[destination + byteIndex] := mem[source + byteIndex];
      assert mem[..] == now[destination + byteIndex := before[source + byteIndex]];
      index := index + 1;
    }
    AllMoved(mem[..], before, destination, source, length, backward);
  }

  lemma NothingMoved(before: seq<Byte>, destination: nat, source: nat, length: nat, backward: bool)
    requires destination + length <= |before| && source + length <= |before|
    ensures PartlyMoved(before, before, destination, source, length, backward, 0)
  {
  }

  lemma AllMoved(now: seq<Byte>, before: seq<Byte>, destination: nat, source: nat, length: nat, backward: bool)
    requires destination + length <= |before| && source + length <= |before|
    requires PartlyMoved(now, before, destination, source, length, backward, length)
    ensures now == Moved(before, destination, source, length)
  {
    forall a | 0 <= a < |before| ensures now[a] == Moved(before, destination, source, length)[a] {
      if destination <= a < destination + length {
        assert Copied(backward, length, length, a - destination);
        assert now[destination + (a - destination)] == before[source + (a - destination)];
      }
    }
  }

  /** `#memcpy` is memmove: it traps exactly on a bad range, before any byte changes, and otherwise
      moves the old source bytes, whatever the overlap. */
  method MemoryCopy(w: nat, mem: array<Byte>, destination: Word, source: Word, length: Word) returns (trapped: bool)
    requires IsMemory(w, mem) && destination < Pow2(w) && source < Pow2(w)
    modifies mem
    ensures trapped <==> BadRange(w, destination, length) || BadRange(w, source, length)
    ensures trapped ==> mem[..] == old(mem[..])
    ensures !trapped ==> mem[..] == Moved(old(mem[..]), destination, source, length)
  {
    LengthFits(w, length);
    if LengthTooLarge(w, length) { return true; }
    RangeWrapsIff(w, destination, length);
    RangeWrapsIff(w, source, length);
    if RangeWraps(w, destination, length) || RangeWraps(w, source, length) { return true; }
    if length == 0 {
      assert mem[..] == Moved(mem[..], destination, source, 0);
      return false;
    }
    if destination == 0 || source == 0 { return true; }
    CopyLoop(w, mem, destination, source, length, CopiesBackward(w, destination, source, length));
    return false;
  }

  method MemorySet(w: nat, mem: array<Byte>, destination: Word, value: Word, length: Word) returns (trapped: bool)
    requires IsMemory(w, mem) && destination < Pow2(w)
    modifies mem
    ensures trapped <==> BadRange(w, destination, length)
    ensures trapped ==> mem[..] == old(mem[..])
    ensures !trapped ==> mem[..] == Filled(old(mem[..]), destination, value % 256, length)
  {
    LengthFits(w, length);
    if LengthTooLarge(w, length) { return true; }
    RangeWrapsIff(w, destination, length);
    if RangeWraps(w, destination, length) { return true; }
    if length != 0 && destination == 0 { return true; }
    var index := 0;
    while index < length
      invariant 0 <= index <= length
      invariant mem[..] == Filled(old(mem[..]), destination, value % 256, index)
    {
      mem[destination + index] := value % 256;
      index := index + 1;
    }
    return false;
  }

  /** The result of a move: each destination byte is the old source byte, all others are as before. */
  lemma MovedAt(memory: seq<Byte>, destination: nat, source: nat, length: nat, a: nat)
    requires destination + length <= |memory| && source + length <= |memory| && a < |memory|
    ensures |Moved(memory, destination, source, length)| == |memory|
    ensures Moved(memory, destination, source, length)[a]
         == if destination <= a < destination + length then memory[source + (a - destination)] else memory[a]
  {
  }

  /** A length of zero passes every check at every address, null included. */
  lemma EmptyRangeAllowed(w: nat, address: Word)
    requires address < Pow2(w)
    ensures !BadRange(w, address, 0)
  {
  }
}
