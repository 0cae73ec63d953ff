/** Structure stores that clear padding, and the bytewise loads that read the values back. */
module StructMemory {
  import opened ByteMemory

  /** A type's layout. A scalar may occupy more bytes than its store writes. */
  datatype Type =
    | Scalar(allocSize: nat, storeSize: nat)
    | Struct(allocSize: nat, fields: seq<Field>)

  datatype Field = Field(offset: nat, typ: Type)

  datatype Value = Plain(bytes: seq<Byte>) | Aggregate(members: seq<Value>)

  predicate Covers(f: Field, k: int) {
    f.offset <= k < f.offset + f.typ.allocSize
  }

  /** Fields lie inside their structure and do not overlap; they may leave gaps and need no order. */
  ghost predicate WellFormed(t: Type) {
    match t
    case Scalar(allocSize, storeSize) => storeSize <= allocSize
    case Struct(allocSize, fields) =>
      && (forall i :: 0 <= i < |fields| ==>
            WellFormed(fields[i].typ) && fields[i].offset + fields[i].typ.allocSize <= allocSize)
      && (forall i, j, k :: 0 <= i < j < |fields| && Covers(fields[i], k) ==> !Covers(fields[j], k))
  }

  ghost predicate HasType(v: Value, t: Type)
    decreases t
  {
    match t
    case Scalar(_, storeSize) => v.Plain? && |v.bytes| == storeSize
    case Struct(_, fields) =>
      v.Aggregate? && |v.members| == |fields|
      && forall i :: 0 <= i < |fields| ==> HasType(v.members[i], fields[i].typ)
  }

  /** The field among the first n that covers byte k, if there is one. */
  function FieldAt(fields: seq<Field>, n: nat, k: nat): (i: nat)
    requires n <= |fields|
    ensures i <= n && (i < n ==> Covers(fields[i], k))
    ensures i == n ==> forall j :: 0 <= j < n ==> !Covers(fields[j], k)
  {
    if n == 0 then 0
    else
      var i := FieldAt(fields, n - 1, k);
      if i < n - 1 then i else if Covers(fields[n - 1], k) then n - 1 else n
  }

  /** Byte k of a value's memory image: a field's own byte, or zero where there is padding. */
  function ByteAt(t: Type, v: Value, k: nat): Byte
    decreases t
  {
    match t
    case Scalar(_, _) => if v.Plain? && k < |v.bytes| then v.bytes[k] else 0
    case Struct(_, fields) =>
      var i := FieldAt(fields, |fields|, k);
      if i < |fields| && v.Aggregate? && i < |v.members|
      then ByteAt(fields[i].typ, v.members[i], k - fields[i].offset) else 0
  }

  function Image(t: Type, v: Value): (image: seq<Byte>)
    ensures |image| == t.allocSize
  {
    seq(t.allocSize, k requires 0 <= k => ByteAt(t, v, k))
  }

  /** What a typed read of a byte image yields. */
  function Decode(t: Type, image: seq<Byte>): Value
    decreases t
  {
    match t
    case Scalar(_, storeSize) => Plain(if storeSize <= |image| then image[..storeSize] else image)
    case Struct(_, fields) =>
      Aggregate(seq(|fields|, i requires 0 <= i < |fields| => Decode(fields[i].typ, FieldBytes(fields[i], image))))
  }

  function FieldBytes(f: Field, image: seq<Byte>): seq<Byte> {
    var end := f.offset + f.typ.allocSize;
    if end <= |image| then image[f.offset..end] else []
  }

  /** Memory that differs from an earlier one by one image written at an address. */
  ghost predicate Written(now: seq<Byte>, before: seq<Byte>, address: nat, image: seq<Byte>) {
    && |now| == |before| && address + |image| <= |before|
    && forall a :: 0 <= a < |before| ==>
         now[a] == if address <= a < address + |image| then image[a - address] else before[a]
  }

  /** Copies a non-structure value byte by byte from a zeroed temporary. */
  method StoreBytewise(mem: array<Byte>, t: Type, v: Value, address: nat)
    requires t.Scalar? && WellFormed(t) && HasType(v, t) && address + t.allocSize <= mem.Length
    modifies mem
    ensures Written(mem[..], old(mem[..]), address, Image(t, v))
  {
    var temporary := new Byte[t.allocSize](_ => 0);
    var index := 0;
    while index < |v.bytes|
      invariant 0 <= index <= |v.bytes|
      invariant forall k :: 0 <= k < t.allocSize ==> temporary[k] == if k < index then v.bytes[k] else 0
      invariant mem[..] == old(mem[..])
    {
      temporary[index] := v.bytes[index];
      index := index + 1;
    }
    assert temporary[..] == Image(t, v);
    index := 0;
    while index < t.allocSize
      invariant 0 <= index <= t.allocSize && temporary[..] == Image(t, v)
      invariant Written(mem[..], old(mem[..]), address, Image(t, v)[..index])
    {
      mem[address + index] := temporary[index];
      index := index + 1;
    }
  }

  method ClearBytes(mem: array<Byte>, address: nat, size: nat)
    requires address + size <= mem.Length
    modifies mem
    ensures Written(mem[..], old(mem[..]), address, seq(size, _ => 0))
  {
    var offset := 0;
    while offset < size
      invariant 0 <= offset <= size
      invariant Written(mem[..], old(mem[..]), address, seq(offset, _ => 0))
    {
      mem[address + offset] := 0;
      offset := offset + 1;
    }
  }

  /** The structure's image once its first n fields have been stored over zeroes. */
  function PartialByte(fields: seq<Field>, members: seq<Value>, n: nat, k: nat): Byte
    requires n <= |fields| && n <= |members|
  {
    var i := FieldAt(fields, n, k);
    if i < n then ByteAt(fields[i].typ, members[i], k - fields[i].offset) else 0
  }

  function PartialImage(t: Type, v: Value, n: nat): seq<Byte>
    requires t.Struct? && v.Aggregate? && n <= |t.fields| && n <= |v.members|
  {
    seq(t.allocSize, k requires 0 <= k => PartialByte(t.fields, v.members, n, k))
  }

  /** Storing one more field changes exactly the bytes it covers. */
  lemma PartialStep(t: Type, v: Value, n: nat, now: seq<Byte>, before: seq<Byte>, address: nat, next: seq<Byte>)
    requires t.Struct? && WellFormed(t) && HasType(v, t) && n < |t.fields|
    requires Written(now, before, address, PartialImage(t, v, n))
    requires Written(next, now, address + t.fields[n].offset, Image(t.fields[n].typ, v.members[n]))
    ensures Written(next, before, address, PartialImage(t, v, n + 1))
  {
    var f := t.fields[n];
    forall a | 0 <= a < |before|
      ensures next[a] ==
        if address <= a < address + t.allocSize then PartialImage(t, v, n + 1)[a - address] else before[a]
    {
      if address <= a < address + t.allocSize {
        PartialByteStep(t, v, n, a - address);
      }
    }
  }

  lemma PartialByteStep(t: Type, v: Value, n: nat, k: nat)
    requires t.Struct? && WellFormed(t) && HasType(v, t) && n < |t.fields|
    ensures PartialByte(t.fields, v.members, n + 1, k)
         == if Covers(t.fields[n], k) then ByteAt(t.fields[n].typ, v.members[n], k - t.fields[n].offset)
            else PartialByte(t.fields, v.members, n, k)
  {
  }

  lemma AllFieldsStored(t: Type, v: Value)
    requires t.Struct? && HasType(v, t)
    ensures PartialImage(t, v, |t.fields|) == Image(t, v) && PartialImage(t, v, 0) == seq(t.allocSize, _ => 0)
  {
  }

  /** Stores a value and zeroes everything else inside its allocation. The resulting bytes depend on
      the value alone, and nothing outside the allocation changes. */
  method StoreWithZeroedPadding(mem: array<Byte>, t: Type, v: Value, address: nat)
    requires WellFormed(t) && HasType(v, t) && address + t.allocSize <= mem.Length
    modifies mem
    ensures Written(mem[..], old(mem[..]), address, Image(t, v))
    decreases t
  {
    hide Image, PartialImage, Written;
    if t.Scalar? {
      StoreBytewise(mem, t, v, address);
      return;
    }
    AllFieldsStored(t, v);
    ClearBytes(mem, address, t.allocSize);
    var index := 0;
    while index < |t.fields|
      invariant 0 <= index <= |t.fields|
      invariant Written(mem[..], old(mem[..]), address, PartialImage(t, v, index))
    {
      var f := t.fields[index];
      ghost var now := mem[..];
      StoreWithZeroedPadding(mem, f.typ, v.members[index], address + f.offset);
      PartialStep(t, v, index, now, old(mem[..]), address, mem[..]);
      index := index + 1;
    }
  }

  method LoadBytewise(mem: array<Byte>, t: Type, address: nat) returns (v: Value)
    requires address + t.allocSize <= mem.Length
    ensures v == Decode(t, mem[address..address + t.allocSize])
  {
    var temporary := new Byte[t.allocSize](_ => 0);
    var index := 0;
    while index < t.allocSize
      invariant 0 <= index <= t.allocSize
      invariant temporary[..index] == mem[address..address + index]
    {
      temporary[index] := mem[address + index];
      index := index + 1;
    }
    assert temporary[..] == mem[address..address + t.allocSize];
    v := Decode(t, temporary[..]);
  }

  lemma FieldAtUnique(t: Type, i: nat, k: nat)
    requires t.Struct? && WellFormed(t) && i < |t.fields| && Covers(t.fields[i], k)
    ensures FieldAt(t.fields, |t.fields|, k) == i
  {
  }

  /** A byte that no field covers is padding, and padding is zero. */
  lemma PaddingIsZero(t: Type, v: Value, k: nat)
    requires t.Struct? && forall i :: 0 <= i < |t.fields| ==> !Covers(t.fields[i], k)
    ensures ByteAt(t, v, k) == 0
  {
  }

  /** Inside a structure's image, each field's bytes are that field's own image. */
  lemma FieldImage(t: Type, v: Value, i: nat)
    requires t.Struct? && WellFormed(t) && HasType(v, t) && i < |t.fields|
    ensures FieldBytes(t.fields[i], Image(t, v)) == Image(t.fields[i].typ, v.members[i])
  {
    forall k: nat | k < t.fields[i].typ.allocSize
      ensures ByteAt(t, v, t.fields[i].offset + k) == ByteAt(t.fields[i].typ, v.members[i], k)
    {
      FieldAtUnique(t, i, t.fields[i].offset + k);
    }
  }

  /** A typed read of what a store wrote gives the value back. */
  lemma {:induction false} DecodeImage(t: Type, v: Value)
    requires WellFormed(t) && HasType(v, t)
    ensures Decode(t, Image(t, v)) == v
    decreases t
  {
    if t.Scalar? {
      assert Image(t, v)[..t.storeSize] == v.bytes;
    } else {
      forall i | 0 <= i < |t.fields|
        ensures Decode(t.fields[i].typ, FieldBytes(t.fields[i], Image(t, v))) == v.members[i]
      {
        FieldImage(t, v, i);
        DecodeImage(t.fields[i].typ, v.members[i]);
      }
      assert Decode(t, Image(t, v)).members == v.members;
    }
  }

  /** Two values have the same image only if they are equal, so comparing bytes compares values. */
  lemma ImageInjective(t: Type, v: Value, v': Value)
    requires WellFormed(t) && HasType(v, t) && HasType(v', t)
    ensures Image(t, v) == Image(t, v') <==> v == v'
  {
    DecodeImage(t, v);
    DecodeImage(t, v');
  }

  /** Store, then load: the value comes back, whatever the memory held before. */
  method StoreThenLoad(mem: array<Byte>, t: Type, v: Value, address: nat) returns (loaded: Value)
    requires WellFormed(t) && HasType(v, t) && address + t.allocSize <= mem.Length
    modifies mem
    ensures loaded == v
  {
    StoreWithZeroedPadding(mem, t, v, address);
    loaded := LoadBytewise(mem, t, address);
    assert mem[address..address + t.allocSize] == Image(t, v);
    DecodeImage(t, v);
  }
}
