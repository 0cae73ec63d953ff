/** What the facts of an ended closure contain, command by command. */
module AliasClauses {
  import opened Wrappers
  import opened Ast
  import opened Typing
  import opened AliasRules
  import opened AliasAnalysis
  import opened AliasSoundness

  function Plain(name: string): Value {
    Named(Register(name, []))
  }

  predicate IsStore(i: Instruction) {
    i == Instruction("store", false) || i == Instruction("atomicstore", true)
  }

  /** `store p v`: what v may be, the slot of p may be from then on. */
  lemma StoredIsKnown(c: Command, scope: Scope, env: Environment, f: Facts, p: string, v: string)
    requires Closed(c, scope, env, f) && c.values == [Plain(p), Plain(v)]
    requires c.instruction.Some? && IsStore(c.instruction.value) && p in f.storage && p in f.slots
    ensures v in scope && v in f.storage ==> f.slots[p] in f.storage && (p in f.references ==> f.slots[p] in f.contents)
    ensures v in f.immutable || (v !in scope && v in env.immutableBacking) ==> f.slots[p] in f.immutable
  {
    hide CopyClosed, LoadClosed, FieldClosed, AssignmentClosed;
  }

  /** `#memcpy d s n`: contents move to the destination and to the slot it is known to refer to. */
  lemma CopiedIsKnown(c: Command, scope: Scope, env: Environment, f: Facts, d: string, s: string, n: Value)
    requires Closed(c, scope, env, f) && c.values == [Plain(d), Plain(s), n]
    requires c.instruction == Some(Instruction("memcpy", true)) && d in scope && d in f.storage
    requires s in f.contents || (s in f.slots && f.slots[s] in f.contents)
    ensures d in f.contents && (d in f.slots ==> f.slots[d] in f.contents)
  {
    hide StoreClosed, LoadClosed, FieldClosed, AssignmentClosed;
  }

  predicate IsLoad(c: Command, t: string, p: string) {
    && c.target == RegisterTarget(Register(t, [])) && c.declared.Some? && c.values == [Plain(p)]
    && c.instruction.Some? && (c.instruction.value.name == "load" || c.instruction.value.name == "atomicload")
  }

  /** `T t = load p`: what the slot of p may hold, t may hold, and a pointer loaded through a local pointer may
      be one itself. */
  lemma LoadedIsKnown(c: Command, scope: Scope, env: Environment, f: Facts, t: string, p: string)
    requires Closed(c, scope, env, f) && IsLoad(c, t, p)
    ensures p in f.slots && f.slots[p] in f.immutable ==> t in f.immutable
    ensures p in f.slots && f.slots[p] in f.storage && c.declared.value.pointers > 0 ==> t in f.storage
    ensures p in scope && p in f.storage && c.declared.value.pointers > 0 ==> t in f.storage
  {
    hide StoreClosed, CopyClosed, FieldClosed, CommandMayNameImmutable, InitializerMayContain, SomeNamedIn,
         RefersToAggregate, PreservesSlot, ReferencedSlot;
    assert !IsRef(c.instruction.value.name);
  }

  lemma {:induction false} NoIndexCounted(accessors: seq<Accessor>)
    requires forall k :: 0 <= k < |accessors| ==> accessors[k].Field?
    ensures IndexCount(accessors) == 0
  {
    if accessors != [] {
      NoIndexCounted(accessors[1..]);
    }
  }

  /** `x.f.g = v` with a local address in v: x holds one, and so do its contents. */
  lemma FieldIsKnown(c: Command, scope: Scope, env: Environment, f: Facts, x: string, v: string)
    requires Closed(c, scope, env, f) && c.target.RegisterTarget? && c.target.register.name == x && x in scope
    requires c.target.register.accessors != []
    requires forall k :: 0 <= k < |c.target.register.accessors| ==> c.target.register.accessors[k].Field?
    requires c.instruction.None? && c.values == [Plain(v)] && v in scope && v in f.storage
    ensures x in f.storage && x in f.contents
  {
    NoIndexCounted(c.target.register.accessors);
    hide StoreClosed, CopyClosed, LoadClosed, AssignmentClosed, CommandMayNameImmutable, RegisterType, IndexCount;
  }

  /** A local address somewhere in an array literal, however deep. */
  predicate HoldsItem(v: Value, scope: Scope, names: set<string>) {
    match v
    case Array(items) => exists k :: 0 <= k < |items| && HoldsItem(items[k], scope, names)
    case Named(reg) => reg.accessors == [] && reg.name in scope && reg.name in names
    case _ => false
  }

  lemma {:induction false} InitializerDecides(v: Value, scope: Scope, env: Environment, f: Facts)
    requires HoldsItem(v, scope, f.storage)
    ensures InitializerMayContain(v, scope, env, f).Some? ==> InitializerMayContain(v, scope, env, f).value
  {
    if v.Array? && InitializerMayContain(v, scope, env, f).Some? {
      var k :| 0 <= k < |v.items| && HoldsItem(v.items[k], scope, f.storage);
      InitializerDecides(v.items[k], scope, env, f);
      ItemReached(v.items, k, scope, env, f);
    }
  }

  /** Unless an earlier item decides, item k is typed. */
  lemma {:induction false} ItemReached(items: seq<Value>, k: nat, scope: Scope, env: Environment, f: Facts)
    requires k < |items| && ItemsMayContain(items, scope, env, f).Some?
    requires InitializerMayContain(items[k], scope, env, f) != Some(false)
    ensures ItemsMayContain(items, scope, env, f) == Some(true)
  {
    if k > 0 && InitializerMayContain(items[0], scope, env, f) == Some(false) {
      ItemReached(items[1..], k - 1, scope, env, f);
    }
  }

  /** `T[] t = [..]` with a local address in it, or an assignment from anything whose contents hold one. */
  lemma ContentsAreKnown(c: Command, scope: Scope, env: Environment, f: Facts, t: string)
    requires Closed(c, scope, env, f) && c.target == RegisterTarget(Register(t, [])) && (c.declared.Some? || t in scope)
    ensures c.values != [] && c.values[0].Array? && HoldsItem(c.values[0], scope, f.storage) ==> t in f.contents
    ensures (exists v <- c.values :: v.Named? && v.register.name in f.contents) ==> t in f.contents
  {
    hide StoreClosed, CopyClosed, LoadClosed, FieldClosed, CommandMayPoint, CommandMayNameImmutable, RefersToAggregate,
         PreservesSlot, ReferencedSlot, TracksAddressBits, InitializerMayContain, HoldsItem;
    if c.values != [] && HoldsItem(c.values[0], scope, f.storage) {
      InitializerDecides(c.values[0], scope, env, f);
    }
    if v :| v in c.values && v.Named? && v.register.name in f.contents {
      var i :| 0 <= i < |c.values| && c.values[i] == v;
      assert SomeNamedIn(c.values, f.contents);
    }
  }

  /** `p = ref x..`: p refers to a local slot, and to an aggregate if x is a struct or is indexed into local storage. */
  lemma ReferencesAreKnown(c: Command, scope: Scope, env: Environment, f: Facts, p: string, x: Register)
    requires Closed(c, scope, env, f) && c.target == RegisterTarget(Register(p, [])) && (c.declared.Some? || p in scope)
    requires c.instruction.Some? && c.instruction.value.name == "ref" && c.values == [Named(x)] && x.name in scope
    ensures p in f.slots
    ensures scope[x.name].pointers == 0 && scope[x.name].base in env.structs ==> p in f.references
    ensures scope[x.name].pointers > 0 && x.name in f.storage && (exists a <- x.accessors :: a.Index?) ==>
      p in f.references
  {
    hide StoreClosed, CopyClosed, LoadClosed, FieldClosed, CommandMayPoint, CommandMayNameImmutable, PreservesSlot,
         SomeNamedIn, TracksAddressBits, InitializerMayContain, CommonSlot;
  }

  /** Copies, casts between pointers and integers, width changes and `add` keep what is referred to. */
  lemma ReferencesAreKept(c: Command, scope: Scope, env: Environment, f: Facts, t: string, p: string)
    requires Closed(c, scope, env, f) && c.target == RegisterTarget(Register(t, [])) && (c.declared.Some? || t in scope)
    requires c.values == [Plain(p)]
    requires c.instruction.Some? ==>
      c.instruction.value.name in ["ptrcast", "ptrtoint", "inttoptr", "trunc", "sext", "zext", "add"]
    ensures p in f.slots ==> t in f.slots
    ensures p in f.references ==> t in f.references
  {
    hide StoreClosed, CopyClosed, LoadClosed, FieldClosed, CommandMayPoint, CommandMayNameImmutable, TracksAddressBits,
         InitializerMayContain, RefersToAggregate;
    assert PreservesSlot(c) && !RefersToLocal(c, scope);
    if p in f.slots {
      assert c.values[1..] == [];
      assert CommonSlot(c.values[1..], f.slots, Some(f.slots[p])) == Some(f.slots[p]);
      assert CommonSlot(c.values, f.slots, None) == Some(f.slots[p]);
    }
    if p in f.references {
      assert SomeNamedIn(c.values, f.references);
    }
  }

  // ---- Values that may be local addresses ----

  /** A type that can hold the bits of an address. */
  predicate HoldsAddressBits(t: TypeNode) {
    || t.pointers > 0
    || (!t.isView && t.base in ["bool", "i8", "i16", "i32", "i64", "u8", "u16", "u32", "u64", "f32", "f64"])
  }

  predicate DeclaresBits(c: Command, t: string) {
    c.target == RegisterTarget(Register(t, [])) && c.declared.Some? && HoldsAddressBits(c.declared.value)
  }

  predicate PlainLocal(v: Value, scope: Scope) {
    v.Named? && v.register.accessors == [] && v.register.name in scope
  }

  /** Copies, array literals and references. */
  lemma AddressesAreKnown(c: Command, scope: Scope, env: Environment, f: Facts, t: string)
    requires Closed(c, scope, env, f) && DeclaresBits(c, t) && |c.values| == 1
    ensures c.instruction.None? && c.values[0].Array? ==> t in f.storage
    ensures c.instruction.None? && PlainLocal(c.values[0], scope) && c.values[0].register.name in f.storage ==>
      t in f.storage
    ensures c.instruction.Some? && c.instruction.value.name == "ref" && PlainLocal(c.values[0], scope) ==>
      t in f.storage
  {
    hide StoreClosed, CopyClosed, LoadClosed, FieldClosed, CommandMayNameImmutable, InitializerMayContain, SomeNamedIn,
         RefersToAggregate, PreservesSlot, ReferencedSlot;
    if c.instruction.Some? && c.instruction.value.name == "ref" {
      assert !HasIndex([]);
    }
  }

  predicate KeepsBits(name: string) {
    || name in ["ptrcast", "ptrtoint", "inttoptr", "trunc", "sext", "zext", "sitofp", "uitofp", "fptosi", "fptoui"]
    || name in ["fpext", "fptrunc", "add", "mul", "div", "mod", "and", "or", "xor", "lsh", "rsh", "not"]
    || name in ["bswap", "bitreverse"]
  }

  lemma KeptNames(name: string)
    requires KeepsBits(name)
    ensures CarriesBits(name) && !IsRef(name) && !Loads(name) && !IsSub(name)
  {
  }

  /** Casts and arithmetic on a local address may give one. */
  lemma BitsAreKnown(c: Command, scope: Scope, env: Environment, f: Facts, t: string, p: string)
    requires Closed(c, scope, env, f) && DeclaresBits(c, t)
    requires c.instruction.Some? && KeepsBits(c.instruction.value.name)
    requires c.values != [] && c.values[0] == Plain(p) && p in scope && p in f.storage
    ensures t in f.storage
  {
    KeptNames(c.instruction.value.name);
    hide StoreClosed, CopyClosed, LoadClosed, FieldClosed, CommandMayNameImmutable, InitializerMayContain, SomeNamedIn,
         RefersToAggregate, PreservesSlot, ReferencedSlot, CarriesBits, IsRef, Loads, IsSub, KeepsBits, LoadMayPoint,
         DifferenceOfPointers;
  }

  /** A difference counts as a plain number only between two pointers: `sub p n` with a literal, null included, or
      with a local that is no pointer, may give a local address. */
  lemma SubtractedIsKnown(c: Command, scope: Scope, env: Environment, f: Facts, t: string, p: string, n: Value)
    requires Closed(c, scope, env, f) && DeclaresBits(c, t)
    requires c.instruction.Some? && c.instruction.value.name == "sub" && c.values == [Plain(p), n]
    requires p in scope && p in f.storage
    requires n.Integer? || n.Null? || (PlainLocal(n, scope) && scope[n.register.name].pointers == 0)
    ensures t in f.storage
  {
    SubName();
    hide StoreClosed, CopyClosed, LoadClosed, FieldClosed, CommandMayNameImmutable, InitializerMayContain, SomeNamedIn,
         RefersToAggregate, PreservesSlot, ReferencedSlot, CarriesBits, IsRef, Loads, IsSub, LoadMayPoint;
    assert DifferenceOfPointers(c, scope, env) == Some(false);
  }

  lemma SubName()
    ensures CarriesBits("sub") && IsSub("sub") && !IsRef("sub") && !Loads("sub")
  {
  }

  // ---- What the checks reject ----

  /** A local that may hold a local address is not returned, not assigned to a global, and not written through
      accessors of a global. */
  lemma EscapesAreRejected(c: Command, scope: Scope, env: Environment, f: Facts, v: string)
    requires EscapeChecked(c, scope, env, f) && c.values == [Plain(v)] && v in scope && v in f.storage
    ensures c.instruction.None? || c.instruction.value.name != "ret"
    ensures c.instruction.None? && c.target.RegisterTarget? && c.declared.None? ==> c.target.register.name in scope
  {
    hide TargetIsLocalStorage;
    assert MayContainLocal(Plain(v), scope, env, f) == Some(true);
  }

  /** Nor is it written through an index, unless a tracked local pointer is indexed first and only once. */
  lemma IndexedWritesAreRejected(c: Command, scope: Scope, env: Environment, f: Facts, v: string)
    requires EscapeChecked(c, scope, env, f) && c.values == [Plain(v)] && v in scope && v in f.storage
    requires c.instruction.None? && c.target.RegisterTarget? && c.target.register.accessors != []
    requires c.target.register.accessors[0].Index?
    ensures var name := c.target.register.name;
      name in scope && scope[name].pointers > 0 && name in f.storage
    ensures forall k :: 0 < k < |c.target.register.accessors| ==> c.target.register.accessors[k].Field?
  {
    assert MayContainLocal(Plain(v), scope, env, f) == Some(true);
    var accessors := c.target.register.accessors;
    IndexesCounted(accessors[1..]);
    forall k | 0 < k < |accessors|
      ensures accessors[k].Field?
    {
      assert accessors[1..][k - 1] == accessors[k];
    }
  }

  lemma {:induction false} IndexesCounted(accessors: seq<Accessor>)
    ensures IndexCount(accessors) == 0 ==> forall k :: 0 <= k < |accessors| ==> accessors[k].Field?
  {
    if accessors != [] {
      IndexesCounted(accessors[1..]);
      forall k | 0 < k < |accessors|
        ensures accessors[k] == accessors[1..][k - 1]
      {
      }
    }
  }
}
