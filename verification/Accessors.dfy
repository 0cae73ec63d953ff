/** Lowering of accessor chains: pointers are loaded, checked and followed one index at a time. */
module Accessors {
  import opened Wrappers
  import opened Ast
  import opened Typing
  import opened Words
  import opened ByteMemory

  // ---- The type of a chain, as code generation computes it ----

  /** The field tables that code generation fills from the struct declarations. */
  datatype FieldTables = FieldTables(index: map<string, map<string, nat>>, types: map<string, seq<TypeNode>>)

  method DeclareFields(fields: seq<Argument>) returns (types: seq<TypeNode>, index: map<string, nat>)
    requires forall i, j :: 0 <= i < j < |fields| ==> fields[i].name != fields[j].name
    ensures FieldsMirrored(fields, types, index)
  {
    types, index := [], map[];
    for i := 0 to |fields|
      invariant types == seq(i, k requires 0 <= k < i => fields[k].typ)
      invariant |index| == i
      invariant forall name :: name in index <==> exists k :: 0 <= k < i && fields[k].name == name
      invariant forall k :: 0 <= k < i ==> index[fields[k].name] == k
    {
      assert fields[i].name !in index;
      types := types + [fields[i].typ];
      index := index[fields[i].name := |index|];
    }
    forall name
      ensures match FindField(fields, name)
        case None => name !in index
        case Some(t) => name in index && index[name] < |types| && types[index[name]] == t
    {
      FoundField(fields, name);
    }
  }

  /** The tables give each name the type that a search through the declaration finds. */
  ghost predicate FieldsMirrored(fields: seq<Argument>, types: seq<TypeNode>, index: map<string, nat>) {
    forall name ::
      match FindField(fields, name)
      case None => name !in index
      case Some(t) => name in index && index[name] < |types| && types[index[name]] == t
  }

  lemma {:induction false} FoundField(fields: seq<Argument>, name: string)
    ensures match FindField(fields, name)
      case None => forall k :: 0 <= k < |fields| ==> fields[k].name != name
      case Some(t) => exists k :: 0 <= k < |fields| && fields[k].name == name && fields[k].typ == t
  {
    if fields != [] && fields[0].name != name {
      FoundField(fields[1..], name);
    } else if fields != [] {
      assert fields[0].name == name && fields[0].typ == FindField(fields, name).value;
    }
  }

  ghost predicate Mirrors(tables: FieldTables, env: Environment) {
    && tables.index.Keys == env.structs.Keys && tables.types.Keys == env.structs.Keys
    && (forall s :: s in env.structs ==> FieldsMirrored(env.structs[s], tables.types[s], tables.index[s]))
  }

  /** One accessor further. Views and void pointers are not looked at again here. */
  function StepType(t: TypeNode, a: Accessor, tables: FieldTables): Option<TypeNode> {
    match a
    case Index(_) => if t.pointers >= 1 then Some(t.(pointers := t.pointers - 1)) else None
    case Field(name) =>
      if t.pointers != 0 || t.base !in tables.index || name !in tables.index[t.base] then None
      else
        var i := tables.index[t.base][name];
        if t.base !in tables.types || i >= |tables.types[t.base]| then None
        else
          var f := tables.types[t.base][i];
          Some(f.(isConst := f.isConst || t.isConst, isVolatile := f.isVolatile || t.isVolatile))
  }

  function StepTypes(t: TypeNode, accessors: seq<Accessor>, tables: FieldTables): Option<TypeNode> {
    if accessors == [] then Some(t)
    else
      match StepTypes(t, accessors[..|accessors| - 1], tables)
      case None => None
      case Some(u) => StepType(u, accessors[|accessors| - 1], tables)
  }

  lemma StepsAgree(t: TypeNode, a: Accessor, env: Environment, tables: FieldTables)
    requires Mirrors(tables, env) && AccessorType(t, a, env).Some?
    ensures StepType(t, a, tables) == AccessorType(t, a, env)
  {
  }

  lemma {:induction false} LongerChain(t: TypeNode, a: Accessor, more: seq<Accessor>, tables: FieldTables)
    requires StepType(t, a, tables).Some?
    ensures StepTypes(t, [a] + more, tables) == StepTypes(StepType(t, a, tables).value, more, tables)
    decreases more
  {
    hide StepType;
    var all := [a] + more;
    if more == [] {
      assert all[..0] == [] && all == [a];
    } else {
      LongerChain(t, a, more[..|more| - 1], tables);
      assert all[..|all| - 1] == [a] + more[..|more| - 1];
    }
  }

  /** A chain that validation has typed gets the same type from code generation. */
  lemma {:induction false} TypesAgree(t: TypeNode, accessors: seq<Accessor>, env: Environment, tables: FieldTables)
    requires Mirrors(tables, env) && ChainType(t, accessors, env).Some?
    ensures StepTypes(t, accessors, tables) == ChainType(t, accessors, env)
    decreases accessors
  {
    hide StepType, AccessorType, Mirrors;
    if accessors != [] {
      StepsAgree(t, accessors[0], env, tables);
      TypesAgree(AccessorType(t, accessors[0], env).value, accessors[1..], env, tables);
      LongerChain(t, accessors[0], accessors[1..], tables);
      assert [accessors[0]] + accessors[1..] == accessors;
    }
  }

  /** What validation asks of a step beyond what code generation asks. */
  predicate Checked(t: TypeNode, a: Accessor) {
    !t.isView && !(a.Index? && t.pointers == 1 && t.base == "void")
  }

  lemma StepTypedExactly(t: TypeNode, a: Accessor, env: Environment, tables: FieldTables)
    requires Mirrors(tables, env)
    ensures AccessorType(t, a, env).Some? <==> StepType(t, a, tables).Some? && Checked(t, a)
  {
  }

  lemma {:induction false} ChainEndsWith(t: TypeNode, accessors: seq<Accessor>, a: Accessor, env: Environment)
    ensures ChainType(t, accessors + [a], env)
         == match ChainType(t, accessors, env)
            case None => None
            case Some(u) => AccessorType(u, a, env)
    decreases accessors
  {
    hide AccessorType;
    var all := accessors + [a];
    if accessors == [] {
      assert all[0] == a && all[1..] == [];
    } else {
      assert all[0] == accessors[0] && all[1..] == accessors[1..] + [a];
      if AccessorType(t, accessors[0], env).Some? {
        ChainEndsWith(AccessorType(t, accessors[0], env).value, accessors[1..], a, env);
      }
    }
  }

  /** Every step of a chain that code generation types passes what validation asks besides. */
  ghost predicate AllChecked(t: TypeNode, accessors: seq<Accessor>, tables: FieldTables) {
    forall k :: 0 <= k < |accessors| ==>
      var before := StepTypes(t, accessors[..k], tables);
      before.Some? && Checked(before.value, accessors[k])
  }

  /** Validation types exactly the chains that code generation types, without a step from a view or an index of a
      void pointer. */
  lemma {:induction false} TypedExactly(t: TypeNode, accessors: seq<Accessor>, env: Environment, tables: FieldTables)
    requires Mirrors(tables, env)
    ensures ChainType(t, accessors, env).Some?
       <==> StepTypes(t, accessors, tables).Some? && AllChecked(t, accessors, tables)
    decreases |accessors|
  {
    hide StepType, AccessorType, Mirrors, Checked;
    if accessors != [] {
      var n := |accessors| - 1;
      var init, last := accessors[..n], accessors[n];
      assert accessors == init + [last];
      TypedExactly(t, init, env, tables);
      ChainEndsWith(t, init, last, env);
      forall k | 0 <= k < n
        ensures accessors[..k] == init[..k] && accessors[k] == init[k]
      {
      }
      if ChainType(t, init, env).Some? {
        TypesAgree(t, init, env, tables);
        StepTypedExactly(StepTypes(t, init, tables).value, last, env, tables);
      }
    }
  }

  // ---- Emitted code ----

  /** One machine register holds the current address; each operation works on it. */
  datatype Op = TrapIfNull | TrapIfRangeWraps(size: nat) | LoadPointer | Advance(distance: nat)

  /** Sizes and offsets on the target; pointers have w bits. */
  datatype Layout = Layout(w: nat, pointerSize: nat, sizeOf: TypeNode -> nat, offsetOf: (string, string) -> nat)

  datatype Outcome = Trap | At(address: Word)

  function Execute(op: Op, address: Word, layout: Layout, memory: Word -> Word): Outcome {
    match op
    case TrapIfNull => if address == 0 then Trap else At(address)
    case TrapIfRangeWraps(size) => if AccessWraps(layout.w, address, size) then Trap else At(address)
    case LoadPointer => At(Wrap(layout.w, memory(address)))
    case Advance(distance) => At(Wrap(layout.w, address + distance))
  }

  function Run(code: seq<Op>, start: Word, layout: Layout, memory: Word -> Word): Outcome {
    if code == [] then At(start)
    else
      match Run(code[..|code| - 1], start, layout, memory)
      case Trap => Trap
      case At(address) => Execute(code[|code| - 1], address, layout, memory)
  }

  lemma {:induction false} RunInParts(code: seq<Op>, more: seq<Op>, start: Word, layout: Layout, memory: Word -> Word)
    ensures Run(code + more, start, layout, memory) ==
      match Run(code, start, layout, memory)
      case Trap => Trap
      case At(address) => Run(more, address, layout, memory)
    decreases more
  {
    hide Execute;
    if more == [] {
      assert code + more == code;
    } else {
      RunInParts(code, more[..|more| - 1], start, layout, memory);
      assert (code + more)[..|code + more| - 1] == code + more[..|more| - 1];
    }
  }

  function NullCheck(needed: bool): seq<Op> {
    if needed then [TrapIfNull] else []
  }

  /** The code for one accessor, at type t. `indexed` says that the address comes from an earlier index,
      `needed` that the pointer loaded here will be followed. */
  function StepCode(t: TypeNode, a: Accessor, indexed: bool, needed: bool, layout: Layout): seq<Op> {
    match a
    case Field(name) => [Advance(layout.offsetOf(t.base, name))]
    case Index(n) =>
      NullCheck(indexed) + [TrapIfRangeWraps(layout.pointerSize), LoadPointer] + NullCheck(needed)
      + [Advance(n * layout.sizeOf(t.(pointers := if t.pointers > 0 then t.pointers - 1 else 0)))]
  }

  /** The code for a whole chain; `followed` says whether the address it forms will be dereferenced. */
  function ChainCode(t: TypeNode, accessors: seq<Accessor>, followed: bool, tables: FieldTables,
                     layout: Layout): seq<Op>
    requires StepTypes(t, accessors, tables).Some?
  {
    if accessors == [] then []
    else
      var init, last := accessors[..|accessors| - 1], accessors[|accessors| - 1];
      ChainCode(t, init, followed || last.Index?, tables, layout)
      + StepCode(StepTypes(t, init, tables).value, last, HasIndex(init), followed, layout)
  }

  lemma HasIndexStep(accessors: seq<Accessor>, i: nat)
    requires i < |accessors|
    ensures HasIndex(accessors[i..]) == (accessors[i].Index? || HasIndex(accessors[i + 1..]))
    ensures HasIndex(accessors[..i + 1]) == (HasIndex(accessors[..i]) || accessors[i].Index?)
    ensures accessors[..i + 1][..i] == accessors[..i]
  {
    if HasIndex(accessors[i + 1..]) {
      var k :| 0 <= k < |accessors[i + 1..]| && accessors[i + 1..][k].Index?;
      assert accessors[i..][k + 1].Index?;
    }
    if HasIndex(accessors[..i]) {
      var k :| 0 <= k < i && accessors[..i][k].Index?;
      assert accessors[..i + 1][k].Index?;
    }
    if accessors[i].Index? {
      assert accessors[i..][0].Index? && accessors[..i + 1][i].Index?;
    }
    if HasIndex(accessors[i..]) && !accessors[i].Index? {
      var k :| 0 <= k < |accessors[i..]| && accessors[i..][k].Index?;
      assert accessors[i + 1..][k - 1].Index?;
    }
    if HasIndex(accessors[..i + 1]) && !accessors[i].Index? {
      var k :| 0 <= k <= i && accessors[..i + 1][k].Index?;
      assert accessors[..i][k].Index?;
    }
  }

  lemma {:induction false} ShorterChain(t: TypeNode, accessors: seq<Accessor>, i: nat, tables: FieldTables)
    requires i <= |accessors| && StepTypes(t, accessors[..i], tables).None?
    ensures StepTypes(t, accessors, tables).None?
    decreases |accessors| - i
  {
    hide StepType;
    if i < |accessors| {
      assert accessors[..i + 1][..i] == accessors[..i];
      ShorterChain(t, accessors, i + 1, tables);
    } else {
      assert accessors[..i] == accessors;
    }
  }

  /** The loop over the accessors. It looks ahead for later indices to decide which loaded pointers to check. */
  method ResolveRegisterAddress(t: TypeNode, accessors: seq<Accessor>, dereferenceFinal: bool, tables: FieldTables,
                                layout: Layout) returns (r: Option<(seq<Op>, TypeNode)>)
    ensures match StepTypes(t, accessors, tables)
      case None => r.None?
      case Some(u) => r == Some((ChainCode(t, accessors, dereferenceFinal, tables, layout), u))
  {
    hide StepType, HasIndex;
    var code: seq<Op> := [];
    var currentType := t;
    var addressMayBeNull := false;
    assert accessors[..0] == [] && !HasIndex([]) by {
      NothingIndexed();
    }
    for i := 0 to |accessors|
      invariant StepTypes(t, accessors[..i], tables) == Some(currentType)
      invariant addressMayBeNull == HasIndex(accessors[..i])
      invariant code == ChainCode(t, accessors[..i], dereferenceFinal || HasIndex(accessors[i..]), tables, layout)
    {
      HasIndexStep(accessors, i);
      var accessor, typeBefore := accessors[i], currentType;
      var next := StepType(currentType, accessor, tables);
      assert StepTypes(t, accessors[..i + 1], tables) == next;
      if next.None? {
        ShorterChain(t, accessors, i + 1, tables);
        return None;
      }
      currentType := next.value;
      var laterPointerLoad := HasIndex(accessors[i + 1..]);
      code := code + StepCode(typeBefore, accessor, addressMayBeNull, dereferenceFinal || laterPointerLoad, layout);
      addressMayBeNull := addressMayBeNull || accessor.Index?;
    }
    assert accessors[..|accessors|] == accessors && accessors[|accessors|..] == [];
    NothingIndexed();
    r := Some((code, currentType));
  }

  lemma NothingIndexed()
    ensures !HasIndex([])
  {
  }

  // ---- What a chain means ----

  /** A place: an address, and the pointer it was computed from, if it was reached through one. Forming a
      place never fails; using it does when the pointer or the address is null or the access does not fit. */
  datatype Place = Place(address: Word, base: Option<Word>)

  predicate Usable(p: Place, size: nat, w: nat) {
    && (p.base.Some? ==> p.base.value != 0 && p.address != 0)
    && p.address + size < Pow2(w)
  }

  /** The place a chain denotes; None if following it uses a place that cannot be used. */
  function Locate(t: TypeNode, accessors: seq<Accessor>, root: Word, tables: FieldTables, layout: Layout,
                  memory: Word -> Word): Option<Place>
    requires StepTypes(t, accessors, tables).Some?
  {
    if accessors == [] then Some(Place(root, None))
    else
      var init, last := accessors[..|accessors| - 1], accessors[|accessors| - 1];
      var before := StepTypes(t, init, tables).value;
      match Locate(t, init, root, tables, layout, memory)
      case None => None
      case Some(p) =>
        match last
        case Field(name) => Some(p.(address := Wrap(layout.w, p.address + layout.offsetOf(before.base, name))))
        case Index(n) =>
          if !Usable(p, layout.pointerSize, layout.w) then None
          else
            var pointer := Wrap(layout.w, memory(p.address));
            var element := before.(pointers := if before.pointers > 0 then before.pointers - 1 else 0);
            Some(Place(Wrap(layout.w, pointer + n * layout.sizeOf(element)), Some(pointer)))
  }

  predicate NullBase(p: Place) {
    p.base == Some(0)
  }

  /** The result of the emitted code, from the place that the chain denotes. */
  function Expected(place: Option<Place>, followed: bool): Outcome {
    if place.None? || (followed && NullBase(place.value)) then Trap else At(place.value.address)
  }

  lemma LocatedBelow(t: TypeNode, accessors: seq<Accessor>, root: Word, tables: FieldTables, layout: Layout,
                     memory: Word -> Word)
    requires StepTypes(t, accessors, tables).Some? && root < Pow2(layout.w)
    ensures var p := Locate(t, accessors, root, tables, layout, memory);
      p.Some? ==> p.value.address < Pow2(layout.w) && (p.value.base.Some? <==> HasIndex(accessors))
  {
    if accessors != [] {
      var n := |accessors| - 1;
      LocatedBelow(t, accessors[..n], root, tables, layout, memory);
      HasIndexStep(accessors, n);
      assert accessors[..n + 1] == accessors;
    }
  }

  /** Running the code of one index on a place whose base has been checked. */
  lemma IndexRuns(before: TypeNode, n: nat, p: Place, needed: bool, layout: Layout, memory: Word -> Word)
    requires p.address < Pow2(layout.w) && !NullBase(p)
    ensures var pointer := Wrap(layout.w, memory(p.address));
      var element := before.(pointers := if before.pointers > 0 then before.pointers - 1 else 0);
      Run(StepCode(before, Index(n), p.base.Some?, needed, layout), p.address, layout, memory)
      == if !Usable(p, layout.pointerSize, layout.w) || (needed && pointer == 0) then Trap
         else At(Wrap(layout.w, pointer + n * layout.sizeOf(element)))
  {
    hide AccessWraps;
    AccessWrapsIff(layout.w, p.address, layout.pointerSize);
    var check, again := NullCheck(p.base.Some?), NullCheck(needed);
    var load := [TrapIfRangeWraps(layout.pointerSize), LoadPointer];
    var element := before.(pointers := if before.pointers > 0 then before.pointers - 1 else 0);
    var advance := [Advance(n * layout.sizeOf(element))];
    var pointer := Wrap(layout.w, memory(p.address));
    RunNullCheck(p.base.Some?, p.address, layout, memory);
    RunLoad(p.address, layout, memory);
    RunNullCheck(needed, pointer, layout, memory);
    RunOne(advance[0], pointer, layout, memory);
    hide Run, Wrap;
    RunInParts(check, load, p.address, layout, memory);
    RunInParts(check + load, again, p.address, layout, memory);
    RunInParts(check + load + again, advance, p.address, layout, memory);
  }

  lemma RunOne(op: Op, address: Word, layout: Layout, memory: Word -> Word)
    ensures Run([op], address, layout, memory) == Execute(op, address, layout, memory)
  {
    assert [op][..0] == [];
    hide Execute;
    assert Run([], address, layout, memory) == At(address);
  }

  lemma RunNullCheck(needed: bool, address: Word, layout: Layout, memory: Word -> Word)
    ensures Run(NullCheck(needed), address, layout, memory) == if needed && address == 0 then Trap else At(address)
  {
    RunOne(TrapIfNull, address, layout, memory);
  }

  lemma RunLoad(address: Word, layout: Layout, memory: Word -> Word)
    ensures Run([TrapIfRangeWraps(layout.pointerSize), LoadPointer], address, layout, memory)
         == if AccessWraps(layout.w, address, layout.pointerSize) then Trap else At(Wrap(layout.w, memory(address)))
  {
    hide AccessWraps;
    RunOne(TrapIfRangeWraps(layout.pointerSize), address, layout, memory);
    RunOne(LoadPointer, address, layout, memory);
    RunInParts([TrapIfRangeWraps(layout.pointerSize)], [LoadPointer], address, layout, memory);
    assert [TrapIfRangeWraps(layout.pointerSize)] + [LoadPointer]
        == [TrapIfRangeWraps(layout.pointerSize), LoadPointer];
  }

  /** The emitted code computes the address of the place, and traps exactly when the chain cannot be
      followed or, if the address is to be used, when the last pointer is null. */
  lemma {:induction false} ChainRuns(t: TypeNode, accessors: seq<Accessor>, followed: bool, root: Word,
                                     tables: FieldTables,
                                     layout: Layout, memory: Word -> Word)
    requires StepTypes(t, accessors, tables).Some? && root < Pow2(layout.w)
    ensures Run(ChainCode(t, accessors, followed, tables, layout), root, layout, memory)
         == Expected(Locate(t, accessors, root, tables, layout, memory), followed)
    decreases accessors
  {
    hide Run, StepTypes, HasIndex, Usable, Wrap, Execute;
    if accessors == [] {
      RunNothing(root, layout, memory);
    } else {
      var init, last := accessors[..|accessors| - 1], accessors[|accessors| - 1];
      InitTyped(t, accessors, tables);
      var before := StepTypes(t, init, tables).value;
      ChainRuns(t, init, followed || last.Index?, root, tables, layout, memory);
      LocatedBelow(t, init, root, tables, layout, memory);
      var step := StepCode(before, last, HasIndex(init), followed, layout);
      RunInParts(ChainCode(t, init, followed || last.Index?, tables, layout), step, root, layout, memory);
      var p := Locate(t, init, root, tables, layout, memory);
      if p.Some? {
        if last.Index? {
          if NullBase(p.value) {
            NullNeverUsable(p.value, layout);
          } else {
            IndexRuns(before, last.index, p.value, followed, layout, memory);
          }
        } else {
          RunOne(step[0], p.value.address, layout, memory);
          AdvanceRuns(layout.offsetOf(before.base, last.name), p.value.address, layout, memory);
        }
      }
    }
  }

  lemma AdvanceRuns(distance: nat, address: Word, layout: Layout, memory: Word -> Word)
    ensures Execute(Advance(distance), address, layout, memory) == At(Wrap(layout.w, address + distance))
  {
  }

  lemma NullNeverUsable(p: Place, layout: Layout)
    requires NullBase(p)
    ensures !Usable(p, layout.pointerSize, layout.w)
  {
  }

  lemma RunNothing(root: Word, layout: Layout, memory: Word -> Word)
    ensures Run([], root, layout, memory) == At(root)
  {
  }

  lemma InitTyped(t: TypeNode, accessors: seq<Accessor>, tables: FieldTables)
    requires accessors != [] && StepTypes(t, accessors, tables).Some?
    ensures StepTypes(t, accessors[..|accessors| - 1], tables).Some?
  {
  }

  // ---- Reading through a chain, and taking a reference ----

  /** The checks before a register operand is loaded: only a chain with an index needs them. */
  function FinalChecks(accessors: seq<Accessor>, size: nat): seq<Op> {
    if HasIndex(accessors) then [TrapIfNull, TrapIfRangeWraps(size)] else []
  }

  /** Loading a register operand reaches its place and traps exactly when that place cannot be used. A
      register without an index is its own slot and is never checked. */
  lemma ReadRefines(t: TypeNode, accessors: seq<Accessor>, root: Word, tables: FieldTables, layout: Layout,
                    memory: Word -> Word, size: nat)
    requires StepTypes(t, accessors, tables).Some? && root < Pow2(layout.w)
    ensures var place := Locate(t, accessors, root, tables, layout, memory);
      var code := ChainCode(t, accessors, true, tables, layout) + FinalChecks(accessors, size);
      Run(code, root, layout, memory)
      == if place.None? || (HasIndex(accessors) && !Usable(place.value, size, layout.w)) then Trap
         else At(place.value.address)
  {
    hide Run, StepTypes, HasIndex, ChainCode, Locate, AccessWraps;
    var chain := ChainCode(t, accessors, true, tables, layout);
    ChainRuns(t, accessors, true, root, tables, layout, memory);
    LocatedBelow(t, accessors, root, tables, layout, memory);
    RunInParts(chain, FinalChecks(accessors, size), root, layout, memory);
    var place := Locate(t, accessors, root, tables, layout, memory);
    if place.Some? {
      var a := place.value.address;
      AccessWrapsIff(layout.w, a, size);
      RunOne(TrapIfNull, a, layout, memory);
      RunOne(TrapIfRangeWraps(size), a, layout, memory);
      RunInParts([TrapIfNull], [TrapIfRangeWraps(size)], a, layout, memory);
      assert [TrapIfNull] + [TrapIfRangeWraps(size)] == [TrapIfNull, TrapIfRangeWraps(size)];
      RunNothing(a, layout, memory);
    }
  }

  /** A reference only forms the address: a null last pointer is no reason to trap. */
  lemma ReferenceRefines(t: TypeNode, accessors: seq<Accessor>, root: Word, tables: FieldTables, layout: Layout,
                         memory: Word -> Word)
    requires StepTypes(t, accessors, tables).Some? && root < Pow2(layout.w)
    ensures Run(ChainCode(t, accessors, false, tables, layout), root, layout, memory)
         == match Locate(t, accessors, root, tables, layout, memory)
            case None => Trap
            case Some(place) => At(place.address)
  {
    hide Run, StepTypes, ChainCode, Locate;
    ChainRuns(t, accessors, false, root, tables, layout, memory);
  }

  // ---- Checks come before loads, in the emitted code ----

  lemma {:induction false} ReachesPrefix(code: seq<Op>, k: nat, start: Word, layout: Layout, memory: Word -> Word)
    requires k <= |code| && Run(code, start, layout, memory).At?
    ensures Run(code[..k], start, layout, memory).At?
    decreases |code| - k
  {
    hide Execute;
    if k < |code| {
      ReachesPrefix(code, k + 1, start, layout, memory);
      assert code[..k + 1][..k] == code[..k];
    } else {
      assert code[..k] == code;
    }
  }

  /** The address before the k-th operation of code that follows other code. */
  lemma PrefixOfParts(code: seq<Op>, more: seq<Op>, k: nat, start: Word, layout: Layout, memory: Word -> Word)
    requires k <= |more|
    ensures (code + more)[..|code| + k] == code + more[..k]
    ensures Run((code + more)[..|code| + k], start, layout, memory) ==
      match Run(code, start, layout, memory)
      case Trap => Trap
      case At(address) => Run(more[..k], address, layout, memory)
  {
    assert (code + more)[..|code| + k] == code + more[..k];
    RunInParts(code, more[..k], start, layout, memory);
  }

  /** Where the load stands in the code of an index. */
  function LoadPlace(indexed: bool): nat {
    if indexed then 2 else 1
  }

  lemma OnlyLoad(before: TypeNode, a: Accessor, indexed: bool, needed: bool, layout: Layout, k: nat)
    ensures var step := StepCode(before, a, indexed, needed, layout);
      k < |step| && step[k].LoadPointer? <==> a.Index? && k == LoadPlace(indexed)
    ensures a.Index? && needed ==>
      var step := StepCode(before, a, indexed, needed, layout);
      LoadPlace(indexed) + 1 < |step| && step[LoadPlace(indexed) + 1] == TrapIfNull
  {
  }

  /** The checks that come before the load of an index, and what they let through. */
  lemma ChecksBeforeLoad(before: TypeNode, n: nat, indexed: bool, needed: bool, b: Word, layout: Layout,
                         memory: Word -> Word)
    requires b < Pow2(layout.w)
    ensures var step := StepCode(before, Index(n), indexed, needed, layout);
      Run(step[..LoadPlace(indexed)], b, layout, memory)
      == if (indexed && b == 0) || b + layout.pointerSize >= Pow2(layout.w) then Trap else At(b)
  {
    var step := StepCode(before, Index(n), indexed, needed, layout);
    AccessWrapsIff(layout.w, b, layout.pointerSize);
    var check, range := NullCheck(indexed), [TrapIfRangeWraps(layout.pointerSize)];
    assert step[..LoadPlace(indexed)] == check + range;
    hide AccessWraps, StepCode;
    RunNullCheck(indexed, b, layout, memory);
    RunOne(range[0], b, layout, memory);
    hide Run, NullCheck;
    RunInParts(check, range, b, layout, memory);
  }

  ghost predicate LoadsAt(code: seq<Op>, j: nat, start: Word, layout: Layout, memory: Word -> Word, a: Word) {
    j < |code| && code[j].LoadPointer? && Run(code[..j], start, layout, memory) == At(a)
  }

  /** There is a load in the code of a chain exactly when the chain has an index. */
  lemma {:induction false} LoadMeansIndex(t: TypeNode, accessors: seq<Accessor>, followed: bool, tables: FieldTables,
                                          layout: Layout, k: nat)
    requires StepTypes(t, accessors, tables).Some?
    requires k < |ChainCode(t, accessors, followed, tables, layout)|
    requires ChainCode(t, accessors, followed, tables, layout)[k].LoadPointer?
    ensures HasIndex(accessors)
    decreases accessors
  {
    hide StepTypes, StepCode, HasIndex;
    var n := |accessors| - 1;
    InitTyped(t, accessors, tables);
    var code := ChainCode(t, accessors[..n], followed || accessors[n].Index?, tables, layout);
    HasIndexStep(accessors, n);
    assert accessors[..n + 1] == accessors;
    if k < |code| {
      LoadMeansIndex(t, accessors[..n], followed || accessors[n].Index?, tables, layout, k);
    } else {
      OnlyLoad(StepTypes(t, accessors[..n], tables).value, accessors[n], HasIndex(accessors[..n]), followed, layout,
               k - |code|);
    }
  }

  lemma NullTrapped(code: seq<Op>, k: nat, start: Word, layout: Layout, memory: Word -> Word)
    requires k < |code| && code[k] == TrapIfNull && Run(code, start, layout, memory).At?
    ensures Run(code[..k], start, layout, memory).At? && Run(code[..k], start, layout, memory).address != 0
  {
    hide Run;
    ReachesPrefix(code, k + 1, start, layout, memory);
    ReachesPrefix(code, k, start, layout, memory);
    assert code[..k + 1][..k] == code[..k];
    RunLast(code[..k + 1], start, layout, memory);
  }

  lemma RunLast(code: seq<Op>, start: Word, layout: Layout, memory: Word -> Word)
    requires code != []
    ensures Run(code, start, layout, memory) ==
      match Run(code[..|code| - 1], start, layout, memory)
      case Trap => Trap
      case At(address) => Execute(code[|code| - 1], address, layout, memory)
  {
  }

  /** Code whose address is to be followed, once it has run through, has loaded no null pointer. */
  lemma {:induction false} FollowedPointers(t: TypeNode, accessors: seq<Accessor>, root: Word, tables: FieldTables,
                                            layout: Layout, memory: Word -> Word, k: nat)
    requires StepTypes(t, accessors, tables).Some?
    requires var code := ChainCode(t, accessors, true, tables, layout);
      k < |code| && code[k].LoadPointer? && Run(code, root, layout, memory).At?
    ensures var code := ChainCode(t, accessors, true, tables, layout);
      var loaded := Run(code[..k + 1], root, layout, memory); loaded.At? && loaded.address != 0
    decreases accessors
  {
    hide StepTypes, StepCode, HasIndex, Run;
    var n := |accessors| - 1;
    InitTyped(t, accessors, tables);
    var code := ChainCode(t, accessors[..n], true, tables, layout);
    var all := ChainCode(t, accessors, true, tables, layout);
    if k < |code| {
      assert all[..|code|] == code && all[..k + 1] == code[..k + 1];
      ReachesPrefix(all, |code|, root, layout, memory);
      FollowedPointers(t, accessors[..n], root, tables, layout, memory, k);
    } else {
      OnlyLoad(StepTypes(t, accessors[..n], tables).value, accessors[n], HasIndex(accessors[..n]), true, layout,
               k - |code|);
      assert all[k + 1] == TrapIfNull;
      NullTrapped(all, k + 1, root, layout, memory);
    }
  }

  /** Every pointer load in the emitted code, also in a run that traps later, is from an address whose range
      does not wrap. If a pointer was loaded before, the address is not null, and none of those pointers was. */
  lemma {:induction false} LoadsAreChecked(t: TypeNode, accessors: seq<Accessor>, followed: bool, j: nat, a: Word,
                                           root: Word,
                                           tables: FieldTables, layout: Layout, memory: Word -> Word)
    requires StepTypes(t, accessors, tables).Some? && root < Pow2(layout.w)
    requires LoadsAt(ChainCode(t, accessors, followed, tables, layout), j, root, layout, memory, a)
    ensures a + layout.pointerSize < Pow2(layout.w)
    ensures var code := ChainCode(t, accessors, followed, tables, layout);
      forall k :: 0 <= k < j && code[k].LoadPointer? ==>
        var loaded := Run(code[..k + 1], root, layout, memory);
        a != 0 && loaded.At? && loaded.address != 0
    decreases accessors
  {
    hide StepTypes, StepCode, HasIndex, Run;
    var n := |accessors| - 1;
    InitTyped(t, accessors, tables);
    var last := accessors[n];
    var code := ChainCode(t, accessors[..n], followed || last.Index?, tables, layout);
    var all := ChainCode(t, accessors, followed, tables, layout);
    if j < |code| {
      assert all[..j] == code[..j];
      LoadsAreChecked(t, accessors[..n], followed || last.Index?, j, a, root, tables, layout, memory);
      forall k | 0 <= k < j && all[k].LoadPointer?
        ensures var loaded := Run(all[..k + 1], root, layout, memory);
          a != 0 && loaded.At? && loaded.address != 0
      {
        assert code[k].LoadPointer? && all[..k + 1] == code[..k + 1];
      }
    } else {
      LastLoadChecked(t, accessors, followed, j, a, root, tables, layout, memory);
    }
  }

  /** The load of the last accessor. */
  lemma LastLoadChecked(t: TypeNode, accessors: seq<Accessor>, followed: bool, j: nat, a: Word, root: Word,
                        tables: FieldTables, layout: Layout, memory: Word -> Word)
    requires StepTypes(t, accessors, tables).Some? && root < Pow2(layout.w) && accessors != []
    requires StepTypes(t, accessors[..|accessors| - 1], tables).Some?
    requires var init := accessors[..|accessors| - 1];
      j >= |ChainCode(t, init, followed || accessors[|accessors| - 1].Index?, tables, layout)|
    requires LoadsAt(ChainCode(t, accessors, followed, tables, layout), j, root, layout, memory, a)
    ensures a + layout.pointerSize < Pow2(layout.w)
    ensures var code := ChainCode(t, accessors, followed, tables, layout);
      forall k :: 0 <= k < j && code[k].LoadPointer? ==>
        var loaded := Run(code[..k + 1], root, layout, memory);
        a != 0 && loaded.At? && loaded.address != 0
  {
    hide StepTypes, StepCode, HasIndex, Run, Locate;
    var n := |accessors| - 1;
    var init, last := accessors[..n], accessors[n];
    var code := ChainCode(t, init, followed || last.Index?, tables, layout);
    var all := ChainCode(t, accessors, followed, tables, layout);
    var before, indexed := StepTypes(t, init, tables).value, HasIndex(init);
    var step := StepCode(before, last, indexed, followed, layout);
    OnlyLoad(before, last, indexed, followed, layout, j - |code|);
    ChainRuns(t, init, true, root, tables, layout, memory);
    LocatedBelow(t, init, root, tables, layout, memory);
    PrefixOfParts(code, step, j - |code|, root, layout, memory);
    var b := Run(code, root, layout, memory).address;
    ChecksBeforeLoad(before, last.index, indexed, followed, b, layout, memory);
    hide ChainCode;
    forall k | 0 <= k < j && all[k].LoadPointer?
      ensures var loaded := Run(all[..k + 1], root, layout, memory);
        a != 0 && loaded.At? && loaded.address != 0
    {
      if k >= |code| {
        OnlyLoad(before, last, indexed, followed, layout, k - |code|);
        assert false;
      }
      LoadMeansIndex(t, init, true, tables, layout, k);
      FollowedPointers(t, init, root, tables, layout, memory, k);
      assert all[..k + 1] == code[..k + 1];
    }
  }
}
