/** What one command may do to the alias facts of a function body. */
module AliasRules {
  import opened Wrappers
  import opened Ast
  import opened Typing

  /** The five containers of the analysis. `storage` holds the locals whose value may be an address into
      local storage; `slots` maps a name to the one local it is known to refer to. */
  datatype Facts = Facts(
    immutable: set<string>,
    storage: set<string>,
    contents: set<string>,
    references: set<string>,
    slots: map<string, string>)

  const NOTHING := Facts({}, {}, {}, {}, map[])

  predicate Loads(name: string) { name == "load" || name == "atomicload" }

  predicate IsRef(name: string) { name == "ref" }

  predicate IsSub(name: string) { name == "sub" }

  /** Instructions whose result may carry the address bits of an operand. */
  predicate CarriesBits(name: string) {
    name in ["ptrcast", "ptrtoint", "inttoptr", "trunc", "sext", "zext", "sitofp", "uitofp", "fptosi", "fptoui",
             "fpext", "fptrunc", "add", "sub", "mul", "div", "mod", "and", "or", "xor", "lsh", "rsh", "not",
             "bswap", "bitreverse"]
  }

  predicate NamesBacking(name: string) {
    name in ["ptrcast", "ptrtoint", "inttoptr", "add", "ref"]
  }

  /** Instructions that keep the relation between a pointer and the slot it refers to. */
  predicate KeepsSlot(name: string) {
    name in ["ptrcast", "ptrtoint", "inttoptr", "trunc", "sext", "zext", "add"]
  }

  predicate StoresThroughPointer(i: Instruction) {
    (!i.isSpecial && i.name == "store") || (i.isSpecial && i.name == "atomicstore")
  }

  predicate MayNameImmutable(value: Value, scope: Scope, env: Environment, f: Facts) {
    match value
    case Text(_) => true
    case Named(reg) =>
      reg.name in f.immutable
      || (reg.accessors == [] && reg.name !in scope && reg.name in env.immutableBacking)
    case _ => false
  }

  predicate CommandMayNameImmutable(c: Command, scope: Scope, env: Environment, f: Facts) {
    && c.values != []
    && (c.instruction.Some? ==> NamesBacking(c.instruction.value.name))
    && (if c.instruction.None? then MayNameImmutable(c.values[0], scope, env, f)
        else exists i :: 0 <= i < |c.values| && MayNameImmutable(c.values[i], scope, env, f))
  }

  predicate HoldsBits(t: TypeNode, env: Environment) {
    IsInteger(t) || IsFloating(t) || t.base in env.structs
  }

  /** Whether reading the value may yield an address into local storage; None where typing fails. */
  function MayContainLocal(value: Value, scope: Scope, env: Environment, f: Facts): Option<bool> {
    if !value.Named? || value.register.name !in scope || value.register.name !in f.storage then Some(false)
    else if value.register.accessors == [] then Some(true)
    else
      match RegisterType(value.register, scope, env)
      case None => None
      case Some(t) => Some(t.pointers > 0 || (value.register.name in f.contents && HoldsBits(t, env)))
  }

  /** The first value that may contain a local address decides; a typing failure before it is an error. */
  function AnyMayContain(values: seq<Value>, scope: Scope, env: Environment, f: Facts): Option<bool> {
    if values == [] then Some(false)
    else
      match MayContainLocal(values[0], scope, env, f)
      case None => None
      case Some(true) => Some(true)
      case Some(false) => AnyMayContain(values[1..], scope, env, f)
  }

  function InitializerMayContain(value: Value, scope: Scope, env: Environment, f: Facts): Option<bool>
    decreases value, 0
  {
    match value
    case Array(items) => ItemsMayContain(items, scope, env, f)
    case _ => MayContainLocal(value, scope, env, f)
  }

  function ItemsMayContain(items: seq<Value>, scope: Scope, env: Environment, f: Facts): Option<bool>
    decreases items, 1
  {
    if items == [] then Some(false)
    else
      match InitializerMayContain(items[0], scope, env, f)
      case None => None
      case Some(true) => Some(true)
      case Some(false) => ItemsMayContain(items[1..], scope, env, f)
  }

  function IndexCount(accessors: seq<Accessor>): nat {
    if accessors == [] then 0
    else (if accessors[0].Index? then 1 else 0) + IndexCount(accessors[1..])
  }

  predicate TargetIsLocalStorage(target: Register, scope: Scope, f: Facts) {
    && target.name in scope
    && (|| IndexCount(target.accessors) == 0
        || (&& target.accessors[0].Index?
            && IndexCount(target.accessors) == 1
            && scope[target.name].pointers > 0
            && target.name in f.storage))
  }

  predicate TracksAddressBits(t: TypeNode) {
    t.pointers > 0 || IsInteger(t) || IsFloating(t)
  }

  function LoadMayPoint(c: Command, scope: Scope, env: Environment, f: Facts): Option<bool>
    requires c.values != []
  {
    if c.declared.None? then Some(false)
    else
      var result := c.declared.value;
      var source := c.values[0];
      var taintedScalar :=
        && (IsInteger(result) || IsFloating(result))
        && source.Named? && source.register.accessors != []
        && source.register.name in f.contents;
      var direct := if result.pointers > 0 || taintedScalar then MayContainLocal(source, scope, env, f)
                    else Some(false);
      if direct != Some(false) then direct
      else
        Some(source.Named? && source.register.name in f.slots && f.slots[source.register.name] in f.storage
             && TracksAddressBits(result))
  }

  function DifferenceOfPointers(c: Command, scope: Scope, env: Environment): Option<bool> {
    if |c.values| != 2 then Some(false)
    else
      var left := ValueType(c.values[0], scope, env);
      var right := ValueType(c.values[1], scope, env);
      if left.None? || right.None? then None else Some(IsPointer(left.value) && IsPointer(right.value))
  }

  /** Whether the value a command computes may be an address into local storage. */
  function CommandMayPoint(c: Command, scope: Scope, env: Environment, f: Facts): Option<bool> {
    if c.values == [] then Some(false)
    else if c.instruction.None? then
      match MayContainLocal(c.values[0], scope, env, f)
      case None => None
      case Some(b) => Some(b || c.values[0].Array?)
    else
      var name := c.instruction.value.name;
      if IsRef(name) && c.values[0].Named? then
        var reg := c.values[0].register;
        Some(reg.name in scope && (!HasIndex(reg.accessors) || reg.name in f.storage))
      else if Loads(name) then LoadMayPoint(c, scope, env, f)
      else
        var difference := if IsSub(name) then DifferenceOfPointers(c, scope, env) else Some(false);
        if difference.None? then None
        else if difference.value || !CarriesBits(name) then Some(false)
        else AnyMayContain(c.values, scope, env, f)
  }

  function With(names: set<string>, condition: bool, name: string): set<string> {
    if condition && name !in names then names + {name} else names
  }

  /** A store through a pointer whose slot is known. */
  function AfterStore(c: Command, scope: Scope, env: Environment, f: Facts): Option<Facts> {
    if c.instruction.Some? && |c.values| == 2 && StoresThroughPointer(c.instruction.value) && IsPlain(c.values[0])
       && c.values[0].register.name in f.storage && c.values[0].register.name in f.slots
    then
      var pointer := c.values[0].register.name;
      var slot := f.slots[pointer];
      var immutable := With(f.immutable, MayNameImmutable(c.values[1], scope, env, f), slot);
      match MayContainLocal(c.values[1], scope, env, f)
      case None => None
      case Some(b) =>
        Some(f.(immutable := immutable,
                storage := With(f.storage, b, slot),
                contents := With(f.contents, b && pointer in f.references, slot)))
    else Some(f)
  }

  predicate HoldsAddress(name: string, f: Facts) {
    name in f.contents || (name in f.slots && f.slots[name] in f.contents)
  }

  function AfterCopy(c: Command, scope: Scope, env: Environment, f: Facts): Option<Facts> {
    if c.instruction.Some? && c.instruction.value.isSpecial && c.instruction.value.name == "memcpy"
       && |c.values| == 3 && c.values[0].Named? && c.values[1].Named? && HoldsAddress(c.values[1].register.name, f)
    then
      var destination := c.values[0].register.name;
      match MayContainLocal(c.values[0], scope, env, f)
      case None => None
      case Some(b) =>
        var slot := if destination in f.slots then f.slots[destination] else destination;
        Some(f.(contents := With(With(f.contents, b, destination), b, slot)))
    else Some(f)
  }

  /** A load through a pointer whose slot may hold an immutable address. */
  function AfterLoad(c: Command, f: Facts): Facts {
    if c.target.RegisterTarget? && c.target.register.accessors == []
       && c.instruction.Some? && |c.values| == 1 && Loads(c.instruction.value.name)
       && IsPlain(c.values[0]) && c.values[0].register.name in f.slots
    then
      var slot := f.slots[c.values[0].register.name];
      f.(immutable := With(f.immutable, slot in f.immutable, c.target.register.name))
    else f
  }

  /** An assignment through an accessor chain. */
  function AfterFieldWrite(c: Command, scope: Scope, env: Environment, f: Facts): Option<Facts>
    requires c.target.RegisterTarget?
  {
    var name := c.target.register.name;
    if name !in scope then Some(f)
    else
      match RegisterType(c.target.register, scope, env)
      case None => None
      case Some(t) =>
        var g := f.(immutable :=
                      With(f.immutable, t.pointers > 0 && CommandMayNameImmutable(c, scope, env, f), name));
        if !TargetIsLocalStorage(c.target.register, scope, f) then Some(g)
        else
          match CommandMayPoint(c, scope, env, f)
          case None => None
          case Some(b) => Some(g.(storage := With(g.storage, b, name), contents := With(g.contents, b, name)))
  }

  /** The slot all plain operands with a known slot agree on. */
  function CommonSlot(values: seq<Value>, slots: map<string, string>, found: Option<string>): Option<string> {
    if values == [] then found
    else if !IsPlain(values[0]) || values[0].register.name !in slots then CommonSlot(values[1..], slots, found)
    else
      var slot := slots[values[0].register.name];
      if found.None? then CommonSlot(values[1..], slots, Some(slot))
      else if found.value == slot then CommonSlot(values[1..], slots, found)
      else None
  }

  predicate RefersToLocal(c: Command, scope: Scope) {
    c.instruction.Some? && IsRef(c.instruction.value.name)
    && c.values != [] && c.values[0].Named? && c.values[0].register.name in scope
  }

  predicate PreservesSlot(c: Command) {
    c.instruction.Some? ==> KeepsSlot(c.instruction.value.name)
  }

  function ReferencedSlot(c: Command, scope: Scope, f: Facts): Option<string> {
    if RefersToLocal(c, scope) then Some(c.values[0].register.name)
    else if c.values != [] && PreservesSlot(c) then CommonSlot(c.values, f.slots, None)
    else None
  }

  predicate RefersToAggregate(c: Command, scope: Scope, env: Environment, f: Facts) {
    && RefersToLocal(c, scope)
    && var reg := c.values[0].register;
       var root := scope[reg.name];
       || (root.pointers == 0 && root.base in env.structs)
       || (root.pointers > 0 && HasIndex(reg.accessors) && reg.name in f.storage)
  }

  predicate SomeNamedIn(values: seq<Value>, names: set<string>) {
    exists i :: 0 <= i < |values| && values[i].Named? && values[i].register.name in names
  }

  /** The contents rules of a plain assignment: array literals holding addresses, whole copies. */
  function AfterContents(c: Command, scope: Scope, env: Environment, f: Facts): Option<Facts>
    requires c.target.RegisterTarget?
  {
    var name := c.target.register.name;
    var initial := if c.values != [] && c.values[0].Array? then InitializerMayContain(c.values[0], scope, env, f)
                 else Some(false);
    if initial.None? then None
    else
      var g := f.(contents := With(f.contents, initial.value, name));
      Some(g.(contents := With(g.contents, SomeNamedIn(c.values, g.contents), name)))
  }

  /** The reference rules of a plain assignment. The first slot seen for a name stays. */
  function AfterReferences(c: Command, scope: Scope, env: Environment, f: Facts): Facts
    requires c.target.RegisterTarget?
  {
    var name := c.target.register.name;
    var slot := ReferencedSlot(c, scope, f);
    var g := f.(references := With(f.references, RefersToAggregate(c, scope, env, f), name),
                slots := if slot.Some? && name !in f.slots then f.slots[name := slot.value] else f.slots);
    g.(references := With(g.references, PreservesSlot(c) && SomeNamedIn(c.values, g.references), name))
  }

  /** The immutability and storage rules of a plain assignment. */
  function AfterStorage(c: Command, scope: Scope, env: Environment, f: Facts): Option<Facts>
    requires c.target.RegisterTarget? && (c.declared.Some? || c.target.register.name in scope)
  {
    var name := c.target.register.name;
    var t := if c.declared.Some? then c.declared.value else scope[name];
    var g := f.(immutable := With(f.immutable, CommandMayNameImmutable(c, scope, env, f), name));
    if name in g.storage
       || !(TracksAddressBits(t) || (c.instruction.Some? && c.instruction.value.name == "ptrtoint"))
    then Some(g)
    else
      match CommandMayPoint(c, scope, env, g)
      case None => None
      case Some(b) => Some(g.(storage := With(g.storage, b, name)))
  }

  function AfterAssignment(c: Command, scope: Scope, env: Environment, f: Facts): Option<Facts>
    requires c.target.RegisterTarget?
  {
    if c.declared.None? && c.target.register.name !in scope then Some(f)
    else
      match AfterContents(c, scope, env, f)
      case None => None
      case Some(g) => AfterStorage(c, scope, env, AfterReferences(c, scope, env, g))
  }

  function AfterTarget(c: Command, scope: Scope, env: Environment, f: Facts): Option<Facts> {
    if !c.target.RegisterTarget? then Some(f)
    else if c.target.register.accessors != [] then AfterFieldWrite(c, scope, env, f)
    else AfterAssignment(c, scope, env, f)
  }

  /** Everything one visit of a command adds. */
  function AfterCommand(c: Command, scope: Scope, env: Environment, f: Facts): Option<Facts> {
    match AfterStore(c, scope, env, f)
    case None => None
    case Some(g) =>
      match AfterCopy(c, scope, env, g)
      case None => None
      case Some(h) => AfterTarget(c, scope, env, AfterLoad(c, h))
  }
}
