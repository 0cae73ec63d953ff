/** The function-wide closure over alias facts that validation computes before it checks a block. */
module AliasAnalysis {
  import opened Wrappers
  import opened Ast
  import opened Typing
  import opened AliasRules

  // ---- Facts only grow, and only over names of the block ----

  ghost predicate Grown(f: Facts, g: Facts) {
    && f.immutable <= g.immutable && f.storage <= g.storage
    && f.contents <= g.contents && f.references <= g.references
    && (forall k :: k in f.slots ==> k in g.slots && g.slots[k] == f.slots[k])
  }

  function CommandNames(c: Command): set<string> {
    (if c.target.RegisterTarget? then {c.target.register.name} else {})
    + (set i | 0 <= i < |c.values| && c.values[i].Named? :: c.values[i].register.name)
  }

  function BlockNames(block: seq<Command>): set<string> {
    if block == [] then {} else BlockNames(block[..|block| - 1]) + CommandNames(block[|block| - 1])
  }

  ghost predicate Within(f: Facts, names: set<string>) {
    && f.immutable <= names && f.storage <= names && f.contents <= names && f.references <= names
    && (forall k :: k in f.slots ==> k in names && f.slots[k] in names)
  }

  lemma GrownBothWays(f: Facts, g: Facts)
    requires Grown(f, g) && Grown(g, f)
    ensures f == g
  {
    assert f.slots == g.slots;
  }

  lemma SomeSlot(values: seq<Value>, slots: map<string, string>, found: Option<string>)
    ensures var slot := CommonSlot(values, slots, found);
      slot.Some? ==> slot == found || exists k :: k in slots && slots[k] == slot.value
  {
  }

  ghost predicate Extends(f: Facts, r: Option<Facts>, names: set<string>) {
    r.Some? ==> Grown(f, r.value) && (Within(f, names) ==> Within(r.value, names))
  }

  lemma StoreExtends(c: Command, scope: Scope, env: Environment, f: Facts, names: set<string>)
    ensures Extends(f, AfterStore(c, scope, env, f), names)
  {
    hide MayContainLocal, MayNameImmutable, StoresThroughPointer;
  }

  lemma CopyExtends(c: Command, scope: Scope, env: Environment, f: Facts, names: set<string>)
    requires CommandNames(c) <= names
    ensures Extends(f, AfterCopy(c, scope, env, f), names)
  {
    hide MayContainLocal, HoldsAddress;
    if |c.values| == 3 && c.values[0].Named? {
      assert c.values[0].register.name in CommandNames(c);
    }
  }

  lemma LoadExtends(c: Command, f: Facts, names: set<string>)
    requires CommandNames(c) <= names
    ensures Extends(f, Some(AfterLoad(c, f)), names)
  {
    hide Loads;
  }

  lemma FieldWriteExtends(c: Command, scope: Scope, env: Environment, f: Facts, names: set<string>)
    requires c.target.RegisterTarget? && CommandNames(c) <= names
    ensures Extends(f, AfterFieldWrite(c, scope, env, f), names)
  {
    hide CommandMayPoint, CommandMayNameImmutable, RegisterType, TargetIsLocalStorage;
  }

  lemma ContentsExtends(c: Command, scope: Scope, env: Environment, f: Facts, names: set<string>)
    requires c.target.RegisterTarget? && CommandNames(c) <= names
    ensures Extends(f, AfterContents(c, scope, env, f), names)
  {
    hide InitializerMayContain, SomeNamedIn;
  }

  lemma ReferencesExtend(c: Command, scope: Scope, env: Environment, f: Facts, names: set<string>)
    requires c.target.RegisterTarget? && CommandNames(c) <= names
    ensures Extends(f, Some(AfterReferences(c, scope, env, f)), names)
  {
    hide RefersToAggregate, PreservesSlot, SomeNamedIn, CommonSlot;
    SomeSlot(c.values, f.slots, None);
    if c.values != [] && c.values[0].Named? {
      assert c.values[0].register.name in CommandNames(c);
    }
  }

  lemma StorageExtends(c: Command, scope: Scope, env: Environment, f: Facts, names: set<string>)
    requires c.target.RegisterTarget? && (c.declared.Some? || c.target.register.name in scope)
    requires CommandNames(c) <= names
    ensures Extends(f, AfterStorage(c, scope, env, f), names)
  {
    hide CommandMayPoint, CommandMayNameImmutable, TracksAddressBits;
  }

  lemma CommandExtends(c: Command, scope: Scope, env: Environment, f: Facts, names: set<string>)
    requires CommandNames(c) <= names
    ensures Extends(f, AfterCommand(c, scope, env, f), names)
  {
    hide AfterStore, AfterCopy, AfterLoad, AfterFieldWrite, AfterContents, AfterReferences, AfterStorage, CommandNames;
    StoreExtends(c, scope, env, f, names);
    var stored := AfterStore(c, scope, env, f);
    if stored.Some? {
      CopyExtends(c, scope, env, stored.value, names);
      var copied := AfterCopy(c, scope, env, stored.value);
      if copied.Some? {
        LoadExtends(c, copied.value, names);
        TargetExtends(c, scope, env, AfterLoad(c, copied.value), names);
      }
    }
  }

  lemma TargetExtends(c: Command, scope: Scope, env: Environment, f: Facts, names: set<string>)
    requires CommandNames(c) <= names
    ensures Extends(f, AfterTarget(c, scope, env, f), names)
  {
    hide AfterFieldWrite, AfterContents, AfterReferences, AfterStorage, CommandNames;
    if c.target.RegisterTarget? {
      FieldWriteExtends(c, scope, env, f, names);
      ContentsExtends(c, scope, env, f, names);
      var contents := AfterContents(c, scope, env, f);
      if contents.Some? {
        ReferencesExtend(c, scope, env, contents.value, names);
        if c.declared.Some? || c.target.register.name in scope {
          StorageExtends(c, scope, env, AfterReferences(c, scope, env, contents.value), names);
        }
      }
    }
  }

  // ---- Closure under every rule ----

  ghost predicate StoreClosed(c: Command, scope: Scope, env: Environment, f: Facts) {
    c.instruction.Some? && |c.values| == 2 && StoresThroughPointer(c.instruction.value) && IsPlain(c.values[0])
    && c.values[0].register.name in f.storage && c.values[0].register.name in f.slots ==>
      var slot := f.slots[c.values[0].register.name];
      && (MayNameImmutable(c.values[1], scope, env, f) ==> slot in f.immutable)
      && MayContainLocal(c.values[1], scope, env, f).Some?
      && (MayContainLocal(c.values[1], scope, env, f).value ==>
            slot in f.storage && (c.values[0].register.name in f.references ==> slot in f.contents))
  }

  ghost predicate CopyClosed(c: Command, scope: Scope, env: Environment, f: Facts) {
    c.instruction == Some(Instruction("memcpy", true))
    && |c.values| == 3 && c.values[0].Named? && c.values[1].Named? && HoldsAddress(c.values[1].register.name, f) ==>
      var destination := c.values[0].register.name;
      && MayContainLocal(c.values[0], scope, env, f).Some?
      && (MayContainLocal(c.values[0], scope, env, f).value ==>
            destination in f.contents && (destination in f.slots ==> f.slots[destination] in f.contents))
  }

  ghost predicate LoadClosed(c: Command, f: Facts) {
    c.target.RegisterTarget? && c.target.register.accessors == []
    && c.instruction.Some? && |c.values| == 1 && Loads(c.instruction.value.name)
    && IsPlain(c.values[0]) && c.values[0].register.name in f.slots
    && f.slots[c.values[0].register.name] in f.immutable ==>
      c.target.register.name in f.immutable
  }

  ghost predicate FieldClosed(c: Command, scope: Scope, env: Environment, f: Facts) {
    c.target.RegisterTarget? && c.target.register.accessors != [] && c.target.register.name in scope ==>
      var name := c.target.register.name;
      var t := RegisterType(c.target.register, scope, env);
      && t.Some?
      && (t.value.pointers > 0 && CommandMayNameImmutable(c, scope, env, f) ==> name in f.immutable)
      && (TargetIsLocalStorage(c.target.register, scope, f) ==>
            && CommandMayPoint(c, scope, env, f).Some?
            && (CommandMayPoint(c, scope, env, f).value ==> name in f.storage && name in f.contents))
  }

  /** A plain assignment or declaration of a local, by container. */
  ghost predicate AssignmentClosed(c: Command, scope: Scope, env: Environment, f: Facts) {
    AssignsLocal(c, scope) ==>
      var name := c.target.register.name;
      var t := if c.declared.Some? then c.declared.value else scope[name];
      && (c.values != [] && c.values[0].Array? ==>
            && InitializerMayContain(c.values[0], scope, env, f).Some?
            && (InitializerMayContain(c.values[0], scope, env, f).value ==> name in f.contents))
      && (SomeNamedIn(c.values, f.contents) ==> name in f.contents)
      && (RefersToAggregate(c, scope, env, f) ==> name in f.references)
      && (PreservesSlot(c) && SomeNamedIn(c.values, f.references) ==> name in f.references)
      && (ReferencedSlot(c, scope, f).Some? ==> name in f.slots)
      && (CommandMayNameImmutable(c, scope, env, f) ==> name in f.immutable)
      && (TracksAddressBits(t) || (c.instruction.Some? && c.instruction.value.name == "ptrtoint") ==>
            name in f.storage || CommandMayPoint(c, scope, env, f) == Some(false))
  }

  predicate AssignsLocal(c: Command, scope: Scope) {
    c.target.RegisterTarget? && c.target.register.accessors == []
    && (c.declared.Some? || c.target.register.name in scope)
  }

  ghost predicate Closed(c: Command, scope: Scope, env: Environment, f: Facts) {
    && StoreClosed(c, scope, env, f) && CopyClosed(c, scope, env, f) && LoadClosed(c, f)
    && FieldClosed(c, scope, env, f) && AssignmentClosed(c, scope, env, f)
  }

  /** A command that adds nothing adds nothing at any of its stages. */
  lemma FixedStages(c: Command, scope: Scope, env: Environment, f: Facts)
    requires AfterCommand(c, scope, env, f) == Some(f)
    ensures AfterStore(c, scope, env, f) == Some(f)
    ensures AfterCopy(c, scope, env, f) == Some(f)
    ensures AfterLoad(c, f) == f
    ensures AfterTarget(c, scope, env, f) == Some(f)
  {
    hide AfterStore, AfterCopy, AfterLoad, AfterTarget, CommandNames;
    var names := CommandNames(c);
    StoreExtends(c, scope, env, f, names);
    var g := AfterStore(c, scope, env, f).value;
    CopyExtends(c, scope, env, g, names);
    var h := AfterCopy(c, scope, env, g).value;
    LoadExtends(c, h, names);
    TargetExtends(c, scope, env, AfterLoad(c, h), names);
    GrownBothWays(f, g);
    GrownBothWays(f, h);
    GrownBothWays(f, AfterLoad(c, h));
  }

  lemma FixedAssignment(c: Command, scope: Scope, env: Environment, f: Facts)
    requires AssignsLocal(c, scope) && AfterTarget(c, scope, env, f) == Some(f)
    ensures AfterContents(c, scope, env, f) == Some(f)
    ensures AfterReferences(c, scope, env, f) == f
    ensures AfterStorage(c, scope, env, f) == Some(f)
  {
    hide AfterContents, AfterReferences, AfterStorage, CommandNames;
    var names := CommandNames(c);
    ContentsExtends(c, scope, env, f, names);
    var g := AfterContents(c, scope, env, f).value;
    ReferencesExtend(c, scope, env, g, names);
    var h := AfterReferences(c, scope, env, g);
    StorageExtends(c, scope, env, h, names);
    GrownBothWays(f, g);
    GrownBothWays(f, h);
  }

  lemma FixedIsClosed(c: Command, scope: Scope, env: Environment, f: Facts)
    requires AfterCommand(c, scope, env, f) == Some(f)
    ensures Closed(c, scope, env, f)
  {
    hide AfterCommand, MayContainLocal, MayNameImmutable, CommandMayPoint, CommandMayNameImmutable,
         InitializerMayContain, TracksAddressBits, RegisterType, HoldsAddress;
    FixedStages(c, scope, env, f);
    assert StoreClosed(c, scope, env, f) && CopyClosed(c, scope, env, f);
    assert LoadClosed(c, f);
    assert FieldClosed(c, scope, env, f);
    if AssignsLocal(c, scope) {
      FixedAssignment(c, scope, env, f);
    }
  }

  // ---- One visit of a command, with the flag that says whether it added anything ----

  method Insert(names: set<string>, name: string) returns (after: set<string>, inserted: bool)
    ensures after == With(names, true, name)
    ensures inserted <==> name !in names
  {
    inserted := name !in names;
    after := if inserted then names + {name} else names;
  }

  method VisitStore(c: Command, scope: Scope, env: Environment, f: Facts) returns (r: Option<Facts>, added: bool)
    ensures r == AfterStore(c, scope, env, f)
    ensures r.Some? ==> (added <==> r.value != f)
  {
    hide MayContainLocal, MayNameImmutable, StoresThroughPointer;
    var immutable, storage, contents := f.immutable, f.storage, f.contents;
    added := false;
    var inserted := false;
    if c.instruction.Some? && |c.values| == 2 && StoresThroughPointer(c.instruction.value) && IsPlain(c.values[0])
       && c.values[0].register.name in f.storage && c.values[0].register.name in f.slots
    {
      var pointer := c.values[0].register.name;
      var slot := f.slots[pointer];
      if MayNameImmutable(c.values[1], scope, env, f) {
        immutable, added := Insert(immutable, slot);
      }
      var may := MayContainLocal(c.values[1], scope, env, f);
      if may.None? {
        return None, added;
      }
      if may.value {
        storage, inserted := Insert(storage, slot);
        added := added || inserted;
        if pointer in f.references {
          contents, inserted := Insert(contents, slot);
          added := added || inserted;
        }
      }
    }
    r := Some(f.(immutable := immutable, storage := storage, contents := contents));
  }

  method VisitCopy(c: Command, scope: Scope, env: Environment, f: Facts) returns (r: Option<Facts>, added: bool)
    ensures r == AfterCopy(c, scope, env, f)
    ensures r.Some? ==> (added <==> r.value != f)
  {
    hide MayContainLocal, HoldsAddress;
    added := false;
    var contents := f.contents;
    if c.instruction.Some? && c.instruction.value.isSpecial && c.instruction.value.name == "memcpy"
       && |c.values| == 3 && c.values[0].Named? && c.values[1].Named? && HoldsAddress(c.values[1].register.name, f)
    {
      var destination := c.values[0].register.name;
      var may := MayContainLocal(c.values[0], scope, env, f);
      if may.None? {
        return None, added;
      }
      if may.value {
        contents, added := Insert(contents, destination);
        if destination in f.slots {
          var inserted;
          contents, inserted := Insert(contents, f.slots[destination]);
          added := added || inserted;
        }
      }
    }
    r := Some(f.(contents := contents));
  }

  method VisitLoad(c: Command, f: Facts) returns (r: Facts, added: bool)
    ensures r == AfterLoad(c, f)
    ensures added <==> r != f
  {
    hide Loads;
    added := false;
    r := f;
    if c.target.RegisterTarget? && c.target.register.accessors == []
       && c.instruction.Some? && |c.values| == 1 && Loads(c.instruction.value.name)
       && IsPlain(c.values[0]) && c.values[0].register.name in f.slots
       && f.slots[c.values[0].register.name] in f.immutable
    {
      var immutable;
      immutable, added := Insert(f.immutable, c.target.register.name);
      r := f.(immutable := immutable);
    }
  }

  method VisitFieldWrite(c: Command, scope: Scope, env: Environment, f: Facts) returns (r: Option<Facts>, added: bool)
    requires c.target.RegisterTarget?
    ensures r == AfterFieldWrite(c, scope, env, f)
    ensures r.Some? ==> (added <==> r.value != f)
  {
    hide CommandMayPoint, CommandMayNameImmutable, RegisterType, TargetIsLocalStorage;
    added := false;
    var immutable, storage, contents := f.immutable, f.storage, f.contents;
    var inserted := false;
    var name := c.target.register.name;
    if name in scope {
      var t := RegisterType(c.target.register, scope, env);
      if t.None? {
        return None, added;
      }
      if t.value.pointers > 0 && CommandMayNameImmutable(c, scope, env, f) {
        immutable, added := Insert(immutable, name);
      }
    }
    if name in scope && TargetIsLocalStorage(c.target.register, scope, f) {
      var may := CommandMayPoint(c, scope, env, f);
      if may.None? {
        return None, added;
      }
      if may.value {
        storage, inserted := Insert(storage, name);
        added := added || inserted;
        contents, inserted := Insert(contents, name);
        added := added || inserted;
      }
    }
    r := Some(f.(immutable := immutable, storage := storage, contents := contents));
  }

  /** The loop over the operands that looks for the one slot they agree on. */
  method FindSlot(values: seq<Value>, slots: map<string, string>) returns (found: Option<string>)
    ensures found == CommonSlot(values, slots, None)
  {
    found := None;
    var i := 0;
    while i < |values|
      invariant 0 <= i <= |values|
      invariant CommonSlot(values[i..], slots, found) == CommonSlot(values, slots, None)
    {
      if IsPlain(values[i]) && values[i].register.name in slots {
        var slot := slots[values[i].register.name];
        if found.None? {
          found := Some(slot);
        } else if found.value != slot {
          return None;
        }
      }
      i := i + 1;
    }
  }

  method VisitContents(c: Command, scope: Scope, env: Environment, f: Facts) returns (r: Option<Facts>, added: bool)
    requires c.target.RegisterTarget?
    ensures r == AfterContents(c, scope, env, f)
    ensures r.Some? ==> (added <==> r.value != f)
  {
    hide InitializerMayContain, SomeNamedIn;
    added := false;
    var contents, inserted := f.contents, false;
    if c.values != [] && c.values[0].Array? {
      var may := InitializerMayContain(c.values[0], scope, env, f);
      if may.None? {
        return None, added;
      }
      if may.value {
        contents, added := Insert(contents, c.target.register.name);
      }
    }
    if SomeNamedIn(c.values, contents) {
      contents, inserted := Insert(contents, c.target.register.name);
      added := added || inserted;
    }
    r := Some(f.(contents := contents));
  }

  method VisitReferences(c: Command, scope: Scope, env: Environment, f: Facts) returns (r: Facts, added: bool)
    requires c.target.RegisterTarget?
    ensures r == AfterReferences(c, scope, env, f)
    ensures added <==> r != f
  {
    hide PreservesSlot, SomeNamedIn, CommonSlot;
    added := false;
    var name := c.target.register.name;
    var references, slots, inserted := f.references, f.slots, false;
    var slot := None;
    if RefersToLocal(c, scope) {
      slot := Some(c.values[0].register.name);
      if RefersToAggregate(c, scope, env, f) {
        references, added := Insert(references, name);
      }
    } else if c.values != [] && PreservesSlot(c) {
      slot := FindSlot(c.values, slots);
    }
    if slot.Some? && name !in slots {
      slots := slots[name := slot.value];
      added := true;
    }
    if PreservesSlot(c) && SomeNamedIn(c.values, references) {
      references, inserted := Insert(references, name);
      added := added || inserted;
    }
    r := f.(references := references, slots := slots);
  }

  method VisitStorage(c: Command, scope: Scope, env: Environment, f: Facts) returns (r: Option<Facts>, added: bool)
    requires AssignsLocal(c, scope)
    ensures r == AfterStorage(c, scope, env, f)
    ensures r.Some? ==> (added <==> r.value != f)
  {
    hide CommandMayPoint, CommandMayNameImmutable, TracksAddressBits;
    added := false;
    var name := c.target.register.name;
    var g, inserted := f, false;
    if CommandMayNameImmutable(c, scope, env, f) {
      var immutable;
      immutable, added := Insert(f.immutable, name);
      g := f.(immutable := immutable);
    }
    var t := if c.declared.Some? then c.declared.value else scope[name];
    if !TracksAddressBits(t) && !(c.instruction.Some? && c.instruction.value.name == "ptrtoint") {
      return Some(g), added;
    }
    if name !in g.storage {
      var may := CommandMayPoint(c, scope, env, g);
      if may.None? {
        return None, added;
      }
      if may.value {
        g := g.(storage := g.storage + {name});
        added := true;
      }
    }
    r := Some(g);
  }

  method VisitTarget(c: Command, scope: Scope, env: Environment, f: Facts) returns (r: Option<Facts>, added: bool)
    ensures r == AfterTarget(c, scope, env, f)
    ensures r.Some? ==> (added <==> r.value != f)
  {
    hide AfterFieldWrite, AfterContents, AfterReferences, AfterStorage, CommandNames;
    if !c.target.RegisterTarget? {
      return Some(f), false;
    }
    if c.target.register.accessors != [] {
      r, added := VisitFieldWrite(c, scope, env, f);
      return;
    }
    if !AssignsLocal(c, scope) {
      return Some(f), false;
    }
    r, added := VisitContents(c, scope, env, f);
    if r.None? {
      return;
    }
    ghost var names := CommandNames(c);
    ContentsExtends(c, scope, env, f, names);
    ReferencesExtend(c, scope, env, r.value, names);
    var g, referenced := VisitReferences(c, scope, env, r.value);
    StorageExtends(c, scope, env, g, names);
    ghost var contents := r.value;
    var stored;
    r, stored := VisitStorage(c, scope, env, g);
    if r.Some? && r.value == f {
      GrownBothWays(f, contents);
      GrownBothWays(f, g);
    }
    added := added || referenced || stored;
  }

  method VisitCommand(c: Command, scope: Scope, env: Environment, f: Facts) returns (r: Option<Facts>, added: bool)
    ensures r == AfterCommand(c, scope, env, f)
    ensures r.Some? ==> (added <==> r.value != f)
  {
    hide AfterStore, AfterCopy, AfterLoad, AfterTarget, CommandNames;
    ghost var names := CommandNames(c);
    r, added := VisitStore(c, scope, env, f);
    if r.None? {
      return;
    }
    ghost var stored := r.value;
    StoreExtends(c, scope, env, f, names);
    CopyExtends(c, scope, env, stored, names);
    var more;
    r, more := VisitCopy(c, scope, env, r.value);
    if r.None? {
      return;
    }
    added := added || more;
    ghost var copied := r.value;
    LoadExtends(c, copied, names);
    var g;
    g, more := VisitLoad(c, r.value);
    added := added || more;
    TargetExtends(c, scope, env, g, names);
    r, more := VisitTarget(c, scope, env, g);
    if r.Some? && r.value == f {
      GrownBothWays(f, stored);
      GrownBothWays(f, copied);
      GrownBothWays(f, g);
    }
    added := added || more;
  }

  // ---- The closure ----

  /** A declaration makes its name visible to the commands after it; the first one counts. */
  function Declared(scope: Scope, c: Command): Scope {
    if c.declared.Some? && c.target.RegisterTarget? && c.target.register.name !in scope
    then scope[c.target.register.name := c.declared.value] else scope
  }

  /** The locals a command may name: parameters and earlier declarations, whatever the jumps. */
  function ScopeAt(block: seq<Command>, parameters: Scope, i: nat): Scope
    requires i <= |block|
  {
    if i == 0 then parameters else Declared(ScopeAt(block, parameters, i - 1), block[i - 1])
  }

  method VisibleLocals(block: seq<Command>, parameters: Scope) returns (scopes: seq<Scope>)
    ensures |scopes| == |block|
    ensures forall i :: 0 <= i < |block| ==> scopes[i] == ScopeAt(block, parameters, i)
  {
    scopes := [];
    var locals := parameters;
    for i := 0 to |block|
      invariant |scopes| == i && locals == ScopeAt(block, parameters, i)
      invariant forall k :: 0 <= k < i ==> scopes[k] == ScopeAt(block, parameters, k)
    {
      scopes := scopes + [locals];
      locals := Declared(locals, block[i]);
    }
  }

  /** The facts after visiting the first i commands. */
  function PassTo(block: seq<Command>, parameters: Scope, env: Environment, f: Facts, i: nat): Option<Facts>
    requires i <= |block|
  {
    if i == 0 then Some(f)
    else
      match PassTo(block, parameters, env, f, i - 1)
      case None => None
      case Some(g) => AfterCommand(block[i - 1], ScopeAt(block, parameters, i - 1), env, g)
  }

  /** The facts after n whole passes over the block, starting from none. */
  function Passes(block: seq<Command>, parameters: Scope, env: Environment, n: nat): Option<Facts> {
    if n == 0 then Some(NOTHING)
    else
      match Passes(block, parameters, env, n - 1)
      case None => None
      case Some(f) => PassTo(block, parameters, env, f, |block|)
  }

  ghost predicate ClosedBlock(block: seq<Command>, parameters: Scope, env: Environment, f: Facts) {
    forall i :: 0 <= i < |block| ==> Closed(block[i], ScopeAt(block, parameters, i), env, f)
  }

  lemma {:induction false} NamesIncluded(block: seq<Command>, i: nat)
    requires i < |block|
    ensures CommandNames(block[i]) <= BlockNames(block)
  {
    hide CommandNames;
    if i < |block| - 1 {
      NamesIncluded(block[..|block| - 1], i);
    }
  }

  lemma {:induction false} PassExtends(block: seq<Command>, parameters: Scope, env: Environment, f: Facts, i: nat)
    requires i <= |block|
    ensures Extends(f, PassTo(block, parameters, env, f, i), BlockNames(block))
  {
    hide AfterCommand, CommandNames, BlockNames;
    if i > 0 {
      PassExtends(block, parameters, env, f, i - 1);
      NamesIncluded(block, i - 1);
      var g := PassTo(block, parameters, env, f, i - 1);
      if g.Some? {
        CommandExtends(block[i - 1], ScopeAt(block, parameters, i - 1), env, g.value, BlockNames(block));
      }
    }
  }

  /** A pass that ends where it began never left. */
  lemma {:induction false} PassFixed(block: seq<Command>, parameters: Scope, env: Environment, f: Facts, i: nat)
    requires i <= |block| && PassTo(block, parameters, env, f, |block|) == Some(f)
    ensures PassTo(block, parameters, env, f, i) == Some(f)
    decreases |block| - i
  {
    hide AfterCommand, CommandNames, BlockNames;
    if i < |block| {
      PassFixed(block, parameters, env, f, i + 1);
      var g := PassTo(block, parameters, env, f, i).value;
      PassExtends(block, parameters, env, f, i);
      NamesIncluded(block, i);
      CommandExtends(block[i], ScopeAt(block, parameters, i), env, g, BlockNames(block));
      GrownBothWays(f, g);
    }
  }

  lemma PassFixedIsClosed(block: seq<Command>, parameters: Scope, env: Environment, f: Facts)
    requires PassTo(block, parameters, env, f, |block|) == Some(f)
    ensures ClosedBlock(block, parameters, env, f)
  {
    hide AfterCommand, Closed;
    forall i | 0 <= i < |block|
      ensures Closed(block[i], ScopeAt(block, parameters, i), env, f)
    {
      PassFixed(block, parameters, env, f, i);
      PassFixed(block, parameters, env, f, i + 1);
      FixedIsClosed(block[i], ScopeAt(block, parameters, i), env, f);
    }
  }

  /** How many facts are still missing: each name can enter each of the five containers once. */
  ghost function Room(names: set<string>, f: Facts): int {
    5 * |names| - |f.immutable| - |f.storage| - |f.contents| - |f.references| - |f.slots.Keys|
  }

  lemma {:induction false} SubsetSize(a: set<string>, b: set<string>)
    requires a <= b
    ensures |a| <= |b| && (a != b ==> |a| < |b|)
  {
    if a != {} {
      var x :| x in a;
      SubsetSize(a - {x}, b - {x});
    }
  }

  lemma FactsFit(names: set<string>, f: Facts)
    requires Within(f, names)
    ensures 0 <= Room(names, f)
  {
    SubsetSize(f.immutable, names);
    SubsetSize(f.storage, names);
    SubsetSize(f.contents, names);
    SubsetSize(f.references, names);
    SubsetSize(f.slots.Keys, names);
  }

  lemma SlotsGrow(f: Facts, g: Facts)
    requires Grown(f, g)
    ensures |f.slots.Keys| <= |g.slots.Keys|
    ensures |f.slots.Keys| == |g.slots.Keys| ==> f.slots == g.slots
  {
    SubsetSize(f.slots.Keys, g.slots.Keys);
    if f.slots.Keys == g.slots.Keys {
      assert f.slots == g.slots;
    }
  }

  lemma RoomShrinks(names: set<string>, f: Facts, g: Facts)
    requires Grown(f, g) && Within(g, names)
    ensures 0 <= Room(names, g) <= Room(names, f)
    ensures f != g ==> Room(names, g) < Room(names, f)
  {
    FactsFit(names, g);
    SlotsGrow(f, g);
    hide Within;
    SubsetSize(f.immutable, g.immutable);
    SubsetSize(f.storage, g.storage);
    SubsetSize(f.contents, g.contents);
    SubsetSize(f.references, g.references);
  }

  /** One pass of the repeated loop over the commands. */
  method VisitBlock(block: seq<Command>, scopes: seq<Scope>, parameters: Scope, env: Environment, f: Facts)
    returns (r: Option<Facts>, added: bool)
    requires |scopes| == |block|
    requires forall i :: 0 <= i < |block| ==> scopes[i] == ScopeAt(block, parameters, i)
    ensures r == PassTo(block, parameters, env, f, |block|)
    ensures r.Some? ==> (added <==> r.value != f)
  {
    hide AfterCommand, CommandNames, BlockNames, ScopeAt;
    added := false;
    r := Some(f);
    var index := 0;
    while index < |block|
      invariant 0 <= index <= |block|
      invariant r == PassTo(block, parameters, env, f, index) && r.Some?
      invariant added <==> r.value != f
    {
      ghost var before := r.value;
      var grew;
      r, grew := VisitCommand(block[index], scopes[index], env, r.value);
      if r.None? {
        FailureStays(block, parameters, env, f, index + 1);
        return;
      }
      PassExtends(block, parameters, env, f, index);
      NamesIncluded(block, index);
      CommandExtends(block[index], scopes[index], env, before, BlockNames(block));
      if r.value == f {
        GrownBothWays(f, before);
      }
      added := added || grew;
      index := index + 1;
    }
  }

  lemma {:induction false} FailureStays(block: seq<Command>, parameters: Scope, env: Environment, f: Facts, i: nat)
    requires i <= |block| && PassTo(block, parameters, env, f, i).None?
    ensures PassTo(block, parameters, env, f, |block|).None?
    decreases |block| - i
  {
    hide AfterCommand, ScopeAt;
    if i < |block| {
      FailureStays(block, parameters, env, f, i + 1);
    }
  }

  /** The repeated passes end, whatever the block, either with an error some pass raises or with facts
      that are closed under every rule. */
  method ComputeClosure(block: seq<Command>, parameters: Scope, env: Environment)
    returns (r: Option<Facts>, ghost passes: nat)
    ensures r == Passes(block, parameters, env, passes)
    ensures r.Some? ==> Within(r.value, BlockNames(block))
    ensures r.Some? ==> PassTo(block, parameters, env, r.value, |block|) == r
    ensures r.Some? ==> ClosedBlock(block, parameters, env, r.value)
    ensures passes <= 5 * |BlockNames(block)| + 1
  {
    hide PassTo, BlockNames, Closed, ScopeAt;
    ghost var names := BlockNames(block);
    var scopes := VisibleLocals(block, parameters);
    var facts := NOTHING;
    var added := true;
    passes := 0;
    while added
      invariant Passes(block, parameters, env, passes) == Some(facts)
      invariant Within(facts, names)
      invariant !added ==> PassTo(block, parameters, env, facts, |block|) == Some(facts)
      invariant passes + Room(names, facts) <= 5 * |names| + if added then 0 else 1
      decreases Room(names, facts), added
    {
      r, added := VisitBlock(block, scopes, parameters, env, facts);
      passes := passes + 1;
      if r.None? {
        RoomShrinks(names, facts, facts);
        return;
      }
      PassExtends(block, parameters, env, facts, |block|);
      RoomShrinks(names, facts, r.value);
      facts := r.value;
    }
    PassFixedIsClosed(block, parameters, env, facts);
    RoomShrinks(names, facts, facts);
    r := Some(facts);
  }
}
