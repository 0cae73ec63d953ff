/** When the facts of the alias analysis cover every local that holds a local address, and every fact is true
    along some path. */
module AliasExactness {
  import opened Wrappers
  import opened Ast
  import opened Typing
  import opened AliasRules
  import opened AliasAnalysis
  import opened AliasSoundness

  // ---- Every storage fact is realized by some path ----

  /** Along some path the local comes to hold a local address. */
  ghost predicate Realized(block: seq<Command>, parameters: Scope, name: string) {
    exists path: seq<nat> :: IsPath(block, path) && Origins(Run(block, parameters, path).locals, name) != {}
  }

  ghost predicate AllRealized(block: seq<Command>, parameters: Scope, names: set<string>) {
    forall n :: n in names ==> Realized(block, parameters, n)
  }

  predicate InStorage(v: Value, scope: Scope, storage: set<string>) {
    v.Named? && v.register.name in scope && v.register.name in storage
  }

  /** Some operand is a local that may hold a local address. */
  predicate SomeInStorage(values: seq<Value>, scope: Scope, storage: set<string>) {
    exists k :: 0 <= k < |values| && InStorage(values[k], scope, storage)
  }

  /** Why the result of a command in the fragment may be a local address. */
  predicate HasSource(c: Command, scope: Scope, storage: set<string>) {
    && c.values != []
    && (if c.instruction.None? then c.values[0].Array? || InStorage(c.values[0], scope, storage)
        else if IsRef(c.instruction.value.name) then c.values[0].Named? && c.values[0].register.name in scope
        else CarriesBits(c.instruction.value.name) && SomeInStorage(c.values, scope, storage))
  }

  lemma {:induction false} SomeMayContain(values: seq<Value>, scope: Scope, env: Environment, f: Facts)
    requires AnyMayContain(values, scope, env, f) == Some(true)
    ensures SomeInStorage(values, scope, f.storage)
  {
    if MayContainLocal(values[0], scope, env, f) == Some(true) {
      assert InStorage(values[0], scope, f.storage);
    } else {
      SomeMayContain(values[1..], scope, env, f);
      var k :| 0 <= k < |values| - 1 && InStorage(values[1..][k], scope, f.storage);
      assert InStorage(values[k + 1], scope, f.storage);
    }
  }

  lemma NoLoadComputes(name: string)
    ensures CarriesBits(name) || Compares(name) ==> !IsRef(name) && !Loads(name)
  {
  }

  lemma MayPointHasSource(c: Command, scope: Scope, env: Environment, f: Facts)
    requires Computes(c) && CommandMayPoint(c, scope, env, f) == Some(true)
    ensures HasSource(c, scope, f.storage)
  {
    hide CarriesBits, DifferenceOfPointers, LoadMayPoint, TracksAddressBits, Compares, IsRef, Loads, IsSub,
         SomeInStorage,
         AnyMayContain;
    assert c.values[0] in c.values;
    if c.instruction.Some? {
      NoLoadComputes(c.instruction.value.name);
      if CarriesBits(c.instruction.value.name) {
        SomeMayContain(c.values, scope, env, f);
      }
    }
  }

  lemma {:induction false} SomeOrigins(values: seq<Value>, scope: Scope, s: State, k: nat)
    requires k < |values| && OperandOrigins(values[k], scope, s) != {}
    ensures AllOrigins(values, scope, s) != {}
  {
    if k > 0 {
      SomeOrigins(values[1..], scope, s, k - 1);
    }
  }

  /** A path after which the source of a command holds an address, then the command itself. */
  lemma SourceRealizes(block: seq<Command>, parameters: Scope, i: nat, storage: set<string>) returns (path: seq<nat>)
    requires i < |block| && AllRealized(block, parameters, storage)
    requires HasSource(block[i], ScopeAt(block, parameters, i), storage)
    ensures IsPath(block, path)
    ensures var s := Run(block, parameters, path);
      ResultOrigins(block[i], i, ScopeAt(block, parameters, i), s) != {}
  {
    hide Run, CarriesBits, Loads, IsRef;
    var c, scope := block[i], ScopeAt(block, parameters, i);
    hide ScopeAt;
    path := [];
    if c.instruction.None? {
      if c.values[0].Array? {
        assert Backing(i) in ResultOrigins(c, i, scope, Run(block, parameters, path));
      } else {
        path := OperandPath(block, parameters, c.values[0], scope, storage);
      }
    } else if IsRef(c.instruction.value.name) {
      assert Slot(c.values[0].register.name) in ResultOrigins(c, i, scope, Run(block, parameters, path));
    } else {
      var k :| 0 <= k < |c.values| && InStorage(c.values[k], scope, storage);
      path := OperandPath(block, parameters, c.values[k], scope, storage);
      SomeOrigins(c.values, scope, Run(block, parameters, path), k);
    }
  }

  lemma OperandPath(block: seq<Command>, parameters: Scope, v: Value, scope: Scope, storage: set<string>)
    returns (path: seq<nat>)
    requires AllRealized(block, parameters, storage) && InStorage(v, scope, storage)
    ensures IsPath(block, path) && OperandOrigins(v, scope, Run(block, parameters, path)) != {}
  {
    hide Run;
    assert Realized(block, parameters, v.register.name);
    path :| IsPath(block, path) && Origins(Run(block, parameters, path).locals, v.register.name) != {};
  }

  lemma OneMoreCommand(block: seq<Command>, parameters: Scope, path: seq<nat>, i: nat)
    requires IsPath(block, path) && i < |block|
    ensures IsPath(block, path + [i])
    ensures Run(block, parameters, path + [i])
         == Step(block[i], i, ScopeAt(block, parameters, i), Run(block, parameters, path))
  {
    hide Step;
    assert (path + [i])[..|path + [i]| - 1] == path;
  }

  lemma TargetRealized(block: seq<Command>, parameters: Scope, i: nat, storage: set<string>)
    requires i < |block| && AllRealized(block, parameters, storage)
    requires AssignsLocal(block[i], ScopeAt(block, parameters, i))
    requires HasSource(block[i], ScopeAt(block, parameters, i), storage)
    ensures Realized(block, parameters, block[i].target.register.name)
  {
    var path := SourceRealizes(block, parameters, i, storage);
    hide Run, HasSource, ResultOrigins;
    OneMoreCommand(block, parameters, path, i);
    assert Origins(Run(block, parameters, path + [i]).locals, block[i].target.register.name) != {};
  }

  // ---- What one visit of a fragment command does to the storage facts ----

  lemma NamesOfTransfers(name: string)
    ensures Transfers(name) ==> name != "store" && name != "atomicstore" && name != "memcpy"
  {
  }

  lemma NamesOfComputations(name: string)
    ensures IsRef(name) || CarriesBits(name) || Compares(name) ==>
      name != "store" && name != "atomicstore" && name != "memcpy"
  {
  }

  /** Stores and copies are outside the fragment. */
  lemma NoStoreInFragment(c: Command, scope: Scope, env: Environment, f: Facts)
    requires InFragment(c)
    ensures AfterStore(c, scope, env, f) == Some(f) && AfterCopy(c, scope, env, f) == Some(f)
  {
    hide MayContainLocal, MayNameImmutable, HoldsAddress, CarriesBits, Compares, IsRef, Transfers, Simple,
         TracksAddressBits;
    if c.instruction.Some? {
      NamesOfTransfers(c.instruction.value.name);
      NamesOfComputations(c.instruction.value.name);
    }
  }

  lemma LoadKeepsStorage(c: Command, f: Facts)
    ensures AfterLoad(c, f).storage == f.storage
  {
  }

  lemma ContentsKeepStorage(c: Command, scope: Scope, env: Environment, f: Facts)
    requires c.target.RegisterTarget? && AfterContents(c, scope, env, f).Some?
    ensures AfterContents(c, scope, env, f).value.storage == f.storage
  {
    hide InitializerMayContain, SomeNamedIn;
  }

  lemma ReferencesKeepStorage(c: Command, scope: Scope, env: Environment, f: Facts)
    requires c.target.RegisterTarget?
    ensures AfterReferences(c, scope, env, f).storage == f.storage
  {
    hide RefersToAggregate, PreservesSlot, SomeNamedIn, ReferencedSlot;
  }

  lemma StorageGrowsFromSource(c: Command, scope: Scope, env: Environment, f: Facts)
    requires Computes(c) && AssignsLocal(c, scope) && AfterStorage(c, scope, env, f).Some?
    ensures var g := AfterStorage(c, scope, env, f).value;
      g.storage == f.storage
      || (g.storage == f.storage + {c.target.register.name} && HasSource(c, scope, f.storage))
  {
    var g := f.(immutable := With(f.immutable, CommandMayNameImmutable(c, scope, env, f), c.target.register.name));
    if CommandMayPoint(c, scope, env, g) == Some(true) {
      MayPointHasSource(c, scope, env, g);
    }
    hide CommandMayPoint, CommandMayNameImmutable, TracksAddressBits, Computes, HasSource;
  }

  /** A visit adds a storage fact only for the target of a command with a source. */
  lemma VisitGrowsFromSource(c: Command, scope: Scope, env: Environment, f: Facts)
    requires InFragment(c) && AfterCommand(c, scope, env, f).Some?
    ensures var g := AfterCommand(c, scope, env, f).value;
      g.storage == f.storage
      || (AssignsLocal(c, scope) && g.storage == f.storage + {c.target.register.name} && HasSource(c, scope, f.storage))
  {
    hide AfterStore, AfterCopy, AfterLoad, AfterFieldWrite, AfterContents, AfterReferences, AfterStorage, HasSource,
         TracksAddressBits, CarriesBits, Compares, IsRef, Transfers, Simple;
    NoStoreInFragment(c, scope, env, f);
    LoadKeepsStorage(c, f);
    var g := AfterLoad(c, f);
    if AssignsLocal(c, scope) {
      ContentsKeepStorage(c, scope, env, g);
      var contents := AfterContents(c, scope, env, g).value;
      ReferencesKeepStorage(c, scope, env, contents);
      StorageGrowsFromSource(c, scope, env, AfterReferences(c, scope, env, contents));
    }
  }

  lemma {:induction false} PassRealizes(block: seq<Command>, parameters: Scope, env: Environment, f: Facts, i: nat)
    requires i <= |block| && ScalarBlock(block, parameters) && AllRealized(block, parameters, f.storage)
    requires PassTo(block, parameters, env, f, i).Some?
    ensures AllRealized(block, parameters, PassTo(block, parameters, env, f, i).value.storage)
  {
    hide AfterCommand, Realized, InFragment, HasSource, AssignsLocal, ScopeAt;
    if i > 0 {
      PassRealizes(block, parameters, env, f, i - 1);
      var g := PassTo(block, parameters, env, f, i - 1).value;
      var scope := ScopeAt(block, parameters, i - 1);
      VisitGrowsFromSource(block[i - 1], scope, env, g);
      if AssignsLocal(block[i - 1], scope) && HasSource(block[i - 1], scope, g.storage) {
        TargetRealized(block, parameters, i - 1, g.storage);
      }
    }
  }

  /** However many passes, every storage fact is realized: the analysis claims nothing idly. */
  lemma {:induction false} FactsRealized(block: seq<Command>, parameters: Scope, env: Environment, n: nat)
    requires ScalarBlock(block, parameters) && Passes(block, parameters, env, n).Some?
    ensures AllRealized(block, parameters, Passes(block, parameters, env, n).value.storage)
  {
    hide PassTo, Realized, ScalarBlock;
    if n > 0 {
      FactsRealized(block, parameters, env, n - 1);
      PassRealizes(block, parameters, env, Passes(block, parameters, env, n - 1).value, |block|);
    }
  }

  // ---- The exact condition ----

  /** Along every path, locals that hold a local address are known to, and none reaches the caller. */
  ghost predicate Sound(block: seq<Command>, parameters: Scope, f: Facts) {
    forall path: seq<nat> | IsPath(block, path) ::
      Safe(Run(block, parameters, path), f) && NothingEscapes(block, parameters, path)
  }

  lemma DifferenceHasSource(c: Command, scope: Scope, env: Environment, f: Facts)
    requires !DifferenceTracked(c, scope, env, f)
    ensures HasSource(c, scope, f.storage)
  {
    hide CarriesBits, IsRef, IsSub, DifferenceOfPointers, MayContainLocal, SomeInStorage;
    SomeMayContain(c.values, scope, env, f);
    SubCarriesBits(c.instruction.value.name);
  }

  lemma UntrackedTarget(c: Command, i: nat, scope: Scope, env: Environment, f: Facts, s: State)
    requires !DifferenceTracked(c, scope, env, f)
    requires c.values != [] && ResultOrigins(c, i, scope, s) != {}
    ensures !Safe(Step(c, i, scope, s), f)
  {
    hide ResultOrigins, IsDifference, AnyMayContain;
    var next := Step(c, i, scope, s);
    if AssignsLocal(c, scope) {
      assert c.target.register.name in next.locals;
    } else {
      assert c.target.register.name in next.globals;
    }
  }

  /** Along some path an untracked difference puts an address where the facts do not expect it. */
  lemma UntrackedMissed(block: seq<Command>, parameters: Scope, env: Environment, n: nat, i: nat)
    requires ScalarBlock(block, parameters) && Passes(block, parameters, env, n).Some? && i < |block|
    requires var f := Passes(block, parameters, env, n).value;
      !DifferenceTracked(block[i], ScopeAt(block, parameters, i), env, f)
    ensures !Sound(block, parameters, Passes(block, parameters, env, n).value)
  {
    hide Passes, ScopeAt, Run, ScalarBlock, DifferenceTracked, Step, ResultOrigins, NothingEscapes, Safe, AllRealized;
    var f := Passes(block, parameters, env, n).value;
    var c, scope := block[i], ScopeAt(block, parameters, i);
    FactsRealized(block, parameters, env, n);
    DifferenceHasSource(c, scope, env, f);
    var path := SourceRealizes(block, parameters, i, f.storage);
    hide HasSource;
    OneMoreCommand(block, parameters, path, i);
    UntrackedTarget(c, i, scope, env, f, Run(block, parameters, path));
    assert !Safe(Run(block, parameters, path + [i]), f);
  }

  lemma SubCarriesBits(name: string)
    ensures IsSub(name) ==> CarriesBits(name) && !IsRef(name)
  {
  }

  /** For every block that validation accepts, the facts cover all locals that hold a local address and nothing
      escapes exactly when every difference of pointers with a tracked operand is stored in a local that is
      tracked too. What escapes alone has its own condition, in AliasEscape. */
  lemma SoundExactly(block: seq<Command>, parameters: Scope, env: Environment, n: nat)
    requires ScalarBlock(block, parameters) && Passes(block, parameters, env, n).Some?
    requires ClosedBlock(block, parameters, env, Passes(block, parameters, env, n).value)
    requires BlockChecked(block, parameters, env, Passes(block, parameters, env, n).value)
    ensures var f := Passes(block, parameters, env, n).value;
      Sound(block, parameters, f) <==> DifferencesTracked(block, parameters, env, f)
  {
    var f := Passes(block, parameters, env, n).value;
    hide Passes, ScalarBlock, ClosedBlock, BlockChecked, NothingEscapes, Safe, DifferenceTracked, Run;
    if DifferencesTracked(block, parameters, env, f) {
      forall path: seq<nat> | IsPath(block, path)
        ensures Safe(Run(block, parameters, path), f) && NothingEscapes(block, parameters, path)
      {
        AcceptedNeverLeaks(block, parameters, env, f, path);
      }
    } else {
      var i :| 0 <= i < |block| && !DifferenceTracked(block[i], ScopeAt(block, parameters, i), env, f);
      UntrackedMissed(block, parameters, env, n, i);
    }
  }
}
