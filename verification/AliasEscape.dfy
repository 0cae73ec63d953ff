/** Exactly which blocks let a local address reach the caller. */
module AliasEscape {
  import opened Wrappers
  import opened Ast
  import opened Typing
  import opened AliasRules
  import opened AliasAnalysis
  import opened AliasSoundness
  import opened AliasExactness

  // ---- The locals that local addresses reach ----

  /** Addresses flow through references, copies, casts and arithmetic. Numbers flow through everything. */
  datatype Influence = Addresses | Numbers

  /** Why the result of a command may depend on where local storage is. */
  predicate DependsOn(c: Command, scope: Scope, names: set<string>) {
    && c.values != []
    && (if c.instruction.None? then c.values[0].Array? || InStorage(c.values[0], scope, names)
        else if IsRef(c.instruction.value.name) then c.values[0].Named? && c.values[0].register.name in scope
        else SomeInStorage(c.values, scope, names))
  }

  predicate Feeds(kind: Influence, c: Command, scope: Scope, names: set<string>) {
    if kind.Addresses? then HasSource(c, scope, names) else DependsOn(c, scope, names)
  }

  function Targets(block: seq<Command>): set<string> {
    set c | c in block && c.target.RegisterTarget? :: c.target.register.name
  }

  /** The locals that one command fills from the given ones. */
  function Fed(kind: Influence, block: seq<Command>, parameters: Scope, names: set<string>): set<string> {
    set i | 0 <= i < |block| && AssignsLocal(block[i], ScopeAt(block, parameters, i))
            && Feeds(kind, block[i], ScopeAt(block, parameters, i), names) :: block[i].target.register.name
  }

  lemma FedFewer(block: seq<Command>, names: set<string>, more: set<string>)
    requires more <= Targets(block) && names + more != names
    ensures |Targets(block) - (names + more)| < |Targets(block) - names|
  {
    var x :| x in more && x !in names;
    SubsetSize(Targets(block) - (names + more), Targets(block) - names);
    assert x in Targets(block) - names;
  }

  /** The closure of the given locals: what repeated passes over the block add. */
  function Reaching(kind: Influence, block: seq<Command>, parameters: Scope, names: set<string>): set<string>
    decreases |Targets(block) - names|
  {
    var more := Fed(kind, block, parameters, names);
    if names + more == names then names
    else
      FedFewer(block, names, more);
      Reaching(kind, block, parameters, names + more)
  }

  ghost predicate ClosedUnder(kind: Influence, block: seq<Command>, parameters: Scope, names: set<string>) {
    forall i | 0 <= i < |block| && AssignsLocal(block[i], ScopeAt(block, parameters, i))
               && Feeds(kind, block[i], ScopeAt(block, parameters, i), names) ::
      block[i].target.register.name in names
  }

  lemma {:induction false} ReachingIsClosed(kind: Influence, block: seq<Command>, parameters: Scope, names: set<string>)
    ensures var r := Reaching(kind, block, parameters, names);
      names <= r && ClosedUnder(kind, block, parameters, r)
    decreases |Targets(block) - names|
  {
    hide Feeds, ScopeAt;
    var more := Fed(kind, block, parameters, names);
    if names + more == names {
      forall i | 0 <= i < |block| && AssignsLocal(block[i], ScopeAt(block, parameters, i))
                 && Feeds(kind, block[i], ScopeAt(block, parameters, i), names)
        ensures block[i].target.register.name in names
      {
        assert block[i].target.register.name in more;
      }
    } else {
      FedFewer(block, names, more);
      ReachingIsClosed(kind, block, parameters, names + more);
    }
  }

  lemma MoreFeeds(kind: Influence, c: Command, scope: Scope, names: set<string>, more: set<string>)
    requires names <= more && Feeds(kind, c, scope, names)
    ensures Feeds(kind, c, scope, more)
  {
    hide CarriesBits, IsRef;
    if SomeInStorage(c.values, scope, names) {
      var k :| 0 <= k < |c.values| && InStorage(c.values[k], scope, names);
      assert InStorage(c.values[k], scope, more);
    }
  }

  /** It is the least closed set. */
  lemma {:induction false} ReachingIsLeast(
      kind: Influence, block: seq<Command>, parameters: Scope, names: set<string>, closed: set<string>)
    requires names <= closed && ClosedUnder(kind, block, parameters, closed)
    ensures Reaching(kind, block, parameters, names) <= closed
    decreases |Targets(block) - names|
  {
    hide Feeds, ScopeAt;
    var more := Fed(kind, block, parameters, names);
    if names + more != names {
      FedFewer(block, names, more);
      forall i | 0 <= i < |block| && AssignsLocal(block[i], ScopeAt(block, parameters, i))
                 && Feeds(kind, block[i], ScopeAt(block, parameters, i), names)
        ensures block[i].target.register.name in closed
      {
        MoreFeeds(kind, block[i], ScopeAt(block, parameters, i), names, closed);
      }
      assert more <= closed;
      ReachingIsLeast(kind, block, parameters, names + more, closed);
    }
  }

  // ---- Addresses that reach the caller ----

  predicate AssignsGlobal(c: Command, scope: Scope) {
    c.target.RegisterTarget? && c.values != [] && !AssignsLocal(c, scope)
  }

  /** No assignment to a global takes from the given locals, and none of them is returned. */
  predicate KeptInside(c: Command, scope: Scope, names: set<string>) {
    && (AssignsGlobal(c, scope) ==> !HasSource(c, scope, names))
    && (IsReturn(c) && c.values != [] ==> !InStorage(c.values[0], scope, names))
  }

  ghost predicate AllKeptInside(block: seq<Command>, parameters: Scope, names: set<string>) {
    forall i :: 0 <= i < |block| ==> KeptInside(block[i], ScopeAt(block, parameters, i), names)
  }

  /** Along no path does a value of local origin reach a global or a return. */
  ghost predicate NeverEscapes(block: seq<Command>, parameters: Scope) {
    forall path: seq<nat> | IsPath(block, path) :: NothingEscapes(block, parameters, path)
  }

  /** Only the given locals hold local addresses, and no global does. */
  ghost predicate Confined(s: State, names: set<string>) {
    && (forall n :: Origins(s.locals, n) != {} ==> n in names)
    && (forall n :: Origins(s.globals, n) == {})
  }

  lemma {:induction false} OperandsConfined(values: seq<Value>, scope: Scope, s: State, names: set<string>)
    requires Confined(s, names) && AllOrigins(values, scope, s) != {}
    ensures SomeInStorage(values, scope, names)
  {
    if OperandOrigins(values[0], scope, s) != {} {
      assert InStorage(values[0], scope, names);
    } else {
      OperandsConfined(values[1..], scope, s, names);
      var k :| 0 <= k < |values| - 1 && InStorage(values[1..][k], scope, names);
      assert InStorage(values[k + 1], scope, names);
    }
  }

  lemma OriginsHaveSource(c: Command, i: nat, scope: Scope, s: State, names: set<string>)
    requires Confined(s, names) && c.values != [] && ResultOrigins(c, i, scope, s) != {}
    ensures HasSource(c, scope, names)
  {
    hide CarriesBits, IsRef, AllOrigins, SomeInStorage;
    if c.instruction.Some? && !IsRef(c.instruction.value.name) {
      OperandsConfined(c.values, scope, s, names);
    }
  }

  lemma StepConfined(c: Command, i: nat, scope: Scope, s: State, names: set<string>)
    requires Confined(s, names) && KeptInside(c, scope, names)
    requires AssignsLocal(c, scope) && HasSource(c, scope, names) ==> c.target.register.name in names
    ensures Confined(Step(c, i, scope, s), names)
  {
    hide ResultOrigins, HasSource;
    if c.target.RegisterTarget? && c.values != [] {
      var origins := ResultOrigins(c, i, scope, s);
      if origins != {} {
        OriginsHaveSource(c, i, scope, s, names);
      }
      var name, next := c.target.register.name, Step(c, i, scope, s);
      if AssignsLocal(c, scope) {
        assert next.globals == s.globals;
        assert forall n :: n != name ==> Origins(next.locals, n) == Origins(s.locals, n);
        assert Origins(next.locals, name) == origins;
      } else {
        assert next.locals == s.locals;
        assert forall n :: n != name ==> Origins(next.globals, n) == Origins(s.globals, n);
        assert Origins(next.globals, name) == origins;
      }
    }
  }

  lemma EntryConfined(names: set<string>)
    ensures Confined(ENTRY, names)
  {
  }

  lemma {:induction false} RunConfined(block: seq<Command>, parameters: Scope, names: set<string>, path: seq<nat>)
    requires IsPath(block, path) && AllKeptInside(block, parameters, names)
    requires ClosedUnder(Addresses, block, parameters, names)
    ensures Confined(Run(block, parameters, path), names)
    decreases path
  {
    hide Step, Confined, KeptInside, HasSource;
    if path != [] {
      var last := path[|path| - 1];
      RunConfined(block, parameters, names, path[..|path| - 1]);
      StepConfined(block[last], last, ScopeAt(block, parameters, last), Run(block, parameters, path[..|path| - 1]),
                   names);
    } else {
      EntryConfined(names);
    }
  }

  lemma {:induction false} AddressesRealized(block: seq<Command>, parameters: Scope, names: set<string>)
    requires AllRealized(block, parameters, names)
    ensures AllRealized(block, parameters, Reaching(Addresses, block, parameters, names))
    decreases |Targets(block) - names|
  {
    hide Realized, HasSource, ScopeAt;
    var more := Fed(Addresses, block, parameters, names);
    if names + more != names {
      FedFewer(block, names, more);
      forall i | 0 <= i < |block| && AssignsLocal(block[i], ScopeAt(block, parameters, i))
                 && HasSource(block[i], ScopeAt(block, parameters, i), names)
        ensures Realized(block, parameters, block[i].target.register.name)
      {
        TargetRealized(block, parameters, i, names);
      }
      AddressesRealized(block, parameters, names + more);
    }
  }

  lemma GlobalEscapes(block: seq<Command>, parameters: Scope, names: set<string>, i: nat)
    requires i < |block| && AllRealized(block, parameters, names)
    requires AssignsGlobal(block[i], ScopeAt(block, parameters, i))
    requires HasSource(block[i], ScopeAt(block, parameters, i), names)
    ensures !NeverEscapes(block, parameters)
  {
    var path := SourceRealizes(block, parameters, i, names);
    hide Run, HasSource, ResultOrigins, ScopeAt;
    OneMoreCommand(block, parameters, path, i);
    assert Origins(Run(block, parameters, path + [i]).globals, block[i].target.register.name) != {};
    assert !NothingEscapes(block, parameters, path + [i]);
  }

  lemma ReturnEscapes(block: seq<Command>, parameters: Scope, names: set<string>, i: nat)
    requires i < |block| && AllRealized(block, parameters, names)
    requires IsReturn(block[i]) && block[i].values != []
    requires InStorage(block[i].values[0], ScopeAt(block, parameters, i), names)
    ensures !NeverEscapes(block, parameters)
  {
    var path := OperandPath(block, parameters, block[i].values[0], ScopeAt(block, parameters, i), names);
    hide Run, ScopeAt;
    assert !NothingEscapes(block, parameters, path);
  }

  /** The locals that addresses reach, computed from the text alone. */
  function Reached(kind: Influence, block: seq<Command>, parameters: Scope): set<string> {
    Reaching(kind, block, parameters, {})
  }

  /** No local address reaches the caller along any path exactly when no assignment to a global takes from the
      locals that addresses reach, and none of these is returned. */
  lemma EscapesExactly(block: seq<Command>, parameters: Scope)
    requires ScalarBlock(block, parameters)
    ensures NeverEscapes(block, parameters)
       <==> AllKeptInside(block, parameters, Reached(Addresses, block, parameters))
  {
    var names := Reached(Addresses, block, parameters);
    ReachingIsClosed(Addresses, block, parameters, {});
    AddressesRealized(block, parameters, {});
    hide ScopeAt, HasSource, Run, Reached, AllRealized, ClosedUnder, IsReturn;
    if AllKeptInside(block, parameters, names) {
      forall path: seq<nat> | IsPath(block, path)
        ensures NothingEscapes(block, parameters, path)
      {
        RunConfined(block, parameters, names, path);
      }
    } else {
      hide NeverEscapes;
      var i :| 0 <= i < |block| && !KeptInside(block[i], ScopeAt(block, parameters, i), names);
      var scope := ScopeAt(block, parameters, i);
      if AssignsGlobal(block[i], scope) && HasSource(block[i], scope, names) {
        GlobalEscapes(block, parameters, names, i);
      } else {
        ReturnEscapes(block, parameters, names, i);
      }
    }
  }

  // ---- What the analysis knows of it ----

  lemma {:induction false} SimpleMayContain(values: seq<Value>, scope: Scope, env: Environment, f: Facts)
    requires forall v <- values :: Simple(v)
    ensures AnyMayContain(values, scope, env, f) == Some(SomeInStorage(values, scope, f.storage))
  {
    if values != [] {
      assert values[0] in values;
      SimpleMayContain(values[1..], scope, env, f);
      if SomeInStorage(values, scope, f.storage) && !InStorage(values[0], scope, f.storage) {
        var k :| 0 <= k < |values| && InStorage(values[k], scope, f.storage);
        assert InStorage(values[1..][k - 1], scope, f.storage);
      } else if SomeInStorage(values[1..], scope, f.storage) {
        var k :| 0 <= k < |values| - 1 && InStorage(values[1..][k], scope, f.storage);
        assert InStorage(values[k + 1], scope, f.storage);
      }
    }
  }

  /** The source of a command is what the analysis looks for, with differences of pointers included. */
  lemma SourceIsMayPoint(c: Command, scope: Scope, env: Environment, f: Facts)
    requires Computes(c) && CommandMayPoint(c, scope, env, f).Some?
    ensures HasSource(c, scope, f.storage)
       <==> (CommandMayPoint(c, scope, env, f).value
             || (IsDifference(c, scope, env) && SomeInStorage(c.values, scope, f.storage)))
  {
    hide CarriesBits, DifferenceOfPointers, LoadMayPoint, TracksAddressBits, Compares, IsRef, Loads, IsSub,
         SomeInStorage,
         AnyMayContain;
    if c.instruction.Some? {
      SimpleMayContain(c.values, scope, env, f);
      NoLoadComputes(c.instruction.value.name);
      SubCarriesBits(c.instruction.value.name);
      if IsRef(c.instruction.value.name) && c.values[0].Named? {
        assert Simple(c.values[0]) && !HasIndex(c.values[0].register.accessors);
      }
    } else if c.values != [] {
      assert c.values[0] in c.values;
    }
  }

  lemma {:induction false} PassReached(
      block: seq<Command>, parameters: Scope, env: Environment, f: Facts, i: nat, names: set<string>)
    requires i <= |block| && ScalarBlock(block, parameters) && PassTo(block, parameters, env, f, i).Some?
    requires f.storage <= names && ClosedUnder(Addresses, block, parameters, names)
    ensures PassTo(block, parameters, env, f, i).value.storage <= names
  {
    hide AfterCommand, InFragment, HasSource, AssignsLocal, ScopeAt;
    if i > 0 {
      PassReached(block, parameters, env, f, i - 1, names);
      var g := PassTo(block, parameters, env, f, i - 1).value;
      var scope := ScopeAt(block, parameters, i - 1);
      VisitGrowsFromSource(block[i - 1], scope, env, g);
      if AssignsLocal(block[i - 1], scope) && HasSource(block[i - 1], scope, g.storage) {
        MoreFeeds(Addresses, block[i - 1], scope, g.storage, names);
      }
    }
  }

  /** The closure of the analysis stays inside: it only misses what differences of pointers carry on. */
  lemma {:induction false} StorageReached(block: seq<Command>, parameters: Scope, env: Environment, n: nat)
    requires ScalarBlock(block, parameters) && Passes(block, parameters, env, n).Some?
    ensures Passes(block, parameters, env, n).value.storage <= Reached(Addresses, block, parameters)
  {
    hide PassTo, ScalarBlock, ClosedUnder, Reaching;
    if n > 0 {
      StorageReached(block, parameters, env, n - 1);
      ReachingIsClosed(Addresses, block, parameters, {});
      PassReached(block, parameters, env, Passes(block, parameters, env, n - 1).value, |block|,
        Reached(Addresses, block, parameters));
    }
  }

  /** With its differences tracked, the closure of an accepted block is exactly what addresses reach. */
  lemma TrackedIsReached(block: seq<Command>, parameters: Scope, env: Environment, n: nat)
    requires ScalarBlock(block, parameters) && Passes(block, parameters, env, n).Some?
    requires ClosedBlock(block, parameters, env, Passes(block, parameters, env, n).value)
    requires BlockChecked(block, parameters, env, Passes(block, parameters, env, n).value)
    requires DifferencesTracked(block, parameters, env, Passes(block, parameters, env, n).value)
    ensures Passes(block, parameters, env, n).value.storage == Reached(Addresses, block, parameters)
  {
    hide Passes, ScalarBlock, ClosedBlock, BlockChecked, DifferencesTracked, Reaching, Run;
    var f := Passes(block, parameters, env, n).value;
    StorageReached(block, parameters, env, n);
    AddressesRealized(block, parameters, {});
    forall name | name in Reached(Addresses, block, parameters)
      ensures name in f.storage
    {
      assert Realized(block, parameters, name);
      var path: seq<nat> :| IsPath(block, path) && Origins(Run(block, parameters, path).locals, name) != {};
      RunSafe(block, parameters, env, f, path);
    }
  }

  /** Every command can be typed as far as the analysis asks for types. */
  ghost predicate Typed(block: seq<Command>, parameters: Scope, env: Environment, f: Facts) {
    forall i :: 0 <= i < |block| ==> CommandMayPoint(block[i], ScopeAt(block, parameters, i), env, f).Some?
  }

  /** A command that fails its check lets an address out along some path. */
  lemma FailedCheckEscapes(block: seq<Command>, parameters: Scope, env: Environment, f: Facts, i: nat)
    requires ScalarBlock(block, parameters) && AllRealized(block, parameters, f.storage) && i < |block|
    requires CommandMayPoint(block[i], ScopeAt(block, parameters, i), env, f).Some?
    requires !EscapeChecked(block[i], ScopeAt(block, parameters, i), env, f)
    ensures !NeverEscapes(block, parameters)
  {
    hide ScopeAt, HasSource, AllRealized, NeverEscapes, Computes, CommandMayPoint, Transfers;
    var c, scope := block[i], ScopeAt(block, parameters, i);
    assert InFragment(c);
    if IsReturn(c) && c.values != [] && MayContainLocal(c.values[0], scope, env, f) != Some(false) {
      ReturnOperand(c);
      assert InStorage(c.values[0], scope, f.storage);
      ReturnEscapes(block, parameters, f.storage, i);
    } else {
      FragmentTarget(c);
      var may := CommandMayPoint(c, scope, env, f);
      assert may != Some(false);
      assert !may.value ==> may == Some(false);
      assert may == Some(true);
      MayPointHasSource(c, scope, env, f);
      SourceHasValues(c, scope, f.storage);
      GlobalEscapes(block, parameters, f.storage, i);
    }
  }

  lemma FragmentTarget(c: Command)
    requires InFragment(c) && c.target.RegisterTarget?
    ensures Computes(c) && c.target.register.accessors == []
  {
  }

  lemma SourceHasValues(c: Command, scope: Scope, names: set<string>)
    requires HasSource(c, scope, names)
    ensures c.values != []
  {
  }

  /** No false alarms: a block of the fragment that lets no address out is accepted. */
  lemma NoFalseAlarm(block: seq<Command>, parameters: Scope, env: Environment, n: nat)
    requires ScalarBlock(block, parameters) && Passes(block, parameters, env, n).Some?
    requires Typed(block, parameters, env, Passes(block, parameters, env, n).value)
    requires NeverEscapes(block, parameters)
    ensures BlockChecked(block, parameters, env, Passes(block, parameters, env, n).value)
  {
    hide Passes, ScalarBlock, NeverEscapes, EscapeChecked, AllRealized, CommandMayPoint;
    var f := Passes(block, parameters, env, n).value;
    FactsRealized(block, parameters, env, n);
    forall i | 0 <= i < |block|
      ensures EscapeChecked(block[i], ScopeAt(block, parameters, i), env, f)
    {
      if !EscapeChecked(block[i], ScopeAt(block, parameters, i), env, f) {
        FailedCheckEscapes(block, parameters, env, f, i);
      }
    }
  }

  /** Closure, then checks: the order validation works in. What an accepted block lets out is not decided by the
      verdict alone; the locals that addresses reach decide it. */
  method ValidateAliases(block: seq<Command>, parameters: Scope, env: Environment)
    returns (accepted: bool, ghost passes: nat)
    ensures var facts := Passes(block, parameters, env, passes);
      && (facts.Some? ==> ClosedBlock(block, parameters, env, facts.value))
      && (accepted <==> facts.Some? && BlockChecked(block, parameters, env, facts.value))
      && (accepted && ScalarBlock(block, parameters) ==>
            && (NeverEscapes(block, parameters)
                <==> AllKeptInside(block, parameters, Reached(Addresses, block, parameters)))
            && (DifferencesTracked(block, parameters, env, facts.value) ==> NeverEscapes(block, parameters)))
  {
    hide Sound, DifferencesTracked, ScalarBlock, ClosedBlock, BlockChecked, Passes, AllKeptInside, Reached;
    var facts;
    facts, passes := ComputeClosure(block, parameters, env);
    if facts.None? {
      return false, passes;
    }
    var after;
    accepted, after := CheckBlock(block, parameters, env, facts.value);
    if accepted && ScalarBlock(block, parameters) {
      EscapesExactly(block, parameters);
      if DifferencesTracked(block, parameters, env, facts.value) {
        forall path: seq<nat> | IsPath(block, path)
          ensures NothingEscapes(block, parameters, path)
        {
          AcceptedNeverLeaks(block, parameters, env, facts.value, path);
        }
      }
    }
  }
}
