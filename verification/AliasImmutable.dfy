/** Which locals may hold an address of string or constant array storage, and when the analysis knows them all. */
module AliasImmutable {
  import opened Wrappers
  import opened Ast
  import opened Typing
  import opened AliasRules
  import opened AliasAnalysis
  import opened AliasSoundness
  import opened AliasExactness
  import opened AliasEscape

  // ---- Where such addresses come from ----

  /** The variables that hold an address derived from storage that must not change. */
  datatype Holders = Holders(locals: set<string>, globals: set<string>)

  const NOBODY := Holders({}, {})

  /** Instructions whose result derives from what an operand derives from. */
  predicate Forwards(name: string) {
    name == "ptrcast" || name == "ptrtoint" || name == "inttoptr" || name == "add" || name == "ref"
  }

  /** A string literal, a global initialized with a string or an array, or a variable that holds such an address. */
  predicate Derives(v: Value, scope: Scope, env: Environment, h: Holders) {
    match v
    case Text(_) => true
    case Named(reg) =>
      if reg.name in scope then reg.name in h.locals else reg.name in env.immutableBacking || reg.name in h.globals
    case _ => false
  }

  predicate ResultDerives(c: Command, scope: Scope, env: Environment, h: Holders) {
    if c.instruction.None? then c.values != [] && Derives(c.values[0], scope, env, h)
    else
      Forwards(c.instruction.value.name) && exists k :: 0 <= k < |c.values| && Derives(c.values[k], scope, env, h)
  }

  function Put(names: set<string>, name: string, present: bool): set<string> {
    if present then names + {name} else names - {name}
  }

  function Hold(c: Command, scope: Scope, env: Environment, h: Holders): Holders {
    if !c.target.RegisterTarget? || c.values == [] then h
    else
      var derives := ResultDerives(c, scope, env, h);
      if AssignsLocal(c, scope) then h.(locals := Put(h.locals, c.target.register.name, derives))
      else h.(globals := Put(h.globals, c.target.register.name, derives))
  }

  /** Who holds such an address after a path, in any order that jumps might produce. */
  ghost function HoldersAfter(block: seq<Command>, parameters: Scope, env: Environment, path: seq<nat>): Holders
    requires IsPath(block, path)
  {
    if path == [] then NOBODY
    else
      var last := path[|path| - 1];
      Hold(block[last], ScopeAt(block, parameters, last), env,
           HoldersAfter(block, parameters, env, path[..|path| - 1]))
  }

  lemma OneMoreHold(block: seq<Command>, parameters: Scope, env: Environment, path: seq<nat>, i: nat)
    requires IsPath(block, path) && i < |block|
    ensures IsPath(block, path + [i])
    ensures HoldersAfter(block, parameters, env, path + [i])
         == Hold(block[i], ScopeAt(block, parameters, i), env, HoldersAfter(block, parameters, env, path))
  {
    hide Hold;
    assert (path + [i])[..|path + [i]| - 1] == path;
  }

  // ---- Who may come to hold one ----

  predicate Inside(h: Holders, more: Holders) {
    h.locals <= more.locals && h.globals <= more.globals
  }

  lemma MoreDerives(c: Command, scope: Scope, env: Environment, h: Holders, more: Holders)
    requires Inside(h, more) && ResultDerives(c, scope, env, h)
    ensures ResultDerives(c, scope, env, more)
  {
    hide Forwards;
    if c.instruction.Some? {
      var k :| 0 <= k < |c.values| && Derives(c.values[k], scope, env, h);
      assert Derives(c.values[k], scope, env, more);
    }
  }

  function Filled(block: seq<Command>, parameters: Scope, env: Environment, h: Holders, local: bool): set<string> {
    set i | 0 <= i < |block| && block[i].target.RegisterTarget? && block[i].values != []
            && AssignsLocal(block[i], ScopeAt(block, parameters, i)) == local
            && ResultDerives(block[i], ScopeAt(block, parameters, i), env, h) :: block[i].target.register.name
  }

  /** The holders and whoever one more pass over the block fills. */
  function Wider(block: seq<Command>, parameters: Scope, env: Environment, h: Holders): Holders {
    Holders(h.locals + Filled(block, parameters, env, h, true), h.globals + Filled(block, parameters, env, h, false))
  }

  function Missing(block: seq<Command>, h: Holders): nat {
    |Targets(block) - h.locals| + |Targets(block) - h.globals|
  }

  lemma WiderMissesFewer(block: seq<Command>, parameters: Scope, env: Environment, h: Holders)
    requires Wider(block, parameters, env, h) != h
    ensures Missing(block, Wider(block, parameters, env, h)) < Missing(block, h)
  {
    hide ScopeAt, ResultDerives;
    var w := Wider(block, parameters, env, h);
    var locals, globals := Filled(block, parameters, env, h, true), Filled(block, parameters, env, h, false);
    assert locals <= Targets(block) && globals <= Targets(block);
    SubsetSize(Targets(block) - w.locals, Targets(block) - h.locals);
    SubsetSize(Targets(block) - w.globals, Targets(block) - h.globals);
    if w.locals != h.locals {
      FedFewer(block, h.locals, locals);
    } else {
      FedFewer(block, h.globals, globals);
    }
  }

  /** Everyone who may come to hold such an address, computed from the text. */
  function Spread(block: seq<Command>, parameters: Scope, env: Environment, h: Holders): Holders
    decreases Missing(block, h)
  {
    var w := Wider(block, parameters, env, h);
    if w == h then h
    else
      WiderMissesFewer(block, parameters, env, h);
      Spread(block, parameters, env, w)
  }

  /** Whoever is filled is among the holders. */
  ghost predicate Stable(block: seq<Command>, parameters: Scope, env: Environment, h: Holders) {
    forall i | 0 <= i < |block| && block[i].target.RegisterTarget? && block[i].values != []
               && ResultDerives(block[i], ScopeAt(block, parameters, i), env, h) ::
      var name := block[i].target.register.name;
      if AssignsLocal(block[i], ScopeAt(block, parameters, i)) then name in h.locals else name in h.globals
  }

  lemma {:induction false} SpreadIsStable(block: seq<Command>, parameters: Scope, env: Environment, h: Holders)
    ensures Stable(block, parameters, env, Spread(block, parameters, env, h))
    decreases Missing(block, h)
  {
    hide ScopeAt, ResultDerives, AssignsLocal;
    var w := Wider(block, parameters, env, h);
    if w == h {
      forall i | 0 <= i < |block| && block[i].target.RegisterTarget? && block[i].values != []
                 && ResultDerives(block[i], ScopeAt(block, parameters, i), env, h)
        ensures var name := block[i].target.register.name;
          if AssignsLocal(block[i], ScopeAt(block, parameters, i)) then name in h.locals else name in h.globals
      {
        var name := block[i].target.register.name;
        if AssignsLocal(block[i], ScopeAt(block, parameters, i)) {
          assert name in Filled(block, parameters, env, h, true) && w.locals == h.locals;
        } else {
          assert name in Filled(block, parameters, env, h, false) && w.globals == h.globals;
        }
      }
    } else {
      WiderMissesFewer(block, parameters, env, h);
      SpreadIsStable(block, parameters, env, w);
    }
  }

  lemma {:induction false} SpreadIsLeast(
      block: seq<Command>, parameters: Scope, env: Environment, h: Holders, stable: Holders)
    requires Inside(h, stable) && Stable(block, parameters, env, stable)
    ensures Inside(Spread(block, parameters, env, h), stable)
    decreases Missing(block, h)
  {
    hide ScopeAt, ResultDerives, AssignsLocal;
    var w := Wider(block, parameters, env, h);
    if w != h {
      WiderMissesFewer(block, parameters, env, h);
      forall i | 0 <= i < |block| && block[i].target.RegisterTarget? && block[i].values != []
                 && ResultDerives(block[i], ScopeAt(block, parameters, i), env, h)
        ensures ResultDerives(block[i], ScopeAt(block, parameters, i), env, stable)
      {
        MoreDerives(block[i], ScopeAt(block, parameters, i), env, h, stable);
      }
      assert Inside(w, stable);
      SpreadIsLeast(block, parameters, env, w, stable);
    }
  }

  lemma {:induction false} HoldersStayInside(
      block: seq<Command>, parameters: Scope, env: Environment, stable: Holders, path: seq<nat>)
    requires IsPath(block, path) && Stable(block, parameters, env, stable)
    ensures Inside(HoldersAfter(block, parameters, env, path), stable)
    decreases path
  {
    hide ScopeAt, ResultDerives, AssignsLocal;
    if path != [] {
      var last, init := path[|path| - 1], path[..|path| - 1];
      HoldersStayInside(block, parameters, env, stable, init);
      var h := HoldersAfter(block, parameters, env, init);
      if ResultDerives(block[last], ScopeAt(block, parameters, last), env, h) {
        MoreDerives(block[last], ScopeAt(block, parameters, last), env, h, stable);
      }
    }
  }

  // ---- Everyone in the spread does hold one along some path ----

  ghost predicate Held(block: seq<Command>, parameters: Scope, env: Environment, name: string, local: bool) {
    exists path: seq<nat> :: IsPath(block, path)
      && var h := HoldersAfter(block, parameters, env, path); name in if local then h.locals else h.globals
  }

  ghost predicate AllHeld(block: seq<Command>, parameters: Scope, env: Environment, h: Holders) {
    && (forall n :: n in h.locals ==> Held(block, parameters, env, n, true))
    && (forall n :: n in h.globals ==> Held(block, parameters, env, n, false))
  }

  lemma OperandHeld(block: seq<Command>, parameters: Scope, env: Environment, v: Value, scope: Scope, h: Holders)
    returns (path: seq<nat>)
    requires AllHeld(block, parameters, env, h) && Derives(v, scope, env, h)
    ensures IsPath(block, path) && Derives(v, scope, env, HoldersAfter(block, parameters, env, path))
  {
    hide HoldersAfter;
    path := [];
    if v.Named? && v.register.name in scope {
      assert Held(block, parameters, env, v.register.name, true);
      path :| IsPath(block, path) && v.register.name in HoldersAfter(block, parameters, env, path).locals;
    } else if v.Named? && v.register.name !in env.immutableBacking {
      assert Held(block, parameters, env, v.register.name, false);
      path :| IsPath(block, path) && v.register.name in HoldersAfter(block, parameters, env, path).globals;
    }
  }

  lemma TargetHeld(block: seq<Command>, parameters: Scope, env: Environment, i: nat, h: Holders)
    requires i < |block| && AllHeld(block, parameters, env, h)
    requires block[i].target.RegisterTarget? && block[i].values != []
    requires ResultDerives(block[i], ScopeAt(block, parameters, i), env, h)
    ensures Held(block, parameters, env, block[i].target.register.name,
                 AssignsLocal(block[i], ScopeAt(block, parameters, i)))
  {
    hide ScopeAt, AllHeld, Forwards, Derives, HoldersAfter, AssignsLocal;
    var c, scope := block[i], ScopeAt(block, parameters, i);
    var k :| 0 <= k < |c.values| && Derives(c.values[k], scope, env, h) && (c.instruction.None? ==> k == 0);
    var path := OperandHeld(block, parameters, env, c.values[k], scope, h);
    OneMoreHold(block, parameters, env, path, i);
    var after := HoldersAfter(block, parameters, env, path + [i]);
    assert c.target.register.name in if AssignsLocal(c, scope) then after.locals else after.globals;
  }

  lemma {:induction false} SpreadIsHeld(block: seq<Command>, parameters: Scope, env: Environment, h: Holders)
    requires AllHeld(block, parameters, env, h)
    ensures AllHeld(block, parameters, env, Spread(block, parameters, env, h))
    decreases Missing(block, h)
  {
    hide ScopeAt, ResultDerives, AssignsLocal, Held;
    var w := Wider(block, parameters, env, h);
    if w != h {
      WiderMissesFewer(block, parameters, env, h);
      forall i | 0 <= i < |block| && block[i].target.RegisterTarget? && block[i].values != []
                 && ResultDerives(block[i], ScopeAt(block, parameters, i), env, h)
        ensures Held(block, parameters, env, block[i].target.register.name,
                     AssignsLocal(block[i], ScopeAt(block, parameters, i)))
      {
        TargetHeld(block, parameters, env, i, h);
      }
      SpreadIsHeld(block, parameters, env, w);
    }
  }

  // ---- What the analysis knows ----

  /** Along every path the facts name every local that holds such an address. */
  ghost predicate Known(block: seq<Command>, parameters: Scope, env: Environment, f: Facts) {
    forall path: seq<nat> | IsPath(block, path) ::
      HoldersAfter(block, parameters, env, path).locals <= f.immutable
  }

  /** Whoever takes such an address out of a global is known. */
  ghost predicate GlobalsKnown(block: seq<Command>, parameters: Scope, env: Environment, f: Facts) {
    var globals := Spread(block, parameters, env, NOBODY).globals;
    forall i | 0 <= i < |block| && AssignsLocal(block[i], ScopeAt(block, parameters, i))
               && ResultDerives(block[i], ScopeAt(block, parameters, i), env, Holders({}, globals)) ::
      block[i].target.register.name in f.immutable
  }

  lemma OperandNamed(v: Value, scope: Scope, env: Environment, f: Facts)
    requires (Simple(v) || v.Array?) && Derives(v, scope, env, Holders(f.immutable, {}))
    ensures MayNameImmutable(v, scope, env, f)
  {
  }

  /** On the fragment the closed facts name the target of every command that takes such an address from a string,
      a constant or a known local. */
  lemma ClosedKnows(c: Command, scope: Scope, env: Environment, f: Facts)
    requires Computes(c) && AssignsLocal(c, scope) && Closed(c, scope, env, f)
    requires ResultDerives(c, scope, env, Holders(f.immutable, {}))
    ensures c.target.register.name in f.immutable
  {
    hide StoreClosed, CopyClosed, LoadClosed, FieldClosed, CommandMayPoint, InitializerMayContain, SomeNamedIn,
         RefersToAggregate, PreservesSlot, ReferencedSlot, TracksAddressBits, CarriesBits, Compares, Simple, Derives,
         MayNameImmutable;
    var h := Holders(f.immutable, {});
    var k :| 0 <= k < |c.values| && Derives(c.values[k], scope, env, h) && (c.instruction.None? ==> k == 0);
    assert c.values[k] in c.values;
    OperandNamed(c.values[k], scope, env, f);
    assert CommandMayNameImmutable(c, scope, env, f);
  }

  /** An operand derives through a known local or not at all. */
  lemma DerivesApart(c: Command, scope: Scope, env: Environment, locals: set<string>, globals: set<string>)
    requires ResultDerives(c, scope, env, Holders(locals, globals))
    ensures ResultDerives(c, scope, env, Holders(locals, {})) || ResultDerives(c, scope, env, Holders({}, globals))
  {
    hide Forwards;
    var h := Holders(locals, globals);
    var k :| 0 <= k < |c.values| && Derives(c.values[k], scope, env, h) && (c.instruction.None? ==> k == 0);
    assert Derives(c.values[k], scope, env, Holders(locals, {}))
        || Derives(c.values[k], scope, env, Holders({}, globals));
  }

  /** The known part of the spread is closed already. */
  lemma KnownPartStable(block: seq<Command>, parameters: Scope, env: Environment, f: Facts)
    requires ScalarBlock(block, parameters) && ClosedBlock(block, parameters, env, f)
    requires GlobalsKnown(block, parameters, env, f)
    ensures var h := Spread(block, parameters, env, NOBODY);
      Stable(block, parameters, env, Holders(h.locals * f.immutable, h.globals))
  {
    var h := Spread(block, parameters, env, NOBODY);
    var known := Holders(h.locals * f.immutable, h.globals);
    SpreadIsStable(block, parameters, env, NOBODY);
    hide ScopeAt, ResultDerives, Spread, Closed, Computes, Transfers;
    forall i | 0 <= i < |block| && block[i].target.RegisterTarget? && block[i].values != []
               && ResultDerives(block[i], ScopeAt(block, parameters, i), env, known)
      ensures var name := block[i].target.register.name;
        if AssignsLocal(block[i], ScopeAt(block, parameters, i)) then name in known.locals else name in known.globals
    {
      var c, scope := block[i], ScopeAt(block, parameters, i);
      MoreDerives(c, scope, env, known, h);
      if AssignsLocal(c, scope) {
        DerivesApart(c, scope, env, known.locals, known.globals);
        if ResultDerives(c, scope, env, Holders(known.locals, {})) {
          MoreDerives(c, scope, env, Holders(known.locals, {}), Holders(f.immutable, {}));
          assert InFragment(c) && Closed(c, scope, env, f);
          ClosedKnows(c, scope, env, f);
        }
      }
    }
  }

  /** For every block of the fragment with closed facts: along every path each local that holds an address of a
      string or of constant storage is in `immutable`, exactly when no local outside it takes one out of a global
      that was assigned one. */
  lemma ImmutableExactly(block: seq<Command>, parameters: Scope, env: Environment, f: Facts)
    requires ScalarBlock(block, parameters) && ClosedBlock(block, parameters, env, f)
    ensures Known(block, parameters, env, f) <==> GlobalsKnown(block, parameters, env, f)
  {
    var h := Spread(block, parameters, env, NOBODY);
    SpreadIsHeld(block, parameters, env, NOBODY);
    SpreadIsStable(block, parameters, env, NOBODY);
    hide ScopeAt, ResultDerives, Spread, HoldersAfter, ScalarBlock, ClosedBlock;
    if GlobalsKnown(block, parameters, env, f) {
      KnownPartStable(block, parameters, env, f);
      var known := Holders(h.locals * f.immutable, h.globals);
      forall path: seq<nat> | IsPath(block, path)
        ensures HoldersAfter(block, parameters, env, path).locals <= f.immutable
      {
        HoldersStayInside(block, parameters, env, known, path);
      }
    }
    if Known(block, parameters, env, f) {
      forall i | 0 <= i < |block| && AssignsLocal(block[i], ScopeAt(block, parameters, i))
                 && ResultDerives(block[i], ScopeAt(block, parameters, i), env, Holders({}, h.globals))
        ensures block[i].target.register.name in f.immutable
      {
        ResultHasValues(block[i], ScopeAt(block, parameters, i), env, Holders({}, h.globals));
        MoreDerives(block[i], ScopeAt(block, parameters, i), env, Holders({}, h.globals), h);
        assert Held(block, parameters, env, block[i].target.register.name, true);
      }
    }
  }

  lemma ResultHasValues(c: Command, scope: Scope, env: Environment, h: Holders)
    requires ResultDerives(c, scope, env, h)
    ensures c.values != []
  {
  }

  /** In particular when no global outside the constant ones is assigned such an address. */
  lemma NoGlobalNoLoss(block: seq<Command>, parameters: Scope, env: Environment, f: Facts)
    requires ScalarBlock(block, parameters) && ClosedBlock(block, parameters, env, f)
    requires Spread(block, parameters, env, NOBODY).globals <= env.immutableBacking
    ensures Known(block, parameters, env, f)
  {
    var globals := Spread(block, parameters, env, NOBODY).globals;
    hide ScopeAt, Spread, Known, Closed, Computes, Transfers, Forwards;
    forall i | 0 <= i < |block| && AssignsLocal(block[i], ScopeAt(block, parameters, i))
               && ResultDerives(block[i], ScopeAt(block, parameters, i), env, Holders({}, globals))
      ensures block[i].target.register.name in f.immutable
    {
      var c, scope := block[i], ScopeAt(block, parameters, i);
      var k :| 0 <= k < |c.values| && Derives(c.values[k], scope, env, Holders({}, globals))
               && (c.instruction.None? ==> k == 0);
      assert Derives(c.values[k], scope, env, Holders(f.immutable, {}));
      assert InFragment(c) && Closed(c, scope, env, f);
      ClosedKnows(c, scope, env, f);
    }
    ImmutableExactly(block, parameters, env, f);
  }

  // ---- A string that passes through a global ----

  const STRING_TYPE := Primitive("i8", 1)

  /** `g = "abc"; i8* t = g;` with a global `i8* g`. */
  const THROUGH_GLOBAL := [
    Command(false, None, RegisterTarget(Register("g", [])), None, [Text("abc")]),
    Command(false, Some(STRING_TYPE), RegisterTarget(Register("t", [])), None, [Named(Register("g", []))])]

  const ONE_GLOBAL := Environment(map["g" := STRING_TYPE], {}, {}, map[])

  lemma GlobalScopes()
    ensures ScopeAt(THROUGH_GLOBAL, map[], 0) == map[] && ScopeAt(THROUGH_GLOBAL, map[], 1) == map[]
  {
    assert ScopeAt(THROUGH_GLOBAL, map[], 0) == map[];
  }

  lemma GlobalPass()
    ensures PassTo(THROUGH_GLOBAL, map[], ONE_GLOBAL, NOTHING, 2) == Some(NOTHING)
  {
    GlobalScopes();
    hide ScopeAt, TracksAddressBits;
    assert PassTo(THROUGH_GLOBAL, map[], ONE_GLOBAL, NOTHING, 0) == Some(NOTHING);
    assert AfterCommand(THROUGH_GLOBAL[0], map[], ONE_GLOBAL, NOTHING) == Some(NOTHING);
    assert AfterCommand(THROUGH_GLOBAL[1], map[], ONE_GLOBAL, NOTHING) == Some(NOTHING);
    hide AfterCommand;
    assert PassTo(THROUGH_GLOBAL, map[], ONE_GLOBAL, NOTHING, 1) == Some(NOTHING);
  }

  /** The block is accepted, its closure knows no immutable alias, and yet t comes to hold the string. */
  lemma GlobalForgets()
    ensures ScalarBlock(THROUGH_GLOBAL, map[]) && Passes(THROUGH_GLOBAL, map[], ONE_GLOBAL, 1) == Some(NOTHING)
    ensures ClosedBlock(THROUGH_GLOBAL, map[], ONE_GLOBAL, NOTHING)
    ensures BlockChecked(THROUGH_GLOBAL, map[], ONE_GLOBAL, NOTHING)
    ensures IsPath(THROUGH_GLOBAL, [0, 1])
    ensures "t" in HoldersAfter(THROUGH_GLOBAL, map[], ONE_GLOBAL, [0, 1]).locals && "t" !in NOTHING.immutable
  {
    GlobalPass();
    assert Passes(THROUGH_GLOBAL, map[], ONE_GLOBAL, 0) == Some(NOTHING);
    PassFixedIsClosed(THROUGH_GLOBAL, map[], ONE_GLOBAL, NOTHING);
    hide PassTo, ClosedBlock;
    GlobalScopes();
    hide ScopeAt;
    assert [0, 1][..1] == [0] && [0][..0] == [];
    assert HoldersAfter(THROUGH_GLOBAL, map[], ONE_GLOBAL, []) == NOBODY;
    assert "g" in HoldersAfter(THROUGH_GLOBAL, map[], ONE_GLOBAL, [0]).globals;
  }
}
