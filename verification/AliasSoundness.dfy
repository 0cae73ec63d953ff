/** No address of local storage leaves a block that validation accepts, unless a difference of pointers carries it. */
module AliasSoundness {
  import opened Wrappers
  import opened Ast
  import opened Typing
  import opened AliasRules
  import opened AliasAnalysis

  // ---- The checks made after the closure ----

  predicate IsReturn(c: Command) {
    c.instruction.Some? && c.instruction.value.name == "ret"
  }

  predicate EscapeChecked(c: Command, scope: Scope, env: Environment, f: Facts) {
    && (IsReturn(c) && c.values != [] ==> MayContainLocal(c.values[0], scope, env, f) == Some(false))
    && (c.target.RegisterTarget? && c.declared.None? && c.target.register.name !in scope
        ==> CommandMayPoint(c, scope, env, f) == Some(false))
    && (c.target.RegisterTarget? && c.target.register.accessors != []
        ==> CommandMayPoint(c, scope, env, f) == Some(false)
            || (CommandMayPoint(c, scope, env, f) == Some(true) && TargetIsLocalStorage(c.target.register, scope, f)))
  }

  ghost predicate BlockChecked(block: seq<Command>, parameters: Scope, env: Environment, f: Facts) {
    forall i :: 0 <= i < |block| ==> EscapeChecked(block[i], ScopeAt(block, parameters, i), env, f)
  }

  lemma ImmutableAlready(c: Command, scope: Scope, env: Environment, f: Facts)
    requires Closed(c, scope, env, f) && AssignsLocal(c, scope) && CommandMayNameImmutable(c, scope, env, f)
    ensures c.target.register.name in f.immutable
  {
    hide CommandMayNameImmutable, CommandMayPoint, StoreClosed, CopyClosed, LoadClosed, FieldClosed,
         RefersToAggregate, ReferencedSlot, InitializerMayContain;
  }

  /** The second walk over the block. It too records immutable aliases, but the closure left it none to add. */
  method CheckBlock(block: seq<Command>, parameters: Scope, env: Environment, f: Facts)
    returns (accepted: bool, after: Facts)
    requires ClosedBlock(block, parameters, env, f)
    ensures accepted <==> BlockChecked(block, parameters, env, f)
    ensures after == f
  {
    hide EscapeChecked, CommandMayNameImmutable, Closed;
    after := f;
    var locals := parameters;
    for i := 0 to |block|
      invariant locals == ScopeAt(block, parameters, i) && after == f
      invariant forall k :: 0 <= k < i ==> EscapeChecked(block[k], ScopeAt(block, parameters, k), env, f)
    {
      var c := block[i];
      if !EscapeChecked(c, locals, env, after) {
        return false, after;
      }
      if AssignsLocal(c, locals) && CommandMayNameImmutable(c, locals, env, after) {
        ImmutableAlready(c, locals, env, f);
        var immutable, inserted := Insert(after.immutable, c.target.register.name);
        after := after.(immutable := immutable);
      }
      locals := Declared(locals, c);
    }
    accepted := true;
  }

  // ---- Where the values of a running block come from ----

  /** Local storage: the slot of a local, or the backing of the array literal in a command. */
  datatype Origin = Slot(name: string) | Backing(index: nat)

  /** For each variable, the local storage its current value is an address into. Absent means none. */
  datatype State = State(locals: map<string, set<Origin>>, globals: map<string, set<Origin>>)

  /** Parameters come from the caller and every other local starts at zero. */
  const ENTRY := State(map[], map[])

  function Origins(m: map<string, set<Origin>>, name: string): set<Origin> {
    if name in m then m[name] else {}
  }

  function OperandOrigins(v: Value, scope: Scope, s: State): set<Origin> {
    if !v.Named? then {}
    else if v.register.name in scope then Origins(s.locals, v.register.name)
    else Origins(s.globals, v.register.name)
  }

  function AllOrigins(values: seq<Value>, scope: Scope, s: State): set<Origin> {
    if values == [] then {} else OperandOrigins(values[0], scope, s) + AllOrigins(values[1..], scope, s)
  }

  /** A reference is an address, casts and arithmetic keep the origins of their operands, and comparisons
      are plain truth values. */
  function ResultOrigins(c: Command, i: nat, scope: Scope, s: State): set<Origin>
    requires c.values != []
  {
    if c.instruction.None? then
      if c.values[0].Array? then {Backing(i)} else OperandOrigins(c.values[0], scope, s)
    else if IsRef(c.instruction.value.name) then
      if c.values[0].Named? && c.values[0].register.name in scope then {Slot(c.values[0].register.name)} else {}
    else if !CarriesBits(c.instruction.value.name) then {}
    else AllOrigins(c.values, scope, s)
  }

  /** Executing command i. A declaration without an initializer leaves its slot alone. */
  function Step(c: Command, i: nat, scope: Scope, s: State): State {
    if !c.target.RegisterTarget? || c.values == [] then s
    else
      var origins := ResultOrigins(c, i, scope, s);
      if AssignsLocal(c, scope) then s.(locals := s.locals[c.target.register.name := origins])
      else s.(globals := s.globals[c.target.register.name := origins])
  }

  ghost predicate IsPath(block: seq<Command>, path: seq<nat>) {
    forall k :: 0 <= k < |path| ==> path[k] < |block|
  }

  /** The state after executing the commands of a path, in any order that jumps might produce. */
  ghost function Run(block: seq<Command>, parameters: Scope, path: seq<nat>): State
    requires IsPath(block, path)
  {
    if path == [] then ENTRY
    else
      var last := path[|path| - 1];
      Step(block[last], last, ScopeAt(block, parameters, last), Run(block, parameters, path[..|path| - 1]))
  }

  // ---- The fragment ----

  predicate Simple(v: Value) {
    IsPlain(v) || !(v.Named? || v.Array? || v.Special?)
  }

  predicate Compares(name: string) {
    name in ["eq", "neq", "gt", "lt", "gte", "lte", "land", "lor", "lnot"]
  }

  predicate Computes(c: Command) {
    && c.target.RegisterTarget? && c.target.register.accessors == []
    && (c.declared.Some? ==> TracksAddressBits(c.declared.value))
    && (if c.instruction.None? then |c.values| <= 1 && (forall v <- c.values :: Simple(v) || v.Array?)
        else c.values != [] && (forall v <- c.values :: Simple(v))
             && var name := c.instruction.value.name;
                (IsRef(name) && c.values[0].Named?) || CarriesBits(name) || Compares(name))
  }

  predicate Transfers(name: string) {
    name in ["label", "jmp", "cjmp", "ret"]
  }

  /** Scalar locals, un-indexed references, casts, arithmetic and comparisons, jumps and returns. */
  predicate InFragment(c: Command) {
    if c.target.RegisterTarget? then Computes(c)
    else
      && c.target.NoTarget? && c.declared.None? && (forall v <- c.values :: Simple(v))
      && (c.instruction.Some? ==> Transfers(c.instruction.value.name))
  }

  predicate ScalarBlock(block: seq<Command>, parameters: Scope) {
    && (forall name :: name in parameters ==> TracksAddressBits(parameters[name]))
    && (forall i :: 0 <= i < |block| ==> InFragment(block[i]))
  }

  lemma {:induction false} ScopeTracks(block: seq<Command>, parameters: Scope, i: nat)
    requires i <= |block| && ScalarBlock(block, parameters)
    ensures forall name :: name in ScopeAt(block, parameters, i) ==>
      TracksAddressBits(ScopeAt(block, parameters, i)[name])
  {
    hide TracksAddressBits, Compares, CarriesBits;
    if i > 0 {
      ScopeTracks(block, parameters, i - 1);
      assert InFragment(block[i - 1]);
    }
  }

  // ---- Soundness ----

  /** Every local that holds a local address is known to, and no global holds one. */
  ghost predicate Safe(s: State, f: Facts) {
    && (forall n :: n in s.locals && s.locals[n] != {} ==> n in f.storage)
    && (forall n :: n in s.globals ==> s.globals[n] == {})
  }

  lemma OperandCovered(v: Value, scope: Scope, env: Environment, f: Facts, s: State)
    requires Safe(s, f) && (Simple(v) || v.Array?)
    ensures MayContainLocal(v, scope, env, f).Some?
    ensures OperandOrigins(v, scope, s) != {} ==> MayContainLocal(v, scope, env, f) == Some(true)
  {
  }

  lemma {:induction false} OperandsCovered(values: seq<Value>, scope: Scope, env: Environment, f: Facts, s: State)
    requires Safe(s, f) && (forall v <- values :: Simple(v))
    ensures AllOrigins(values, scope, s) != {} ==> AnyMayContain(values, scope, env, f) == Some(true)
  {
    hide MayContainLocal, Safe, Simple, OperandOrigins;
    if values != [] {
      assert values[0] in values;
      OperandCovered(values[0], scope, env, f, s);
      OperandsCovered(values[1..], scope, env, f, s);
    }
  }

  lemma NamesApart(name: string)
    ensures CarriesBits(name) ==> !IsRef(name) && !Loads(name)
  {
  }

  predicate IsDifference(c: Command, scope: Scope, env: Environment) {
    c.instruction.Some? && IsSub(c.instruction.value.name) && DifferenceOfPointers(c, scope, env) == Some(true)
  }

  /** The analysis takes a difference of pointers for a plain number. It is right to do so, or it loses
      nothing, when the operands hold no local address or the result goes to a local already tracked. */
  predicate DifferenceTracked(c: Command, scope: Scope, env: Environment, f: Facts) {
    c.target.RegisterTarget? && IsDifference(c, scope, env) && AnyMayContain(c.values, scope, env, f) == Some(true) ==>
      AssignsLocal(c, scope) && c.target.register.name in f.storage
  }

  ghost predicate DifferencesTracked(block: seq<Command>, parameters: Scope, env: Environment, f: Facts) {
    forall i :: 0 <= i < |block| ==> DifferenceTracked(block[i], ScopeAt(block, parameters, i), env, f)
  }

  /** The analysis sees every command whose result is a local address, except differences of pointers. */
  lemma ResultCovered(c: Command, i: nat, scope: Scope, env: Environment, f: Facts, s: State)
    requires Computes(c) && c.values != [] && Safe(s, f)
    requires ResultOrigins(c, i, scope, s) != {}
    ensures CommandMayPoint(c, scope, env, f) != Some(false)
         || (IsDifference(c, scope, env) && AnyMayContain(c.values, scope, env, f) == Some(true))
  {
    hide MayContainLocal, Safe, OperandOrigins, CarriesBits, DifferenceOfPointers, LoadMayPoint, TracksAddressBits,
         Compares,
         IsRef, Loads;
    assert c.values[0] in c.values;
    if c.instruction.None? {
      OperandCovered(c.values[0], scope, env, f, s);
    } else {
      NamesApart(c.instruction.value.name);
      if IsRef(c.instruction.value.name) && c.values[0].Named? {
        assert Simple(c.values[0]);
      } else {
        OperandsCovered(c.values, scope, env, f, s);
      }
    }
  }

  lemma StepSafe(c: Command, i: nat, scope: Scope, env: Environment, f: Facts, s: State)
    requires Safe(s, f) && InFragment(c) && DifferenceTracked(c, scope, env, f)
    requires Closed(c, scope, env, f) && EscapeChecked(c, scope, env, f)
    requires forall name :: name in scope ==> TracksAddressBits(scope[name])
    ensures Safe(Step(c, i, scope, s), f)
  {
    hide ResultOrigins, CommandMayPoint, TracksAddressBits, MayContainLocal, CommandMayNameImmutable,
         InitializerMayContain,
         SomeNamedIn, RefersToAggregate, PreservesSlot, ReferencedSlot, StoreClosed, CopyClosed, FieldClosed,
         LoadClosed,
         TargetIsLocalStorage, Compares, CarriesBits, Transfers, IsDifference, AnyMayContain;
    if c.target.RegisterTarget? && c.values != [] && ResultOrigins(c, i, scope, s) != {} {
      ResultCovered(c, i, scope, env, f, s);
    }
  }

  lemma {:induction false} RunSafe(
      block: seq<Command>, parameters: Scope, env: Environment, f: Facts, path: seq<nat>)
    requires ScalarBlock(block, parameters) && IsPath(block, path) && DifferencesTracked(block, parameters, env, f)
    requires ClosedBlock(block, parameters, env, f) && BlockChecked(block, parameters, env, f)
    ensures Safe(Run(block, parameters, path), f)
  {
    hide Step, InFragment, Closed, EscapeChecked, TracksAddressBits, DifferenceTracked;
    if path != [] {
      var last := path[|path| - 1];
      RunSafe(block, parameters, env, f, path[..|path| - 1]);
      ScopeTracks(block, parameters, last);
      StepSafe(block[last], last, ScopeAt(block, parameters, last), env, f,
        Run(block, parameters, path[..|path| - 1]));
    } else {
      assert Safe(ENTRY, f);
    }
  }

  /** What a caller may observe after a path: globals, and the operand of a return reached next. */
  ghost predicate NothingEscapes(block: seq<Command>, parameters: Scope, path: seq<nat>)
    requires IsPath(block, path)
  {
    var s := Run(block, parameters, path);
    && (forall n :: Origins(s.globals, n) == {})
    && (forall i :: 0 <= i < |block| && IsReturn(block[i]) && block[i].values != [] ==>
          OperandOrigins(block[i].values[0], ScopeAt(block, parameters, i), s) == {})
  }

  /** With its differences tracked, an accepted block keeps local addresses to itself along every path. */
  lemma AcceptedNeverLeaks(
      block: seq<Command>, parameters: Scope, env: Environment, f: Facts, path: seq<nat>)
    requires ScalarBlock(block, parameters) && IsPath(block, path) && DifferencesTracked(block, parameters, env, f)
    requires ClosedBlock(block, parameters, env, f) && BlockChecked(block, parameters, env, f)
    ensures NothingEscapes(block, parameters, path)
    ensures Safe(Run(block, parameters, path), f)
  {
    hide Run, InFragment, CommandMayPoint, MayContainLocal, ClosedBlock, DifferencesTracked;
    RunSafe(block, parameters, env, f, path);
    var s := Run(block, parameters, path);
    forall i | 0 <= i < |block| && IsReturn(block[i]) && block[i].values != []
      ensures OperandOrigins(block[i].values[0], ScopeAt(block, parameters, i), s) == {}
    {
      var v := block[i].values[0];
      assert v in block[i].values && InFragment(block[i]);
      ReturnOperand(block[i]);
      OperandCovered(v, ScopeAt(block, parameters, i), env, f, s);
      assert EscapeChecked(block[i], ScopeAt(block, parameters, i), env, f);
    }
  }

  lemma ReturnOperand(c: Command)
    requires InFragment(c) && c.values != []
    ensures Simple(c.values[0]) || c.values[0].Array?
  {
    hide TracksAddressBits, CarriesBits, Compares, Simple;
    assert c.values[0] in c.values;
  }
}
