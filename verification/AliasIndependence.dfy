/** Exactly which blocks show their caller where their locals are stored. */
module AliasIndependence {
  import opened Wrappers
  import opened Ast
  import opened Typing
  import opened AliasRules
  import opened AliasAnalysis
  import opened AliasSoundness
  import opened AliasExactness
  import opened AliasEscape

  // ---- Running a block on numbers ----

  /** Where a run puts local storage: the slot of each local, and the backing of each array literal. */
  datatype Placement = Placement(slot: string -> int, backing: nat -> int)

  /** Everything else a run may depend on. What each command computes from its operands, conversions included,
      and when it traps is left open. */
  datatype World = World(
    compute: (nat, seq<int>) -> int,
    traps: (nat, seq<int>) -> bool,
    literal: Value -> int,
    globalAddress: string -> int)

  datatype Memory = Memory(locals: map<string, int>, globals: map<string, int>)

  function Read(m: map<string, int>, name: string): int {
    if name in m then m[name] else 0
  }

  function OperandValue(v: Value, scope: Scope, w: World, m: Memory): int {
    if !v.Named? then w.literal(v)
    else if v.register.name in scope then Read(m.locals, v.register.name)
    else Read(m.globals, v.register.name)
  }

  function OperandValues(values: seq<Value>, scope: Scope, w: World, m: Memory): seq<int> {
    if values == [] then [] else [OperandValue(values[0], scope, w, m)] + OperandValues(values[1..], scope, w, m)
  }

  function ResultValue(c: Command, i: nat, scope: Scope, w: World, p: Placement, m: Memory): int
    requires c.values != []
  {
    if c.instruction.None? then
      if c.values[0].Array? then p.backing(i) else w.compute(i, [OperandValue(c.values[0], scope, w, m)])
    else if IsRef(c.instruction.value.name) && c.values[0].Named? then
      var name := c.values[0].register.name;
      if name in scope then p.slot(name) else w.globalAddress(name)
    else w.compute(i, OperandValues(c.values, scope, w, m))
  }

  function Execute(c: Command, i: nat, scope: Scope, w: World, p: Placement, m: Memory): Memory {
    if !c.target.RegisterTarget? || c.values == [] then m
    else
      var value := ResultValue(c, i, scope, w, p, m);
      if AssignsLocal(c, scope) then m.(locals := m.locals[c.target.register.name := value])
      else m.(globals := m.globals[c.target.register.name := value])
  }

  /** The memory after the commands of a path, in any order that jumps might produce. */
  ghost function RunFrom(block: seq<Command>, parameters: Scope, w: World, p: Placement, start: Memory, path: seq<nat>)
    : Memory
    requires IsPath(block, path)
    decreases path
  {
    if path == [] then start
    else
      var last := path[|path| - 1];
      var before := RunFrom(block, parameters, w, p, start, path[..|path| - 1]);
      Execute(block[last], last, ScopeAt(block, parameters, last), w, p, before)
  }

  lemma OneMoreExecution(block: seq<Command>, parameters: Scope, w: World, p: Placement, start: Memory, path: seq<nat>,
                         i: nat)
    requires IsPath(block, path) && i < |block|
    ensures IsPath(block, path + [i])
    ensures RunFrom(block, parameters, w, p, start, path + [i])
         == Execute(block[i], i, ScopeAt(block, parameters, i), w, p, RunFrom(block, parameters, w, p, start, path))
  {
    hide Execute;
    assert (path + [i])[..|path + [i]| - 1] == path;
  }

  // ---- What can be seen of a memory ----

  predicate Branches(c: Command) {
    c.instruction.Some? && c.instruction.value.name == "cjmp"
  }

  /** Instructions with a trap guard: division and shifts. */
  predicate Guarded(c: Command) {
    c.instruction.Some? && c.instruction.value.name in ["div", "mod", "lsh", "rsh"]
  }

  /** The command, reached with either memory, returns the same, jumps the same way and traps alike. */
  predicate SameAt(c: Command, i: nat, scope: Scope, w: World, a: Memory, b: Memory) {
    && (IsReturn(c) && c.values != [] ==>
          OperandValue(c.values[0], scope, w, a) == OperandValue(c.values[0], scope, w, b))
    && (Branches(c) && c.values != [] ==>
          (OperandValue(c.values[0], scope, w, a) != 0 <==> OperandValue(c.values[0], scope, w, b) != 0))
    && (Guarded(c) ==>
          (w.traps(i, OperandValues(c.values, scope, w, a)) <==> w.traps(i, OperandValues(c.values, scope, w, b))))
  }

  ghost predicate SameSeen(block: seq<Command>, parameters: Scope, w: World, a: Memory, b: Memory) {
    && a.globals == b.globals
    && (forall i :: 0 <= i < |block| ==> SameAt(block[i], i, ScopeAt(block, parameters, i), w, a, b))
  }

  /** In no world, along no path, does it show where local storage is. */
  ghost predicate Independent(block: seq<Command>, parameters: Scope) {
    forall w, p, q, start, path: seq<nat> | IsPath(block, path) ::
      SameSeen(block, parameters, w, RunFrom(block, parameters, w, p, start, path),
               RunFrom(block, parameters, w, q, start, path))
  }

  /** The command shows none of the given locals: it assigns no global from them, does not return them, and
      neither jumps nor traps by them. */
  predicate Hides(c: Command, scope: Scope, names: set<string>) {
    && (AssignsGlobal(c, scope) ==> !DependsOn(c, scope, names))
    && ((IsReturn(c) || Branches(c)) && c.values != [] ==> !InStorage(c.values[0], scope, names))
    && (Guarded(c) ==> !SomeInStorage(c.values, scope, names))
  }

  ghost predicate AllHidden(block: seq<Command>, parameters: Scope, names: set<string>) {
    forall i :: 0 <= i < |block| ==> Hides(block[i], ScopeAt(block, parameters, i), names)
  }

  // ---- Two placements, one path ----

  /** The two memories agree on globals and on every local outside the given ones. */
  ghost predicate Alike(a: Memory, b: Memory, names: set<string>) {
    && a.globals == b.globals
    && (forall n :: n !in names ==> Read(a.locals, n) == Read(b.locals, n))
  }

  lemma {:induction false} OperandsAlike(
      values: seq<Value>, scope: Scope, w: World, names: set<string>, a: Memory, b: Memory)
    requires Alike(a, b, names) && !SomeInStorage(values, scope, names)
    ensures OperandValues(values, scope, w, a) == OperandValues(values, scope, w, b)
  {
    if values != [] {
      assert !InStorage(values[0], scope, names);
      forall k | 0 <= k < |values[1..]|
        ensures !InStorage(values[1..][k], scope, names)
      {
        assert !InStorage(values[k + 1], scope, names);
      }
      OperandsAlike(values[1..], scope, w, names, a, b);
    }
  }

  lemma ResultAlike(c: Command, i: nat, scope: Scope, w: World, p: Placement, q: Placement, names: set<string>,
                    a: Memory, b: Memory)
    requires Computes(c) && c.values != [] && Alike(a, b, names) && !DependsOn(c, scope, names)
    ensures ResultValue(c, i, scope, w, p, a) == ResultValue(c, i, scope, w, q, b)
  {
    hide CarriesBits, Compares, IsRef, SomeInStorage, TracksAddressBits, Simple;
    if c.instruction.Some? {
      NoLoadComputes(c.instruction.value.name);
      if !IsRef(c.instruction.value.name) {
        OperandsAlike(c.values, scope, w, names, a, b);
      }
    }
  }

  lemma StepAlike(c: Command, i: nat, scope: Scope, w: World, p: Placement, q: Placement, names: set<string>,
                  a: Memory, b: Memory)
    requires Alike(a, b, names) && InFragment(c) && Hides(c, scope, names)
    requires AssignsLocal(c, scope) && DependsOn(c, scope, names) ==> c.target.register.name in names
    ensures Alike(Execute(c, i, scope, w, p, a), Execute(c, i, scope, w, q, b), names)
  {
    hide ResultValue, DependsOn, Computes, Transfers, Simple;
    if c.target.RegisterTarget? && c.values != [] && !DependsOn(c, scope, names) {
      ResultAlike(c, i, scope, w, p, q, names, a, b);
    }
  }

  lemma {:induction false} RunsAlike(
      block: seq<Command>, parameters: Scope, w: World, p: Placement, q: Placement, names: set<string>,
      start: Memory, path: seq<nat>)
    requires ScalarBlock(block, parameters) && IsPath(block, path)
    requires ClosedUnder(Numbers, block, parameters, names) && AllHidden(block, parameters, names)
    ensures Alike(RunFrom(block, parameters, w, p, start, path), RunFrom(block, parameters, w, q, start, path), names)
    decreases path
  {
    hide Execute, InFragment, TracksAddressBits, DependsOn, Hides;
    if path != [] {
      var last, init := path[|path| - 1], path[..|path| - 1];
      RunsAlike(block, parameters, w, p, q, names, start, init);
      StepAlike(block[last], last, ScopeAt(block, parameters, last), w, p, q, names,
        RunFrom(block, parameters, w, p, start, init), RunFrom(block, parameters, w, q, start, init));
    }
  }

  lemma HiddenIsSame(c: Command, i: nat, scope: Scope, w: World, names: set<string>, a: Memory, b: Memory)
    requires Alike(a, b, names) && Hides(c, scope, names)
    ensures SameAt(c, i, scope, w, a, b)
  {
    hide SomeInStorage, DependsOn;
    if Guarded(c) {
      OperandsAlike(c.values, scope, w, names, a, b);
    }
  }

  lemma HiddenNeverShows(block: seq<Command>, parameters: Scope, names: set<string>)
    requires ScalarBlock(block, parameters)
    requires ClosedUnder(Numbers, block, parameters, names) && AllHidden(block, parameters, names)
    ensures Independent(block, parameters)
  {
    hide RunFrom, InFragment, ClosedUnder, SameAt, Hides, ScopeAt;
    forall w, p, q, start, path: seq<nat> | IsPath(block, path)
      ensures SameSeen(block, parameters, w, RunFrom(block, parameters, w, p, start, path),
                       RunFrom(block, parameters, w, q, start, path))
    {
      RunsAlike(block, parameters, w, p, q, names, start, path);
      forall i | 0 <= i < |block|
        ensures SameAt(block[i], i, ScopeAt(block, parameters, i), w, RunFrom(block, parameters, w, p, start, path),
                       RunFrom(block, parameters, w, q, start, path))
      {
        HiddenIsSame(block[i], i, ScopeAt(block, parameters, i), w, names,
          RunFrom(block, parameters, w, p, start, path), RunFrom(block, parameters, w, q, start, path));
      }
    }
  }

  // ---- Whatever depends on a place can show it ----

  function Total(values: seq<int>): int {
    if values == [] then 0 else values[0] + Total(values[1..])
  }

  /** A world in which every result is the sum of its operands and guards trap on a positive sum, and two
      placements one apart. */
  const SUMS := World(
    (i: nat, values: seq<int>) => Total(values),
    (i: nat, values: seq<int>) => Total(values) > 0,
    (v: Value) => 0,
    (name: string) => 0)
  const LOW := Placement((name: string) => 0, (i: nat) => 0)
  const HIGH := Placement((name: string) => 1, (i: nat) => 1)
  const BLANK := Memory(map[], map[])

  /** With everything placed low all values are zero, and with everything high none is negative. */
  ghost predicate Apart(low: Memory, high: Memory) {
    && (forall n :: Read(low.locals, n) == 0 && Read(low.globals, n) == 0)
    && (forall n :: Read(high.locals, n) >= 0 && Read(high.globals, n) >= 0)
  }

  lemma {:induction false} TotalsApart(values: seq<Value>, scope: Scope, low: Memory, high: Memory)
    requires Apart(low, high)
    ensures Total(OperandValues(values, scope, SUMS, low)) == 0 <= Total(OperandValues(values, scope, SUMS, high))
    ensures forall k :: 0 <= k < |values| && OperandValue(values[k], scope, SUMS, high) > 0 ==>
      Total(OperandValues(values, scope, SUMS, high)) > 0
  {
    if values != [] {
      TotalsApart(values[1..], scope, low, high);
      forall k | 0 < k < |values| && OperandValue(values[k], scope, SUMS, high) > 0
        ensures Total(OperandValues(values, scope, SUMS, high)) > 0
      {
        assert values[1..][k - 1] == values[k];
      }
    }
  }

  lemma TotalOfOne()
    ensures forall x: int :: Total([x]) == x
  {
    forall x: int
      ensures Total([x]) == x
    {
      assert [x][1..] == [];
    }
  }

  lemma ResultsApart(c: Command, i: nat, scope: Scope, low: Memory, high: Memory)
    requires Apart(low, high) && c.values != []
    ensures ResultValue(c, i, scope, SUMS, LOW, low) == 0 <= ResultValue(c, i, scope, SUMS, HIGH, high)
  {
    TotalOfOne();
    hide IsRef, OperandValues, Total;
    TotalsApart(c.values, scope, low, high);
  }

  lemma StepApart(c: Command, i: nat, scope: Scope, low: Memory, high: Memory)
    requires Apart(low, high)
    ensures Apart(Execute(c, i, scope, SUMS, LOW, low), Execute(c, i, scope, SUMS, HIGH, high))
  {
    hide ResultValue, AssignsLocal;
    if c.target.RegisterTarget? && c.values != [] {
      ResultsApart(c, i, scope, low, high);
      var a, b := Execute(c, i, scope, SUMS, LOW, low), Execute(c, i, scope, SUMS, HIGH, high);
      forall n
        ensures Read(a.locals, n) == 0 && Read(a.globals, n) == 0
        ensures Read(b.locals, n) >= 0 && Read(b.globals, n) >= 0
      {
        assert Read(low.locals, n) == 0 && Read(low.globals, n) == 0;
        assert Read(high.locals, n) >= 0 && Read(high.globals, n) >= 0;
      }
    }
  }

  ghost function Low(block: seq<Command>, parameters: Scope, path: seq<nat>): Memory
    requires IsPath(block, path)
  {
    RunFrom(block, parameters, SUMS, LOW, BLANK, path)
  }

  ghost function High(block: seq<Command>, parameters: Scope, path: seq<nat>): Memory
    requires IsPath(block, path)
  {
    RunFrom(block, parameters, SUMS, HIGH, BLANK, path)
  }

  lemma {:induction false} RunsApart(block: seq<Command>, parameters: Scope, path: seq<nat>)
    requires IsPath(block, path)
    ensures Apart(Low(block, parameters, path), High(block, parameters, path))
    decreases path
  {
    hide Execute;
    if path != [] {
      var last, init := path[|path| - 1], path[..|path| - 1];
      RunsApart(block, parameters, init);
      hide Apart;
      StepApart(block[last], last, ScopeAt(block, parameters, last), Low(block, parameters, init),
        High(block, parameters, init));
    }
  }

  /** Along some path the local comes to differ between the two placements. */
  ghost predicate Marked(block: seq<Command>, parameters: Scope, name: string) {
    exists path: seq<nat> :: IsPath(block, path) && Read(High(block, parameters, path).locals, name) > 0
  }

  ghost predicate AllMarked(block: seq<Command>, parameters: Scope, names: set<string>) {
    forall n :: n in names ==> Marked(block, parameters, n)
  }

  lemma MarkedOperand(block: seq<Command>, parameters: Scope, v: Value, scope: Scope, names: set<string>)
    returns (path: seq<nat>)
    requires AllMarked(block, parameters, names) && InStorage(v, scope, names)
    ensures IsPath(block, path)
    ensures OperandValue(v, scope, SUMS, High(block, parameters, path)) > 0
    ensures OperandValue(v, scope, SUMS, Low(block, parameters, path)) == 0
  {
    hide RunFrom;
    assert Marked(block, parameters, v.register.name);
    path :| IsPath(block, path) && Read(High(block, parameters, path).locals, v.register.name) > 0;
    RunsApart(block, parameters, path);
  }

  lemma MarkedTotal(block: seq<Command>, parameters: Scope, values: seq<Value>, scope: Scope, names: set<string>)
    returns (path: seq<nat>)
    requires AllMarked(block, parameters, names) && SomeInStorage(values, scope, names)
    ensures IsPath(block, path)
    ensures Total(OperandValues(values, scope, SUMS, High(block, parameters, path))) > 0
    ensures Total(OperandValues(values, scope, SUMS, Low(block, parameters, path))) == 0
  {
    hide RunFrom, Total, OperandValues, OperandValue, AllMarked;
    var k :| 0 <= k < |values| && InStorage(values[k], scope, names);
    path := MarkedOperand(block, parameters, values[k], scope, names);
    RunsApart(block, parameters, path);
    TotalsApart(values, scope, Low(block, parameters, path), High(block, parameters, path));
  }

  /** A path after which a command that depends on a place has different results. */
  lemma DependencyMarks(block: seq<Command>, parameters: Scope, i: nat, names: set<string>) returns (path: seq<nat>)
    requires i < |block| && AllMarked(block, parameters, names)
    requires DependsOn(block[i], ScopeAt(block, parameters, i), names)
    ensures IsPath(block, path)
    ensures ResultValue(block[i], i, ScopeAt(block, parameters, i), SUMS, HIGH, High(block, parameters, path)) > 0
    ensures ResultValue(block[i], i, ScopeAt(block, parameters, i), SUMS, LOW, Low(block, parameters, path)) == 0
  {
    TotalOfOne();
    hide RunFrom, IsRef, Total, OperandValues, OperandValue, AllMarked, SomeInStorage;
    var c, scope := block[i], ScopeAt(block, parameters, i);
    hide ScopeAt;
    path := [];
    if c.instruction.None? {
      if !c.values[0].Array? {
        path := MarkedOperand(block, parameters, c.values[0], scope, names);
      }
    } else if !IsRef(c.instruction.value.name) {
      path := MarkedTotal(block, parameters, c.values, scope, names);
    }
  }

  lemma TargetMarked(block: seq<Command>, parameters: Scope, i: nat, names: set<string>)
    requires i < |block| && AllMarked(block, parameters, names)
    requires AssignsLocal(block[i], ScopeAt(block, parameters, i))
    requires DependsOn(block[i], ScopeAt(block, parameters, i), names)
    ensures Marked(block, parameters, block[i].target.register.name)
  {
    var path := DependencyMarks(block, parameters, i, names);
    hide RunFrom, ResultValue, ScopeAt;
    OneMoreExecution(block, parameters, SUMS, HIGH, BLANK, path, i);
    assert Read(High(block, parameters, path + [i]).locals, block[i].target.register.name) > 0;
  }

  lemma {:induction false} NumbersMarked(block: seq<Command>, parameters: Scope, names: set<string>)
    requires AllMarked(block, parameters, names)
    ensures AllMarked(block, parameters, Reaching(Numbers, block, parameters, names))
    decreases |Targets(block) - names|
  {
    hide Marked, DependsOn, ScopeAt;
    var more := Fed(Numbers, block, parameters, names);
    if names + more != names {
      FedFewer(block, names, more);
      forall i | 0 <= i < |block| && AssignsLocal(block[i], ScopeAt(block, parameters, i))
                 && DependsOn(block[i], ScopeAt(block, parameters, i), names)
        ensures Marked(block, parameters, block[i].target.register.name)
      {
        TargetMarked(block, parameters, i, names);
      }
      NumbersMarked(block, parameters, names + more);
    }
  }

  lemma Apply(block: seq<Command>, parameters: Scope, path: seq<nat>, i: nat)
    requires Independent(block, parameters) && IsPath(block, path) && i < |block|
    ensures Low(block, parameters, path).globals == High(block, parameters, path).globals
    ensures SameAt(block[i], i, ScopeAt(block, parameters, i), SUMS, Low(block, parameters, path), High(block,
                                                                                                     parameters, path))
  {
    hide RunFrom, SameAt, ScopeAt;
    assert SameSeen(block, parameters, SUMS, RunFrom(block, parameters, SUMS, LOW, BLANK, path),
                    RunFrom(block, parameters, SUMS, HIGH, BLANK, path));
  }

  lemma GlobalShows(block: seq<Command>, parameters: Scope, names: set<string>, i: nat) returns (path: seq<nat>)
    requires AllMarked(block, parameters, names) && i < |block|
    requires AssignsGlobal(block[i], ScopeAt(block, parameters, i))
    requires DependsOn(block[i], ScopeAt(block, parameters, i), names)
    ensures IsPath(block, path) && Low(block, parameters, path).globals != High(block, parameters, path).globals
  {
    hide RunFrom, ScopeAt, DependsOn, AllMarked, ResultValue, AssignsLocal;
    var before := DependencyMarks(block, parameters, i, names);
    OneMoreExecution(block, parameters, SUMS, LOW, BLANK, before, i);
    OneMoreExecution(block, parameters, SUMS, HIGH, BLANK, before, i);
    path := before + [i];
    var name := block[i].target.register.name;
    assert Low(block, parameters, path).globals[name] != High(block, parameters, path).globals[name];
  }

  /** A command that does not hide what depends on a place shows it along some path. */
  lemma UnhiddenShows(block: seq<Command>, parameters: Scope, names: set<string>, i: nat)
    requires AllMarked(block, parameters, names) && i < |block|
    requires !Hides(block[i], ScopeAt(block, parameters, i), names)
    ensures !Independent(block, parameters)
  {
    hide RunFrom, ScopeAt, DependsOn, SomeInStorage, AllMarked, Independent, Total, OperandValue, ResultValue,
         OperandValues, IsReturn, Branches;
    var c, scope := block[i], ScopeAt(block, parameters, i);
    if Independent(block, parameters) {
      if AssignsGlobal(c, scope) && DependsOn(c, scope, names) {
        var path := GlobalShows(block, parameters, names, i);
        Apply(block, parameters, path, i);
      } else if Guarded(c) && SomeInStorage(c.values, scope, names) {
        var path := MarkedTotal(block, parameters, c.values, scope, names);
        Apply(block, parameters, path, i);
      } else {
        var path := MarkedOperand(block, parameters, c.values[0], scope, names);
        Apply(block, parameters, path, i);
      }
    }
  }

  /** It never shows where local storage is exactly when the commands hide all locals whose value can depend on it. */
  lemma IndependentExactly(block: seq<Command>, parameters: Scope)
    requires ScalarBlock(block, parameters)
    ensures Independent(block, parameters) <==> AllHidden(block, parameters, Reached(Numbers, block, parameters))
  {
    var names := Reached(Numbers, block, parameters);
    ReachingIsClosed(Numbers, block, parameters, {});
    NumbersMarked(block, parameters, {});
    hide Hides, Reached, AllMarked, ClosedUnder, Independent, InFragment;
    if AllHidden(block, parameters, names) {
      HiddenNeverShows(block, parameters, names);
    } else {
      var i :| 0 <= i < |block| && !Hides(block[i], ScopeAt(block, parameters, i), names);
      UnhiddenShows(block, parameters, names, i);
    }
  }

  // ---- What the analysis knows of it ----

  /** Comparisons and pointer differences turn addresses into plain numbers. */
  predicate MakesNumber(c: Command, scope: Scope, env: Environment)
    requires c.instruction.Some?
  {
    var name := c.instruction.value.name;
    !IsRef(name) && (!CarriesBits(name) || IsDifference(c, scope, env))
  }

  /** A number made of a tracked local goes to a local that is tracked already. */
  predicate NumberTracked(c: Command, scope: Scope, env: Environment, f: Facts) {
    c.target.RegisterTarget? && c.instruction.Some? && MakesNumber(c, scope, env)
    && AnyMayContain(c.values, scope, env, f) == Some(true) ==>
      AssignsLocal(c, scope) && c.target.register.name in f.storage
  }

  /** No tracked local decides a jump or a trap. */
  predicate DecisionUntracked(c: Command, scope: Scope, f: Facts) {
    && (Branches(c) && c.values != [] ==> !InStorage(c.values[0], scope, f.storage))
    && (Guarded(c) ==> !SomeInStorage(c.values, scope, f.storage))
  }

  ghost predicate NumbersTracked(block: seq<Command>, parameters: Scope, env: Environment, f: Facts) {
    forall i :: 0 <= i < |block| ==>
      var scope := ScopeAt(block, parameters, i);
      NumberTracked(block[i], scope, env, f) && DecisionUntracked(block[i], scope, f)
  }

  lemma DependencyTracked(c: Command, scope: Scope, env: Environment, f: Facts)
    requires Computes(c) && DependsOn(c, scope, f.storage) && NumberTracked(c, scope, env, f)
    requires CommandMayPoint(c, scope, env, f) == Some(false)
    ensures AssignsLocal(c, scope) && c.target.register.name in f.storage
  {
    hide CommandMayPoint, CarriesBits, Compares, TracksAddressBits, DifferenceOfPointers, IsRef, IsSub, SomeInStorage,
         AnyMayContain, AssignsLocal;
    SourceIsMayPoint(c, scope, env, f);
    if c.instruction.Some? {
      SubCarriesBits(c.instruction.value.name);
      SimpleMayContain(c.values, scope, env, f);
    }
  }

  /** For an accepted command of the fragment, tracking its numbers is what closing and hiding ask for. */
  lemma TrackedCommand(c: Command, scope: Scope, env: Environment, f: Facts)
    requires InFragment(c) && Closed(c, scope, env, f) && EscapeChecked(c, scope, env, f)
    requires forall name :: name in scope ==> TracksAddressBits(scope[name])
    requires NumberTracked(c, scope, env, f) && DecisionUntracked(c, scope, f)
    ensures AssignsLocal(c, scope) && DependsOn(c, scope, f.storage) ==> c.target.register.name in f.storage
    ensures Hides(c, scope, f.storage)
  {
    hide StoreClosed, CopyClosed, LoadClosed, FieldClosed, CommandMayPoint, TracksAddressBits, CommandMayNameImmutable,
         InitializerMayContain, SomeNamedIn, RefersToAggregate, PreservesSlot, ReferencedSlot, TargetIsLocalStorage,
         DependsOn, NumberTracked, CarriesBits, Compares, Transfers, SomeInStorage;
    if c.target.RegisterTarget? && DependsOn(c, scope, f.storage) && CommandMayPoint(c, scope, env, f) == Some(false) {
      DependencyTracked(c, scope, env, f);
    }
    if c.values != [] {
      ReturnOperand(c);
    }
  }

  lemma TrackedHides(block: seq<Command>, parameters: Scope, env: Environment, f: Facts)
    requires ScalarBlock(block, parameters) && NumbersTracked(block, parameters, env, f)
    requires ClosedBlock(block, parameters, env, f) && BlockChecked(block, parameters, env, f)
    ensures ClosedUnder(Numbers, block, parameters, f.storage) && AllHidden(block, parameters, f.storage)
  {
    hide InFragment, Closed, EscapeChecked, TracksAddressBits, NumberTracked, DecisionUntracked, DependsOn, Hides;
    forall i | 0 <= i < |block|
      ensures var scope := ScopeAt(block, parameters, i);
        && Hides(block[i], scope, f.storage)
        && (AssignsLocal(block[i], scope) && DependsOn(block[i], scope, f.storage) ==>
              block[i].target.register.name in f.storage)
    {
      ScopeTracks(block, parameters, i);
      TrackedCommand(block[i], ScopeAt(block, parameters, i), env, f);
    }
  }

  lemma HidesFewer(block: seq<Command>, parameters: Scope, names: set<string>, more: set<string>)
    requires names <= more && AllHidden(block, parameters, more)
    ensures AllHidden(block, parameters, names)
  {
    hide ScopeAt;
    forall i | 0 <= i < |block|
      ensures Hides(block[i], ScopeAt(block, parameters, i), names)
    {
      HidesLess(block[i], ScopeAt(block, parameters, i), names, more);
    }
  }

  lemma HidesLess(c: Command, scope: Scope, names: set<string>, more: set<string>)
    requires names <= more && Hides(c, scope, more)
    ensures Hides(c, scope, names)
  {
    if DependsOn(c, scope, names) {
      MoreFeeds(Numbers, c, scope, names, more);
    }
    if SomeInStorage(c.values, scope, names) {
      var k :| 0 <= k < |c.values| && InStorage(c.values[k], scope, names);
      assert InStorage(c.values[k], scope, more);
    }
  }

  /** A number or decision that is not tracked, where all that can depend on a place is. */
  lemma UntrackedIsUnhidden(c: Command, scope: Scope, env: Environment, f: Facts)
    requires Hides(c, scope, f.storage)
    requires AssignsLocal(c, scope) && DependsOn(c, scope, f.storage) ==> c.target.register.name in f.storage
    ensures NumberTracked(c, scope, env, f) && DecisionUntracked(c, scope, f)
  {
    hide IsRef, CarriesBits, IsDifference, MayContainLocal, SomeInStorage, AssignsLocal;
    if AnyMayContain(c.values, scope, env, f) == Some(true) {
      SomeMayContain(c.values, scope, env, f);
      assert c.values != [];
    }
  }

  /** Seen from the facts of an accepted block: placement never shows, and every local whose value can depend on
      it is tracked, exactly when numbers made of tracked locals stay tracked and no tracked local decides a jump
      or a trap. */
  lemma TrackedExactly(block: seq<Command>, parameters: Scope, env: Environment, n: nat)
    requires ScalarBlock(block, parameters) && Passes(block, parameters, env, n).Some?
    requires ClosedBlock(block, parameters, env, Passes(block, parameters, env, n).value)
    requires BlockChecked(block, parameters, env, Passes(block, parameters, env, n).value)
    ensures var f := Passes(block, parameters, env, n).value;
      Independent(block, parameters) && Reached(Numbers, block, parameters) <= f.storage
      <==> NumbersTracked(block, parameters, env, f)
  {
    hide Passes, ScalarBlock, ClosedBlock, BlockChecked, NumbersTracked, ClosedUnder, AllHidden, Reaching, Independent;
    var f := Passes(block, parameters, env, n).value;
    var names := Reached(Numbers, block, parameters);
    IndependentExactly(block, parameters);
    if NumbersTracked(block, parameters, env, f) {
      TrackedHides(block, parameters, env, f);
      ReachingIsLeast(Numbers, block, parameters, {}, f.storage);
      HidesFewer(block, parameters, names, f.storage);
    }
    if Independent(block, parameters) && names <= f.storage {
      StorageReached(block, parameters, env, n);
      AddressesAreNumbers(block, parameters);
      assert names == f.storage;
      ReachingIsClosed(Numbers, block, parameters, {});
      HiddenIsTracked(block, parameters, env, f);
    }
  }

  lemma HiddenIsTracked(block: seq<Command>, parameters: Scope, env: Environment, f: Facts)
    requires ClosedUnder(Numbers, block, parameters, f.storage) && AllHidden(block, parameters, f.storage)
    ensures NumbersTracked(block, parameters, env, f)
  {
    hide NumberTracked, DecisionUntracked, DependsOn, Hides, ScopeAt;
    forall i | 0 <= i < |block|
      ensures var scope := ScopeAt(block, parameters, i);
        NumberTracked(block[i], scope, env, f) && DecisionUntracked(block[i], scope, f)
    {
      assert Hides(block[i], ScopeAt(block, parameters, i), f.storage);
      UntrackedIsUnhidden(block[i], ScopeAt(block, parameters, i), env, f);
    }
  }

  /** Wherever addresses flow, numbers do. */
  lemma AddressesAreNumbers(block: seq<Command>, parameters: Scope)
    ensures Reached(Addresses, block, parameters) <= Reached(Numbers, block, parameters)
  {
    hide ScopeAt, SomeInStorage, IsRef, CarriesBits;
    var names := Reached(Numbers, block, parameters);
    ReachingIsClosed(Numbers, block, parameters, {});
    hide Reaching;
    assert ClosedUnder(Addresses, block, parameters, names);
    ReachingIsLeast(Addresses, block, parameters, {}, names);
  }
}
