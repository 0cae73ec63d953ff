/** Runs that follow labels and jumps: where local storage is does not change what they do. */
module AliasRuns {
  import opened Wrappers
  import opened Ast
  import opened Typing
  import opened AliasRules
  import opened AliasAnalysis
  import opened AliasSoundness
  import opened AliasEscape
  import opened AliasIndependence

  datatype Flow =
    | At(pc: nat, memory: Memory)
    | Returned(value: Option<int>, globals: map<string, int>)
    | Trapped(globals: map<string, int>)
    | Stuck

  predicate Jumps(c: Command) {
    c.instruction.Some? && c.instruction.value.name == "jmp"
  }

  predicate Marks(c: Command, name: string) {
    && c.instruction == Some(Instruction("label", false)) && c.target.NoTarget?
    && c.values != [] && c.values[0].Named? && c.values[0].register.name == name
  }

  /** The first label of the given name. */
  function LabelAt(block: seq<Command>, name: string, from: nat): (r: Option<nat>)
    requires from <= |block|
    ensures r.Some? ==> r.value < |block|
    decreases |block| - from
  {
    if from == |block| then None
    else if Marks(block[from], name) then Some(from)
    else LabelAt(block, name, from + 1)
  }

  function Goto(block: seq<Command>, values: seq<Value>, k: nat, m: Memory): Flow {
    if k >= |values| || !values[k].Named? then Stuck
    else
      match LabelAt(block, values[k].register.name, 0)
      case Some(i) => At(i, m)
      case None => Stuck
  }

  /** The next command: jumps go by labels, conditional ones by the value of their operand. */
  function Next(block: seq<Command>, parameters: Scope, w: World, p: Placement, pc: nat, m: Memory): Flow {
    if pc >= |block| then Returned(None, m.globals)
    else
      var c, scope := block[pc], ScopeAt(block, parameters, pc);
      if IsReturn(c) then
        Returned(if c.values == [] then None else Some(OperandValue(c.values[0], scope, w, m)), m.globals)
      else if Jumps(c) then Goto(block, c.values, 0, m)
      else if Branches(c) && c.values != [] then
        if OperandValue(c.values[0], scope, w, m) != 0 then Goto(block, c.values, 1, m) else At(pc + 1, m)
      else if Guarded(c) && w.traps(pc, OperandValues(c.values, scope, w, m)) then
        Trapped(m.globals)
      else At(pc + 1, Execute(c, pc, scope, w, p, m))
  }

  /** The run after n steps from the first command. */
  function Follow(block: seq<Command>, parameters: Scope, w: World, p: Placement, start: Memory, n: nat): Flow {
    if n == 0 then At(0, start)
    else
      match Follow(block, parameters, w, p, start, n - 1)
      case At(pc, m) => Next(block, parameters, w, p, pc, m)
      case done => done
  }

  /** The same place and globals, or the same end. */
  predicate Matches(a: Flow, b: Flow) {
    if a.At? && b.At? then a.pc == b.pc && a.memory.globals == b.memory.globals else a == b
  }

  /** Both runs are where one path leads. */
  ghost predicate Along(block: seq<Command>, parameters: Scope, w: World, p: Placement, start: Memory, flow: Flow,
                        path: seq<nat>)
  {
    IsPath(block, path) && (flow.At? ==> flow.memory == RunFrom(block, parameters, w, p, start, path))
  }

  lemma NextAlike(block: seq<Command>, parameters: Scope, w: World, p: Placement, q: Placement, start: Memory,
                  path: seq<nat>, pc: nat) returns (longer: seq<nat>)
    requires Independent(block, parameters) && IsPath(block, path)
    ensures var a, b := RunFrom(block, parameters, w, p, start, path), RunFrom(block, parameters, w, q, start, path);
      var a', b' := Next(block, parameters, w, p, pc, a), Next(block, parameters, w, q, pc, b);
      && Matches(a', b')
      && Along(block, parameters, w, p, start, a', longer) && Along(block, parameters, w, q, start, b', longer)
  {
    hide RunFrom, Independent, Execute, ScopeAt, OperandValue, OperandValues, LabelAt, Guarded, IsReturn, Jumps,
         Branches;
    SameAlong(block, parameters, w, p, q, start, path);
    longer := path;
    if pc < |block| {
      var a, b := RunFrom(block, parameters, w, p, start, path), RunFrom(block, parameters, w, q, start, path);
      assert SameAt(block[pc], pc, ScopeAt(block, parameters, pc), w, a, b);
      var c := block[pc];
      if !IsReturn(c) && !Jumps(c) && !(Branches(c) && c.values != []) {
        longer := path + [pc];
        OneMoreExecution(block, parameters, w, p, start, path, pc);
        OneMoreExecution(block, parameters, w, q, start, path, pc);
        SameAlong(block, parameters, w, p, q, start, longer);
      }
    }
  }

  lemma SameAlong(block: seq<Command>, parameters: Scope, w: World, p: Placement, q: Placement, start: Memory,
                  path: seq<nat>)
    requires Independent(block, parameters) && IsPath(block, path)
    ensures SameSeen(block, parameters, w, RunFrom(block, parameters, w, p, start, path),
                     RunFrom(block, parameters, w, q, start, path))
  {
    hide RunFrom, SameSeen;
  }

  lemma {:induction false} FollowsAlike(block: seq<Command>, parameters: Scope, w: World, p: Placement, q: Placement,
                                        start: Memory, n: nat) returns (path: seq<nat>)
    requires Independent(block, parameters)
    ensures Matches(Follow(block, parameters, w, p, start, n), Follow(block, parameters, w, q, start, n))
    ensures Along(block, parameters, w, p, start, Follow(block, parameters, w, p, start, n), path)
    ensures Along(block, parameters, w, q, start, Follow(block, parameters, w, q, start, n), path)
  {
    hide Next, Independent;
    path := [];
    if n > 0 {
      path := FollowsAlike(block, parameters, w, p, q, start, n - 1);
      hide RunFrom;
      var a, b := Follow(block, parameters, w, p, start, n - 1), Follow(block, parameters, w, q, start, n - 1);
      if a.At? {
        path := NextAlike(block, parameters, w, p, q, start, path, a.pc);
      }
    }
  }

  /** A block of the fragment that hides what depends on places takes the same commands, returns the same value
      and leaves the same globals, or traps or runs on alike, wherever its locals are stored. */
  lemma RunsReturnAlike(block: seq<Command>, parameters: Scope, w: World, p: Placement, q: Placement, start: Memory,
                        n: nat)
    requires ScalarBlock(block, parameters) && AllHidden(block, parameters, Reached(Numbers, block, parameters))
    ensures Matches(Follow(block, parameters, w, p, start, n), Follow(block, parameters, w, q, start, n))
  {
    IndependentExactly(block, parameters);
    hide Independent, Follow, Matches;
    var _ := FollowsAlike(block, parameters, w, p, q, start, n);
  }
}
