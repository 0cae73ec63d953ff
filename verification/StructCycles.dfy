/** The check that no struct contains itself by value. */
module StructCycles {
  import opened Wrappers
  import opened Ast

  type Structs = map<string, seq<Argument>>

  /** One struct has a field whose type is the other, not a pointer to it. */
  predicate Contains(structs: Structs, outer: string, inner: string) {
    && outer in structs && inner in structs
    && exists k :: 0 <= k < |structs[outer]| && HoldsByValue(structs[outer][k], inner)
  }

  predicate HoldsByValue(field: Argument, name: string) {
    field.typ.pointers == 0 && field.typ.base == name
  }

  /** A numbering of structs in which containment always goes down. */
  ghost predicate IsRank(structs: Structs, rank: map<string, nat>) {
    && rank.Keys == structs.Keys
    && (forall a, b :: Contains(structs, a, b) ==> rank[b] < rank[a])
  }

  ghost predicate Acyclic(structs: Structs) {
    exists rank :: IsRank(structs, rank)
  }

  ghost predicate IsPath(structs: Structs, path: seq<string>) {
    forall k :: 0 <= k < |path| - 1 ==> Contains(structs, path[k], path[k + 1])
  }

  ghost predicate IsCycle(structs: Structs, path: seq<string>) {
    path != [] && IsPath(structs, path) && Contains(structs, path[|path| - 1], path[0])
  }

  lemma {:induction false} PathDescends(structs: Structs, path: seq<string>, rank: map<string, nat>, k: nat)
    requires IsRank(structs, rank) && IsPath(structs, path) && k < |path| && path[0] in structs
    ensures path[k] in structs && rank[path[k]] <= rank[path[0]]
  {
    hide Contains;
    if k > 0 {
      PathDescends(structs, path, rank, k - 1);
      assert Contains(structs, path[k - 1], path[k]);
      EdgeEnds(structs, path[k - 1], path[k]);
    }
  }

  lemma EdgeEnds(structs: Structs, a: string, b: string)
    requires Contains(structs, a, b)
    ensures a in structs && b in structs
  {
  }

  lemma CycleMeansCyclic(structs: Structs, path: seq<string>)
    requires IsCycle(structs, path)
    ensures !Acyclic(structs)
  {
    forall rank | IsRank(structs, rank)
      ensures false
    {
      PathDescends(structs, path, rank, |path| - 1);
    }
  }

  /** What is known during the traversal: the open structs form a path, and the finished ones are ranked. */
  ghost predicate Progress(structs: Structs, visiting: set<string>, visited: set<string>, stack: seq<string>,
                           rank: map<string, nat>)
  {
    && visiting <= structs.Keys && visited <= structs.Keys && visiting !! visited
    && (forall n :: n in visiting <==> n in stack) && IsPath(structs, stack)
    && rank.Keys == visited && (forall n :: n in visited ==> rank[n] < |visited|)
    && (forall a, b :: a in visited && Contains(structs, a, b) ==> b in visited && rank[b] < rank[a])
  }

  lemma Opened(structs: Structs, visiting: set<string>, visited: set<string>, stack: seq<string>,
               rank: map<string, nat>, name: string)
    requires Progress(structs, visiting, visited, stack, rank)
    requires name in structs && name !in visited && (stack != [] ==> Contains(structs, stack[|stack| - 1], name))
    ensures Progress(structs, visiting + {name}, visited, stack + [name], rank)
  {
    hide Contains;
  }

  lemma Closed(structs: Structs, visiting: set<string>, visited: set<string>, stack: seq<string>,
               rank: map<string, nat>, name: string)
    requires Progress(structs, visiting + {name}, visited, stack + [name], rank)
    requires (forall n :: n in visiting <==> n in stack) && name !in visiting && name in structs
    requires forall b :: Contains(structs, name, b) ==> b in visited
    ensures Progress(structs, visiting, visited + {name}, stack, rank[name := |visited|])
  {
    hide Contains;
    assert |visited + {name}| == |visited| + 1;
    assert IsPath(structs, stack) by {
      forall k | 0 <= k < |stack| - 1
        ensures Contains(structs, stack[k], stack[k + 1])
      {
        assert (stack + [name])[k] == stack[k] && (stack + [name])[k + 1] == stack[k + 1];
      }
    }
  }

  lemma Looped(structs: Structs, visiting: set<string>, visited: set<string>, stack: seq<string>,
               rank: map<string, nat>, name: string) returns (cycle: seq<string>)
    requires Progress(structs, visiting, visited, stack, rank) && name in visiting
    requires stack != [] ==> Contains(structs, stack[|stack| - 1], name)
    ensures IsCycle(structs, cycle)
  {
    hide Contains;
    var k :| 0 <= k < |stack| && stack[k] == name;
    cycle := stack[k..];
  }

  /** The names on the way to the struct being visited, and those known to contain no cycle. */
  class CycleCheck {
    const structs: Structs
    var visiting: set<string>
    var visited: set<string>
    ghost var stack: seq<string>
    ghost var rank: map<string, nat>

    ghost predicate Valid()
      reads this
    {
      Progress(structs, visiting, visited, stack, rank)
    }

    constructor (structs: Structs)
      ensures Valid() && this.structs == structs && visiting == {} && visited == {} && stack == []
    {
      this.structs := structs;
      visiting, visited := {}, {};
      stack, rank := [], map[];
    }

    /** Visits a struct and everything it contains; on failure there is a cycle to show. */
    method VisitStructByValue(name: string) returns (ok: bool, ghost cycle: seq<string>)
      requires Valid() && (stack != [] && name in structs ==> Contains(structs, stack[|stack| - 1], name))
      modifies this
      ensures ok ==> Valid() && visiting == old(visiting) && stack == old(stack) && old(visited) <= visited
      ensures ok && name in structs ==> name in visited
      ensures !ok ==> IsCycle(structs, cycle)
      decreases |structs.Keys - visiting|, 0
    {
      hide Progress, Contains, FieldsDone, IsCycle;
      ok, cycle := true, [];
      if name in visited || name !in structs {
        return;
      }
      if name in visiting {
        cycle := Looped(structs, visiting, visited, stack, rank, name);
        return false, cycle;
      }
      Fewer(structs.Keys, visiting, name);
      Opened(structs, visiting, visited, stack, rank, name);
      ghost var outer, path := visiting, stack;
      StackNames(structs, visiting, visited, stack, rank);
      visiting := visiting + {name};
      stack := stack + [name];
      ok, cycle := VisitFields(name);
      if !ok {
        return;
      }
      ContainedVisited(structs, name, visited);
      Closed(structs, outer, visited, path, rank, name);
      visiting := visiting - {name};
      assert visiting == outer;
      stack := stack[..|stack| - 1];
      rank := rank[name := |visited|];
      visited := visited + {name};
    }

    method VisitFields(name: string) returns (ok: bool, ghost cycle: seq<string>)
      requires Valid() && name in structs && stack != [] && stack[|stack| - 1] == name
      modifies this
      ensures ok ==> Valid() && visiting == old(visiting) && stack == old(stack) && old(visited) <= visited
      ensures ok ==> FieldsDone(structs, name, visited, |structs[name]|)
      ensures !ok ==> IsCycle(structs, cycle)
      decreases |structs.Keys - visiting|, 1
    {
      hide Progress, Contains, IsCycle;
      var fields := structs[name];
      ok, cycle := true, [];
      for i := 0 to |fields|
        invariant Valid() && visiting == old(visiting) && stack == old(stack) && old(visited) <= visited
        invariant FieldsDone(structs, name, visited, i)
        invariant ok
      {
        if fields[i].typ.pointers == 0 {
          FieldContained(structs, name, i);
          ok, cycle := VisitStructByValue(fields[i].typ.base);
          if !ok {
            return;
          }
        }
      }
    }
  }

  /** The structs held by the first n fields have been visited. */
  ghost predicate FieldsDone(structs: Structs, name: string, visited: set<string>, n: nat)
    requires name in structs && n <= |structs[name]|
  {
    forall k :: 0 <= k < n ==>
      var t := structs[name][k].typ; t.pointers == 0 && t.base in structs ==> t.base in visited
  }

  lemma StackNames(structs: Structs, visiting: set<string>, visited: set<string>, stack: seq<string>,
                   rank: map<string, nat>)
    requires Progress(structs, visiting, visited, stack, rank)
    ensures forall n :: n in visiting <==> n in stack
  {
  }

  lemma AllRanked(structs: Structs, visited: set<string>, rank: map<string, nat>)
    requires Progress(structs, {}, visited, [], rank) && structs.Keys <= visited
    ensures IsRank(structs, rank)
  {
    forall a, b | Contains(structs, a, b)
      ensures rank[b] < rank[a]
    {
      EdgeEnds(structs, a, b);
    }
  }

  lemma Fewer(all: set<string>, some: set<string>, name: string)
    requires name in all && name !in some
    ensures |all - (some + {name})| < |all - some|
  {
    assert all - some == (all - (some + {name})) + {name};
  }

  lemma FieldContained(structs: Structs, name: string, k: nat)
    requires name in structs && k < |structs[name]| && structs[name][k].typ.pointers == 0
    ensures structs[name][k].typ.base in structs ==> Contains(structs, name, structs[name][k].typ.base)
  {
    assert HoldsByValue(structs[name][k], structs[name][k].typ.base);
  }

  lemma ContainedVisited(structs: Structs, name: string, visited: set<string>)
    requires name in structs && FieldsDone(structs, name, visited, |structs[name]|)
    ensures forall b :: Contains(structs, name, b) ==> b in visited
  {
  }

  /** Accepts exactly the declarations without a cycle, in whatever order the structs are visited. */
  method ValidateStructCycles(structs: Structs) returns (ok: bool, ghost rank: map<string, nat>)
    ensures ok <==> Acyclic(structs)
    ensures ok ==> IsRank(structs, rank)
  {
    hide Contains, Progress, IsCycle;
    var check := new CycleCheck(structs);
    var rest := structs.Keys;
    while rest != {}
      invariant check.Valid() && check.structs == structs && check.stack == [] && check.visiting == {}
      invariant rest <= structs.Keys && structs.Keys - rest <= check.visited
      decreases |rest|
    {
      var name :| name in rest;
      ghost var cycle;
      ok, cycle := check.VisitStructByValue(name);
      if !ok {
        CycleMeansCyclic(structs, cycle);
        return false, map[];
      }
      rest := rest - {name};
    }
    rank := check.rank;
    AllRanked(structs, check.visited, rank);
    ok := true;
  }

  // ---- Sizes ----

  /** The number of fields of a struct once those of its parts are counted in. It recurs along containment,
      and ends because of the rank. */
  ghost function FieldCount(structs: Structs, rank: map<string, nat>, name: string): nat
    requires IsRank(structs, rank) && name in structs
    decreases rank[name], |structs[name]| + 1
  {
    FieldsFrom(structs, rank, name, 0)
  }

  ghost function FieldsFrom(structs: Structs, rank: map<string, nat>, name: string, k: nat): nat
    requires IsRank(structs, rank) && name in structs && k <= |structs[name]|
    decreases rank[name], |structs[name]| - k
  {
    if k == |structs[name]| then 0
    else
      var field := structs[name][k].typ;
      var here :=
        if field.pointers == 0 && field.base in structs then
          FieldContained(structs, name, k);
          FieldCount(structs, rank, field.base)
        else 1;
      here + FieldsFrom(structs, rank, name, k + 1)
  }

  /** The size does not depend on the rank that justified the recursion. */
  lemma {:induction false} SizeIsUnique(
      structs: Structs, rank: map<string, nat>, other: map<string, nat>, name: string, k: nat)
    requires IsRank(structs, rank) && IsRank(structs, other) && name in structs && k <= |structs[name]|
    ensures FieldsFrom(structs, rank, name, k) == FieldsFrom(structs, other, name, k)
    decreases rank[name], |structs[name]| - k
  {
    hide IsRank;
    if k < |structs[name]| {
      SizeIsUnique(structs, rank, other, name, k + 1);
      var field := structs[name][k].typ;
      if field.pointers == 0 && field.base in structs {
        FieldContained(structs, name, k);
        RankFalls(structs, rank, name, field.base);
        SizeIsUnique(structs, rank, other, field.base, 0);
      }
    }
  }

  lemma RankFalls(structs: Structs, rank: map<string, nat>, a: string, b: string)
    requires IsRank(structs, rank) && Contains(structs, a, b)
    ensures a in rank && b in rank && rank[b] < rank[a]
  {
  }
}
