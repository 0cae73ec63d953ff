/** An accepted block that returns the address of a local: a difference of pointers counts as a plain number,
    and the difference from a null pointer is the address itself. */
module AliasExample {
  import opened Wrappers
  import opened Ast
  import opened Typing
  import opened AliasRules
  import opened AliasAnalysis
  import opened AliasSoundness
  import opened AliasExactness
  import opened AliasIndependence

  function Local(typ: TypeNode, name: string, instruction: Option<string>, values: seq<Value>): Command {
    Command(false, Some(typ), RegisterTarget(Register(name, [])),
            if instruction.Some? then Some(Instruction(instruction.value, false)) else None, values)
  }

  function Name(name: string): Value {
    Named(Register(name, []))
  }

  const BYTE := Primitive("i8", 0)
  const ADDRESS := Primitive("i8", 1)
  const WIDE := Primitive("i64", 0)

  const DECLARE := Local(BYTE, "x", None, [])
  const REFER := Local(ADDRESS, "p", Some("ref"), [Name("x")])
  const NOWHERE := Local(ADDRESS, "n", None, [Null])
  const SUBTRACT := Local(WIDE, "d", Some("sub"), [Name("p"), Name("n")])
  const RETURN := Command(false, None, NoTarget, Some(Instruction("ret", false)), [Name("d")])

  /** `i8 x; i8* p = ref x; i8* n = null; i64 d = sub p n; ret d;` */
  const BLOCK := [DECLARE, REFER, NOWHERE, SUBTRACT, RETURN]

  const EMPTY := Environment(map[], {}, {}, map[])

  /** All the analysis finds: p may hold a local address, and refers to x. */
  const FOUND := Facts({}, {"p"}, {}, {}, map["p" := "x"])

  const AFTER_X: Scope := map["x" := BYTE]
  const AFTER_P: Scope := map["x" := BYTE, "p" := ADDRESS]
  const AFTER_N: Scope := map["x" := BYTE, "p" := ADDRESS, "n" := ADDRESS]
  const AFTER_D: Scope := map["x" := BYTE, "p" := ADDRESS, "n" := ADDRESS, "d" := WIDE]

  lemma Scopes()
    ensures ScopeAt(BLOCK, map[], 0) == map[] && ScopeAt(BLOCK, map[], 1) == AFTER_X
    ensures ScopeAt(BLOCK, map[], 2) == AFTER_P && ScopeAt(BLOCK, map[], 3) == AFTER_N
    ensures ScopeAt(BLOCK, map[], 4) == AFTER_D
  {
    assert ScopeAt(BLOCK, map[], 0) == map[];
    assert ScopeAt(BLOCK, map[], 1) == AFTER_X;
    assert ScopeAt(BLOCK, map[], 2) == AFTER_P;
    assert ScopeAt(BLOCK, map[], 3) == AFTER_N;
  }

  lemma RefName()
    ensures IsRef("ref") && !Loads("ref") && !IsSub("ref") && !KeepsSlot("ref")
    ensures !StoresThroughPointer(Instruction("ref", false))
  {
  }

  lemma SubName()
    ensures CarriesBits("sub") && IsSub("sub") && !IsRef("sub") && !Loads("sub")
    ensures !StoresThroughPointer(Instruction("sub", false))
  {
  }

  lemma SubKeepsNothing()
    ensures !KeepsSlot("sub") && !NamesBacking("sub")
  {
  }

  lemma RetName()
    ensures Transfers("ret") && !StoresThroughPointer(Instruction("ret", false))
  {
  }

  lemma TypesTrack()
    ensures TracksAddressBits(BYTE) && TracksAddressBits(ADDRESS) && TracksAddressBits(WIDE)
  {
  }

  lemma VisitDeclare(f: Facts)
    requires f == NOTHING || f == FOUND
    ensures AfterCommand(DECLARE, map[], EMPTY, f) == Some(f)
  {
    hide TracksAddressBits;
  }

  lemma VisitRefer(f: Facts)
    requires f == NOTHING || f == FOUND
    ensures AfterCommand(REFER, AFTER_X, EMPTY, f) == Some(FOUND)
  {
    RefName();
    TypesTrack();
    hide TracksAddressBits, IsRef, Loads, IsSub, KeepsSlot, StoresThroughPointer;
    var none: set<string> := {};
    assert none + {"p"} == {"p"} && map[]["p" := "x"] == map["p" := "x"];
    assert !SomeNamedIn(REFER.values, none);
    assert !HasIndex([]);
    assert AfterContents(REFER, AFTER_X, EMPTY, f) == Some(f);
    var g := AfterReferences(REFER, AFTER_X, EMPTY, f);
    assert g == f.(slots := map["p" := "x"]);
    assert !MayNameImmutable(Name("x"), AFTER_X, EMPTY, g);
    assert AfterStorage(REFER, AFTER_X, EMPTY, g) == Some(FOUND);
  }

  lemma VisitNowhere()
    ensures AfterCommand(NOWHERE, AFTER_P, EMPTY, FOUND) == Some(FOUND)
  {
    hide TracksAddressBits;
  }

  lemma VisitSubtract()
    ensures AfterCommand(SUBTRACT, AFTER_N, EMPTY, FOUND) == Some(FOUND)
  {
    SubName();
    SubKeepsNothing();
    TypesTrack();
    hide TracksAddressBits, IsRef, Loads, IsSub, KeepsSlot, StoresThroughPointer, CarriesBits, NamesBacking;
  }

  lemma VisitReturn()
    ensures AfterCommand(RETURN, AFTER_D, EMPTY, FOUND) == Some(FOUND)
  {
    RetName();
    hide StoresThroughPointer;
  }

  lemma PassFinds(f: Facts)
    requires f == NOTHING || f == FOUND
    ensures PassTo(BLOCK, map[], EMPTY, f, |BLOCK|) == Some(FOUND)
  {
    hide AfterCommand;
    Scopes();
    hide ScopeAt;
    VisitDeclare(f);
    VisitRefer(f);
    VisitNowhere();
    VisitSubtract();
    VisitReturn();
    assert PassTo(BLOCK, map[], EMPTY, f, 0) == Some(f);
    assert PassTo(BLOCK, map[], EMPTY, f, 1) == Some(f);
    assert PassTo(BLOCK, map[], EMPTY, f, 2) == Some(FOUND);
    assert PassTo(BLOCK, map[], EMPTY, f, 3) == Some(FOUND);
    assert PassTo(BLOCK, map[], EMPTY, f, 4) == Some(FOUND);
  }

  /** The closure ends with these facts. */
  lemma ClosureFinds()
    ensures Passes(BLOCK, map[], EMPTY, 1) == Some(FOUND)
    ensures ClosedBlock(BLOCK, map[], EMPTY, FOUND)
  {
    hide PassTo, ClosedBlock;
    PassFinds(NOTHING);
    PassFinds(FOUND);
    assert Passes(BLOCK, map[], EMPTY, 0) == Some(NOTHING);
    PassFixedIsClosed(BLOCK, map[], EMPTY, FOUND);
  }

  lemma InScalarFragment()
    ensures ScalarBlock(BLOCK, map[])
  {
    RefName();
    SubName();
    RetName();
    TypesTrack();
    hide TracksAddressBits, IsRef, CarriesBits, Compares, Transfers;
    assert InFragment(DECLARE) && InFragment(REFER) && InFragment(NOWHERE);
    assert InFragment(SUBTRACT) && InFragment(RETURN);
  }

  lemma PassesChecks()
    ensures BlockChecked(BLOCK, map[], EMPTY, FOUND)
  {
    Scopes();
    hide ScopeAt, CommandMayPoint, TargetIsLocalStorage;
    assert EscapeChecked(DECLARE, map[], EMPTY, FOUND) && EscapeChecked(REFER, AFTER_X, EMPTY, FOUND);
    assert EscapeChecked(NOWHERE, AFTER_P, EMPTY, FOUND) && EscapeChecked(SUBTRACT, AFTER_N, EMPTY, FOUND);
    assert EscapeChecked(RETURN, AFTER_D, EMPTY, FOUND);
  }

  /** The block is accepted, and yet what it returns derives from the address of x. */
  lemma DifferenceEscapes()
    ensures ScalarBlock(BLOCK, map[]) && Passes(BLOCK, map[], EMPTY, 1) == Some(FOUND)
    ensures ClosedBlock(BLOCK, map[], EMPTY, FOUND) && BlockChecked(BLOCK, map[], EMPTY, FOUND)
    ensures !DifferencesTracked(BLOCK, map[], EMPTY, FOUND)
    ensures IsPath(BLOCK, [0, 1, 2, 3]) && !NothingEscapes(BLOCK, map[], [0, 1, 2, 3])
  {
    ClosureFinds();
    InScalarFragment();
    PassesChecks();
    DifferenceUntracked();
    hide ScalarBlock, ClosedBlock, BlockChecked, Passes, DifferencesTracked;
    var s := PathState();
    Scopes();
    hide ScopeAt, Run;
    assert IsReturn(BLOCK[4]);
    assert Slot("x") in OperandOrigins(BLOCK[4].values[0], AFTER_D, s);
  }

  lemma DifferenceUntracked()
    ensures !DifferencesTracked(BLOCK, map[], EMPTY, FOUND)
  {
    Scopes();
    SubName();
    hide ScopeAt, IsSub;
    assert MayContainLocal(Name("p"), AFTER_N, EMPTY, FOUND) == Some(true);
    assert !DifferenceTracked(BLOCK[3], AFTER_N, EMPTY, FOUND);
  }

  lemma PathState() returns (s: State)
    ensures s == Run(BLOCK, map[], [0, 1, 2, 3])
    ensures "d" in s.locals && Slot("x") in s.locals["d"]
  {
    Scopes();
    RefName();
    SubName();
    hide ScopeAt, IsRef, CarriesBits, Run;
    var s1 := Step(REFER, 1, AFTER_X, ENTRY);
    assert s1.locals["p"] == {Slot("x")};
    var s2 := Step(NOWHERE, 2, AFTER_P, s1);
    assert s2.locals["p"] == {Slot("x")};
    s := Step(SUBTRACT, 3, AFTER_N, s2);
    assert AllOrigins(SUBTRACT.values, AFTER_N, s2) == s2.locals["p"] + AllOrigins([Name("n")], AFTER_N, s2);
    hide Step;
    PathRuns();
  }

  lemma PathRuns()
    ensures Run(BLOCK, map[], [0, 1, 2, 3])
         == Step(SUBTRACT, 3, AFTER_N, Step(NOWHERE, 2, AFTER_P, Step(REFER, 1, AFTER_X, ENTRY)))
  {
    Scopes();
    hide ScopeAt;
    assert Step(DECLARE, 0, map[], ENTRY) == ENTRY;
    hide Step;
    assert [0, 1, 2, 3][..3] == [0, 1, 2] && [0, 1, 2][..2] == [0, 1] && [0, 1][..1] == [0] && [0][..0] == [];
    assert Run(BLOCK, map[], []) == ENTRY;
    assert Run(BLOCK, map[], [0]) == ENTRY;
    assert Run(BLOCK, map[], [0, 1]) == Step(REFER, 1, AFTER_X, ENTRY);
    assert Run(BLOCK, map[], [0, 1, 2]) == Step(NOWHERE, 2, AFTER_P, Step(REFER, 1, AFTER_X, ENTRY));
  }

  // ---- The value itself ----

  /** Subtraction, with null as zero; nothing else matters to the block. */
  const SUBTRACTION := World(
    (i: nat, values: seq<int>) => if |values| == 2 then values[0] - values[1] else 0,
    (i: nat, values: seq<int>) => false,
    (v: Value) => 0,
    (name: string) => 0)

  /** The block returns exactly the address of x, wherever x is stored. */
  lemma DifferenceIsAddress(p: Placement)
    ensures var m := RunFrom(BLOCK, map[], SUBTRACTION, p, BLANK, [0, 1, 2, 3]);
      OperandValue(RETURN.values[0], AFTER_D, SUBTRACTION, m) == p.slot("x")
  {
    Scopes();
    RefName();
    SubName();
    hide ScopeAt, IsRef, RunFrom;
    var m1 := Execute(REFER, 1, AFTER_X, SUBTRACTION, p, BLANK);
    assert Read(m1.locals, "p") == p.slot("x");
    var m2 := Execute(NOWHERE, 2, AFTER_P, SUBTRACTION, p, m1);
    assert Read(m2.locals, "p") == p.slot("x") && Read(m2.locals, "n") == 0;
    var m3 := Execute(SUBTRACT, 3, AFTER_N, SUBTRACTION, p, m2);
    assert OperandValues(SUBTRACT.values, AFTER_N, SUBTRACTION, m2) == [p.slot("x"), 0] by {
      assert OperandValues([Name("n")], AFTER_N, SUBTRACTION, m2) == [0];
    }
    assert Read(m3.locals, "d") == p.slot("x");
    hide Execute;
    PathExecutes(p);
  }

  lemma PathExecutes(p: Placement)
    ensures RunFrom(BLOCK, map[], SUBTRACTION, p, BLANK, [0, 1, 2, 3])
         == Execute(SUBTRACT, 3, AFTER_N, SUBTRACTION, p,
              Execute(NOWHERE, 2, AFTER_P, SUBTRACTION, p, Execute(REFER, 1, AFTER_X, SUBTRACTION, p, BLANK)))
  {
    Scopes();
    hide ScopeAt;
    assert Execute(DECLARE, 0, map[], SUBTRACTION, p, BLANK) == BLANK;
    hide Execute;
    assert [0, 1, 2, 3][..3] == [0, 1, 2] && [0, 1, 2][..2] == [0, 1] && [0, 1][..1] == [0] && [0][..0] == [];
    assert RunFrom(BLOCK, map[], SUBTRACTION, p, BLANK, []) == BLANK;
    assert RunFrom(BLOCK, map[], SUBTRACTION, p, BLANK, [0]) == BLANK;
    var m1 := Execute(REFER, 1, AFTER_X, SUBTRACTION, p, BLANK);
    assert RunFrom(BLOCK, map[], SUBTRACTION, p, BLANK, [0, 1]) == m1;
    assert RunFrom(BLOCK, map[], SUBTRACTION, p, BLANK, [0, 1, 2]) == Execute(NOWHERE, 2, AFTER_P, SUBTRACTION, p, m1);
  }
}
