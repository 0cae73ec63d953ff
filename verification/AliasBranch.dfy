/** An accepted block whose result depends on where its local is stored, with neither a comparison nor a
    difference of pointers: a conditional jump tests a bit of the address. */
module AliasBranch {
  import opened Wrappers
  import opened Ast
  import opened Typing
  import opened AliasRules
  import opened AliasAnalysis
  import opened AliasSoundness
  import opened AliasExactness
  import opened AliasEscape
  import opened AliasIndependence
  import opened AliasRuns
  import Example = AliasExample

  function Plain(name: string, values: seq<Value>): Command {
    Command(false, None, NoTarget, Some(Instruction(name, false)), values)
  }

  const WIDE := Example.WIDE
  const CAST := Command(false, Some(WIDE), RegisterTarget(Register("a", [])), Some(Instruction("ptrtoint", true)),
                        [Example.Name("p")])
  const MASK := Example.Local(WIDE, "c", Some("and"), [Example.Name("a"), Integer(16)])
  const BRANCH := Plain("cjmp", [Example.Name("c"), Example.Name("hit")])
  const ZERO := Plain("ret", [Integer(0)])
  const HIT := Plain("label", [Example.Name("hit")])
  const ONE := Plain("ret", [Integer(1)])

  /** `i8 x; i8* p = ref x; i64 a = #ptrtoint p; i64 c = and a 16; cjmp c hit; ret 0; label hit; ret 1;` */
  const BLOCK := [Example.DECLARE, Example.REFER, CAST, MASK, BRANCH, ZERO, HIT, ONE]

  const AFTER_A: Scope := map["x" := Example.BYTE, "p" := Example.ADDRESS, "a" := WIDE]
  const AFTER_C: Scope := map["x" := Example.BYTE, "p" := Example.ADDRESS, "a" := WIDE, "c" := WIDE]

  const FIRST := Facts({}, {"p"}, {}, {}, map["p" := "x"])
  const SECOND := Facts({}, {"p", "a"}, {}, {}, map["p" := "x", "a" := "x"])

  /** What the analysis finds. */
  const FOUND := Facts({}, {"p", "a", "c"}, {}, {}, map["p" := "x", "a" := "x"])

  lemma Scopes()
    ensures ScopeAt(BLOCK, map[], 0) == map[] && ScopeAt(BLOCK, map[], 1) == Example.AFTER_X
    ensures ScopeAt(BLOCK, map[], 2) == Example.AFTER_P && ScopeAt(BLOCK, map[], 3) == AFTER_A
    ensures forall i :: 4 <= i < 8 ==> ScopeAt(BLOCK, map[], i) == AFTER_C
  {
    assert ScopeAt(BLOCK, map[], 0) == map[];
    assert ScopeAt(BLOCK, map[], 1) == Example.AFTER_X;
    assert ScopeAt(BLOCK, map[], 2) == Example.AFTER_P;
    assert ScopeAt(BLOCK, map[], 3) == AFTER_A;
    assert ScopeAt(BLOCK, map[], 4) == AFTER_C;
    assert ScopeAt(BLOCK, map[], 5) == AFTER_C;
    assert ScopeAt(BLOCK, map[], 6) == AFTER_C;
    assert ScopeAt(BLOCK, map[], 7) == AFTER_C;
  }

  lemma CastName()
    ensures CarriesBits("ptrtoint") && KeepsSlot("ptrtoint") && NamesBacking("ptrtoint")
    ensures !IsRef("ptrtoint") && !Loads("ptrtoint") && !IsSub("ptrtoint")
    ensures !StoresThroughPointer(Instruction("ptrtoint", true))
  {
  }

  lemma MaskName()
    ensures CarriesBits("and") && !KeepsSlot("and") && !NamesBacking("and")
    ensures !IsRef("and") && !Loads("and") && !IsSub("and")
    ensures !StoresThroughPointer(Instruction("and", false))
  {
  }

  lemma PlainNames()
    ensures Transfers("cjmp") && Transfers("ret") && Transfers("label")
  {
  }

  lemma InScalarFragment()
    ensures ScalarBlock(BLOCK, map[])
  {
    Example.RefName();
    CastName();
    MaskName();
    PlainNames();
    Example.TypesTrack();
    hide TracksAddressBits, IsRef, CarriesBits, Compares, Transfers;
    assert InFragment(Example.DECLARE) && InFragment(Example.REFER) && InFragment(CAST) && InFragment(MASK);
    assert InFragment(BRANCH) && InFragment(ZERO) && InFragment(HIT) && InFragment(ONE);
  }

  /** Jumps, labels and returns add no facts. */
  lemma VisitPlain(name: string, values: seq<Value>, scope: Scope, env: Environment, f: Facts)
    requires InFragment(Plain(name, values))
    ensures AfterCommand(Plain(name, values), scope, env, f) == Some(f)
  {
    hide AfterStore, AfterCopy, InFragment;
    NoStoreInFragment(Plain(name, values), scope, env, f);
  }

  lemma VisitDeclare(f: Facts)
    ensures AfterCommand(Example.DECLARE, map[], Example.EMPTY, f) == Some(f)
  {
  }

  lemma VisitRefer(f: Facts)
    requires f == NOTHING || f == FOUND
    ensures AfterCommand(Example.REFER, Example.AFTER_X, Example.EMPTY, f)
         == Some(if f == NOTHING then FIRST else FOUND)
  {
    Example.RefName();
    Example.TypesTrack();
    hide TracksAddressBits, IsRef, Loads, IsSub, KeepsSlot, StoresThroughPointer;
    var c := Example.REFER;
    assert !SomeNamedIn(c.values, {}) && !HasIndex([]);
    assert AfterContents(c, Example.AFTER_X, Example.EMPTY, f) == Some(f);
    var g := AfterReferences(c, Example.AFTER_X, Example.EMPTY, f);
    assert g == f.(slots := f.slots["p" := "x"]);
    assert !MayNameImmutable(Example.Name("x"), Example.AFTER_X, Example.EMPTY, g);
    var none: set<string> := {};
    assert none + {"p"} == {"p"};
  }

  lemma VisitCast(f: Facts)
    requires f == FIRST || f == FOUND
    ensures AfterCommand(CAST, Example.AFTER_P, Example.EMPTY, f) == Some(if f == FIRST then SECOND else FOUND)
  {
    CastName();
    Example.TypesTrack();
    hide TracksAddressBits, IsRef, Loads, IsSub, KeepsSlot, StoresThroughPointer, CarriesBits, NamesBacking;
    assert !SomeNamedIn(CAST.values, {});
    assert AfterContents(CAST, Example.AFTER_P, Example.EMPTY, f) == Some(f);
    assert CommonSlot(CAST.values, f.slots, None) == Some("x") by {
      assert CommonSlot([], f.slots, Some("x")) == Some("x");
    }
    var g := AfterReferences(CAST, Example.AFTER_P, Example.EMPTY, f);
    assert g == f.(slots := f.slots["a" := "x"]);
    assert !MayNameImmutable(Example.Name("p"), Example.AFTER_P, Example.EMPTY, g);
    assert CommandMayPoint(CAST, Example.AFTER_P, Example.EMPTY, g) == Some(true);
    assert {"p"} + {"a"} == {"p", "a"};
  }

  lemma VisitMask(f: Facts)
    requires f == SECOND || f == FOUND
    ensures AfterCommand(MASK, AFTER_A, Example.EMPTY, f) == Some(FOUND)
  {
    MaskName();
    Example.TypesTrack();
    hide TracksAddressBits, IsRef, Loads, IsSub, KeepsSlot, StoresThroughPointer, CarriesBits, NamesBacking;
    assert !SomeNamedIn(MASK.values, {});
    assert CommandMayPoint(MASK, AFTER_A, Example.EMPTY, f) == Some(true);
    assert {"p", "a"} + {"c"} == {"p", "a", "c"};
  }

  lemma PassFinds(f: Facts)
    requires f == NOTHING || f == FOUND
    ensures PassTo(BLOCK, map[], Example.EMPTY, f, |BLOCK|) == Some(FOUND)
  {
    InScalarFragment();
    Scopes();
    hide AfterCommand, ScopeAt, InFragment;
    VisitDeclare(f);
    VisitRefer(f);
    VisitCast(if f == NOTHING then FIRST else FOUND);
    VisitMask(if f == NOTHING then SECOND else FOUND);
    assert InFragment(BLOCK[4]) && InFragment(BLOCK[5]) && InFragment(BLOCK[6]) && InFragment(BLOCK[7]);
    VisitPlain("cjmp", BRANCH.values, AFTER_C, Example.EMPTY, FOUND);
    VisitPlain("ret", ZERO.values, AFTER_C, Example.EMPTY, FOUND);
    VisitPlain("label", HIT.values, AFTER_C, Example.EMPTY, FOUND);
    VisitPlain("ret", ONE.values, AFTER_C, Example.EMPTY, FOUND);
    assert PassTo(BLOCK, map[], Example.EMPTY, f, 0) == Some(f);
    assert PassTo(BLOCK, map[], Example.EMPTY, f, 1) == Some(f);
    assert PassTo(BLOCK, map[], Example.EMPTY, f, 2) == Some(if f == NOTHING then FIRST else FOUND);
    assert PassTo(BLOCK, map[], Example.EMPTY, f, 3) == Some(if f == NOTHING then SECOND else FOUND);
    assert PassTo(BLOCK, map[], Example.EMPTY, f, 4) == Some(FOUND);
    assert PassTo(BLOCK, map[], Example.EMPTY, f, 5) == Some(FOUND);
    assert PassTo(BLOCK, map[], Example.EMPTY, f, 6) == Some(FOUND);
    assert PassTo(BLOCK, map[], Example.EMPTY, f, 7) == Some(FOUND);
  }

  /** The closure ends with these facts. */
  lemma ClosureFinds()
    ensures Passes(BLOCK, map[], Example.EMPTY, 1) == Some(FOUND)
    ensures ClosedBlock(BLOCK, map[], Example.EMPTY, FOUND)
  {
    hide PassTo, ClosedBlock;
    PassFinds(NOTHING);
    PassFinds(FOUND);
    assert Passes(BLOCK, map[], Example.EMPTY, 0) == Some(NOTHING);
    PassFixedIsClosed(BLOCK, map[], Example.EMPTY, FOUND);
  }

  lemma PassesChecks()
    ensures BlockChecked(BLOCK, map[], Example.EMPTY, FOUND)
  {
    Scopes();
    hide ScopeAt, CommandMayPoint, TargetIsLocalStorage;
    assert EscapeChecked(Example.DECLARE, map[], Example.EMPTY, FOUND);
    assert EscapeChecked(Example.REFER, Example.AFTER_X, Example.EMPTY, FOUND);
    assert EscapeChecked(CAST, Example.AFTER_P, Example.EMPTY, FOUND);
    assert EscapeChecked(MASK, AFTER_A, Example.EMPTY, FOUND);
    assert EscapeChecked(BRANCH, AFTER_C, Example.EMPTY, FOUND) && EscapeChecked(ZERO, AFTER_C, Example.EMPTY, FOUND);
    assert EscapeChecked(HIT, AFTER_C, Example.EMPTY, FOUND) && EscapeChecked(ONE, AFTER_C, Example.EMPTY, FOUND);
  }

  /** The fourth command keeps one bit; addresses are cast to themselves. */
  const BITS := World(
    (i: nat, values: seq<int>) => if |values| == 0 then 0 else if i == 3 then values[0] / 16 % 2 * 16 else values[0],
    (i: nat, values: seq<int>) => false,
    (v: Value) => if v.Integer? then v.value else 0,
    (name: string) => 0)

  lemma Lands(m: Memory)
    ensures Goto(BLOCK, BRANCH.values, 1, m) == At(6, m)
  {
    assert LabelAt(BLOCK, "hit", 6) == Some(6);
    assert LabelAt(BLOCK, "hit", 5) == Some(6);
    assert LabelAt(BLOCK, "hit", 4) == Some(6);
    assert LabelAt(BLOCK, "hit", 3) == Some(6);
    assert LabelAt(BLOCK, "hit", 2) == Some(6);
    assert LabelAt(BLOCK, "hit", 1) == Some(6);
    assert LabelAt(BLOCK, "hit", 0) == Some(6);
  }

  /** The memory once p, a and c are assigned. */
  function Assigned(x: int): Memory {
    Memory(map["p" := x, "a" := x, "c" := x / 16 % 2 * 16], map[])
  }

  /** The memory once p is assigned, and once a is too. */
  function Pointing(x: int): Memory { Memory(map["p" := x], map[]) }

  function Converted(x: int): Memory { Memory(map["p" := x, "a" := x], map[]) }

  lemma RefersNext(p: Placement)
    ensures Next(BLOCK, map[], BITS, p, 0, BLANK) == At(1, BLANK)
    ensures Next(BLOCK, map[], BITS, p, 1, BLANK) == At(2, Pointing(p.slot("x")))
  {
    Scopes();
    Example.RefName();
    hide ScopeAt, IsRef;
  }

  lemma CastsNext(p: Placement, x: int)
    ensures Next(BLOCK, map[], BITS, p, 2, Pointing(x)) == At(3, Converted(x))
  {
    Scopes();
    CastName();
    hide ScopeAt, IsRef;
    assert OperandValues(CAST.values, Example.AFTER_P, BITS, Pointing(x)) == [x];
    assert Execute(CAST, 2, Example.AFTER_P, BITS, p, Pointing(x)) == Converted(x);
    hide Execute;
  }

  lemma MasksNext(p: Placement, x: int)
    ensures Next(BLOCK, map[], BITS, p, 3, Converted(x)) == At(4, Assigned(x))
  {
    Scopes();
    MaskName();
    hide ScopeAt, IsRef;
    assert OperandValue(Example.Name("a"), AFTER_A, BITS, Converted(x)) == x;
    assert OperandValues(MASK.values, AFTER_A, BITS, Converted(x))[0] == x;
    assert Execute(MASK, 3, AFTER_A, BITS, p, Converted(x)) == Assigned(x);
    hide Execute;
  }

  lemma Assigns(p: Placement)
    ensures Follow(BLOCK, map[], BITS, p, BLANK, 4) == At(4, Assigned(p.slot("x")))
  {
    hide Next, Follow;
    var x := p.slot("x");
    RefersNext(p);
    CastsNext(p, x);
    MasksNext(p, x);
    FollowsFour(p, Pointing(x), Converted(x));
  }

  lemma FollowsFour(p: Placement, m1: Memory, m2: Memory)
    requires Next(BLOCK, map[], BITS, p, 0, BLANK) == At(1, BLANK)
    requires Next(BLOCK, map[], BITS, p, 1, BLANK) == At(2, m1)
    requires Next(BLOCK, map[], BITS, p, 2, m1) == At(3, m2)
    ensures Follow(BLOCK, map[], BITS, p, BLANK, 4) == Next(BLOCK, map[], BITS, p, 3, m2)
  {
    hide Next;
    assert Follow(BLOCK, map[], BITS, p, BLANK, 1) == At(1, BLANK);
    assert Follow(BLOCK, map[], BITS, p, BLANK, 2) == At(2, m1);
    assert Follow(BLOCK, map[], BITS, p, BLANK, 3) == At(3, m2);
  }

  /** What the block returns is the bit of the address that the jump tests. */
  lemma BranchReveals(p: Placement)
    ensures Follow(BLOCK, map[], BITS, p, BLANK, 7) == Returned(Some(p.slot("x") / 16 % 2), map[])
  {
    Assigns(p);
    Scopes();
    var x := p.slot("x");
    var m := Assigned(x);
    Lands(m);
    hide ScopeAt, LabelAt, Follow, Goto, Execute;
    var bit := x / 16 % 2;
    assert Next(BLOCK, map[], BITS, p, 4, m) == At(if bit == 0 then 5 else 6, m);
    assert Next(BLOCK, map[], BITS, p, 5, m) == Returned(Some(0), map[]);
    assert Next(BLOCK, map[], BITS, p, 6, m) == At(7, m) by { LabelIdles(p, m); }
    assert Next(BLOCK, map[], BITS, p, 7, m) == Returned(Some(1), map[]);
    FollowsSeven(p, m, bit);
  }

  lemma LabelIdles(p: Placement, m: Memory)
    ensures Next(BLOCK, map[], BITS, p, 6, m) == At(7, m)
  {
    hide ScopeAt;
  }

  lemma FollowsSeven(p: Placement, m: Memory, bit: int)
    requires Follow(BLOCK, map[], BITS, p, BLANK, 4) == At(4, m) && (bit == 0 || bit == 1)
    requires Next(BLOCK, map[], BITS, p, 4, m) == At(if bit == 0 then 5 else 6, m)
    requires Next(BLOCK, map[], BITS, p, 5, m) == Returned(Some(0), map[])
    requires Next(BLOCK, map[], BITS, p, 6, m) == At(7, m)
    requires Next(BLOCK, map[], BITS, p, 7, m) == Returned(Some(1), map[])
    ensures Follow(BLOCK, map[], BITS, p, BLANK, 7) == Returned(Some(bit), map[])
  {
    hide Next;
    assert Follow(BLOCK, map[], BITS, p, BLANK, 5) == At(if bit == 0 then 5 else 6, m);
    assert Follow(BLOCK, map[], BITS, p, BLANK, 6) == if bit == 0 then Returned(Some(0), map[]) else At(7, m);
  }

  /** No command makes a number of an address by a comparison or a difference. */
  lemma NoNumbers()
    ensures forall i :: 0 <= i < |BLOCK| ==> NumberTracked(BLOCK[i], ScopeAt(BLOCK, map[], i), Example.EMPTY, FOUND)
  {
    Example.RefName();
    CastName();
    MaskName();
    hide ScopeAt, IsRef, IsSub, CarriesBits, AnyMayContain, AssignsLocal, DifferenceOfPointers;
  }

  const AT_4096 := Placement((name: string) => 4096, (i: nat) => 0)
  const AT_4112 := Placement((name: string) => 4112, (i: nat) => 0)

  /** The block is accepted and makes no number of an address but by casts and masks, yet two placements return
      different values. */
  lemma BranchShows()
    ensures ScalarBlock(BLOCK, map[]) && Passes(BLOCK, map[], Example.EMPTY, 1) == Some(FOUND)
    ensures ClosedBlock(BLOCK, map[], Example.EMPTY, FOUND) && BlockChecked(BLOCK, map[], Example.EMPTY, FOUND)
    ensures forall i :: 0 <= i < |BLOCK| ==> NumberTracked(BLOCK[i], ScopeAt(BLOCK, map[], i), Example.EMPTY, FOUND)
    ensures Follow(BLOCK, map[], BITS, AT_4096, BLANK, 7) == Returned(Some(0), map[])
    ensures Follow(BLOCK, map[], BITS, AT_4112, BLANK, 7) == Returned(Some(1), map[])
    ensures !Independent(BLOCK, map[])
  {
    InScalarFragment();
    ClosureFinds();
    PassesChecks();
    NoNumbers();
    BranchReveals(AT_4096);
    BranchReveals(AT_4112);
    hide ScalarBlock, Passes, ClosedBlock, BlockChecked, NumberTracked, ScopeAt, Follow, Independent;
    if Independent(BLOCK, map[]) {
      var path := FollowsAlike(BLOCK, map[], BITS, AT_4096, AT_4112, BLANK, 7);
    }
  }
}
