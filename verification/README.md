# Verification of PSIC

PSIC compiles PSI, a language of flat command lists with labels, jumps and pointers, to LLVM IR. This
project models the parts of the compiler with the most logic in them and proves what they are for. LLVM is
replaced by a small abstract machine: blocks of instructions, byte memory addressed modulo 2^w, and a trap.
`dafny verify dfyconfig.toml` checks everything.

The main results, by part of the compiler:

* **Lowering.** A command list and the control-flow graph generated for it have the same outcomes, for every
  input and also for runs that never end, in any environment that may read and change globals and locals at
  every call, load or store (`Simulation`, built on `Lowering`, `LoweringMeaning`, `Layout`, `BodyPlan` and the
  builder in `Codegen`). What the operators compute is stated apart, on numbers and bits, from the declared type
  of the left operand (`OperatorLaws`).
* **Emitted sequences.** The compare-exchange loop of the float atomics is linearizable and lock-free and writes
  exactly the sum or difference whenever that is an ordinary number (`AtomicFloat`, `FloatValues`); `#memcpy` is
  memmove (`Memmove`); struct stores are canonical and reversible (`StructMemory`); in the code of an accessor
  chain every pointer load is checked for address wrap, and for null on the way, and validation types exactly
  the chains that code generation types without a step from a view or a void pointer (`Accessors`); bounded
  views stay in their backing array (`Views`); pointer differences invert pointer offsets of any operand width
  (`PointerArithmetic`); `#vmin` and `#vmax` do not depend on the target (`FloatMinMax`).
* **Validation.** The alias closure ends and is closed under its rules (`AliasAnalysis`). On a stated fragment,
  with commands in any order that jumps might produce, no local address reaches the caller *exactly when* no
  assignment to a global takes the address of a local or a local that addresses reach, and no such local is
  returned (`AliasEscape`); validation never rejects a typable block that lets none out, and one that it accepts
  can let one out only through a pointer difference (`AliasSoundness`, `AliasExactness`). Where locals are
  stored changes no global, returned value, conditional jump or trap *exactly when* none of these takes an
  address or a local that addresses can influence (`AliasIndependence`), and then runs that follow their jumps
  agree step by step (`AliasRuns`). The locals that hold addresses of strings and constant arrays are all in
  `immutableAliases` *exactly when* no other local takes one out of a global that was assigned one
  (`AliasImmutable`). Three accepted blocks fail these conditions (see Findings). What the closure must contain
  is also stated command by command (`AliasClauses`). The struct check decides acyclicity (`StructCycles`).
* **Front end.** What a text means depends on its tokens alone, whatever blanks and comments stand between them;
  every token of a text can be read anywhere else (`TextLayout`). The programs with a printed form are exactly
  those that some tokens parse to, and parsing undoes printing (`Printing`, `ParsedTrees`); so a program laid
  out in any way is read back as the program (`Spelling`, `PrintedTokens`, `FrontEnd`); the parser ends on every
  token list (`Parser`); literals round-trip (`Literals`).
* **Positions and diagnostics.** Three line scanners and two scalar counters agree on every byte string
  (`SourceLines`, `LexerRules`, `Lexer`); JSON output is valid and reversible (`Json`).

How the model is set up:

* A method models code that works step by step and is proved equal to a specification function; lemmas then
  state what that function means. An error the source raises as an exception is `None`, `Failure` or `false`.
  Diagnostic wording is not modelled.
* The control-flow proof has its own syntax (`PsiSyntax`): integer locals, arguments and globals, all binary
  and unary integer operators, jumps, conditional jumps and returns. Any other instruction (call, `ref`,
  load, store, special instruction) is `Foreign`: it reads its operands, may be preceded by trap guards, and is
  answered by an arbitrary environment. The environment knows the slot of every local; it sees all globals and
  locals, now and at every earlier foreign instruction; it may change any of them, or not return. So a store
  through a pointer to a local is covered, on the generated side as a change of the local's slot. Programs are
  validated bodies (unique labels, unique local names).
* A jump continues at the command after the label, and a label command itself does nothing. A slot is named by
  its command rather than by an address.
* The parser, the type rules and the alias analysis share the syntax tree in `Ast`. A register's index is a
  number, as in the source.
* The alias analysis is modelled with all its transfer rules for closure and termination. The soundness claim
  is made for scalar locals, plain copies, array literals, un-indexed `ref`, the listed casts and arithmetic,
  comparisons, jumps and returns. There each value carries the set of local slots it derives from, also through
  `add` and `sub`; comparisons carry none. `AliasIndependence` makes no such choice: it runs a block twice with its
  locals stored elsewhere and compares the numbers, for any function that each command may compute and any rule
  by which divisions and shifts may trap.
* `normalizedInstructionName` replaces dots by underscores; no name the alias rules compare contains either, so
  the model compares names directly.
* A byte is a character below 256. The lexer and line theorems hold for all character strings.
* Bit patterns of floats are 64-bit vectors; a binary32 pattern occupies the low half. Float addition and
  subtraction are uninterpreted.
* A view has fewer than 2^64 elements and an address at most 64 bits; an allocation ends strictly inside the
  address space. View operands have any integer type; a negative one traps on every view shorter than 2^63.

Where the code differs from what one might expect, the model follows the code: a memory range that ends exactly
at 2^w counts as wrapping and traps; a line break is a carriage return, a line feed or the two together; and the
first slot seen for a name stays in `localReferences`.

## Findings

- `src/validation.cpp:261-262` takes a difference of two pointers for a plain number. The difference from a null
  pointer, or from any pointer that is not into local storage, still carries the address: `i8 x; i8* p = ref x;
  i8* n = null; i64 d = sub p n; ret d;` is accepted and returns the address of `x`
  (`AliasExample.DifferenceEscapes`, `AliasExample.DifferenceIsAddress`). Nothing reaches the caller exactly
  when no global is assigned the address of a local or a local that addresses reach, and no such local is
  returned; these locals are the closure taken without that exception (`AliasEscape.EscapesExactly`). A
  sufficient test on the facts the analysis has: every pointer difference with an operand in
  `localStorageAliases` assigns a local that is in it too (`AliasSoundness.AcceptedNeverLeaks`).
- `cjmp` takes any integer (`src/validation.cpp:583-587`), also one made of an address: `i8 x; i8* p = ref x;
  i64 a = #ptrtoint p; i64 c = and a 16; cjmp c hit; ret 0; label hit; ret 1;` is accepted and returns 0 with
  `x` at 4096 and 1 with `x` at 4112 (`AliasBranch.BranchShows`). Comparisons, pointer differences, and the
  traps of divisions and shifts show addresses in the same way. Where locals are stored never shows exactly when
  no global assignment takes the address of a local, and no global assignment, return, conditional jump,
  division or shift uses a local that such an address can influence, a set computed from the text
  (`AliasIndependence.IndependentExactly`).
- The immutable aliases of validation are locals only (`src/validation.cpp:929-932`): with a global `i8* g`,
  after `g = "abc"; i8* t = g;` the local `t` holds the string and is not among them
  (`AliasImmutable.GlobalForgets`). They are complete exactly when no local outside them takes such an address
  out of a global that was assigned one (`AliasImmutable.ImmutableExactly`).

## Model

| member | source | states |
|---|---|---|
| Simulation.LoweringPreservesMeaning | src/codegen_instructions.cpp:2223-2299 | for every input, initial globals and environment (one that answers every call, load and store, and may change globals and locals) the generated blocks stop with an outcome (result, globals, trace of foreign instructions with what each could read, or trap) exactly when the command list halts with it; so each diverges exactly when the other does, and no lowered body goes wrong |
| Simulation.CompileBody | src/codegen_instructions.cpp:2223-2299 | lowering succeeds exactly on the `Lowerable` bodies, yields a well-formed graph, and that graph has the meaning of the command list |
| Simulation.StepSimulated | src/codegen_instructions.cpp:2276-2289 | one step of the command list is matched by target steps from the position of the command to the position of the next one, with slots, globals and trace in agreement |
| Simulation.RunSimulated | src/codegen_instructions.cpp:2276-2289 | any number of source steps is matched by a target run, and the target advances at least once for every pass of the counter over the text |
| Simulation.HaltsToo | src/codegen_instructions.cpp:2223-2299 | a target that stops is matched by a source that halts with the same outcome, so infinite source runs stay infinite |
| Simulation.EntryMeaning | src/codegen_instructions.cpp:2243-2272 | the entry block leaves every declared local zero, even one whose declaration a jump will skip, and every argument in its slot |
| Simulation.JumpLands | src/codegen_instructions.cpp:1768-1854 | a branch to a label block continues at the command after the label |
| Simulation.IdleStep | src/codegen_instructions.cpp:1856-1900 | an empty command, or a declaration without an initializer, is simulated: no slot changes, whatever it held |
| Simulation.DeclareStep | src/codegen_instructions.cpp:1856-1900 | a declaration with an initializer is simulated: the converted value ends up in the slot reserved for its name, or both sides trap |
| Simulation.AssignStep | src/codegen_instructions.cpp:1902-1924 | an assignment is simulated: the converted value ends up in the local, or in the global if no local of that name is visible |
| Simulation.CjmpStep | src/codegen_instructions.cpp:1768-1854 | a conditional jump is simulated: to the label when the condition is not zero, else to the next command |
| Simulation.RetStep | src/codegen_instructions.cpp:1768-1854 | a return is simulated: both sides stop with the value converted to the result type |
| LoweringMeaning.ComputationMeaning | src/codegen_instructions.cpp:2116-2190 | the items emitted for a computation leave its value in the result temporary and the slots in agreement with the locals, changed ones included, or trap exactly when the computation traps |
| LoweringMeaning.CallMeaning | src/codegen_instructions.cpp:2116-2190 | a foreign instruction traps before its effect exactly when one of its guards fires; otherwise the environment meets the same memory on both sides, and its changes to locals reach their slots |
| LoweringMeaning.OperatorMeaning | src/codegen_instructions.cpp:1926-2112 | the items for a binary operator, with its division and shift guards, compute the operator or trap exactly when it does |
| OperatorLaws.BinaryMeans | src/codegen_instructions.cpp:1926-2112 | in front of any command of a validated body: the type declared for the left operand (argument, earlier local or global) decides what every binary operator computes and when it traps, after the right operand is converted to it; quotient and remainder round toward zero, comparisons order the numbers, shifts and bit operators are said bit by bit |
| OperatorLaws.BinaryLaw | src/codegen_instructions.cpp:1926-2112 | the same for two patterns of one type, for all eighteen operators |
| OperatorLaws.UnaryMeans | src/codegen_instructions.cpp:2116-2190 | a copy keeps the pattern, `not` flips every bit, `lnot` tests for zero |
| OperatorLaws.CoerceConverts | src/codegen_instructions.cpp:145-178 | widening keeps the number by the signedness of the destination, narrowing keeps it modulo 2^w |
| OperatorLaws.HeldOperand | src/codegen_module.cpp:516-526 | an operand is read with the width and signedness of its declaration; literals are signed |
| LoweringMeaning.GuardMeaning | src/codegen_instructions.cpp:2037-2098 | division traps exactly on a zero divisor or on signed overflow, a shift exactly on a count not below the width |
| LoweringMeaning.OperandMeaning | src/codegen_instructions.cpp:97-143 | the items for an operand read its value and width |
| LoweringMeaning.CoerceMeaning | src/codegen_instructions.cpp:145-178 | integer conversion extends by the signedness asked for, or truncates |
| BodyPlan.ReachedStep | src/codegen_instructions.cpp:2276-2289 | lowering one more command keeps the construction on plan: earlier blocks survive, the code is in place, and only the insertion block and unreached label blocks are open |
| BodyPlan.VerifierDecides | src/codegen_instructions.cpp:2291-2310 | once every command has been lowered, the final check of the function passes exactly for the lowerable bodies |
| BodyPlan.StorageInjective | src/codegen_instructions.cpp:2243-2272 | no two visible names share a slot |
| Codegen.FunctionBuilder.GenerateFunctionBody | src/codegen_instructions.cpp:2223-2299 | fails exactly on bodies that are not `Lowerable`; otherwise every block has one terminator, branches stay inside, and the blocks realize the program |
| Codegen.FunctionBuilder.GenerateCommand | src/codegen_instructions.cpp:2276-2289 | one round of the command loop: a dead command is an error unless it is empty or a label, otherwise the command is lowered by its shape |
| Codegen.FunctionBuilder.PredeclareLabels | src/codegen_instructions.cpp:237-251 | creates one empty block for every label and changes nothing else |
| Codegen.FunctionBuilder.ReserveLocals | src/codegen_instructions.cpp:2243-2259 | reserves and zeroes the slot of every declaration in the entry block |
| Codegen.FunctionBuilder.StoreArguments | src/codegen_instructions.cpp:261-272 | stores every argument in its slot and enters it in the tables |
| Codegen.FunctionBuilder.TrapIfCondition | src/codegen_module.cpp:18-34 | ends the block with a branch to a fresh trap block and continues in a fresh block |
| Codegen.FunctionBuilder.ProcessUntargetedInstruction | src/codegen_instructions.cpp:1768-1854 | a label, jump, conditional jump, return or plain instruction extends the graph by its shape or logs an error |
| Codegen.FunctionBuilder.ProcessLocalDeclaration | src/codegen_instructions.cpp:1856-1900 | makes the name visible at its reserved slot and stores the initializer, if there is one |
| Codegen.FunctionBuilder.ProcessRegisterAssignment | src/codegen_instructions.cpp:1902-1924 | stores the computed value in the slot or global the name resolves to, or logs an error |
| Codegen.FunctionBuilder.ProcessBinary | src/codegen_instructions.cpp:1926-2112 | emits operands, conversion, guards and operator, or reports an unresolved operand |
| Codegen.FunctionBuilder.ProcessValue | src/codegen_instructions.cpp:97-143 | emits the read of an operand or reports an undeclared name |
| Codegen.FunctionBuilder.CoerceValue | src/codegen_instructions.cpp:145-178 | emits an extension or truncation between integer widths |
| Codegen.FunctionBuilder.ComputeCommandValue | src/codegen_instructions.cpp:2116-2190 | emits the computation on the right of a command |
| AtomicFloat.Linearizable | src/codegen_instructions.cpp:754-804 | for any number of threads and any interleaving, the cell is the fold of the successful operations in success order; each finished operation has its own success between its invocation and its return and returned the raw cell bits from just before it; real-time order is kept |
| AtomicFloat.FailureMeansProgress | src/codegen_instructions.cpp:754-804 | an exchange about to fail has been overtaken by another thread's write, and an operation fails at most as often as others succeeded since it began |
| AtomicFloat.PublishesCanonical | src/codegen_instructions.cpp:754-804 | every value the loop writes is neither subnormal nor a non-canonical NaN |
| AtomicFloat.SuccessWrites | src/codegen_instructions.cpp:754-804 | in every run each success writes the sum or difference of the bits it found and its operand: bit for bit when all three are ordinary numbers, otherwise with subnormals taken for zeros of their sign and a NaN for the one quiet NaN |
| AtomicFloat.RunKeepsInvariant | src/codegen_instructions.cpp:754-804 | every reachable state keeps the log, the expected bits of every thread and the finished operations consistent |
| FloatBits.CanonicalizeYieldsCanonical | src/codegen_instructions.cpp:57-95 | canonicalizing any pattern gives neither a subnormal nor a NaN other than the positive quiet one, in both formats |
| FloatBits.FlushKeepsPattern | src/codegen_instructions.cpp:20-55 | flushing stays inside the format and leaves no subnormal |
| FloatValues.FlushMeans | src/codegen_instructions.cpp:20-55 | flushing turns a subnormal, told by its fields, into the zero of its sign and changes nothing else |
| FloatValues.CanonicalizeMeans | src/codegen_instructions.cpp:57-95 | canonicalizing turns a NaN, told by its fields, into the one quiet NaN, a subnormal into the zero of its sign, and changes nothing else |
| FloatMinMax.StableMeans | src/codegen_instructions.cpp:596-678 | for every native result that a target may give, the chain of selects computes the lesser or greater lane value with -0 below +0; a number beats a quiet NaN; a signaling NaN or two NaNs give the canonical NaN |
| FloatMinMax.TargetIndependent | src/codegen_instructions.cpp:596-678 | two minnum or maxnum implementations that differ only on zero signs and NaNs give identical bits |
| FloatMinMax.LaneMeans | src/codegen_instructions.cpp:596-678 | a lane for every pair of patterns, by their fields and their place on the number line: which operand comes out, or the quiet NaN |
| FloatMinMax.LaneCommutes | src/codegen_instructions.cpp:596-678 | swapping the operands does not change the bits |
| FloatMinMax.LaneIsCanonical | src/codegen_instructions.cpp:596-678 | the result is neither subnormal nor a non-canonical NaN |
| FloatMinMax.LatticeOnNumbers | src/codegen_instructions.cpp:596-626 | on numbers the operations are the greatest lower and least upper bound |
| FloatMinMax.OrderIsAntisymmetric | src/codegen_instructions.cpp:596-626 | the order of lane values tells all patterns apart, so the bounds are unique |
| FloatMinMax.StablePicksZero | src/codegen_instructions.cpp:605-626 | on two zeros `vmin` is -0 if either operand is and `vmax` only if both are, whatever the target returned |
| Memmove.MemoryCopy | src/codegen_instructions.cpp:1077-1199 | traps exactly on a bad range and then changes no byte; otherwise every destination byte is the old source byte and all others are unchanged, whatever the overlap |
| Memmove.CopyLoop | src/codegen_instructions.cpp:1139-1193 | the byte loop, in the direction chosen by the addresses, moves the old source bytes |
| Memmove.MemorySet | src/codegen_instructions.cpp:1077-1199 | traps exactly on a bad range; otherwise fills the destination with the low byte of the value |
| Memmove.SourceIntact | src/codegen_instructions.cpp:1139-1193 | the byte about to be read has not been overwritten yet |
| Memmove.MovedAt | src/codegen_instructions.cpp:1077-1199 | what each byte holds after a move |
| Memmove.EmptyRangeAllowed | src/codegen_instructions.cpp:1119-1130 | a length of zero passes the checks at every address, null included |
| Memmove.LengthFits | src/codegen_instructions.cpp:1097-1117 | the narrowing test fires exactly on lengths that no pointer can count |
| ByteMemory.RangeWrapsIff | src/codegen_module.cpp:58-90 | the end-address test fires exactly when the range leaves the address space |
| ByteMemory.AccessWrapsIff | src/codegen_module.cpp:92-112 | the same for an access of a fixed size, including sizes that no pointer can count |
| StructMemory.StoreWithZeroedPadding | src/codegen_module.cpp:210-233 | the bytes written depend on the value alone, padding included, and nothing outside the allocation changes |
| StructMemory.StoreBytewise | src/codegen_module.cpp:184-208 | copies a value byte by byte from a zeroed temporary |
| StructMemory.LoadBytewise | src/codegen_module.cpp:161-182 | reads the value that the bytes at the address encode |
| StructMemory.DecodeImage | src/codegen_module.cpp:161-233 | reading the image of a value gives the value, for every nested layout without overlapping fields |
| StructMemory.ImageInjective | src/codegen_module.cpp:210-233 | two values of a type have equal bytes exactly when they are equal |
| StructMemory.PaddingIsZero | src/codegen_module.cpp:219-222 | a byte that no field covers is zero |
| StructMemory.StoreThenLoad | src/codegen_module.cpp:161-233 | store, then load, gives the value back over any old memory |
| Accessors.ReadRefines | src/codegen_instructions.cpp:107-129 | loading a register operand reaches the place its chain denotes and traps exactly when that place or one on the way cannot be used |
| Accessors.ReferenceRefines | src/codegen_instructions.cpp:316-325 | `ref` forms the address of the place; a null last pointer does not trap |
| Accessors.ChainRuns | src/codegen_module.cpp:414-498 | the emitted loads, checks and offsets compute the address of the place, for chains of any length |
| Accessors.LoadsAreChecked | src/codegen_module.cpp:464-491 | in the emitted code, also in a run that traps later: every pointer load is from an address whose range does not wrap, and if a pointer was loaded before it, that address is not null and none of the earlier loaded pointers was |
| Accessors.ResolveRegisterAddress | src/codegen_module.cpp:414-498 | the loop over the accessors emits the code of the chain and computes its type, or fails exactly when a step does not type |
| Accessors.TypesAgree | src/validation.cpp:285-316 | a chain that validation has typed gets the same type, qualifiers included, from code generation |
| Accessors.TypedExactly | src/validation.cpp:285-316 | validation types exactly the chains that code generation types without a step from a view or an index of a void pointer |
| Accessors.StepsAgree | src/codegen_module.cpp:362-401 | the same for one accessor |
| Accessors.DeclareFields | src/codegen_module.cpp:676-688 | the field tables give every name the type that a search through the declaration finds |
| Views.Slice | src/codegen_instructions.cpp:1359-1405 | succeeds exactly when start plus count, brought to 64 bits and counted without wrapping, is at most the length, and the data pointer moves by start elements; on a view shorter than 2^63 a negative start or count of any width traps |
| Views.ViewLoad | src/codegen_instructions.cpp:1407-1456 | inside its backing a load reads exactly cell offset plus index and traps exactly on an index outside the view; an index of any width and signedness, where negative ones trap on views shorter than 2^63 |
| Views.ViewStore | src/codegen_instructions.cpp:1407-1459 | a store changes exactly that cell, among cells and among bytes; an index outside the view, negative ones included, traps and changes nothing |
| Views.CheckedElement | src/codegen_instructions.cpp:1416-1453 | the address of the element exactly when the index is in the view, neither pointer is null and the access does not wrap |
| Views.BuildArrayLiteral | src/codegen_instructions.cpp:214-233 | fills the cells with the values, changes no byte outside them and returns the view of all of them |
| Views.ChainStaysInside | src/codegen_instructions.cpp:1359-1405 | a chain of slices of any length succeeds exactly when each fits the one before, and stays inside the backing at the sum of the starts |
| Views.SliceOfSlice | src/codegen_instructions.cpp:1359-1405 | a slice of a slice is one slice at the summed start |
| Views.ConvertedMeans | src/codegen_instructions.cpp:1328-1339 | brought to 64 bits by its own signedness, an operand of any width is its number if that is not negative, and at least 2^63 otherwise |
| PointerArithmetic.DivisionIsSafe | src/codegen_instructions.cpp:1962-1981 | the w + 1 bit division has a positive divisor equal to the element size, never overflows, and its quotient fits w bits |
| PointerArithmetic.SubUndoesAdd | src/codegen_instructions.cpp:1948-1998 | for an offset operand of any width and signedness, extended or cut to the pointer width: subtracting the old pointer from the moved one gives the number that the operand stands for if and only if that many elements in bytes is a signed pointer-width integer |
| PointerArithmetic.OffsetIsValue | src/codegen_instructions.cpp:1985-1997 | an offset operand, extended by its own signedness or cut, is the number it stands for modulo 2^w |
| PointerArithmetic.DistanceOfOffset | src/codegen_instructions.cpp:1982-1998 | the byte distance after moving by k elements is k times the size up to a multiple of 2^w, and exactly that if it fits |
| AliasAnalysis.ComputeClosure | src/validation.cpp:750-944 | the repeated passes end for every block after at most five times the number of names plus one passes; the facts are then a fixed point and closed under every rule, or a pass has raised an error |
| AliasAnalysis.VisitBlock | src/validation.cpp:754-943 | one pass: the flag is set exactly when the pass added a fact |
| AliasAnalysis.VisitCommand | src/validation.cpp:755-942 | one visit of a command applies the transfer rules in order, and the flag tells whether a fact was added |
| AliasAnalysis.VisitStore | src/validation.cpp:757-786 | a store through a pointer with a known slot taints that slot |
| AliasAnalysis.VisitCopy | src/validation.cpp:787-810 | `#memcpy` from tainted contents taints the contents of the destination and of its slot |
| AliasAnalysis.VisitLoad | src/validation.cpp:811-826 | a load through a pointer to a possibly immutable slot taints the target |
| AliasAnalysis.VisitFieldWrite | src/validation.cpp:828-849 | an assignment through accessors taints the aggregate |
| AliasAnalysis.VisitContents | src/validation.cpp:857-870 | array literals with addresses and copies of tainted aggregates taint the contents of the target |
| AliasAnalysis.VisitReferences | src/validation.cpp:871-928 | tracks which slot a name refers to; the first slot seen stays |
| AliasAnalysis.VisitStorage | src/validation.cpp:929-942 | immutability, and whether the target may hold a local address |
| AliasAnalysis.FindSlot | src/validation.cpp:898-908 | operands with different slots leave none |
| AliasAnalysis.VisibleLocals | src/validation.cpp:730-737 | the locals a command may name depend on its place in the text, not on jumps |
| AliasAnalysis.FixedIsClosed | src/validation.cpp:754-943 | a command that adds nothing satisfies every transfer rule, each stated as an implication over the five containers |
| AliasAnalysis.PassFixedIsClosed | src/validation.cpp:752-944 | a pass that ends where it began is closed at every command |
| AliasAnalysis.CommandExtends | src/validation.cpp:755-942 | a visit only adds facts, and only about names of the block |
| AliasAnalysis.RoomShrinks | src/validation.cpp:752-944 | the termination measure: names times five minus container sizes falls with every added fact |
| AliasImmutable.ImmutableExactly | src/validation.cpp:143-176 | for every block of the fragment with closed facts: along every path each local that holds an address of a string or of constant storage is in `immutableAliases`, if and only if every local that takes one out of a global that was assigned one is in it |
| AliasImmutable.NoGlobalNoLoss | src/validation.cpp:929-932 | so when no global outside the constant ones is assigned such an address, along every path each local that holds one is in `immutableAliases` |
| AliasImmutable.SpreadIsHeld | src/validation.cpp:143-176 | each variable in the computed spread of such addresses holds one along some path |
| AliasImmutable.GlobalForgets | src/validation.cpp:929-932 | the failing input: a string that passes through a global reaches a local that an accepted closure does not name |
| AliasClauses.StoredIsKnown | src/validation.cpp:757-786 | after a store through a tracked pointer, its slot is tracked for what the stored local may be |
| AliasClauses.CopiedIsKnown | src/validation.cpp:787-810 | `#memcpy` from tainted contents leaves the destination and its slot tainted |
| AliasClauses.LoadedIsKnown | src/validation.cpp:811-826 | a load through a pointer is tracked for what the slot of the pointer may hold |
| AliasClauses.FieldIsKnown | src/validation.cpp:828-849 | writing a tracked local into a field taints the whole |
| AliasClauses.ContentsAreKnown | src/validation.cpp:857-870 | array literals with a tracked local at any depth, and copies of tainted contents, are tainted |
| AliasClauses.ReferencesAreKnown | src/validation.cpp:871-928 | `ref` of a local gives a slot, and an aggregate reference for structs and for indexed local storage |
| AliasClauses.ReferencesAreKept | src/validation.cpp:886-928 | copies, casts and `add` keep slots and aggregate references |
| AliasClauses.AddressesAreKnown | src/validation.cpp:226-240 | copies of tracked locals, array literals and references are tracked |
| AliasClauses.BitsAreKnown | src/validation.cpp:263-281 | casts and arithmetic on a tracked local are tracked |
| AliasClauses.SubtractedIsKnown | src/validation.cpp:261-281 | so is a difference with a literal, null included, or with a local that is no pointer |
| AliasClauses.EscapesAreRejected | src/validation.cpp:1383-1387 | a tracked local is neither returned nor assigned to a global, plainly or through accessors |
| AliasClauses.IndexedWritesAreRejected | src/validation.cpp:1505-1514 | nor written through an index, unless a tracked local pointer is indexed, once and first |
| AliasSoundness.AcceptedNeverLeaks | src/validation.cpp:218-283 | on the stated fragment, if every pointer difference with a tracked operand goes to a tracked local: after any sequence of jumps, no global and no returned value of an accepted block derives from a local address, also not through differences, and every local that does is in `localStorageAliases` |
| AliasEscape.ValidateAliases | src/validation.cpp:718-944 | closure and checks together accept exactly when the closure succeeds and every check passes; what an accepted block of the fragment lets out is decided exactly by the locals that addresses reach, and nothing gets out if its pointer differences are tracked |
| AliasEscape.EscapesExactly | src/validation.cpp:218-283 | for every block of the fragment: along no path does a local address reach a global or a returned value, if and only if no assignment to a global takes from the locals that addresses reach and none of these is returned |
| AliasEscape.NoFalseAlarm | src/validation.cpp:1383-1547 | a block of the fragment that lets no address out passes the checks |
| AliasEscape.SourceIsMayPoint | src/validation.cpp:218-283 | the locals that addresses reach follow `commandMayPointIntoLocalStorage` with its exception for pointer differences taken out, and nothing else |
| AliasEscape.ReachingIsLeast | src/validation.cpp:752-944 | they are the least set closed under that rule |
| AliasEscape.StorageReached | src/validation.cpp:752-944 | `localStorageAliases` stays inside that set |
| AliasEscape.TrackedIsReached | src/validation.cpp:752-944 | and is that set when the pointer differences of an accepted block are tracked |
| AliasExactness.SoundExactly | src/validation.cpp:218-283 | for every accepted block of the fragment with the facts of its closure: along every path the facts cover all locals that hold a local address and none reaches the caller, if and only if every pointer difference with an operand in `localStorageAliases` assigns a local in it |
| AliasExactness.FactsRealized | src/validation.cpp:752-944 | every fact in `localStorageAliases` is true along some path: the closure claims nothing idly |
| AliasExactness.UntrackedMissed | src/validation.cpp:261-262 | a pointer difference with a tracked operand that goes to an untracked name leaves, along some path, a local address where the facts expect none |
| AliasExample.DifferenceEscapes | src/validation.cpp:261-262 | the failing input: an accepted block of the fragment, with the facts of its closure, that returns a value derived from a local address |
| AliasExample.DifferenceIsAddress | src/validation.cpp:261-262 | that block returns exactly the address of its local, wherever the local is stored |
| AliasSoundness.CheckBlock | src/validation.cpp:1383-1547 | the checking pass accepts exactly when every return, global assignment and accessor assignment passes, and it never adds a fact to `immutableAliases` |
| AliasSoundness.RunSafe | src/validation.cpp:218-283 | with its differences tracked, the facts over-approximate every reachable state of an accepted block |
| AliasSoundness.StepSafe | src/validation.cpp:933-942 | executing one command keeps the facts an over-approximation, unless it is an untracked difference |
| AliasSoundness.ResultCovered | src/validation.cpp:218-283 | whenever the result of a command derives from a local address, `commandMayPointIntoLocalStorage` says so or the command is a pointer difference with a tracked operand |
| AliasIndependence.HiddenNeverShows | src/validation.cpp:218-283 | if every command hides a closed set of locals, placement never shows: the same globals, returned value, jumps and traps along every path |
| AliasIndependence.IndependentExactly | src/validation.cpp:218-283 | for every block of the fragment: in no world and along no path does the placement of locals change a global, a returned value, the decision of a conditional jump or a trap, if and only if no command assigns a global from, returns, jumps by or may trap by a local that the placement can influence |
| AliasIndependence.UnhiddenShows | src/validation.cpp:218-283 | a command that does so shows, in a world where results are sums, a difference between two placements along some path |
| AliasIndependence.TrackedExactly | src/validation.cpp:218-283 | seen from the facts of an accepted block: placement never shows and `localStorageAliases` holds every local it can influence, if and only if numbers made of tracked locals go to tracked locals and no tracked local decides a jump or a trap |
| AliasRuns.RunsReturnAlike | src/codegen_instructions.cpp:1768-1854 | under that condition two runs that follow labels and jumps by value, with locals stored anywhere, are at the same command with the same globals after any number of steps, or have returned the same value, or have trapped |
| AliasRuns.FollowsAlike | src/codegen_instructions.cpp:1768-1854 | such runs go along one path |
| AliasBranch.BranchShows | src/validation.cpp:583-587 | the second failing input: an accepted block without comparison or pointer difference that returns 0 or 1 depending on where its local is |
| AliasBranch.BranchReveals | src/validation.cpp:583-587 | for every placement that block returns the tested bit of the address |
| AliasIndependence.RunsAlike | src/validation.cpp:218-283 | two runs along the same path agree on all globals and on every local outside a closed and hidden set, for any two placements |
| AliasIndependence.ResultAlike | src/validation.cpp:218-283 | a command that takes from none of the given locals computes the same value under both placements |
| StructCycles.ValidateStructCycles | src/validation.cpp:1569-1575 | accepts exactly the declaration sets whose by-value containment is acyclic, in whatever order structs are visited, and acceptance comes with a rank |
| StructCycles.CycleCheck.VisitStructByValue | src/validation.cpp:1551-1567 | success leaves the struct and all it contains ranked and the path restored; failure exhibits a cycle |
| StructCycles.CycleMeansCyclic | src/validation.cpp:1551-1567 | no rank exists once there is a cycle |
| StructCycles.SizeIsUnique | src/validation.cpp:1551-1575 | the number of scalar fields (not bytes; alignment is not modelled) computed by recursion along containment ends, and does not depend on the rank that justifies it |
| SourceLines.SourceLineAt | src/compiler.cpp:19-39 | finds a line exactly when the number is between one and the last line, and for every position on it returns the text of its line |
| SourceLines.FindLine | src/main.cpp:533-546 | selects the line of every position that has that line number |
| SourceLines.CaretPrefix | src/main.cpp:549-572 | steps over that many scalars, padding with blanks up to the terminal column, tabs included |
| SourceLines.TabStops | src/main.cpp:549-572 | the terminal column moves as a terminal does: a tab goes to the next multiple of eight |
| SourceLines.PlaceCaret | src/main.cpp:533-573 | the caret points at the first byte of the token whose line and column are given |
| SourceLines.CursorMeaning | src/lexer.cpp:68-95 | for every byte string, malformed ones included, the line the lexer counts is the line, and its column is one more than the number of scalars begun on it |
| SourceLines.ColumnLeadsBack | src/lexer.cpp:68-95 | stepping column minus one scalars from the start of its line leads to the position |
| SourceLines.OneLine | src/lexer.cpp:68-95 | a line number selects one line, also with mixed line breaks |
| SourceLines.LengthWithinLine | src/main.cpp:425-444 | a scalar never runs over a line end, so scanning to the line end or to the end of the text is the same |
| LexerRules.TokenInItsLine | src/lexer.cpp:250-330 | every token, the end-of-file token included, is found on its line at the place its column leads to |
| LexerRules.TokensLocated | src/lexer.cpp:250-330 | every token stands in the source where its line and column say |
| LexerRules.TokensEndOnce | src/lexer.cpp:250-262 | the end-of-file token is last and nowhere else |
| Lexer.Lexer.Tokenize | src/lexer.cpp:250-330 | the tokens, their text, lines and columns, or an error |
| Lexer.Lexer.ReadChar | src/lexer.cpp:68-95 | keeps line, column, pending bytes and the carriage-return flag equal to what the prefix read so far determines |
| Lexer.Lexer.SkipWhitespaceAndComments | src/lexer.cpp:102-143 | stops at the first byte that is neither blank nor comment, or fails in an unclosed comment |
| Lexer.Lexer.ReadToken | src/lexer.cpp:264-329 | reads the token that starts here, with its line and column |
| Lexer.Lexer.ReadNumber | src/lexer.cpp:158-196 | reads the longest number, or fails on a base prefix without digits |
| Lexer.Lexer.ReadString | src/lexer.cpp:198-224 | reads to the first quote that is not escaped, or fails |
| Lexer.Lexer.ReadSpecialToken | src/lexer.cpp:226-248 | reads a marked name, with dots after `#` only |
| Lexer.Lexer.ReadIdentifier | src/lexer.cpp:145-156 | reads the longest run of letters and digits |
| Utf8.Utf8SequenceLength | src/lexer.cpp:25-44 | the length of the scalar at an offset; a malformed byte stands alone |
| Utf8.RecognizedIsWellFormed | src/main.cpp:425-444 | a sequence longer than one byte is well-formed UTF-8 |
| Utf8.WellFormedIsRecognized | src/main.cpp:425-444 | a well-formed sequence is recognized with its length |
| Utf8.WellFormedIsEncoding | src/main.cpp:433-442 | what the lead and second byte tests admit is the shortest encoding of a scalar value (section 3 of RFC 3629) |
| Utf8.EncodingIsWellFormed | src/main.cpp:433-442 | every scalar value is admitted |
| Literals.ParseSignedIntegerLiteral | src/parser.cpp:16-52 | the value of the digits if it fits 64 signed bits, otherwise an error, without any overflow on the way |
| Literals.ParseDigits | src/parser.cpp:33-45 | the digit loop: the exact value up to the limit, and a failure beyond it or on a foreign digit |
| Literals.LiteralReads | src/parser.cpp:16-52 | every integer written in base 8, 10 or 16 reads back exactly when it fits 64 bits and is rejected otherwise |
| Literals.ReadIndexNumber | src/parser.cpp:148-181 | a plain whole number up to 2^31 - 1, or an error |
| Literals.IndexReads | src/parser.cpp:148-181 | every such number reads back from its decimal digits |
| Literals.DecodeStringEscapes | src/parser.cpp:282-342 | decodes the escapes between the quotes or reports which error comes first |
| Literals.LexedNeverDangles | src/parser.cpp:295-297 | the dangling-backslash error cannot arise from a string token |
| Literals.StringEndsAfterBalanced | src/lexer.cpp:198-224 | a string token ends exactly at the first quote after text without a bare quote or an open escape |
| Literals.QuotedLexes | src/lexer.cpp:198-224 | each byte string, written byte by byte in any admissible style, lexes to one string token that decodes to it |
| Literals.EscapedReads | src/parser.cpp:282-342 | decoding undoes escaping, in every style |
| Json.WriteJsonString | src/main.cpp:446-480 | the quoted body, piece by piece |
| Json.OutputIsJson | src/main.cpp:446-480 | for every byte string the output is a JSON string (section 7 of RFC 8259) in well-formed UTF-8 (section 4 of RFC 3629) that stands for the text with each stray byte read as the scalar of that number |
| Json.JsonRoundTrip | src/main.cpp:446-480 | on well-formed UTF-8, reading the output gives the input back |
| Printing.ParsingUndoesPrinting | src/parser.cpp:656-664 | every legal program parses back to itself from its printed tokens |
| ParsedTrees.LegalExactlyParsed | src/parser.cpp:656-664 | the legal programs are exactly those that some list of tokens parses to |
| ParsedTrees.PrintingKeepsMeaning | src/parser.cpp:656-664 | printing what was parsed and parsing it again gives the same program, for every accepted token list |
| ParsedTrees.DeclarationParsed | src/parser.cpp:610-648 | a parsed declaration is legal: a global whose type is constant or named like a keyword began with `volatile` |
| ParsedTrees.CommandParsed | src/parser.cpp:451-524 | a parsed command is legal: `volatile` access only with an instruction, and a type named like an instruction only with `const` |
| ParsedTrees.OperandsParsed | src/parser.cpp:511-513 | parsed operands never have an array right after a register |
| ParsedTrees.TypeParsed | src/parser.cpp:183-221 | a parsed type is legal, and its first token is its base unless it is qualified |
| ParsedTrees.LooseFieldsParse | src/parser.cpp:546-562 | the semicolon after any struct member may be missing |
| ParsedTrees.QualifiersEitherOrder | src/parser.cpp:183-221 | the two qualifiers may come in either order |
| ParsedTrees.EmptyInitializer | src/parser.cpp:498-523 | an equals sign without a value declares without initializer |
| Printing.DeclarationUndone | src/parser.cpp:610-648 | the same for a declaration, whatever follows |
| Printing.CommandUndone | src/parser.cpp:451-524 | the same for a command |
| Printing.OperandsUndone | src/parser.cpp:511-513 | the same for an operand list |
| Printing.ValueUndone | src/parser.cpp:344-449 | the same for a value |
| Printing.TypeUndone | src/parser.cpp:183-221 | the same for a type with qualifiers, stars, view brackets and alignment |
| Printing.RegisterUndone | src/parser.cpp:223-249 | the same for a register with accessors |
| Printing.StringUndone | src/parser.cpp:387-398 | a quoted string token stands for its content |
| Printing.IntegerUndone | src/parser.cpp:348-386 | an integer token stands for its value and is not mistaken for a float |
| Printing.NumberUndone | src/parser.cpp:348-386 | an integer spelled in base 8, 10 or 16 is an integer and no float, rejected exactly when it does not fit 64 bits |
| Printing.ReservedWordsParse | src/parser.cpp:99-109 | the six reserved words are constants or qualifiers and name nothing |
| FrontEnd.Read | src/lexer.cpp:250-330 | lexing and parsing always end, with the meaning of the text or an error |
| FrontEnd.ReadingUndoesRendering | src/parser.cpp:656-664 | a legal program with identifiers for names, printed, laid out as text with any blanks and comments, lexed and parsed, is the program |
| FrontEnd.LayoutMeansNothing | src/lexer.cpp:102-143 | any layout of the tokens of a text, with gaps wherever two tokens would run into each other, has the meaning of the text |
| FrontEnd.PieceMeansNothing | src/lexer.cpp:102-143 | a blank, a line comment with its break or a closed block comment in front of a text does not change its meaning |
| TextLayout.LayoutLexes | src/lexer.cpp:250-330 | however tokens are laid out, the text is read as those tokens |
| TextLayout.PieceSkipped | src/lexer.cpp:102-143 | a blank or a comment in front of a text leaves its tokens as they are |
| TextLayout.OpenCommentFails | src/lexer.cpp:102-143 | a block comment that is never closed is an error |
| TextLayout.TokenLexes | src/lexer.cpp:264-329 | a token in front of a text is read first, and then the text as it is read alone |
| TextLayout.TokenEnds | src/lexer.cpp:264-329 | a token ends where its text ends, whatever may follow it |
| TextLayout.LexedAreSpelled | src/lexer.cpp:264-329 | every token that a text is read as is read as that token anywhere |
| TextLayout.NamesSpelled | src/lexer.cpp:145-156 | identifier tokens are exactly names; marked tokens are a mark and a name |
| PrintedTokens.ProgramSpelled | src/parser.cpp:656-664 | every token that the printing of such a program puts out is read back as that token before any blank |
| Spelling.LiteralLexes | src/lexer.cpp:158-196 | every integer, written in base 8, 10 or 16, lexes to one number token and the end of file, and that token stands for the integer exactly when it fits 64 bits |
| Spelling.NumberReads | src/lexer.cpp:158-196 | such a literal is read as one number token, at the end of the text or before a blank |
| Spelling.FractionReads | src/lexer.cpp:158-196 | so are digits around one point, with or without a sign |
| Spelling.QuotedReads | src/lexer.cpp:198-224 | quoted text whose quotes and backslashes are escaped is read as one string token |
| Spelling.NameReads | src/lexer.cpp:145-156 | an identifier is read as one identifier token |
| Spelling.SpecialReads | src/lexer.cpp:226-248 | a marked name is read as one token of its kind, with dots only after `#` |
| Spelling.PunctuationReads | src/lexer.cpp:264-329 | a punctuation mark is read as one token of its kind |
| Parser.Parser.ReadProgram | src/parser.cpp:656-664 | ends on every token list whose only end-of-file token is last; success ends on that token and yields what the grammar says |
| Parser.Parser.ConsumeToken | src/parser.cpp:70-75 | moves on, except at the last token |
| Parser.Parser.ExpectToken | src/parser.cpp:99-109 | moves past a token of the kind asked for, unless it is a reserved word in place of a name; otherwise fails in place |
| Parser.Parser.ExpectIndexNumber | src/parser.cpp:148-181 | moves past a number token that spells a plain whole number up to 2^31 - 1, or fails |
| Parser.Parser.ReadType | src/parser.cpp:183-221 | yields the type that the grammar gives for the remaining tokens and stops right after it, or fails exactly where the grammar does (duplicate qualifier, reserved name, star after a view, bad alignment) |
| Parser.Parser.ReadRegister | src/parser.cpp:223-249 | yields the register that the grammar gives and stops after its last accessor, or fails exactly where the grammar does |
| Parser.Parser.ReadInstruction | src/parser.cpp:251-271 | yields a special instruction without its marker, or one of the 28 plain names, or fails |
| Parser.Parser.ReadValue | src/parser.cpp:344-449 | yields the value that the grammar gives and stops right after it, or fails exactly where the grammar does (literal out of range, bad escape, reserved name, no value) |
| Parser.Parser.ReadArray | src/parser.cpp:409-422 | yields the array literal that the grammar gives; each round of the loop consumes a comma, so it ends |
| Parser.Parser.ReadCommand | src/parser.cpp:451-524 | yields the command that the grammar gives, with the `volatile` prefix in either place, or fails exactly where the grammar does |
| Parser.Parser.ReadTarget | src/parser.cpp:467-496 | decides by at most three tokens between an instruction, a special register, a declaration and an assignment, as the grammar does |
| Parser.Parser.ReadAction | src/parser.cpp:498-523 | yields the rest of a command after its target: nothing but a semicolon, an instruction with operands, or at most one value |
| Parser.Parser.ReadOperands | src/parser.cpp:511-513 | yields the operands up to the semicolon; each round consumes a token or fails, so it ends even at the end of file |
| Parser.Parser.ReadBlock | src/parser.cpp:526-535 | yields the commands between braces, or fails; it never loops on a missing closing brace |
| Parser.Parser.ReadStruct | src/parser.cpp:546-562 | yields the struct that the grammar gives; a semicolon between members may be missing before a name |
| Parser.Parser.ReadFunc | src/parser.cpp:564-583 | yields a declaration without body at a semicolon and a definition at a brace, or fails |
| Parser.Parser.ReadDeclaration | src/parser.cpp:610-648 | dispatches on the first word as the grammar does; without a keyword it is a global |

## Left out

- LLVM passes, object emission, JIT, target machines, triples and command-line options: calls without visible
  semantics, wrappers or input and output.
- Inline assembly, system registers, port access, syscalls and special-register tables: table lookups and opaque
  text.
- Simulation.LoweringPreservesMeaning: integer locals, arguments and globals only. Pointer, float, vector, view and
  struct locals, function pointers and special-register targets are not in its syntax; the memory sequences
  behind loads and stores have their own modules, and here any such instruction is an answer of the environment.
- Simulation.CompileBody: the same restriction to integer locals.
- LoweringMeaning.ComputationMeaning: integer computations and foreign instructions; no pointer or float operand.
- LoweringMeaning.OperatorMeaning: the integer cases of the binary operators.
- LoweringMeaning.OperandMeaning: numbers, booleans and plain registers; accessor chains are in Accessors.
- LoweringMeaning.CoerceMeaning: conversions between integer widths.
- Codegen.FunctionBuilder.ProcessUntargetedInstruction: stores and calls are foreign instructions.
- Codegen.FunctionBuilder.ProcessLocalDeclaration: integer types, without `volatile` and alignment.
- Codegen.FunctionBuilder.ProcessRegisterAssignment: targets without accessors.
- Codegen.FunctionBuilder.ProcessBinary: the integer cases; pointer `add` and `sub` are in PointerArithmetic.
- Codegen.FunctionBuilder.ProcessValue: numbers, booleans and plain registers.
- Codegen.FunctionBuilder.CoerceValue: conversions between integer widths.
- Codegen.FunctionBuilder.ComputeCommandValue: `ref`, loads and special instructions are foreign instructions.
- Type checks of individual instructions outside the alias rules and the struct check: many independent conditions
  on one command each.
- Alias facts carried through loads, stores, `#memcpy`, struct copies, views and calls are in the closure but not
  in the soundness claim: `localReferences` keeps only the first slot of a name, and whole-struct copies are
  recorded only in `localAggregateContents`.
- AliasEscape.EscapesExactly: exact over all orders of commands, as the analysis is, and not only over those that the
  jumps of the block allow.
- AliasIndependence.IndependentExactly: the same; and a floating-point division is taken for one that may trap.
- AliasSoundness.CheckBlock: models the return, global and accessor checks and the recording of immutable aliases,
  not the checks on stores, `#memcpy`, calls and writes to immutable storage.
- Numeric rounding of float operations.
- Parser.Parser.ReadValue: a literal with a decimal point keeps its spelling; its conversion, and the range error
  of that conversion, are not part of this model.
- Weak memory, and races between byte accesses and word atomics: the atomic protocol runs on one sequentially
  consistent cell, and the monotonic seed load is an ordinary read.
- AtomicFloat.Linearizable: models the loop as steps of a thread rather than as code over a mutable cell, because
  the statement is about interleavings.
- Vector lanes: FloatMinMax treats one lane, since lanes do not interact.
- Volatile loads and stores of the memory helpers: a volatile access is one load or store instead of a byte loop,
  with the same bytes.
- AliasImmutable.ImmutableExactly: arguments are taken not to point into strings or constant arrays; exact over all
  orders of commands.
- FrontEnd.ReadingUndoesRendering: names must be identifiers and float spellings digits around one point, because a
  tree built by hand may hold names that no text can spell.
- Source locations in the syntax tree, and the text and location of error messages.
- The sharing of array-literal values by pointer in the syntax tree (`ownedValues`): values are trees.
- Non-integral pointer targets and misalignment traps of atomics.
