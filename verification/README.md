# leanVM, ZODA and GPU reference models

A Dafny model of the verifiable-computation code in this repository: the back end of the
zkDSL compiler with the machine it targets, the number-theoretic transforms, the ZODA tensor
code, the gadgets of the recursive verifier, the CPU references of sumcheck and folding, and
the generated Merkle program. `dafny verify dfyconfig.toml` checks all of it.

## What is modelled

- **Algebra** (`Arith`, `Rings`, `KoalaBear`, `RootsOfUnity`, `Polynomials`, `Interpolation`):
  an abstract commutative ring or field whose laws are stated once, and integers modulo
  p = 2^31 - 2^24 + 1 as an instance, with p proved prime. Everything that does not need the
  concrete field is stated over any ring.
- **Compiler** (`Machine`, `Ir`, `SimpleLang`, `CompilerSpec`, `Compiler`, `Assembly`,
  `Linking`, `Simulation` and its companions, `FrameSpace`, `FrameSize`, `Preservation`,
  `CompilerCorrectness`, `Occurrences`, `Coalescing`, `DeadStoreElimination`, `HarmlessStores`,
  `Scoping`, `ExampleProgram`, `Gadgets`, `RangeChecks`): a class with the compiler's fields whose
  methods are proved against a specification function, and one simulation theorem about that function.
  Structured lines have their own semantics: names are unified with values, so an assignment
  to a set name is a check, as write-once memory makes it. The cells of an array of constant
  size are names too. What the compiler's analyses find is also said of the lines that occur in a
  body, without them. A run is unrolled `fuel` calls deep; an unfinished run is one that needs
  more.
- **Transforms** (`BitReversal`, `CosetFft`, `CircuitParameters`, `Syndrome`, `EvalsDft`,
  `EvalsDftLoops`): the in-place loops against closed-form values.
- **Multilinear extensions** (`Multilinear`, `MleGadgets`, `Successor`, `Folding`, `Sumcheck`,
  `Stacking`, `StackedVariables`): the verifier's closed forms, the folds, and the sumcheck of the
  reference prover with the verifier's loop, complete for honest and sound for arbitrary round
  polynomials.
- **ZODA** (`MerkleTree`, `Ntt`, `TensorAlgebra`, `Zoda`, `ZodaProperties`, `ZodaBinding`): the
  transform is defined by its evaluation points and its inverse by the usual sum; that they are
  inverse to each other is proved. The extension field is a commutative ring with an embedded base and
  five coordinates. `None` from `Verify`, and from `CpuBuildTree`, stands for an index panic of the original.
- **Gadgets over write-once memory** (`BitDecomposition`, `CeilLog`, `MerkleQuery`,
  `PoseidonMerkle`, `PoseidonTree`, `Partition`): an assertion or a second write is an equation
  and a hint is an arbitrary value, so a gadget is a predicate on memories, and its theorem says
  which inputs have a satisfying memory.
- **Generated code** (`EmittedMerkleTree`, `EmittedTreeCorrect`): the emitted statements, run by
  an interpreter that gets stuck on a read of an unwritten cell, a second write or a bound.

## Findings

- `return v, v`: both return slots coalesce to the first one's home, and the skipped store of
  the second slot is never made up for (`Gadgets.ReturnTwiceIsIncomplete`). Returns are complete
  exactly when every coalesced variable is returned in its own slot (`Gadgets.ReturnIsComplete`);
  `Linking.Fitting` asks for that (`ReturnsInPlace`).
- Dropping the stores to never-read names drops their panics
  (`DeadStoreElimination.DropLosesPanic`). A panic is lost exactly if the full run stops at such a
  store, or at a never-read call result that had another value before, and the rest of the run
  does not panic (`PanicIsLost`). No panic is lost in a program where such stores do not divide,
  or divide by a non-zero literal, and set names that are not set yet (`HarmlessNeverStops`).
- A comment on range checks (a_simplify_lang/mod.rs:142) calls them unsound for bounds beyond the
  minimal memory size. The equations stay sound for every bound; beyond the memory size they stop
  being complete (`RangeChecks.RangeCheckIff`, `RangeChecks.LargeBoundFails`).
- For powers of two 2^k with k up to 22, `log2_ceil_runtime` accepts k + 1 as well as k
  (`CeilLog.CeilingIsForced`). The comment on the small arms asks for exactly that many bits, which
  k + 1 meets; the name of the function and the bound 2^(log2-1) < n of the large arms do not allow
  it. The stack fits either way (`CeilLog.LogLeavesRoom`).
- ZODA's `verify` never compares the index of an opening with the index of its proof. Acceptance
  against an honest commitment ties the data to the row or column at the proof's index modulo the
  number of leaves, and to the opening's index only by an equal dot product
  (`ZodaBinding.AcceptanceBinds`).

## Model

| member | source | states |
|---|---|---|
| Preservation.Simulate | leanvm/crates/lean_compiler/src/b_compile_intermediate.rs:186-749 | for every world whose blocks, match arms and functions stand at their labels, every line list (declaration, array of constant size, assignment, if, match, call, return, assert, panic), continuation and unrolling bound: from the first instruction of the emitted block the machine reaches exactly the outcome of the lines, with every visible name in its own cell, or the returned values in the caller's slots, or a failure for a panic, or at least that many steps for an unfinished run; a finished run has taken exactly the cells of the frames of its calls, and memory gives out only if the frames of the calls made, which are counted, end beyond 2^26 |
| CompilerCorrectness.FunctionCorrect | leanvm/crates/lean_compiler/src/b_compile_intermediate.rs:126-184 | both passes together, for every program, function, argument list and fresh frame: a run that returns comes back to the caller with the same values, an unfinished one keeps going, a panic fails, in every program whose dead stores are harmless; in all programs a panic fails too unless the run stops at a store or call result that is left out, and then the code does what the run without it does; memory exhaustion is possible only if the frames below the call end beyond 2^26 |
| CompilerCorrectness.ProgramCorrect | leanvm/crates/lean_vm/src/execution/runner.rs:238-262 | started as the runner starts it, the machine halts at the ending pc when the program returns, does not halt early, and fails when it panics, for every public memory, with the same exact exception for panics at something that is left out, and with memory exhaustion only if all frames together end beyond 2^26 |
| CompilerCorrectness.EnoughMemory | leanvm/crates/lean_vm/src/execution/runner.rs:238-262 | a program that returns and whose frames, counted along its run, end within the 2^26 cells halts at the ending pc |
| CompilerCorrectness.HaltMeansReturn | leanvm/crates/lean_vm/src/execution/runner.rs:121-139 | converse: a machine that reached the ending pc ran a program that returned, or one without defined meaning, or one with a harmful dead store whose panic was exactly there and whose remaining run does not panic |
| CompilerCorrectness.CheckedHaltMeansReturn | leanvm/crates/lean_vm/src/execution/runner.rs:121-139 | for a program that passes the static checks the escape for missing meaning is gone: a machine at the ending pc ran a program that returned, had a match value outside the arms, or lost a panic as above |
| Scoping.NeverFalls | leanvm/crates/lean_compiler/src/a_simplify_lang/mod.rs:1490-1511 | a body whose last line returns or panics, or has inner blocks that all do, never ends without returning, in any run |
| Scoping.CheckedIsDefined | leanvm/crates/lean_compiler/src/a_simplify_lang/mod.rs:1513-1568 | soundness of the name checks: if every name is declared once and set before it is read on every path of the text, then no run, from any start that fits, is without meaning, and the names that have values at its end are between the predicted ones |
| ExampleProgram.ExampleRuns | leanvm/crates/lean_compiler/src/b_compile_intermediate.rs:186-749 | the checks and the meaning are not empty: a program with an array, a branch, a match, a call and an assertion passes the checks, returns for the right literal, panics for every other one and is unfinished without fuel |
| ExampleProgram.ExampleCompiles | leanvm/crates/lean_compiler/src/b_compile_intermediate.rs:109-124 | the assumptions on the text that the theorems make hold of the same program |
| Linking.CompiledIsLinked | leanvm/crates/lean_compiler/src/c_compile_final.rs:37-116 | the layout of the second pass provides what the simulation of the first pass relies on: every stored block stands at the pc of its label and every arm at first + k * size |
| Linking.CompiledIsWellFormed | leanvm/crates/lean_compiler/src/b_compile_intermediate.rs:109-124 | no block of the first pass ends in a hint and no match is left without arms, which is what the second pass asserts |
| Linking.HasArmsExactly | leanvm/crates/lean_compiler/src/c_compile_final.rs:82-92 | the check for empty matches says that no match at any depth is without arms |
| FrameSize.FrameSizeIsNeed | leanvm/crates/lean_compiler/src/b_compile_intermediate.rs:126-184 | the recorded frame size is exactly header, arguments, return slots and what the lines need: one cell for each name that is new, three for an if, two for a match, one for a call, the array sizes, and of branches and arms the deepest |
| CompilerInvariants.CompileKeepsScopes | leanvm/crates/lean_compiler/src/b_compile_intermediate.rs:186-749 | lines restore the scopes around them, never move the next free offset back, and record a frame size that covers it |
| CompilerInvariants.CompileExtends | leanvm/crates/lean_compiler/src/b_compile_intermediate.rs:440-447 | labels are fresh: compiling lines keeps every block stored before and only adds blocks with larger counters |
| CompilerInvariants.MatchExtends | leanvm/crates/lean_compiler/src/b_compile_intermediate.rs:271-348 | the match index is the position of its own arms although nested matches push theirs first |
| Frames.BindCell | leanvm/crates/lean_compiler/src/b_compile_intermediate.rs:46-52 | writing a name's cell leaves every other visible name's cell as it was: names, temporaries and return slots never share an offset |
| Frames.ArrayCells | leanvm/crates/lean_compiler/src/b_compile_intermediate.rs:751-779 | the cells of an array of constant size are consecutive offsets above every visible name, in no free return slot, unwritten, and below every offset handed out later |
| CompilerInvariants.ArrayIsInFrame | leanvm/crates/lean_compiler/src/b_compile_intermediate.rs:751-779 | the array lies below the recorded frame size, and no later name or temporary reaches into it |
| Frames.HoldingAcrossCall | leanvm/crates/lean_compiler/src/b_compile_intermediate.rs:469-517 | a callee that only writes above the caller's frame leaves all of the caller's names in place |
| Simulation.IfEnters | leanvm/crates/lean_compiler/src/b_compile_intermediate.rs:350-440 | the inverse, the two products and the conditional jump take control to the branch the condition selects, with the names still in their cells |
| MatchSimulation.MatchJumps | leanvm/crates/lean_compiler/src/b_compile_intermediate.rs:296-336 | the jump value * size + first - offset * size lands on the first instruction of arm value - offset |
| MatchSimulation.MatchEnters | leanvm/crates/lean_compiler/src/b_compile_intermediate.rs:271-348 | for every value inside the arms, nested matches included, the arm starts with its scopes and with two temporaries beyond the deepest arm |
| CallSimulation.CallEnters | leanvm/crates/lean_compiler/src/b_compile_intermediate.rs:781-824 | the request, the header and the argument writes put the callee into a fresh frame with its arguments, return pc and caller frame |
| CallSimulation.CallReturns | leanvm/crates/lean_compiler/src/b_compile_intermediate.rs:494-512 | after a return the result variables hold the values in the callee's return slots |
| ReturnSimulation.ReturnRuns | leanvm/crates/lean_compiler/src/b_compile_intermediate.rs:826-849 | the stores and the jump of a return deliver the values and leave for the caller |
| ReturnSimulation.MainReturnRuns | leanvm/crates/lean_compiler/src/b_compile_intermediate.rs:555-571 | a return of main writes a zero and jumps to the ending pc |
| ReturnSlots.WalkAgrees | leanvm/crates/lean_compiler/src/b_compile_intermediate.rs:851-904 | a variable chosen for a return slot is the variable of that slot in every return of the body |
| ReturnSlots.SafeReturns | leanvm/crates/lean_compiler/src/b_compile_intermediate.rs:137-163 | with arguments, homes and locals placed as the compiler does, no return overwrites a value it still has to read |
| Gadgets.GadgetIsSound | leanvm/crates/lean_compiler/src/b_compile_intermediate.rs:362-413 | in every memory satisfying the equations of the if gadget, whatever the hinted inverse, the jump condition is 1 exactly if the condition is not zero |
| Gadgets.GadgetAccepts | leanvm/crates/lean_compiler/src/b_compile_intermediate.rs:362-413 | the equations can be met exactly by the inverse, and by any hint when the condition is zero |
| RangeChecks.RangeCheckIff | leanvm/crates/lean_compiler/src/b_compile_intermediate.rs:661-733 | for every value, bound, full memory of at most half the field and placement of the auxiliary cells, cyclic reads included: some values of those cells meet the equations if and only if the value is at most the bound and value and distance are addresses |
| RangeChecks.LessThanIff | leanvm/crates/lean_compiler/src/a_simplify_lang/mod.rs:2620-2645 | v < c, compiled with bound c - 1, passes exactly if it is true, for every c up to the memory size and 0 |
| RangeChecks.LargeBoundFails | leanvm/crates/lean_vm/src/isa/hint.rs:339-348 | beyond the memory size it is not exact: 0 < c fails, which is why such bounds are refused |
| Gadgets.ReturnIsComplete | leanvm/crates/lean_compiler/src/b_compile_intermediate.rs:826-849 | a return leaves every value in its slot if and only if each coalesced variable is returned in its own slot |
| Gadgets.ReturnTwiceIsIncomplete | leanvm/crates/lean_compiler/src/b_compile_intermediate.rs:851-876 | finding: for `return v, v` the second slot is never written |
| Occurrences.DeadStoresExactly | leanvm/crates/lean_compiler/src/b_compile_intermediate.rs:1063-1082 | for every body: a variable is dead if and only if it is a name, some line at any depth declares it or assigns to it, and no line at any depth reads it |
| Coalescing.CoalescedExactly | leanvm/crates/lean_compiler/src/b_compile_intermediate.rs:851-876 | for every function, slot and variable: the slot is coalesced with it if and only if there is a return, every return at any depth has it in that slot, it is no argument, and that is not so for an earlier slot |
| Coalescing.ReturnChecksExactly | leanvm/crates/lean_compiler/src/b_compile_intermediate.rs:878-904 | the conditions on returns that the theorems assume, said of every return that occurs at any depth |
| DeadStoreElimination.DropKeeps | leanvm/crates/lean_compiler/src/b_compile_intermediate.rs:1060-1094 | leaving out the stores to never-read names keeps every run: returned values, values of all read names, unfinished runs, and every panic except one at a store, or at a call result set before, that is left out |
| DeadStoreElimination.PanicIsLost | leanvm/crates/lean_compiler/src/b_compile_intermediate.rs:1060-1094 | for every program, body, start and length of run: the panic is lost if and only if the full run stops at something that is left out and the run without it does not panic later |
| DeadStoreElimination.HarmlessNeverStops | leanvm/crates/lean_compiler/src/b_compile_intermediate.rs:1060-1094 | a condition on the program text that keeps all panics: stores to never-read names do not divide, or divide by a non-zero literal, and no never-read name can have a value before it is given one |
| HarmlessStores.HarmlessExactly | leanvm/crates/lean_compiler/src/b_compile_intermediate.rs:1063-1094 | what that condition says, for every block: no line that gives a dead name a value may divide by zero, and no line that can precede it on a path, and nothing before the block, gives the same name a value |
| DeadStoreElimination.DropLosesPanic | leanvm/crates/lean_compiler/src/b_compile_intermediate.rs:1060-1094 | finding: a dropped division by zero and a dropped second value turn a panic into a return |
| Assembly.CompileToLowLevelBytecode | leanvm/crates/lean_compiler/src/c_compile_final.rs:37-124 | the code is the exit, main, the blocks in label order and the arms of every match, each padded with panics to exactly the largest of its match, one after another with nothing between them, filled up with the last instruction to 256; every label's pc is where its block begins and arm k stands at first + k * size |
| Assembly.FlattenCounts | leanvm/crates/lean_compiler/src/c_compile_final.rs:397-399 | a block emits exactly as many instructions as the count of its real instructions |
| Assembly.FlattenPlaces | leanvm/crates/lean_compiler/src/c_compile_final.rs:184-395 | instructions and hints emitted in sequence are the block, each hint attached to the instruction after it |
| Assembly.CompileBlock | leanvm/crates/lean_compiler/src/c_compile_final.rs:184-395 | the emitting loop over instructions and hint map extends the code by exactly that sequence |
| Assembly.PlaceArms | leanvm/crates/lean_compiler/src/c_compile_final.rs:82-103 | the loop over the cases files each padded arm at its multiple of the block size |
| Assembly.PlaceLabels | leanvm/crates/lean_compiler/src/c_compile_final.rs:76-80 | the loop over the label map files each block where the running pc stands |
| Ir.ComputationLowers | leanvm/crates/lean_compiler/src/c_compile_final.rs:236-269 | folding a constant computation or exchanging its operands does not change what the instruction solves; a single constant comes first, and the second operand is a constant only if everything is |
| Ir.StepJumpIfNotZero | leanvm/crates/lean_compiler/src/c_compile_final.rs:203-231 | the lowered conditional jump goes to its destination for 1 and on for 0 |
| Machine.ComputationHolds | leanvm/crates/lean_vm/src/isa/instruction.rs:144-187 | a computation that goes through leaves a memory that keeps every cell and satisfies its equation, whichever operand was solved for |
| Machine.UnequalNeverHolds | leanvm/crates/lean_vm/src/isa/instruction.rs:175-180 | where it finds unequal values, no memory that extends these cells satisfies the equation |
| Machine.DerefHolds | leanvm/crates/lean_vm/src/isa/instruction.rs:189-208 | a dereference that goes through leaves equal cells, unless both sides are still unknown |
| Machine.MemoryIsWriteOnce | leanvm/crates/lean_vm/src/execution/memory.rs:91-110 | over any code and run no cell that has a value changes, and memory that was requested stays requested |
| LineSteps.AssignFollows | leanvm/crates/lean_compiler/src/b_compile_intermediate.rs:208-269 | the instruction of an assignment solves for the target, or checks it when it is already set, as the line does |
| LineSteps.EquateFollows | leanvm/crates/lean_compiler/src/b_compile_intermediate.rs:649-660 | an equality unifies its two sides in whichever direction is still open |
| CompilerPass.Compiler.RegisterIfNeeded | leanvm/crates/lean_compiler/src/b_compile_intermediate.rs:46-52 | the fields after the call are the specified state; a visible name is left alone |
| CompilerPass.Compiler.HandleConstMalloc | leanvm/crates/lean_compiler/src/b_compile_intermediate.rs:751-779 | the array takes the next offsets of the frame as specified, without an instruction |
| CompilerPass.Compiler.FromSimpleExpr | leanvm/crates/lean_compiler/src/b_compile_intermediate.rs:75-92 | the innermost scope that holds the name decides the offset |
| CompilerPass.Compiler.SetupFunctionCall | leanvm/crates/lean_compiler/src/b_compile_intermediate.rs:781-824 | the emitted code is the specified call sequence and no field changes |
| CompilerPass.Compiler.CompileFunctionRet | leanvm/crates/lean_compiler/src/b_compile_intermediate.rs:826-849 | the loop emits the specified stores, skipping coalesced names |
| CompilerPass.Compiler.CompileLines | leanvm/crates/lean_compiler/src/b_compile_intermediate.rs:186-749 | code and all fields of the object after compiling lines are those of the specification the preservation theorem is about |
| CompilerPass.Compiler.CompileIf | leanvm/crates/lean_compiler/src/b_compile_intermediate.rs:350-453 | both branches, the stack positions and the scopes are threaded as specified |
| CompilerPass.Compiler.CompileMatch | leanvm/crates/lean_compiler/src/b_compile_intermediate.rs:271-348 | arms share a start offset, the deepest one decides, and the arms are stored before the index is read |
| CompilerPass.Compiler.CompileCall | leanvm/crates/lean_compiler/src/b_compile_intermediate.rs:469-517 | the code after the call is stored under the return label |
| CompilerPass.Compiler.WalkReturns | leanvm/crates/lean_compiler/src/b_compile_intermediate.rs:878-904 | the two arrays filled in place are the specified slot states |
| CompilerPass.Compiler.CollectReturnCoalescings | leanvm/crates/lean_compiler/src/b_compile_intermediate.rs:854-876 | arguments and repeated variables are filtered out as specified |
| CompilerPass.Compiler.CompileFunction | leanvm/crates/lean_compiler/src/b_compile_intermediate.rs:126-184 | layout of arguments, return slots and locals, dead names and body |
| CompilerPass.Compiler.CompileToIntermediateBytecode | leanvm/crates/lean_compiler/src/b_compile_intermediate.rs:109-124 | one block for each function and the recorded frame sizes, in order |
| CompilerPass.CompileProgram | leanvm/crates/lean_compiler/src/c_compile_final.rs:37-116 | both passes in sequence: a program with main yields the arrangement and the layout of its own intermediate code |
| KoalaBear.PIsPrime | leanvm/src/lib.rs:21-21 | 2^31 - 2^24 + 1 has no divisor between 1 and itself |
| KoalaBear.IsAField | leanvm/src/lib.rs:21-21 | arithmetic modulo p with the extended-Euclid style inverse is a field |
| CircuitParameters.OmegaIsRoot | leanvm/src/lib.rs:28-34 | 3^((p-1) >> L) has order exactly 2^L for every L up to 24 |
| CircuitParameters.OmegaIsPower | leanvm/src/lib.rs:28-34 | it is the power of three with exponent (p-1) / 2^L |
| CircuitParameters.NewCircuitParams | leanvm/src/lib.rs:85-134 | for every blowup the root, g^n, g^(1-n), w^(1-n), sizes and twiddles are what the names say, which is what the transform and the syndrome rely on |
| RootsOfUnity.OrderIsExact | leanvm/src/lib.rs:28-34 | no smaller positive exponent gives one |
| RootsOfUnity.Orthogonality | zoda/src/lib.rs:115-122 | the powers of w^a / w^b sum to N if a = b and to 0 otherwise |
| BitReversal.BitReverse | leanvm/src/lib.rs:36-44 | the shift loop computes the bit reversal |
| BitReversal.RevInvolution | leanvm/src/lib.rs:36-44 | reversing twice is the identity |
| BitReversal.BitReversePermute | leanvm/src/lib.rs:157-162 | the swap loop performs the bit-reversal permutation |
| CosetFft.ReferenceCosetFft | leanvm/src/lib.rs:150-179 | position k of the result is the coefficient polynomial evaluated at g w^k, for every size and coefficient vector |
| Syndrome.ReferenceSyndrome | leanvm/src/lib.rs:212-230 | the loop returns the sum of its closed-form terms |
| Syndrome.PartialSyndrome | leanvm/examples/bench_chunked.rs:224-244 | a chunk restarted from the closed-form x, w and sign returns the sum of its own terms |
| Syndrome.ChunksAddUp | leanvm/examples/bench_chunked.rs:257-260 | the chunk sums add up to the whole for every chunk size dividing the length |
| Syndrome.SyndromeIdentity | leanvm/src/lib.rs:212-230 | on evaluations of any polynomial c and any beta off the coset the syndrome is 2n times the upper half of c at beta |
| Syndrome.CodewordsHaveZeroSyndrome | leanvm/examples/bench_chunked.rs:257-260 | codewords of degree below n have syndrome zero |
| EvalsDft.DftEvaluates | gpu/ntt/src/lib.rs:1310-1344 | output k is, in every column, the multilinear extension at (w^k, w^2k, w^4k, ...) |
| EvalsDft.IdftUndoesDft | gpu/ntt/src/lib.rs:1347-1384 | the inverse layers undo the layers, the twiddle-free pair included |
| EvalsDft.DftUndoesIdft | gpu/ntt/src/lib.rs:1347-1384 | and the layers undo the inverse layers |
| EvalsDftLoops.BuildRootTable | gpu/ntt/src/lib.rs:36-52 | row i of the table holds the powers of w^(2^(logN - 1 - i)) |
| EvalsDftLoops.BuildInvRootTable | gpu/ntt/src/lib.rs:55-65 | no entry is zero and the table holds true inverses |
| EvalsDftLoops.CpuEvalsDft | gpu/ntt/src/lib.rs:1310-1344 | the triple loop over the flat array computes the layered transform of its rows, in place |
| EvalsDftLoops.CpuEvalsIdft | gpu/ntt/src/lib.rs:1347-1384 | likewise the inverse, with inverse twiddles and halving |
| EvalsDftLoops.DftThenIdft | gpu/ntt/src/lib.rs:1310-1384 | transform and inverse leave the array as it was |
| EvalsDftLoops.IdftThenDft | gpu/ntt/src/lib.rs:1310-1384 | and so do inverse and transform |
| EvalsDftLoops.EvalMultilinearAtPower | gpu/ntt/src/lib.rs:1408-1438 | the term-by-term reference is the same multilinear extension |
| EvalsDftLoops.RootSuffices | gpu/ntt/src/lib.rs:36-52 | a root of order 2^L meets every assumption of both transforms |
| Multilinear.MleIsWeightedSum | leanvm/crates/rec_aggregation/utils.py:86-102 | the recursive extension is the sum of the values with their eq weights |
| Multilinear.PolyEqIsSum | leanvm/crates/lean_vm/src/tables/extension_op/exec.rs:11-25 | poly_eq, one factor x y + (1-x)(1-y) for each coordinate, is for all points the sum over the corners of the weights at both points |
| MleGadgets.ComputeEqMleExtension | leanvm/crates/rec_aggregation/utils.py:86-102 | the level-by-level table ends with the eq weight of every index |
| MleGadgets.MleOf01234567IsSum | leanvm/crates/rec_aggregation/utils.py:199-210 | the recursive gadget is the sum over j of j times the weight of j |
| MleGadgets.MleOfZerosThenOnes | leanvm/crates/rec_aggregation/utils.py:638-665 | the bit walk computes the extension of n_zeros zeros followed by ones, for every n_zeros up to 2^n |
| MleGadgets.MleOfZerosThenOnesPow2 | leanvm/crates/rec_aggregation/utils.py:668-678 | the power-of-two shortcut computes the same extension |
| MleGadgets.ZerosThenOnesIsTail | leanvm/crates/rec_aggregation/utils.py:638-678 | that extension is the sum of the weights from n_zeros on |
| Successor.NextMleConst | leanvm/crates/rec_aggregation/utils.py:694-734 | for all points of every length the two product tables and the carry sum compute the sum over the indices of the weight of j at x times the weight of j + 1 at y, and of the last one at both |
| Successor.NextIsSum | leanvm/crates/rec_aggregation/utils.py:694-734 | the closed form is that sum, for all points over any ring |
| Successor.NextAtCorner | leanvm/crates/rec_aggregation/utils.py:694-734 | on the cube it is the successor relation with the last row repeated |
| Successor.CpuShiftDown | gpu/trace_ops/src/lib.rs:543-551 | the loop shifts by one row and repeats the last |
| Successor.NextSumsToShift | gpu/trace_ops/src/lib.rs:543-551 | summed against a column, next_mle gives the extension of the shifted column |
| Folding.FoldEvaluates | gpu/poly_fold/src/lib.rs:784-804 | folding at bit s leaves the extension in the remaining coordinates |
| Folding.FoldLsbEvaluates | gpu/poly_fold/src/lib.rs:747-758 | folding neighbours fixes the last coordinate |
| Folding.FoldHalfEvaluates | gpu/poly_fold/src/lib.rs:761-781 | folding halves fixes the first coordinate |
| Folding.CpuMleEval | gpu/trace_ops/src/lib.rs:565-601 | folding all coordinates gives the extension at the reversed point |
| Sumcheck.CpuProductSumcheck | gpu/sumcheck/src/lib.rs:5834-5854 | the loop accumulates the constant and the quadratic coefficient of the round polynomial |
| Sumcheck.SumcheckVerify | leanvm/crates/rec_aggregation/whir.py:173-181 | for round polynomials of every degree the verifier loop checks each round and rebinds the claim, or rejects |
| Sumcheck.UnivariatePolynomialEval | leanvm/crates/rec_aggregation/utils.py:435-439 | the loop of powers and the inner product is the value of the polynomial, for every number of coefficients |
| Sumcheck.SumIsValues | leanvm/crates/rec_aggregation/whir.py:370-373 | the sum of all coefficients plus the constant one is p(0) + p(1), for every degree |
| Sumcheck.SumcheckSound | leanvm/crates/rec_aggregation/whir.py:173-181 | for arbitrary round polynomials of any degree: an accepted run that ends at the product of the two extensions started from their true inner product, unless in some round k a polynomial with another sum than the true one of the vectors folded k times has its value at the challenge |
| Sumcheck.HonestRound | leanvm/crates/rec_aggregation/whir.py:370-373 | p(0) + p(1) is the claim and p(r) is the inner product of the half-folded vectors |
| Sumcheck.SumcheckComplete | leanvm/crates/rec_aggregation/whir.py:173-181 | for all vectors of length 2^k and all challenges every round passes and the last claim is the product of both extensions at the challenges |
| Stacking.OffsetFits | leanvm/crates/rec_aggregation/recursion.py:306-368 | each division offset / n_rows is exact and the quotient fits the remaining variables |
| Stacking.BlocksDescend | leanvm/crates/rec_aggregation/recursion.py:71-84 | the height checks and the dispatch on the larger table put the blocks in descending order |
| Stacking.FinalOffsetIsTotal | leanvm/crates/rec_aggregation/recursion.py:758-769 | whatever that order, the final offset is the total the verifier computed |
| Stacking.PrefixFromBits | leanvm/crates/rec_aggregation/recursion.py:654-657 | the location prefix built from the bits of the quotient is the eq weight of the quotient |
| Stacking.RetrieveValue | leanvm/crates/rec_aggregation/recursion.py:295-368 | the loop with the running offset returns the prefix-weighted sum and ends at the total |
| Stacking.PaddedBlock | leanvm/crates/rec_aggregation/recursion.py:123-176 | the bytecode under its own prefix plus zeros-then-ones under the wider prefix is the padded block under the wider prefix |
| Stacking.AccumulatedIsStack | leanvm/crates/rec_aggregation/recursion.py:295-368 | with the blocks' own extensions the sum is the extension of their concatenation |
| Stacking.StackWithOnes | leanvm/crates/rec_aggregation/recursion.py:370-373 | adding mle_of_zeros_then_ones at the offset gives the extension of the concatenation padded with ones |
| CeilLog.LogIff | leanvm/crates/rec_aggregation/utils.py:737-760 | for 2 < n <= 2^30 the hinted logarithm is accepted exactly for 2^(log-1) < n <= 2^log, and for n = 2^(log-1) while log <= 23 |
| CeilLog.CeilingIsForced | leanvm/crates/rec_aggregation/utils.py:737-760 | finding, with its exact condition on the input: for 2 < n <= 2^30 every satisfying memory holds the ceiling if and only if n is not a power of two up to 2^22 |
| CeilLog.TwoLogarithms | leanvm/crates/rec_aggregation/utils.py:737-760 | for such a power 2^k exactly k and k + 1 have satisfying memories, 3 and 4 for 8 |
| CeilLog.LogLeavesRoom | leanvm/crates/rec_aggregation/recursion.py:758-769 | every satisfying memory leaves room for the total, and the ceiling itself always has one |
| StackedVariables.CheckDimensions | leanvm/crates/rec_aggregation/recursion.py:73-87 | the assertions hold exactly for the dimensions the theorems assume; the padded logarithm is the larger one and the heights are the powers of two |
| StackedVariables.StackedQuotient | leanvm/crates/rec_aggregation/recursion.py:73-89 | from announced dimensions: a result exactly if no assertion fails, and 256 times it is twice the memory, the bytecode padded to the larger of its own and the execution table size, and the three tables, written out |
| StackedVariables.ComputeStackedQuotient | leanvm/crates/rec_aggregation/recursion.py:748-755 | for all dimensions a proof may announce the field sum over the tables does not wrap and the field division by 2^8 is exact |
| StackedVariables.TotalFits | leanvm/crates/rec_aggregation/recursion.py:73-87 | the dimension checks keep the total within 2^30, and it is q * 2^8 with 2 < q <= 2^22, inside the range the logarithm is made for |
| StackedVariables.StackedVariablesFit | leanvm/crates/rec_aggregation/recursion.py:748-755 | for all dimensions a proof may announce and the total written out: every logarithm with a satisfying memory gives the stack room, and the number of variables is the least such if and only if the quotient is no power of two up to 2^22 |
| NegacyclicNtt.InverseUndoesFwd | zoda/src/lib.rs:105-122 | the scaled inverse recovers the coefficients from the values at psi^(2 bitrev(k) + 1), from orthogonality |
| NegacyclicNtt.FwdUndoesInverse | zoda/src/lib.rs:105-122 | and the values from the coefficients |
| NegacyclicNtt.ProbeFindsPsi | zoda/src/lib.rs:89-95 | transforming the monomial x exposes psi at position 0 |
| NegacyclicNtt.NewNttPlan | zoda/src/lib.rs:84-103 | the constructor's loop fills the table of evaluation points in bit-reversed order |
| NegacyclicNtt.PlanHalves | zoda/src/lib.rs:97-99 | that order without bit reversal: neighbouring points are opposite, and their squares are the points of the half-size plan in its order |
| NegacyclicNtt.SumReversed | zoda/src/lib.rs:65-69 | sums do not change when their terms are taken in bit-reversed order |
| TensorAlgebra.FwdPolyEvaluates | zoda/src/lib.rs:125-130 | the transform of a zero-padded polynomial evaluates the polynomial |
| TensorAlgebra.FwdPolyEfEvaluates | zoda/src/lib.rs:132-149 | five component-wise base transforms evaluate the extension polynomial at the embedded points |
| TensorAlgebra.EvaluationCommutes | zoda/src/lib.rs:309-326 | a matrix has one value at (x, y), rows first or columns first |
| TensorAlgebra.EvalOfDots | zoda/src/lib.rs:350-358 | the polynomial of the dot products is the dot product of the column values |
| Zoda.Encode | zoda/src/lib.rs:298-386 | the encoding's columns, trees, roots and proof vectors are the specified ones |
| Zoda.Verify | zoda/src/lib.rs:469-527 | for arbitrary commitments and openings: a result exactly if nothing is out of range; its fields are whether all leaves climb to the roots, how many rows and columns have the expected dot product, and whether the two inner products are equal; acceptance exactly if all of it holds |
| Zoda.OpenRow | zoda/src/lib.rs:424-428 | the index, the words of that row, and a path under which its hash climbs to the root of the rows |
| Zoda.OpenCol | zoda/src/lib.rs:429-435 | the index, that column, and a path under which its hash climbs to the root of the columns |
| ZodaProperties.CodingCommutes | zoda/src/lib.rs:309-326 | row-then-column coding equals column-then-row coding |
| ZodaProperties.RowCheck | zoda/src/lib.rs:491-501 | check 6 holds at every row |
| ZodaProperties.ColCheck | zoda/src/lib.rs:503-513 | check 7 holds at every column |
| ZodaProperties.CrossCheck | zoda/src/lib.rs:515-519 | check 8: both sides are the same double sum |
| ZodaProperties.HonestIsAccepted | zoda/src/lib.rs:469-527 | for every data matrix, random vectors and opened rows and columns the honest commitment is accepted, and it announces the true sizes |
| ZodaProperties.DecodeUndoesEncode | zoda/src/lib.rs:536-558 | decoding all rows of an encoding returns the data, for all power-of-two sizes |
| ZodaProperties.InverseOfPadded | zoda/src/lib.rs:540-547 | the truncated upper coefficients are zero |
| ZodaProperties.KoalaBearPlan | zoda/src/lib.rs:84-103 | KoalaBear has a plan for every size up to 2^23 |
| MerkleTrees.FromLeaves | zoda/src/lib.rs:170-187 | the layers, odd ones padded with the sentinel |
| MerkleTrees.Open | zoda/src/lib.rs:189-199 | the siblings from leaf to root |
| MerkleTrees.Verify | zoda/src/lib.rs:206-214 | accepts exactly if the leaf climbs to the root |
| MerkleTrees.OpeningVerifies | zoda/src/lib.rs:189-214 | every opening of every tree is accepted |
| MerkleTrees.PathsHaveEqualLength | zoda/src/lib.rs:189-199 | all paths have one sibling for each layer below the root |
| MerkleTrees.DepthIsLog | zoda/src/lib.rs:170-187 | the depth is the number of bits of the leaf indices |
| MerkleTrees.ProofsBind | zoda/src/lib.rs:206-214 | with an injective pair hash two accepted proofs of the same index and length are equal, leaf included |
| MerkleTrees.AcceptedLeafIsCommitted | zoda/src/lib.rs:206-214 | a full-length proof is accepted exactly for the committed leaf and its own path |
| MerkleTrees.OnlyLowBitsMatter | zoda/src/lib.rs:206-214 | verification reads only as many bits of the index as the path is long |
| MerkleTrees.AcceptedExactly | zoda/src/lib.rs:206-214 | pairs hashed injectively and leaves hashed apart from pairs, 2^d leaves, paths of any length: a proof is accepted if and only if it carries the leaf at its index modulo 2^d with that leaf's path |
| ZodaBinding.PathHoldsExactly | zoda/src/lib.rs:480-489 | an opening passes the path check of an honest tree if and only if it carries the committed vector at its proof's index modulo the number of leaves, with its path |
| ZodaBinding.AcceptanceBinds | zoda/src/lib.rs:469-527 | for an honest commitment and arbitrary openings: accepted if and only if every opening carries the committed row or column at its proof's index modulo the number of leaves, and that vector has the dot product of the vector at the opening's own index |
| BitDecomposition.BitsAreCanonical | leanvm/crates/rec_aggregation/utils.py:459-478 | the constraints hold exactly for the 31 bits of the canonical representative and their running sums |
| BitDecomposition.SmallBitsAreCanonical | leanvm/crates/rec_aggregation/utils.py:597-608 | the constraints hold exactly for a number below 2^n and its bits |
| BitDecomposition.NibblesAreCanonical | leanvm/crates/rec_aggregation/utils.py:507-524 | the constraints hold exactly for the base-16 digits of the low 24 bits |
| MerkleQuery.LevelsForce | leanvm/crates/rec_aggregation/hashing.py:108-197 | each unrolled level forces its cell: the node after that many steps |
| MerkleQuery.QuerySound | leanvm/crates/rec_aggregation/utils.py:506-594 | for every memory satisfying the constraints, heights 5 to 24: canonical nibbles, the leaf under the root at index a mod 2^d, and the product ROOT^(2^(24-d) (a mod 2^d)) |
| MerkleQuery.QueryComplete | leanvm/crates/rec_aggregation/utils.py:506-594 | a path that climbs to the root extends to a satisfying memory |
| MerkleQuery.QueryIff | leanvm/crates/rec_aggregation/utils.py:506-594 | for a given path, a satisfying memory exists exactly if the leaf climbs and the product is the query point |
| MerkleQuery.QueryPointIsDomainPoint | leanvm/crates/rec_aggregation/utils.py:532-594 | the product is the domain point w_d^(a mod 2^d) |
| MerkleQuery.MerkleVerifyIff | leanvm/crates/rec_aggregation/hashing.py:235-262 | the bit-by-bit walk is satisfiable exactly if the leaf climbs to the root |
| MerkleQuery.BatchedWalkIsBitwise | leanvm/crates/rec_aggregation/utils.py:506-594 | nibble-batched and bit-by-bit walks accept the same paths |
| PoseidonMerkle.CpuLeafHash | gpu/merkle/src/lib.rs:677-705 | the in-place sponge computes the right-to-left absorption for rows of every length |
| PoseidonMerkle.LeafHashIsRounds | gpu/merkle/src/lib.rs:677-705 | for rows of every length: which word goes to which place of which compression, and how many there are |
| PoseidonMerkle.SliceHashIsRtl | leanvm/crates/rec_aggregation/hashing.py:57-64 | the gadget's result cell holds the right-to-left fold of the chunks |
| PoseidonMerkle.LeafHashIsRtl | gpu/merkle/src/lib.rs:677-705 | on rows of at least two whole chunks both leaf hashes agree |
| PoseidonTree.TreeRowWords | gpu/merkle/src/lib.rs:725-729 | word c of row r is the matrix at r * stride + c below the stride and zero from there on, and no other row has these words |
| PoseidonTree.CpuBuildTree | gpu/merkle/src/lib.rs:717-752 | a tree exactly if no row ends beyond the matrix; leaf r is the hash of the row with those words, and the layers are pairwise |
| PoseidonTree.PowerOfTwoTree | gpu/merkle/src/lib.rs:735-751 | with a power of two of leaves nothing is dropped: the layers are those of the general tree |
| PoseidonTree.PathReadsLayers | gpu/merkle/src/lib.rs:735-751 | level l of a path is the layer entry at the shifted index with its last bit flipped |
| PoseidonTree.TreeOpeningAccepted | leanvm/crates/rec_aggregation/utils.py:506-594 | openings read off a tree of 2^d rows of 8k words (k >= 2) satisfy the query constraints |
| EmittedMerkleTree.NewTreeParams | leanvm/src/lib.rs:85-145 | leaf count, depth and layer offsets of the constructor |
| EmittedMerkleTree.EmitMerkleTree | leanvm/src/lib.rs:235-277 | the emitting loops append exactly the specified statements |
| EmittedMerkleTree.RunWritesOnce | leanvm/src/lib.rs:235-277 | what not getting stuck means, for every program: each word stored has gone to a cell of its own, and no written cell has changed |
| EmittedTreeCorrect.EmittedProgramComputesRoot | leanvm/src/lib.rs:235-277 | run over write-once cells the program never reads an unwritten cell, never writes one twice or out of bounds, writes all of them, and leaves the reference root at its offset |
| EmittedTreeCorrect.ReferenceMerkleRoot | leanvm/src/lib.rs:200-210 | the direct loop returns the last reduced layer |
| EmittedTreeCorrect.PoseidonHashChain | leanvm/src/lib.rs:181-191 | the chunk loop computes the chained digest |
| EmittedTreeCorrect.PoseidonIsReady | leanvm/src/lib.rs:235-277 | an eight-word compression and evaluations that fill the leaves meet its assumptions |
| Partition.CheckPartition | leanvm/crates/rec_aggregation/main.py:31-142 | accepts exactly if the header is in range, n_dup being zero for a single recursive source, and either that source is passed on without raw signatures or every source has a size in range and the indices are a bijection onto 0..n_sigs+n_dup |
| Partition.WritesForceBijection | leanvm/crates/rec_aggregation/main.py:85-142 | some buffer satisfies all writes and the closing equality exactly if the indices are a bijection, for any number of writes |
| Partition.PartitionIsOnto | leanvm/crates/rec_aggregation/main.py:85-142 | n distinct indices below n reach every position |

## Left out

- Preservation.Simulate: covers the lines without pointers; raw memory access, `HintMAlloc`, the pointer of a `ConstMalloc` and the fp-relative names derived from it, precompile calls, custom and witness hints, range checks, prints and parallel loop batches are not modelled.
- Preservation.Simulate: names are declared once on every path; a read of an unset name and an unresolvable name have no defined meaning and the theorem says nothing about them, but a program that passes `Scoping.Checked` has none. A match value outside the arms has no defined meaning either, and no check rules it out.
- Scoping.CheckedIsDefined: the checks are those of the source carried over from its parsed lines to the lines of the back end, with the order of setting and reading added; loops, vectors and inlining are gone by then.
- CompilerCorrectness.ProgramCorrect: frames are the only memory counted, since the modelled lines take no other, and where they do not fit memory exhaustion is allowed at every point; main takes no arguments and the program fits the field (`Fitting`).
- CompilerCorrectness.FunctionCorrect: a panic at a store or call result that is left out is not preserved; `DeadStoreElimination.DropLosesPanic` shows why and `PanicIsLost` says exactly when.
- CompilerPass.Compiler.HandleConstMalloc: the cells of an array, accessed at constant indices, are entries of the scope that allocates it, where the original keeps one map from labels to offsets; an access beyond the size or outside the scope has no defined meaning.
- Assembly.CompileToLowLevelBytecode: label hints, source locations, the multilinear encoding of the instructions and the bytecode hash are not modelled; the order of the label map is a parameter.
- Ir.StepJumpIfNotZero: a condition other than 0 and 1, an assertion failure of the original, is a failed machine.
- Sumcheck.SumcheckVerify: the transcript is replaced by given polynomials and challenges, and grinding is left out. The variant that stores the challenges in reverse is the same loop.
- Sumcheck.CpuProductSumcheck: the base-by-extension variant is the case where one vector is embedded.
- Folding.FoldEvaluates: words of field elements are elements of a ring; the Montgomery and five-word encodings are not modelled.
- Stacking.RetrieveValue: the numerators and denominators the verifier computes from transcript values (fingerprints, memory and bytecode accumulators) are given evaluations of the blocks; the AIR columns of the stacked commitment use the same offsets and are not repeated.
- Stacking.FinalOffsetIsTotal: three tables with the execution table at index 0, the values the order of `Table` (leanvm/crates/lean_vm/src/tables/table_enum.rs:12-16) gives the placeholders of the source.
- StackedVariables.ComputeStackedQuotient: the column counts are placeholders of the source and a parameter here, bounded by `WithinLimit`, the limit of leanvm/crates/lean_vm/src/core/constants.rs:78-84 with the padded bytecode added, which is left out there; `N_TABLES` and the limits on the heights are the values of constants.rs:16-28.
- StackedVariables.StackedVariablesFit: the assertion on the number of variables at recursion.py:90 is not modelled.
- CeilLog.LogIff: a logarithm without an arm in the dispatch (0 or 1 for n > 2) has no satisfying memory here; in the compiled program such a jump is undefined.
- RangeChecks.RangeCheckIff: the equations against arbitrary memories; the order in which the runner fills the auxiliary cells is not modelled, and range-check lines are not among the lines of `Preservation.Simulate`.
- MerkleQuery.QuerySound: `assert x < c` is a comparison of canonical values, as `RangeChecks.LessThanIff` shows its compiled form to be. A digest is one cell.
- PoseidonTree.CpuBuildTree: a layer is a sequence of digests instead of eight times as many words.
- EmittedMerkleTree.EmitMerkleTree: a statement is a value instead of a line of program text.
- EmittedTreeCorrect.EmittedProgramComputesRoot: the memory semantics are those of the assertions and write-once arrays; the compilation of the emitted text is not part of it.
- Partition.CheckPartition: the limits 2^15 and 16 are the literals of main.py:4-7, which a comment there calls provisional. The hashes, the signature and proof verifications between the checks and the passing on of a single source's claim are left out.
- Zoda.Encode: the sizes are given by their logarithms; timing and parallel iteration are left out.
- ZodaBinding.AcceptanceBinds: the hashes are idealised, injective and apart by their tags; commitments that are not honest are not covered, since what binds them is probabilistic.
- Zoda.Verify: the random vectors are functions of the two roots and the length; rejection sampling and the transcript hash are not modelled.
- EvalsDftLoops.CpuEvalsIdft: the inverse twiddles are specified by being inverses; which of the equal tables is meant does not matter, so the specification names one by existence.
- Poseidon, BLAKE3 and the inside of the transform library: hashes are uninterpreted functions, injective only where stated.
- Probabilistic soundness, proximity gaps, grinding and the distribution of challenges.
- CUDA kernels, device buffers and streams; the CPU references stand for them.
- The lexer, the parser and the simplification pass in front of the compiler back end; XMSS chains, WHIR parameter tables and benchmark mains.
