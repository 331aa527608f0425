# The C11 code generator, verified

MNCS compiles block-parameter SSA functions to C. This project models that code
generator, the C it writes and the reference executor, and proves that a compiled
entry reports what the reference executor returns. Smaller parts cover the stateful
session, native symbols, the bounded law checker, the module resolver, the host
binding generator and the validator of 64-bit relocatable objects.

## How it is built

| files | subject |
|---|---|
| `Words`, `CLang`, `CMeaning` | machine words, and the C fragment: conversions, undefined cases, statements, activations, the arena runtime; every defined expression has its static type and fits it |
| `Mncs`, `Interpreter`, `Envelope`, `Validation` | the source language, the reference executor's runs, the envelope of each instruction, what makes a function valid |
| `Emit`, `Emitter`, `Naming`, `Entry` | the emitted code as a function, the loops that produce it, names and declarations |
| `IntegerMeaning`, `SequenceMeaning` | what the reference executor's instructions compute, apart from their formulas |
| `IntegerLowering`, `Represent`, `Relation`, `ScalarSimulation`, `ViewSimulation`, `ViewEscape`, `SequenceSimulation`, `CopySimulation`, `InstructionExact` | each instruction against the reference executor |
| `Execution`, `Discipline`, `Poison`, `Orderly`, `Runs`, `CallChains`, `StepCounts`, `Endings` | what holds over every run of emitted code |
| `Transfers`, `Blocks`, `Availability`, `Simulation`, `Exactness`, `Refinement` | blocks, dominance, the lockstep proof and the main results |
| `Witness`, `Catalogue`, `Exhaustion`, `ExhaustedReturn`, `EscapedRead` | modules, memories and requests that meet the hypotheses; runs that exhaust the arena; a run that succeeds where it should fail |
| `Arena`, `Symbols`, `Session`, `SessionTables`, `Requests`, `Laws`, `Resolver`, `Bindings`, `ElfObject`, `ElfLayout`, `ElfAssembly`, `Options` | the runtime as an object, and the other components |

Emitted C is a syntax tree rather than text, with a meaning that follows ISO/IEC
9899:2011: integer conversions (6.3.1.3, wrapping as gcc and clang do), usual
arithmetic conversions (6.3.1.8), truncating division (6.5.5), shifts (6.5.7, `>>` of
a negative value arithmetic), and signed overflow as undefined behaviour (6.5). Runs
carry a step count that both sides share; every result holds for every count.

The reference executor records two things as it goes. One is whether each executed
instruction was inside its *envelope*, the condition on operands under which the emitted
instruction agrees with it. Every envelope is proved to be exactly right, down to the
emitted statements; *faithful* instructions are inside theirs for all operands. Static bounds evidence is inside the
envelope where it is true. The other is how many arena bytes the sequences built so far
need, which decides exactly when a compiled run exhausts the arena. Two further
hypotheses are part of validity: transfers are ordered, and the entry block takes no
parameters.

## Where code and documentation disagree

The model follows the code.

- Division is said to fail exactly like the reference executor for every intent; the
  reference gives a value for wrapping and saturating MIN / -1 and for saturating
  division by zero, where the emitted code traps.
- Unsigned saturating subtraction below zero gives the maximum, not zero.
- Signed 8- and 16-bit wrapping results and left shifts stay in [0, 2^w); a negative
  shift count fails in the reference executor and is reduced in the emitted code.
- Widening an unsigned 32-bit value sign-extends, and narrowing to 8 or 16 bits does
  not truncate.
- The banner promises no undefined behaviour for integers; a view whose start is at
  least 2^63 can overflow a signed subtraction. Beyond the overflow, starts just below
  2^64 are accepted although they are out of range, and give a view that begins before
  its sequence.
- The signed right shift is said not to rely on shifting negatives; the complement of
  a non-negative operand is negative.
- The flags are said to be reset at every function entry; they are reset at depth 0.
- Symbol escaping is called injective; it is not.

## Model

| member | source | states |
|---|---|---|
| Refinement.GeneratedRefines | crates/mncs-codegen/src/c11.rs:598-723 | For every entry, argument list, call budget, memory and step count: if every executed instruction was inside its envelope, the compiled run exhausts the arena exactly when the sequences the reference run builds need more bytes than are left; otherwise it ends with status 0 / 1 / 3 / still running exactly when the reference executor returns / fails / exhausts the depth budget / is still running, a returned value is delivered, exactly the needed bytes are allocated, and undefined behaviour never happens. |
| Refinement.SuccessIsTrue | crates/mncs-codegen/src/c11.rs:660-690 | Status 0 needs no look at the failure flags: the reference executor then returned, and returned the delivered value. |
| Refinement.FaithfulRefines | crates/mncs-codegen/src/c11.rs:748-1774 | A module whose instructions are all faithful needs no envelope: no run gets stuck, values keep their types, and both sides correspond unless the reference run builds more than the arena has room for; exactly those runs exhaust it, they never report success, and a module without cells has none. |
| Endings.OverrunReports | crates/mncs-codegen/src/c11.rs:663-690 | A run inside the envelope that needs more cells than are left never ends with status 0: if it ends, with status 1 or 3 and value 0, and if it reaches a return, with status 3. |
| Endings.ArrivalEnds | crates/mncs-codegen/src/c11.rs:663-690 | An activation of a module with an arena that reaches a return, at any depth and from any memory, ends with status 3 and value 0 if the arena is exhausted by then, with status 1 and value 0 if only an access failed, and otherwise with status 0. |
| Endings.ReturnCode | crates/mncs-codegen/src/c11.rs:661-690 | On every state of a module with an arena the code of a return ends in one of those three ways; without a failure it returns the variable's value modulo 2^64. |
| ExhaustedReturn.BuildReports | crates/mncs-codegen/src/c11.rs:663-690 | A valid function that builds a two-element sequence and returns it: from any memory it reports the sequence if two cells are left, and status 3 with value 0 if they are not. |
| Endings.StatusesAre | crates/mncs-codegen/src/c11.rs:638-723 | Every run of every module, from any arena and at any depth, ends with status 0, 1 or 3, and with value 0 unless the status is 0. |
| Requests.SessionRefines | crates/mncs-codegen/src/c11.rs:121-133 | A run started at the depth that the session bakes into the driver corresponds to the reference executor under the call depth budget that the request asks for, all of it when none is asked for. |
| InstructionExact.InstExact | crates/mncs-codegen/src/c11.rs:748-1710 | For every instruction other than a call, on related states: its emitted statements do what the reference executor does if and only if the operands are inside the envelope, false static bounds claims included. |
| Catalogue.EveryKindIsValid | crates/mncs-model/src/ssa.rs:2539-2849 | One valid function uses every kind of instruction, so validity rules none of them out. |
| Catalogue.BoundsAre | crates/mncs-model/src/body.rs:51 | Operands of up to 4096 elements are valid for replacement, copy and projection, and no longer ones. |
| StepCounts.EndsAlike | crates/mncs-codegen/src/c11.rs:656-657 | A reference run that ends is matched by the compiled run under every larger step count, or exhausts an arena too small for it under every larger count: step counts only cut runs short. |
| Simulation.SimFunction | crates/mncs-codegen/src/c11.rs:598-653 | One activation agrees with the reference executor's, by induction over nested activations and step counts; a flag left from an earlier top-level request does no harm at depth 0. |
| Simulation.SimBlock | crates/mncs-codegen/src/c11.rs:657-720 | The dispatch loop, entered at any block in a related state, agrees with the reference executor entered at that block. |
| Simulation.SimCall | crates/mncs-codegen/src/c11.rs:1743-1774 | A call passes the argument cells and one more level of depth, returns early on any non-zero status, and otherwise binds the callee's value to the destination. |
| Simulation.CaseShape | crates/mncs-codegen/src/c11.rs:657-720 | The switch entered at block k runs that block's instructions and then its terminator. |
| Blocks.SimInst | crates/mncs-codegen/src/c11.rs:748-1710 | Every non-call instruction, on related states and inside its envelope: the same value in the destination, or a trap where the reference executor fails, with everything allocated before kept; the arena is exhausted exactly when the bytes for a new sequence are not left. |
| Blocks.SimTerm | crates/mncs-codegen/src/c11.rs:661-715 | Terminators end or land where the reference executor does, with the target's parameters bound. |
| Availability.TermHave | crates/mncs-model/src/ssa.rs:2743-2772 | Whatever a block may read by the dominance rule is bound on every run that reaches it. |
| Exactness.GoodFunction | crates/mncs-model/src/ssa_execution.rs:1360-1653 | Over any run of a valid module values keep their static types and no run inside the envelope is refused as invalid; faithful modules never leave the envelope. |
| Exactness.FaithfulInside | crates/mncs-codegen/src/c11.rs:748-1774 | A faithful instruction on operands of its types is inside its envelope; a view construction is faithful when its start is a literal below 2^63, a checked index, a length, a choice between such, or a block parameter that every edge passes one of these, loop counters included. |
| Witness.SampleValid | crates/mncs-model/src/ssa.rs:2539-2849 | A module with a loop, a branch, checked arithmetic and a recursive call is valid and faithful. |
| Witness.SampleRequest | crates/mncs-codegen/src/c11.rs:638-655 | With any argument and any budget, in a module loaded afresh, that module meets every hypothesis of the results above. |
| Exhaustion.SpinExhausts | crates/mncs-codegen/src/c11.rs:542-546 | A faithful module that builds cells in an endless loop: from any memory and for any step count, the compiled run exhausts the arena exactly when its trips need more than is left, and is otherwise still running. |
| Exhaustion.FreshSpin | crates/mncs-codegen/src/c11.rs:542-546 | Loaded afresh, that loop exhausts the arena at its 2097153rd cell and not before. |
| CallChains.ChainsAreBounded | crates/mncs-codegen/src/c11.rs:638-653 | Over any run of any module from any state, no chain of nested activations that run a block is longer than the depth cap leaves room for; deeper activations run nothing. |
| Runs.DefaultNeverTaken | crates/mncs-codegen/src/c11.rs:656-723 | From any state and for any number of iterations, mncs_pc stays a block index, so the default label is never taken; well-formedness is not needed. |
| Runs.DispatchInRange | crates/mncs-codegen/src/c11.rs:657-723 | One trip through the switch runs exactly one case: control never falls into the next case or past the last. |
| Runs.NoPoisonEscapes | crates/mncs-codegen/src/c11.rs:643-668 | In a module with an arena, an activation that reports status 0 leaves mncs_failed clear, from any state. |
| Runs.PoisonStops | crates/mncs-codegen/src/c11.rs:542-546 | Once a block has set the failure flag, the flag stays set, arena and bump are frozen, and the activation ends, if it ends, with a non-zero status. |
| Endings.PoisonReports | crates/mncs-codegen/src/c11.rs:663-690 | Once a block has set the failure flag, the activation ends, if it ends, with status 1 or 3 and value 0; if the arena is exhausted and a return is reached, with status 3. |
| Execution.ExecPoisoned | crates/mncs-codegen/src/c11.rs:542-546 | Below the top level nothing in emitted code, nested calls included, clears the failure flag or moves the arena behind it. |
| Runs.ActivateHeapless | crates/mncs-codegen/src/support.rs:2370-2417 | A module that needs no arena symbols never touches the arena, the bump or the flags. |
| Runs.ArenaNeeded | crates/mncs-codegen/src/support.rs:2370-2417 | A module needs the arena symbols exactly when some function takes, returns, builds, updates, copies or projects from a sequence or a view: a scalar module has none. |
| Runs.DepthMonotone | crates/mncs-codegen/src/c11.rs:625-653 | A run that does not end with status 3 at one entry depth gives the same status, value and arena at every smaller entry depth. |
| Runs.ActivateDepth | crates/mncs-codegen/src/c11.rs:1743-1755 | The same for every activation inside the run, with the flags clear or the depth above zero. |
| Simulation.RunPrologue | crates/mncs-codegen/src/c11.rs:638-655 | The prologue ends every activation deeper than the cap with status 3 before anything runs, and clears the flags at depth 0 alone. |
| Endings.DepthCap | crates/mncs-codegen/src/c11.rs:636-646 | Depth 1024 is let in, and every greater depth ends with status 3 and value 0 before anything runs. |
| Transfers.TransferExact | crates/mncs-codegen/src/c11.rs:726-745 | Assigning parameters one after another equals the simultaneous binding in every environment if and only if no later argument reads a parameter already overwritten by a different value. |
| Transfers.TypedTransferExact | crates/mncs-codegen/src/c11.rs:726-745 | In well-typed environments alone the equivalence is the same, except that parameters whose type has a single value may be read out of order. |
| Transfers.RunTransfer | crates/mncs-codegen/src/c11.rs:726-745 | The emitted assignments implement the one-after-another binding, whatever the order. |
| Transfers.SwapLoses | crates/mncs-codegen/src/c11.rs:736-745 | The emitted swap of two parameters leaves both with the second value, where the reference executor exchanges them. |
| Transfers.OrderedBinds | crates/mncs-model/src/ssa_execution.rs:4895-4935 | On ordered transfers each argument still has the value it had before the transfer began. |
| IntegerLowering.IntegerExact | crates/mncs-codegen/src/c11.rs:759-986 | For all in-range operands of every width, sign, intent and operator: the emitted outcome is the reference outcome if and only if the operands are inside the envelope. |
| IntegerLowering.IntegerCodeExact | crates/mncs-codegen/src/c11.rs:759-986 | The emitted statements themselves leave the reference result in the destination, or trap where it fails, exactly inside the envelope. |
| IntegerMeaning.WrappingMeans | crates/mncs-model/src/execution.rs:8711-8743 | The reference executor's wrapping add, sub, mul, div and mod: for all in-range operands the in-range number congruent modulo 2^w to the exact result, division truncating; no value exactly for a zero divisor. |
| IntegerMeaning.MinimumDivided | crates/mncs-model/src/execution.rs:8721-8726 | At every width wrapping MIN / -1 is MIN and MIN % -1 is 0. |
| IntegerMeaning.CheckedMeans | crates/mncs-model/src/machine_intent.rs:67-193 | Checked and trapping arithmetic: the exact result where it is in range, and no value anywhere else. |
| IntegerMeaning.SaturatingMeans | crates/mncs-model/src/machine_intent.rs:163-272 | Saturating arithmetic: the value of the range closest to the exact result, and the largest one for a zero divisor. |
| IntegerMeaning.ShiftMeans | crates/mncs-model/src/execution.rs:8728-8741 | Shifts: no value exactly for a negative count; otherwise multiplication modulo 2^w, or division rounding down, by 2 to the count modulo w. |
| IntegerMeaning.BitwiseValueMeans | crates/mncs-model/src/execution.rs:8746-8767 | Bitwise operators act digit by digit on the two's-complement patterns. |
| IntegerMeaning.ConvertMeans | crates/mncs-model/src/ssa_execution.rs:2218-2260 | A conversion gives the in-range number congruent to its operand modulo 2^w, or 0 and 1 for a truth value. |
| IntegerLowering.EvalWrapping | crates/mncs-codegen/src/c11.rs:980-986 | Wrapping add, sub and mul leave the cell of the exact result reduced into [0, 2^w), for signed 8- and 16-bit destinations too. |
| IntegerLowering.BitwiseCell | crates/mncs-codegen/src/c11.rs:781-793 | and, or and xor on sign-extended cells give the cell of the reference result at every width and sign. |
| IntegerLowering.RunShiftLeft | crates/mncs-codegen/src/c11.rs:796-812 | shl is multiplication by 2^(count mod w) modulo 2^w for every value and count, negative and oversized counts included. |
| IntegerLowering.EvalShiftRightSigned | crates/mncs-codegen/src/c11.rs:813-820 | Signed shr by double complement is floor division by 2^(count mod w). |
| IntegerLowering.EvalShiftRightUnsigned | crates/mncs-codegen/src/c11.rs:821-832 | Unsigned shr is division of the unsigned value by 2^(count mod w), also when its cell is negative. |
| IntegerLowering.RunDivision | crates/mncs-codegen/src/c11.rs:840-893 | Division truncates in the operands' own domain, traps exactly on a zero divisor and on MIN / -1, and gives 0 for MIN % -1. |
| IntegerLowering.RunChecked | crates/mncs-codegen/src/c11.rs:894-948 | Checked and trapping add, sub and mul leave the exact result, or trap exactly when it is out of range; the 128-bit intermediate never overflows. |
| IntegerLowering.SaturatingExact | crates/mncs-codegen/src/c11.rs:949-979 | Saturating add, sub and mul clamp the exact result to the declared range unless an unsigned difference is negative, where the emitted code gives the maximum. |
| IntegerLowering.DivisionExact | crates/mncs-codegen/src/c11.rs:840-893 | Exactly when emitted division is the reference division: not for wrapping or saturating MIN / -1, nor for saturating division by zero. |
| IntegerLowering.ShiftExact | crates/mncs-model/src/execution.rs:8661-8800 | Exactly when emitted shifts are the reference shifts: the count is not negative, and a narrow signed result is not either. |
| IntegerLowering.ConvertExact | crates/mncs-codegen/src/c11.rs:1373-1381 | The bare cast is the declared conversion if and only if a widened unsigned 32-bit value keeps its top bit clear and a narrowed value, cut to its low 32 bits, is in the range of its new type. |
| Exactness.FaithfulIntegerExact | crates/mncs-codegen/src/c11.rs:759-986 | For each operator, width, sign, intent and elision: right on all operands if and only if it is in the stated list. |
| Exactness.FaithfulConvertExact | crates/mncs-codegen/src/c11.rs:1373-1381 | For each pair of integer types: the emitted conversion is right on all values if and only if it is in the stated list. |
| ScalarSimulation.SimSelect | crates/mncs-codegen/src/c11.rs:1383-1416 | The branchless blend gives the chosen operand, for every cell type. |
| ScalarSimulation.SimCompare | crates/mncs-codegen/src/c11.rs:1040-1077 | Comparisons agree for signed and unsigned operands, unsigned values with negative cells included. |
| ScalarSimulation.SimConst | crates/mncs-codegen/src/c11.rs:750-758 | Every literal that the reference executor accepts reaches its cell, also unsigned ones above the signed range. |
| CopySimulation.CopyGuardExact | crates/mncs-codegen/src/c11.rs:1480-1525 | For all 64-bit indices the guard traps exactly when one of the two windows is out of range; wrapped sums are caught. |
| CopySimulation.StepLane | crates/mncs-codegen/src/c11.rs:1526-1556 | One branchless lane stores the spliced word: the source word inside the window, the lane's own outside, every load in bounds. |
| CopySimulation.SimCopy | crates/mncs-codegen/src/c11.rs:1480-1556 | The copy yields the destination with the window replaced by the source window, operands overlapping or not, and keeps every earlier cell; bad windows trap. |
| SequenceSimulation.SimReplace | crates/mncs-codegen/src/c11.rs:1417-1479 | Replacement yields the functional update in a fresh cell, keeps every earlier cell, and traps exactly on a bad index. |
| SequenceSimulation.SimConstruct | crates/mncs-codegen/src/scalar.rs:740-763 | Construction, lowered to an allocation and one store an element, yields the sequence of its inputs. |
| SequenceMeaning.ReplaceMeans | crates/mncs-model/src/ssa_execution.rs:2808-2952 | The reference executor's replacement changes one element and keeps length and all others; exactly an index outside the declared length traps. |
| SequenceMeaning.ProjectMeans | crates/mncs-model/src/ssa_execution.rs:2649-2720 | Its projection gives the element; an index past the end is a trap under a runtime check and a violated claim otherwise. |
| SequenceMeaning.CopyMeans | crates/mncs-model/src/ssa_execution.rs:2953-3060 | Its copy takes the window from the source and everything else from the destination; exactly a window that does not fit on one of the sides traps. |
| SequenceMeaning.ViewMeans | crates/mncs-model/src/ssa_execution.rs:3099-3170 | Its views hold the elements of the range; exactly a bad range, or one longer than the capacity, traps. |
| ViewSimulation.SimProject | crates/mncs-codegen/src/c11.rs:1557-1604 | Projection loads the element from an exact cell or through a view descriptor and traps exactly on a bad index. |
| ViewSimulation.SimLength | crates/mncs-codegen/src/c11.rs:1605-1625 | Length is the bound of an exact sequence and the high word of a view descriptor. |
| ViewSimulation.ViewGuardExact | crates/mncs-codegen/src/c11.rs:1660-1664 | The emitted range guard is the reference range check if and only if the start is inside the envelope; elsewhere it is undefined or lets a bad range through. |
| ViewSimulation.SimView | crates/mncs-codegen/src/c11.rs:1626-1669 | Inside the envelope a constructed view is the slice, and bad ranges or exceeded capacities trap. |
| ViewEscape.ViewCodeExact | crates/mncs-codegen/src/c11.rs:1660-1668 | The emitted statements construct the view, or trap, as the reference executor does if and only if the operands are inside the envelope. |
| ViewEscape.ViewEscapes | crates/mncs-codegen/src/c11.rs:1660-1668 | Everywhere outside the envelope the reference executor fails, while the emitted code is undefined up to a start of 2^63 + end, and above it leaves a view of end + 2^64 - start elements that begins 2^64 - start slots before its sequence. |
| ViewEscape.HalfwayStart | crates/mncs-codegen/src/c11.rs:1660-1663 | Start 2^63 with end 0 is undefined behaviour on every sequence. |
| ViewEscape.LastStart | crates/mncs-codegen/src/c11.rs:1660-1668 | Start 2^64 - 1 with end 0 passes the guard of every capacity from one up and yields the one slot before the sequence. |
| EscapedRead.SuccessWithoutValue | crates/mncs-codegen/src/c11.rs:598-723 | A valid function that builds two cells, views the second over a range given by its two arguments and reads the view: called with 2^64 - 1 and 0, from any memory with room, the compiled entry reports status 0 and delivers the first cell, where the reference executor fails. |
| Exactness.NoFaithfulView | crates/mncs-codegen/src/c11.rs:1660-1663 | For no sequence length and no capacity is the guard right on all ranges: some bad range is undefined or let through. |
| ViewSimulation.ViewsCompose | crates/mncs-codegen/src/c11.rs:1626-1669 | A view of a view at any depth is one slice of the underlying sequence, at the address its descriptor holds. |
| ViewSimulation.SimNarrow | crates/mncs-codegen/src/c11.rs:1670-1683 | Narrowing aliases the descriptor and traps exactly when the length exceeds the new capacity. |
| ViewSimulation.SimBoundCheck | crates/mncs-codegen/src/c11.rs:1684-1710 | The index itself, or a trap exactly when it is outside the sequence. |
| Arena.Runtime.CellAlloc | crates/mncs-codegen/src/c11.rs:546 | The allocator updates bump and flags in place exactly as specified. |
| Arena.Runtime.SlotStore | crates/mncs-codegen/src/c11.rs:546 | A store writes the little-endian image of the value, or sets the failure flag when the address is past the last slot. |
| Arena.Runtime.SlotLoad | crates/mncs-codegen/src/c11.rs:546 | A load reads the value back, or sets the failure flag. |
| Arena.CellsDisjoint | crates/mncs-codegen/src/c11.rs:542-546 | Over any sequence of requests, the cells handed out are 8-aligned, in range, pairwise disjoint and above everything allocated before. |
| Arena.FailureIsPermanent | crates/mncs-codegen/src/c11.rs:542-546 | After a failure nothing is handed out or written. |
| Arena.UnrelatedRequestsKeep | crates/mncs-codegen/src/c11.rs:546 | A range of bytes changes only through stores that overlap it. |
| Arena.StoredReads | crates/mncs-codegen/src/c11.rs:546 | A stored value is loaded back after any sequence of requests whose stores keep off its slot, unless the runtime has failed. |
| Arena.CellsComplete | crates/mncs-codegen/src/c11.rs:542-546 | A sequence of requests that never fails hands out one cell for every allocation, in order and of the size asked for. |
| Arena.ServeFails | crates/mncs-codegen/src/c11.rs:546 | A healthy arena fails exactly on an allocation or an access that ends past 16 MiB, and only the allocation says that it is exhausted. |
| Represent.AllocSpec | crates/mncs-codegen/src/c11.rs:546 | On a healthy arena allocation returns the next aligned address when the cell fits, and otherwise sets both flags. |
| Represent.RepKept | crates/mncs-codegen/src/c11.rs:542-546 | A represented value survives everything that only extends the arena. |
| Represent.RepDetermines | crates/mncs-codegen/src/c11.rs:542-546 | In a given memory a cell stands for at most one value of its type, nested sequences and views included. |
| Represent.CellShape | crates/mncs-codegen/src/scalar.rs:1683-1720 | A cell and its arena slot have 64 bits for 64-bit integers, sequences and views and 32 bits otherwise; cells of integers and truth values are signed. |
| Naming.NamesSound | crates/mncs-codegen/src/c11.rs:1874-1910 | Distinct ids get distinct C names, every defined id has one, and none is the fallback name. |
| Naming.NamesAre | crates/mncs-codegen/src/c11.rs:1874-1910 | In a function of distinct values the k-th value, in the order in which the generator meets them, is named v followed by k. |
| Naming.FunctionDeclares | crates/mncs-codegen/src/c11.rs:618-637 | Every value's variable is declared exactly once, as a parameter or as a local, nested destinations included. |
| Entry.FunctionDeclared | crates/mncs-codegen/src/scalar.rs:1683-1695 | Each variable is declared with the C type of its value's type. |
| Discipline.InstBehaves | crates/mncs-codegen/src/c11.rs:748-1742 | From any state each flattened instruction assigns its own destination alone among value variables, never clears the failure flag, and leaves the activation only with a failure status. |
| Emitter.FlattenInsts | crates/mncs-codegen/src/c11.rs:1850-1860 | The flattening loop meets every concrete instruction exactly once, in order. |
| Emitter.CNames.constructor | crates/mncs-codegen/src/c11.rs:1874-1910 | The name table filled in place is the specified one; every block id is mapped to the position of a block that bears it. |
| Emitter.EmitTransfers | crates/mncs-codegen/src/c11.rs:726-745 | The loop appends exactly the specified assignments to the output. |
| Emitter.EmitInteger | crates/mncs-codegen/src/c11.rs:759-987 | Branching on operator, intent, sign and elision as the generator does, statement by statement, appends the specified statements. |
| Emitter.EmitInst | crates/mncs-codegen/src/c11.rs:748-1774 | Pushing statement by statement, with loops for unrolled lanes and call arguments, the output grows by exactly the specified statements. |
| Emitter.EmitLocals | crates/mncs-codegen/src/c11.rs:611-637 | The declaration loop produces the specified declarations, each at an id's first occurrence. |
| Emitter.EmitFunction | crates/mncs-codegen/src/c11.rs:598-723 | The loops together produce the specified C function. |
| Emitter.EmitModule | crates/mncs-codegen/src/c11.rs:533-561 | Every function of the module is emitted, with one decision about the arena. |
| Symbols.ManglingCollides | crates/mncs-codegen/src/support.rs:121-138 | The escaping is not injective: two name parts, and two whole identities, share a spelling. |
| Symbols.MangleExact | crates/mncs-codegen/src/support.rs:125-136 | Exactly which name parts share a spelling: those whose runs of special characters weigh the same, an underscore counting two. |
| Symbols.MangleMeans | crates/mncs-codegen/src/support.rs:121-138 | The escaping works character by character: an underscore becomes two, an ASCII letter or digit stays, anything else becomes one underscore. |
| Symbols.CacheKeySplits | crates/mncs-codegen/src/c11.rs:170-176 | A cache key always determines the contract key and the depth seed. |
| Symbols.EntryKeyInjective | crates/mncs-codegen/src/support.rs:141-143 | Contract keys determine module and function when module names have no colon. |
| Session.KeySpellsSymbol | crates/mncs-codegen/src/support.rs:113-143 | The contract key spells the qualified symbol, so it determines it even where it does not determine the entry. |
| Session.SessionTransparent | crates/mncs-codegen/src/c11.rs:71-215 | If keys determine drivers, every request sequence gets from the session what one-shot execution gives; for a toolchain whose runs reveal the driver, only then. |
| Session.PlainEntriesDetermine | crates/mncs-codegen/src/support.rs:635-672 | Keys determine drivers when each entry resolves without the short-name fallback or names a module without a colon. |
| Session.KeyDeterminesExact | crates/mncs-codegen/src/support.rs:635-672 | Keys determine drivers if and only if the artifact's tables give entries that are spelled alike the same symbol and contracts. |
| SessionTables.TablesExact | crates/mncs-codegen/src/support.rs:635-672 | That holds if and only if the finite tables agree: a contract key without a native export splits before at most one exported short name, of two nested contract keys at most one is exported by its short name, and nested contract keys have one signature wherever a single export serves both. |
| SessionTables.TablesDecide | crates/mncs-codegen/src/c11.rs:71-215 | So a session is transparent over all request sequences when the tables agree, and only then where runs reveal their drivers. |
| Session.FallbackCollides | crates/mncs-codegen/src/support.rs:635-672 | Where the contract falls back to the short name, one key can stand for two drivers that decode different result types, although the one export is the symbol of a real function. |
| Requests.PrepareMeans | crates/mncs-codegen/src/c11.rs:71-185 | A request is prepared exactly when it names an entry, or the first instantiation compiled for its type arguments, with a contract under the qualified key or else the plain name, as many arguments as the contract has, an exported qualified or else plain symbol, a depth budget that is absent or from 1 to 1024, and arguments that encode; the driver's depth is 0 or 1024 less the budget. |
| Requests.RefusalMeans | crates/mncs-codegen/src/c11.rs:71-185 | Any other request is refused as invalid or unsupported by the first of these conditions that fails. |
| Requests.NoEntryMeans | crates/mncs-codegen/src/c11.rs:74-97 | A request that names no entry, or one without a contract, is invalid. |
| Requests.DriverFuel | crates/mncs-codegen/src/support.rs:2352-2364 | Started at the driver's depth, a compiled entry runs as under the request's own budget. |
| Requests.AnswerMeans | crates/mncs-codegen/src/c11.rs:177-232 | The answer to a prepared request is what the executable compiled from the source and its driver gives on its arguments, call file and first output contract; a failed compilation is passed on. |
| Session.StatefulSession.Execute | crates/mncs-codegen/src/c11.rs:71-215 | One request updates the cache and answers as specified; a failed compilation is not remembered. |
| Session.StatefulSession.ExecuteAll | crates/mncs-codegen/src/c11.rs:71-215 | Any sequence of requests is answered as by one-shot execution, and the cache stays sound. |
| Laws.EvaluateProperty | crates/mncs-cli/src/main.rs:5741-5869 | A property passes exactly when its equation holds between values of the operation: f(a,b) = f(b,a); f(f(a,b),c) = f(a,f(b,c)); f(a,a) = a; f(d,a) = f(a,d) = a for a neutral d and = d for an absorbing or preserved one, on all declared values outside the exclusions. Otherwise the counterexample is the first tuple in loop order that breaks the equation, with the first failed evaluation's reason or the law's own. |
| Laws.FoldsAgree | crates/mncs-cli/src/main.rs:5778-5821 | If commutativity and associativity pass on values closed under the operation, folds of the same values agree in every order and bracketing. |
| Resolver.ResolveDetailed | crates/mncs-cli/src/main.rs:7579-7667 | An invalid name is not found. Otherwise, over the compatible files of all roots and the bundle's file: not found exactly when there is none; resolved to one of them when all have one content; else a conflict that lists, sorted, the locators of files with distinct contents, one for every content. |
| Resolver.OutcomeMeans | crates/mncs-cli/src/main.rs:7605-7667 | The same of the resolution as a function, for every name, roots, bundle and compatibility. |
| Resolver.CandidatesAre | crates/mncs-cli/src/main.rs:7605-7640 | A file is considered exactly when it is a compatible file under some root or the bundle's file. |
| Resolver.ValidNameMeans | crates/mncs-cli/src/main.rs:7580-7590 | A name is valid exactly when it is segments of lower-case letters, digits and underscores joined by single dots. |
| Resolver.RootOrderIrrelevant | crates/mncs-cli/src/main.rs:7593-7640 | Any order of the roots gives the same class of outcome, the same resolved content, and equally many conflict locators. |
| Resolver.ConflictNamesTheFirst | crates/mncs-cli/src/main.rs:7617-7622 | Which locator of a shared content a conflict names does depend on the order. |
| Bindings.FreshName | scripts/generate_host_bindings.py:74-78 | The suffix search stops and returns the first free candidate. |
| Bindings.InputIdentifiers | scripts/generate_host_bindings.py:65-81 | The names are pairwise distinct legal identifiers, each the first candidate for its base that no earlier input took, for any submitted list; none is a keyword if keywords hold no underscore. |
| Bindings.BaseMeans | scripts/generate_host_bindings.py:58-62 | A base is a legal identifier: the submitted name itself where that is legal and no keyword, else its characters with illegal ones replaced by an underscore and one more in front where it would start with a digit or be a keyword; without a submitted name, input_ and the position counted from one. |
| Bindings.CandidateMeans | scripts/generate_host_bindings.py:72-78 | The k-th candidate for a base is the base for k = 1 and else the base, an underscore and the decimal numeral of k. |
| Bindings.ElementRecovered | scripts/generate_host_bindings.py:521-523 | Splitting at colons and joining the middle recovers the element's descriptor, whatever colons it contains. |
| Bindings.BindingRoundTrips | scripts/generate_host_bindings.py:530-656 | For every contract nested to any depth, decoding an encoded value returns it. |
| Bindings.DecodedShape | scripts/generate_host_bindings.py:530-656 | Whatever decodes under a contract is a value of its type at any depth: no number out of range, no unknown variant, no missing field. |
| Bindings.NumberDecodes | scripts/generate_host_bindings.py:530-656 | Which JSON decodes to a given truth value or number; an unsigned integer must say that it has 64 bits and no sign. |
| Bindings.IdentityDecodes | scripts/generate_host_bindings.py:637-656 | A result with a full variant identity decodes to the variant named after the last double colon. |
| ElfObject.ValidateElf64 | crates/mncs-codegen/src/external.rs:226-369 | For any byte slice: some sum of 64-bit fields overflows on the way exactly when the stated fields say so; elsewhere a 64-bit object is accepted exactly when its header, section-name table, .text section and last symbol table are as required and every export names an in-file symbol with a non-zero section index. All reads are in bounds and no other sum can overflow. |
| ElfLayout.FileAccepted | crates/mncs-codegen/src/external.rs:226-369 | For sections in any order, at any offsets that do not overlap and with any contents, among them a .text, a symbol table and the string tables these use: the file they make overflows no sum, and is accepted if and only if each export is the name of an entry of the last symbol table that is defined in some section. |
| ElfLayout.LayoutAccepted | crates/mncs-codegen/src/external.rs:226-369 | The same for any file that holds the pieces of such a layout, overlapping or not. |
| ElfAssembly.ObjectAccepted | crates/mncs-codegen/src/external.rs:226-369 | An object below 4 GiB assembled from any list of symbols, with zero-free names and 16-bit section indices, is such a layout, and is accepted if and only if each export is the name of a symbol defined in some section. |
| ElfLayout.HeaderReads | crates/mncs-codegen/src/external.rs:385-413 | A section header written field by field at its offsets reads back. |
| ElfLayout.NameReads | crates/mncs-codegen/src/external.rs:214-221 | A name in a string table is read back from its offset, up to its zero. |
| ElfObject.CollectSymbols | crates/mncs-codegen/src/external.rs:337-361 | The names collected are exactly those of the defined in-file symbols. |
| ElfObject.SectionTitles | crates/mncs-codegen/src/external.rs:305-320 | The byte strings that section names are compared with spell .text and .symtab. |
| ElfObject.ReadField | crates/mncs-codegen/src/external.rs:193-212 | A little-endian field is the value of its bytes. |

## Left out

- Floating point, bytes, finite variants, records, vectors and masks: instructions and values outside integers, booleans, sequences and views.
- C text: expressions and statements are trees, so printing, precedence and identifiers other than value names are not modelled.
- Widening of narrow arithmetic before lowering, and lowering from the program to SSA: functions are given in SSA form.
- The reference executor's instruction step budget: step counts here cut off both sides alike.
- Call-file encoding of arguments and results: arguments are given as represented cells in memory, results as cells and arena contents.
- Compilers, processes, files and probing: compilation and runs are functions of their inputs.
- WASM, LLVM and Cranelift backends, PTX text, capability manifests, diagnostics, evidence hashing and the command line.
- Numbering of C names by a 32-bit counter: the model counts without bound.
- Transfers.TransferExact: is stated for parameters with distinct ids, which validity demands of every block.
- ElfObject.ValidateElf64: an overflowing sum is a verdict of its own, because the validator then panics or wraps depending on how it was built; what a wrapped sum leads to is not modelled. Addresses are 64-bit. 32-bit objects are not modelled because the section index of a 32-bit symbol is read at a different offset than the System V gABI gives it.
- Bindings.BindingRoundTrips: covers every descriptor except floats, whose JSON form loses infinities and NaN; the types are assumed to have distinct field and variant names, without which the generated Rust does not compile.
- Session.SessionTransparent: the driver is a record of what its text is made from, not the text.
- Resolver.ResolveDetailed: sorting is by an insertion sort in place of the library's; whether a text declares a compatible module is a parameter.
- Refinement.GeneratedRefines: of a run that exhausts the arena the flags, the frozen arena and the status at its end are stated; what it computes on the way from the zero cells it is handed, and so whether it traps, returns or goes on, is not.
- Laws.EvaluateProperty: the executed operation is a function of its two arguments, so repeated evaluations agree.
