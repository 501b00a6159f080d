# Zith: verified models

Dafny 4.11 models of the parts of the Zith compiler whose correctness is not visible from any single
function, with the properties they are relied on for. `dafny verify dfyconfig.toml` checks everything.

| files | what they model |
|---|---|
| `ExecIr`, `Hir`, `HirToIr`, `Lowerer`, `IrVm`, `Int64`, `LoweringCorrect`, `LoweringTheorems`, `LoweringSuccess`, `HirMeaning`, `LoweringSafety`, `LoweringCalls`, `LoweringBlocks`, `LoweringExamples` | lowering HIR to the execution IR, the interpreter, and the proof that they agree |
| `GenericTypes`, `Inference`, `InferenceTheorems`, `CalleeWalk`, `Instances` | inference of generic arguments, substitution, and closing the instance table |
| `CompactTypes`, `ArtifactBuilder`, `GenericNames` | the type and string tables of cached artifacts, references to functions, names of instances |
| `TestLog`, `TestOutputBuffer` | framing of test logs: a batch parser, and the streaming machine that refines it |
| `Reachability`, `Manifest`, `CanonicalRegistry`, `Store` | the module manifest and its importer index, invalidation, the registry of canonical tags |
| `EditDistance` | the two-row edit distance |
| `Scheduler` | the agent scheduler's per-agent state machine |
| `Collections` | small shared helpers |

Code that works by changing state is modelled as classes and loops, each method tied by its contract to
a function; the theorems are about those functions. The reference meaning of the HIR (`Hir`) is written
independently of the lowering: instructions in order, each expression id evaluated at most once, only
the first two arguments of a call evaluated. It is not independent in one respect: which function a call
means is found by the lowering's own search, through the functions emitted so far and the externals
collected so far (`Hir.CallTarget`); `CallReachesItsFunction` says when that is the function the call was
resolved to. Behaviour that C++ leaves undefined (signed overflow, a shift of 64 or more, the smallest
integer divided by -1) is an outcome of its own: lowered code comes to it exactly where evaluation does, and
nothing is said about what happens then.

Where the code does something else than its comments or names suggest, the model follows the code, and
a member of the table says so exactly:

- The jumps emitted for functions of several blocks name blocks, and the interpreter takes them for
  instructions; `JumpReachesItsBlockIff` and `BranchReachesItsBlocksIff` say which of them get there, and
  `TwoBlocksNeverEnd` shows one that does not.
- A call whose function shares its source name with an earlier function reaches the earlier one
  (`CallReachesItsFunction`, `OverloadsCollapse`).
- Loading a manifest file with two lines for one path can leave importers listed that no longer import
  (`LoadedIndexExactIff`); invalidation then evicts more than needed, never less.
- A registry with gaps eventually refuses every new id (`NewIdsGetTagsIff`).
- Empty names and empty sums do not survive the artifact tables (`HeadReadsBackIff`,
  `UnreadableExamples`), and a reference to a function needs some string in the artifact
  (`ReferenceNamesItsFunction`).
- Function types with several parameters are cut up when arguments are taken out of an instance's name
  (`FunctionTypeArgumentIsCut`).
- The type table never merges equal types, so "the same type" means the same entry: inference can
  reject two arguments that look alike (`TwiceTheSameIff`, `SeparateEntriesConflict`), and instances that
  look alike can enter the table (`ConcreteAgainIffLeaves`).
- An agent that has ended is later reported as blocked (`EndedIsBlockedIff`).
- A task whose title still begins with a number sign once cleaned, or cleans to nothing, is never done,
  and no task after it is ever given out (`FinishesIff`, `UnsettledIsNeverPassed`).

## Model

| member | source | states |
|---|---|---|
| Int64.TruncatedDivision | archive/execution-ir-v1/ir-vm.cpp:77-86 | quotient and remainder recompose the dividend and the remainder has its sign, as C++ division does |
| Int64.ShiftRightHalves | archive/execution-ir-v1/ir-vm.cpp:119-122 | a right shift by n under 64 gives the v for which v doubled n times does not exceed the operand and v + 1 doubled n times does; from 64 on it is undefined |
| Int64.ShiftLeftDoubles | archive/execution-ir-v1/ir-vm.cpp:115-118 | a left shift by n under 64 gives the 64-bit number congruent, modulo 2^64, to the operand doubled n times |
| Int64.XorBitwise | archive/execution-ir-v1/ir-vm.cpp:111-113 | bit k of an exclusive or is set if and only if the bits k of the operands differ |
| Int64.FitsIff | archive/execution-ir-v1/ir-vm.cpp:13-14 | the values of a register are those from -2^63 up to but not including 2^63 |
| IrVm.ExactArithmetic | archive/execution-ir-v1/ir-vm.cpp:67-76 | a sum, difference, product, negation or complement is the exact one, or undefined when that does not fit; none of them traps |
| IrVm.DivisionSplits | archive/execution-ir-v1/ir-vm.cpp:77-86 | division traps if and only if the divisor is 0, is undefined only for the smallest integer by -1, and otherwise quotient and remainder split the dividend |
| IrVm.TruthValues | archive/execution-ir-v1/ir-vm.cpp:87-110 | a comparison or logical operator yields 1 where what it asks holds and 0 where it does not |
| IrVm.Shifts | archive/execution-ir-v1/ir-vm.cpp:114-123 | a negative count traps; counts from 64 on that fit 32 bits are undefined; the others double or halve |
| IrVm.ExclusiveOr | archive/execution-ir-v1/ir-vm.cpp:111-113 | exclusive or works bit by bit |
| IrVm.LibraryPrints | archive/execution-ir-v1/ir-vm.cpp:167-182 | puts prints the numbered string and a line break, putchar the low byte of its operand; a bad string number or any other name traps and prints nothing |
| IrVm.StepTouchesLittle | archive/execution-ir-v1/ir-vm.cpp:24-198 | one instruction writes no register but its destination and no slot but the one it names; only a library call prints, only a store changes slots, and only jumps and branches leave the order |
| IrVm.FuelMonotone | archive/execution-ir-v1/ir-vm.cpp:13-239 | the call-depth and instruction budgets of the model are no part of the meaning: a run that finishes is the same under larger budgets |
| IrVm.AdvanceMonotone | archive/execution-ir-v1/ir-vm.cpp:199-233 | the same for one instruction together with the call it makes |
| IrVm.Vm.Execute | archive/execution-ir-v1/ir-vm.cpp:24-198 | one pass through the instruction switch does the specified step: same next frame, or same way of ending |
| IrVm.Vm.PrepareCall | archive/execution-ir-v1/ir-vm.cpp:199-221 | the checks before a call and the register file built for the callee are the specified ones |
| IrVm.Vm.CallFunction | archive/execution-ir-v1/ir-vm.cpp:199-233 | a call runs the callee to its end and puts its result into the caller, or ends as the callee did |
| IrVm.Vm.RunFunction | archive/execution-ir-v1/ir-vm.cpp:13-239 | the dispatch loop returns, traps or is undefined exactly as the recursive specification, with the same value and the same text printed |
| IrVm.Vm.FindMain | archive/execution-ir-v1/ir-vm.cpp:245-251 | the first function called "main", if there is one |
| IrVm.Vm.RunMain | archive/execution-ir-v1/ir-vm.cpp:253-275 | missing main, trap and normal end are told apart; on success exit code and output are those of running main; after a trap the text printed so far stays in the machine |
| HirToIr.OperandContinues | archive/execution-ir-v1/hir-to-ir.cpp:53-227 | lowering an operand revises nothing that was emitted, numbered or memoised, keeps register numbers and string numbers unambiguous, and memoises the operand |
| HirToIr.FunctionContinues | archive/execution-ir-v1/hir-to-ir.cpp:251-305 | the same for a whole function from its fresh state |
| HirToIr.UpToInvariant | archive/execution-ir-v1/hir-to-ir.cpp:235-306 | after any number of functions: the emitted ones, the external names without repetition, the strings without repetition |
| HirToIr.UpToGrows | archive/execution-ir-v1/hir-to-ir.cpp:235-306 | functions, constants, strings and externals already there keep their numbers while later functions are lowered |
| HirToIr.EmittedPrefix | archive/execution-ir-v1/hir-to-ir.cpp:248-251 | a function keeps its number once emitted |
| LoweringCorrect.LiteralSim | archive/execution-ir-v1/hir-to-ir.cpp:60-82 | a loaded constant is the literal, wherever in the constant table it went |
| LoweringCorrect.StringSim | archive/execution-ir-v1/hir-to-ir.cpp:63-72 | a string literal evaluates to the number its text has in the final string table |
| LoweringCorrect.VarSim | archive/execution-ir-v1/hir-to-ir.cpp:83-94 | a parameter is read from its register, which nothing overwrites |
| LoweringCorrect.SlotLoadSim | archive/execution-ir-v1/hir-to-ir.cpp:202-208 | a slot load reads the slot at its place in the order, and traps exactly when the slot is beyond those allocated or stored to |
| LoweringCorrect.BinarySim | archive/execution-ir-v1/hir-to-ir.cpp:95-156 | both operands are evaluated in order, then the operator; division by zero, a negative shift and an operator without opcode trap on both sides |
| LoweringCorrect.UnarySim | archive/execution-ir-v1/hir-to-ir.cpp:209-223 | the same for the unary operators |
| LoweringCorrect.ArgSim | archive/execution-ir-v1/hir-to-ir.cpp:195-196 | of the arguments the first two are evaluated, and a missing one reads the first register |
| LoweringCorrect.CallSim | archive/execution-ir-v1/hir-to-ir.cpp:157-201 | a call evaluates its arguments and does what its target does, printing and trapping included |
| LoweringCorrect.FunctionStepSim | archive/execution-ir-v1/hir-to-ir.cpp:162-177 | a call of a lowered function has the meaning of evaluating that function on the argument values |
| LoweringCorrect.ExternStepSim | archive/execution-ir-v1/hir-to-ir.cpp:178-189 | a library call prints the same text, or traps, on both sides |
| LoweringCorrect.OperandSim | archive/execution-ir-v1/hir-to-ir.cpp:53-227 | for every expression DAG: running the code emitted for an operand reaches a frame whose register holds the evaluated value, keeping all lower registers, the memo, slots and output in agreement, or ends as the evaluation ends |
| LoweringCorrect.InstSim | archive/execution-ir-v1/hir-to-ir.cpp:263-281 | the same for a block instruction, slot stores included |
| LoweringCorrect.InstsSim | archive/execution-ir-v1/hir-to-ir.cpp:262-281 | the same for all instructions of a block, in order |
| LoweringCorrect.ReturnSim | archive/execution-ir-v1/hir-to-ir.cpp:294-303 | the return ends the run with the evaluated return value, or 0 for none |
| LoweringCorrect.FunctionSim | archive/execution-ir-v1/hir-to-ir.cpp:251-305 | for every single-block function, every argument values and every call depth: running the emitted body equals evaluating the HIR instructions in order with each expression evaluated at most once |
| LoweringTheorems.MainPreserved | archive/execution-ir-v1/hir-to-ir.cpp:231-309 | running main of a successfully lowered module is evaluating it with all parameters zero |
| LoweringSuccess.OperandSucceeds | archive/execution-ir-v1/hir-to-ir.cpp:53-227 | lowering an operand fails, from a sound state, if and only if something it asks for cannot be lowered or a table passes 65536 entries |
| LoweringSuccess.LoweringSucceedsIff | archive/execution-ir-v1/hir-to-ir.cpp:231-309 | a module is lowered successfully if and only if everything its emitted functions ask for, through operands and the first two arguments of calls, is of a supported kind, each name is a parameter and each call has a target, and no more than 65536 constants and 65536 strings come together |
| HirMeaning.EvalOnlyAdds | archive/execution-ir-v1/hir-to-ir.cpp:54-57 | in the reference evaluation an expression forgets nothing, changes no slot, learns no id above its own, and prints only after what was printed before, also when it is cut short |
| HirMeaning.FunctionPrintsOn | archive/execution-ir-v1/ir-vm.cpp:199-233 | what a call prints comes after what was printed before it |
| HirMeaning.EvalTwiceIsOnce | archive/execution-ir-v1/hir-to-ir.cpp:54-57 | asking for an expression again gives the same value and does nothing |
| HirMeaning.OperandsFirst | archive/execution-ir-v1/hir-to-ir.cpp:95-201 | the operands of an expression, and the first two arguments of a call, may be listed before it, left to right, without any difference to values, slots, printed text or the way evaluation ends |
| HirMeaning.InstsInOrder | archive/execution-ir-v1/hir-to-ir.cpp:262-281 | a block asks for its instructions one after the other |
| HirMeaning.LoadReadsLastStore | archive/execution-ir-v1/hir-to-ir.cpp:202-208 | a load not evaluated before has the value its slot was last stored |
| HirMeaning.OnlyStoresChange | archive/execution-ir-v1/hir-to-ir.cpp:263-281 | instructions without a store to a slot leave it as it is |
| HirMeaning.CallPassesArguments | archive/execution-ir-v1/hir-to-ir.cpp:195-200 | a call of a function that returns its p-th parameter has the value of the p-th argument |
| LoweringSafety.OperandInBounds | archive/execution-ir-v1/hir-to-ir.cpp:53-227 | code emitted for an operand names only registers, constants, strings, stored slots and externals there are, calls only functions that the calls the function uses resolve to, and loads only slots that the loads it uses name |
| LoweringSafety.CodeInBounds | archive/execution-ir-v1/hir-to-ir.cpp:251-305 | the same for every body of a lowered module, which falls through to its return |
| LoweringSafety.SafeStep | archive/execution-ir-v1/ir-vm.cpp:24-237 | one instruction of such code on a frame of the declared sizes keeps the sizes and goes on to the next, enters a function with a register file of its size, returns, traps for an expected reason (arithmetic, operator without opcode, slot beyond the slot file, library call, more than two parameters) or is undefined arithmetic |
| LoweringSafety.RunsAreSafe | archive/execution-ir-v1/ir-vm.cpp:13-239 | over every run of a lowered module from the start of any emitted function, calls included: each frame has the sizes its function declares and an instruction to execute, calls go to the function itself or an earlier one, and no check fires but the expected ones; no run falls off the end of a body |
| LoweringSafety.CoveredLoadsNeverTrap | archive/execution-ir-v1/ir-vm.cpp:155-159 | where every slot a function loads is allocated or stored to in it, no run ever loads a slot beyond the slot file |
| LoweringSafety.StopsAreExpected | archive/execution-ir-v1/ir-vm.cpp:13-239 | a lowered function that traps, or is undefined, has come by a run of safe frames to an instruction that traps for one of the expected reasons, or is undefined arithmetic |
| LoweringSafety.RunTerminates | archive/execution-ir-v1/ir-vm.cpp:23-239 | code that falls through and calls only lower-numbered functions ends within a call depth of its own number and one pass over each body |
| LoweringSafety.LoweredTerminates | archive/execution-ir-v1/hir-to-ir.cpp:157-177 | every lowered module in which no function uses a call that resolves to itself terminates, whatever its arguments |
| LoweringSafety.SelfCallNeverReturns | archive/execution-ir-v1/ir-vm.cpp:199-233 | a run that falls through to a call of its own function never returns |
| LoweringCalls.OperandEmits | archive/execution-ir-v1/hir-to-ir.cpp:53-227 | whatever has a register has its operands and the call it makes in the code |
| LoweringCalls.CallsAreEmittedIff | archive/execution-ir-v1/hir-to-ir.cpp:157-201 | a lowered body calls function t if and only if a call its function uses, reached from its block through operands, resolves to t |
| LoweringCalls.SelfCallerNeverReturns | archive/execution-ir-v1/hir-to-ir.cpp:157-177 | the condition of termination is needed: a lowered function that uses a call of itself never returns, whatever its arguments and the budget |
| LoweringTheorems.CallReachesItsFunction | archive/execution-ir-v1/hir-to-ir.cpp:162-177 | a call resolved to g reaches g if and only if g was emitted by then and no function emitted before it has the same source name |
| LoweringTheorems.FirstCarrierIsCalled | archive/execution-ir-v1/hir-to-ir.cpp:162-177 | when several functions carry the symbol of a call, it goes to the first of them whose source name has been emitted |
| LoweringTheorems.NoCarrierNoTarget | archive/execution-ir-v1/hir-to-ir.cpp:162-177 | and to no function if none of them has |
| LoweringTheorems.ExternNamesExactly | archive/execution-ir-v1/hir-to-ir.cpp:243-250 | the externals collected by function n are the source names of the bodyless functions before it, each once |
| LoweringTheorems.CallReachesExternalIff | archive/execution-ir-v1/hir-to-ir.cpp:178-189 | a call that reaches no function reaches an external if and only if its callee is a name that a bodyless function before the caller has, and then the external of that name |
| LoweringTheorems.SourceNameIsLastComponent | archive/execution-ir-v1/hir-to-ir.cpp:17-25 | the source name of path.name(params), of path.name and of name is name |
| LoweringTheorems.OverloadsCollapse | archive/execution-ir-v1/hir-to-ir.cpp:17-25 | names that differ only in the parameter list have the same source name, so only the first such function can be called |
| LoweringTheorems.MemoIsTransparent | archive/execution-ir-v1/hir-to-ir.cpp:54-57 | on expressions of literals, parameters and operators, evaluating each id at most once gives the value or failure of plain recursive evaluation, whatever was evaluated before |
| LoweringExamples.ProductIsCompiled | archive/execution-ir-v1/hir-to-ir.cpp:54-57 | a module that uses one literal twice lowers to code that loads it once, meets all conditions of the theorems and returns the product |
| LoweringBlocks.BlocksInOrder | archive/execution-ir-v1/hir-to-ir.cpp:262-305 | blocks are lowered one after the other, each from the state the earlier ones left, and later ones revise nothing |
| LoweringBlocks.JumpIsEmitted | archive/execution-ir-v1/hir-to-ir.cpp:283-293 | the jump of a block, or its branch and jump, are the last instructions emitted for it, with block numbers as targets and the register of the condition |
| LoweringBlocks.StartsAtItsNumberIff | archive/execution-ir-v1/hir-to-ir.cpp:262-305 | block t begins at instruction t if and only if every block before it is bare: nothing it lists needs an instruction and it ends in a jump or a return of nothing or of a parameter; otherwise it begins later |
| LoweringBlocks.JumpReachesItsBlockIff | archive/execution-ir-v1/ir-vm.cpp:194-198 | in the code of any function the jump emitted for block t reaches the first instruction of block t if and only if the blocks before t emitted exactly t instructions, that is, if they are all bare and t fits 16 bits; otherwise it lands in an earlier block |
| LoweringBlocks.BranchReachesItsBlocksIff | archive/execution-ir-v1/ir-vm.cpp:189-193 | the same for both targets of a branch, the condition deciding which is taken |
| LoweringExamples.TwoBlocksLower | archive/execution-ir-v1/hir-to-ir.cpp:285-293 | a module of one function with two blocks lowers successfully to code that jumps to 1, where the second block begins at 2 |
| LoweringExamples.TwoBlocksNeverEnd | archive/execution-ir-v1/ir-vm.cpp:194-198 | run from its start that code is out of fuel under every budget, while a run put at the first instruction of the second block returns |
| Lowerer.LowerState.Define | archive/execution-ir-v1/hir-to-ir.cpp:97-100 | a fresh register, an instruction into it and the memo entry, on 16-bit counters |
| Lowerer.LowerState.FindTarget | archive/execution-ir-v1/hir-to-ir.cpp:157-194 | the search through functions, then externals, finds the specified target |
| Lowerer.LowerState.LowerOperand | archive/execution-ir-v1/hir-to-ir.cpp:53-227 | the register table with its 0xFFFF mark computes the specified lowering while the counters fit 16 bits |
| Lowerer.LowerState.LowerLiteral | archive/execution-ir-v1/hir-to-ir.cpp:73-82 | a constant is appended and numbered; the 65537th makes the lowering fail |
| Lowerer.LowerState.LowerString | archive/execution-ir-v1/hir-to-ir.cpp:63-72 | a string is found or appended, and numbered |
| Lowerer.LowerState.LowerVar | archive/execution-ir-v1/hir-to-ir.cpp:83-94 | a variable is a parameter or an error |
| Lowerer.LowerState.LowerBinary | archive/execution-ir-v1/hir-to-ir.cpp:95-156 | operands left to right, then the opcode of the operator |
| Lowerer.LowerState.LowerUnary | archive/execution-ir-v1/hir-to-ir.cpp:209-223 | operand, then opcode |
| Lowerer.LowerState.LowerCall | archive/execution-ir-v1/hir-to-ir.cpp:157-201 | target, at most two arguments, then the call into a fresh register |
| Lowerer.LowerState.LowerInst | archive/execution-ir-v1/hir-to-ir.cpp:263-281 | allocation and store grow the slot count, a store emits its value first, a return emits nothing, anything else is lowered for its effect |
| Lowerer.LowerState.LowerTerminator | archive/execution-ir-v1/hir-to-ir.cpp:283-304 | jump, branch and return as emitted by the source, block numbers being jump targets |
| Lowerer.LowerState.LowerBlock | archive/execution-ir-v1/hir-to-ir.cpp:262-305 | instructions in order, then the terminator |
| Lowerer.LowerState.LowerFunction | archive/execution-ir-v1/hir-to-ir.cpp:251-305 | from a fresh register table and the module tables so far, the finished function and the grown tables |
| Lowerer.LowerModuleInPlace | archive/execution-ir-v1/hir-to-ir.cpp:231-309 | the loop over all functions computes the specified module and success flag unless some function needs more registers than 16 bits can name |
| TestLog.ParseIsLossless | src/common/test-output-buffer.hpp:16-49 | cutting a text into characters, context lines and frames loses, adds and reorders nothing: the pieces spell the text |
| TestLog.ParseIsTheReading | src/common/test-output-buffer.hpp:16-129 | the pieces the parser finds are the only ones that spell the text and are proper: no marker begins at a plain character, names and headers stay on their line, a body ends at the first end marker, a frame is named by its header or else by the last context line before it, and only the last piece may be unfinished |
| TestLog.TextBeforeFirstMarker | src/common/test-output-buffer.hpp:73-90 | plain text runs exactly up to the first place where either marker occurs |
| TestLog.BodyIsLossless | src/common/test-output-buffer.hpp:116-129 | a body runs to the first end marker, and nothing of it is lost |
| TestLog.CapacityPerName | src/common/test-output-buffer.hpp:131-144 | over any sequence of frames, what stays under a log name is the prefix its remaining room admits of everything framed under that name |
| TestLog.RenderIsKept | src/common/test-output-buffer.hpp:92-129 | what is printed is the text of the pieces that stay: context lines go, frames carry their name, bodies are cut to what is admitted |
| TestLog.WholeRunCapacity | src/common/test-log-protocol.hpp:12 | over a whole run the text printed is that of the pieces that stay, and what stays under each name is exactly the first 4096 bytes |
| TestLog.FittingTextIsPrinted | src/common/test-output-buffer.hpp:16-49 | a text without context lines, whose frames are named by their headers and fit, is printed as it is |
| TestOutputBuffer.NoMarkerAhead | src/common/test-output-buffer.hpp:73-78 | a character is let go only where no marker can start, whatever text follows |
| TestOutputBuffer.NoEndAhead | src/common/test-output-buffer.hpp:116-121 | the same inside a body, for the end marker that overlaps itself |
| TestOutputBuffer.CandidateStep | src/common/test-output-buffer.hpp:73-78 | after each character the pending text is again the longest suffix of what was read that is a beginning of a marker |
| TestOutputBuffer.PendingIsText | src/common/test-output-buffer.hpp:36-37 | text still pending at the end holds no marker and is printed as it is |
| TestOutputBuffer.Buffer.constructor | src/common/test-output-buffer.hpp:51-63 | a new buffer stands for the batch result of whatever will be appended |
| TestOutputBuffer.Buffer.AppendBodyByte | src/common/test-output-buffer.hpp:131-144 | a byte is staged and charged to its log name while the name has room; the staging array never overflows because it never holds more than the name was charged |
| TestOutputBuffer.Buffer.FlushLogBuffer | src/common/test-output-buffer.hpp:146-149 | the staged bytes are printed and the staging is empty |
| TestOutputBuffer.Buffer.DrainOutside | src/common/test-output-buffer.hpp:73-78 | output and pending text say of any later text what they said before, and pending is the longest candidate |
| TestOutputBuffer.Buffer.AppendOutside | src/common/test-output-buffer.hpp:73-90 | for any text that may follow, state plus text gives the same result before and after consuming the character |
| TestOutputBuffer.Buffer.AppendContext | src/common/test-output-buffer.hpp:92-100 | the same inside a context line |
| TestOutputBuffer.Buffer.AppendHeader | src/common/test-output-buffer.hpp:102-114 | the same inside a header line, an empty one standing for the active test |
| TestOutputBuffer.Buffer.DrainBody | src/common/test-output-buffer.hpp:116-121 | the same for the first half of a body character |
| TestOutputBuffer.Buffer.AppendBody | src/common/test-output-buffer.hpp:116-129 | the same for a body character, closing the frame at the end marker |
| TestOutputBuffer.Buffer.Append | src/common/test-output-buffer.hpp:16-33 | the same for a chunk of text |
| TestOutputBuffer.Buffer.TakeBody | src/common/test-output-buffer.hpp:43-47 | an unfinished end marker is charged and printed as body text |
| TestOutputBuffer.Buffer.Take | src/common/test-output-buffer.hpp:35-49 | what is taken is the result when nothing more follows |
| TestOutputBuffer.Capture | src/common/test-output-buffer.hpp:14-49 | for every text and every way of cutting it into chunks, the streaming machine yields the batch result |
| Manifests.ExactIndexFindsDependents | src/cache/manifest.cpp:88-107 | walking an exact index from x finds exactly the modules that reach x over one or more import edges |
| Manifests.CoveringIndexFindsDependents | src/cache/manifest.cpp:88-107 | walking an index with surplus entries still finds all of them |
| Manifests.LoadedIsLastLine | src/cache/manifest.cpp:132-182 | of several lines for one path the last one counts |
| Manifests.LoadedIndexExactIff | src/cache/manifest.cpp:132-182 | loading into an empty manifest never loses an import, and gives an exact index if and only if no path's last line drops an import an earlier line of it lists |
| Manifests.Manifest.Forget | src/cache/manifest.cpp:58-60 | the path leaves the importer lists of its former imports, all other lists staying as they are |
| Manifests.Manifest.Record | src/cache/manifest.cpp:66-67 | the path joins the importer lists of its imports, all other lists staying as they are |
| Manifests.Manifest.Upsert | src/cache/manifest.cpp:53-68 | the entry is recorded under its path; the index stays exact if it was, and complete if it was |
| Manifests.Manifest.Remove | src/cache/manifest.cpp:70-78 | the entry is gone, everything else stays; the index stays exact if it was, and complete if it was |
| Manifests.Manifest.Find | src/cache/manifest.cpp:80-86 | the entry of a path, if recorded |
| Manifests.Manifest.DependentsOf | src/cache/manifest.cpp:88-107 | the walk ends on cyclic import graphs and lists, as a set, exactly the modules that depend on the path, directly or not, when the index is exact, and at least those when it is complete |
| Manifests.Manifest.VisitedIsReached | src/cache/manifest.cpp:93-105 | what a finished walk has visited is everything that can be reached |
| Manifests.Manifest.Load | src/cache/manifest.cpp:132-182 | lines replace entries of the same path while importer lists only grow |
| Stores.ChainSurvives | src/cache/cache.cpp:265-278 | every module on an import chain that starts at a survivor survives |
| Stores.SurvivorsKeepChains | src/cache/cache.cpp:265-278 | invalidation neither cuts nor joins a survivor's import chains |
| Stores.InvalidationCommutes | src/cache/cache.cpp:265-278 | invalidating two modules gives the same manifest in either order, and invalidating one twice changes nothing more |
| Stores.SurvivorsAreLargest | src/cache/cache.cpp:265-278 | what survives is the largest set of recorded modules that has not the invalidated one and imports neither it nor a recorded module outside the set |
| Stores.HitsIff | src/cache/cache.cpp:186-209 | an artifact is a hit if and only if it is valid, each dependency is recorded, and unless it names no hash for a dependency both halves of the recorded hash are those it was compiled against |
| Stores.LastWriteStays | src/cache/cache.cpp:225-263 | over every run, what was written last for a module is what is recorded for it as long as it is recorded |
| Stores.StaleIsDropped | src/cache/cache.cpp:201-207 | over every run: once a dependency has been written with another nonzero hash than an artifact was compiled against, and not written since, the artifact is no hit and loading it drops its entry |
| Stores.CurrentIsHit | src/cache/cache.cpp:196-209 | and with its other dependencies up to date it is a hit if and only if each hash it names for that dependency is zero or the written one |
| Stores.DependentIsRecorded | src/cache/cache.cpp:265-278 | whatever depends on something is recorded itself |
| Stores.Store.constructor | src/cache/cache.cpp:42-49 | a new store has loaded manifest and registry; the index is exact under the condition of LoadedIndexExactIff |
| Stores.Store.Invalidate | src/cache/cache.cpp:265-284 | with an exact index exactly the module and everything that depends on it are evicted, with their artifacts; with a complete one no survivor depended on it; survivors are unchanged and the index stays exact |
| Stores.Store.EvictionSet | src/cache/cache.cpp:265-273 | what is collected for eviction is the module and its dependents, whatever the order and repetitions of the list |
| Stores.Store.Evict | src/cache/cache.cpp:274-278 | evicting a set removes exactly its entries and artifacts, in any order |
| Stores.Store.DropInvalid | src/cache/cache.cpp:169-174 | one entry and its artifact go, and the drop is counted |
| Stores.Store.Load | src/cache/cache.cpp:176-211 | a hit if and only if the artifact is valid and each dependency is still recorded, with the ABI hash it was compiled against unless that is zero; otherwise the entry is dropped, except when there is no file |
| Stores.Store.Put | src/cache/cache.cpp:225-263 | the manifest learns of an artifact only when its file is completely written |
| CanonicalRegistry.AssignKeepsInverse | src/cache/cache.cpp:51-63 | assigning keeps the two maps inverse with nonzero tags, changes no tag already given, and tells 0 exactly when nothing is assigned |
| CanonicalRegistry.AssignKeepsDense | src/cache/cache.cpp:51-63 | with tags 1..n in use a new id gets n + 1, never 0, and tags stay 1..n |
| CanonicalRegistry.TagsNeverChange | src/cache/cache.cpp:51-63 | over any sequence of requests no tag already given changes |
| CanonicalRegistry.FromEmptyTagsAreDense | src/cache/cache.cpp:51-63 | starting empty, the tags in use are always exactly 1..n, and all ids asked for have tags if and only if fewer than 2^32 different ones were asked for |
| CanonicalRegistry.NewIdsGetTagsIff | src/cache/cache.cpp:56-58 | in any registry, n new ids all get tags if and only if none of the n tags after the current count is in use |
| CanonicalRegistry.PrintParses | src/cache/cache.cpp:26-38 | printing a number in hexadecimal or decimal and parsing it gives the number |
| CanonicalRegistry.ValueIff | src/cache/cache.cpp:26-38 | a string has a value if and only if it is a nonempty string of digits of the base |
| CanonicalRegistry.ValueOfConcatenation | src/cache/cache.cpp:26-38 | numbers are positional: the value of two strings of digits put together is the first times the base to the length of the second, plus the second |
| CanonicalRegistry.LineFormat | src/cache/cache.cpp:159-162 | a line is two unpadded lower-case hexadecimal halves and a decimal tag, set off by colons; upper-case digits are read too |
| CanonicalRegistry.ParseLineIff | src/cache/cache.cpp:131-145 | a line is read as an id and a tag if and only if it is two hexadecimal halves in range and a nonzero decimal tag in range, set off by colons |
| CanonicalRegistry.RenderedLineParses | src/cache/cache.cpp:133-142 | a written line is split at its first and last colon into the id and the tag it was written for |
| CanonicalRegistry.LoadKeepsInverse | src/cache/cache.cpp:121-149 | whatever the file holds, the loaded maps are inverse to each other, and no line changes a tag already loaded |
| CanonicalRegistry.SaveLoadRoundTrip | src/cache/cache.cpp:121-167 | a saved registry loads back to the same two maps, in whatever order the lines were written |
| Stores.Store.AssignCanonicalId | src/cache/cache.cpp:51-63 | the specified assignment; a new tag is on disk when the disk works, and the old file stays when it does not |
| Stores.Store.LookupCanonicalId | src/cache/cache.cpp:65-71 | the tag of an id, if it has one |
| Stores.Store.CheckCanonicalMapping | src/cache/cache.cpp:73-91 | a persisted tag conflicts if and only if its id is registered under another tag; the order flag says that some other id holds it |
| Stores.Store.LoadCanonicalRegistry | src/cache/cache.cpp:121-149 | the line loop loads what the text says, skipping malformed and colliding lines, and leaves inverse maps |
| Stores.Store.SaveCanonicalRegistryLocked | src/cache/cache.cpp:151-167 | the file written loads back to the registry; if anything fails the old file stays |
| CompactTypes.NameReadsBackIff | src/cache/artifact-builder.cpp:94-103 | an interned string is read back if and only if it is not empty |
| CompactTypes.HeadReadsBackIff | src/cache/artifact-builder.cpp:105-219 | an entry says what its type says, apart from its parts, if and only if no name in it is empty and it is not a sum of nothing |
| CompactTypes.EncodingRefs | src/cache/artifact-builder.cpp:125-215 | the references of an entry are the entries of the types it is made of, in order, and its name ids those of its names |
| CompactTypes.HeadAndChildrenAreTheType | src/cache/artifact-builder.cpp:105-219 | what an entry says and what it refers to determine the type, but for the ownership of a pointer and the difference of unknown and error |
| CompactTypes.LayersComeOff | src/cache/artifact-builder.cpp:157-175 | an alias, a nominal and a qualified type are told as what they stand for |
| CompactTypes.UnreadableExamples | src/cache/artifact-builder.cpp:200-204 | an empty sum is read as the union of definition 0, and a trait without a name as one named like the first string |
| ArtifactBuilding.EntryReadsBackIff | src/cache/artifact-builder.cpp:105-219 | what is written for a type reads back as the type with alias, nominal and qualified layers taken off everywhere, if and only if every name in it is nonempty and so is every sum |
| ArtifactBuilding.IndexedTypeReadsBackIff | src/cache/artifact-builder.cpp:221-268 | the id recorded for a type is the slot that says so |
| ArtifactBuilding.EntryForStays | src/cache/artifact-builder.cpp:264-267 | later interning never changes what a recorded entry stands for |
| ArtifactBuilding.EntryRefsBelow | src/cache/artifact-builder.cpp:227-230 | an entry whose children are recorded refers only to entries already in the table |
| ArtifactBuilding.IndexedGrows | src/cache/artifact-builder.cpp:264-267 | appending a type whose children are recorded keeps every record right |
| ArtifactBuilding.ArtifactBuilder.InternString | src/cache/artifact-builder.cpp:94-103 | the id of a string, new strings appended, ids already given unchanged |
| ArtifactBuilding.ArtifactBuilder.InternStrings | src/cache/artifact-builder.cpp:191-192 | the same for the names of a pack |
| ArtifactBuilding.ArtifactBuilder.InternType | src/cache/artifact-builder.cpp:221-268 | children are interned first, every reference of a type's entry points to a strictly earlier entry, the returned id is the slot written (0 for an invalid type), and a type already there changes nothing |
| ArtifactBuilding.ArtifactBuilder.InternTypes | src/cache/artifact-builder.cpp:231-262 | the same for a list of types |
| ArtifactBuilding.ArtifactBuilder.ConvertType | src/cache/artifact-builder.cpp:105-219 | once a type's children are interned converting it never grows the type table; an erased layer converts as what is under it |
| ArtifactBuilding.ArtifactBuilder.ConvertNode | src/cache/artifact-builder.cpp:109-217 | the entry of each kind of type |
| ArtifactBuilding.ArtifactBuilder.ConvertList | src/cache/artifact-builder.cpp:139-144 | the entries of function types, packs, sums and incomplete types, which are made of lists of types |
| ArtifactBuilding.ArtifactBuilder.InternFunctionSignature | src/cache/artifact-builder.cpp:270-288 | a signature gets an entry of its own, with return type, parameter types and flags, even if an equal one exists; invalid types are written as 0; it refers to earlier entries unless it is the first entry, which refers to itself |
| ArtifactBuilding.ArtifactBuilder.WriteFunction | src/cache/artifact-builder.cpp:781-831 | name, types, flags and a fresh signature entry of a function agree with each other |
| ArtifactBuilding.ArtifactBuilder.WriteFunctions | src/cache/artifact-builder.cpp:778-832 | all functions are written, with strictly increasing signature entries |
| ArtifactBuilding.ArtifactBuilder.WriteReference | src/cache/artifact-builder.cpp:344-354 | a call, state tail call or vtable slot is written as its target's name and signature, or as none |
| ArtifactBuilding.ArtifactBuilder.Build | src/cache/artifact-builder.cpp:778-866 | every reference written resolves to exactly the function it was written for, even among functions of one name and type, if and only if the artifact has any string, which a nonempty name guarantees |
| ArtifactBuilding.ResolveFunctionReference | src/cache/cache-entry.cpp:21-59 | a reference resolves to i if and only if it is well formed and i is its only match |
| ArtifactBuilding.FlagsReadBack | src/cache/cache-identity.hpp:20-26 | each of the four properties is read back from its own bit of the flags |
| ArtifactBuilding.MatchesIff | src/cache/cache-entry.cpp:34-58 | a function matches a reference if and only if the name is its own, or that of its string id when it has none, the signature is its own entry, and that entry has its return type, parameter types and each property in its bit |
| ArtifactBuilding.ReferenceNamesItsFunction | src/cache/cache-entry.cpp:34-58 | the only match of the pair function i is written as is i, if and only if there is any string |
| ArtifactBuilding.WrittenStays | src/cache/artifact-builder.cpp:778-832 | interning more never invalidates a written function |
| GenericNames.MangledName | src/comptime/generic-instantiate.cpp:987-1003 | base, arguments separated by commas, in angle brackets |
| GenericNames.MangledParts | src/comptime/generic-instantiate.cpp:987-1003 | the text before the first "<" is the base, and what stands between it and the final ">" the arguments |
| GenericNames.NamesTellBasesApart | src/comptime/generic-instantiate.cpp:987-1003 | instances of different bases never share a name |
| GenericNames.PlainNamesHaveNoArgs | src/cache/artifact-builder.cpp:13-20 | a name without "<", or that does not end in ">", has no arguments |
| GenericNames.GenericArgsFromName | src/cache/artifact-builder.cpp:13-37 | the scan cuts the text between the first "<" and the final ">" at its commas outside brackets |
| GenericNames.PiecesAreUncut | src/cache/artifact-builder.cpp:22-35 | no piece has a comma outside brackets and all but the last close what they open |
| GenericNames.SplitJoined | src/cache/artifact-builder.cpp:22-35 | joining and cutting loses only an empty last argument |
| GenericNames.RoundTripIff | src/cache/artifact-builder.cpp:13-37 | the arguments come back exactly, for any number of them, if and only if none has a comma outside angle brackets, all but the last close their brackets and the last is not empty |
| GenericNames.NestedRoundTrip | src/cache/artifact-builder.cpp:13-37 | the arguments of an instance come back from its name when they are words or instances themselves, however deep |
| GenericNames.NamesAreUnambiguous | src/comptime/generic-instantiate.cpp:987-1003 | such names have one reading: different types never share one |
| GenericNames.FunctionTypeArgumentIsCut | src/cache/artifact-builder.cpp:29-32 | a function type with two parameters comes back in pieces |
| GenericTypes.StripsAllIff | src/sema/modern-types.cpp:603-611 | stripping takes off all outer qualifiers if and only if there are at most eight |
| GenericTypes.SubstituteInstantiates | src/comptime/generic-instantiate.cpp:695-853 | whatever entries it makes, substitution instantiates the shape of a type |
| GenericTypes.SubstituteAllInstantiates | src/comptime/generic-instantiate.cpp:920-928 | the same for a list of types |
| Inference.Inference.Probe | src/comptime/generic-instantiate.cpp:372-513 | matching inside peeled optional layers adds exactly what is demanded to a copy of the bindings, or fails |
| Inference.Inference.Unify | src/comptime/generic-instantiate.cpp:277-517 | matching a declared type against an argument adds exactly the facts it demands, and fails exactly when there is a mismatch or a parameter would be told two types |
| Inference.Inference.UnifyParts | src/comptime/generic-instantiate.cpp:522-634 | the same for two stripped types of the same kind |
| Inference.Inference.Bind | src/comptime/generic-instantiate.cpp:322-342 | a parameter keeps its first binding, and a second one must be the same up to qualifiers |
| Inference.Inference.UnifyAll | src/comptime/generic-instantiate.cpp:568-582 | the same for lists of types |
| Inference.AllBound | src/comptime/generic-instantiate.cpp:655-660 | an answer if and only if every parameter is bound |
| Inference.ResolveTypes | src/comptime/generic-instantiate.cpp:168-661 | without explicit arguments the answer is A if and only if the set of facts the call demands is exactly the bindings A; the arity errors and explicit arguments as in the source |
| InferenceTheorems.DemandsAreTheUnion | src/comptime/generic-instantiate.cpp:637-639 | what the arguments demand is the union of what each demands |
| InferenceTheorems.OrderDoesNotMatter | src/comptime/generic-instantiate.cpp:637-660 | only the set of (declared, actual) pairs matters, not their order or number |
| InferenceTheorems.TwiceTheSameIff | src/comptime/generic-instantiate.cpp:322-337 | f(T, T) called with a and b is answered by out if and only if out is a without its qualifiers and b without its qualifiers is the same entry |
| InferenceTheorems.SeparateEntriesConflict | src/comptime/generic-instantiate.cpp:322-337 | so two pointers to the same primitive, which look alike, are refused when they are separate entries |
| InferenceTheorems.MentionsIff | src/comptime/generic-instantiate.cpp:221-272 | for types of depth under 16 the bounded walk finds a parameter exactly when one occurs |
| InferenceTheorems.GroundSubstitute | src/comptime/generic-instantiate.cpp:736-741 | substituting ground types for all parameters leaves none |
| InferenceTheorems.DemandsOfSubstitute | src/comptime/generic-instantiate.cpp:277-588 | matching a declared type against what substitution made of it demands exactly the substituted bindings of the parameters that occur in it |
| InferenceTheorems.ProbeOfSubstituteIff | src/comptime/generic-instantiate.cpp:376-513 | inside peeled optional layers the substitute of a declared type is accepted if and only if no function type or sum with a parameter in it occurs in the declared type |
| InferenceTheorems.DemandsOfStanding | src/comptime/generic-instantiate.cpp:292-513 | an argument that stands for the declared type, being its substitute, or the substitute of what is inside its optional layers, or of what a borrow points to, demands exactly the chosen bindings of the parameters that occur |
| InferenceTheorems.InferenceInvertsCoercion | src/comptime/generic-instantiate.cpp:292-513 | if each argument stands for its declared type in one of these ways, under one ground choice, inference answers exactly that choice without outer qualifiers if every parameter occurs somewhere, and nothing otherwise |
| InferenceTheorems.InferenceInvertsSubstitution | src/comptime/generic-instantiate.cpp:637-660 | in particular if each argument is the substitute of its declared type |
| InferenceTheorems.AcceptedIff | src/comptime/generic-instantiate.cpp:277-634 | a ground argument can be matched at all if and only if it fits the declared type: kind by kind, optional layers of the declared type being dispensable, and a borrow taking what it points to |
| InferenceTheorems.ProbeGivesArgument | src/comptime/generic-instantiate.cpp:376-513 | where an argument stands for what is inside the optional layers, each parameter is bound to the very part of the argument it stands opposite, the rest agrees entry by entry or kind by kind, and substitution gives a type that looks like the argument |
| InferenceTheorems.MetIsOpposite | src/comptime/generic-instantiate.cpp:277-588 | if the demands are met, every parameter in the declared type is bound to the very part of the argument it stands opposite, without its outer qualifiers |
| InferenceTheorems.SubstitutionGivesArgumentIff | src/comptime/generic-instantiate.cpp:281-284 | then substitution gives a type that looks like the argument if and only if the concrete parts, which are not checked, agree |
| InferenceTheorems.InferenceIsSound | src/comptime/generic-instantiate.cpp:637-661 | both of these for each argument of a call that inference answered |
| InferenceTheorems.InferenceIsSoundForResult | src/comptime/generic-instantiate.cpp:643-653 | both of these for the declared result against the expected type |
| CalleeWalks.CalleeWalk.Collect | src/comptime/generic-instantiate.cpp:87-112 | from any visited marks: what becomes visited is reached from the root, has all it leads to visited, and the callees added are those of the calls among it |
| CalleeWalks.CalleeWalk.CollectAll | src/comptime/generic-instantiate.cpp:98-101 | the same for a list of expressions |
| CalleeWalks.CalleeWalk.CollectStatements | src/comptime/generic-instantiate.cpp:104-111 | the same for the expressions of statements, invalid statement numbers being skipped |
| CalleeWalks.ExploredIsReached | src/comptime/generic-instantiate.cpp:87-112 | a walk that starts with nothing visited visits exactly what the root reaches |
| CalleeWalks.CalleesOf | src/comptime/generic-instantiate.cpp:965-967 | the callees found are those of the calls reachable from the body, all of them and no others, on shared and cyclic expressions too |
| CalleeWalks.LeadsToIff | src/comptime/generic-instantiate.cpp:87-112 | an expression leads to its operands, conditions, expansion and what its statements hold, as far as these are expressions, and to nothing else |
| Instances.InstantiationPass.EnsureInstance | src/comptime/generic-instantiate.cpp:675-693 | an instance is found or appended, never twice, unless the table holds 1024 |
| Instances.InstantiationPass.BindCall | src/comptime/generic-instantiate.cpp:663-673 | a call is bound to its instance, or nothing changes when the table is full |
| Instances.InstantiationPass.ConcretizeCall | src/comptime/generic-instantiate.cpp:968-983 | one call gets the instance it needs |
| Instances.InstantiationPass.ConcretizeCallsOf | src/comptime/generic-instantiate.cpp:950-984 | all calls of one instance get what they need |
| Instances.InstantiationPass.ConcretizeNestedInstances | src/comptime/generic-instantiate.cpp:938-985 | terminates; old instances keep their index and contents; no (module, declaration, arguments) is in the table twice; every new instance was made for a call in the body of an earlier one; unless 1024 is reached every call bound to an abstract instance in every concrete body has its concrete instance |
| Instances.AllSettledStays | src/comptime/generic-instantiate.cpp:949-950 | calls that have what they need keep it while the table grows |
| Instances.OnlyNeededInstances | src/comptime/generic-instantiate.cpp:938-985 | the table is the least: every instance belongs to any set that has the first ones and all that its members' calls make |
| Instances.SettledCallFindsItsInstance | src/comptime/generic-instantiate.cpp:970-983 | in a settled table a call bound to f of A in the body of a ground instance over B finds an instance of f that looks like A with B put in |
| Instances.IsAbstractIff | src/comptime/generic-instantiate.cpp:930-936 | an instance is abstract if and only if a parameter occurs in one of its arguments, whichever |
| Instances.WantsIff | src/comptime/generic-instantiate.cpp:949-983 | a call wants a concrete instance if and only if it is reached in the body of an instance whose arguments mention no parameter, and is bound to an instance in whose arguments one occurs |
| Instances.ClosedTableHasInstance | src/comptime/generic-instantiate.cpp:938-985 | in a closed table every such call finds an instance of its function whose arguments look like the bound ones with those of the enclosing instance put in |
| Instances.MentionedOccurs | src/comptime/generic-instantiate.cpp:864-918 | the bounded walk never reports a parameter where none occurs |
| Instances.SubstituteBuilds | src/comptime/generic-instantiate.cpp:743-849 | substitution makes one entry for each compound type in the declared type |
| Instances.ConcreteAgainIffLeaves | src/comptime/generic-instantiate.cpp:678-683 | making the same call concrete twice gives equal instances if and only if its bound arguments are primitives or bare parameters; otherwise two instances that look alike enter the table |
| EditDistance.LevenshteinDistance | src/cli/options.cpp:130-154 | the two swapped rows compute the recursive distance |
| EditDistance.ZeroIffEqual | src/cli/options.cpp:130-154 | zero if and only if the strings are equal |
| EditDistance.Symmetric | src/cli/options.cpp:130-154 | symmetric |
| EditDistance.Triangle | src/cli/options.cpp:130-154 | the triangle inequality |
| EditDistance.LengthBounds | src/cli/options.cpp:133-136 | between the difference and the sum of the lengths |
| EditDistance.OneEditDistance | src/cli/options.cpp:143-150 | one inserted, deleted or replaced character makes a distance of at most 1 |
| EditDistance.NoFewerEdits | src/cli/options.cpp:130-154 | no shorter sequence of edits turns one string into the other |
| EditDistance.EnoughEdits | src/cli/options.cpp:130-154 | a sequence of that many edits does |
| EditDistance.DistanceIsLeastEdits | src/cli/options.cpp:130-154 | the distance is the least number of single-character edits |
| Scheduling.DoneOnlyGrows | scripts/agent-scheduler/scheduler.py:567-647 | no round forgets a done task or lowers the sequence number |
| Scheduling.CleanTwiceIff | scripts/agent-scheduler/scheduler.py:85-86 | cleaning a title twice is cleaning it once if and only if the cleaned title is empty or does not begin with a number sign |
| Scheduling.CleanIsMiddle | scripts/agent-scheduler/scheduler.py:85-86 | what is left of a title stands between its number signs and white space at the front and the white space at its end |
| Scheduling.CurrentTaskIs | scripts/agent-scheduler/scheduler.py:211-224 | the task to work on is the active one while it is in the manifest and not done, even if an earlier one is undone, and else the first undone one; there is none if and only if all are done |
| Scheduling.AdvanceDoes | scripts/agent-scheduler/scheduler.py:494-523 | advancing gives out the current task under the next sequence number; with none left it ends, or blocks when the manifest is not empty and the last task is not one of it or not done |
| Scheduling.RestartWithTask | scripts/agent-scheduler/scheduler.py:526-547 | a restart leaves an agent with a task alone, unless all its manifest is done while its own task is not: then it is blocked |
| Scheduling.MergeRequestDoes | scripts/agent-scheduler/scheduler.py:567-647 | for every unblocked agent and merge request: a failed build, failed tests or a failed integration block it, with that stage and the head asked for; a failed build or test leaves done list, task, sequence and merged head as they were; only a completed merge adds the active title to the done list, and a failed integration records the merged head |
| Scheduling.OtherRoundsDoNothing | scripts/agent-scheduler/scheduler.py:567-582 | a round without a merge request, and a request of a blocked agent, change neither work nor failure |
| Scheduling.NoTaskAfterFailure | scripts/agent-scheduler/scheduler.py:578-590 | over every run: after a round with a failure, no later round gives out a task, adds to the done list or changes the stage and head of the failure |
| Scheduling.MergeFinishesIff | scripts/agent-scheduler/scheduler.py:616-625 | merging an unfinished task makes it done if and only if its cleaned title is not empty and does not begin with a number sign, because done titles are cleaned once more |
| Scheduling.NextIsFirstUndone | scripts/agent-scheduler/scheduler.py:220-224 | when the first k distinct cleaned titles are done and the next is not, the first undone task is one with that title |
| Scheduling.AdvanceAt | scripts/agent-scheduler/scheduler.py:494-523 | with the first k titles done, advancing gives out the next under the next sequence number, or ends |
| Scheduling.AdvanceIdle | scripts/agent-scheduler/scheduler.py:501-516 | advancing with all done and nothing active blocks unless the manifest is empty |
| Scheduling.RoundKeepsPlace | scripts/agent-scheduler/scheduler.py:567-647 | one round takes a run from k titles done to k, or to k + 1 if title k is settled (cleaning it once more changes nothing, and it is not empty), and a blocked agent nowhere |
| Scheduling.RunFollowsManifest | scripts/agent-scheduler/scheduler.py:567-647 | for every manifest and every run from a fresh queue, whatever builds, tests and merges do and with any restarts: the done tasks are the first k distinct titles in manifest order, the active task is the next one, and while titles are settled the sequence number counts the tasks given out and the end |
| Scheduling.EndedMeansAllDone | scripts/agent-scheduler/scheduler.py:511-516 | an agent that has ended has every title done |
| Scheduling.BlockedStaysPut | scripts/agent-scheduler/scheduler.py:578-580 | once blocked, task, done list and sequence never change again |
| Scheduling.EndedIsBlockedIff | scripts/agent-scheduler/scheduler.py:501-510 | an ended agent is blocked by a restart, and by one more merge, if and only if its manifest is not empty |
| Scheduling.FinishesIff | scripts/agent-scheduler/scheduler.py:211-224 | some rounds get every task of a manifest done if and only if each of its titles, once cleaned, is not empty and does not begin with a number sign |
| Scheduling.UnsettledIsNeverPassed | scripts/agent-scheduler/scheduler.py:616-625 | once a title that is not so is given out, it stays given out and undone whatever rounds follow |
| Scheduling.UnsettledTitles | scripts/agent-scheduler/scheduler.py:138-142 | a line "# #" is read as the title "#", which cleans to nothing and so is never done; "# # # fix" is read as "# # fix", which cannot be done either, "# # fix" as "# fix", which can |
| Scheduling.AgentState.TaskToWorkOn | scripts/agent-scheduler/scheduler.py:211-224 | the active task if unfinished, else the first undone one |
| Scheduling.AgentState.AdvanceAgent | scripts/agent-scheduler/scheduler.py:494-523 | the specified advance on the mutable state |
| Scheduling.AgentState.SetupQueue | scripts/agent-scheduler/scheduler.py:526-547 | the specified start of the queue |
| Scheduling.AgentState.ReconcileAgent | scripts/agent-scheduler/scheduler.py:567-647 | the specified round, for each outcome of build, tests and merge |
| Scheduling.AgentState.Block | scripts/agent-scheduler/scheduler.py:584-587 | a failure is recorded with reason, stage and head |

## Left out

- LoweringCorrect.FunctionSim: the meaning of functions of several blocks; lowering emits block numbers as jump targets where the interpreter takes instruction numbers, and LoweringBlocks says exactly which of their jumps get to their blocks; 16-bit counters are assumed not to overflow.
- LoweringTheorems.MainPreserved: floating-point operands, and the same restrictions as FunctionSim.
- Hir.WellFormed: operands are assumed to have smaller ids than the expressions that use them, so that an expression cannot contain itself.
- Lowerer.LowerModuleInPlace: says nothing once a function needs 65536 registers or more, where the counter wraps and a register collides with the unassigned mark.
- IrVm.Vm.RunMain: the call depth and the instructions per activation are bounded by parameters of the model; FuelMonotone shows they do not matter once a run finishes. Memory exhaustion of the arena is not modelled.
- Inference.ResolveTypes: weak arguments (literals), struct literals (non-strict mode), aliases, nominals, named structs, unions, enums and dyn types; one owning declaration for all parameters; at most eight qualifiers in a row.
- InferenceTheorems.InferenceInvertsCoercion: for ground substitutions and declared types of depth under 16, where the walk that looks for parameters gives up.
- InferenceTheorems.InferenceIsSound: for ground arguments and declared types of depth under 16, for the same reason.
- Instances.InstantiationPass.ConcretizeNestedInstances: calls are keyed by module and callee, not by the 32-bit hash of the module name, so collisions are not modelled; mangled names are in GenericNames; reified named types are left out with the named types.
- ArtifactBuilding.ArtifactBuilder.InternType: types are assumed to be interned after the types they are made of, with no invalid child; ids are not truncated to 32 bits.
- ArtifactBuilding.ArtifactBuilder.Build: declarations, templates, blocks, expressions other than references, globals and definition tables, which only add more interning; parameter names, for the same reason.
- CompactTypes.HeadReadsBackIff: the ownership of a pointer is not written to the artifact and is not part of what is read back.
- Manifests.Manifest.Load: takes lines already split into fields; escaping of fields, which is not invertible for paths with backslashes or separator characters, is not modelled.
- Manifests.Manifest.DependentsOf: hash sets and maps are mathematical sets and maps; their open addressing, and the reuse of erased slots in it, is not modelled.
- Stores.Store.Load: reading and checking the artifact file is a parameter; so are the outcomes of writing. Locks are left out, each method being one step.
- CanonicalRegistry.SaveLoadRoundTrip: lines may be written in any order, the source writing them in the order of the ids.
- TestOutputBuffer.Capture: one capture from a new buffer; using a buffer again after take is not modelled.
- GenericNames.RoundTripIff: for a base name without "<".
- Scheduling.RunFollowsManifest: state files are assumed to be read back as written; what task files contain, and how a manifest is split into agents and lines, is left out.
- Scheduling.BlockedStaysPut: for a manifest that is not empty and whose titles are not, as the manifest reader makes sure; a restart ends a blocked agent that has nothing to do.
- GenericTypes.Type: a generic parameter carries no entry number, although the source makes an entry each time one is interned; arguments that still mention parameters can be the same type here and different entries there.
- Weak-argument inference, LLVM emission, libclang, linking, command-line parsing, diagnostics, the lossless tokenizer of `scripts/zith-ascii.py` and the release, documentation and monitoring scripts: input and output, or only easy members.
