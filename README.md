# Seminal input features: the backward def-use walker

This project models the core of an LLVM function pass that looks for the
"seminal input features" of a function's loops: the storage locations whose
values feed the conditional branch in each loop header. The pass keeps an
analysis object, `SeminalInputFeaturesAnalysis`, with two fields that its
methods update in place:

- `exploredPoints`, the set of value names already handed to the walker;
- `variables`, a table from a location name to a `Variable` record holding
  that name and the most recent source line the walk saw it touched at.

`defUseAnalysis` walks a value's definitions backwards. It returns at once
when the value's name is already explored. Otherwise it records the name and
dispatches on the instruction kind:

- a store of an integer constant inserts or overwrites the entry of its location;
- a load refreshes the line of an entry that already exists;
- a binary operator recurses into each operand in order;
- a call to an intrinsic whose name contains `llvm.` inserts or overwrites the
  entry named by its first argument;
- anything else stops the walk.

`analyzeLoops` visits the loops the host's loop analysis iterates over,
which are the top-level loops of the function only. It scans every
instruction of each such loop's header. For each conditional branch it walks
every operand: the condition and both target blocks.

## How the model is built

- `ir.dfy` (module `Ir`): a function body is a `Program`, a sequence of
  `Value`s. Each value has a name (`""` when unnamed) and an optional defining
  `Instruction`. Instructions refer to their operands by position, so the
  def-use graph may share nodes and contain cycles. A store or load keeps only
  its pointer's name, and a call keeps only its argument names: the walker
  reads these names and never walks these operands. Basic blocks, constants
  and arguments are values without an instruction.
- `text.dfy` (module `Text`): the substring search used on callee names.
- `walk.dfy` (module `DefUse`): the walker as functions on an explicit
  `State(variables, explored)`.
  - `Walk` is one call of the walker.
  - `WalkAll` walks a list of values left to right.
  - The recursion terminates because of the name guard. The measure is the
    number of the program's names not yet explored.
- `walk_facts.dfy` (module `WalkFacts`): the per-kind behaviour of one step,
  and what every walk guarantees. `DispatchedIds` lists the values the walker
  dispatches on, in order. The table ends up holding exactly the names that a
  dispatched constant store or recorded intrinsic call targets.
- `driver.dfy` (module `Driver`): `LoopOperands` flattens the operands of the
  conditional branches found in the loop headers, in loop order and then in
  instruction order. Running the driver equals `WalkAll` over that list.
- `analysis.dfy` (module `SeminalInputFeatures`): the class with the two
  fields. `DefUseAnalysis` is a recursive method whose `decreases` clause is
  the number of unexplored names. The driver loops are methods with `while`
  loops. Every method is proved to leave the object in the state the
  functions above compute. `Analyze` runs a fresh object over one function
  and hands back its table, so that the table can be stated about.
- `scenarios.dfy` (module `Scenarios`): small functions analysed end to end.

The nested loops of `analyzeLoops` are three methods, one per loop level:
`AnalyzeLoops`, `AnalyzeHeader` and `WalkBranchOperands`. Each inner method is
the body of the loop around it.

In these points the model follows the code:

- The visited set is keyed by value name, not by value identity. Every
  unnamed value has the name `""`, so after the first unnamed value all later
  ones are skipped (`UnnamedLoadIsSkipped`).
- The driver does not only look at a header's terminator. It examines every
  instruction of the header.
- The driver walks every operand of the branch, the target blocks included,
  and not only the condition. The block names share the visited set.
- The code tests both `isIntrinsic()` and a substring match on `llvm.`, not a
  prefix match. The model keeps both tests.

Two latent crashes in the code are modelled as explicit no-op guards:

- An indirect call has no callee (`callee == None`), and the code would
  dereference a null function there. The model skips the call.
- An intrinsic call without arguments names no variable, and the code would
  read argument 0 anyway. The model skips the call.

The `Ir` datatype does not enforce the host's typing rules, so it can build
graphs that real IR cannot. Two facts about well-typed IR matter here:

- A store produces no value, so no instruction takes a store as an operand
  (`NoStoreOperands`). Then the driver never reaches a store, and the
  constant-store arm of the walker is dead code (`StoreArmUnreachable`). Every
  entry of the table comes from a recorded intrinsic call, and a function
  without calls ends with an empty table (`NoCallsNoFeatures`,
  `StoredVariableIsNotRecorded`).
- The host classifies a function as an intrinsic exactly when its name starts
  with `llvm.` (`IntrinsicNamed`). Then the substring test after the
  intrinsic test always succeeds (`MarkerTestIsRedundant`).

The scenarios are all built on well-typed IR.

## Model

| member | source | states |
|---|---|---|
| Text.ContainsIff | part2/first_def_use_analysis.cpp:104 | the callee-name test succeeds exactly when `llvm.` occurs at some position of the name (substring, not prefix) |
| DefUse.UnexploredShrinks | part2/first_def_use_analysis.cpp:58-62 | recording a new name of the program strictly lowers the number of unexplored names, the measure that makes the recursion terminate |
| DefUse.Walk | part2/first_def_use_analysis.cpp:54-114 | after a walk the value's name is explored, the explored set only grows, and no table key is removed |
| DefUse.WalkAll | part2/first_def_use_analysis.cpp:91-95 | walking operands in order explores every operand's name, only grows the explored set and removes no table key |
| WalkFacts.WalkExploredIsNoop | part2/first_def_use_analysis.cpp:58-61 | a value whose name is already explored leaves both the table and the explored set unchanged |
| WalkFacts.WalkStore | part2/first_def_use_analysis.cpp:67-77 | a constant store sets its location's entry to (location, store line), overwriting; a non-constant store changes no entry; other entries agree |
| WalkFacts.WalkLoad | part2/first_def_use_analysis.cpp:79-87 | a load keeps the key set; if its location has an entry only that entry's line changes, to the load's line |
| WalkFacts.WalkBinaryOp | part2/first_def_use_analysis.cpp:89-96 | a binary operator's walk equals walking its operands in order from the state with its own name explored |
| WalkFacts.WalkCall | part2/first_def_use_analysis.cpp:98-112 | a call sets the entry named by argument 0 to the call's line exactly when the callee is resolved, intrinsic and contains `llvm.`, and changes no entry otherwise |
| WalkFacts.WalkDeadEnd | part2/first_def_use_analysis.cpp:62-64 | a non-instruction, a branch or any other kind only adds its name to the explored set |
| WalkFacts.WalkKeepsConsistent | part2/first_def_use_analysis.cpp:74-75 | every entry stays keyed by the name it records, through a walk |
| WalkFacts.WalkAllKeepsConsistent | part2/first_def_use_analysis.cpp:91-95 | the same, through a walk of several operands |
| WalkFacts.WalkCreatesOnlyFromCreators | part2/first_def_use_analysis.cpp:67-112 | a key is only ever inserted for the location of a constant store, or the first argument of a recorded intrinsic call, that this walk dispatched; a load never inserts one |
| WalkFacts.WalkAllCreatesOnlyFromCreators | part2/first_def_use_analysis.cpp:91-95 | the same, through a walk of several operands |
| WalkFacts.WalkRecordsCreators | part2/first_def_use_analysis.cpp:67-112 | every constant store or recorded intrinsic call the walk dispatches, however deep under binary operators, leaves its name in the table |
| WalkFacts.WalkAllRecordsCreators | part2/first_def_use_analysis.cpp:91-95 | the same, through a walk of several operands |
| WalkFacts.WalkLeavesUntouched | part2/first_def_use_analysis.cpp:67-112 | the entry of a name that no store, load or recorded call targets is left exactly as it was |
| WalkFacts.WalkAllLeavesUntouched | part2/first_def_use_analysis.cpp:91-95 | the same, through a walk of several operands |
| WalkFacts.WalkDispatchesOnce | part2/first_def_use_analysis.cpp:58-62 | the names of the values a walk dispatches are pairwise distinct and are exactly the names it adds to the explored set: no name is dispatched twice |
| WalkFacts.WalkAllDispatchesOnce | part2/first_def_use_analysis.cpp:91-95 | the same for a walk of several operands, including ones that share definitions or form cycles |
| WalkFacts.WalkDispatchesNoStore | part2/first_def_use_analysis.cpp:67-96 | when no instruction takes a store as an operand, a walk that does not start at a store dispatches no store |
| WalkFacts.WalkAllDispatchesNoStore | part2/first_def_use_analysis.cpp:91-95 | the same, through a walk of several operands none of which is a store |
| WalkFacts.MarkerTestIsRedundant | part2/first_def_use_analysis.cpp:100-105 | when intrinsics are exactly the functions named with the `llvm.` prefix, a call is recorded exactly when its callee is a resolved intrinsic and it has an argument |
| WalkFacts.WalkAllExploredIsNoop | part2/first_def_use_analysis.cpp:58-61 | walking values whose names are all explored changes nothing |
| WalkFacts.WalkAllIdempotent | part2/first_def_use_analysis.cpp:58-62 | walking the same operands a second time leaves the state unchanged |
| WalkFacts.WalkAllConcat | part2/first_def_use_analysis.cpp:44-47 | walking one operand list and then another equals walking their concatenation |
| Driver.HeaderOperandsMembers | part2/first_def_use_analysis.cpp:38-49 | the operands walked for a header are exactly the operands of its conditional branches |
| Driver.LoopOperandsMembers | part2/first_def_use_analysis.cpp:35-51 | the operands walked for all loops are exactly the operands of the conditional branches found in the loop headers |
| Driver.AnalysisExploresBranchOperands | part2/first_def_use_analysis.cpp:35-47 | after the driver every operand of every conditional branch of every loop header has its name explored |
| Driver.HeaderOperandsEmpty | part2/first_def_use_analysis.cpp:40-42 | a header without conditional branches contributes no operand |
| Driver.AnalysisSkipsOtherInstructions | part2/first_def_use_analysis.cpp:40-42 | loops whose headers hold no conditional branch leave the state unchanged |
| Driver.SeminalFeatures | part2/first_def_use_analysis.cpp:119-124 | a name is in the table of a fresh analysis exactly when a constant store or recorded intrinsic call that the driver's walk reached targets it; every entry is keyed by its own name |
| Driver.StoreArmUnreachable | part2/first_def_use_analysis.cpp:35-77 | when no instruction takes a store as an operand, the driver reaches no store, and every entry of the table comes from a reached intrinsic call |
| Driver.NoCallsNoFeatures | part2/first_def_use_analysis.cpp:67-112 | in such a function without calls the table ends empty, whatever constant stores it holds |
| SeminalInputFeatures.SeminalInputFeaturesAnalysis.constructor | part2/first_def_use_analysis.cpp:24-25 | a new analysis object starts with an empty table and an empty explored set |
| SeminalInputFeatures.SeminalInputFeaturesAnalysis.Run | part2/first_def_use_analysis.cpp:27-31 | running the analysis leaves the fields as the walk over all loop-branch operands computes |
| SeminalInputFeatures.SeminalInputFeaturesAnalysis.AnalyzeLoops | part2/first_def_use_analysis.cpp:33-52 | the loop over loops leaves the fields as `WalkAll` over the branch operands of all headers, in loop order |
| SeminalInputFeatures.SeminalInputFeaturesAnalysis.AnalyzeHeader | part2/first_def_use_analysis.cpp:38-49 | the loop over a header's instructions leaves the fields as `WalkAll` over the operands of its conditional branches, in instruction order |
| SeminalInputFeatures.SeminalInputFeaturesAnalysis.WalkBranchOperands | part2/first_def_use_analysis.cpp:44-47 | the loop over a branch's operands leaves the fields as `WalkAll` over those operands |
| SeminalInputFeatures.SeminalInputFeaturesAnalysis.DefUseAnalysis | part2/first_def_use_analysis.cpp:54-114 | the in-place walk leaves the fields exactly as `Walk` computes from their old values, and terminates on any def-use graph |
| SeminalInputFeatures.Analyze | part2/first_def_use_analysis.cpp:119-124 | a fresh analysis object per function yields the table `SeminalFeatures` describes |
| Scenarios.LoadRefreshesRecordedLine | part2/first_def_use_analysis.cpp:79-110 | a condition `and` of a call to `llvm.is.constant.p0` on `buf` at line 12 and a named load from `buf` at line 14 ends as `{"buf": line 14}` |
| Scenarios.UnnamedLoadIsSkipped | part2/first_def_use_analysis.cpp:58-62 | when the call and the load are both unnamed, the name `""` is already explored at the load and `buf` keeps line 12 |
| Scenarios.IntrinsicCallRecordsFirstArgument | part2/first_def_use_analysis.cpp:98-110 | a condition that is a call to `llvm.is.constant.p0` at line 12 whose first argument is `buf` ends as `{"buf": line 12}` |
| Scenarios.IndirectCallIsSkipped | part2/first_def_use_analysis.cpp:98-101 | the same call without a resolved callee records nothing |
| Scenarios.LoadOnlyVariableIsNotRecorded | part2/first_def_use_analysis.cpp:79-87 | a location that is only ever loaded never enters the table |
| Scenarios.StoredVariableIsNotRecorded | part2/first_def_use_analysis.cpp:67-87 | `i` stored the constant 0 and loaded into the condition ends absent: the store is not an operand of anything, so it is never reached |

## Left out

- Pass registration (`llvmGetPassPluginInfo`) and `Part2Pass::run` with its loop-analysis lookup are host-compiler plumbing. The only thing kept is that each function gets a fresh analysis object (`Analyze`).
- Natural-loop discovery is left to the host compiler. Loops are given as a sequence of header instruction lists.
- `analyzeLoops` iterates over the top-level loops only, so the headers of nested loops are never visited. The model is faithful when `loops` lists the headers of the top-level loops only. The loop nesting itself is not modelled.
- `Part2Pass::run` drops the analysis object without reading its table. `Analyze` returns the table so that its contents can be stated; the pass itself has no result beyond preserving all analyses.
- The `Ir` datatype does not enforce typing: it admits a store or a void call as an operand. On well-typed IR the store arm is unreachable from the driver (`StoreArmUnreachable`). A void intrinsic such as `llvm.memset` cannot be an operand either, but the model does not record which calls return void.
- `Callee` keeps `isIntrinsic` and the name as independent fields, so they may disagree. `IntrinsicNamed` states how the host relates them, and `MarkerTestIsRedundant` holds under it.
- Debug-location lookup is left out. Each instruction carries its line as a plain `int`, which may be 0 when debug information is missing. The conversion of the host's unsigned line number to a C++ `int` is not modelled.
- The casting hierarchy is replaced by the closed `Instruction` datatype. The unused `Function &F` parameter is dropped.
- The pointer operand of a store or load, and the arguments of a call, are kept as names only, because the walker never walks them.
- The table update `variables[name] = var` needs a default-constructible `Variable`, which the record does not provide, so the code as written would not compile. The model gives the statement its evident insert-or-overwrite meaning.
- The null-callee dereference and the unchecked read of argument 0 are modelled as no-op guards, not as crashes.
- The walk is modelled as recursion, as in the code. An iterative worklist form is not modelled.
