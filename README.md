# Optimizer and variable renamer of the COSC 57 compiler, in Dafny

This project models the middle and front of a small C-subset compiler in Dafny. Four parts are covered:

- **Global constant propagation by reaching stores** (`GlobalOptimizations`, global.dfy).
  - Predecessor lists are built from block terminators.
  - Per block, GEN and KILL sets of store instructions are computed, and IN and OUT are solved by chaotic iteration.
  - Each block is rescanned with a running set of reaching stores. A load is replaced by a constant when every store to its address that reaches it writes the same integer constant.
- **The local passes** (`LocalOptimizations`, local.dfy).
  - Constant folding of `add`, `sub` and `mul` with two constant operands, wrapping at the operands' bit width.
  - Iterative dead-code elimination, guarded by a side-effect predicate.
- **The per-function driver** (`Orchestrator`, driver.dfy). It runs propagation, folding and dead-code elimination until a round reports no change. It then runs common-subexpression elimination and one more dead-code elimination.
- **The variable-renaming preprocessor** (`Preprocessor`, rename.dfy). It gives every declared variable and parameter a fresh name `original$N` and rewrites every use to the innermost binding in scope.

## How the IR is represented

The IR (`IR`, ir.dfy) is an arena of instructions identified by index.

- A function body is a sequence of basic blocks. Each block is a sequence of arena indices in program order.
- An operand is one of:
  - a reference to another instruction;
  - an integer constant, given by its sign-extended value and its bit width;
  - a named value, meaning an argument or a global.
- "Replace all uses of X" substitutes the operand `Ref(X)` throughout the arena.
- Erasing an instruction removes its index from the block that holds it.
- Opcodes name what the passes tell apart: `store`, `load`, `add`, `sub`, `mul`, `call`, `alloca`, `br` and `ret`. `OtherTerminator` covers the remaining block terminators (switch, indirect branch, invoke, unreachable), with their successor blocks. `Other` covers every remaining instruction. All three kinds of terminator count as terminators, both for the successor lists and for the side-effect test of dead-code elimination.

## How the passes are specified

`IR.Function` is a class whose `instrs` and `blocks` fields the passes update in place.

Each pass is a method that loops as the source does. Its contract ties the new state to a ghost specification function of the old state:

- `FoldScan` for folding;
- `DceFix` for dead-code elimination;
- `RewriteFrom` and `PropagateFrom` for propagation;
- `RenamedNode` and its companions for the renamer.

The driver is specified the same way:

- `RoundResult` is one round: propagation from the least solution (`LeastIns`), then folding (`Folded`), then `DceFix`.
- `Settle` repeats rounds until one reports no change.
- `Round`, `OptimizeFunction` and `RunOptimizations` are proved to compute exactly these functions, up to the common-subexpression pass, whose source is not modelled.

What the source promises is then proved as lemmas about those functions:

- the data-flow equations and the least solution;
- what GEN and KILL hold;
- the conditions under which a load is replaced;
- the dead-code fixpoint and its idempotence;
- that the driver's fixpoint ends at a body where no pass finds work, and is idempotent;
- balanced scopes and pairwise distinct fresh names.

### Where the code differs from its description

Each of these is modelled as the code does it:

- Dead-code elimination does not treat a `load` as side-effecting. An unused load is removed (`DceRemovesUnusedLoad`).
- KILL of a block holds the block's own stores when it stores twice to the same pointer. Only the store itself is excluded (`KillHoldsOwnStores`).
- Folding redirects uses at once and erases later, so folds cascade within one pass (`FoldCascade`).

## Model

| member | source | states |
|---|---|---|
| `IR.ReplaceAllUses` | optimizations/localOptimizations.cpp:60 | every operand referring to the instruction becomes the constant; opcode, width, targets and all other operands are kept; valid instructions stay valid |
| `IR.ReplaceAllUsesRemoves` | optimizations/globalOptimizations.cpp:287 | after redirecting to a non-reference operand, no instruction uses the replaced one, and no instruction gains a use |
| `IR.Without` | optimizations/localOptimizations.cpp:67-69 | a block keeps exactly its ids that were not erased; it gets strictly shorter when one of them was |
| `IR.Erase` | optimizations/localOptimizations.cpp:67-69 | erasing a list of instructions filters every block and keeps the number of blocks |
| `IR.WithoutWithout` | optimizations/localOptimizations.cpp:67-69 | erasing the instructions one after another equals erasing the whole list at once |
| `IR.FlattenErase` | optimizations/localOptimizations.cpp:67-69 | the instructions left in the function, in order, are the old ones minus the erased ones |
| `IR.EraseCount` | optimizations/localOptimizations.cpp:104-106 | erasing never adds an instruction, and removes at least one when a live instruction is in the list |
| `IR.EraseInRange` | optimizations/localOptimizations.cpp:104-106 | after erasing, every block still names only instructions of the arena |
| `IR.Wrap` | optimizations/localOptimizations.cpp:54-57 | a value taken to a width lies in the signed range of that width and is congruent to the exact value modulo 2^width |
| `IR.EraseAll` | optimizations/localOptimizations.cpp:66-69 | the erase loop leaves the arena alone and filters every block by the collected list; an empty list changes nothing |
| `LocalOptimizations.FoldedValue` | optimizations/localOptimizations.cpp:54-57 | the folded constant has the operands' width, lies in its signed range, and equals the exact sum, difference or product modulo 2^width |
| `LocalOptimizations.FoldScanShape` | optimizations/localOptimizations.cpp:45-52 | folding changes no opcode, and only add/sub/mul instructions of the scanned blocks are folded |
| `LocalOptimizations.FoldScanStep` | optimizations/localOptimizations.cpp:45-62 | a foldable instruction has its uses redirected to its folded value at once and is recorded; any other instruction changes nothing |
| `LocalOptimizations.FoldScanNoChange` | optimizations/localOptimizations.cpp:46-52 | a scan folds nothing exactly when no scanned instruction has two constant add/sub/mul operands, and then the arena is unchanged |
| `LocalOptimizations.FoldScanUses` | optimizations/localOptimizations.cpp:59-61 | after the scan no instruction uses a folded one, and no instruction gains a use |
| `LocalOptimizations.FoldCascade` | optimizations/localOptimizations.cpp:41-43 | `t0 = 2+3; t1 = t0+4; ret t1` folds both additions in one pass and returns the constant 9 |
| `LocalOptimizations.FoldBlock` | optimizations/localOptimizations.cpp:41-63 | the instruction loop of one block updates the arena and the folded list exactly as the folding scan over that block does |
| `LocalOptimizations.FoldFunction` | optimizations/localOptimizations.cpp:37-64 | the loop over all blocks yields the scan's arena and folded list and keeps the blocks |
| `LocalOptimizations.FoldedFacts` | optimizations/localOptimizations.cpp:32-72 | folding keeps the function well formed and its block count, removes an instruction iff it folds one, and is otherwise the identity |
| `LocalOptimizations.ConstantFolding` | optimizations/localOptimizations.cpp:32-72 | the arena is the scan's result, the folded instructions are erased, the result is true iff something was folded, and a change removes at least one instruction |
| `LocalOptimizations.DeadInMembers` | optimizations/localOptimizations.cpp:89-97 | a scan collects exactly the scanned instructions that have no use and no side effect |
| `LocalOptimizations.DceFix` | optimizations/localOptimizations.cpp:81-109 | repeated scan and erase keeps the arena and the block count and only removes instructions |
| `LocalOptimizations.DceFixFacts` | optimizations/localOptimizations.cpp:81-109 | dead-code elimination keeps the function well formed, removes an instruction iff the first scan finds one, and is otherwise the identity |
| `LocalOptimizations.DceFixNoDead` | optimizations/localOptimizations.cpp:100-101 | when the loop stops, a scan finds nothing, and every remaining instruction without a side effect has a use |
| `LocalOptimizations.DceFixIdempotent` | optimizations/localOptimizations.cpp:81-111 | running dead-code elimination on its own result changes nothing |
| `LocalOptimizations.DceFixKeepsSideEffects` | optimizations/localOptimizations.cpp:93-96 | stores, calls, allocas and terminators are never removed |
| `LocalOptimizations.DceRemovesUnusedLoad` | optimizations/localOptimizations.cpp:17-26 | a load nothing uses is removed, because a load is not a side effect |
| `LocalOptimizations.CollectDead` | optimizations/localOptimizations.cpp:85-98 | the scan loop collects the instructions with no use and no side effect, in block order |
| `LocalOptimizations.DeadCodeElimination` | optimizations/localOptimizations.cpp:78-112 | the new function is the fixpoint of scan and erase, and the result is true iff the first scan found something, in which case an instruction was removed |
| `LocalOptimizations.RunLocalOptimizations` | optimizations/localOptimizations.cpp:117-124 | folding and then dead-code elimination both run; the result is true iff either changed something |
| `GlobalOptimizations.RemoveStoresToPointer` | optimizations/globalOptimizations.cpp:44-50 | no store to the pointer is left, every other element is kept, and nothing is added |
| `GlobalOptimizations.SetUnion` | optimizations/globalOptimizations.cpp:52-57 | the result contains both sets and nothing else |
| `GlobalOptimizations.SetDifference` | optimizations/globalOptimizations.cpp:59-66 | the result holds exactly the elements of the first set that are not in the second |
| `GlobalOptimizations.SetsEqual` | optimizations/globalOptimizations.cpp:68-77 | true exactly when the two sets are equal |
| `GlobalOptimizations.CollectStores` | optimizations/globalOptimizations.cpp:216-224 | the collected set holds exactly the store instructions of the function's blocks |
| `GlobalOptimizations.AddEdges` | optimizations/globalOptimizations.cpp:95-99 | the block is appended to a target's list once per successor slot naming that target; other lists and existing entries are kept |
| `GlobalOptimizations.EmptyEntries` | optimizations/globalOptimizations.cpp:87-89 | every block gets an entry and every list is empty |
| `GlobalOptimizations.BuildPredecessors` | optimizations/globalOptimizations.cpp:82-103 | every block has an entry; each list holds the predecessors in block order, one per successor slot; a block without a terminator adds no edge |
| `GlobalOptimizations.PredListMembers` | optimizations/globalOptimizations.cpp:91-100 | a block is listed as a predecessor of `s` iff its terminator names `s`, and it is listed once for each slot that does |
| `GlobalOptimizations.ScanMembers` | optimizations/globalOptimizations.cpp:242-247 | after scanning instructions from a reaching set, a store is in the set iff it was there and no later store wrote its pointer, or it is the last store to its pointer in the scan |
| `GlobalOptimizations.GenIsLastStores` | optimizations/globalOptimizations.cpp:116-131 | GEN holds exactly the stores that are the last store to their pointer in the block |
| `GlobalOptimizations.GenOnePerPointer` | optimizations/globalOptimizations.cpp:123-127 | GEN holds at most one store per pointer |
| `GlobalOptimizations.GenCoversPointer` | optimizations/globalOptimizations.cpp:123-127 | every pointer the block stores to has a store in GEN |
| `GlobalOptimizations.KillHoldsOwnStores` | optimizations/globalOptimizations.cpp:143-147 | two different stores of a block to the same pointer are both in the block's KILL |
| `GlobalOptimizations.ScanIsTransfer` | optimizations/globalOptimizations.cpp:186-188 | scanning a block from a set of stores yields GEN plus what of the set KILL does not hold |
| `GlobalOptimizations.GenOfBlock` | optimizations/globalOptimizations.cpp:116-131 | the GEN loop computes the block's last stores per pointer |
| `GlobalOptimizations.KillOfBlock` | optimizations/globalOptimizations.cpp:134-151 | the KILL loop computes the stores of the function that write a pointer some other store of the block writes |
| `GlobalOptimizations.KillersOf` | optimizations/globalOptimizations.cpp:144-147 | the inner KILL loop collects exactly the other stores to the same pointer |
| `GlobalOptimizations.ComputeGenKill` | optimizations/globalOptimizations.cpp:108-152 | GEN and KILL of every block, as defined |
| `GlobalOptimizations.UnionOutsMembers` | optimizations/globalOptimizations.cpp:178-184 | a store is in the union iff it is in OUT of some predecessor |
| `GlobalOptimizations.UnionOutsMono` | optimizations/globalOptimizations.cpp:178-184 | the union over predecessors grows when OUT grows |
| `GlobalOptimizations.UnionOfOuts` | optimizations/globalOptimizations.cpp:176-184 | the union loop computes the union of the predecessors' OUT |
| `GlobalOptimizations.DeficitGrow` | optimizations/globalOptimizations.cpp:190-194 | growing one block's set within the stores lowers the termination measure, strictly when the set really grows |
| `GlobalOptimizations.IterationStart` | optimizations/globalOptimizations.cpp:165-169 | IN = {} and OUT = GEN satisfy the invariant of the iteration and lie below every solution of the equations |
| `GlobalOptimizations.InOutStepEquations` | optimizations/globalOptimizations.cpp:186-194 | updating one block keeps OUT = GEN ∪ (IN − KILL), keeps everything within the stores, and only grows IN and OUT |
| `GlobalOptimizations.InOutStepLeast` | optimizations/globalOptimizations.cpp:186-194 | updating one block keeps IN and OUT below every solution |
| `GlobalOptimizations.UpdateBlock` | optimizations/globalOptimizations.cpp:176-194 | a block is rewritten exactly when its recomputed IN or OUT differs; a rewrite lowers the measure and an unchanged block already satisfies its IN equation |
| `GlobalOptimizations.Sweep` | optimizations/globalOptimizations.cpp:173-195 | a sweep that changes something lowers the measure; one that changes nothing leaves every block's IN equal to the union of its predecessors' OUT |
| `GlobalOptimizations.ComputeInOut` | optimizations/globalOptimizations.cpp:157-199 | the loop stops, and at the exit every block satisfies IN = ∪ OUT[pred] and OUT = GEN ∪ (IN − KILL); the result is the least such solution, within the generated stores |
| `GlobalOptimizations.EntryInIsEmpty` | optimizations/globalOptimizations.cpp:178-184 | in any solution, a block without predecessors has an empty IN |
| `GlobalOptimizations.LeastSolutionUnique` | optimizations/globalOptimizations.cpp:172-198 | the least solution is unique, so the propagation that follows is determined |
| `GlobalOptimizations.LeastFixpointExists` | optimizations/globalOptimizations.cpp:157-199 | the equations over any predecessor map, GEN and KILL have a least solution, within the generated stores |
| `GlobalOptimizations.LeastSolutionExists` | optimizations/globalOptimizations.cpp:205-231 | every well-formed function has a least solution of its equations, in which only the function's stores reach a block |
| `GlobalOptimizations.LeastIns` | optimizations/globalOptimizations.cpp:226-231 | IN of the least solution of a function's equations |
| `GlobalOptimizations.LeastInsAreStores` | optimizations/globalOptimizations.cpp:226-231 | in the least solution only stores of the function reach a block |
| `GlobalOptimizations.BlockEndIsOut` | optimizations/globalOptimizations.cpp:238-247 | in the least solution, stepping through a block with distinct instructions from its IN, as the rescan does, ends at its OUT |
| `GlobalOptimizations.SolutionsAgree` | optimizations/globalOptimizations.cpp:226-231 | the equations over the computed predecessors, GEN and KILL are exactly the equations of the function body |
| `GlobalOptimizations.ConstantReachesUnique` | optimizations/globalOptimizations.cpp:261-281 | at most one constant can reach a load |
| `GlobalOptimizations.ReachingConstantIff` | optimizations/globalOptimizations.cpp:253-281 | a constant `v` reaches the load iff some reaching store writes its pointer and every such store writes the integer constant `v` |
| `GlobalOptimizations.ConflictingStoresBlock` | optimizations/globalOptimizations.cpp:273-277 | two reaching stores of different constants to the pointer block the replacement |
| `GlobalOptimizations.UnknownStoreBlocks` | optimizations/globalOptimizations.cpp:268-271 | a reaching store of a non-constant to the pointer blocks the replacement |
| `GlobalOptimizations.ReachingStores` | optimizations/globalOptimizations.cpp:253-257 | the collected list holds exactly the reaching stores to the load's pointer |
| `GlobalOptimizations.AgreeOnConstant` | optimizations/globalOptimizations.cpp:261-281 | `ok` means all listed stores write the constant `val`; not `ok` means they agree on no constant |
| `GlobalOptimizations.ReachingBySeq` | optimizations/globalOptimizations.cpp:253-281 | the list-based check of the code decides exactly whether a constant reaches the load |
| `GlobalOptimizations.NoReachingConstant` | optimizations/globalOptimizations.cpp:259 | no reaching store, or no agreement, means the load is left alone |
| `GlobalOptimizations.ReplaceLoad` | optimizations/globalOptimizations.cpp:284-287 | every operand that used the load becomes the constant truncated to the load's width and read back signed; every other operand and all else is kept; afterwards nothing uses the load |
| `GlobalOptimizations.RewriteFromKeepsConstants` | optimizations/globalOptimizations.cpp:238-290 | the rescan of a block never changes an operand that is not a reference |
| `GlobalOptimizations.RewriteFromHead` | optimizations/globalOptimizations.cpp:249-289 | the instruction the rescan reaches is recorded as replaced exactly when it is a load whose reaching stores agree on a constant, and then every use of it holds that constant at the load's width |
| `GlobalOptimizations.RewriteFromFacts` | optimizations/globalOptimizations.cpp:238-290 | the rescan only changes operands, only replaces loads of the block, leaves no use of a replaced load, adds no use, and changes nothing when it replaces nothing |
| `GlobalOptimizations.PropagateBlock` | optimizations/globalOptimizations.cpp:235-290 | the instruction loop of one block, from R = IN, yields the rescan's arena and replaced loads and keeps the blocks |
| `GlobalOptimizations.EraseFromBlock` | optimizations/globalOptimizations.cpp:292-295 | the replaced loads are erased from their block after its scan; nothing else changes |
| `GlobalOptimizations.BlockStepFacts` | optimizations/globalOptimizations.cpp:234-296 | one block's rescan and erase keeps the function well formed and removes an instruction when it replaces one |
| `GlobalOptimizations.PropagateFromFacts` | optimizations/globalOptimizations.cpp:233-296 | the walk over all blocks keeps the function well formed, only replaces loads, removes an instruction iff it replaces one, and leaves no use of a replaced load |
| `GlobalOptimizations.PropagateBlocks` | optimizations/globalOptimizations.cpp:233-296 | the block loop yields exactly the walk's arena and blocks; `changed` iff a load was replaced |
| `GlobalOptimizations.ConstantPropagation` | optimizations/globalOptimizations.cpp:205-299 | IN and OUT are the least solution for the function, the function becomes the walk's result, true iff a load was replaced, and a change removes an instruction |
| `Orchestrator.CommonSubexpressionElimination` | optimizations/runOptimizations.cpp:61 | keeps the blocks and each instruction's opcode, width, targets and arity |
| `Orchestrator.RoundFacts` | optimizations/runOptimizations.cpp:51-57 | a round keeps the function well formed and never grows it; a reported change removed an instruction; no reported change means the round was the identity on a body where no pass finds work |
| `Orchestrator.Round` | optimizations/runOptimizations.cpp:51-57 | the function becomes propagation, then folding, then dead-code elimination of the old one, and the result is true iff any of the three passes reported a change |
| `Orchestrator.Settle` | optimizations/runOptimizations.cpp:50-58 | repeating rounds until one reports no change ends at a well-formed body on which no pass finds work, no larger than the start |
| `Orchestrator.SettledStops` | optimizations/runOptimizations.cpp:50-58 | on a body where no pass finds work, a round reports no change, so the loop stops at once |
| `Orchestrator.SettleIdempotent` | optimizations/runOptimizations.cpp:50-58 | running the fixpoint again on its result changes nothing |
| `Orchestrator.OptimizeFunction` | optimizations/runOptimizations.cpp:47-62 | a function without blocks is left alone; otherwise the loop stops exactly at `Settle` of the input, and the result is dead-code elimination of what CSE made of that body |
| `Orchestrator.OptimizedHasNoDeadCode` | optimizations/runOptimizations.cpp:61-62 | an optimized function has no dead instruction left |
| `Orchestrator.RunOptimizations` | optimizations/runOptimizations.cpp:43-63 | every function of the module ends as dead-code elimination of a CSE rewrite of its settled body, or untouched when it has no blocks |
| `Preprocessor.Decimal` | llvm_builder/preprocessor.cpp:54 | the numeral is non-empty and made of digits only |
| `Preprocessor.DecimalRoundTrip` | llvm_builder/preprocessor.cpp:54 | the numeral reads back as the number |
| `Preprocessor.DecimalInjective` | llvm_builder/preprocessor.cpp:54 | different numbers get different numerals |
| `Preprocessor.FreshNameSuffix` | llvm_builder/preprocessor.cpp:52-55 | the text after the last `$` of a fresh name is the counter's numeral and reads back as the counter |
| `Preprocessor.FreshNameCounter` | llvm_builder/preprocessor.cpp:52-55 | equal fresh names come from equal counter values, whatever the original names |
| `Preprocessor.FreshAt` | llvm_builder/preprocessor.cpp:52-55 | the i-th declaration of a run gets its original name with the counter as it stands at that declaration |
| `Preprocessor.FreshDistinct` | llvm_builder/preprocessor.cpp:52-55 | the names of a run of declarations are pairwise distinct |
| `Preprocessor.LookupInnermost` | llvm_builder/preprocessor.cpp:74-79 | lookup returns the binding of the innermost scope that holds the name |
| `Preprocessor.LookupUnbound` | llvm_builder/preprocessor.cpp:82 | lookup of a name that no scope holds returns the empty string |
| `Preprocessor.NodeNames` | llvm_builder/preprocessor.cpp:166-238 | renaming a subtree consumes one counter value per declaration and parameter, and gives them the fresh names in walk order |
| `Preprocessor.FunctionNames` | llvm_builder/preprocessor.cpp:175-191 | a variable parameter and the body's declarations get the next fresh names in order |
| `Preprocessor.StatementNames` | llvm_builder/preprocessor.cpp:108-163 | a statement's declarations get the next fresh names in order |
| `Preprocessor.StmtListNames` | llvm_builder/preprocessor.cpp:89-105 | the declarations of a block's statements get the next fresh names in order |
| `Preprocessor.ListNames` | llvm_builder/preprocessor.cpp:97-99 | a list of statements renamed in order consumes the counter in order |
| `Preprocessor.NodeShape` | llvm_builder/preprocessor.cpp:166-238 | renaming changes only variable and declaration names: the tree's shape, constants and other nodes stay as they were |
| `Preprocessor.FunctionShape` | llvm_builder/preprocessor.cpp:175-191 | renaming a function changes only names |
| `Preprocessor.StatementShape` | llvm_builder/preprocessor.cpp:108-163 | renaming a statement changes only names |
| `Preprocessor.StmtListShape` | llvm_builder/preprocessor.cpp:89-105 | renaming a block's statements changes only names |
| `Preprocessor.ListShape` | llvm_builder/preprocessor.cpp:97-99 | renaming a list of statements changes only names |
| `Preprocessor.NodeScopes` | llvm_builder/preprocessor.cpp:166-238 | from a non-empty stack, renaming a subtree keeps the depth and every scope but the innermost; a function leaves the stack exactly as it was |
| `Preprocessor.FunctionScopes` | llvm_builder/preprocessor.cpp:176-190 | a function pushes one scope for its parameter and top-level statements and pops it, restoring the stack |
| `Preprocessor.StatementScopes` | llvm_builder/preprocessor.cpp:153-158 | a statement keeps the stack balanced, and a block statement restores it exactly |
| `Preprocessor.StmtListScopes` | llvm_builder/preprocessor.cpp:89-105 | renaming a block's statements in the current scope keeps the stack balanced |
| `Preprocessor.ListScopes` | llvm_builder/preprocessor.cpp:97-99 | a list of statements keeps the stack balanced |
| `Preprocessor.RenamedProgramUnique` | llvm_builder/preprocessor.h:12-18 | the renamed program has the original's shape, and its declarations and parameters carry pairwise distinct fresh names numbered from 0 |
| `Preprocessor.Renamer.EnterScope` | llvm_builder/preprocessor.cpp:40-42 | pushes an empty scope and keeps the counter |
| `Preprocessor.Renamer.ExitScope` | llvm_builder/preprocessor.cpp:45-49 | pops the innermost scope; an empty stack stays empty |
| `Preprocessor.Renamer.MakeUniqueName` | llvm_builder/preprocessor.cpp:52-55 | returns `original$N` for the current counter `N` and moves the counter on by one |
| `Preprocessor.Renamer.DeclareUnique` | llvm_builder/preprocessor.cpp:58-68 | pushes a scope when the stack is empty, binds the name to a fresh name in the innermost scope only, and lookups of the name then find it |
| `Preprocessor.Renamer.ResolveUnique` | llvm_builder/preprocessor.cpp:71-83 | the backward loop over the stack returns the innermost binding, or the empty string |
| `Preprocessor.Renamer.RenameNode` | llvm_builder/preprocessor.cpp:166-238 | the recursive walk yields the renamed subtree and leaves the stack and counter as the renaming function says |
| `Preprocessor.Renamer.RenameFunction` | llvm_builder/preprocessor.cpp:175-191 | as the renaming function of a function node |
| `Preprocessor.Renamer.RenameStatement` | llvm_builder/preprocessor.cpp:108-163 | as the renaming function of a statement |
| `Preprocessor.Renamer.RenameStmtList` | llvm_builder/preprocessor.cpp:89-105 | the loop over a block's list renames its statements in order, without a scope of its own |
| `Preprocessor.Renamer.RenameVariablesUnique` | llvm_builder/preprocessor.cpp:241-249 | resets the stack and counter, yields the renamed program, leaves an empty stack, and has used one counter value per declaration |

## Left out

- Loading the IR file, printing the module and the exit codes of `main` are I/O through the LLVM C API and are not modelled.
- The LLVM C API itself is not modelled. This covers replacing all uses, constant arithmetic, erasing from the parent, use lists and type objects. The arena and operand substitution above stand for it.
- Orchestrator.CommonSubexpressionElimination: its source is not part of this model. It is a method that may rewrite operands arbitrarily while keeping the blocks, the opcodes, the widths, the targets and the arities.
- Constants other than integers, such as floating-point constants or constant expressions, are not modelled. An operand is constant only when it is an integer of a given width.
- GlobalOptimizations.AgreeOnConstant: the value read from a constant store is its sign-extended value, unbounded. The truncation of `getSExtValue` to 64 bits for wider integers is not modelled.
- Preprocessor.Renamer.MakeUniqueName: the counter is a natural number. The wrap-around of the 64-bit counter after 2^64 names is not modelled.
- A null name in the tree is not modelled. Names are strings, and the source treats a null name as the empty string.
- The renamer builds a new tree rather than overwriting name fields in place. Sharing of subtrees and the allocation and freeing of name strings are therefore not modelled.
- The extern declarations that hang off the program node are a leaf (`Extern`), which the source does not rename. The operator fields of expressions are not modelled, since the pass does not look at them.
- Sets of stores are mathematical sets. The iteration order of `std::set` is not modelled; no result here depends on it. `setsEqual`'s pairwise walk of two ordered sets is modelled by comparing sizes after an inclusion test.
- Erasing from the parent is removal from the block holding the instruction, modelled by filtering every block. The model does not require an instruction to appear only once in a function (LLVM guarantees this), so filtering removes every occurrence. Only `BlockEndIsOut` assumes that a block's instructions are distinct.
- Orchestrator.Round: it is the body of the `while (true)` loop, written as a method of its own. `OptimizeFunction` calls it until it reports no change.
