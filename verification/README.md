# sparse 0.4.4: a verified model of its middle end and list algorithms

sparse is a C front end with a small optimising middle end.  This project
models the parts of it where an intricate algorithm has to agree with a simple
specification, and proves that it does, for all inputs:

* **Compilation.**  `expand_expression` and `linearize_statement` together are
  a small compiler.  `ast`, `semantics` and `arith` give meaning to expressions,
  statements and instructions; `expand` is the constant folder and the
  cost-driven rewriting of conditionals, `constants` says which expressions it
  folds; `graph` and `linearize` are the functions that build basic blocks in
  place; `lowering` and `stmt_lowering` prove what the emitted blocks do in
  *every* extension of the graph; `faithful` joins both halves into one theorem
  about compiled functions and states where the code departs from C.
* **Rewriting the control-flow graph.**  `edges` has the edge surgery and the
  invariant that children, parents and branch targets agree; `work` and
  `threading` prove by simulation that a rewriting leaves the executed
  instructions alone; `flow` is `pack_basic_blocks`, `insert_branch` turns jumps
  with a known target into branches; `paths`, `generations`, `dominance` and
  `reach` are the graph searches.
* **Simplifying instructions.**  `folding` is the arithmetic of constants and
  operand exchange in sizes of 1 to 64 bits; `uses` keeps the lists of who uses
  what, with the cascade of kills; `simplify` rewrites single instructions in place
  and proves that every other instruction sees the same values.
* **Memory.**  `memory` is a byte-level memory with calls; `memops` is the
  in-block load forwarding and dead-store killing.
* **Liveness and deaths** (`liveness`, `deathnotes`, and `death_uses` for what a note
  promises), the **lock-context checker** (`context`) and **storage merging**
  (`equivalence`, `storage`, `storage_setup`).
* **Lists.**  `ptrlist` is the circular list of partly filled nodes; `list_ops` and
  `list_edit` are insertion with splitting, appending, removal and packing, and
  `death_list` is the walk that puts death notes in.  `sort`,
  `array_sort` and `sort_list` sort the list in place with a buffer of two nodes;
  `merging`, `sort_merge` and `runs` are the specification and its lemmas.
* **Preprocessing.**  `preprocess` is the rescanning of object-like macros with
  taint bits and markers, `hide_sets` relates it to rescanning with hide sets;
  `conditionals` is the `#if` nesting machine.
* **Initializers.**  `initializer` walks the leaves of a nested type for a flat
  list of initializers; `layout` shows that the leaves do not overlap.

Preconditions are the ones the code relies on: the entry block has no parents
and begins with its entry instruction, a generation number is fresh, integer
constants are masked to their width, no load between two stores to one place is of
a part of it, a pointer reaches no symbol that the block names, the lock context
starts nonnegative, comparators are total preorders.

## Model

| member | source | states |
|---|---|---|
| `Faithful.CompilationCorrect` | src/sparse-0.4.4/linearize.c:1985-2208 | for every well-typed function whose source assigns in no condition of `?:` what the arms read, and uses the value of `&&` and `\|\|` only with a right side that is 0 or 1: the blocks emitted after expansion return exactly when the statement terminates by the rules of C, with the same variables and the same sequence of assignments |
| `Faithful.FaithfulCompilation` | src/sparse-0.4.4/linearize.c:1985-2208 | the same for every function whose expanded form is faithful, which is weaker than the condition on the source |
| `Faithful.SafeStmtExpands` | src/sparse-0.4.4/expand.c:1126-1195 | the condition on the source implies that what expansion leaves, selects included, means in the emitted code what it means in C |
| `StmtLowering.FunctionCorrect` | src/sparse-0.4.4/linearize.c:2121-2208 | any graph that extends the code emitted for a function returns exactly when the statement ends normally, in the same final state |
| `Lowering.ConditionalSim` | src/sparse-0.4.4/linearize.c:1364-1393 | from the condition's first instruction to the one behind the phi node, the code evaluates condition and chosen arm only, and the phi node's pseudo holds that arm's value |
| `Lowering.ShortConditionalSim` | src/sparse-0.4.4/linearize.c:1338-1362 | `c ?: f` evaluates c once and yields it when nonzero, and f otherwise |
| `Lowering.SelectSim` | src/sparse-0.4.4/linearize.c:1297-1317 | a select runs both arms, then the condition, and picks by the condition's value |
| `Lowering.LogicalCondSim` | src/sparse-0.4.4/linearize.c:1470-1481 | testing `a && b` or `a \|\| b` evaluates b only when a does not decide, and leaves for the true block exactly when the condition is nonzero |
| `StmtLowering.IfSim` | src/sparse-0.4.4/linearize.c:2087-2107 | STMT_IF runs the branch that the condition selects and goes on behind it |
| `StmtLowering.IteratorSim` | src/sparse-0.4.4/linearize.c:1942-1983 | a loop's blocks, with or without a test at the top or at the bottom, run as many rounds as the source and send break and continue to their blocks |
| `Linearize.LinearizeExpression` | src/sparse-0.4.4/linearize.c:1541-1613 | what is emitted at the active block computes the expression with its side effects in order into the returned pseudo, in any later extension of the graph; only the active block and new blocks change |
| `Linearize.LinearizeCondBranch` | src/sparse-0.4.4/linearize.c:1427-1466 | control leaves for bb_true exactly when the condition is nonzero, after the same assignments |
| `Linearize.LinearizeLogicalBranch` | src/sparse-0.4.4/linearize.c:1470-1481 | short-circuit evaluation of `&&` and `\|\|` into two target blocks |
| `Linearize.LinearizeConditional` | src/sparse-0.4.4/linearize.c:1364-1393 | emits code for which ConditionalSim holds and keeps children, parents and targets in agreement |
| `Linearize.LinearizeShortConditional` | src/sparse-0.4.4/linearize.c:1338-1362 | emits code for which the short conditional's value and side effects are right |
| `Linearize.LinearizeSelect` | src/sparse-0.4.4/linearize.c:1297-1317 | emits arms before the condition, as the select reading of the expression says |
| `Linearize.LinearizeLogical` | src/sparse-0.4.4/linearize.c:1395-1404 | a logical expression becomes a conditional whose decided case is the constant 0 or 1 |
| `Linearize.LinearizeStatement` | src/sparse-0.4.4/linearize.c:1985-2119 | every statement's code runs as the statement does, for all ways of leaving it (to the end, by break, by continue, or not at all) |
| `Linearize.LinearizeIterator` | src/sparse-0.4.4/linearize.c:1942-1983 | the same for loops |
| `Linearize.LinearizeIf` | src/sparse-0.4.4/linearize.c:2087-2107 | the same for STMT_IF |
| `Linearize.LinearizeFn` | src/sparse-0.4.4/linearize.c:2121-2208 | a function's blocks start at its entry block and are the code of its body followed by a return |
| `Graph.EntryPoint.AddGoto` | src/sparse-0.4.4/linearize.c:602-614 | a jump and both edge lists are added together, so children, parents and targets still agree, and no block is active afterwards |
| `Graph.EntryPoint.SetActiveBlock` | src/sparse-0.4.4/linearize.c:626-634 | falls into the new block exactly when the old one is still open |
| `Graph.EntryPoint.AddBranch` | src/sparse-0.4.4/linearize.c:719-735 | both targets become children and the block a parent of each, as often as it jumps there; nothing happens without an active block |
| `Graph.JumpKeepsWellFormed` | src/sparse-0.4.4/linearize.c:602-735 | adding a jump or branch to an open block keeps, for every pair of blocks, the count of c in b's children equal to that of b in c's parents |
| `Expand.FoldBinopAgrees` | src/sparse-0.4.4/expand.c:165-281 | for all sizes 1 to 64 and canonical operands the folded value is what the instruction would compute, quotient and remainder are the truncated ones of the numbers that the patterns stand for, and folding gives up exactly for zero divisors and the signed quotient that overflows |
| `Arith.TruncDivision` | src/sparse-0.4.4/expand.c:228-249 | the quotient truncates toward zero: divisor times quotient plus remainder is the dividend, and the remainder is nearer to zero than the divisor and on the dividend's side |
| `Arith.TruncatesOnce` | src/sparse-0.4.4/expand.c:228-249 | no other quotient and remainder do that |
| `Arith.SignedReading` | src/sparse-0.4.4/expand.c:186-192 | the signed reading of a pattern lies in the signed range and has that pattern |
| `Arith.SignedOnce` | src/sparse-0.4.4/expand.c:186-192 | and every number of the signed range is the reading of its own pattern |
| `Arith.BitwiseBits` | src/sparse-0.4.4/expand.c:205-218 | each bit of a folded and, or, exclusive or is that of the operands' bits there |
| `Expand.FoldCompareAgrees` | src/sparse-0.4.4/expand.c:283-313 | folded comparisons agree with the compare instructions, signed and unsigned |
| `Expand.FoldPreopAgrees` | src/sparse-0.4.4/expand.c:654-685 | folded `-`, `~`, `!` and `+` agree with the instructions, and folding gives up if and only if a signed negation overflows |
| `Expand.FoldCastAgrees` | src/sparse-0.4.4/expand.c:73-149 | a constant cast truncates or extends by the old type's sign as the cast instruction does, and its result is canonical |
| `Expand.ExpandPreserves` | src/sparse-0.4.4/expand.c:937-1026 | expansion keeps value, side effects and type of every well-typed expression in every state; a result below SIDE_EFFECTS in cost has none |
| `Constants.FoldsExactly` | src/sparse-0.4.4/expand.c:387-560 | an expression becomes a constant if and only if its value is made of constants without a division by zero or an operation that overflows |
| `Faithful.ExpandExec` | src/sparse-0.4.4/expand.c:1126-1195 | expanding a statement leaves every run of it as it was, step count included |
| `Faithful.NewSelectsHavePureArms` | src/sparse-0.4.4/expand.c:518-549 | a conditional that expansion turns into a select has arms without side effects |
| `Faithful.SelectIsConditional` | src/sparse-0.4.4/linearize.c:1297-1317 | with pure arms that do not read what the condition assigns, evaluating both arms first is the same as evaluating conditionally |
| `Faithful.SelectReadsTooEarly` | src/sparse-0.4.4/expand.c:538-546 | `(x = v) ? x : 0` becomes a select, and the select yields the old x instead of v |
| `Faithful.SelectExactly` | src/sparse-0.4.4/linearize.c:1297-1317 | with arms that assign nothing, a select is the conditional it came from if and only if the arm that the condition picks has the same value before and after the condition |
| `Faithful.LogicalYieldsRightOperand` | src/sparse-0.4.4/linearize.c:1395-1404 | `1 && 2` is 1 in C and 2 in the emitted code |
| `Faithful.LogicalValue` | src/sparse-0.4.4/linearize.c:1395-1404 | a logical operator's emitted value is C's up to zero and nonzero, and equal to it if and only if the operand that decides is 0 or 1 |
| `Faithful.FaithfulMeaning` | src/sparse-0.4.4/linearize.c:1541-1613 | outside these two cases the emitted reading of an expression is C's, exactly or, under a condition, in truth |
| `Edges.RedirectKeepsWellFormed` | src/sparse-0.4.4/flow.c:30-45 | redirecting one jump keeps children, parents and targets in agreement, and the old target has one parent entry fewer |
| `Edges.KillKeepsWellFormed` | src/sparse-0.4.4/flow.c:749-774 | killing a block without parents keeps the agreement and touches no other block's instructions |
| `Edges.MergeKeepsWellFormed` | src/sparse-0.4.4/flow.c:919-1006 | merging a block into its only parent keeps the agreement for every other pair of blocks |
| `Threading.BypassSameWork` | src/sparse-0.4.4/flow.c:793-822 | sending a jump past a block that only branches leaves, from every start, the same sequence of working instructions with the same data |
| `Threading.MergeSameWork` | src/sparse-0.4.4/flow.c:987-1005 | merging a block into its sole parent leaves the same sequence of working instructions with the same data |
| `Threading.KillSameWork` | src/sparse-0.4.4/flow.c:749-774 | killing a block that nothing leads to changes no run |
| `Work.SimulationDoesAll` | src/sparse-0.4.4/flow.c:919-1006 | a simulation between two graphs carries over every working instruction a run performs, and the data it finds there |
| `Flow.RewriteBranch` | src/sparse-0.4.4/flow.c:30-45 | changes exactly one target and one entry in each of three lists, or nothing |
| `Flow.RewriteParentBranch` | src/sparse-0.4.4/flow.c:793-822 | exactly the jumps of the parent that led to the old block lead to the new one afterwards, nothing else is done to any instruction, and the function does the same; a change is made exactly when the blocks differ and the parent ends in a branch or switch |
| `Flow.RewriteBranchBb` | src/sparse-0.4.4/flow.c:824-846 | the parent-rewriting loop ends, and the block is bypassed or left with its parents; with default arms everywhere it is bypassed exactly when it can be, and otherwise nothing changes |
| `Flow.MergeBlock` | src/sparse-0.4.4/flow.c:968-1005 | merges exactly when the block has one parent and is that parent's one child |
| `Flow.PackBlock` | src/sparse-0.4.4/flow.c:926-1005 | afterwards the block is gone or can neither be bypassed nor merged; where switches have default arms it goes exactly when it could be packed before, and otherwise nothing changes |
| `Flow.PackBasicBlocks` | src/sparse-0.4.4/flow.c:919-1006 | the graph stays well formed, and where switches have default arms the function performs the same working instructions in the same order with the same data, whatever the calls among them return; every listed block that can be packed when its turn comes goes for good, the first of them being the first that can be packed at the start, and no other turn changes anything |
| `Flow.FirstIsPacked` | src/sparse-0.4.4/flow.c:919-1006 | the first listed block that can be bypassed or merged is gone in the end |
| `Flow.GoneToTheEnd` | src/sparse-0.4.4/flow.c:919-1006 | a block that is gone after some turn is gone in the end |
| `InsertBranches.InsertBranch` | src/sparse-0.4.4/linearize.c:636-667 | one edge to the target stays and every other edge of the block goes from both lists; exactly those children are killed whose last edge from the block goes when all their other parents have been killed before, and no other block; all others keep instructions and children, and the graph stays well formed |
| `InsertBranches.WhichAreKilled` | src/sparse-0.4.4/linearize.c:636-667 | only children of the block other than the target are killed; one that the block alone leads to is, and one with a parent that is neither the block nor a child of it is not |
| `InsertBranches.InsertSameWork` | src/sparse-0.4.4/linearize.c:643-667 | when the jump always goes to the target, the graph with the branch does the same work from every start that was not killed |
| `InsertBranches.SimplifySwitch` | src/sparse-0.4.4/simplify.c:867-890 | a switch on a constant becomes a branch to the first arm whose range holds the constant or is empty, exactly when there is one, and the function does the same work |
| `Semantics.ArmIsFirst` | src/sparse-0.4.4/simplify.c:876-883 | a switch takes the first arm whose range holds the value or is empty, which marks the default |
| `InsertBranches.SimplifyBranch` | src/sparse-0.4.4/simplify.c:797-821 | a branch on a constant, or with twice the same target, becomes unconditional, and the function does the same work |
| `Folding.FoldConstantAgrees` | src/sparse-0.4.4/simplify.c:370-485 | for every size from 1 to 64 and operands that fit, the folded constant is what the instruction computes, quotients truncate, and folding gives up exactly on a zero divisor |
| `Folding.RightsideAgrees` | src/sparse-0.4.4/simplify.c:313-347 | for each operator, what the rules put in the place of an operation with a constant right side has its value: an operand, zero, or a sum with the negated constant |
| `Folding.LeftsideAgrees` | src/sparse-0.4.4/simplify.c:349-368 | the same for a constant left side |
| `Folding.TruthRules` | src/sparse-0.4.4/simplify.c:332-338 | the rules for `x && 1` and `x \|\| 0` are right if and only if x is 0 or 1 |
| `Folding.Reassociates` | src/sparse-0.4.4/simplify.c:537-557 | (a op b) op c is (c op b) op a for sums, products, bit operations and logical operators of one size |
| `Folding.ExchangesExactly` | src/sparse-0.4.4/simplify.c:537-557 | with an inner instruction of another size the exchange keeps the value for all operands if and only if the inner size is no smaller, or the operator is a bitwise and or a logical one |
| `Folding.CommutesExactly` | src/sparse-0.4.4/simplify.c:897-915 | the operators whose operands are put in canonical order are exactly those for which the order does not matter |
| `Folding.AssociatesExactly` | src/sparse-0.4.4/simplify.c:897-908 | and those whose operands are regrouped are exactly those for which that is right, but for the unsigned product |
| `Uses.Insns.SwitchPseudo` | src/sparse-0.4.4/simplify.c:501-509 | two operands are exchanged, each list of users again has exactly the slots that hold its pseudo, each once, and nothing is killed on the way |
| `Uses.Insns.KillInstruction` | src/sparse-0.4.4/simplify.c:185-228 | the cascade terminates with exact lists of users; nothing that is left uses what a killed instruction computed, and an instruction whose last use went is gone if its kind can be |
| `Uses.Insns.ConvertInstructionTarget` | src/sparse-0.4.4/flow.c:241-259 | exactly the slots that held the target hold the other pseudo, which may be VOID, and the lists are exact again |
| `Uses.Insns.DeadInsn` | src/sparse-0.4.4/simplify.c:233-246 | true exactly when no slot holds the result; then the instruction goes, and what it alone used |
| `Simplify.OneSolution` | src/sparse-0.4.4/simplify.c:892-945 | the inputs determine the values of all live computations, so an assignment of values that satisfies them is the one there is |
| `Simplify.PreservesTrans` | src/sparse-0.4.4/simplify.c:892-945 | steps that preserve what the other instructions see can follow each other |
| `Simplify.SimplifyConstantBinop` | src/sparse-0.4.4/simplify.c:370-485 | users of a folded result use the constant; lists stay exact; stores, branches and all other instructions have operands with the same values |
| `Simplify.SimplifyConstantRightside` | src/sparse-0.4.4/simplify.c:300-347 | exactly when there is a rule for the constant on the right, users of the result use what the rule names, or a difference becomes a sum; all other instructions see the same values; the size is the narrower one of what was extended with zeros |
| `Simplify.SimplifyConstantLeftside` | src/sparse-0.4.4/simplify.c:349-368 | exactly when there is a rule for the constant on the left, users of the result use the operand that the rule names, and all other instructions see the same values |
| `Simplify.SimplifyCommutativeBinop` | src/sparse-0.4.4/simplify.c:511-530 | operands are exchanged exactly when they are not in canonical order, which they are afterwards, and the result is the same |
| `Simplify.SimplifyAssociativeBinop` | src/sparse-0.4.4/simplify.c:537-557 | the exchange is made exactly under its tests and keeps lists of users and definitions intact; all others see the same values when the inner instruction is not the smaller one or the operator makes no bits of its own, which `ExchangesExactly` shows to be the condition |
| `Simplify.ExchangeLosesBits` | src/sparse-0.4.4/simplify.c:537-557 | two well-formed sums of 1 and 2 bits that pass all tests: the exchange changes the stored result, because sizes are not compared |
| `Simplify.SimplifySelect` | src/sparse-0.4.4/simplify.c:713-750 | a dead select goes, one with a known condition becomes the arm it picks, one with equal arms that arm, one of 1 and 0 the comparison with zero, and any other stays; the uses that go with the other operands keep the lists exact |
| `Simplify.SimplifyUnop` | src/sparse-0.4.4/simplify.c:559-588 | a dead operation goes, users of one on a constant use the computed constant, and any other stays |
| `Simplify.SimplifyBinop` | src/sparse-0.4.4/simplify.c:487-499 | the operation changes exactly when it is dead, can be folded or has a rule for its constant side |
| `Simplify.SimplifyInstruction` | src/sparse-0.4.4/simplify.c:892-945 | simplifying any binary or unary operation or select keeps every operand that a store, branch, call or return sees, no operand refers to something killed, and something changes exactly when one of the cases applies |
| `Reach.MarkReachable` | src/sparse-0.4.4/flow.c:725-735 | with a fresh generation, a block is marked if and only if a path leads to it from the entry |
| `Reach.KillUnmarked` | src/sparse-0.4.4/flow.c:776-791 | the list of blocks keeps exactly the marked blocks, in order |
| `Reach.KillUnreachableBbs` | src/sparse-0.4.4/flow.c:776-791 | exactly the reachable blocks are kept, the others have neither instructions nor edges, the graph is well formed and does the same work |
| `Dominance.Dominates` | src/sparse-0.4.4/cse.c:276-293 | the search answers yes if and only if every path from the entry to bb2 goes through bb1 |
| `Dominance.BbDominates` | src/sparse-0.4.4/cse.c:276-293 | the recursive search terminates on cyclic graphs, and a no comes with a path that avoids bb1 |
| `MemOps.DominatesMeans` | src/sparse-0.4.4/flow.c:294-319 | in a sane run, 1 means that both instructions are about the very same bytes; an instruction with 0 changes none of them, and touches one only when it is a load at the same address that overlaps in part; when the answer is 1 and when it is -1 is exact |
| `MemOps.ForwardOne` | src/sparse-0.4.4/memops.c:85-139 | in every run of the block, a load's register and whatever used it get the dominating access's value, and memory and all other values stay |
| `MemOps.LoadValueThere` | src/sparse-0.4.4/memops.c:85-139 | between a dominating access and the load nothing can have changed what is loaded |
| `MemOps.InsnList.FindDominator` | src/sparse-0.4.4/memops.c:96-117 | finds the nearest access that decides the load, or none exists |
| `MemOps.InsnList.SimplifyLoads` | src/sparse-0.4.4/memops.c:85-139 | exactly the loads that an access of the block dominates go; every run ends with the same memory and values, up to the registers of loads that are gone, which have stand-ins |
| `MemOps.WhichLoadsGo` | src/sparse-0.4.4/memops.c:85-139 | forwarding later loads does not change which earlier ones are dominated, so the loads that go are those dominated in the block as it was |
| `MemOps.KillOne` | src/sparse-0.4.4/memops.c:150-183 | killing one store that is overwritten before it is read leaves the whole run's outcome equal |
| `MemOps.KillAll` | src/sparse-0.4.4/memops.c:150-183 | the same for all stores that one store overwrites |
| `MemOps.InsnList.KillDominatedStores` | src/sparse-0.4.4/memops.c:150-183 | the pass kills every overwritten store, and nothing but stores, and leaves every value and all of memory as they were |
| `MemOps.OverwrittenGo` | src/sparse-0.4.4/memops.c:150-183 | a store that is overwritten is killed, even when the store that overwrites it is killed before its turn |
| `MemOps.SimplifyMemops` | src/sparse-0.4.4/memops.c:185-196 | afterwards exactly the loads that an access dominated are gone and every store that is overwritten in the block with forwarded loads is; all of memory, all values and the stand-ins of forwarded loads are right in every sane run of the block |
| `MemOps.LayeredStays` | src/sparse-0.4.4/memops.c:85-183 | when offsets and sizes of stores and loads are the same or apart, the block meets the condition of the store pass after the load pass, although forwarding makes addresses the same |
| `MemOps.PartialLoadIsMissed` | src/sparse-0.4.4/memops.c:158-176 | with accesses that overlap partly, a store is killed although a load between reads part of it, and the load changes |
| `MemOps.PointerMayAlias` | src/sparse-0.4.4/flow.c:294-319 | a store to any symbol never counts for a load through a pointer: when the pointer reaches a symbol that the block names, the load gets an old value |
| `Liveness.LivenessLoop` | src/sparse-0.4.4/liveness.c:236-258 | the loop ends, and a block needs a pseudo if and only if a path leads from it to a block that needed it at first, no earlier block on the path defining it |
| `Liveness.TrackPseudoLiveness` | src/sparse-0.4.4/liveness.c:236-274 | the same, and the definitions kept are exactly those some child needs |
| `DeathNotes.OneNote` | src/sparse-0.4.4/liveness.c:311-353 | a block gets exactly one note for each trackable pseudo that it uses and that is not needed later, no others, and its instructions stay in order |
| `DeathNotes.NotePlace` | src/sparse-0.4.4/liveness.c:315-353 | each note stands in the group of notes directly before the last instruction that uses the pseudo |
| `DeathUses.UsesDecideMemory` | src/sparse-0.4.4/liveness.c:49-140 | two states that agree on the uses of an instruction, on memory and on phi-sources agree on memory and phi-sources afterwards |
| `DeathUses.UsesDecideValue` | src/sparse-0.4.4/liveness.c:49-140 | and on the value that the instruction sets |
| `DeathUses.UsesDecideJump` | src/sparse-0.4.4/liveness.c:49-140 | and they jump to the same place and return the same |
| `DeathUses.UsesAreReads` | src/sparse-0.4.4/liveness.c:49-140 | the registers in the table of uses are exactly those that the instruction reads |
| `DeathUses.NoteMeansDead` | src/sparse-0.4.4/liveness.c:311-353 | a note for a register stands before an instruction that reads it, and the code behind that instruction does the same whatever the register holds by then |
| `DeathList.TrackPseudoDeathBb` | src/sparse-0.4.4/liveness.c:323-353 | the walk from the end of the list of instructions, which inserts notes and splits full nodes as it goes, gives each original instruction its notes once: the list holds exactly the annotated block, and is well linked |
| `ListOps.SplitPtrListHead` | src/sparse-0.4.4/ptrlist.c:100-115 | a node is cut in two, the lower half staying where it was, and the list has the same entries in order |
| `ListOps.InsertCurrent` | src/sparse-0.4.4/ptrlist.h:223-246 | the entry goes before the one under the cursor, a full node being split first; the cursor then stands on the new entry with the same entries before it |
| `ListEdit.AddPtrList` | src/sparse-0.4.4/ptrlist.c:117-149 | the list has one more entry at its end, and a new node only when the last is full or there is none |
| `ListEdit.UndoPtrListLast` | src/sparse-0.4.4/ptrlist.c:185-203 | the last entry goes, past nodes that are empty, or there was none |
| `ListEdit.DeletePtrListEntry` | src/sparse-0.4.4/ptrlist.c:151-166 | exactly the first `count` occurrences go, or all of them, the count that is left is returned, and no empty node stays |
| `ListEdit.ReplacePtrListEntry` | src/sparse-0.4.4/ptrlist.c:168-183 | exactly the first `count` occurrences are replaced, or all of them, and the count that is left is returned |
| `ListEdit.PackPtrList` | src/sparse-0.4.4/ptrlist.c:67-98 | empty nodes go, even the head or all of them, and the entries stay in order |
| `ContextCheck.ContextIncrease` | src/sparse-0.4.4/sparse.c:27-50 | the sum of a block's context changes, and one warning for each check that fails on the way |
| `ContextCheck.CheckBbContext` | src/sparse-0.4.4/sparse.c:81-98 | terminates on every graph; -1 comes with a path, or two paths, that show the imbalance |
| `ContextCheck.CheckContext` | src/sparse-0.4.4/sparse.c:81-98 | 0 if and only if on all paths contexts at block boundaries are nonnegative and independent of the path, and every return is at the exit count |
| `ContextCheck.PathsAgree` | src/sparse-0.4.4/sparse.c:63-98 | when no imbalance was found, the stored context of a block is that of every path to it |
| `Initializer.WayToLeaf` | src/sparse-0.4.4/evaluate.c:2167-2187 | the offsets on the way to a scalar add up to its place among the leaves in declaration order |
| `Layout.LeavesInLine` | src/sparse-0.4.4/evaluate.c:2167-2187 | in a type whose parts are laid out one behind the other the leaves lie within the object, in order and apart, so no two initializers of a list reach the same memory |
| `Initializer.NextRank` | src/sparse-0.4.4/evaluate.c:2309-2366 | the next designator leads to the very next leaf, and there is none exactly after the last |
| `Initializer.NextDesignators` | src/sparse-0.4.4/evaluate.c:2309-2366 | the designators given up are turned into positions, and the new ones are those of the next subobject at the innermost level that has one |
| `Initializer.Descend` | src/sparse-0.4.4/evaluate.c:2374-2456 | first_subobject is followed down to the first scalar leaf |
| `Initializer.HandleListInitializer` | src/sparse-0.4.4/evaluate.c:2374-2456 | the k-th initializer ends at the k-th leaf with that leaf's offset, and exactly the initializers beyond the leaf count are excess |
| `Equivalence.OneMorePair` | src/sparse-0.4.4/storage.c:200-215 | adding one pair to a relation connects two elements if and only if they were connected or are connected through the pair |
| `Storage.StorageTable.LookupStorage` | src/sparse-0.4.4/storage.c:90-100 | the bucketed search agrees with a map from slots to storages, for any hash function |
| `Storage.StorageTable.AddStorage` | src/sparse-0.4.4/storage.c:102-112 | the slot gets the storage, every other slot keeps its own, and the users list has the new slot |
| `Storage.StorageTable.CombineStorage` | src/sparse-0.4.4/storage.c:200-215 | all slots of the first storage move to the second, and each users list is still exactly the slots that point to the storage |
| `StorageSetup.SetUpBbStorage` | src/sparse-0.4.4/storage.c:217-248 | what leaves a block shares storage with what the children that need it get |
| `StorageSetup.CombinePhiStorage` | src/sparse-0.4.4/storage.c:271-293 | neighbouring targets of a phi-source leave the block in one storage |
| `StorageSetup.SetUpArgumentStorage` | src/sparse-0.4.4/storage.c:250-264 | each pseudo that the function gets has a storage of its own, an argument that of its number |
| `StorageSetup.SetUpStorage` | src/sparse-0.4.4/storage.c:295-309 | two slots have the same storage if and only if they are related by the equivalence that edges and shared phi-sources generate; exactly the slots that edges and arguments demand exist |
| `Merging.MergeSorted` | src/sparse-0.4.4/sort.c:119-224 | merging sorted sequences gives a sorted one |
| `Merging.MergeStable` | src/sparse-0.4.4/sort.c:119-224 | ties keep their order, those of the first sequence before those of the second |
| `Merging.StableIsPermutation` | src/sparse-0.4.4/sort.c:227-292 | rearranging with ties in order neither loses nor adds an entry |
| `ArraySorting.ArraySort` | src/sparse-0.4.4/sort.c:48-63 | the first nr entries are sorted in place with ties in order, and the entries behind them stay |
| `Sort.MergeBlockSeqs` | src/sparse-0.4.4/sort.c:119-224 | two runs of nodes are merged in place; every node keeps its fill count, nodes outside stay, and the buffer never holds more than two nodes' worth |
| `Sort.MergeStep` | src/sparse-0.4.4/sort.c:136-205 | every step keeps: finished nodes, then the buffer, then the merge of what is left make up the result; the buffer has exactly as many entries as were read and not written, and none is overwritten before it is read |
| `Sort.MergeInBuffer` | src/sparse-0.4.4/sort.c:136-223 | with a buffer for the entries of two nodes, two sorted runs of nodes become their merge in place, and the node that is first then is returned |
| `Runs.PairMerged` | src/sparse-0.4.4/sort.c:241-291 | one merge of a pass keeps ties in order and moves the boundary between merged and unmerged runs |
| `SortList.Pass` | src/sparse-0.4.4/sort.c:241-291 | a pass turns runs of b nodes into runs of 2b nodes although the list's head may change, and reports done exactly when one run is left |
| `SortList.SortList` | src/sparse-0.4.4/sort.c:227-292 | the list of the same nodes is sorted, a stable permutation, for every shape including empty nodes, and the sort terminates |
| `Preprocess.MarkingChangesNothing` | src/sparse-0.4.4/pre-process.c:887-892 | marking a tainted name in the body when it is copied gives the same expansion as marking it when it is reached |
| `Preprocess.ExpandKeepsMeaning` | src/sparse-0.4.4/pre-process.c:919-987 | putting body and marker in the name's place leaves what is still to come as it was, and brings the end nearer |
| `Preprocess.Scanner.ScanNext` | src/sparse-0.4.4/pre-process.c:334-345 | exactly the markers at the cursor go and exactly their names are no longer tainted, which changes nothing that is to come |
| `Preprocess.Scanner.Expand` | src/sparse-0.4.4/pre-process.c:919-987 | a tainted name stays and is marked; for another one the list goes on with its marked body and a marker for it, the name is tainted, what is to come stays the same, and fewer steps are left |
| `Preprocess.Scanner.ExpandList` | src/sparse-0.4.4/pre-process.c:347-354 | the scan terminates, its output is what the markers said was to come, and no name is tainted at the end |
| `Preprocess.ExpandTokens` | src/sparse-0.4.4/pre-process.c:347-354 | scanning a list gives its recursive expansion |
| `HideSets.ExpansionIsRescan` | src/sparse-0.4.4/pre-process.c:919-987 | the recursive expansion is what left-to-right rescanning with a hide set on every token gives |
| `HideSets.NothingLeft` | src/sparse-0.4.4/pre-process.c:919-987 | no name of a macro is left in the output that may still be replaced, and no marker |
| `Conditionals.StaysPossible` | src/sparse-0.4.4/pre-process.c:1809-1881 | in any order of directives no conditional ever has a second live group |
| `Conditionals.Groups.PreprocessorIf` | src/sparse-0.4.4/pre-process.c:1684-1693 | the nesting counter and the tags agree with a record for the new conditional |
| `Conditionals.Groups.HandleElif` | src/sparse-0.4.4/pre-process.c:1809-1840 | agrees with the records for misplaced and for placed #elif; the condition is evaluated exactly when it matters |
| `Conditionals.Groups.HandleElse` | src/sparse-0.4.4/pre-process.c:1842-1865 | agrees with the records; error exactly when misplaced |
| `Conditionals.Groups.HandleEndif` | src/sparse-0.4.4/pre-process.c:1867-1881 | agrees with the records; error exactly without an #if |
| `Conditionals.NestingLive` | src/sparse-0.4.4/pre-process.c:1684-1693 | the counter is zero if and only if the groups of all open conditionals are live |
| `Conditionals.SelectsParts` | src/sparse-0.4.4/pre-process.c:1684-1881 | in well-nested text, live text is that of the first group whose condition holds, at every level |
| `Conditionals.Preprocess` | src/sparse-0.4.4/pre-process.c:2173-2232 | running the machine lets exactly the live text through |
| `Conditionals.WellNested` | src/sparse-0.4.4/pre-process.c:1684-1881 | what gets through a well-nested file is the text of the selected groups |

## Left out

Weaker than the code or the standard promises, by member:

- Faithful.CompilationCorrect: excludes sources for which the emitted code differs from C, as `LogicalYieldsRightOperand` and `SelectReadsTooEarly` show; `LogicalValue` and `SelectExactly` say for one operator when the two agree, but for a whole function only a sufficient condition is given.
- Ast.Eval: division and modulo are total, so an arm `1/y` that becomes a select does not trap; section 6.5.5 of ISO/IEC 9899:1999 leaves that undefined.
- Expand.FoldBinopAgrees: the signed remainder of the smallest 64-bit value by -1, which is undefined in C and may trap in the folding code, is taken as 0.
- Linearize.LinearizeExpression: calls, pointers, bitfields, compound assignment and casts to `_Bool` are not part of the modelled syntax.
- Linearize.LinearizeStatement: nor are `switch`, `goto`, labels and `return` with a value.
- Linearize.LinearizeFn: nor are function arguments; the passes that follow linearization are modelled on their own.
- Expand.FoldCastAgrees: no casts to `_Bool`.
- Expand.ExpandPreserves: the conservative mode, which leaves shift counts that are too big alone and is silent, is not modelled; costs are unbounded numbers; the `int` sums of the code could overflow for expressions of more than 2^31 nodes.
- Flow.PackBasicBlocks: same work needs every switch to have a default arm, which linearize_switch always adds, and no computed goto; kills of definitions that only the removed branch used are not modelled.
- InsertBranches.SimplifyBranch: the cases that look through a comparison, a select or a cast at the condition are left out; the block that is edited has to be reachable.
- Simplify.SimplifyAssociativeBinop: does not compare the sizes of the two instructions; values are kept under the condition of `ExchangesExactly`, and `ExchangeLosesBits` shows a loss without it. That operands fit their instructions, which later steps rely on, is only kept for equal sizes.
- Simplify.SimplifyInstruction: casts, ranges, memory operations and phi nodes are not simplified here; operands fit the instruction, with logical operators on 0 and 1 only, and shift counts are below the width.
- Uses.Insns.RemoveUsage: a symbol's pseudo has no defining instruction; the code reads the field that holds the symbol as one when the last use goes, which is not modelled.
- Sort.MergeBlockSeqs: the regions that FLUSH_TO copies with memcpy may overlap, which is undefined in C; the model copies all entries at once. `blocks <<= 1` cannot overflow in the model.
- MemOps.ForwardOne: a run must be sane: an access through a pointer stays away from every symbol that the block names, whether or not its address is taken, and from the local ones, because dominates() never lets a store to a symbol count for a load through a pointer (see `PointerMayAlias`); and stored values fit their size, rounded up to bytes.
- MemOps.KillOne: no load between two stores to one place may be of a part of it (see `PartialLoadIsMissed`). One direction only: whether a missed load shows depends on what was in memory before. Bit offsets do not wrap around.
- MemOps.InsnList.KillDominatedStores: that a killed store's value loses a use, and the cascade that may start, is modelled for lists of users and not here.
- MemOps.InsnList.SimplifyLoads: the search through parent blocks, when the block itself has no dominating access, is left out.
- Liveness.TrackPseudoLiveness: starts from the lists of uses and definitions that track_instruction_usage and phi_defines build.
- ListEdit.DeletePtrListEntry: slots that no longer count keep their old entries, where the code poisons them.
- ContextCheck.CheckContext: an initial context of -1 would count as not visited, and the function returns 0 at once; contexts are unbounded.
- Initializer.HandleListInitializer: no designators, strings, nested braces, bitfields or arrays of unknown size; a chain of designators is a sequence that is rewritten in place of the nodes.
- StorageSetup.SetUpStorage: kinds of storage are only distinguished as far as the setup does; phi users are a given function, and the hash is an arbitrary one.
- Preprocess.ExpandTokens: object-like macros without `#` and `##`; names that the preprocessor defines itself, such as `__LINE__`, are ordinary names.
- Conditionals.Preprocess: the value of an `#if` expression is given with its line.

Not modelled:

- tokenizer, parser, type evaluation, symbol tables, inlining, unssa, back ends and output formats
- cross-block load forwarding and the shortcut for symbols with a single store, whose validity rests on assumptions that the code does not check
- merging of common subexpressions, whose comparison functions are case tables
- branch threading through phi nodes (try_to_simplify_bb) and the conversion of phi nodes to selects
- concat_ptr_list, delete_ptr_list_last, linearize_ptr_list and the traversal by PREPARE_PTR_LIST and NEXT_PTR_LIST
- function-like macros, `#`, `##`, file inclusion, and the records kept about expansions
- pointer tags and the block allocator: block addresses are numbers or objects, and an order on addresses is any total preorder
- a helper method here is sometimes a stretch of one C function, split off so that its invariant can be stated once
