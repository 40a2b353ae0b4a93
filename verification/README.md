# A verified model of godecompose

godecompose turns x86-64 machine code back into Go. This project models its algorithmic core in
Dafny and proves what that core promises. Everything below is about all inputs: every graph, every
stream, every heap of value nodes, every token list.

**Dominators** (`FlowGraph`, `DfsTree`, `DfsSearch`, `SearchOrder`, `LinkForest`, `Semidominators`,
`SemiLoop`, `ClosingPass`, `DominatorTable`, `EntryExamples`, `Dominators`). The Lengauer-Tarjan pass
of `disasm/structure.go` as it is written: recursive search, link/eval forest with path compression,
buckets and closing pass. `Dominators.dfy` has the imperative pass; the other files hold the graph
theory it is proved against. The search takes successors in list order, which leaves one numbering
only. Semidominators come out exact, and dominance can be read off them: an ancestor dominates a
block exactly when no semidominator on the way down bypasses it. The bucket pass stores the least
semidominator met on that way; in the second branch that is always the immediate dominator, in the
first exactly when it dominates, and otherwise it lies too deep. The closing pass keeps an entry
exactly when it equals `semi[semi[v]]`. So an entry that is right because it is the semidominator
stays only when it is the entry block, and a right table needs a graph where no other block dominates
anything. For every block it is said when the entry that is left dominates, when it is the immediate
dominator, and when the dominance query is right.

**Decoding and control flow** (`Instructions`, `ControlFlow`, `BlockRules`, `BasicBlocks`,
`EntryPoints`, `Runs`, `Structuring`). Linear decoding over an abstract decoder, leaders, blocks,
edges appended in place on both sides. Machine steps and recorded edges justify each other, so
dominance speaks about executions. For entry points outside the stream it is said exactly when the
blocks still cut it.

**Symbolic execution** (`Text`, `Operands`, `Splitting`, `Notation`, `Shifts`, `Words`, `Exprs`,
`Normal`, `Folding`, `Values`, `Simplify`, `Machine`, `Opcodes`, `SymbolicRuns`, `Conditions`,
`ConditionForm`, `BlockAnalysis`, `DeadStores`, `BlockOptimizer`). Assembler text is parsed,
instructions become value nodes in a register map, and nodes are simplified in place while registers,
comparisons and statements share them. The node graph is a class whose links change; `Values.dfy`
reads it as expressions and shows that rewiring one node to a refinement keeps the meaning of all.
Whatever is shared, the result is the normal form, a pure function of the expression. A block ends in
the state and with the statements of its symbolic steps, and the registers stand for what a processor
defined by opcode leaves behind; the optimizer keeps behaviour under a stated condition.

**Expression parser** (`Grammar`, `Syntax`, `Printer`, `Parentheses`, `Divergence`,
`ExpressionParser`). The precedence chain as functions on the remaining tokens, a printer that it
inverts and that no token list for the same tree undercuts in parentheses, and the parser object with
its position and mark, proved to compute the functions. On some malformed argument lists the parser
runs forever; a scanner without trees decides which.

**Patterns** (`PatternIndex`, `Matching`, `MatchForm`, `Conflicts`, `Listing`, `ListingForm`,
`Names`). The opcode index under all changes, one alternative at one position, the indexed scan
against brute force, the greedy choice, the generator that accounts for every instruction, with the
exact condition on ranges in any position, and name deduplication.

Where methods are proved against a function of the model, the function is held against the source
once more in plain terms, so that a table read by both sides cannot hide an error: `BlockRules` for
the block builder, `Folding` for the simplifier, `Opcodes` for the analyzer, `Notation` for operands,
`ConditionForm` for conditions, `Syntax` for the grammar, `MatchForm` for matches, `ListingForm` for
the listing.

Conventions. Addresses and 64-bit numbers are naturals with wrap-around written out where it occurs;
values in expressions are 64-bit words. A library sort is represented by its result: members that
need one take any order the sort may return. Match rules, the decoder and the naming heuristics are
function parameters. Confidence is a real number.

Where code and documentation part ways the model follows the code. `docs/roadmap.md` speaks of 13
precedence levels; the parser has the ternary, eight binary levels, prefix, postfix and primaries.
The comments of `disasm/structure.go` name Lengauer and Tarjan; the closing pass is not theirs.

## Model

| member | source | states |
|---|---|---|
| `DfsTrees.AncestorsAreNested` | disasm/structure.go:170-188 | tree ancestry, read off the numbering intervals of the search, is transitive |
| `DfsTrees.ReachedIsClosed` | disasm/structure.go:170-190 | every vertex on a path from a numbered vertex is numbered |
| `DfsTrees.StaysInSubtree` | disasm/structure.go:170-188 | a path that never goes below the number of its first vertex stays in the subtree of that vertex (the path lemma of depth-first search) |
| `DfsTrees.TreePathIsPath` | disasm/structure.go:170-188 | tree descent is realised by a path of the graph whose vertices all lie on the tree path |
| `Dominators.DominatorPass.Visit` | disasm/structure.go:170-188 | the recursive search numbers the block, takes its successors in the order of the list, extends the tree built so far, keeps all search invariants, and terminates on every finite graph |
| `Dominators.DominatorPass.NumberBlocks` | disasm/structure.go:165-190 | after the search every invariant of the main loop holds at the highest number, and every block was found in turn: the blocks its parent lists before it have smaller numbers |
| `SearchOrders.NextParent` | disasm/structure.go:178-187 | the block numbered next hangs below the highest-numbered block that still has a successor without a number |
| `SearchOrders.NumberingIsUnique` | disasm/structure.go:170-190 | any two depth-first searches of one graph that take successors in list order give the same numbers |
| `SearchOrders.NumberedInOrder` | disasm/structure.go:178-187 | a graph in which every block lists the next one first is numbered in block order |
| `Dominators.DominatorPass.Compress` | disasm/structure.go:245-253 | compression points the vertex at its root with a label attaining the stretch minimum, keeps the forest sound, touches no vertex numbered later, and terminates |
| `Dominators.DominatorPass.Eval` | disasm/structure.go:234-243 | the result is on the uncompressed walk from the vertex to its root, root included, and its semidominator number is the least on that walk; the forest keeps its meaning |
| `LinkForests.WalkMinIsLeast` | disasm/structure.go:234-253 | the value of the naive walk is a lower bound of the semidominator numbers on the link path up to and including the root |
| `LinkForests.WalkMinIsAttained` | disasm/structure.go:234-253 | the value of the naive walk is attained by a vertex of that path |
| `LinkForests.LabelsGiveWalkMin` | disasm/structure.go:234-243 | whatever compression has happened, the better of a label and its root's label gives the answer of the naive walk |
| `LinkForests.LinkKeepsForest` | disasm/structure.go:230-232 | linking a vertex below its tree parent keeps every walk meaning and lowers the bound of linked numbers |
| `SemiLoops.ScanPredecessor` | disasm/structure.go:195-206 | one predecessor: the guess for w stays a true semipath start and bounds what the predecessor contributes |
| `SemiLoops.ScanIsComplete` | disasm/structure.go:193-206 | after all predecessors the guess is exactly the semidominator of w and differs from w |
| `SemiLoops.FlushOne` | disasm/structure.go:209-216 | both branches of the bucket pass store the least semidominator met between semi[v] and v |
| `SemiLoops.LinkAndFile` | disasm/structure.go:207-208 | filing w in the bucket of its semidominator and linking it starts the emptying of its parent's bucket with all invariants |
| `SemiLoops.RoundsAreComplete` | disasm/structure.go:193-218 | when the loop is done every semidominator is exact and every reached block but the entry has its idom from the bucket pass |
| `Dominators.DominatorPass.ScanPredecessors` | disasm/structure.go:193-206 | only semi[w] changes, and it becomes the exact semidominator of w |
| `Dominators.DominatorPass.FlushBucket` | disasm/structure.go:209-217 | every vertex of the parent's bucket gets its idom, the bucket is cleared, and the loop invariant moves down one number |
| `Dominators.DominatorPass.ProcessVertex` | disasm/structure.go:193-218 | one turn of the main loop carries the invariant from number i to i - 1 |
| `Dominators.DominatorPass.ComputeSemidominators` | disasm/structure.go:165-218 | for every finite graph with mirrored edge lists: exact semidominators and chain-minimum idoms for all reached blocks |
| `Semidominators.PredecessorsBoundSemiPaths` | disasm/structure.go:193-206 | Theorem 4 of Lengauer and Tarjan: a bound on the contribution of every predecessor bounds every semipath to w |
| `Semidominators.SemiIsAncestor` | disasm/structure.go:207-227 | the semidominator of a reached block other than the entry is a proper tree ancestor, at or above the parent |
| `Semidominators.DominatesExactly` | disasm/structure.go:209-216 | Theorem 2 of Lengauer and Tarjan with its converse, for every tree ancestor: it dominates the block if and only if no vertex below it on the way down has a semidominator above it |
| `Semidominators.ImmediateExactly` | disasm/structure.go:209-216 | a tree ancestor is the immediate dominator if and only if nothing bypasses it and every ancestor between it and the block is bypassed |
| `Semidominators.SemiIsImmediateDominatorExactly` | disasm/structure.go:209-216 | the branch test is exact: no lower semidominator in between if and only if semi[v] is the immediate dominator of v |
| `Semidominators.DominatorIsAncestor` | disasm/structure.go:209-216 | every dominator of a reached block is a tree ancestor of it |
| `Semidominators.DominatorsAboveChain` | disasm/structure.go:209-216 | a proper dominator of v is an ancestor of every semidominator met between semi[v] and v |
| `ClosingPasses.PreFinalExactly` | disasm/structure.go:209-216 | before the closing pass an entry equals semi[v] if and only if semi[v] is the immediate dominator |
| `ClosingPasses.PreFinalIsRightExactly` | disasm/structure.go:209-216 | for both branches, Theorem 3 of Lengauer and Tarjan at this table: the entry is the immediate dominator if and only if it dominates the block, if and only if some vertex below semi[v] whose semidominator it is has none bypassing that one |
| `ClosingPasses.PreFinalIsBelowDominators` | disasm/structure.go:209-216 | before the closing pass no entry is above the immediate dominator: every proper dominator of the block is an ancestor of the entry |
| `ClosingPasses.FinalStep` | disasm/structure.go:220-225 | one step of the closing pass never indexes with -1 and carries the half-finished table to the next number |
| `ClosingPasses.FinalDescends` | disasm/structure.go:220-227 | after the closing pass every idom is -1 or a reached block with a smaller number |
| `ClosingPasses.FinalKeepsExactly` | disasm/structure.go:220-227 | any entry, right or wrong and from either branch, survives the closing pass if and only if it equals semi[semi[v]] |
| `ClosingPasses.FinalKeepsSemiExactly` | disasm/structure.go:220-227 | where the semidominator is the immediate dominator, the entry survives if and only if it is the entry block |
| `ClosingPasses.FinalIsRightExactly` | disasm/structure.go:220-227 | the entry left after the closing pass is -1 or a proper tree ancestor; it dominates its block if and only if nothing bypasses it, and is the immediate dominator if and only if besides everything deeper is bypassed |
| `ClosingPasses.ChainsArePartialOrder` | disasm/structure.go:280-285 | following idoms is reflexive, antisymmetric and transitive on the blocks |
| `Dominators.DominatorPass.ClosingPass` | disasm/structure.go:220-227 | the table becomes, block by block, the result of the closing pass, with semidominators untouched |
| `Dominators.DominatorPass.ComputeDominators` | disasm/structure.go:165-228 | the whole pass: exact semidominators, chain-minimum idoms before the closing pass, afterwards a table that starts with -1 and descends in numbers, and a numbering in list order, so that graph and lists alone decide it |
| `Dominators.DominatorPass.DominatesByTable` | disasm/structure.go:280-285 | the query terminates for all arguments and answers membership in the idom chain, which is dominance where the table is right along the chain |
| `DominatorTables.DominatorHasChild` | disasm/structure.go:209-216 | a proper dominator other than the entry is semidominator and immediate dominator of its tree child on the way down |
| `DominatorTables.TableIsRightExactly` | disasm/structure.go:220-227 | the final table is right for all reached blocks if and only if, in the table before, an entry that is the semidominator is block 0 and the guard of the pass spares exactly the entries that are block 0 |
| `DominatorTables.RightTableIsFlat` | disasm/structure.go:220-227 | a right table needs a graph where no block but block 0 dominates another reached block |
| `DominatorTables.ChainLosesDominator` | disasm/structure.go:220-227 | on the chain 0, 1, 2 block 1 is the immediate dominator of block 2 and the table ends with 0 |
| `DominatorTables.QueryIsRightExactly` | disasm/structure.go:280-285 | for a reached block the query is dominance, whichever block is asked about, if and only if the table has the immediate dominator of every block on its chain |
| `DominatorTables.RightTableAnswers` | disasm/structure.go:280-285 | with a right table the query is dominance for every reached block |
| `EntryExamples.RightEntrySurvives` | disasm/structure.go:209-225 | a graph of five blocks where, by the order of the successor lists, the first branch stores the immediate dominator, which is not the entry block, and the closing pass keeps it |
| `EntryExamples.DeepEntryIsNoDominator` | disasm/structure.go:209-225 | a graph of six blocks whose last block, by the order of the successor lists, ends with an entry deeper than its immediate dominator that does not dominate it |
| `Instructions.DecodeStream` | disasm/disasm.go:74-107 | every instruction says what was decoded at its offset: place, size, opcode, the four flags, and as target the first displacement counted from the end of the instruction or the first immediate of a transfer, none for returns; addresses do not overlap; no decodable offset is passed over uncovered |
| `Instructions.DescribedRight` | disasm/disasm.go:86-160 | the record of a decoded instruction has the fields and the branch target its operands name |
| `Instructions.LayoutIsOrderedExactly` | disasm/disasm.go:74-107 | a decoded stream has increasing, non-overlapping 64-bit addresses if and only if the address counter does not wrap inside it |
| `Instructions.DecodedIsOrdered` | disasm/disasm.go:74-107 | what is decoded from a buffer below the top of the address space is an ordered stream, as the graph builder needs it |
| `BasicBlocks.IndexAddresses` | disasm/cfg.go:22-25 | the index holds exactly the addresses of the stream with their positions |
| `BasicBlocks.FindLeaders` | disasm/cfg.go:27-65 | the leader set is exactly: the first instruction, the entry points, targets inside the stream, and what follows a return, jump or call |
| `BasicBlocks.CutBlocks` | disasm/cfg.go:67-98 | the blocks are the slices between neighbouring leaders, in order, found by address, with no edges yet |
| `BasicBlocks.AddEdge` | disasm/cfg.go:133-136 | the edge is appended on both sides and the mirror property with multiplicity is kept |
| `BasicBlocks.ConnectBlock` | disasm/cfg.go:100-128 | the successors of the block become exactly its targets in order: transfers first, then what it falls into; mirror kept |
| `BasicBlocks.ConnectBlocks` | disasm/cfg.go:100-128 | all blocks get exactly their targets and successor and predecessor lists are mirror images with multiplicity |
| `BasicBlocks.BuildControlFlowGraph` | disasm/cfg.go:17-131 | for every ordered stream with entry points in it: blocks cut at the leaders, exact edges, mirrored lists; nothing for the empty stream |
| `EntryPoints.NoEmptySliceExactly` | disasm/cfg.go:67-98 | for any entry points: every block has an instruction, so that the builder does not panic, if and only if no entry point lies below the first address |
| `EntryPoints.CutsStreamExactly` | disasm/cfg.go:27-98 | for any entry points: the blocks are non-empty and concatenate to the stream if and only if every entry point is the address of an instruction |
| `BlockRules.LeaderExactly` | disasm/cfg.go:27-65 | an address begins a block if and only if it is the first, an entry point, or the address of an instruction to which a branch or call leads or before which a return, RET, JMP, JMPL, JMPQ or call cuts |
| `BlockRules.StepExactly` | disasm/cfg.go:100-128 | a run goes on where control passes to the next instruction or a branch or call leads, and nowhere else |
| `BlockRules.SuccessorsExactly` | disasm/cfg.go:100-128 | the successor list holds one entry for each transfer to the start of a block, in instruction order, then one for the block it passes into, and nothing else |
| `ControlFlow.BlocksPartitionStream` | disasm/cfg.go:67-98 | every block is non-empty and the blocks in order concatenate to the stream |
| `ControlFlow.StepFollowsGraph` | disasm/cfg.go:27-65 | every machine step stays on the next instruction of its block or follows a recorded edge to the first instruction of another |
| `ControlFlow.EdgeIsStep` | disasm/cfg.go:100-128 | every recorded edge is taken by some machine step out of its block, where a step falls through unless the flags of the instruction say it is a return or a jump |
| `Runs.RunTracesPath` | disasm/cfg.go:100-128 | every run traces a path of the graph and enters each block of the path at its first instruction |
| `Runs.DominatorIsOnEveryRun` | disasm/structure.go:165-218 | every run from the first instruction into a block has been at the first instruction of each of its dominators |
| `Structuring.ReadOffIsGraph` | disasm/cfg.go:100-136 | the graph read off finished blocks is well formed and has exactly the recorded edges |
| `Structuring.DominatorsOfStream` | disasm/structure.go:118-134 | from finished blocks to table: the pass runs on exactly the graph of the stream and yields exact semidominators and a descending idom table |
| `Structuring.EntryInTableIsOnEveryRun` | disasm/structure.go:193-218 | where the table before the closing pass names the semidominator, every run into the block has been at the start of that block |
| `Exprs.ApplyCongruence` | analysis/dfa/optimize.go:30-93 | an uninterpreted operation keeps its meaning and depends on no new names when its arguments are refined |
| `Values.TreeLocal` | analysis/dfa/optimize.go:30-93 | rewiring above a rank does not change what lower nodes stand for |
| `Values.RewirePreserves` | analysis/dfa/optimize.go:30-93 | rewiring one shared node to one with the same normal form and at least its meaning keeps meaning and normal form of every node of the heap |
| `Values.AddNode` | analysis/dfa/value.go:59-81 | a new node over existing ones, call arguments included, changes no meaning and keeps the graph acyclic |
| `Simplify.EvalConstBinOp` | analysis/dfa/optimize.go:95-119 | folding yields a constant exactly when the 64-bit operation has a value, and then that value |
| `Simplify.OpRuleRefines` | analysis/dfa/optimize.go:37-80 | every root rule on a binary node gives a value wherever the node has one, the same one, over no new names |
| `Simplify.OpRuleNormal` | analysis/dfa/optimize.go:37-80 | every root rule on a binary node keeps the normal form |
| `Simplify.NormalRefines` | analysis/dfa/optimize.go:30-93 | the normal form has a value wherever the expression has one, the same one, over no new names |
| `Normals.NormalIsStable` | analysis/dfa/optimize.go:30-93 | a normal form has no rule left to apply, and simplifying it again changes nothing |
| `Normals.SimpleIsNormal` | analysis/dfa/optimize.go:30-93 | rewriting that ends where no rule applies has arrived at the normal form, in whatever order the rules were used |
| `Folding.SumsMean` | analysis/dfa/optimize.go:97-112 | folded sums, differences and bit operations are those of 64-bit words |
| `Folding.ProductsMean` | analysis/dfa/optimize.go:101-102 | folded products are those of 64-bit words |
| `Folding.SignsMean` | analysis/dfa/optimize.go:80-89 | a sign computes negation or complement, and there is no other |
| `Folding.QuotientsMean` | analysis/dfa/optimize.go:103-106 | folded quotients are unsigned, and a division by zero is not folded |
| `Folding.ShiftsMean` | analysis/dfa/optimize.go:113-116 | folded shifts take the count as it is and are zero from 64 on |
| `Folding.ConstantsFold` | analysis/dfa/optimize.go:40-46 | two constants fold if and only if the operator is one of the nine and does not divide by zero |
| `Folding.SumsNormalize` | analysis/dfa/optimize.go:56-66 | a sum of simplified parts: constants fold, a constant goes to the right and goes away when zero, everything else stays |
| `Folding.ProductsNormalize` | analysis/dfa/optimize.go:67-77 | a product of simplified parts: constants fold, a factor of one goes away on either side, a zero absorbs from the right alone, everything else stays |
| `Folding.OthersStay` | analysis/dfa/optimize.go:40-54 | under any other operator constants fold, a register cancels against itself under - and ^, everything else stays |
| `Folding.SignsNormalize` | analysis/dfa/optimize.go:80-89 | a sign before a constant is computed, any other unary expression stays |
| `Folding.LeavesStay` | analysis/dfa/optimize.go:30-36 | constants, registers and operations without arguments stay |
| `Simplify.ApplySumRules` | analysis/dfa/optimize.go:56-67 | the sum rules, swap included, keep the meaning of every shared node and leave no rule to apply |
| `Simplify.ApplyRules` | analysis/dfa/optimize.go:37-80 | all root rules in order: meaning of every shared node kept, result refines, no rule left to apply |
| `Simplify.SimplifyBinary` | analysis/dfa/optimize.go:36-80 | both children first, in place, then the root rules: every node keeps its meaning and the result is finished |
| `Simplify.SimplifyValue` | analysis/dfa/optimize.go:30-93 | on any shared acyclic heap the result stands for the normal form of what the value stood for, a pure function of the expression (up to arguments, and exactly when there are none); every node keeps its meaning and its normal form, and nodes of higher rank and already simple ones are untouched |
| `Machine.StepTracks` | analysis/dfa/translate.go:44-200 | one supported instruction keeps every register expression, evaluated at entry, equal to the machine register modulo 2^64 |
| `Machine.ActionIsExecution` | analysis/dfa/translate.go:44-110 | the opcode table is right: what the analyzer takes an opcode for does to the registers what the processor, defined by opcode and 64-bit operation, does |
| `Machine.ShiftMatchesExactly` | analysis/dfa/translate.go:65-68 | symbolic and machine shift agree if and only if the count is below 64 or none of the bits the machine keeps at the masked count is set |
| `Shifts.LeftShiftIsZeroExactly` | analysis/dfa/translate.go:65-66 | a left shift gives zero if and only if none of the low bits it keeps is set |
| `Shifts.RightShiftIsZeroExactly` | analysis/dfa/translate.go:67-68 | a right shift gives zero if and only if none of the high bits it keeps is set |
| `Machine.ShiftBy64Differs` | analysis/dfa/translate.go:65-68 | a shift of 1 by 64 is 0 symbolically and 1 on the machine |
| `Machine.SimulatesCompose` | analysis/dfa/translate.go:27-42 | simulations of consecutive instruction sequences compose |
| `Machine.StepSimulates` | analysis/dfa/translate.go:44-110 | a symbolic step, simplified or not, simulates the processor on its opcode |
| `Machine.SimulationIsSound` | analysis/dfa/value.go:219-228 | after any sequence of executable instructions every register's expression evaluated in the entry register file is the processor's final value |
| `Opcodes.MovesTranslate` | analysis/dfa/translate.go:112-140 | the seven move opcodes: a register stands for the source, a new stack slot gets the next name, other destinations leave the state |
| `Opcodes.SourceStandsFor` | analysis/dfa/translate.go:315-330 | what a source operand stands for: a number, the register's current expression, a stack slot by name, or a load |
| `Opcodes.SlotIsCalled` | analysis/dfa/value.go:240-245 | a slot that was never written is called after its offset |
| `Opcodes.NumberIs` | analysis/dfa/parse.go:80-114 | an immediate is the 64-bit word of its number |
| `Opcodes.AddressesTranslate` | analysis/dfa/translate.go:142-153 | the two address opcodes: the register stands for the address of the memory operand |
| `Opcodes.OperationsTranslate` | analysis/dfa/translate.go:53-68 | each two-operand opcode with its operator: the destination stands for the operation on its old expression, left, and the source, right |
| `Opcodes.CountsTranslate` | analysis/dfa/translate.go:69-72 | the increments add one and the decrements subtract one |
| `Opcodes.SignsTranslate` | analysis/dfa/translate.go:73-76 | NEG stands for the negation and NOT for the complement |
| `Opcodes.ComparisonsTranslate` | analysis/dfa/translate.go:202-226 | the comparison puts its second operand left, both as written |
| `Opcodes.TestsTranslate` | analysis/dfa/translate.go:228-239 | the test takes what its registers stand for, in the order written |
| `Opcodes.OthersTranslate` | analysis/dfa/translate.go:83-109 | calls set AX, conditional sets write 1, returns and jumps leave the state |
| `Opcodes.TooFewOperands` | analysis/dfa/translate.go:112-271 | without the operands it needs an instruction leaves the state |
| `Opcodes.UnknownOpcode` | analysis/dfa/translate.go:44-110 | an opcode that is in none of the groups leaves the state |
| `Opcodes.MovesEmit` | analysis/dfa/translate.go:112-140 | a move into memory assigns the named stack slot or stores, with the source as value |
| `Opcodes.CountsEmit` | analysis/dfa/translate.go:172-187 | a count emits one assignment of the changed register |
| `Opcodes.NothingToWrite` | analysis/dfa/translate.go:112-187 | moves and counts without a destination emit nothing |
| `Opcodes.OthersEmitNothing` | analysis/dfa/translate.go:44-110 | no other opcode emits a statement |
| `Opcodes.TransfersEmit` | analysis/dfa/translate.go:83-105 | the statement of each transfer: kind, address, label, call target, returned value, condition sides in order |
| `SymbolicRuns.StepRefines` | analysis/dfa/translate.go:44-110 | a step from a state that means as much leads to a state that means as much |
| `SymbolicRuns.EmitRefines` | analysis/dfa/translate.go:44-110 | the statements of a step depend on what the state means and not on how it looks |
| `SymbolicRuns.LineRefines` | analysis/dfa/translate.go:33-42 | the same over all instructions of a line |
| `BlockAnalysis.BlockAnalyzer.GetReg` | analysis/dfa/value.go:219-224 | the node returned stands for the register's current expression and no meaning changes |
| `BlockAnalysis.BlockAnalyzer.SetReg` | analysis/dfa/value.go:226-228 | exactly one register's expression changes |
| `BlockAnalysis.BlockAnalyzer.GetStackSlot` | analysis/dfa/value.go:230-238 | a slot keeps its name, a new slot gets the next number, and no other slot has that name |
| `BlockAnalysis.NextSlot` | analysis/dfa/value.go:230-238 | naming a new slot keeps the names v0 to v(n-1) each given once, and the new name is not in use |
| `BlockAnalysis.BlockAnalyzer.ResolveSource` | analysis/dfa/translate.go:315-330 | the node stands for the operand: immediate, current register expression, named stack slot or load |
| `BlockAnalysis.BlockAnalyzer.TranslateMove` | analysis/dfa/translate.go:112-140 | register, stack-slot and memory destinations each change the state and emit statements as specified |
| `BlockAnalysis.BlockAnalyzer.TranslateLea` | analysis/dfa/translate.go:142-153 | the register stands for the address; nothing is emitted |
| `BlockAnalysis.BlockAnalyzer.TranslateBinOp` | analysis/dfa/translate.go:155-170 | the destination stands for the operation on its old expression and the source |
| `BlockAnalysis.BlockAnalyzer.TranslateIncDec` | analysis/dfa/translate.go:172-187 | the register stands for its old expression plus or minus one, and one assignment is emitted |
| `BlockAnalysis.BlockAnalyzer.TranslateUnary` | analysis/dfa/translate.go:189-200 | the register stands for the negation or complement of its old expression |
| `BlockAnalysis.BlockAnalyzer.TranslateCmp` | analysis/dfa/translate.go:202-226 | the comparison remembers its operands as written, memory only on the left |
| `BlockAnalysis.BlockAnalyzer.TranslateTest` | analysis/dfa/translate.go:228-239 | the comparison remembers what its registers currently stand for |
| `BlockAnalysis.BlockAnalyzer.TranslateCall` | analysis/dfa/translate.go:241-249 | AX stands for the call and one call statement is emitted |
| `BlockAnalysis.BlockAnalyzer.TranslateReturn` | analysis/dfa/translate.go:85-91 | the return carries the expression of AX unless it is a bare register |
| `BlockAnalysis.BlockAnalyzer.TranslateSet` | analysis/dfa/translate.go:261-271 | the register stands for the constant 1 |
| `BlockAnalysis.BlockAnalyzer.BuildCondition` | analysis/dfa/translate.go:273-282 | the text is that of the compared nodes after simplifying them where they sit, an underscore when a side is missing; both sides are fully simplified and have the meaning and normal form of the comparison, and every register, comparison and emitted statement keeps its meaning |
| `ConditionForm.JumpsPrint` | analysis/dfa/translate.go:294-312 | the relation each of the eight jumps prints between its sides |
| `ConditionForm.ValuesPrint` | analysis/dfa/translate.go:339-370 | the text of each kind of value: operands in order around the operator, arguments in order |
| `ConditionForm.RegistersPrint` | analysis/dfa/translate.go:346-347 | registers print in small letters |
| `ConditionForm.LoadsPrint` | analysis/dfa/translate.go:372-390 | loads and addresses print their base or their stack slot |
| `ConditionForm.SymbolLoadsPrint` | analysis/dfa/translate.go:376-384 | loads of symbols print the cleaned symbol and its offset |
| `ConditionForm.AlikePrintsZero` | analysis/dfa/translate.go:285-292 | sides that print alike read as a test for zero for the two jumps on equality and for no other |
| `ConditionForm.SymbolsAreCleaned` | analysis/dfa/emit.go:68-77 | what is left of a symbol is what follows its last dot, character by character |
| `ConditionForm.FunctionsPrint` | analysis/dfa/translate.go:392-400 | a function prints what follows the last dot of its name, or else the last slash, or all of it |
| `Conditions.PrintsAlikeExactly` | analysis/dfa/translate.go:285-312 | two jumps on the same comparison print alike if and only if they are the same up to the sign of the comparison |
| `Conditions.ReadsRightExactly` | analysis/dfa/translate.go:294-312 | read on unsigned words the printed relation is the jump if and only if the jump is unsigned or asks for equality, or the words have the same sign bit |
| `Conditions.ZeroFormExactly` | analysis/dfa/translate.go:285-292 | the form that tests for zero is right for a value tested against itself, and for a value compared with itself if and only if it is zero |
| `Conditions.LoadsPrintAlike` | analysis/dfa/translate.go:372-390 | loads from one base print alike whatever their offsets, so that comparing two of them for equality reads as a test for zero |
| `BlockAnalysis.BlockAnalyzer.TranslateCondJump` | analysis/dfa/translate.go:251-259 | earlier statements keep their meaning and one jump is appended, with its label and the text of the refined comparison, whose sides are the normal forms of what was compared |
| `BlockAnalysis.BlockAnalyzer.Translate` | analysis/dfa/translate.go:44-110 | every opcode has exactly its symbolic step and emitted statements, up to refinement after a conditional jump, which is worded for that opcode; no other instruction adds a conditional jump |
| `BlockAnalysis.BlockAnalyzer.TranslateInstruction` | analysis/dfa/translate.go:33-42 | the state is that of the symbolic steps in order and the statements are the earlier ones and then those of the steps, in order, all up to refinement; the jumps are worded for their opcodes; the processor is simulated |
| `BlockAnalysis.BlockAnalyzer.Analyze` | analysis/dfa/translate.go:27-31 | for every block: the state after all steps in order and exactly the statements of the steps in order, up to refinement, the conditional jumps worded for their opcodes in order; and for every entry register file the register nodes stand for what the processor leaves behind |
| `DeadStores.UsesExactly` | analysis/dfa/optimize.go:164-179 | what counts as a use: registers, below binary operations on either side and in call arguments; never below a sign, a load, an address or a symbol |
| `DeadStores.KeptExactly` | analysis/dfa/optimize.go:121-152 | with two assignments a name is kept if and only if a statement strictly between the first two uses it, with one if and only if that or a later statement does |
| `DeadStores.SettledIsKept` | analysis/dfa/optimize.go:121-152 | the two marking passes keep a name if and only if its first assignment is read before the next one, or anywhere from it on when there is no next one |
| `DeadStores.OptimizedBehaves` | analysis/dfa/optimize.go:121-162 | dropping assignments never read afterwards and refining values leaves every call, store, return and jump in order with at least the value, arguments and condition it had |
| `DeadStores.SameReadsExactly` | analysis/dfa/optimize.go:121-162 | for any set of dropped names: every statement that stays reads the definitions it read before if and only if no dropped name is read after an assignment to it |
| `DeadStores.DroppedNamesExactly` | analysis/dfa/optimize.go:121-162 | the same at the names the passes drop: every statement that stays reads what it read before if and only if no name whose first assignment is not worth keeping is read after it |
| `DeadStores.SingleAssignmentHasNoStaleRead` | analysis/dfa/optimize.go:121-162 | with single assignment and plain reads no dropped name is read after its assignment |
| `DeadStores.OptimizeKeepsBehaviour` | analysis/dfa/optimize.go:3-28 | with single assignment and plain reads the calls, stores, returns and jumps are kept from every starting environment, with the values, arguments and condition sides they had |
| `DeadStores.ReassignmentIsLost` | analysis/dfa/optimize.go:135-152 | two assignments and then a read: both are dropped and the read sees the entry value |
| `DeadStores.NegatedReadIsLost` | analysis/dfa/optimize.go:185-202 | a read under a negation does not count as a use, so its assignment is dropped |
| `DeadStores.ConditionReadIsLost` | analysis/dfa/optimize.go:122-153 | a read in the condition of a jump does not count as a use, so an assignment made only for a test is dropped and the test sees the entry value |
| `BlockOptimizer.CollectUses` | analysis/dfa/optimize.go:164-179 | exactly the names used by the value are marked in addition |
| `BlockOptimizer.ValueUsesVar` | analysis/dfa/optimize.go:185-202 | true if and only if the value uses the name |
| `BlockOptimizer.MarkUses` | analysis/dfa/optimize.go:122-137 | the first pass marks exactly the names read after their last assignment or by it |
| `DeadStores.MarkedMeans` | analysis/dfa/optimize.go:122-137 | the value of anything but a goto or an expression marks the names it uses; an assignment that does not use its own name clears it |
| `BlockOptimizer.SettleUses` | analysis/dfa/optimize.go:139-153 | the backward pass lets each assignment, the earliest last, decide by the first later read or assignment of its name |
| `BlockOptimizer.EliminateDeadStores` | analysis/dfa/optimize.go:121-162 | the result is the statements at positions that increase: every statement but assignments, and the assignments to the names that are kept |
| `BlockOptimizer.SimplifyArgs` | analysis/dfa/optimize.go:17-23 | the arguments are simplified in turn, each in its place: all come out fully simplified and refine what they were, though earlier ones may share nodes with later ones |
| `BlockOptimizer.SimplifyStatement` | analysis/dfa/optimize.go:9-25 | values of assignments, returns, stores, calls and expressions, and the arguments of the last two, come out fully simplified; jumps and everything else in a statement are untouched; the statement refines what it was |
| `BlockOptimizer.OptimizeBlock` | analysis/dfa/optimize.go:3-28 | the result is the simplified statements at increasing positions, all but the dropped assignments, with nothing but values and arguments changed; every heap node keeps its meaning; for statements as the analyzer builds them the result is a function of the input, the survivors of the normal forms; the input statements keep all but their arguments, which become the simplified ones; and behaviour is kept from every starting environment when no dropped name is read after its assignment, which single assignment and plain reads ensure |
| `BlockOptimizer.AllSimplifiedAreNormal` | analysis/dfa/optimize.go:9-25 | statements without arguments inside values come out as their normal forms, whatever they share |
| `BlockOptimizer.SimplifyingLosesRead` | analysis/dfa/optimize.go:3-28 | simplifying can take away the only read that counts: a block without stale reads has one afterwards |
| `Text.ParseImmediateOfFmtHex` | analysis/dfa/parse.go:216-256 | printing any 64-bit number in hexadecimal and reading it as an immediate gives it back, with or without the dollar sign |
| `Text.ParseIntOfPrinted` | analysis/dfa/parse.go:120-175 | signed 64-bit numbers survive printing and both readers |
| `Notation.NumberExactly` | analysis/dfa/parse.go:216-227 | a text is a number in a base if and only if each character is a digit of it and their worth by place fits into 64 bits; that worth is the number |
| `Notation.PrintedExactly` | analysis/dfa/parse.go:251-256 | a number prints as lower-case digits worth it by place, without leading zeros |
| `Notation.DigitsAre` | analysis/dfa/parse.go:216-225 | what each character is worth as a digit |
| `Notation.BasePrefixes` | analysis/dfa/parse.go:216-225 | the prefixes 0x, 0b and 0o in either case name the bases |
| `Notation.NoPrefix` | analysis/dfa/parse.go:216-225 | without a prefix a number is decimal, after a zero octal |
| `Notation.HexFrom` | analysis/dfa/parse.go:251-256 | numbers print in hexadecimal from 65536 on |
| `Notation.TrimmingExactly` | analysis/dfa/parse.go:23-36 | trimming takes the white space off both ends and nothing else |
| `Notation.SpacesAre` | analysis/dfa/parse.go:23-36 | which characters are white space |
| `Notation.RegistersAre` | analysis/dfa/parse.go:10-19 | which names are registers |
| `Notation.OperandsAre` | analysis/dfa/parse.go:80-114 | what an operand is, case by case in the order of the tests |
| `Notation.OperandsRead` | analysis/dfa/parse.go:80-114 | every 64-bit number behind a dollar sign and every register reads back |
| `Notation.NotClosed` | analysis/dfa/parse.go:139-154 | of a reference that is not closed the offset is kept, if it can be read |
| `Notation.BrokenIndex` | analysis/dfa/parse.go:159-172 | an index without a star is passed over, a scale that is no number is zero |
| `Notation.ReferencesPrint` | analysis/dfa/value.go:123-143 | the text of references without an index |
| `Notation.IndexedPrints` | analysis/dfa/value.go:123-143 | the text of an indexed reference |
| `Notation.SeparatorsAre` | analysis/dfa/parse.go:23-67 | what stands between operands, and between opcode and operands |
| `Notation.CommasSeparate` | analysis/dfa/parse.go:38-77 | outside parentheses a comma separates operands unless it follows a scale |
| `Notation.ParenthesesKeepCommas` | analysis/dfa/parse.go:38-67 | inside parentheses a comma never separates |
| `Notation.PiecesExactly` | analysis/dfa/parse.go:199-201 | splitting a line loses nothing and leaves no separator in a piece |
| `Notation.LinesAre` | analysis/dfa/parse.go:195-213 | a line is one instruction or several between semicolons, empty ones passed over |
| `Notation.CallsName` | analysis/dfa/parse.go:229-239 | a call names what stands before (SB), or its operand, and anything else names nothing |
| `Notation.CallReads` | analysis/dfa/parse.go:229-239 | the name printed in a call is the name read |
| `Operands.FindMatchingParen` | analysis/dfa/parse.go:177-191 | the text before the position found keeps nesting depth one or more and with it the depth is zero; when -1 is returned the depth stays one or more to the end |
| `Operands.SymbolRoundTripExactly` | analysis/dfa/value.go:123-143 | a printed symbol reference reads back as itself if and only if its symbol is readable |
| `Operands.BasedRoundTrip` | analysis/dfa/parse.go:120-175 | every well-formed offset, base, index and scale reference reads back as itself |
| `Splitting.SplitPlan9Operands` | analysis/dfa/parse.go:38-67 | the loop computes the operand splitting with depth and scale context |
| `Splitting.SplitOfJoined` | analysis/dfa/parse.go:38-77 | splitting undoes joining with a comma and a space for every list of balanced operands |
| `Splitting.InstructionRoundTrip` | analysis/dfa/parse.go:23-36 | an instruction text splits back into its opcode and its balanced operands |
| `Printer.RoundTrip` | pattern/lang/parser/parser.go:1071-1272 | for every printable tree, level and non-continuing suffix, parsing the minimally parenthesized tokens gives the tree back and stops at the suffix |
| `Syntax.TighterBindsFirst` | pattern/lang/parser/parser.go:1087-1165 | for any two binary operators of the eight classes, loosest first as the level functions stand: the later class binds first, and of one class the left operator does |
| `Syntax.TernaryIsLoosest` | pattern/lang/parser/parser.go:1075-1085 | the ternary is looser than every binary operator |
| `Syntax.PrefixIsTightest` | pattern/lang/parser/parser.go:1167-1174 | prefix operators are tighter than every binary operator |
| `Syntax.ParenthesesBindFirst` | pattern/lang/parser/parser.go:1247-1264 | parentheses turn the order round |
| `Syntax.PostfixReads` | pattern/lang/parser/parser.go:1193-1209 | member, scope, index and cast forms and what they are read as |
| `Syntax.CallReads` | pattern/lang/parser/parser.go:1181-1192 | calls with none, one and two arguments and what they are read as |
| `Syntax.TokensRead` | pattern/lang/parser/parser.go:1216-1246 | what each single token is read as |
| `Syntax.CastExactly` | pattern/lang/parser/parser.go:1247-1264 | a name in parentheses is a cast if and only if an opening parenthesis, an integer or a name follows |
| `Syntax.TypesRead` | pattern/lang/parser/parser.go:844-867 | which words in front of a type are passed over, and scoped type names |
| `Printer.Spine` | pattern/lang/parser/parser.go:1087-1165 | left associativity: having read the printed form, a binary level holds the tree as left operand whatever operator follows |
| `Printer.TernaryTrip` | pattern/lang/parser/parser.go:1075-1085 | ternaries nest to the right and come back |
| `Printer.PostfixSpine` | pattern/lang/parser/parser.go:1176-1214 | calls, indices, members, scopes and casts come back left to right |
| `Printer.NotACast` | pattern/lang/parser/parser.go:1247-1264 | what a printer puts between parentheses is never taken for a cast |
| `Printer.ParenTrip` | pattern/lang/parser/parser.go:1247-1264 | parentheses: the cast guess is undone by the mark and the inner tree comes back |
| `Printer.ArgsTrip` | pattern/lang/parser/parser.go:1182-1190 | argument lists of any length come back |
| `Printer.PrintIsInjective` | pattern/lang/parser/parser.go:1071-1272 | two different trees never print alike |
| `Printer.ParenthesizedNameIsACast` | pattern/lang/parser/parser.go:1251-1259 | a parenthesized name before another name is read as a cast |
| `Parentheses.FewestParentheses` | pattern/lang/parser/parser.go:1071-1272 | whatever token list the parser reads as a tree, at least as many opening parentheses were read as the printed form has, second pairs behind a dollar sign aside |
| `Parentheses.EveryPairIsNeeded` | pattern/lang/parser/parser.go:1071-1272 | a printed form that loses any one of its pairs of parentheses is not read as the tree |
| `Parentheses.SecondPairIsNeeded` | pattern/lang/parser/parser.go:1247-1264 | a scoped plain name in one pair of parentheses before an operand is read as a cast of that operand |
| `Divergence.UnreadExactly` | pattern/lang/parser/parser.go:1071-1272 | an expression that parses gives its tokens back unread if and only if the first of them is the end of input, a closing parenthesis or bracket, a comma, a semicolon, a colon or an unknown token |
| `Divergence.RoundIsStuckExactly` | pattern/lang/parser/parser.go:1182-1191 | a round of the argument loop whose expression parses makes no progress if and only if it begins with a closing bracket, a semicolon, a colon or an unknown token |
| `Divergence.DivergesExactly` | pattern/lang/parser/parser.go:1071-1272 | the parser runs forever if and only if one pass over the tokens with a stack of open constructs, which builds no tree, gets stuck at the start of a round of arguments; otherwise both stop at the same token |
| `Divergence.NoBlockingTokenNoDivergence` | pattern/lang/parser/parser.go:1071-1272 | a token list without those four kinds of token is always parsed in finitely many steps |
| `Divergence.CallDiverges` | pattern/lang/parser/parser.go:1182-1191 | a call whose argument list begins with any of the four makes the parser run forever, whatever follows |
| `ExpressionParser.Parser.ExpectToken` | pattern/lang/parser/parser.go:1306-1312 | the position moves only when the type fits; the current token is returned either way |
| `ExpressionParser.Parser.TypeHere` | pattern/lang/parser/parser.go:844-867 | the type and the remaining tokens are those of the grammar |
| `ExpressionParser.Parser.Expression` | pattern/lang/parser/parser.go:1071-1085 | tree, remaining tokens and divergence are those of the grammar |
| `ExpressionParser.Parser.BinaryLevel` | pattern/lang/parser/parser.go:1087-1165 | each of the eight loops computes the left-associative level of the grammar |
| `ExpressionParser.Parser.PrefixExpression` | pattern/lang/parser/parser.go:1167-1174 | prefix operators nest to the right as in the grammar |
| `ExpressionParser.Parser.PostfixExpression` | pattern/lang/parser/parser.go:1176-1214 | the postfix loop computes the grammar and reports divergence exactly where it occurs |
| `ExpressionParser.Parser.Arguments` | pattern/lang/parser/parser.go:1182-1191 | the argument loop ends exactly when every round makes progress |
| `ExpressionParser.Parser.Primary` | pattern/lang/parser/parser.go:1216-1272 | primaries as in the grammar, keywords taken as names before the dead cases |
| `ExpressionParser.Parser.Parenthesized` | pattern/lang/parser/parser.go:1247-1264 | mark and reset: a failed cast guess leaves no trace |
| `PatternIndex.IndexIsUnique` | database/database.go:290-301 | two indexes of the same list are equal, keys, order and duplicates included |
| `PatternIndex.FiledExactly` | database/database.go:290-301 | a pattern is filed under an opcode if and only if it is in the list and an alternative begins with it |
| `PatternIndex.BucketsJoin` | database/database.go:290-301 | patterns are filed in the order of the list |
| `PatternIndex.FiledPerAlternative` | database/database.go:290-301 | a pattern is filed once for each alternative that begins with the opcode |
| `PatternIndex.AddToIndex` | database/database.go:348-357 | adding a pattern to the index of a list gives the index of the longer list |
| `PatternIndex.BuildIndex` | pattern/matcher/matcher.go:43-51 | the index of a list from scratch |
| `PatternIndex.Database.AddPattern` | database/database.go:348-357 | the list grows by the pattern and the index stays the one a rebuild gives |
| `PatternIndex.Database.DeregisterPattern` | database/database.go:257-271 | the first pattern of the name goes and the index is rebuilt; failure, with no change, if and only if there is none |
| `PatternIndex.Database.DeregisterAll` | database/database.go:275-288 | every pattern of the library goes, the count is right, and the index is rebuilt |
| `PatternIndex.FirstGoes` | database/database.go:257-271 | by name the first pattern goes and the rest stay in order |
| `PatternIndex.LibraryLeavesInOrder` | database/database.go:275-288 | by library all go and the rest stay in order |
| `PatternIndex.DeregisterUndoesRegister` | database/database.go:251-271 | deregistering a new name right after registering it restores the list |
| `PatternIndex.LibraryRemovalExactly` | database/database.go:275-288 | a library removal keeps every other pattern with its multiplicity and nothing of the library |
| `PatternIndex.LibraryGoneByName` | database/database.go:257-288 | a name that only a removed library used is no longer found |
| `Matching.TryMatch` | pattern/matcher/matcher.go:104-162 | success if and only if the non-label instructions match consecutively with bindings threaded left to right and a label at the end has an instruction behind it; returns bindings, last index, and the confidence of the alternative |
| `Matching.ConfidenceExactly` | pattern/matcher/matcher.go:145-154 | confidence lies in (0, 1] and is 1 if and only if wildcards are at most a tenth of operands per matched instruction |
| `Matching.ConfidenceIs` | pattern/matcher/matcher.go:145-154 | the confidence, cleared of fractions: full without operands, and where it is not full ten times the operands that are no wildcards plus a tenth per matched instruction, over the operands |
| `Matching.WildcardsCostConfidence` | pattern/matcher/matcher.go:145-154 | at equal length and number of operands more wildcards never give more confidence |
| `Matching.CountsAdd` | pattern/matcher/matcher.go:112-140 | labels are left out; operands and wildcards are counted over the instructions that are left |
| `MatchForm.MatchesExactly` | pattern/matcher/matcher.go:104-143 | an alternative matches if and only if it fits and its instructions are accepted one after the other, with bindings that start empty and go on from each to the next |
| `MatchForm.MatchIs` | pattern/matcher/matcher.go:104-162 | the bindings are those at the end of the chain, the end is the last instruction matched |
| `MatchForm.RecordIs` | pattern/matcher/matcher.go:80-91 | the record of a match: pattern, alternative, bindings, confidence, the address of its first instruction and the one behind its last |
| `MatchForm.HitsExactly` | pattern/matcher/matcher.go:61-81 | a pattern is tried where its first opcode stands, in any case, and never where no opcode is |
| `MatchForm.UpperIs` | pattern/matcher/matcher.go:65-76 | opcodes are compared as capitals |
| `MatchForm.ScanGoesUp` | pattern/matcher/matcher.go:61-99 | raw matches are found from the first position of the stream to the last |
| `MatchForm.CandidatesInOrder` | pattern/matcher/matcher.go:71-98 | at one position the candidates are tried in the order in which they are filed |
| `MatchForm.AlternativesGoUp` | pattern/matcher/matcher.go:72-97 | of one pattern the alternatives are tried in order |
| `MatchForm.FirstTenThousand` | pattern/matcher/matcher.go:91-95 | ten thousand raw matches are kept at most, the first ones |
| `Matching.HitRangeExactly` | pattern/matcher/matcher.go:76-88 | the range of a match holds exactly the matched instructions; for labels alone it is empty, but for the first position, where it holds the first instruction |
| `Matching.IndexFindsExactly` | pattern/matcher/matcher.go:57-102 | through the index exactly the triples are found that brute force finds |
| `Matching.Matcher.FindRaw` | pattern/matcher/matcher.go:57-102 | every raw match is a brute-force hit, and below the limit every brute-force hit is found |
| `Matching.Matcher.ScanAll` | pattern/matcher/matcher.go:57-102 | the raw matches in scan order, cut at the limit |
| `Conflicts.GreedyIsDisjoint` | pattern/matcher/matcher.go:467-481 | kept matches do not overlap, for any order |
| `Conflicts.OverlapsExactly` | pattern/matcher/matcher.go:467-481 | two ranges overlap if and only if some address lies in both |
| `Conflicts.OutdoneMeans` | pattern/matcher/matcher.go:460-481 | to be outdone is to share an address with a kept match of more confidence, or as much and no shorter a range |
| `Conflicts.DroppedAreOutdone` | pattern/matcher/matcher.go:460-481 | every dropped copy overlaps a kept match that is no worse in confidence and length |
| `Conflicts.NoTiesOneOrder` | pattern/matcher/matcher.go:460-465 | without ties the sort can return one order only |
| `Conflicts.ResolveConflicts` | pattern/matcher/matcher.go:452-482 | for every order the sort may return: a non-overlapping sub-multiset whose dropped matches are all outdone |
| `Conflicts.FindMatches` | pattern/matcher/matcher.go:57-102 | scan and conflict resolution together: kept matches are brute-force hits without overlap, and below the limit every hit is kept or outdone by a kept one, whatever the sort does with ties |
| `Listing.DisjointInOrderIsChain` | pattern/generate/generate.go:52-54 | disjoint non-empty ranges sorted by start lie one behind the other |
| `Listing.ListedExactly` | pattern/generate/generate.go:51-82 | with ranges one behind the other every instruction is inside exactly one range, listed once, or unlisted noise, and only one of these |
| `Listing.ListedRightExactly` | pattern/generate/generate.go:51-82 | for ranges in any position, overlapping, empty or backwards: an instruction that is no noise is listed as it should be if and only if no range runs backwards over it and, if any range holds it, the last range to begin at or before it does |
| `Listing.PlacesExactly` | pattern/generate/generate.go:56-79 | the number of gaps that hold an address, the rest behind the last range included, is one outside all ranges and zero inside one if and only if the ranges are well placed around it |
| `Listing.EveryMatchExpanded` | pattern/generate/generate.go:64-71 | every match is expanded as often as it occurs |
| `Listing.BackwardRangeListsTwice` | pattern/generate/generate.go:56-79 | a range that runs backwards over an instruction makes it appear twice |
| `Listing.ListingInOrder` | pattern/generate/generate.go:56-79 | the output goes up in addresses |
| `Listing.ScanToListing` | pattern/generate/generate.go:51-82 | for any non-overlapping choice of the matches a scan found: every instruction is inside exactly one range, listed once, or unlisted noise |
| `ListingForm.RawExactly` | pattern/generate/generate.go:776-795 | a raw range is empty when nothing is to be listed, and otherwise a header and then the instructions in range that are no noise, in stream order |
| `ListingForm.NoiseExactly` | pattern/generate/generate.go:776-786 | which opcodes are noise |
| `ListingForm.HeadersExactly` | pattern/generate/generate.go:51-82 | in the whole output every run of lines has one header in front, and there are no others |
| `ListingForm.MatchesInOrder` | pattern/generate/generate.go:64-71 | the matches are expanded in the order of the sorted list |
| `Listing.Generator.EmitRawRange` | pattern/generate/generate.go:776-795 | the instructions of the range without noise, under a header only if there are any |
| `Listing.Generator.Generate` | pattern/generate/generate.go:51-82 | for any matches: each is expanded as often as it occurs, and instructions are listed right exactly where the ranges are well placed; for disjoint non-empty matches each instruction is accounted for once, in one range at most, with addresses increasing |
| `Listing.Decompile` | pattern/generate/generate.go:51-82 | from patterns to output: every instruction is inside exactly one kept match, listed once, or unlisted noise, and every kept match is expanded as often as it occurs |
| `Names.CandidatesDiffer` | pattern/generate/generate.go:898-904 | the numbered candidates of a base name are pairwise different |
| `Names.CandidatesAre` | pattern/generate/generate.go:898-904 | the base name comes first, then the base with _1, _2 and so on |
| `Names.BasesAre` | pattern/generate/generate.go:145-201 | structures without a name and functions with nothing left are passed over, the others ask for their sanitized names in order |
| `Names.DeduplicateName` | pattern/generate/generate.go:898-904 | terminates for every finite set of taken names and returns the first candidate that is free |
| `Names.PackageNames` | pattern/generate/generate.go:145-201 | all declaration names of one file are pairwise different, each the first free candidate of its base |

## Left out

- Dominators: post-dominators, loop identification and block classification (`disasm/structure.go:255-441`), and what the generator does with them; they run on tables that are never filled.
- Dominators.DominatorPass.ComputeDominators: does not claim that the final table holds immediate dominators, because the closing pass breaks it; `ClosingPasses.FinalIsRightExactly` says for each block, and `DominatorTables.TableIsRightExactly` for the table, exactly when it does.
- Dominators.DominatorPass.constructor: the fields of the structured blocks are kept as one sequence per field instead of one object per block.
- BasicBlocks.BuildControlFlowGraph: requires entry points that are addresses of the stream, because by `EntryPoints.CutsStreamExactly` the blocks are otherwise empty or overlap; the edges of overlapping blocks are not modelled.
- ControlFlow.EdgeIsStep: the step relation falls through wherever the flags of the code do, `IRET` included, so an edge behind such an instruction is justified by the step of the model only.
- BasicBlocks.Sort: the library sort of addresses, written as a selection so that the builder can call it.
- Instructions.DecodeStream: x86 decoding and the three text syntaxes are the abstract decoder; symbol lookup and raw bytes of an instruction are not kept.
- Text: digit separators (`_`) inside numbers, which the Go number readers accept after a base prefix.
- Operands.SymbolRoundTripExactly: symbols with outer spaces, a leading `$`, an inner `(SB)`, or a `+` without an offset do not read back; the condition says exactly which do.
- Simplify.SimplifyValue: node identifiers, sizes and type hints, which no rule looks at.
- BlockAnalysis.BlockAnalyzer.Analyze: memory operands, 32-bit forms, `MULQ`, three-operand `IMULQ`, negative immediates, calls and returns end the simulated sequence; their symbolic effect and emitted statements are modelled, their effect on the machine is not.
- BlockAnalysis.BlockAnalyzer.BuildCondition: an address node without a memory reference is one whose reference is empty, so its text is that of its child; letters outside ASCII are not lower-cased.
- BlockAnalysis.BlockAnalyzer.constructor: parameters bound to registers at entry, which stand for the registers themselves.
- BlockOptimizer.OptimizeBlock: register names inside the text of store destinations and loads do not count as reads.
- DeadStores.OptimizeKeepsBehaviour: is stated under single assignment and plain reads; `ReassignmentIsLost`, `NegatedReadIsLost` and `ConditionReadIsLost` show that neither can be dropped, and `DroppedNamesExactly` gives the exact condition, on the normal forms of the input by `BlockOptimizer.OptimizeBlock`.
- Printer.RoundTrip: literals keep their token but no numeric value (the parser stores none).
- Parentheses.FewestParentheses: allows for a second pair around a scoped plain name behind `$`, which the printer always puts so that the form reads back before every suffix.
- ExpressionParser.Parser.BinaryLevel: the eight level functions of the parser are one method with the level as parameter; line and column of tokens are not kept.
- Grammar: declarations, statements and match expressions (dead code in expressions: keywords are taken as names first); the termination of the other loops of the pattern parser.
- PatternIndex.Database.DeregisterPattern: the list is a value; that Go shifts the shared backing array of the slice in place, under the feet of anyone who kept the old slice, is not modelled.
- PatternIndex: letters outside ASCII in opcodes, loading of pattern files and syscall tables.
- Matching.Matcher.FindRaw: operand matching and fuzzy call names are the given rules.
- Matching.TryMatch: confidence is computed without rounding.
- Listing.Generator.Generate: the text of templates and instruction lines; pieces of output stand for them.
- Names.PackageNames: name sanitizing and signature guessing are function parameters; writing the files is not modelled.
