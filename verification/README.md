# A verified model of an SSA compiler middle end

The project models the analyses and passes of a small SSA compiler (C++ headers under `include/`) and proves what
they promise. The core is the chain that ends in register allocation:

    depth-first search -> dominator tree -> loop tree -> linear order -> liveness intervals -> linear scan

Beside it stand the path-compressing union-find that the dominator tree uses, elimination of redundant checks over
the dominator tree, constant folding with its use-def chains, and the intrusive circular list.

Code that changes state step by step is modelled as classes and methods with loops, in the shape of the original.
Each such method is proved equal to a function on values (`RegAlloc.Scan`, `Dfs.Trace`, `Dsu.Find`,
`Liveness.FinalIntervals`, `ConstantFold.Run`, ...) or against the property itself, and the theorems about whole runs
are lemmas about those functions. Entry points that put everything together are `Pipeline.AllocateRegisters`,
`ChecksElimination.Run` and `FoldPass.Pass.RunOn`.

Main results:

- **Register allocation.** Any run of the linear scan that finishes is safe (overlapping values never share a
  register), conserves registers and spills as few values as possible, even when equal interval ends make the active
  set refuse an interval. It fails to finish if and only if, after the first refusal, the kept intervals crowd all
  registers at some begin; with distinct ends that never happens, and four concrete intervals show that it can
  happen with equal ones. Rules that do not mention the pool determine every location: a value gets the register given
  back last, or the next one never used.
- **End to end.** Two values that are live (in the sense of paths) at the same position, or of which one is defined
  where the other is live, are given different locations: on acyclic functions, and on functions with loops if the
  recorded loop extents span the loops, for values that no PHI reads on an edge to an earlier block.
- **Liveness with loops.** On every function the stored sets are exactly liveness along paths that lead forward in the
  order, and both ends of every interval are told exactly by what those sets see, by definitions and by loop extents.
  The sweep is exact at the end of every block if and only if it leaves no backward edge with something to hand back.
  On a graph with one loop the computed extents span it if and only if it was found to be reducible and its record
  lists every block after the ones it leads to: a body without branches past the header always does, a body that forks
  never does. Two small functions show values that are live but not covered, one because of a PHI on the back edge, one
  because of a branch.
- **Depth-first search.** On any finite multigraph: reached blocks are discovered and finished once, edges are
  back edges or lead forward in reverse postorder, back edges are exactly those to the current search path, and
  there is one if and only if the reached part has a cycle. A rule about the next call, given the calls so far,
  determines the whole sequence of calls.
- **Loop tree and linear order.** For any number of loops, nested, overlapping or irreducible: the records are told by
  the reported edges; a block that was not tied belongs to the first loop, by reverse postorder of the tied blocks, to
  whose back edges it leads past the header and the earlier marks; a loop is nested in the first other loop whose
  search meets it; bodies are filled along walks that the graph determines; and the linear order lists what two
  places of a body contribute in reverse, inner loops included.
- **Union-find and dominator tree.** `find` with compression to labels always returns the nearest vertex of least sdom
  on the whole uncompressed link path, after any interleaving of finds, merges and decreases. The tree built on it is
  determined by the graph. It never misses a dominator of the graph with an extra step from every block to the one
  discovered next, and it is the dominator tree of that graph if and only if the semidominators set no trap.
- **Check elimination** leaves exactly the minimal checks of the covering order, whatever the visiting order of users,
  and on graphs without traps every execution that comes to a lost check has passed one that tests the same.
- **Constant folding** preserves the executions of the function in both directions over the whole loop if no visit
  folds an `LE` or `GE` of equal values, which the code before the pass decides, and keeps none of them otherwise; it is
  defined exactly when every visit with known operands is; and on strict SSA one pass reaches the fixpoint.
- **Intrusive list.** Insertion, removal and splicing keep rings intact, between two lists and within one.

Conventions: blocks, values and instructions are named by natural numbers in place of pointers. Iteration over hash
containers and the ties that `std::sort` may break either way are left open (any order is allowed), so the results
hold for each of them. `size_t` numbers are unbounded; the widths of folded constants are modelled.

Where the code departs from what its names or comments suggest, the model follows the code:

- `LE` and `GE` are folded as strict comparisons (include/opt_passes/constant_fold.hh:98-103):
  `ConstEval.OrderMeansIffDifferent` and the condition `ConstantFold.Misread`.
- `is_really_need_folding` accepts instructions without operands, and folding one is undefined
  (include/opt_passes/constant_fold.hh:44-50, :138-143): `ConstantFold.RunDefinedIff`.
- An eliminated check is deleted while its users keep it as an operand (include/opt_passes/checks_elimination.hh:94-118),
  so a later visit may touch it: `ChecksElimination.Dangles` says when.
- PHI operands on edges to earlier blocks are not made live (include/analysis/liveness_analyzer.hh:205-221):
  `LiveLoops.BackPhiIsMissed`.
- A loop body is listed in the reverse of the order in which a search over predecessors meets it
  (include/analysis/loop_analyzer.hh:253-280, include/analysis/linear_order.hh:56-69), so an arm of a branch inside a
  loop comes before the branch itself. The edge between them then leads backward to a block that heads no loop, and
  what the arm reads is not made live at the branch: `LiveLimits.BranchIsMissed`, and for all graphs with a single
  loop `LoopExtents.StraightOrForked`.
- `m_active` is keyed by the interval end alone, so an insertion can be refused
  (include/analysis/reg_alloc.hh:46): `RegAlloc.EqualEndsStarve`.
- A block that an edge was reported from, before one was reported to it, heads no loop, although it is the target of a
  back edge (include/analysis/loop_analyzer.hh:175-190): `LoopRecords.HeadsLoopIff`.
- Outer loops are searched first, so a block of an inner loop that is no end of a back edge may belong to the outer one
  (include/analysis/loop_analyzer.hh:219-241): `LoopTurns.UntiedJoins`.
- The header of an inner loop is passed over where the outer body is listed, so it comes at its own turn, behind the
  blocks of its loop (include/analysis/linear_order.hh:60-66): `LinearOrder.ListedHeadsNone`.
- The sorting comparator compares an end with a begin (include/analysis/reg_alloc.hh:83); this is harmless:
  `Intervals.ScanOrderIsLexicographic`.
- A bounds check never compares the first operands (include/opt_passes/checks_elimination.hh:112-114):
  `ChecksElimination.AcceptsSameOperands`.
- The parent recorded by the dominator tree builder is the node discovered just before, not the parent in the search
  tree (include/graph/dom3.hh:166-167), and `find` looks at the root as well (include/graph/dsu.hh:61-68), so the result
  is one tree (`Dominance.ComputedUnique`), but not always the dominator tree: `DomTreeLimits.TreeIsNotDominance`,
  `Dominance.TreeIsDominanceIff`.
- `replace_users` applied to a value itself forgets its users (include/IR/instruction.hh:161-168):
  `UseDef.ReplaceUsersSymmetric`.

## Model

| member | source | states |
|---|---|---|
| Intervals.Interval.Hull | include/IR/basic_block.hh:38-41 | `update` covers every point that either interval covers and invents no end point |
| Intervals.ScanOrderIsLexicographic | include/analysis/reg_alloc.hh:78-87 | after filtering and any sort by the comparator, values come by begin and then by end |
| SpillPolicy.KeptFits | include/analysis/reg_alloc.hh:96-97 | what furthest-end spilling keeps never covers a point more than RegsNum times |
| SpillPolicy.SwapFits | include/analysis/reg_alloc.hh:123-140 | exchange step: trading a value for one that is open at the same point and ends no later keeps the load within RegsNum |
| SpillPolicy.Exchange | include/analysis/reg_alloc.hh:123-140 | a fitting set that avoids all earlier spills can be changed, at equal size, to avoid the newest one |
| SpillPolicy.AvoidSpills | include/analysis/reg_alloc.hh:91-106 | every fitting set can be changed, at equal size, to avoid all values the policy spills |
| SpillPolicy.SpillsAreMinimal | include/analysis/reg_alloc.hh:91-143 | no set of values whose removal makes the rest fit is smaller than what the policy has spilled at any moment |
| SpillPolicy.PolicyFits | include/analysis/reg_alloc.hh:91-143 | and when the policy is through, what it has kept fits |
| RegAlloc.EveryRegisterAccounted | include/analysis/reg_alloc.hh:62-63 | pool registers and owned registers are disjoint and together all of 0..RegsNum-1 |
| RegAlloc.Release | include/analysis/reg_alloc.hh:116-119 | giving back the register of an ended value keeps safety, conservation and unique slots |
| RegAlloc.Take | include/analysis/reg_alloc.hh:99-103 | giving a free register to the next value keeps them too |
| RegAlloc.TakeOver | include/analysis/reg_alloc.hh:128-138 | handing the register of the furthest-ending value to the current one keeps them too |
| RegAlloc.ExpireGood | include/analysis/reg_alloc.hh:111-121 | expiry keeps the invariant and leaves active exactly what is still open |
| RegAlloc.InsertSorted | include/IR/basic_block.hh:48-52 | insertion keyed by end: nothing happens if the end is there, otherwise exactly the value is added, in order |
| RegAlloc.PlaceSeen | include/analysis/reg_alloc.hh:91-106 | one turn of the scan keeps the whole invariant, refused insertions included |
| RegAlloc.ScanIsSafe | include/analysis/reg_alloc.hh:91-143 | every run that finishes places all values, shares no register between overlapping values, uses register ids below RegsNum and distinct slots, and loses no register |
| RegAlloc.PolicyTurn | include/analysis/reg_alloc.hh:123-143 | until an insertion is refused each turn spills what the policy spills, and the turn refuses the value if and only if a kept one shares its end |
| RegAlloc.TracksTurn | include/analysis/reg_alloc.hh:96-104 | a turn pops an empty pool if and only if an insertion has been refused and the kept values crowd all registers; otherwise the stack follows the policy up to the first refusal and stays as it is after it |
| RegAlloc.StarvesIffRunsOut | include/analysis/reg_alloc.hh:91-106 | a run pops an empty pool if and only if, for the first value d kept with a shared end and some later k, the ends still ahead when k begins and the shared ends among the values before k without the spills up to d fill all registers |
| RegAlloc.StackIsPolicys | include/analysis/reg_alloc.hh:91-143 | every run that finishes has spilled exactly what the policy had spilled when the first end was shared, or in all |
| ScanRules.TurnDetermined | include/analysis/reg_alloc.hh:94-143 | the rules of a turn (who expires and in which order, which register comes next, who moves to which slot), stated without the pool, leave one outcome |
| ScanRules.LocationsDetermined | include/analysis/reg_alloc.hh:91-106 | so intervals, order and number of registers determine every location |
| ScanRules.HandedOutIff | include/analysis/reg_alloc.hh:62-63 | the registers handed out in the first turns are always those from 0 up to some bound |
| ScanRules.FirstValues | include/analysis/reg_alloc.hh:97-103 | as long as nothing has ended, value number k gets register k |
| RegAlloc.ScanFollowsRules | include/analysis/reg_alloc.hh:91-143 | every run that finishes has placed the values by these rules: the register given back last, or the next one not used before |
| RegAlloc.SafeFits | include/analysis/reg_alloc.hh:91-106 | values that share no register while overlapping fit into the registers |
| RegAlloc.DistinctEndsRun | include/analysis/reg_alloc.hh:91-106 | progress: under distinct ends no register runs out and the stack holds exactly the policy's spills |
| RegAlloc.SpillsAreFewest | include/analysis/reg_alloc.hh:91-143 | every run that finishes, equal ends included, uses the least possible number of stack slots, and what it keeps fits |
| RegAlloc.EqualEndsStarve | include/analysis/reg_alloc.hh:96-103 | four intervals that never need more than two registers for which two registers run out, because ends are equal |
| RegAlloc.ScanOrder | include/analysis/reg_alloc.hh:65-87 | the filtered values in comparator order, each once |
| RegAlloc.RegAllocAnalyzer.constructor | include/analysis/reg_alloc.hh:59-63 | the pool holds RegsNum - 1 down to 0, so that register 0 is at its back; nothing is placed |
| RegAlloc.RegAllocAnalyzer.ExpireOldIntervals | include/analysis/reg_alloc.hh:111-121 | the loop does what the specification of expiry says |
| RegAlloc.RegAllocAnalyzer.InsertActive | include/analysis/reg_alloc.hh:102 | insertion into the ordered set, refused when the end is taken |
| RegAlloc.RegAllocAnalyzer.SpillAtInterval | include/analysis/reg_alloc.hh:123-143 | both branches of the spill, field by field |
| RegAlloc.RegAllocAnalyzer.PlaceNext | include/analysis/reg_alloc.hh:94-104 | the body of the scan loop, with the empty pool as failure |
| RegAlloc.RegAllocAnalyzer.LinearScan | include/analysis/reg_alloc.hh:91-106 | finishes exactly when no register runs out; then the values are placed by the rules, registers are safe, none is lost, and spills are as few as possible; with distinct ends it always finishes |
| Dfs.GreyEdges | include/graph/dfs.hh:64-69 | the calls made while the iterator advances are the back edges to grey successors, and no others |
| Dfs.StepInv | include/graph/dfs.hh:57-81 | one turn of the search keeps the invariant: stack is a grey path, edges seen are accounted for |
| Dfs.ReachedExactlyOnce | include/graph/dfs.hh:50-82 | exactly the blocks reachable from head are discovered and finished, each once; each later block has an earlier predecessor |
| Dfs.HeadFinishesLast | include/graph/dfs.hh:55-75 | head is finished last |
| Dfs.EdgeOrder | include/graph/dfs.hh:64-74 | an edge between reached blocks is reported or its target finishes first |
| Dfs.BackEdgeIff | include/graph/dfs.hh:64-75 | the reported edges are exactly those to a block discovered no later and finished no earlier than the source |
| Dfs.ReportsPathEdges | include/graph/dfs.hh:64-69 | at any turn the reported edges are those to a block on the stack |
| Dfs.CycleIffBackEdge | include/graph/dfs.hh:50-82 | the reached graph has a cycle if and only if some back edge is reported |
| Dfs.ReversePostorderIsTopological | include/graph/dfs.hh:171-177 | reverse postorder lists the reached blocks once, and unreported edges lead forward in it |
| Dfs.DepthFirstSearch.ScanSuccs | include/graph/dfs.hh:64-69 | the inner loop stops at the first white successor and reports the grey ones before it |
| Dfs.DepthFirstSearch.Turn | include/graph/dfs.hh:58-80 | one turn of the outer loop is one step of the specification |
| Dfs.DepthFirstSearch.DfsImpl | include/graph/dfs.hh:50-82 | the whole search makes the visitor calls of the specification, in order |
| Dfs.DeepFirstSearchReversePostorder | include/graph/dfs.hh:171-177 | returns the reverse of the finishing order |
| Dfs.DeepFirstSearchPreorder | include/graph/dfs.hh:152-159 | returns the discovery order |
| SearchRules.OneCall | include/graph/dfs.hh:57-81 | given the calls so far, one call may follow: about the last node of the path and its next successor in link order, reported if it is on the path, passed over if it is finished, discovered if it is new; with no successor left the node is finished |
| SearchRules.CallsDetermined | include/graph/dfs.hh:50-82 | so two complete runs of calls that follow this rule are equal |
| SearchRules.TraceFollowsRules | include/graph/dfs.hh:50-82 | the calls of the search follow the rule, and are the only ones that do: order of discovery, of finishing and of reports, with repetitions |
| Dsu.FindIsPathMin | include/graph/dsu.hh:58-73 | find returns the nearest vertex of least sdom on the uncompressed path, root included, and the compressed structure still agrees |
| Dsu.MergeAgrees | include/graph/dsu.hh:75-77 | merging a root under a smaller vertex keeps the agreement |
| Dsu.LowerAgrees | include/graph/dom3.hh:185-188 | decreasing the sdom of a root keeps the agreement |
| Dsu.FindAfterAnyRun | include/graph/dom3.hh:197-227 | find returns that vertex after any interleaving of finds, merges and decreases; parents never have larger numbers |
| Dsu.DSU.FindRec | include/graph/dsu.hh:58-73 | the recursion, statement by statement, terminates and does what the specification says |
| Dsu.DSU.FindLabel | include/graph/dsu.hh:58-73 | on a consistent structure it returns the nearest path minimum and keeps consistency |
| Dsu.DSU.MergeInto | include/graph/dsu.hh:75-77 | the link path is extended by one link |
| DomTree.DominatesIsPartialOrder | include/graph/dom3.hh:32-54 | the tree relation is reflexive, antisymmetric, transitive, with head below every reached block |
| DomTree.AboveIsSmaller | include/graph/dom3.hh:233-254 | an ancestor has no larger preorder number |
| DomTree.ClosedUnderChildren | include/graph/dom3.hh:39-52 | a set holding the dominator and closed under child lists holds everything it dominates |
| DomTree.DominatesQuery | include/graph/dom3.hh:32-54 | the search with a local stack terminates and decides exactly the ancestor relation |
| DomTree.DomTreeBuilder.MakeDfs | include/graph/dom3.hh:153-171 | numbers are discovery order; recorded parents are the previously discovered nodes; sdoms and idoms start at the own number |
| DomTree.SemisUnique | include/graph/dom3.hh:179-191 | the condition "least of what the predecessors offer" determines all semidominators |
| DomTree.DomTreeBuilder.MinSdom | include/graph/dom3.hh:179-191 | afterwards the sdom is the least of: the own number, smaller predecessor numbers, and the sdoms between the node and a larger predecessor; for all but head it is smaller than the own number |
| DomTree.DomTreeBuilder.SettleOne | include/graph/dom3.hh:213-222 | the candidate is the node's sdom if that is the least sdom from there to the node, otherwise the last node of least sdom, and has a smaller number |
| DomTree.DomTreeBuilder.SettleBucket | include/graph/dom3.hh:212-223 | the same for every member of the bucket, and no other candidate changes |
| DomTree.DomTreeBuilder.BuildSdoms | include/graph/dom3.hh:197-227 | after the reverse loop every sdom solves the condition and every non-head node has its settled candidate |
| DomTree.DomTreeBuilder.BuildIdoms | include/graph/dom3.hh:233-255 | the forward loop turns each candidate into its parent and files each non-head block once, under a smaller-numbered parent |
| DomTree.BuildDomTree | include/graph/dom3.hh:260-263 | each non-head reached block is a child of exactly one block, discovered earlier: its semidominator or the parent of the last node of least semidominator between that and the block; children are listed in the order of discovery |
| DomTree.TreeSpans | include/graph/dom3.hh:233-255 | a tree given by parent numbers spans the reached blocks: one parent each, with smaller number |
| DomTreeLimits.LadderPreorder | include/graph/dfs.hh:50-82 | the search visits the blocks of the six-block example in the order 0 to 5 |
| DomTreeLimits.TreeIsNotDominance | include/graph/dom3.hh:32-54 | in that example the computed tree puts block 3 above block 5 although a path from head to 5 avoids 3 |
| Dominance.SemiBelow | include/graph/dom3.hh:179-191 | a walk that comes from below over larger numbers only starts no lower than the semidominator of its end |
| Dominance.SemiWalk | include/graph/dom3.hh:179-191 | and a walk of that kind leads from the semidominator to its node |
| Dominance.GuardsIffUnavoidable | include/graph/dom3.hh:179-227 | no semidominator between a and b lies below a if and only if every walk from head to b passes a, over the edges and the steps to the next number |
| Dominance.GuardIsAbove | include/graph/dom3.hh:212-246 | on every graph, what is on every such walk is above in the tree |
| Dominance.TreeIsDominanceIff | include/graph/dom3.hh:197-255 | the tree relation is dominance over these walks if and only if no semidominator is a trap |
| Dominance.MisplacedIffTrap | include/graph/dsu.hh:58-73 | a node hangs under its semidominator with a lower semidominator in between if and only if the root of the path that find searches, which must not count, has the strictly least semidominator |
| Dominance.ComputedUnique | include/graph/dom3.hh:197-255 | the graph determines all semidominators and all parents |
| Dominance.TreeImpliesDominance | include/graph/dom3.hh:32-54 | on a graph without traps, what the query reports lies on every path from head |
| Dominance.TreeIsDominance | include/graph/dom3.hh:32-54 | if each block also has an edge to the one discovered next, the query is right on all pairs of blocks if and only if there is no trap |
| Dominance.DominatorFirst | include/graph/dfs.hh:171-177 | a block on every path to another stands before it in reverse postorder, loops included |
| LoopRecords.AcyclicHasNone | include/analysis/loop_analyzer.hh:175-196 | without cycles no loop is opened |
| LoopRecords.TouchedIff | include/analysis/loop_analyzer.hh:175-196 | a block is tied if and only if it is an end of a reported edge |
| LoopRecords.HeadsLoopIff | include/analysis/loop_analyzer.hh:175-190 | a block heads a loop if and only if the first call about it reports an edge to it: a block from which an edge was reported before heads none |
| LoopRecords.OpensLoop | include/analysis/loop_analyzer.hh:175-190 | such a call opens the next record, reducible if and only if the block dominates the source of that call in the tree |
| LoopRecords.LastTarget | include/analysis/loop_analyzer.hh:192-195 | a source has the loop that the target of its last reported edge had when that edge was reported |
| LoopRecords.BodiesAreSources | include/analysis/loop_analyzer.hh:192-195 | the body of a collected record lists the sources tied to it in the order of the reports, and the back edges are the same blocks |
| LoopTree.LoopTreeBuilder.OnBackEdge | include/analysis/loop_analyzer.hh:175-196 | opens a loop for a new header, reducible if and only if the header dominates the source in the tree, and ties the source to it |
| Dfs.ReportedFirst | include/graph/dfs.hh:64-75 | an edge is reported before either of its ends is finished |
| LoopTree.LoopTreeBuilder.CollectBackEdges | include/analysis/loop_analyzer.hh:175-215 | the records are those that the reported edges open and tie, in that order; the loop blocks are the tied ones in reverse postorder, the free blocks the other reached ones in postorder |
| LoopSearch.MarkedIffLeads | include/analysis/loop_analyzer.hh:253-280 | marks that are closed under predecessors and lead to the targets are exactly the blocks with a path to a target past the old marks |
| LoopWalks.WalkOn | include/analysis/loop_analyzer.hh:276-279 | walks compose: where a walk has to go on, a walk of its own from the first unseen predecessor continues it |
| LoopWalks.WalkDetermined | include/analysis/loop_analyzer.hh:253-280 | a walk goes on from the first unseen predecessor, in link order, of the latest block that has one; from one starting point there is one such walk, order included |
| LoopSearch.WalkedOn | include/analysis/loop_analyzer.hh:253-280 | with it the order of what joins the body, and the links, compose along the recursion |
| LoopTree.LoopTreeBuilder.JoinLoop | include/analysis/loop_analyzer.hh:261-274 | a block without a loop joins the body; any other block's loop, unless it is this one or has an outer loop, gets this one as its outer loop and becomes an inner loop of it; no other link changes |
| LoopTree.LoopTreeBuilder.LoopSearch | include/analysis/loop_analyzer.hh:253-280 | terminates; walks as `LoopWalks.IsWalk` says; the walk is what is newly marked, its loopless blocks join this body in its order, and the loops it meets are linked; no other body or entry changes |
| LoopSearch.GrownByPred | include/analysis/loop_analyzer.hh:276-279 | every block but the first joins the body when a block it has an edge to has a loop already, and that one leads to all blocks that joined before and that it has an edge to |
| LoopTree.LoopTreeBuilder.PopulateLoop | include/analysis/loop_analyzer.hh:227-248 | a reducible loop gains exactly the loopless blocks that lead to one of its back edges past its header and the earlier marks, in the order of a complete walk; exactly these and the earlier marks but its header are marked then; sources of an irreducible loop are tied to it |
| LoopTree.LoopTreeBuilder.PopulateLoops | include/analysis/loop_analyzer.hh:218-250 | one such turn for each block of the list, in order, for the loop that the block has by then |
| LoopTurns.UntiedJoins | include/analysis/loop_analyzer.hh:218-241 | a block that was not tied joins the loop of the first turn in which it leads to a back edge past header and marks, and none if there is no such turn |
| LoopTurns.UntiedBody | include/analysis/loop_analyzer.hh:261-264 | it is in the body of that loop and in no other |
| LoopTurns.TiedKeeps | include/analysis/loop_analyzer.hh:241-249 | a tied block keeps its loop until an irreducible loop ties it again, and belongs to the last one that does |
| LoopTurns.MarkedIff | include/analysis/loop_analyzer.hh:229-239 | the marks after some turns are the blocks that led to a back edge in one of them, but for headers of loops searched later |
| LoopTurns.OuterIsFirst | include/analysis/loop_analyzer.hh:266-273 | a loop is nested in the first other loop whose search meets a block of it |
| LoopTurns.StagesAgree | include/analysis/loop_base.hh:56-59 | the inner loops of a loop are always exactly those that have it as their outer loop |
| LoopTurns.BuiltSettles | include/analysis/loop_analyzer.hh:283-309 | so in the finished tree every reached block and every loop has the loop described above, and the root where there is none |
| LoopTree.OneGathered | include/analysis/loop_analyzer.hh:175-196 | if one edge only is reported, however often, one loop is opened, with its source in the body, reducible if the tree says so |
| LoopTree.PopulateFirst | include/analysis/loop_analyzer.hh:227-241 | the body of a single reducible loop is the source of its back edge and what leads to it past the header |
| LoopTree.LoopTreeBuilder.InitRootLoop | include/analysis/loop_analyzer.hh:283-298 | the root body lists exactly the free blocks without a loop, in their order, and exactly the loops without an outer one become its inner loops |
| LoopTree.BuildLoopTree | include/analysis/loop_analyzer.hh:301-309 | total block-to-loop map with consistent records, made by one turn for each tied block in reverse postorder; a block that was not tied has the first loop, in that order, to whose back edges it leads, or the root; on acyclic graphs the root loop alone; if one edge only is reported, its loop with the whole body |
| LinearOrder.InnerIsLater | include/analysis/linear_order.hh:63-65 | an inner header met in a body was discovered strictly later, so the recursion ends |
| LinearOrder.LastFirstFacts | include/analysis/linear_order.hh:56-69 | the unlisted blocks of a body, each once, in the reverse order of their last places |
| LinearOrder.ListedIsLastFirst | include/analysis/linear_order.hh:56-69 | without inner heads what a body adds to the order is its unlisted blocks, last one first |
| LinearOrder.ListedFacts | include/analysis/linear_order.hh:54-70 | with inner loops too it adds unlisted reached blocks, each once, and leaves out of the body only blocks that head an inner loop |
| LinearOrder.SeparatedReversed | include/analysis/linear_order.hh:54-70 | two listed blocks that a place of the body separates, the blocks of inner loops counted at the places of their heads, stand in the reverse order |
| LinearOrder.ListedHeadsNone | include/analysis/linear_order.hh:60-66 | what a body adds heads no loop, reducible or not, unless it is in the body of the loop that it heads |
| LinearOrder.HeaderThenBody | include/analysis/linear_order.hh:42-50 | a reducible header not listed before its turn is followed at once by the unlisted blocks of its body |
| LinearOrder.IrreducibleIsRpo | include/analysis/linear_order.hh:42-50 | without a reducible loop the order is the reverse postorder |
| LinearOrder.LinearOrderBuilder.LinearizeLoop | include/analysis/linear_order.hh:54-70 | appends, from the last block of the body to the first, what is not listed, the blocks of an inner loop in place of its head; afterwards every block of the body is listed or heads an inner loop |
| LinearOrder.LinearOrderBuilder.LinearizeGraph | include/analysis/linear_order.hh:39-52 | the order in full: the reverse postorder with each reducible body behind its header; a permutation of the reached blocks with head first; on acyclic graphs the reverse postorder itself |
| LinearOrder.BuildLinearOrder | include/analysis/linear_order.hh:74-77 | the same for the static entry point |
| OneLoop.OrderShape | include/analysis/linear_order.hh:39-70 | with a single loop: the reverse postorder up to the header, the body last one first, then what is left of the reverse postorder |
| OneLoop.StraightIsBackwards | include/analysis/loop_analyzer.hh:253-280 | if no block of a single loop past its header has two successors in it, the body lists every block after the one it leads to |
| OneLoop.ForkIsNotBackwards | include/analysis/loop_analyzer.hh:253-280 | if a block has several there, none of which leads to another, the body lists it before one of them |
| OneLoop.OnlyLatchBack | include/analysis/linear_order.hh:39-70 | with a body of the first kind the edge that closes the loop is the only one that does not lead forward in the linear order |
| Liveness.LiveBeforeInstr | include/analysis/liveness_analyzer.hh:176-192 | path liveness obeys the backward equation of an instruction |
| Liveness.LiveAtEnd | include/analysis/liveness_analyzer.hh:200-225 | path liveness at a block end: live into a successor, or read by a PHI on that very edge |
| Liveness.NumbersIncrease | include/analysis/liveness_analyzer.hh:104-113 | live numbers of non-PHIs increase inside a block, strictly between its bounds |
| Liveness.NumbersExact | include/analysis/liveness_analyzer.hh:99-117 | PHIs have the number at which their block starts, other instructions go up by two from there, and the block ends two behind the last one |
| Liveness.NumbersFollowOrder | include/analysis/liveness_analyzer.hh:99-117 | live numbers of non-PHIs strictly increase along the linear order |
| Liveness.BlocksTile | include/analysis/liveness_analyzer.hh:102-116 | block intervals start at 0 and each begins where the previous one ends |
| Liveness.LiveSetsExact | include/analysis/liveness_analyzer.hh:157-271 | on acyclic functions a block's final set holds exactly the values live at its start along some path |
| LiveAhead.SeenIffAhead | include/analysis/liveness_analyzer.hh:200-271 | on every function a value is in the sweep's live set at a position if and only if it is read along a path from there that leads forward in the order |
| LiveAhead.StoredSetsExact | include/analysis/liveness_analyzer.hh:157-271 | and so a block's final set holds exactly the values live at its start along such a path |
| LiveAhead.SweepIsExactIff | include/analysis/liveness_analyzer.hh:245-271 | what leaves every block is exactly what is live at its end if and only if whatever comes back over an edge that does not lead forward is there already |
| LiveExact.IntervalExact | include/analysis/liveness_analyzer.hh:125-192 | an interval begins before n just when its value is defined before n or live past the PHIs of a block that starts before n; it ends at n or later just when the value is seen at a position numbered so, is defined at n - 2 or later, or is live into the header of a loop that lasts so long |
| LiveExact.CoveredIff | include/analysis/liveness_analyzer.hh:245-279 | on every function begin < n <= end holds for a value if and only if both ends have such a reason |
| LiveExact.TerminatorExact | include/analysis/liveness_analyzer.hh:273-278 | the interval of a terminator is empty, and it lies where definition, uses and loops put the begin |
| LiveExact.UnreadTerminator | include/analysis/liveness_analyzer.hh:273-278 | if nothing reads the terminator both ends are its live number |
| LiveLoops.ReadIsSeen | include/analysis/liveness_analyzer.hh:200-225 | what is read along a path is in the sweep's live set there, or in the set of the header of a loop around |
| LiveLoops.LoopLiveSpans | include/analysis/liveness_analyzer.hh:140-155 | what is live into the header of a loop with a recorded extent spans all blocks of the loop |
| LiveLoops.LiveValuesCovered | include/analysis/liveness_analyzer.hh:245-279 | if the recorded extents span the loops, a value that no PHI reads on an edge to an earlier block has begin < n <= end wherever it is live just before number n |
| LiveLoops.TopologicalIsSpanned | include/analysis/liveness_analyzer.hh:245-279 | on acyclic functions both conditions hold for every value |
| LiveLoops.BackPhiIsMissed | include/analysis/liveness_analyzer.hh:205-221 | in a loop of two blocks whose header PHI reads a value on the back edge, the interval of that value ends before a number where it is live, whatever extents are recorded |
| LoopExtents.CounterExtents | include/analysis/liveness_analyzer.hh:140-155 | in that function the extents that the builder records span the loop, so the PHI is the only cause |
| LoopExtents.CounterIsStraight | include/graph/dfs.hh:50-82 | its graph has a single loop without branches |
| LiveLimits.BranchIsMissed | include/analysis/liveness_analyzer.hh:200-225 | in a loop with a branch, without any PHI, two values that are live just before the same number have intervals one of which ends where the other begins, because an arm is listed before the branch |
| LiveLimits.BranchForks | include/analysis/loop_analyzer.hh:253-280 | the body of that loop forks: neither arm of its branch leads to the other |
| LoopExtents.ComputedSpansIff | include/analysis/liveness_analyzer.hh:140-155 | the computed extents span the loops if and only if, by positions, each block that leads backward to a header lies between that header and the last block of its record, and the loop is reducible |
| LoopExtents.SingleLoopSpanned | include/analysis/liveness_analyzer.hh:140-155 | on a graph with a single loop they do if and only if it was found to be reducible and its body lists every block after the ones it leads to |
| LoopExtents.StraightOrForked | include/analysis/liveness_analyzer.hh:140-155 | so without branches past the header they do if and only if it was found to be reducible, and with a fork never |
| LoopExtents.OneLoopSettles | include/analysis/loop_analyzer.hh:175-196 | without branches they do if and only if the computed dominator tree puts the header above the source, which it does if each block has an edge to the one discovered next; with a fork they never do |
| Liveness.IntervalBounds | include/analysis/liveness_analyzer.hh:125-192 | on every function, loops included: uses at n have begin < n <= end, definitions at n have begin <= n < end |
| Liveness.IntervalsWellFormed | include/analysis/liveness_analyzer.hh:273-278 | begin <= end everywhere, and the empty intervals are those of terminators |
| LivenessBuild.LivenessBuilder.InitLinearNum | include/analysis/liveness_analyzer.hh:99-117 | the two loops assign the specified live numbers and block intervals |
| LivenessBuild.LivenessBuilder.ProcessInputs | include/analysis/liveness_analyzer.hh:160-168 | every input joins the set and its interval reaches from the block start to the use |
| LivenessBuild.LivenessBuilder.ProcessInstrs | include/analysis/liveness_analyzer.hh:176-192 | the backward loop over the non-PHIs |
| LivenessBuild.LivenessBuilder.InitLiveSet | include/analysis/liveness_analyzer.hh:200-225 | the union over the successors already visited, PHI inputs charged to the matching edge |
| LivenessBuild.LivenessBuilder.ProcessLoop | include/analysis/liveness_analyzer.hh:140-155 | values live into a reducible header span its loop body |
| LivenessBuild.LivenessBuilder.CalcBlock | include/analysis/liveness_analyzer.hh:248-271 | one block of the sweep, terminators collected |
| LivenessBuild.LivenessBuilder.CalcLifeRanges | include/analysis/liveness_analyzer.hh:245-279 | the whole sweep yields the specified intervals and sets |
| LivenessBuild.LivenessBuilder.BuildIntervals | include/analysis/liveness_analyzer.hh:91-94 | numbering followed by the sweep |
| Pipeline.AcyclicOrderIsTopological | include/analysis/linear_order.hh:39-52 | on acyclic graphs every edge leads to a block listed later |
| Pipeline.CompetingOverlap | include/analysis/liveness_analyzer.hh:245-279 | two values live at the same position overlap, and so do a defined value and any value live just after its definition |
| Pipeline.LiveValuesSeparated | include/analysis/reg_alloc.hh:59-106 | in every run that finishes such values get different locations, if the recorded extents span the loops |
| Pipeline.Analyze | include/analysis/liveness_analyzer.hh:77-83 | loop tree, linear order and intervals fit together for every function with mirrored links and reached predecessors; order and extents come from a loop tree as described; which numbers an interval covers and where the empty ones lie is told exactly; a single loop is spanned as its shape and the tree say |
| Pipeline.AllocateRegisters | include/analysis/reg_alloc.hh:59-108 | from a function to locations: succeeds exactly when no register runs out; then values are placed by the scan rules, register ids are in range, spills are fewest, competing values are separated on acyclic functions and wherever extents span the loops |
| ChecksElimination.AcceptsSameOperands | include/opt_passes/checks_elimination.hh:85-122 | the operand test means same kind and same operands if and only if the check is not a bounds check of a value against itself |
| ChecksElimination.AcceptsIff | include/opt_passes/checks_elimination.hh:85-122 | exactly which checks the test accepts: same kind and same operands, or any bounds check against the value if the check is of that value against itself |
| ChecksElimination.CoversStrictOrder | include/opt_passes/checks_elimination.hh:37-53 | covering is irreflexive and transitive |
| ChecksElimination.MinimalBelow | include/opt_passes/checks_elimination.hh:67-83 | below every covered check there is a minimal one |
| ChecksElimination.VisitNext | include/opt_passes/checks_elimination.hh:67-83 | a living check covers the visited one if and only if that one is not minimal among all, whatever has been erased before |
| ChecksElimination.SurvivorsSuffice | include/opt_passes/checks_elimination.hh:67-83 | each removed check is covered by a surviving one, and no survivor covers another |
| ChecksElimination.RedundantLost | include/opt_passes/checks_elimination.hh:67-83 | only checks disappear from the lists, and each of them is covered by one that is still listed: it passes the operand test and dominates it in the tree |
| ChecksElimination.TwinsGone | include/opt_passes/checks_elimination.hh:67-83 | no two checks of the same kind on the same operands are left in reached blocks such that one dominates the other |
| ChecksElimination.LostTested | include/opt_passes/checks_elimination.hh:37-53 | on a graph without traps every path from head to a lost check passes one that is left and passes the operand test |
| ChecksElimination.DanglesIff | include/opt_passes/checks_elimination.hh:85-122 | a visit touches a deleted operand if and only if its first operand is a check erased before, or its second one is and it is a bounds check that goes |
| ChecksElimination.UnreadChecksAreSafe | include/opt_passes/checks_elimination.hh:85-122 | no visit does if no check reads another |
| ChecksElimination.ComesAfter | include/opt_passes/checks_elimination.hh:48-52 | walking the list from one instruction meets exactly the later ones |
| ChecksElimination.Pass.VisitFunc | include/opt_passes/pass_visitor.hh:13-27 | collects the checks of the reached blocks, each once, blocks in reverse postorder and each list from its front |
| ChecksElimination.Pass.InstrDominates | include/opt_passes/checks_elimination.hh:37-53 | the query decides dominance between instructions, across blocks and inside one |
| ChecksElimination.Pass.VisitCheck | include/opt_passes/checks_elimination.hh:85-122 | erases the check if and only if some current user covers it, in any order of users; undefined exactly when it touches a deleted operand |
| ChecksElimination.Pass.EraseCheck | include/opt_passes/checks_elimination.hh:115-118 | users forget the check and it leaves its block, nothing else changes |
| ChecksElimination.Pass.Eliminate | include/opt_passes/checks_elimination.hh:67-83 | undefined exactly when some visit touches a deleted check; otherwise exactly the non-minimal checks are erased and the rest keeps its order |
| ChecksElimination.Run | include/opt_passes/checks_elimination.hh:29-35 | the whole pass: when it is defined, exactly the minimal checks are left in order, no check is left that the same check dominates, and on graphs without traps each execution that comes to a lost check has passed one that tests the same |
| ConstEval.EvalMeans | include/opt_passes/constant_fold.hh:63-97 | arithmetic, shift, xor and equality are evaluated to what they mean at their type |
| ConstEval.EvalMeansIff | include/opt_passes/constant_fold.hh:63-104 | the value returned is the only one the operation means, except for order comparisons of equal operands, where it is wrong |
| ConstEval.EvalDefinedIff | include/opt_passes/constant_fold.hh:63-104 | evaluation succeeds if and only if sum, difference or product of a wide type stays in range, the divisor is not zero (nor -1 under the least value), the shift distance is allowed |
| ConstEval.OrderMeansIffDifferent | include/opt_passes/constant_fold.hh:98-103 | LE and GE are right if and only if the operands differ; 1 LE 1 is folded to false |
| ConstEval.MeansUnique | include/opt_passes/constant_fold.hh:63-104 | an operation has at most one result at its type |
| ConstEval.TruncDivIsQuotient | include/opt_passes/constant_fold.hh:73-81 | division truncates toward zero: the remainder has the sign of the dividend and is smaller than the divisor |
| ConstEval.ShiftIsShift | include/opt_passes/constant_fold.hh:82-91 | shifting right is division by a power of two rounded down, for negative values as well |
| ConstEval.BitXorBits | include/opt_passes/constant_fold.hh:92-94 | every bit of the exclusive or, sign bits included |
| UseDef.AddInputSymmetric | include/IR/instruction.hh:133-136 | the operands are the old ones followed by the new one; users and operands stay symmetric, and nothing else changes |
| UseDef.SetInputSymmetric | include/IR/instruction.hh:138-147 | that one operand is replaced and all others stay; users and operands stay symmetric, duplicates included |
| UseDef.CleanInputsSymmetric | include/IR/instruction.hh:149-153 | no operands are left, those of others stay; users and operands stay symmetric |
| UseDef.ReplaceUsersSymmetric | include/IR/instruction.hh:161-168 | handing over users keeps them symmetric if and only if the two values differ or there are none |
| UseDef.ReplaceUsersFacts | include/IR/instruction.hh:161-168 | afterwards every instruction reads the new value wherever it read the old one |
| UseDef.UseDefTable.AddInput | include/IR/instruction.hh:133-136 | in place, as specified |
| UseDef.UseDefTable.SetInput | include/IR/instruction.hh:138-147 | in place, as specified |
| UseDef.UseDefTable.CleanInputs | include/IR/instruction.hh:149-153 | the loop over the operands, as specified |
| UseDef.UseDefTable.ReplaceUsers | include/IR/instruction.hh:161-168 | the merge and the loop over the users in any order, as specified |
| ConstantFold.FoldInputs | include/opt_passes/constant_fold.hh:151-155 | after one fold the instruction is gone, a constant of its type and block stands for it, and the others read the constant instead |
| ConstantFold.FoldWellFormed | include/opt_passes/constant_fold.hh:151-155 | one fold keeps chains symmetric, operand types matching and lists consistent |
| ConstantFold.FoldPreservesMeaning | include/opt_passes/constant_fold.hh:146-156 | one fold keeps an assignment of values consistent in both directions, exactly if it is evaluated right |
| ConstantFold.RunFolded | include/opt_passes/constant_fold.hh:145-157 | the loop replaces instructions by new constants in place in lists and operand vectors, and changes nothing else |
| ConstantFold.RunPreservesMeaning | include/opt_passes/constant_fold.hh:145-157 | over the whole loop an assignment is consistent before if and only if it is after, if in the code before no visit finds the operands of an LE or GE known and equal; if one does, never both |
| ConstantFold.ExecutionsKeptIff | include/opt_passes/constant_fold.hh:145-157 | without such a visit every execution before is one after and every execution after is one before; with one, no execution before is one after |
| ConstantFold.ForwardAgrees | include/opt_passes/constant_fold.hh:151-155 | in these executions survivors keep their values, and constants have the values of what they replace |
| ConstantFold.FoldedIffOperandsConstant | include/opt_passes/constant_fold.hh:44-50 | with operands collected before users, a binary instruction is folded if and only if each operand is constant or is folded |
| ConstantFold.OnePassSuffices | include/opt_passes/constant_fold.hh:145-157 | afterwards no collected binary instruction has only constant operands |
| ConstantFold.RunKnown | include/opt_passes/constant_fold.hh:145-157 | which instructions are folded and with which value, told by recursion over the operands in the code before the pass |
| ConstantFold.RunDefinedIff | include/opt_passes/constant_fold.hh:138-157 | the pass has an outcome if and only if every collected instruction whose operands are all known when it is visited is binary and its evaluation succeeds |
| ConstantFold.NoOperandsUndefined | include/opt_passes/constant_fold.hh:138-143 | so a collected instruction without operands that is not binary leaves the pass without a defined outcome |
| FoldPass.CollectedOnce | include/opt_passes/pass_visitor.hh:13-27 | collected are exactly the instructions of the visited blocks that are not NONE, RET, BRANCH, IF, PHI or CONST, each once |
| FoldPass.CollectedInOrder | include/opt_passes/pass_visitor.hh:13-27 | collection keeps the order of blocks and of lists |
| FoldPass.OperandsFirstInRpo | include/opt_passes/pass_visitor.hh:13-27 | in strict SSA operands are collected before their users, loops included |
| FoldPass.PassReachesFixpoint | include/opt_passes/constant_fold.hh:33-36 | so in strict SSA one pass folds whatever can be folded |
| FoldPass.AllFolded | include/opt_passes/constant_fold.hh:33-36 | in strict SSA no reached block is left with a binary instruction that reads constants only |
| FoldPass.Pass.VisitFunc | include/opt_passes/pass_visitor.hh:13-27 | the nested loops collect in block order, then list order |
| FoldPass.Pass.IsReallyNeedFolding | include/opt_passes/constant_fold.hh:44-50 | true if and only if all operands are constants |
| FoldPass.Pass.ReplaceInstr | include/IR/basic_block.hh:165-170 | the new instruction takes over users, place in the list and block |
| FoldPass.Pass.PutConstant | include/opt_passes/constant_fold.hh:151-155 | allocation, cleaning and replacement together leave the function as one fold does |
| FoldPass.Pass.Fold | include/opt_passes/constant_fold.hh:149-155 | one turn of the loop on constant operands, as specified |
| FoldPass.Pass.Optimize | include/opt_passes/constant_fold.hh:145-157 | the loop ends as specified, has an outcome exactly when every visit has, and keeps the executions if no comparison is misread, none otherwise |
| FoldPass.Pass.RunOn | include/opt_passes/constant_fold.hh:33-36 | collection in reverse postorder and loop together, with the same conditions; in strict SSA no reached block is left with a binary instruction that reads constants only |
| IList.RingRotates | include/intrusive_list/ilist_base.hh:35-41 | a ring has no beginning |
| IList.RingInverse | include/intrusive_list/ilist_base.hh:10-30 | in a ring next and prev undo each other and stay inside |
| IList.InsertBefore | include/intrusive_list/ilist_base.hh:41-55 | the node goes into the ring before its place; an unlinked place is linked one way |
| IList.Remove | include/intrusive_list/ilist_base.hh:58-68 | the ring closes around the removed node, whose links become null |
| IList.MoveBefore | include/intrusive_list/ilist_base.hh:72-94 | the six pointers written, and nothing on the early return |
| IList.MoveBetween | include/intrusive_list/ilist_base.hh:72-94 | between two rings: A1++S++A2 and B1++B3, both rings intact |
| IList.MoveWithin | include/intrusive_list/ilist_base.hh:72-94 | within one ring, in either direction: the block goes before the place, the ring is intact |
| IList.SwappedDistinct | include/intrusive_list/ilist_base.hh:72-94 | no node is lost or duplicated |
| IList.List.constructor | include/intrusive_list/ilist.hh:12-21 | an empty list is the ring of its sentinel |
| IList.List.Begin | include/intrusive_list/ilist.hh:93 | the first element, or the end |
| IList.List.Empty | include/intrusive_list/ilist.hh:100 | true if and only if there are no elements |
| IList.List.Size | include/intrusive_list/ilist.hh:103 | the walk counts the elements |
| IList.List.Insert | include/intrusive_list/ilist.hh:113-116 | the element goes before the iterator |
| IList.List.Erase | include/intrusive_list/ilist.hh:118-129 | the element leaves, the iterator behind it is returned |
| IList.List.EraseRange | include/intrusive_list/ilist.hh:131-137 | the loop removes the range and nothing else |
| IList.List.Clear | include/intrusive_list/ilist.hh:158 | the list becomes empty |
| IList.List.Splice | include/intrusive_list/ilist.hh:153-156 | a range of another list moves, both lists valid |
| IList.List.SpliceAll | include/intrusive_list/ilist.hh:143-145 | the whole other list moves and is empty afterwards |
| IList.List.SpliceWithin | include/intrusive_list/ilist.hh:153-156 | a range moves within its list |

## Left out

- Dominance.TreeIsDominance: needs an edge from each block to the one discovered next for the direction from dominance
  to the tree; without these edges the tree describes dominance in the graph that has them added.
- LoopTree.BuildLoopTree: bodies need not be the natural loops, since outer loops are searched before inner ones and
  marks stay; what they are is told by `LoopTurns.BuiltSettles`. When a loop has several back edges, the order in which
  they are searched is that of their addresses, and is left open.
- Liveness.LiveSetsExact: needs a topological order; what the sets hold on every function is `LiveAhead.StoredSetsExact`.
- LiveLoops.LiveValuesCovered: goes one way; which numbers are covered on every function is `LiveExact.CoveredIff`.
- LoopExtents.SingleLoopSpanned: for several loops whether the extents span them is stated by positions only
  (`LoopExtents.ComputedSpansIff`); for a single loop with a branch one arm of which leads to the other it depends on
  the order in which predecessors were linked, and is stated by the recorded body.
- Predecessors that cannot be reached from head (the union-find lookup throws on them) are excluded by a precondition,
  and so are PHIs behind other instructions, which the sweep does not expect.
- A null head, for which the search returns at once: a graph of the model has a head.
- The addresses in `m_range2val` are value names here, so the map from interval to value is the identity.
- The linear numbers (`set_lin`), which nothing reads.
- ConstantFold.RunPreservesMeaning: PHIs, calls, casts and parameters may have any value, so control flow is not
  interpreted; arithmetic wraps at run time in the model's meaning, whereas overflow of the wide types is undefined.
- ConstantFold.OnePassSuffices: the pairs stored in a PHI, which folding does not update, are not part of the function
  modelled there.
- FoldPass.Pass.ReplaceInstr: finds the place by walking the list, where the original is handed it by the intrusive node;
  the list is a sequence there, and the pointer form is in module IList.
- IList.List.Erase: freeing the node is not modelled, nor is ownership.
- IList.MoveWithin: an insertion point inside the moved range is excluded, as the original corrupts the ring there.
- Inlining, block splitting and the peephole pass: block splitting rebuilds links with swapped arguments while iterating
  over them, and the peephole identities would only add easy members.
- Dumping, file output, iterator categories, templates and the IR builder.
