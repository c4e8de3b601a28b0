# Verified graph and trace algorithms of MemGaze

The binary analysis of MemGaze (`bin-anlys`) and its trace analysis (`mem-anlys`) rest on a few self-contained
algorithms. This project models eight of them and proves what they are for.

| file | models |
|---|---|
| `FindCliques.dfy` | the Bron-Kerbosch enumeration of maximal cliques, in place on one array with an external stack |
| `CountTheory.dfy`, `CountFlow.dfy`, `CountGuess.dfy`, `ExecCounts.dfy`, `CountExamples.dfy` | the propagation of execution counts through a control flow graph: two worklists, repair edges, guesses and rollback |
| `Dominators.dfy`, `RootLoops.dfy`, `DomTree.dfy` | dominator sets by iterated intersection, the dominator tree, and dominance frontiers |
| `DGraph.dfy` | directed graphs with edge lists, and the threading of nodes in depth-first order |
| `Strides.dfy`, `Coverage.dfy`, `MemDeps.dfy` | distances of loop-carried dependences between two strided references |
| `CycleSetDag.dfy` | fixing the sets of a cycle graph in both directions |
| `BitSet.dfy` | bit sets packed into words, and their iterator |
| `WindowTree.dfy` | the split of a trace into samples and windows, and the interval tree over them |
| `Collections.dfy` | lists without repetition and sizes of sets, which several of them use |

In each file the specification comes first, as functions and predicates on values with their lemmas; then the
methods follow the code branch by branch and are proved against it.

- **Cliques.** `Maximal` is defined on the graph alone. `ListsExactly(found, w)` says that the list `found` holds
  each set that satisfies `w` once, and nothing else. The in-place array, the stack and the loop counter are tied to
  these sets throughout, so that the scan for the next vertex needs no bound check and pivoting loses nothing.
- **Counts.** A `Flow` gives every node and edge its true count, with conservation at every node. `Settled` says that
  every possible deduction is queued, and `Calm` that, besides, everything counted agrees with a flow. Assertions of
  the code are modelled as a result `ok` that is false. `Sound` is the invariant that holds for any input at all: the
  arrays `inEdges` and `outEdges` hold the numbers of counted edges, and the guess list together with the edges
  counted before the guess holds all counted edges; and, until a repair adds an edge, taking back what is on the
  guess lists leads to a state in which only the guess can be followed up. So `Settled` holds throughout any run
  without repairs, whether its counts are consistent or not (`Steady`). `Derived` says that a state has the counts of
  an earlier one and more, all of them forced: whatever flow fitted then fits still. It holds from the input to the
  first state in which both queues are empty; `EndsFrom` says how a run ends from there.
  `InEnded` and `OutEnded` say how one step ends in every case, `GuessFailed` what a wrong guess comes to, and
  `CallOutcome` what becomes of a call out of balance and of the exit.
- **Orders.** That a search is depth-first is said on the lists of edges: each node is the first unmet neighbour of the
  latest node that has one (`Deep`, `DepthFirstOrder`, `Searched`).
- **Footprints.** `Metric` says what is to be counted, by the places of a trace (`TallyMetric`, `ForestMetric`).
- **Dominators.** `Dominates` is defined by paths from the root. Nodes are their depth-first numbers, as in the
  code; `GraphDominators` shows that the numbering which the traversal of `DGraph.dfy` produces has the one property
  that the proofs need. The rounds are followed one node at a time: what a set lacks is passed on along paths that do
  not come back to the root, a round later for each edge that does not rise, and the root gets it back in loops.
- **Dependences.** `Meets` says that two iterations touch the same place, `Witnessed` that an edge comes from two
  that do, and `Covered` that every two that do are ordered by an edge at most as long as they are apart.

## Where the code does not do what it says

Each of these is a theorem about the code as it is, with the exact condition or a concrete input.

- The repair for calls that do not return asks for a *unique* return edge (`CFG.C:959`). If there is one already, its
  count is overwritten and both counters of counted edges go up once more: `RepairReturn` keeps them right if and
  only if the edge is fresh, and the first step of `StaleReturnExample` is one with an edge that is not. Graphs without
  call surrogates are safe. That a call has no return edge to begin with is not enough, because a rollback leaves the
  edge of an earlier repair in place. The exit is raised by the difference even so: it keeps the sum of its incoming
  edges exactly when the call gets the sum of its outgoing ones (`ExitFollowsCall`); and a reused edge makes an exit
  that lacks one count look complete, which ends the run (`BalanceCall`).
- Propagation may return without having counted everything (`CFG.C:647`, `CFG.C:1416-1419`). A run ends at once when
  the initial pass, which is a fold over the nodes of the input, queues nothing; `BlankIsLeft` covers every input
  without counts. Any other run that returns has counted everything or has stopped at a guess. As long as no repair
  has added an edge, a guess queues nothing if and only if its node is `Blocked`: each side is empty or has two edges
  without a count, unless the node is a call with a fully counted outgoing side (`Quiesce`, `GuessSettled`). That
  holds for every guess of a run, because a failed one leads back to where nothing else can be deduced (`Rollback`,
  `RestartSettled`); and a blocked node with a side that is not held back has an edge there that is left without a
  count (`BlockedIsOpen`, `ComputeBBAndEdgeCounts`). For an input that some flow fits, the run stops at its first guess
  if and only if the first partially counted node is blocked in the first quiet state (`EndsFrom`); `DeadGuessExample`
  is such an input.
- A guess is right or wrong with the partial count. If all partial counts are those of a flow that fits, no guess
  fails and all counts in the end are the flow's (`ComputeBBAndEdgeCounts`). Undoing a wrong one (`CFG.C:719-747`)
  restores the counted edges, as long as return edges are fresh, and the counted nodes, unless an edge was added
  (`Rollback`): an entry whose count was computed before the guess and raised by a repair after it loses that count and
  keeps the raised counter (`RaisedIsLost`).
- For an input that some flow fits, without call surrogates, what is counted before the first guess does not depend on
  the order in which nodes are visited (`OrderIsFree`). With them it does, as a call only gets a count from the last of
  its edges: `CountedInOrder` and `MissedInOrder` process one list in two orders.
- The iteration for dominators (`DomTree.C:85-121`) is right for a root without incoming edges. For others
  `RightRootIsExact` gives the condition under which it ends with the dominators: no edge from the root to itself, and
  for each other node a, the loops through the root that avoid a have lengths with greatest common divisor 1, where the
  length is one more than the number of edges before the last that do not rise. It rests on `RootSums`: the root is
  without a in round 1 + n exactly when n is a sum of such lengths. With a common divisor the rounds go on for ever
  (`RunsForEver`, and `RootLoopRunsForEver` on four nodes); `EndsExactly` says when they end at all. A root with an edge
  from itself keeps the placeholder 1 in its set, so that the node numbered 1 becomes its parent (`SelfRoot`,
  `SelfRootParents`), and an edge into the root from a node that is not reached counts as one (`StrayIntoRoot`). That
  loops avoid each node along rising numbers suffices (`RisingStays`). That no other node dominates all predecessors of
  the root (`RootMustStand`) is only the necessary half, that some loop avoids each node (`LoopsAvoid`): on
  `EvenLoopsExample` it holds and the rounds do not end.
- Predecessors that are not reached are read as the root (`DomTree.C:98`, `DomTree.C:101`, `DomTree.C:106`):
  `ReadingKeepsDominance` says exactly when that is harmless, and on the graph of `StrayExample` it is not. For the
  frontiers, a root with a single incoming edge is passed over (`RootFrontier`), and one with several makes the walk
  fail at the node above the root (`ComputeDominanceFrontiers`).
- A node that was removed keeps its list of incoming edges, and of the outgoing ones all but its self-loops
  (`DGraph.C:126-152`), so that adding it again lists edges that are not in the graph (`ReaddExample`); `AddNode` and
  `AddEdge` keep the graph consistent if and only if new nodes bring no edges along. The flag for a needed traversal is
  not initialised (`BaseGraph.h:369`), which does no harm, because the first node sets it.
- For two references that move towards each other, the second probe's assertion (`DGBuilder.C:4315`) fails on some
  inputs: `Towards` says on which, and `TripsExample` is one.
- For shrinking distances, the probe whose assertion is disabled (`DGBuilder.C:4445`, `DGBuilder.C:4551`) takes an
  iteration before the first for a hit: `Misfires` is the exact condition, for strides of either sign, under which an
  edge is not real, and `MisfireExample` an input. The early exit for distances that are no multiple of the stride is
  taken for zero strides only (`EarlyReturnIsRight`), as two nonzero constants always have an integer ratio; the same
  result is reached later.
- For equal starts the edge to a later iteration has the fixed distance 1 (`DGBuilder.C:4162`): it is added if and only
  if any later iteration touches the same place, but is real if and only if the very next one does (`EqualBasesExact`).
- Some dependences are missed, because only the iterations next to the crossing are probed, and for growing distances
  only the start. `CoversOn` is the exact condition under which every pair of iterations that meets is covered
  (`ArrayDependences`, `ShrinkCovered`, `FacingCovered`); `MissedRun` is a run that adds no edge between references that
  meet, and `FirstIsMissed` a family in which a meeting with the first iteration goes unseen.
- The footprint of a left child is recounted from its trace without the extra frame loads (`Window.cpp:114-146`), that
  of a right child is merged as it is (`Window.cpp:148-164`), and a window without a right neighbour is recounted too.
  So whether the counts of a tree are those of its accesses, or of all its loads, turns on its last window and on
  whether the windows are a power of two in number: `RootExactness`, `SampleExactness` and `ForestExactness` give the
  exact conditions, and `FrameLoadsExample` has one window pair for each side. The keys are exact always.

## Model

| member | source | states |
|---|---|---|
| `BronKerbosch.FindCliques.ComputeCliques` | bin-anlys/src/Scheduler/FindCliques.C:35-51 | for every symmetric 0/1 matrix with ones on the diagonal, what is appended to the list is exactly the maximal cliques, each once; nothing for a graph without vertices, and the list already there is kept; the result is the number of recursive calls |
| `BronKerbosch.FindCliques.Extend` | bin-anlys/src/Scheduler/FindCliques.C:54-220 | reports exactly the maximal cliques that contain the stack and avoid the vertices already excluded, each once; stack and depth are restored, the array keeps its excluded part and comes back as a rearrangement of itself |
| `BronKerbosch.FindCliques.BacktrackCycle` | bin-anlys/src/Scheduler/FindCliques.C:138-217 | the loop ends with no candidate left that is disconnected from the pivot, having reported exactly the cliques through one of the vertices it branched on |
| `BronKerbosch.FindCliques.Advance` | bin-anlys/src/Scheduler/FindCliques.C:144-217 | one iteration adds exactly the cliques of one more branch; the candidates still to branch on stay as many as the loop counter says, and the next one lies before the end |
| `BronKerbosch.FindCliques.Turn` | bin-anlys/src/Scheduler/FindCliques.C:155-205 | after a branch the list holds the cliques of all branches so far, none twice, and the stack is as it was |
| `BronKerbosch.FindCliques.Branch` | bin-anlys/src/Scheduler/FindCliques.C:172-203 | with the selected vertex pushed, exactly the cliques of the new pair of sets are reported, and it is popped again |
| `BronKerbosch.FindCliques.ReportOrExtend` | bin-anlys/src/Scheduler/FindCliques.C:181-196 | an empty pair of sets reports the stack, an empty candidate set with excluded vertices reports nothing, and everything else is left to the recursion, which never runs without candidates |
| `BronKerbosch.FindCliques.SelectPivot` | bin-anlys/src/Scheduler/FindCliques.C:99-136 | the pivot has the least number of disconnected candidates of all vertices, `minnod` and `nod` count the branches to take, and the first vertex to branch on is the pivot itself or disconnected from it |
| `BronKerbosch.FindCliques.CountDisconnections` | bin-anlys/src/Scheduler/FindCliques.C:111-120 | counts the disconnected candidates exactly unless it reaches the bound, and remembers the place of one of them |
| `BronKerbosch.FindCliques.NextDisconnected` | bin-anlys/src/Scheduler/FindCliques.C:210-216 | the scan without a bound stops at the first candidate disconnected from the pivot, before the end of the array |
| `BronKerbosch.FindCliques.Interchange` | bin-anlys/src/Scheduler/FindCliques.C:149-154 | brings the vertex to the front of the candidates and leaves both sets as they are |
| `BronKerbosch.FindCliques.FillNew` | bin-anlys/src/Scheduler/FindCliques.C:157-170 | the new sets are the neighbours of the selected vertex in the old ones, without repetition, and there are fewer candidates than before |
| `BronKerbosch.FindCliques.FillRange` | bin-anlys/src/Scheduler/FindCliques.C:161-163 | appends exactly the neighbours found in the range, in their order |
| `BronKerbosch.FindCliques.AllVertices` | bin-anlys/src/Scheduler/FindCliques.C:39-42 | the search starts from all vertices |
| `BronKerbosch.FindCliques.MatrixRepresents` | bin-anlys/src/Scheduler/FindCliques.C:82-83 | a square symmetric 0/1 matrix with ones on the diagonal represents the graph read off it |
| `BronKerbosch.FindCliques.BranchReady` | bin-anlys/src/Scheduler/FindCliques.C:155-195 | with the selected vertex pushed, the stack is still a clique whose extensions are exactly the new sets: what the recursion needs |
| `BronKerbosch.CycleStep` | bin-anlys/src/Scheduler/FindCliques.C:144-216 | the loop counter is the number of candidates disconnected from the pivot, and the pivot is excluded after the first turn |
| `BronKerbosch.CycleEnd` | bin-anlys/src/Scheduler/FindCliques.C:144-217 | when the counter is zero, the pivot is excluded and connected to every candidate that is left |
| `BronKerbosch.FirstFits` | bin-anlys/src/Scheduler/FindCliques.C:106-120 | the first vertex always has fewer disconnections than the initial bound, so that a pivot is found |
| `CliqueTheory.PivotLosesNothing` | bin-anlys/src/Scheduler/FindCliques.C:138-144 | a clique that avoids all excluded vertices can be extended by the pivot and so is not maximal: candidates connected to the pivot need no branch |
| `CliqueTheory.BranchTargets` | bin-anlys/src/Scheduler/FindCliques.C:172-205 | the cliques covered after a branch are those covered before, those of the branch, and the stack itself when both sets are empty, with no overlap |
| `CliqueTheory.BranchDone` | bin-anlys/src/Scheduler/FindCliques.C:172-205 | appending the list of a branch to the list before it gives each covered clique once |
| `CliqueTheory.AllCovered` | bin-anlys/src/Scheduler/FindCliques.C:138-217 | once the pivot is connected to all that is left, the covered cliques are all the wanted ones |
| `CliqueTheory.InsideMaximal` | bin-anlys/src/Scheduler/FindCliques.C:35-51 | every clique lies inside a maximal one, so that the reported list bounds them all |
| `CliqueTheory.NothingAtTop` | bin-anlys/src/Scheduler/FindCliques.C:35-51 | a graph without vertices has no report |
| `ExecCounts.Cfg.ComputeBBAndEdgeCounts` | bin-anlys/src/Scheduler/CFG.C:463-1430 | for any input: it aborts when the initial pass does; it ends at once when that queues nothing; and else a run that returns has counted everything or has stopped at a guess. Unless a repair edge was added, nothing more can be deduced in the end, a guess it has stopped at is at a blocked node, and if that node has a side that is not held back then some edge there has no count. The counters of counted edges are right as long as every return edge is fresh, as in every graph without call surrogates. If some flow fits the measured counts, the run derives all that is forced before it guesses: the first quiet state is the input graph with more counts, every one of them the count in each flow that fits, with no deduction left, and without calls it has no count that any such state could do without; the run ends there when everything is counted or there is no node to guess at, and otherwise with a guess at its first partially counted node, where it stops if and only if that node is blocked in the first quiet state; edges counted there keep their counts in any run in which every return edge is fresh. If the partial counts are those of the flow too, then in the end all counts are, no edge has been added, and it fails only for want of a node to guess at |
| `ExecCounts.Cfg.Propagate` | bin-anlys/src/Scheduler/CFG.C:646-1427 | the worklist loop with its guesses and rollbacks terminates (nodes not yet flagged, failures left of 100, uncounted edges, queue entries); it does nothing when both queues are empty, and otherwise ends as derived from the first quiet state |
| `ExecCounts.Cfg.Turn` | bin-anlys/src/Scheduler/CFG.C:647-1427 | one turn of the outer loop keeps the track of the run: before the first quiet state everything was forced, after it the edges counted there are frozen and the first guess is known; it flags a new node or lowers the measure; and if all partial counts are those of a flow that fits, all counts stay so and no guess fails |
| `ExecCounts.Cfg.AtQuiet` | bin-anlys/src/Scheduler/CFG.C:1355-1426 | where both queues are empty the run is over, goes on after flagging one more node, or has nothing to guess at; it is over after a guess only if the node is blocked, unless a repair edge was added; the first time this happens fixes the state that all later ones are measured against |
| `ExecCounts.Cfg.BothPasses` | bin-anlys/src/Scheduler/CFG.C:647-1351 | a turn of the outer loop flags no node and strictly lowers the measure; it keeps agreement with the flow, while guessing too if the partial counts are those of the flow; and unless a repair edge was added it leaves no deduction unqueued |
| `ExecCounts.Cfg.InPass` | bin-anlys/src/Scheduler/CFG.C:657-1008 | one pass over the queue, failed guesses included, strictly lowers the measure or the queue was empty; without a repair edge no deduction is left unqueued; for consistent counts no assertion fails |
| `ExecCounts.Cfg.OutPass` | bin-anlys/src/Scheduler/CFG.C:1010-1351 | the same for the outgoing side |
| `ExecCounts.Cfg.StepIn` | bin-anlys/src/Scheduler/CFG.C:658-1007 | processing one entry follows the deduction step of the specification whenever the counts are no contradiction, and adds a repair edge, fails a guess or aborts whenever they are; it keeps the counters right and lowers the measure; and every other way it can end is fixed too. When the deduction leaves a call out of balance, it aborts or the return edge gets the difference and the exit counts it, so that with a fresh edge the sum of what comes into the exit and its count grow by the same, or an exit without a count gets the sum if all that comes in is counted, and no other count changes; reusing an edge makes the counters wrong. A node with all incoming edges counted and a larger count gets an entry edge and then has their sum, and aborts if and only if it is a routine entry. A node that more comes into aborts outside guess mode; in it, and when a partial count at the source turns out too large, the guess fails: the run is given up on the same failure twice in a row or on the hundredth, and else the guess grows by exactly what was missing. An uncounted node, or one with two uncounted edges, aborts |
| `ExecCounts.Cfg.StepOut` | bin-anlys/src/Scheduler/CFG.C:1012-1350 | the same for the outgoing side. A counted call whose edges are all counted and carry less than it has gives the difference to the exit, as above. Outside guess mode a node that more leaves than it has aborts if and only if it is a routine entry, and else is raised from the entry to the sum of its outgoing edges, which it still has when the edge left over has been counted; in guess mode the guess fails for exactly what was missing |
| `ExecCounts.Cfg.NextIn` | bin-anlys/src/Scheduler/CFG.C:658-1007 | one entry of a pass, a failed guess included, leaves no deduction unqueued unless a repair edge was added; for consistent counts, partial ones included if a guess is being followed up, it neither fails nor aborts and only adds forced counts |
| `ExecCounts.Cfg.NextOut` | bin-anlys/src/Scheduler/CFG.C:1012-1350 | the same for the outgoing side |
| `ExecCounts.Cfg.DeduceIn` | bin-anlys/src/Scheduler/CFG.C:805-1003 | the one uncounted edge gets the residual, its source is followed up, and the number of uncounted edges drops |
| `ExecCounts.Cfg.DeduceOut` | bin-anlys/src/Scheduler/CFG.C:1244-1344 | the same for the outgoing side |
| `ExecCounts.Cfg.FollowSource` | bin-anlys/src/Scheduler/CFG.C:833-920 | the source of a counted edge gets its sum when complete and is queued where one edge is missing; the entry being processed keeps its place |
| `ExecCounts.Cfg.FollowSink` | bin-anlys/src/Scheduler/CFG.C:1254-1344 | the sink of a counted edge likewise |
| `ExecCounts.Cfg.CountFromOut` | bin-anlys/src/Scheduler/CFG.C:835-914 | a node whose outgoing edges are all counted gets their sum, unless a partial count exceeds it while guessing, which fails the guess by exactly the difference and nothing else does |
| `ExecCounts.Cfg.CountFromIn` | bin-anlys/src/Scheduler/CFG.C:1257-1338 | the same for the incoming side |
| `ExecCounts.Cfg.BalanceCall` | bin-anlys/src/Scheduler/CFG.C:922-1001 | a call surrogate in balance is left alone; one with less than its outgoing edges aborts; one with more gives the difference to a return edge, which is an added one unless there is one already, and then its old count is lost and the counters are wrong. With an added one the count of the exit and the sum of its incoming edges grow by the difference, an exit without a count gets that sum if it is complete, no other count changes, and the run goes on; with an old one the exit is raised all the same, but when it has no count and lacks one on its incoming side, the run ends |
| `ExecCounts.Cfg.Rollback` | bin-anlys/src/Scheduler/CFG.C:719-747 | undoing a guess un-counts exactly the nodes and edges on the two guess lists; the counted edges are those from before the guess, and so are the counted nodes unless a repair edge was added; the two counters per node are back at the truth, and the guess node is queued where it can propagate, which leaves no deduction unqueued |
| `ExecCounts.Cfg.Uncount` | bin-anlys/src/Scheduler/CFG.C:730-737 | the loop over the guess list clears exactly its edges and brings both counters back in step |
| `ExecCounts.Cfg.FailGuess` | bin-anlys/src/Scheduler/CFG.C:691-748 | aborts exactly on the same failure twice in a row or on the hundredth; otherwise the failure is remembered, the guess goes up by what was missing, and exactly what is on the two guess lists loses its count |
| `ExecCounts.Cfg.RepairEntry` | bin-anlys/src/Scheduler/CFG.C:773-804 | the added entry edge is fresh and carries exactly the missing count; the counters stay right and no edge is left uncounted |
| `CountFlow.EntryRepairSums` | bin-anlys/src/Scheduler/CFG.C:1124-1164 | a new entry edge adds its count to what comes into the node; if the node is raised, its count grows as much as what leaves it, a counted entry keeps the difference between its count and what leaves it, and no other node changes |
| `CountGuess.ClashBalanced` | bin-anlys/src/Scheduler/CFG.C:529-578 | the entry edge that the initial pass adds makes the count of the node the sum of its incoming edges |
| `ExecCounts.Cfg.BalanceIn` | bin-anlys/src/Scheduler/CFG.C:751-804 | a node that lacks nothing is dropped from the queue; one that does gets an entry edge, without a change of its own count, which then is the sum of its incoming edges; it fails if and only if that is a routine entry |
| `ExecCounts.Cfg.RaiseOut` | bin-anlys/src/Scheduler/CFG.C:1038-1165 | while guessing, the guess fails by exactly what is missing; else it fails if and only if the node is a routine entry, and the node has what is missing added to its count, so that it is the sum of its outgoing edges |
| `ExecCounts.Cfg.RepairReturn` | bin-anlys/src/Scheduler/CFG.C:935-1000 | the counters stay right if and only if the return edge is a fresh one; if an old one is reused, its count is lost from the sum. What the exit counts afterwards, on sums, and exactly when the step succeeds, as for BalanceCall; while guessing, an exit that has a count is noted as changed |
| `ExecCounts.Cfg.UpdateExit` | bin-anlys/src/Scheduler/CFG.C:972-999 | the exit is raised by what the new edge brings if it has a count, and else gets the sum of its incoming edges where its counter says that they are all counted, which fails if and only if one is not |
| `CountFlow.ExitFollowsCall` | bin-anlys/src/Scheduler/CFG.C:935-1000 | where the exit counted the sum of its incoming edges before the repair of a call, it does so after it if and only if the outgoing edges of the call now sum to the count of the call; with a fresh return edge both are so |
| `ExecCounts.Cfg.AddReturnEdge` | bin-anlys/src/Scheduler/CFG.C:958-971 | the same for the edge alone |
| `CountExamples.StaleReturnExample` | bin-anlys/src/Scheduler/CFG.C:935-995 | a run whose first step ends in that: a call measured 5, with 3 on its return edge and 1 deduced for the other, has 1 on each afterwards, the exit counts 4 where 1 comes in, and the counters are wrong |
| `CountExamples.LostCallsExample` | bin-anlys/src/Scheduler/CFG.C:935-995 | a run with a fresh edge: a call measured 5 comes back 3 times by way of the exit, which the initial pass has counted 3; the first step adds a return edge with 2 and the exit counts 5 |
| `CountExamples.BlankIsLeft` | bin-anlys/src/Scheduler/CFG.C:647-1427 | an input without any counts is reported as done and left as it is, although edges have no count |
| `CountExamples.DeadGuessExample` | bin-anlys/src/Scheduler/CFG.C:1407-1426 | an input on which the one node to guess at has two edges without a count on its only side: the run reports success and leaves both without one |
| `CountExamples.RaisedIsLost` | bin-anlys/src/Scheduler/CFG.C:793-801 | when a repair made while guessing raises the entry, and its count was computed before the guess, undoing the guess leaves the entry without a count and with the raised counter |
| `CountExamples.CountedInOrder` | bin-anlys/src/Scheduler/CFG.C:833-920 | a call with one edge to a block with a measured count and one to a block without gets its count when the second is processed last |
| `CountExamples.MissedInOrder` | bin-anlys/src/Scheduler/CFG.C:833-920 | processed in the other order it gets none, and nothing is queued any more |
| `CountExamples.OrderInit` | bin-anlys/src/Scheduler/CFG.C:516-632 | an input from which the initial pass leads to the first of these orders |
| `ExecCounts.Cfg.AddUniqueEdge` | bin-anlys/src/common/PrivateCFG.C:170-183 | an edge of the same ends and kind is returned as it is, and only when there is none a fresh uncounted one is added; the counters stay right |
| `ExecCounts.Cfg.AddEdge` | bin-anlys/src/common/PrivateCFG.C:152-167 | the new edge is fresh and uncounted and is listed at both ends |
| `ExecCounts.Cfg.CountEdge` | bin-anlys/src/Scheduler/CFG.C:814-832 | counting an uncounted edge keeps both counters right and puts it on the guess list while guessing |
| `ExecCounts.Cfg.Scan` | bin-anlys/src/Scheduler/CFG.C:672-688 | the residual and the one edge without a count, failing exactly when there are two |
| `ExecCounts.Cfg.SumAll` | bin-anlys/src/Scheduler/CFG.C:837-845 | the sum over a side, failing exactly when an edge has no count |
| `ExecCounts.Cfg.InsertIn` | bin-anlys/src/Scheduler/CFG.C:915-917 | the node is inserted behind all entries of at most its key |
| `ExecCounts.Cfg.Quiesce` | bin-anlys/src/Scheduler/CFG.C:1355-1426 | goes on exactly when everything has a count, fails exactly when something has none and no partially counted node is left, and else guesses at the first of those; a guess flags the node for good, and where all deductions were queued it queues nothing if and only if the node is blocked: each of its sides is empty or lacks two counts, or it is a call with a fully counted outgoing side |
| `ExecCounts.Cfg.UncountedNodes` | bin-anlys/src/Scheduler/CFG.C:1362-1377 | finds whether a node is uncounted and the first partially counted one |
| `ExecCounts.Cfg.StartGuess` | bin-anlys/src/Scheduler/CFG.C:1407-1425 | flags one node more, remembers the edges counted so far, and queues the node where one edge is missing, so that no deduction is left unqueued if none was |
| `ExecCounts.Cfg.InitEdges` | bin-anlys/src/Scheduler/CFG.C:493-514 | the counters are right before anything is propagated |
| `ExecCounts.Cfg.InitNode` | bin-anlys/src/Scheduler/CFG.C:516-632 | the initial step at a node, repairs included, and when it aborts; it notes whether the node was executed |
| `ExecCounts.Cfg.InitBalance` | bin-anlys/src/Scheduler/CFG.C:529-578 | a measured count matches its incoming edges afterwards, with an entry edge only if it did not before; it aborts when more comes in than the count, or when a routine entry lacks some |
| `ExecCounts.Cfg.InitNodes` | bin-anlys/src/Scheduler/CFG.C:516-632 | the initial pass is the fold of the initial steps and aborts when one of them does; it ends with every deduction queued unless it added an edge; when some flow fits the input it does not abort, adds no edge and keeps agreement with every flow that fits |
| `CountFlow.InStepCalm` | bin-anlys/src/Scheduler/CFG.C:658-1007 | a deduction on the incoming side keeps agreement with the flow, adds no repair edge, and leaves no other deduction unqueued |
| `CountFlow.OutStepCalm` | bin-anlys/src/Scheduler/CFG.C:1012-1350 | the same for the outgoing side |
| `CountFlow.InStepSettled` | bin-anlys/src/Scheduler/CFG.C:658-1007 | whether the counts are consistent or not, a deduction on the incoming side leaves no other deduction unqueued |
| `CountFlow.OutStepSettled` | bin-anlys/src/Scheduler/CFG.C:1012-1350 | the same for the outgoing side |
| `CountFlow.NodeInitSettled` | bin-anlys/src/Scheduler/CFG.C:516-632 | nor does the initial step leave any at its node |
| `CountGuess.RestartSettled` | bin-anlys/src/Scheduler/CFG.C:719-747 | back where the guess was made, with only the guess node queued, no deduction is unqueued |
| `CountGuess.GuessSettled` | bin-anlys/src/Scheduler/CFG.C:1407-1425 | a guess where nothing can be deduced leaves no deduction unqueued, and queues nothing if and only if the node is blocked |
| `CountGuess.BlockedOrNot` | bin-anlys/src/Scheduler/CFG.C:1416-1419 | at an uncounted node where nothing can be deduced, no side lacks exactly one count if and only if the node is blocked |
| `CountGuess.BlockedIsOpen` | bin-anlys/src/Scheduler/CFG.C:1416-1419 | a blocked node with a side that is not held back has an edge without a count |
| `CountGuess.SettledComplete` | bin-anlys/src/Scheduler/CFG.C:647-1351 | when both queues are empty and no deduction is unqueued, none is left, for any input |
| `CountGuess.NoInFails` | bin-anlys/src/Scheduler/CFG.C:846-900 | for counts and partial counts that come from a flow, no guess fails on the incoming side |
| `CountGuess.NoOutFails` | bin-anlys/src/Scheduler/CFG.C:1268-1322 | nor on the outgoing side |
| `CountFlow.InStepBounds` | bin-anlys/src/Scheduler/CFG.C:658-1007 | without calls, what a step on the incoming side counts is counted in every state above it in which nothing can be deduced |
| `CountFlow.OutStepBounds` | bin-anlys/src/Scheduler/CFG.C:1012-1350 | the same for the outgoing side |
| `ExecCounts.OrderIsFree` | bin-anlys/src/Scheduler/CFG.C:516-1351 | without calls, any two first quiet states of one input have the same counts, whatever the order in which nodes and entries were visited |
| `CountFlow.InStepDerived` | bin-anlys/src/Scheduler/CFG.C:658-1007 | a step on the incoming side only adds counts, any flow that fitted before still fits, and without calls every state in which nothing can be deduced that had the counts before has them after |
| `CountFlow.OutStepDerived` | bin-anlys/src/Scheduler/CFG.C:1012-1350 | the same for the outgoing side |
| `CountFlow.NodeInitCalm` | bin-anlys/src/Scheduler/CFG.C:516-632 | so does the initial step at a node, which then never contradicts the flow |
| `ExecCounts.InitGoodRest` | bin-anlys/src/Scheduler/CFG.C:516-632 | for an input that some flow fits, the whole initial pass never aborts and derives only counts that every fitting flow has |
| `CountFlow.Residual` | bin-anlys/src/Scheduler/CFG.C:667-690 | Kirchhoff's law: the residual of a counted node is never negative, zero when all its edges are counted, and the flow of the last edge otherwise |
| `CountFlow.NoInTrouble` | bin-anlys/src/Scheduler/CFG.C:690-804 | for counts that come from a flow, neither a failed guess nor an entry edge is possible on the incoming side |
| `CountFlow.NoOutTrouble` | bin-anlys/src/Scheduler/CFG.C:1100-1233 | nor on the outgoing side |
| `CountFlow.SourceSettledCalm` | bin-anlys/src/Scheduler/CFG.C:833-1002 | a call and its return side never disagree for counts that come from a flow |
| `CountFlow.QuietComplete` | bin-anlys/src/Scheduler/CFG.C:647-1351 | when both queues are empty, no counted node has exactly one uncounted edge on a side and no uncounted node a fully counted side, apart from the outgoing sides of calls |
| `CountFlow.CountsForced` | bin-anlys/src/Scheduler/CFG.C:647-1351 | whatever is counted is forced: two flows that fit the same measurements agree on it |
| `CountTheory.UnmarkExact` | bin-anlys/src/Scheduler/CFG.C:733-736 | un-counting an edge and lowering the two counters keeps all counters right |
| `CountTheory.MarkExact` | bin-anlys/src/Scheduler/CFG.C:814-832 | counting an edge and raising the two counters keeps all counters right |
| `CountTheory.StaleCounted` | bin-anlys/src/Scheduler/CFG.C:963-971 | counting a counted edge again makes the counters wrong |
| `CountTheory.AppendExact` | bin-anlys/src/Scheduler/CFG.C:778-787 | an added uncounted edge leaves all counters right |
| `DominatorTree.DomTree.constructor` | bin-anlys/src/OAUtils/DomTree.C:63-141 | whenever the iteration ends, the parent of each node is the largest other member of its final set; if every other node is avoided by loops through the root with greatest common divisor 1, or the root has no incoming edge, then the parent of every node but the root is its immediate dominator |
| `DominatorTree.DomTree.DominatorSets` | bin-anlys/src/OAUtils/DomTree.C:85-121 | whenever the iteration ends it ends with the sets that the rounds settle on, and the set of each node is exactly the nodes on every path from the root to it if and only if the root is as above |
| `DominatorTree.DomTree.Round` | bin-anlys/src/OAUtils/DomTree.C:92-120 | a round replaces each set by the meet of its predecessors and reports whether any set changed; from sets inside their equations it never drops a dominator, and strictly shrinks them unless it reports no change |
| `DominatorTree.DomTree.MeetPreds` | bin-anlys/src/OAUtils/DomTree.C:94-115 | sets not yet known are skipped and the others intersected |
| `DominatorTree.DomTree.ImmediateDominators` | bin-anlys/src/OAUtils/DomTree.C:123-135 | the parent of each node is the largest member of its set other than itself, and -1 if there is none |
| `DominatorTree.DomTree.ComputeDominanceFrontiers` | bin-anlys/src/OAUtils/DomTree.C:162-189 | exactly the nodes whose strict dominance ends at b get b in their frontier, with unreached predecessors left out, for every b but the root; the walk fails if and only if the root has several incoming edges and one of them from a reached node |
| `DominatorTree.DomTree.RunUp` | bin-anlys/src/OAUtils/DomTree.C:171-182 | the runner visits exactly the nodes that dominate the predecessor and do not strictly dominate b, and stops at the immediate dominator of b before it leaves the tree |
| `DominatorTree.LimitIsRight` | bin-anlys/src/OAUtils/DomTree.C:85-121 | the sets that the rounds settle on are the dominators if and only if the root is as RightRootIsExact says |
| `DominatorTree.SelfRootParents` | bin-anlys/src/OAUtils/DomTree.C:123-135 | with an edge of the root from itself, 1 becomes the parent of the root and the root that of 1 |
| `DominatorTree.StrayIntoRoot` | bin-anlys/src/OAUtils/DomTree.C:98-106 | an edge into the root from itself or from a node that is not reached makes the root its own predecessor |
| `DominatorSets.Narrow` | bin-anlys/src/OAUtils/DomTree.C:92-120 | one step keeps every dominator in its set, keeps every set inside its equation, and lowers the measure when it changes anything |
| `DominatorSets.FixedPointIsDominance` | bin-anlys/src/OAUtils/DomTree.C:85-121 | sets that satisfy their equations and hold all dominators are the dominator sets |
| `DominatorSets.RootLoopRunsForEver` | bin-anlys/src/OAUtils/DomTree.C:85-121 | on a graph of four nodes whose root has an incoming edge no two successive rounds agree: the loop does not end |
| `DominatorSets.RootMustStand` | bin-anlys/src/OAUtils/DomTree.C:92-120 | the necessary half: on a graph whose root may have incoming edges, the dominators are left alone by a round if and only if no other node dominates all predecessors of the root |
| `RootLoops.RightRootIsExact` | bin-anlys/src/OAUtils/DomTree.C:85-121 | the iteration ends with the dominators if and only if the root has no incoming edge, or none from itself and for each other node the loops through the root that avoid it have lengths with greatest common divisor 1, where a loop is one longer than the number of its edges up to the last that do not lead to a larger number |
| `RootLoops.EndsExactly` | bin-anlys/src/OAUtils/DomTree.C:85-121 | it ends at all if and only if that is so, or the root has an edge from itself, or each node for which it is not so is avoided by no loop and by routes whose lengths are, from some number on, all or none |
| `RootLoops.RootSums` | bin-anlys/src/OAUtils/DomTree.C:92-120 | the root is without another node in round 1 + n exactly when n is a sum of lengths of loops that avoid that node |
| `RootLoops.Lacking` | bin-anlys/src/OAUtils/DomTree.C:92-120 | any node is without another in a round exactly when a route that avoids it leads from the root, which was without it as many rounds before as the route has edges that do not rise |
| `RootLoops.SelfRoot` | bin-anlys/src/OAUtils/DomTree.C:85-121 | a root with an edge from itself: the iteration ends with the dominators and the number 1 in every set, the placeholder it started from |
| `RootLoops.RunsForEver` | bin-anlys/src/OAUtils/DomTree.C:85-121 | if the loops that avoid some node have lengths with a greater common divisor than 1, it does not end |
| `RootLoops.RisingStays` | bin-anlys/src/OAUtils/DomTree.C:85-121 | it ends with the dominators if each other node is avoided by a path from the root to one of its predecessors along rising numbers, and the set of the root is right from the first round on |
| `RootLoops.LoopsAvoid` | bin-anlys/src/OAUtils/DomTree.C:92-120 | the condition of RootMustStand says that some loop avoids each node, and no more |
| `RootLoops.EvenLoopsExample` | bin-anlys/src/OAUtils/DomTree.C:85-121 | five nodes on which that holds and the iteration does not end |
| `DominatorSets.ReadingKeepsDominance` | bin-anlys/src/OAUtils/DomTree.C:98-106 | a predecessor that is not reached is read as number 0; the dominators are unaffected if and only if no such predecessor hides a strict dominator |
| `DominatorSets.StrayExample` | bin-anlys/src/OAUtils/DomTree.C:98-106 | four nodes, one of them not reached, on which reading it as the root loses a dominator |
| `DominatorSets.ReadNumbered` | bin-anlys/src/OAUtils/DomTree.C:98-106 | what is read is a graph over the reached nodes again |
| `Dominance.LargestIsImmediate` | bin-anlys/src/OAUtils/DomTree.C:123-135 | the largest number among the strict dominators is the immediate dominator |
| `Dominance.ImmediateIsUnique` | bin-anlys/src/OAUtils/DomTree.C:123-135 | there is only one |
| `Dominance.Chain` | bin-anlys/src/OAUtils/DomTree.C:123-132 | of two dominators of a node the smaller number dominates the larger |
| `DominatorTree.TreeIsDominance` | bin-anlys/src/OAUtils/DomTree.C:123-135 | above in the tree means dominates, both ways |
| `DominatorTree.FrontierOfGraph` | bin-anlys/src/OAUtils/DomTree.C:162-189 | b is in the frontier of x exactly when x dominates a reached predecessor of b and does not strictly dominate b |
| `DominatorTree.SingleHasNoFrontier` | bin-anlys/src/OAUtils/DomTree.C:168 | leaving out nodes with a single incoming edge loses nothing, but for the root |
| `DominatorTree.RootFrontier` | bin-anlys/src/OAUtils/DomTree.C:168 | what is lost there: a root with one incoming edge, from a reached node, is in the frontiers of exactly the dominators of that node |
| `GraphDominators.GraphIsFlow` | bin-anlys/src/OAUtils/DomTree.C:76-84 | numbering nodes in depth-first order gives every node but the root a predecessor with a smaller number |
| `DirectedGraphs.DGraph.CreateDfsLinks` | bin-anlys/src/OAUtils/DGraph.C:54-68 | the threaded links spell out the depth-first order from the node on, although a null link means both not yet visited and last so far; by the lists alone, each node that is new is the first sink not met before of the latest node met that has one; the recursion terminates |
| `DirectedGraphs.DGraph.VisitSink` | bin-anlys/src/OAUtils/DGraph.C:59-65 | one neighbour extends the chain exactly as the search does, whether it is new, linked, or the last one met again; the sink of that edge comes directly behind the chain if it is new |
| `DirectedGraphs.DGraph.Rethread` | bin-anlys/src/OAUtils/BaseGraph.C:102-110 | from reset links the chain is the depth-first order from the root |
| `DirectedGraphs.DGraph.PrepareDfs` | bin-anlys/src/OAUtils/BaseGraph.C:99-113 | links that are still marked as valid are the depth-first order already, so the cached ones serve as well as new ones |
| `DirectedGraphs.DGraph.OrderIsReachable` | bin-anlys/src/OAUtils/DGraph.C:54-68 | the order starts at the root and holds every reachable node exactly once, and nothing else |
| `DirectedGraphs.DGraph.OrderIsDepthFirst` | bin-anlys/src/OAUtils/DGraph.C:54-68 | by the lists of edges alone: it starts at the root, each further node is the first sink, in the order of the list, not met before of the latest node before it that has one, and no sink is left out |
| `DirectedGraphs.Traverse` | bin-anlys/src/OAUtils/BaseGraph.h:287-295 | the iterator yields that order and ends, on a cached graph as on a changed one; what it yields is in depth-first order by the lists of edges alone |
| `DirectedGraphs.DfsIterator.constructor` | bin-anlys/src/OAUtils/BaseGraph.C:99-115 | the iterator starts at the root with valid links, and a valid graph stays one |
| `DirectedGraphs.DfsIterator.Rest` | bin-anlys/src/OAUtils/BaseGraph.h:291-292 | iterating from a threaded chain yields the chain |
| `DepthFirst.DfsFindsReachable` | bin-anlys/src/OAUtils/DGraph.C:54-68 | the search visits exactly what can be reached, each once |
| `DepthFirst.DfsIsDeep` | bin-anlys/src/OAUtils/DGraph.C:54-68 | the search meets each node as the first unmet neighbour, in the order of its list, of the latest node met that has one |
| `DepthFirst.DfsCloses` | bin-anlys/src/OAUtils/DGraph.C:54-68 | all neighbours of what the search adds are met |
| `DepthFirst.SearchSteps` | bin-anlys/src/OAUtils/DGraph.C:59-65 | searching the neighbours one by one is searching the list |
| `DirectedGraphs.DGraph.AddNode` | bin-anlys/src/OAUtils/DGraph.C:86-89 | adds the node or refuses for the reason named; the graph, and the links that may be cached, stay consistent if and only if the added node brings no edges along |
| `DirectedGraphs.DGraph.AddEdge` | bin-anlys/src/OAUtils/DGraph.C:97-103 | adds the edge at the end of both lists and missing ends as nodes, the first of which becomes the root of an empty graph, or refuses; a refusal changes no list; the graph and its cached links stay consistent if and only if the new ends bring no edges along |
| `DirectedGraphs.DGraph.BaseAddEdge` | bin-anlys/src/OAUtils/BaseGraph.C:146-164 | all ways to refuse an edge, in their order, and what has been added before the refusal |
| `DirectedGraphs.DGraph.RemoveEdge` | bin-anlys/src/OAUtils/DGraph.C:110-120 | the edge leaves the set and both lists and nothing else changes, nor does anything on refusal; the graph stays consistent and its links are due again |
| `DirectedGraphs.DGraph.RemoveNode` | bin-anlys/src/OAUtils/DGraph.C:126-152 | the node and exactly its incident edges are gone, also self-loops, while the node itself keeps its list of incoming edges and its list of outgoing ones but for self-loops; the graph stays consistent and its links are due again, and a refusal changes nothing |
| `DirectedGraphs.ReaddExample` | bin-anlys/src/OAUtils/DGraph.C:86-152 | a node that is removed and added again lists an edge that is not in the graph |
| `DirectedGraphs.DGraph.UnlinkNode` | bin-anlys/src/OAUtils/DGraph.C:131-151 | what is left of the graph after its edges are dropped is consistent |
| `DirectedGraphs.DGraph.BaseRemoveNode` | bin-anlys/src/OAUtils/BaseGraph.C:206-219 | refuses null, a root of a larger graph and a node that is not there, in this order |
| `DirectedGraphs.DGraph.DropEdges` | bin-anlys/src/OAUtils/DGraph.C:131-151 | both loops together remove each incident edge once from the set and from the list at its other end |
| `DirectedGraphs.DGraph.EdgeIsListedOnce` | bin-anlys/src/OAUtils/DGraph.C:94-120 | an edge is in the graph exactly when it is once in the list of its source and once in that of its sink, both nodes of the graph |
| `DirectedGraphs.DGraph.constructor` | bin-anlys/src/OAUtils/BaseGraph.h:369 | an empty graph is consistent, whatever its uninitialised flag says |
| `MemoryDependences.DGBuilder.ArrayDependences` | bin-anlys/src/Scheduler/DGBuilder.C:4108-4704 | for two strided references with any starts and nonzero strides: giving up means that they never meet; for equal strides, and for equal starts with strides of opposite signs, an edge is added if and only if two iterations meet at that distance and direction; for other equal starts, the edge within the iteration is added, and the one to the next if and only if any two iterations meet in that order, and all are real if and only if then two successive ones do; for growing distances an edge is added if and only if the start is met, and is the least of all; an assertion fails if and only if the follower is met before its first iteration; every edge comes from two iterations that meet if and only if the unchecked probe does not misfire, and every pair that meets is covered by an edge if and only if the probes next to the crossing hit, branch by branch |
| `MemoryDependences.DGBuilder.DifferentBases` | bin-anlys/src/Scheduler/DGBuilder.C:4177-4700 | the same for different starts: exactly when an assertion fails, when all edges are real, when all meeting pairs are covered |
| `MemoryDependences.DGBuilder.EqualBases` | bin-anlys/src/Scheduler/DGBuilder.C:4113-4176 | an edge within the iteration, and one to the next if and only if nodeB touches a place in a later iteration than node, among any number of iterations; every pair of iterations that meet is covered by an edge at least as strict |
| `MemoryDependences.LaterMeets` | bin-anlys/src/Scheduler/DGBuilder.C:4153-4174 | with equal starts nodeB comes to a place later than node if and only if both strides have one sign and that of node is longer |
| `MemoryDependences.EqualBasesExact` | bin-anlys/src/Scheduler/DGBuilder.C:4113-4176 | of these edges the one within the iteration is always real, and the fixed distance 1 is right if and only if some iteration meets the next one; for equal strides and for opposite ones the edges are exactly the real ones |
| `MemoryDependences.DGBuilder.EqualStrides` | bin-anlys/src/Scheduler/DGBuilder.C:4217-4238 | an edge if and only if two iterations meet, with exactly their distance and direction |
| `MemoryDependences.DGBuilder.Towards` | bin-anlys/src/Scheduler/DGBuilder.C:4253-4346 | with opposite strides, every edge comes from two iterations that meet, and giving up means that none do; the assertion of the second probe fails if and only if the other reference would be met before its first iteration; all that meet are covered if and only if on each side of the crossing the nearest iteration meets one or none does |
| `MemoryDependences.DGBuilder.SameSign` | bin-anlys/src/Scheduler/DGBuilder.C:4347-4626 | the four cases of equal signs: growing distances get the least one if the start is met and none otherwise; for shrinking ones, both signs of the stride, when every edge is real and when every meeting pair is covered |
| `MemoryDependences.DGBuilder.GrowingForward` | bin-anlys/src/Scheduler/DGBuilder.C:4369-4390 | an edge if and only if the start is met exactly, at the least distance of all pairs that meet; all are covered if and only if that is so or none meet |
| `MemoryDependences.DGBuilder.GrowingBackward` | bin-anlys/src/Scheduler/DGBuilder.C:4391-4410 | the same the other way |
| `MemoryDependences.DGBuilder.ShrinkingForward` | bin-anlys/src/Scheduler/DGBuilder.C:4411-4515 | every edge is real if and only if the probe without an assertion does not misfire, for both signs of the stride; every meeting pair is covered if and only if on each side of the crossing none meet or the probe there hits |
| `MemoryDependences.DGBuilder.ShrinkingBackward` | bin-anlys/src/Scheduler/DGBuilder.C:4516-4625 | the same the other way |
| `MemoryDependences.DGBuilder.AddUniqueDependency` | bin-anlys/src/Scheduler/DGBuilder.C:4227-4236 | the list keeps what it had in its order, holds the edge afterwards, and still lists none twice |
| `MemoryDependences.EarlyReturnIsRight` | bin-anlys/src/Scheduler/DGBuilder.C:3936-3943 | the early exit is taken exactly for zero strides and different starts, and is right |
| `MemoryDependences.TripsExample` | bin-anlys/src/Scheduler/DGBuilder.C:4299-4315 | an input on which the assertion fails |
| `MemoryDependences.MisfireExample` | bin-anlys/src/Scheduler/DGBuilder.C:4438-4462 | an input on which an edge is added between references that never meet |
| `MemoryDependences.MissedExample` | bin-anlys/src/Scheduler/DGBuilder.C:4361-4390 | an input with growing distances on which iterations 1 and 2 meet but the start is not met: the condition for covering fails |
| `MemoryDependences.MissedRun` | bin-anlys/src/Scheduler/DGBuilder.C:4369-4390 | on that input the search goes through, adds no edge, and leaves the pair that meets without one |
| `MemoryDependences.MissedFirstExample` | bin-anlys/src/Scheduler/DGBuilder.C:4299-4334 | an input with opposite strides on which the meeting at the very start is not covered |
| `MemoryDependences.FirstIsMissed` | bin-anlys/src/Scheduler/DGBuilder.C:4299-4334 | that is so whenever the iteration after the crossing meets the first one of the other reference |
| `Coverage.ShrinkCovered` | bin-anlys/src/Scheduler/DGBuilder.C:4411-4515 | for shrinking distances, all pairs that meet are covered if and only if, on each side of the crossing, none meet or the probed iteration does; before the crossing the probe closest to it decides, after it the next one or a short misfire |
| `Coverage.FacingCovered` | bin-anlys/src/Scheduler/DGBuilder.C:4253-4346 | the same for opposite strides |
| `MemoryDependences.FirstProbe` | bin-anlys/src/Scheduler/DGBuilder.C:4267-4297 | the assertion of the first probe never fails |
| `MemoryDependences.SecondProbe` | bin-anlys/src/Scheduler/DGBuilder.C:4299-4334 | that of the second fails exactly when the other reference would be met before its first iteration |
| `MemoryDependences.UncheckedForward` | bin-anlys/src/Scheduler/DGBuilder.C:4432-4462 | the probe whose assertion is disabled adds a real edge if and only if it does not answer with an iteration before the first, or, for negative strides, with one whose distance other iterations happen to have |
| `MemoryDependences.CheckedForward` | bin-anlys/src/Scheduler/DGBuilder.C:4464-4491 | that of the next iteration always passes its assertion |
| `MemoryDependences.LastForward` | bin-anlys/src/Scheduler/DGBuilder.C:4494-4515 | the probe at the last iteration always passes both assertions |
| `MemoryDependences.OffTheUnit` | bin-anlys/src/Scheduler/DGBuilder.C:4206-4207 | a distance that is no multiple of the common stride is never covered |
| `MemoryDependences.MovingApart` | bin-anlys/src/Scheduler/DGBuilder.C:4240-4243 | references that move apart never meet |
| `MemoryDependences.TooLate` | bin-anlys/src/Scheduler/DGBuilder.C:4350-4357 | nor do they within fewer iterations than the faster needs |
| `MemoryDependences.FarApart` | bin-anlys/src/Scheduler/DGBuilder.C:4256-4265 | nor when they come together only after the last iteration |
| `MemoryDependences.EqualStridesMeet` | bin-anlys/src/Scheduler/DGBuilder.C:4217-4238 | with equal strides all meetings have one distance and direction |
| `MemoryDependences.Lowest` | bin-anlys/src/Scheduler/DGBuilder.C:4185-4194 | the factors are the strides over their common stride, at most one of them negative |
| `Meetings.GrowingIsLeast` | bin-anlys/src/Scheduler/DGBuilder.C:4361-4390 | the distance met from the start is the least |
| `Meetings.ShrinkingLast` | bin-anlys/src/Scheduler/DGBuilder.C:4494-4515 | in the last iteration the leader is met at an earlier one |
| `Ratios.RatioOf` | bin-anlys/src/common/slice_references.C:602-687 | both numbers are the factors times one unit that every common divisor divides, the factors are coprime and not both negative |
| `Ratios.UnitFactor` | bin-anlys/src/common/slice_references.C:602-687 | the second factor is 1 or -1 exactly when the second number divides the first, and 1 with a positive first factor exactly when the quotient is positive |
| `Ratios.GreatestCommonDenominator` | bin-anlys/src/common/slice_references.C:33-54 | Euclid's loop computes a common divisor that every other one divides, and 0 when an argument is 0 |
| `CycleSets.CycleSetDag.FixSet` | bin-anlys/src/Scheduler/CycleSetDAG.C:186-200 | aborts exactly on an unknown or fixed set. Otherwise, on any graph: the set gets the number after the last one given; the nodes it walks to forwards past the fixed ones get the numbers right behind, and those it walks to backwards past all these the numbers behind those, either part in depth-first order; nothing else is fixed, old numbers stay, and the result is how many are new. On an acyclic graph these are exactly the set and what it walks to either way past the nodes fixed before |
| `CycleSets.CycleSetDag.FixForwardSets` | bin-anlys/src/Scheduler/CycleSetDAG.C:203-225 | fixes in depth-first order what the node reaches through unfixed nodes, and counts it; the recursion terminates |
| `CycleSets.CycleSetDag.FixBackwardSets` | bin-anlys/src/Scheduler/CycleSetDAG.C:228-250 | the same backwards |
| `CycleSets.CycleSetDag.AddCycleSet` | bin-anlys/src/Scheduler/CycleSetDAG.C:83-98 | one node per set, unfixed when new |
| `CycleSets.CycleSetDag.AddUniqueEdge` | bin-anlys/src/Scheduler/CycleSetDAG.C:126-149 | an edge that is there is not added again, and a new one is listed at both ends; aborts exactly on an unknown set |
| `CycleSets.CycleSetDag.ResetSchedule` | bin-anlys/src/Scheduler/CycleSetDAG.C:171-183 | nothing is fixed afterwards |
| `CycleSets.CycleSetDag.IsSetFixed` | bin-anlys/src/Scheduler/CycleSetDAG.C:253-260 | tells whether the set was fixed since the last reset |
| `CycleSets.MarksIsBijection` | bin-anlys/src/Scheduler/CycleSetDAG.C:186-250 | the marks of fixed nodes are the numbers 1 to the last one given, each once |
| `CycleSets.FixedInOrder` | bin-anlys/src/Scheduler/CycleSetDAG.C:186-200 | behind the nodes fixed before come the set, what it walks to forwards past them, and what it walks to backwards past all of these; each node is the first unmet one on the list of the latest node that has one |
| `CycleSets.NodeIsFixed` | bin-anlys/src/Scheduler/CycleSetDAG.C:186-200 | so the numbers given are the next for the set, then those for the forward part, then those for the backward part |
| `CycleSets.ForwardsFirst` | bin-anlys/src/Scheduler/CycleSetDAG.C:186-225 | a node fixed by this call has a number of at most the last one before it plus one plus the size of the forward part if and only if it is the set or in that part, and a larger one if and only if it is in the backward part |
| `CycleSets.AcyclicBothWays` | bin-anlys/src/Scheduler/CycleSetDAG.C:186-200 | on an acyclic graph the two searches together find exactly what is walked to one way or the other past the nodes fixed before |
| `CycleSets.SearchAdds` | bin-anlys/src/Scheduler/CycleSetDAG.C:203-250 | one search adds exactly what can be walked to past the fixed nodes, in depth-first order of the lists |
| `CycleSets.BackwardIsFree` | bin-anlys/src/Scheduler/CycleSetDAG.C:196-197 | on an acyclic graph what the forward search fixed never blocks the backward one: the nodes walked to backwards are the same with and without it |
| `FreeWalks.DfsAddsWalked` | bin-anlys/src/Scheduler/CycleSetDAG.C:203-250 | a search that stops at nodes met before adds exactly what can be walked to past them |
| `BitSets.BitSet.constructor` | bin-anlys/src/Scheduler/BitSet.C:18-27 | an empty set with as many words as its size needs |
| `BitSets.BitSet.OrAssign` | bin-anlys/src/Scheduler/BitSet.C:68-75 | the union, for equal sizes |
| `BitSets.BitSet.AndAssign` | bin-anlys/src/Scheduler/BitSet.C:88-95 | the intersection |
| `BitSets.BitSet.XorAssign` | bin-anlys/src/Scheduler/BitSet.C:108-115 | the symmetric difference |
| `BitSets.BitSet.MinusAssign` | bin-anlys/src/Scheduler/BitSet.C:148-155 | the difference |
| `BitSets.BitSet.Insert` | bin-anlys/src/Scheduler/BitSet.C:170-180 | adds the element, and nothing for one out of range |
| `BitSets.BitSet.Remove` | bin-anlys/src/Scheduler/BitSet.C:195-205 | takes the element out |
| `BitSets.BitSet.Complement` | bin-anlys/src/Scheduler/BitSet.C:239-247 | the complement within the size, although the padding bits fill up |
| `BitSets.BitSet.Union` | bin-anlys/src/Scheduler/BitSet.C:57-66 | a new set with the union, from a copy |
| `BitSets.BitSet.Contains` | bin-anlys/src/Scheduler/BitSet.C:249-258 | membership |
| `BitSets.BitSet.Equals` | bin-anlys/src/Scheduler/BitSet.C:207-223 | true if and only if sizes and members are the same, whatever the padding bits are |
| `BitSets.BitSet.NonEmpty` | bin-anlys/src/Scheduler/BitSet.C:226-237 | true if and only if there is a member, whatever the padding bits are |
| `BitSets.BitSet.Size` | bin-anlys/src/Scheduler/BitSet.C:266-294 | the number of members, whatever the padding bits are |
| `BitSets.BitSetIterator.constructor` | bin-anlys/src/Scheduler/BitSet.h:91-114 | stops at the least member or at the end |
| `BitSets.BitSetIterator.Next` | bin-anlys/src/Scheduler/BitSet.h:116-145 | goes to the next larger member or to the end, and stays there |
| `BitSets.Elements` | bin-anlys/src/Scheduler/BitSet.h:91-145 | iterating yields the members in increasing order, each once |
| `BitSets.CountIsSize` | bin-anlys/src/Scheduler/BitSet.C:266-294 | counting bits below the size counts the members |
| `BitSets.SameMembers` | bin-anlys/src/Scheduler/BitSet.C:212-222 | equal words and an equal masked last word mean equal sets |
| `BitSets.DifferentWord` | bin-anlys/src/Scheduler/BitSet.C:212-222 | a different word below the size means different sets |
| `Words.BitOfAnd` | bin-anlys/src/Scheduler/BitSet.C:78-95 | place by place, a bitwise AND is the conjunction |
| `Words.BitOfXor` | bin-anlys/src/Scheduler/BitSet.C:97-115 | and XOR the inequality |
| `Words.BitOfNot` | bin-anlys/src/Scheduler/BitSet.C:239-247 | and complement the negation |
| `Words.BitOfShr` | bin-anlys/src/Scheduler/BitSet.h:119-122 | shifting right moves every place down |
| `WindowTrees.SplitTrace` | mem-anlys/main.cpp:841-1052 | the forest has one tree per maximal run of one sample, which holds exactly its accesses and their addresses as keys, built from leaves of eight accesses, the last one of each sample possibly shorter, that concatenate to the trace |
| `WindowTrees.TreeHoldsSample` | mem-anlys/main.cpp:939-949 | the tree of a sample holds its accesses in order and their addresses as keys, with exact counts when there are no extra frame loads |
| `WindowTrees.FullTreeHoldsTrace` | mem-anlys/main.cpp:224-303 | the tree over the forest holds the whole trace, with exactly its addresses as keys |
| `WindowTrees.BuildTree` | mem-anlys/main.cpp:224-303 | the recursion over levels yields the root, or none without windows |
| `WindowTrees.OneLevel` | mem-anlys/main.cpp:267-301 | one level joins neighbours in pairs and a last one alone |
| `WindowTrees.AllAtOneDepth` | mem-anlys/main.cpp:224-303 | all windows given end up at the same depth, in their order, emptied unless they head a sample |
| `WindowTrees.LevelsIsLog` | mem-anlys/main.cpp:224-303 | that depth is the least whose power of two is not below the number of windows |
| `WindowTrees.RootHoldsAll` | mem-anlys/main.cpp:224-303 | the root's trace is the concatenation of the windows', its keys are exactly the addresses, and its counts are exact when theirs are |
| `WindowTrees.RootIsFaithful` | mem-anlys/main.cpp:224-303 | what is below a window always concatenates to its trace where every node has two children |
| `WindowTrees.JoinTwo` | mem-anlys/main.cpp:253-258 | a joined window holds the accesses of both and hands over neither twice |
| `WindowTrees.JoinOne` | mem-anlys/main.cpp:291-296 | a window joined alone keeps its accesses one level up |
| `WindowTrees.EveryWindowRefills` | mem-anlys/Window.cpp:222-278 | at every depth of the tree the windows were emptied and held the whole trace between them, and filling one whose nodes below all have two children brings back exactly what it held |
| `WindowTrees.AddWindow` | mem-anlys/Window.cpp:112-166 | the merged map, by the branch the code takes: for an empty window each kind of access to each address is counted once for each such access of both traces, and else the counts of both are added |
| `WindowTrees.Recount` | mem-anlys/Window.cpp:114-146 | recounting a trace adds, for each address and kind, the number of accesses of that kind to that address, and no extra frame loads |
| `Traces.MergedTwice` | mem-anlys/Window.cpp:112-166 | merging the left child counts its trace without extra frame loads; merging the right one then adds its map, or recounts both when the left is empty |
| `Traces.TallyMetric` | mem-anlys/Window.cpp:82-109 | what the tally of a trace counts for an address and a metric: the accesses of that kind to that address, and for constant loads also the sum of their extra frame loads when those are counted |
| `WindowTrees.LeafMetric` | mem-anlys/Window.cpp:82-109 | so every leaf counts for its trace, extra frame loads included |
| `WindowTrees.ForestMetric` | mem-anlys/main.cpp:224-303 | and the root over the whole trace: every kind but constant loads exactly as often as there are such accesses, constant loads between that number and the one with all extra frame loads, and exactly either where the counts are exact |
| `WindowTrees.RootExactness` | mem-anlys/main.cpp:224-303 | the counts of the root over some windows are those of the accesses if and only if the number of windows is no power of two or the last counts no extra frame loads, and those of all loads if and only if no window before the last has any and, with a power of two, the last counts all of its own, else has none |
| `WindowTrees.SampleExactness` | mem-anlys/main.cpp:939-949 | so for the windows of one sample: exact for the accesses if and only if there is not a power of two of them or the last has no extra frame loads |
| `WindowTrees.ForestExactness` | mem-anlys/main.cpp:224-303 | and for the whole trace: the last window of the last sample alone decides, and only when both levels count a power of two |
| `WindowTrees.TwoLeaves` | mem-anlys/Window.cpp:112-166 | of two joined leaves of one access each, the left one loses its extra frame loads and the right one keeps them |
| `WindowTrees.FrameLoadsExample` | mem-anlys/Window.cpp:112-166 | an input on which the counts leave five frame loads out, and in the other order include them |
| `Traces.PartlyCounted` | mem-anlys/Window.cpp:112-166 | counts without the frame loads of one part are exact exactly as the other part is |
| `WindowTrees.LeafGrows` | mem-anlys/Window.cpp:82-109 | a leaf that takes one access more counts, for each address and metric, the accesses of that kind in its trace and all their extra frame loads |
| `Traces.SamplesAreRuns` | mem-anlys/main.cpp:880-889 | the samples are the maximal runs of one sample number and concatenate to the trace |

## Left out

Parts of the repository that are not modelled:

- Reading and writing files, drawing, printing and debug output, command lines, and the parsing of traces.
- Glue to Dyninst, XED and HPCToolkit, instruction decoding, the Python scripts and the build recipes.
- Sampling statistics in floating point (multipliers, footprint heuristics, times and periods of windows).
- Memory management, destructors, and overflow of counters, which are unbounded here.
- BFS iterators, whose links are a stub, `set_root`, `Tree::remove`, and the iterator of CFG over routine entries.
- Dependences between scalar and array references, indirect accesses, and the algebra of symbolic formulas: formulas
  are integers here, so HasIntegerRatio sees one constant term.
- The bit set operators that return a new set, apart from `|` and `~`, are the same loops over a copy.

What the models do not capture:

- ExecCounts.Cfg.ComputeBBAndEdgeCounts: nodes and edges are values found by number, so aliasing between them is not
  modelled, and nodes are visited in the order of their numbers instead of their addresses, which makes a difference
  with call surrogates only; execution and block counts that copy the counter, the list of top nodes and the flags of
  the graph are left out. Of the values of counts derived from a guess nothing is claimed unless all partial counts
  are the flow's, and once a repair has added an edge it is not claimed that every deduction is made; the flow argument
  and the ghost results are read off the run and not part of the code.
- DominatorTree.DomTree.constructor: requires that the iteration ends, on the condition of `EndsExactly`, because the
  loop would not otherwise; tree nodes and edges are an array of parents, and the graph is a list of incoming numbers
  per node.
- MemoryDependences.DGBuilder.ArrayDependences: floating-point ceilings and floors with an epsilon are exact ones, the
  number of iterations is an integer above 1, and strides are not zero, as in the branch modelled.
- CycleSets.CycleSetDag.FixSet: nodes are numbers in the order of their creation and edges a list per node, so
  removal is not modelled.
- BitSets.BitSet.Equals: words are naturals below 2^32 with operations defined place by place.
- WindowTrees.BuildTree: windows are values. What is handed over when a window becomes a child is a function of it;
  parent pointers, sharing of windows and accesses, and times are not captured. A child that was emptied is not
  revisited by the code, so the order of updates is the order of the joins.
- Traces.TallyMetric: an access may be of any kind here, although `main.cpp:685` leaves those that load from the frame
  out of the trace and only counts them as extra frame loads of the next one.
- WindowTrees.EveryWindowRefills: speaks only of windows with two children wherever the walk goes down; with one child
  the code would follow a null pointer.
