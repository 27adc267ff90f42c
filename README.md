# Maze generator and solver — a Dafny model

The program builds a rectangular maze and lets a player or a search walk it.
- It lays out a `mazeWidth` × `mazeHeight` grid of cells. Each cell is joined to its right neighbour by a pair of edges weighing 1..10 and to its bottom neighbour by a pair weighing 1..10·`horizontalPreference`.
- Kruskal's algorithm, with a union-find map of representatives, turns that grid into a spanning tree, one worklist edge per tick. The key 's' finishes it at once.
- Once the tree is complete, every cell learns its open sides (left, top, right, bottom) and its neighbour list.
- The player moves with the arrow keys through open passages. 'b' and 'd' start a breadth-first or depth-first search from the top-left entrance to the bottom-right exit, one step per tick. Once the exit is popped, the path is traced back along the `cameFromEdge` predecessors.

The model is split into ten modules:

| module | what it holds |
|---|---|
| `Grid` | `Cell` and `Edge` values, their `equals`/`hashCode`, and the weight comparator |
| `EdgeSort` | the stable sort by weight (`Collections.sort`) |
| `UnionFind` | the representatives map as a forest, with `findRepresentative`'s root and `unionRepresentative`'s union |
| `SpanningTree` | Kruskal's algorithm as a value-level run (`Process`, `RunFrom`) and the `Kruskal` class proved against it |
| `GridGraph` | `initGraph(seed)`, with the random generator as a parameter |
| `Worklists` | the `Stack` and `Queue` classes |
| `Passages` | `edgesFromCell`/`edgesToCell`, `canGoToCell`, `addDirectionsToCell` and `addToCellNeighbors` as functions on the tree |
| `Search` | one step of the DFS/BFS, its invariant and `backtrackPathImmediately`'s path |
| `MazeRules` | the whole world as a value, with `onTick` and `onKeyEvent` as functions on it and the invariant they keep |
| `Maze` | the `MazeWorld` and `Player` classes, whose methods are proved against `MazeRules` |

Each Java `Cell` object has mutable fields: its four slots and its neighbour list. The model keeps them in maps keyed by the cell's coordinates, because Java compares cells by coordinates. The seeded `java.util.Random` becomes a parameter `draw: nat -> int`, the value behind the n-th `nextInt` call.

## Model

| member | source | states |
|---|---|---|
| Grid.CellEquals | src/main/java/MazeGenerator.java:42-49 | cells are equal exactly when their coordinates are |
| Grid.CellHashConsistent | src/main/java/MazeGenerator.java:35-37 | equal cells hash alike; below 10000 columns the hash `x + 10000·y` tells cells apart |
| Grid.EdgeEquals | src/main/java/MazeGenerator.java:128-136 | edges are equal exactly when they join the same two cells, in either orientation |
| Grid.EdgeEqualsIgnoresOrientation | src/main/java/MazeGenerator.java:128-136 | Edge(a,b,w) equals Edge(b,a,w') and Edge(a,b,w') for all weights |
| Grid.EdgeEqualsIsEquivalence | src/main/java/MazeGenerator.java:128-136 | edge equality is reflexive, symmetric and transitive |
| Grid.EdgeHashConsistent | src/main/java/MazeGenerator.java:123-125 | equal edges have equal hash codes |
| Grid.CompareByWeight | src/main/java/MazeGenerator.java:104-108 | the comparator is negative, zero or positive exactly as the first weight is below, equal to or above the second |
| EdgeSort.InsertPermutes | src/main/java/MazeGenerator.java:173 | inserting an edge into the sorted prefix adds exactly that edge |
| EdgeSort.InsertSorted | src/main/java/MazeGenerator.java:173 | inserting into a weight-sorted list keeps it sorted |
| EdgeSort.InsertKeepsOrder | src/main/java/MazeGenerator.java:173 | insertion places the new edge after the edges of equal weight (stability) |
| EdgeSort.SortByWeight | src/main/java/MazeGenerator.java:173 | the result is sorted by weight, is a permutation of the input, and keeps the input order within each weight |
| EdgeSort.SortKeepsSorted | src/main/java/MazeGenerator.java:173 | sorting a list already in weight order returns it unchanged |
| EdgeSort.SortIdempotent | src/main/java/MazeGenerator.java:173 | sorting twice is sorting once |
| EdgeSort.SortAgreesWithComparator | src/main/java/MazeGenerator.java:104-108 | no later edge of the sorted list compares below an earlier one |
| EdgeSort.SortOutEdges | src/main/java/MazeGenerator.java:52-56 | sortOutEdges replaces one cell's out-edges by a stable sorted permutation (edges of equal weight keep their order) and returns it; other cells keep theirs |
| UnionFind.Root | src/main/java/MazeGenerator.java:206-211 | the representative reached from a cell is its own representative |
| UnionFind.RootIsRoot | src/main/java/MazeGenerator.java:206-211 | the recorded root of a cell is a fixed point of the representatives map |
| UnionFind.RootByLinks | src/main/java/MazeGenerator.java:206-211 | following representatives from a cell for its depth reaches its root, through cells that are not yet roots |
| UnionFind.RootIdempotent | src/main/java/MazeGenerator.java:206-211 | the root of a root is itself |
| UnionFind.SingletonsAreRoots | src/main/java/MazeGenerator.java:159-162 | after the constructor's first loop every cell is a root, and is its own root |
| UnionFind.Union | src/main/java/MazeGenerator.java:214-218 | a union keeps the forest well formed and sets the representative of from's root to to's root |
| UnionFind.LinkOk | src/main/java/MazeGenerator.java:214-218 | linking one root below another keeps the forest well formed |
| UnionFind.LinkMerges | src/main/java/MazeGenerator.java:214-218 | after a link, the cells of the linked tree have the new root and every other cell keeps its root |
| UnionFind.LinkRemovesRoot | src/main/java/MazeGenerator.java:214-218 | a link removes exactly one root |
| UnionFind.UnionOfRoots | src/main/java/MazeGenerator.java:214-218 | a union of two different roots is the link of the second below the first |
| UnionFind.UnionMerges | src/main/java/MazeGenerator.java:214-218 | after a union, cells that had from's root have to's root; every other cell keeps its root |
| UnionFind.UnionJoins | src/main/java/MazeGenerator.java:214-218 | after a union, `to` and `from` share the root `to` had |
| UnionFind.UnionRemovesOneRoot | src/main/java/MazeGenerator.java:214-218 | joining two different components removes exactly one root |
| SpanningTree.ProcessKeepsInv | src/main/java/MazeGenerator.java:244-252 | adding a bridging edge and linking its roots keeps the tree a forest of the components |
| SpanningTree.Process | src/main/java/MazeGenerator.java:243-253 | processing one worklist edge keeps the Kruskal invariant and the set of cells |
| SpanningTree.ProcessAddsOnlyBridges | src/main/java/MazeGenerator.java:244-251 | the edge joins the tree exactly when its ends had different representatives; afterwards they share one |
| SpanningTree.ProcessKeepsJoined | src/main/java/MazeGenerator.java:249-251 | processing never splits a component |
| SpanningTree.ProcessKeepsTouch | src/main/java/MazeGenerator.java:243-253 | processing keeps every worklist edge's ends in the forest |
| SpanningTree.ProcessKeepsCells | src/main/java/MazeGenerator.java:243-253 | processing keeps the same cells in the forest |
| SpanningTree.TreeBound | src/main/java/MazeGenerator.java:223 | the tree never holds more than cellCount − 1 edges, and a complete run holds exactly that many |
| SpanningTree.RunFrom | src/main/java/MazeGenerator.java:221-236 | a run from index i ends complete, with the invariant and the same cells |
| SpanningTree.RunAll | src/main/java/MazeGenerator.java:221-236 | processing every edge to the end keeps the invariant and the cells |
| SpanningTree.IncompleteRunSettles | src/main/java/MazeGenerator.java:221-236 | a run that never completes ends with every worklist edge inside one component |
| SpanningTree.OneComponentCompletes | src/main/java/MazeGenerator.java:223 | a state whose cells all share one root is complete |
| SpanningTree.JoinedToFirst | src/main/java/MazeGenerator.java:221-236 | once every edge of a connecting worklist is inside one component, each cell shares the first cell's root |
| SpanningTree.AllJoinedToFirst | src/main/java/MazeGenerator.java:221-236 | the same for every cell of the forest |
| SpanningTree.ProcessSettles | src/main/java/MazeGenerator.java:243-253 | one more processed edge keeps the processed prefix inside components |
| SpanningTree.SkipSettled | src/main/java/MazeGenerator.java:244-246 | an edge inside one component is skipped: continuing one index earlier gives the same result |
| SpanningTree.RestartAgrees | src/main/java/MazeGenerator.java:221-236 | restarting from index 0 part-way through reaches the tree the stepwise run reaches |
| SpanningTree.StepFollowsRun | src/main/java/MazeGenerator.java:241-257 | one runKruskal step at the next index leaves the rest of the run with the same result |
| SpanningTree.StepKeepsRestart | src/main/java/MazeGenerator.java:241-257 | a runKruskal step does not change what restarting from index 0 reaches |
| SpanningTree.RunFromExtends | src/main/java/MazeGenerator.java:230 | a run only appends to the tree |
| SpanningTree.RunFromKeepsCells | src/main/java/MazeGenerator.java:221-236 | a run keeps the forest's cells, so every worklist edge still touches it |
| SpanningTree.DropEqualMembers | src/main/java/MazeGenerator.java:187-203 | dropping the edges equal to e keeps exactly the edges of s that are not equal to e |
| SpanningTree.Contains | src/main/java/MazeGenerator.java:179-184 | contains is true exactly when the list is non-empty and its first edge equals e |
| SpanningTree.RemoveDuplicates | src/main/java/MazeGenerator.java:187-203 | the loop keeps each edge that contains(newList, edge) rejects, as KeepUnlikeFirst describes |
| SpanningTree.KeepUnlikeFirstSpec | src/main/java/MazeGenerator.java:187-203 | the as-written pass keeps the first edge, keeps only input edges, drops only edges equal to the first, and leaves an equal edge for every input edge |
| SpanningTree.ContainsAny | src/main/java/MazeGenerator.java:179-184 | the intended contains: true exactly when some edge of the list equals e |
| SpanningTree.RemoveDuplicatesIntended | src/main/java/MazeGenerator.java:187-203 | removeDuplicates with the intended contains computes Deduplicate |
| SpanningTree.DeduplicateSpec | src/main/java/MazeGenerator.java:187-203 | the intended result has no two equal edges, only input edges, and an equal edge for every input edge |
| SpanningTree.KeepUnlikeFirstLeavesTwins | src/main/java/MazeGenerator.java:179-184 | on the sorted worklist of a 3×1 grid, the as-written pass keeps Edge(b,c,2) and Edge(c,b,2), while the intended one drops the second |
| SpanningTree.FlattenMembers | src/main/java/MazeGenerator.java:166-171 | an edge is in the concatenated out-edge lists exactly when it is in one of them |
| SpanningTree.InitialWorklistMembers | src/main/java/MazeGenerator.java:166-175 | the worklist holds only out-edges, and an equal edge for every out-edge |
| SpanningTree.WorklistJoins | src/main/java/MazeGenerator.java:166-175 | every out-edge's two cells are joined by some worklist edge |
| SpanningTree.StartOk | src/main/java/MazeGenerator.java:156-176 | the constructor's state has the invariant, the graph's cells, and every worklist edge touching them |
| SpanningTree.KruskalCompletes | src/main/java/MazeGenerator.java:221-236 | on a graph whose worklist connects its cells, the run from index 0 completes |
| SpanningTree.SettledCompletes | src/main/java/MazeGenerator.java:241-257 | on a connecting worklist, a run whose processed prefix is settled completes from the next index |
| SpanningTree.TotalWeightBounds | src/main/java/MazeGenerator.java:261-267 | the weight sum of a tree with weights in 1..m lies between its size and m times its size |
| SpanningTree.SelfRepresentatives | src/main/java/MazeGenerator.java:159-162 | the first constructor loop maps exactly the graph's cells, each to itself |
| SpanningTree.AllOutEdges | src/main/java/MazeGenerator.java:166-171 | the second constructor loop concatenates the out-edge lists in cell order |
| SpanningTree.Kruskal.constructor | src/main/java/MazeGenerator.java:156-176 | every cell is its own representative; the worklist is the sorted, de-duplicated out-edges; the tree is empty |
| SpanningTree.Kruskal.FindRepresentative | src/main/java/MazeGenerator.java:206-211 | returns the root of node, a cell that is its own representative |
| SpanningTree.Kruskal.UnionRepresentative | src/main/java/MazeGenerator.java:214-218 | from's root now maps to to's root, nothing else changes, and the two cells share a root |
| SpanningTree.Kruskal.ProcessEdge | src/main/java/MazeGenerator.java:244-251 | the shared body of both runs: the state becomes Process of the old state |
| SpanningTree.Kruskal.RunKruskal | src/main/java/MazeGenerator.java:241-257 | returns true exactly when the tree was incomplete, and then processes worklist[currentEdgeCount]; a complete tree is left as it was |
| SpanningTree.Kruskal.RunKruskalImmediately | src/main/java/MazeGenerator.java:221-236 | the state becomes the run from index 0, a complete tree |
| SpanningTree.Kruskal.SumWeights | src/main/java/MazeGenerator.java:261-267 | returns the sum of the tree's edge weights |
| GridGraph.CellAt | src/main/java/MazeWorld.java:141-147 | the cell at row-major index i has x below the width and index w·y + x |
| GridGraph.CellAtIndex | src/main/java/MazeWorld.java:153 | cell (x, y) sits at index w·y + x, inside the grid exactly when y < h |
| GridGraph.Neighbours | src/main/java/MazeWorld.java:152-163 | the right and bottom neighbours of cell k sit at indices k + 1 and k + w, and exist exactly when the guards hold |
| GridGraph.NextInt | src/main/java/MazeWorld.java:154 | nextInt(bound) lies in 0..bound − 1 |
| GridGraph.RightWeight | src/main/java/MazeWorld.java:154 | a horizontal edge weighs 1..10 |
| GridGraph.BottomWeight | src/main/java/MazeWorld.java:164 | a vertical edge weighs 1..10·horizontalPreference |
| GridGraph.OutEdgesStep | src/main/java/MazeWorld.java:150-172 | visiting cell k appends exactly its right and bottom pairs to the out-edge lists |
| GridGraph.AddRightPair | src/main/java/MazeWorld.java:152-159 | appending the two right edges completes the first half of cell k's visit |
| GridGraph.AddBottomPair | src/main/java/MazeWorld.java:162-171 | appending the two bottom edges completes cell k's visit |
| GridGraph.NoRightPair | src/main/java/MazeWorld.java:152 | a cell at the end of its row adds no right pair |
| GridGraph.NoBottomPair | src/main/java/MazeWorld.java:162 | a cell in the last row adds no bottom pair |
| GridGraph.BuildCells | src/main/java/MazeWorld.java:141-147 | the first loop nest creates w·h cells in row-major order |
| GridGraph.JoinRight | src/main/java/MazeWorld.java:152-159 | the right half of a pass: one draw consumed exactly when a right neighbour exists |
| GridGraph.JoinBelow | src/main/java/MazeWorld.java:162-171 | the bottom half of a pass: the draws and out-edges after cell k |
| GridGraph.BuildGrid | src/main/java/MazeWorld.java:137-177 | initGraph(seed) builds exactly GridOf(w, h, pref, draw) |
| GridGraph.OutEdgeShape | src/main/java/MazeWorld.java:150-172 | every out-edge leaves its own cell for an adjacent cell of the grid, with the weight of its draw |
| GridGraph.GridOk | src/main/java/MazeWorld.java:137-177 | the grid has one out-edge list per cell, each edge between cells of the grid |
| GridGraph.EarlierNeighbour | src/main/java/MazeWorld.java:150-172 | every cell but the first has an out-edge to its left or top neighbour |
| GridGraph.GridConnected | src/main/java/MazeWorld.java:150-172 | the grid's Kruskal worklist connects every cell to an earlier one |
| GridGraph.KruskalCompletesOnGrid | src/main/java/MazeWorld.java:137-177 | on every grid initGraph builds, Kruskal's run from index 0 completes |
| GridGraph.ThreeByOneGrid | src/main/java/MazeWorld.java:150-159 | a 3×1 grid with draws 0 and 1 has horizontal pairs weighing 1 and 2 |
| GridGraph.ThreeByOneWorklist | src/main/java/MazeGenerator.java:166-175 | that grid's worklist keeps the equal edges Edge(b,c,2) and Edge(c,b,2) |
| GridGraph.TwinsSurvive | src/main/java/MazeGenerator.java:166-175 | the worklist built from those out-edge lists holds an equal pair |
| Worklists.Stack.constructor | src/main/java/MazeWorld.java:28-30 | a new stack is empty |
| Worklists.Stack.IsEmpty | src/main/java/MazeWorld.java:32-34 | true exactly when the stack holds nothing |
| Worklists.Stack.Add | src/main/java/MazeWorld.java:40-42 | the item goes to the front |
| Worklists.Stack.Remove | src/main/java/MazeWorld.java:36-38 | returns and removes the front item |
| Worklists.Queue.constructor | src/main/java/MazeWorld.java:49-51 | a new queue is empty |
| Worklists.Queue.IsEmpty | src/main/java/MazeWorld.java:53-55 | true exactly when the queue holds nothing |
| Worklists.Queue.Add | src/main/java/MazeWorld.java:61-63 | the item goes to the back |
| Worklists.Queue.Remove | src/main/java/MazeWorld.java:57-59 | returns and removes the front item |
| Worklists.StackIsLifo | src/main/java/MazeWorld.java:36-42 | removing right after adding returns the added item and leaves the old contents |
| Worklists.QueueIsFifo | src/main/java/MazeWorld.java:57-63 | a non-empty queue returns its oldest item, and the added one waits at the back |
| Worklists.EmptyQueueReturnsItem | src/main/java/MazeWorld.java:57-63 | on an empty queue the added item comes straight back |
| Passages.PassageSymmetric | src/main/java/MazeWorld.java:591-599 | canGoToCell(a, b) holds exactly when canGoToCell(b, a) does |
| Passages.PassageGrows | src/main/java/MazeWorld.java:591-599 | a passage stays open when the tree grows |
| Passages.StartingAtMembers | src/main/java/MazeWorld.java:385-393 | edgesFromCell holds exactly the tree edges leaving the cell |
| Passages.EndingAtMembers | src/main/java/MazeWorld.java:396-404 | edgesToCell holds exactly the tree edges entering the cell |
| Passages.StartingOrEnding | src/main/java/MazeWorld.java:385-404 | every tree edge at a cell is in one of the two lists |
| Passages.DirectedLeft | src/main/java/MazeWorld.java:413-418 | the left slot is the left cell exactly when some edge takes the first branch, otherwise unchanged |
| Passages.DirectedTop | src/main/java/MazeWorld.java:419-422 | the top slot is the top cell exactly when some edge takes the second branch, otherwise unchanged |
| Passages.DirectedRight | src/main/java/MazeWorld.java:423-426 | the right slot is the right cell exactly when some edge takes the third branch, otherwise unchanged |
| Passages.DirectedBottom | src/main/java/MazeWorld.java:427-430 | the bottom slot is the bottom cell exactly when some edge takes the fourth branch, otherwise unchanged |
| Passages.DirectedOpen | src/main/java/MazeWorld.java:407-432 | a slot is set only to the adjacent cell on that side, and only when canGoToCell holds |
| Passages.DirectedFindsForwardEdges | src/main/java/MazeWorld.java:407-432 | a tree edge to the right or bottom neighbour, or from the left or top one, sets that slot |
| Passages.SlotsStayOpen | src/main/java/MazeWorld.java:407-432 | open slots stay open when the tree grows |
| Passages.DirectAllOpen | src/main/java/MazeWorld.java:570-572 | setting the slots of every cell keeps every slot open |
| Passages.DirectAllFills | src/main/java/MazeWorld.java:570-572 | from null slots, each listed cell gets what one pass over the tree gives it |
| Passages.DirectAllMisses | src/main/java/MazeWorld.java:570-572 | a cell not listed keeps null slots |
| Passages.DirectedTwice | src/main/java/MazeWorld.java:407-432 | running addDirectionsToCell twice gives what running it once gives |
| Passages.NeighborListOpen | src/main/java/MazeWorld.java:574-585 | a neighbour list built from open slots holds exactly the non-null slots, each open and adjacent |
| Passages.AppendSlotsSpec | src/main/java/MazeWorld.java:573-586 | the second loop only appends; unlisted cells keep their lists; a cell listed once gains exactly its non-null slots |
| Passages.AppendSlotsOpen | src/main/java/MazeWorld.java:573-586 | the lists it builds keep every neighbour open and adjacent |
| Search.UnseenMembers | src/main/java/MazeWorld.java:449-455 | the neighbours pushed are exactly those not in alreadySeen |
| Search.ReverseMembers | src/main/java/MazeWorld.java:449-455 | pushing one by one onto the stack reverses their order |
| Search.RecordSpec | src/main/java/MazeWorld.java:454 | every pushed neighbour now has next as predecessor, other cells keep theirs |
| Search.OpenIsIrreflexive | src/main/java/MazeWorld.java:569-588 | neighbour lists built from open slots never list a cell as its own neighbour |
| Search.QueuedGrows | src/main/java/MazeWorld.java:449-455 | a worklist stays queued when predecessors are only added |
| Search.ExploredGrows | src/main/java/MazeWorld.java:573-586 | appending to neighbour lists keeps a running search consistent |
| Search.FreshSearchOk | src/main/java/MazeWorld.java:469-473 | a search starting with only `from` on the worklist is consistent |
| Search.ExpandQueues | src/main/java/MazeWorld.java:448-458 | after an expansion, every worklist cell is `from` or has a predecessor |
| Search.RankedFront | src/main/java/MazeWorld.java:457 | seeing a cell whose predecessor was already seen keeps predecessors ordered |
| Search.ExpandKeepsOk | src/main/java/MazeWorld.java:448-458 | an expansion keeps the search invariant |
| Search.StepKeepsOk | src/main/java/MazeWorld.java:438-462 | every search step keeps the search invariant |
| Search.StepGrowsSeen | src/main/java/MazeWorld.java:445-458 | a step adds exactly one cell to alreadySeen when it expands, none otherwise, and never drops predecessors |
| Search.SeenLeadsToStart | src/main/java/MazeWorld.java:449-457 | following predecessors from a seen cell reaches `from` |
| Search.GoalLeadsToStart | src/main/java/MazeWorld.java:479-482 | from a popped goal, following predecessors reaches `from` |
| Search.LinksAreOpen | src/main/java/MazeWorld.java:449-455 | every predecessor link is an open passage between adjacent cells |
| Search.StepKeepsCovered | src/main/java/MazeWorld.java:477-499 | a step that does not pop the goal keeps every neighbour of a seen cell seen or waiting |
| Search.ExpandKeepsCovered | src/main/java/MazeWorld.java:487-498 | expanding an unseen head keeps every neighbour of a seen cell seen or waiting |
| Search.WalkStaysSeen | src/main/java/MazeWorld.java:500-501 | once the worklist is empty, a walk from a seen cell never leaves alreadySeen |
| Search.FollowIsWalk | src/main/java/MazeWorld.java:449-455 | a predecessor chain whose links are neighbour-list entries, read forwards, is a walk from its end |
| Search.FinishedSearchSeesReachable | src/main/java/MazeWorld.java:477-501 | a search that empties its worklist has seen exactly the cells a walk from the start reaches |
| Search.Reachable | src/main/java/MazeWorld.java:477-499 | the cells a search can ever queue: `from` and every listed neighbour |
| Search.StepKeepsRunning | src/main/java/MazeWorld.java:477-499 | each step keeps the loop invariant and shrinks the unseen reachable cells or the worklist (termination) |
| Search.StepStaysInReach | src/main/java/MazeWorld.java:477-499 | a step queues only neighbours |
| Search.BackStepKeepsTrace | src/main/java/MazeWorld.java:352-369 | a backtracking step keeps the path walking back from the goal along predecessors |
| Search.ChainIsOpen | src/main/java/MazeWorld.java:352-369 | every step of the traced path crosses an open passage between adjacent cells |
| Search.PathBack | src/main/java/MazeWorld.java:374-382 | the path appended by backtrackPathImmediately is no longer than the predecessor chain |
| Search.PathBackLinks | src/main/java/MazeWorld.java:374-382 | that path starts at `to`, each cell's predecessor is the next one, the last one's is `from`, and `from` is not on it |
| Search.StepwiseMatchesImmediate | src/main/java/MazeWorld.java:352-382 | repeated backtrackPath calls that keep one `from` append the chain backtrackPathImmediately appends shifted by one (every predecessor, ending with `from`, where the loop appends `to` up to the cell before `from`); one more call sets doneBackTracking |
| Search.StalledTraceStays | src/main/java/MazeWorld.java:352-358 | once `currentCell` is null, backtrackPath leaves the trace as it is and never sets doneBackTracking |
| Search.StepwiseOverrunsStart | src/main/java/MazeWorld.java:352-369 | told to stop at a cell that is neither the start nor on the chain back to it, repeated backtrackPath calls append the same shifted chain, then leave `currentCell` null, and never set doneBackTracking |
| MazeRules.WalkGrows | src/main/java/MazeWorld.java:610-640 | the player's trail stays a walk through passages when the tree grows |
| MazeRules.GridGenerates | src/main/java/MazeWorld.java:137-177 | every grid initGraph builds has w·h cells and a Kruskal run that completes |
| MazeRules.NextEdgeExists | src/main/java/MazeWorld.java:543-545 | while the tree is incomplete, worklist[currentEdgeCount] exists |
| MazeRules.AdvanceFields | src/main/java/MazeWorld.java:543-545 | a generation tick counts one more edge, runs runKruskal at the old count, and keeps generating exactly while the tree was incomplete |
| MazeRules.NextEdgeReady | src/main/java/MazeWorld.java:543-545 | a consistent generator that is still generating can advance |
| MazeRules.GenerateParts | src/main/java/MazeWorld.java:543-550 | the generation part changes the generator or, once, the links, never the player or the search |
| MazeRules.SkipCompletes | src/main/java/MazeWorld.java:677-680 | 's' finishes from any consistent state, with the same tree as continuing from the current index |
| MazeRules.InitialOk | src/main/java/MazeWorld.java:224-247 | initGraph followed by initKruskal establishes the world invariant |
| MazeRules.LinksGrow | src/main/java/MazeWorld.java:569-588 | open slots and neighbour lists stay open when the tree grows |
| MazeRules.WalkStaysOk | src/main/java/MazeWorld.java:610-640 | the player's walk stays inside the maze when the tree grows |
| MazeRules.GenerationStepOk | src/main/java/MazeWorld.java:543-545 | a generation tick keeps the generator's invariant and only appends to the tree |
| MazeRules.BuildNeighborsOpen | src/main/java/MazeWorld.java:569-588 | addToCellNeighbors builds only open slots and lists |
| MazeRules.BuildNeighborsKeepsSearch | src/main/java/MazeWorld.java:569-588 | addToCellNeighbors keeps a running search consistent |
| MazeRules.TreeGrowsOk | src/main/java/MazeWorld.java:543-545 | a world stays consistent when its tree only grows |
| MazeRules.GenerateKeepsOk | src/main/java/MazeWorld.java:543-550 | the generation part of onTick keeps the invariant |
| MazeRules.BacktrackKeepsOk | src/main/java/MazeWorld.java:562-565 | a backtracking step keeps the trace and the counters consistent |
| MazeRules.SearchStepKeepsOk | src/main/java/MazeWorld.java:552-560 | a DFS or BFS tick keeps the search and the trace consistent |
| MazeRules.SearchPhaseKeepsOk | src/main/java/MazeWorld.java:552-560 | the search part of onTick keeps the search consistent |
| MazeRules.TickKeepsOk | src/main/java/MazeWorld.java:537-566 | onTick keeps the world invariant |
| MazeRules.MoveKeepsOk | src/main/java/MazeWorld.java:610-640 | an arrow move through an open passage keeps the player's walk inside the maze |
| MazeRules.NewSearchOk | src/main/java/MazeWorld.java:642-671 | 'b' and 'd' start a consistent search |
| MazeRules.SkipOk | src/main/java/MazeWorld.java:677-680 | 's' completes the tree and only appends to it |
| MazeRules.SkipKeepsOk | src/main/java/MazeWorld.java:677-680 | 's' keeps the world invariant |
| MazeRules.ResetOk | src/main/java/MazeWorld.java:604-608 | 'r' gives a fresh, consistent world on a new grid |
| MazeRules.KeyKeepsOk | src/main/java/MazeWorld.java:602-681 | onKeyEvent keeps the world invariant |
| MazeRules.Outcome | src/main/java/MazeWorld.java:543-545 | the tree the generator is heading for is complete and extends the current tree |
| MazeRules.ProcessFollowsOutcome | src/main/java/MazeWorld.java:543-545 | a tick that processes an edge does not change the outcome |
| MazeRules.GenerationStepFollows | src/main/java/MazeWorld.java:543-545 | a generation tick keeps the outcome and the worklist, and counts one more edge |
| MazeRules.TickGenerator | src/main/java/MazeWorld.java:543-550 | onTick calls runKruskal once while generating and leaves the generator alone afterwards |
| MazeRules.TickFollowsRun | src/main/java/MazeWorld.java:537-566 | onTick keeps the invariant and the generator's outcome |
| MazeRules.GenTicks | src/main/java/MazeWorld.java:543-545 | the generator after n ticks stays consistent on the same worklist |
| MazeRules.GenTicksFinish | src/main/java/MazeWorld.java:543-545 | enough ticks finish generation, with the outcome as the maze |
| MazeRules.Ticks | src/main/java/MazeWorld.java:537-566 | n successive ticks keep the world invariant |
| MazeRules.TicksGenerate | src/main/java/MazeWorld.java:537-566 | the generator after n world ticks is the generator's own n steps |
| MazeRules.TicksFinish | src/main/java/MazeWorld.java:537-566 | once more ticks have passed than worklist edges remain, generation is over and the maze is the outcome |
| MazeRules.SkipMatchesTicks | src/main/java/MazeWorld.java:677-680 | 's' gives the same maze as letting the animation run to its end |
| MazeRules.SolutionIsOpen | src/main/java/MazeWorld.java:374-382 | the solution path runs from the exit to the entrance through open passages between adjacent cells |
| MazeRules.LinkedPathOpen | src/main/java/MazeWorld.java:374-382 | a path back along predecessors that are open neighbours crosses only open passages |
| MazeRules.TraceBacksFollow | src/main/java/MazeWorld.java:562-565 | while no step sets doneBackTracking, n backtracking parts of onTick move the trace as n backtrackPath calls told to stop at the exit |
| MazeRules.TickTraceNeverEnds | src/main/java/MazeWorld.java:562-565 | with the exit off the chain from `currentCell` back to the entrance, the backtracking parts of onTick append that chain, ending with the entrance, then leave `currentCell` null; doneBackTracking is never set |
| Maze.Player.constructor | src/main/java/MazeWorld.java:71-75 | the player starts at the given cell, with that cell visited |
| Maze.MazeWorld.constructor | src/main/java/MazeWorld.java:125-133 | builds the seeded grid and the fresh world, which satisfies the invariant |
| Maze.MazeWorld.Restart | src/main/java/MazeWorld.java:604-606 | initGraph followed by initKruskal gives the fresh world on the new grid |
| Maze.MazeWorld.InitGraph | src/main/java/MazeWorld.java:137-177 | the graph is the seeded grid, and its cells have null slots and no neighbours |
| Maze.MazeWorld.InitKruskal | src/main/java/MazeWorld.java:224-247 | a fresh generator, search and player, with neighbour lists not built |
| Maze.MazeWorld.StartGeneration | src/main/java/MazeWorld.java:225-233 | edge count 0, a new Kruskal run on the graph, generating |
| Maze.MazeWorld.ResetSearch | src/main/java/MazeWorld.java:227-245 | every search field reset: empty worklists, nothing seen, the trace at the exit, no search chosen, counters 0 |
| Maze.MazeWorld.ResetPlayer | src/main/java/MazeWorld.java:236-246 | a new player at the entrance, no moves, not ended |
| Maze.MazeWorld.CanGoToCell | src/main/java/MazeWorld.java:591-599 | true exactly when a tree edge joins the two cells, in either orientation |
| Maze.MazeWorld.EdgesFromCell | src/main/java/MazeWorld.java:385-393 | returns exactly the tree edges leaving the cell, in tree order |
| Maze.MazeWorld.EdgesToCell | src/main/java/MazeWorld.java:396-404 | returns exactly the tree edges entering the cell, in tree order |
| Maze.MazeWorld.AddDirectionsToCell | src/main/java/MazeWorld.java:407-432 | only that cell's slots change, to what one pass over a copy of the tree gives |
| Maze.MazeWorld.AddToCellNeighbors | src/main/java/MazeWorld.java:569-588 | every cell's slots are set, then each cell's non-null slots are appended to its neighbours, and neighbours are marked done |
| Maze.MazeWorld.DirectAllCells | src/main/java/MazeWorld.java:570-572 | the first loop runs addDirectionsToCell on every cell in order |
| Maze.MazeWorld.AppendSlotsToCell | src/main/java/MazeWorld.java:574-585 | one cell's non-null slots are appended to its neighbours: right, left, bottom, top |
| Maze.MazeWorld.AppendAllSlots | src/main/java/MazeWorld.java:573-586 | the second loop appends the slots of every cell in order |
| Maze.MazeWorld.BacktrackPath | src/main/java/MazeWorld.java:352-369 | the search state becomes one backtracking step of the old one |
| Maze.MazeWorld.BacktrackPathImmediately | src/main/java/MazeWorld.java:374-382 | appends the cells from `to` back to just before `from`, and stops at `from` |
| Maze.MazeWorld.PushUnseen | src/main/java/MazeWorld.java:449-455 | pushes the unseen neighbours in reverse on the stack and records next as their predecessor |
| Maze.MazeWorld.EnqueueUnseen | src/main/java/MazeWorld.java:520-526 | enqueues the unseen neighbours in order and records next as their predecessor |
| Maze.MazeWorld.HasPathBetweenDFS | src/main/java/MazeWorld.java:435-463 | one step of the search on the stack; returns true exactly when the popped cell is the goal |
| Maze.MazeWorld.ExpandStack | src/main/java/MazeWorld.java:448-458 | next's unseen neighbours are pushed, next is marked seen, and a wrong move is counted |
| Maze.MazeWorld.ExpandQueue | src/main/java/MazeWorld.java:519-530 | next's unseen neighbours are enqueued, next is marked seen, and a wrong move is counted |
| Maze.MazeWorld.Visit | src/main/java/MazeWorld.java:484-498 | a popped cell that is not the goal is dropped if seen and expanded otherwise; wrong moves count the newly seen cells |
| Maze.MazeWorld.PopAndVisit | src/main/java/MazeWorld.java:477-499 | one loop iteration: a search step that keeps the loop invariant and leaves currentCell, doneSearching and backTrackPath alone, or the goal found with its path appended |
| Maze.MazeWorld.ReachGoal | src/main/java/MazeWorld.java:479-482 | the goal found: doneSearching, and the whole path back to `from` appended |
| Maze.MazeWorld.HasPathBetweenBFS | src/main/java/MazeWorld.java:505-534 | enqueues `from`, then one step on the queue; returns true exactly when the popped cell is the goal |
| Maze.MazeWorld.HasPathBetweenDFSImmediately | src/main/java/MazeWorld.java:467-502 | on success, the goal leads back to `from` and that path is appended; on failure, alreadySeen is exactly the cells a walk from `from` reaches, the goal is not among them, and currentCell, doneSearching and backTrackPath are unchanged |
| Maze.MazeWorld.GenerateEdge | src/main/java/MazeWorld.java:543-545 | currentEdgeCount++ and runKruskal at the old count |
| Maze.MazeWorld.RunKruskalAt | src/main/java/MazeWorld.java:545 | runKruskal at an index returns whether the tree was incomplete and processes that edge if so |
| Maze.MazeWorld.GenerateTick | src/main/java/MazeWorld.java:543-550 | the generation part of onTick: an edge while generating, otherwise the neighbour lists once |
| Maze.MazeWorld.BuildNeighborsOnce | src/main/java/MazeWorld.java:546-550 | addToCellNeighbors runs once after generation |
| Maze.MazeWorld.SearchTick | src/main/java/MazeWorld.java:552-560 | the DFS step then the BFS step, each when its search alone is chosen and the goal is not found |
| Maze.MazeWorld.TraceTick | src/main/java/MazeWorld.java:562-565 | one backtracking step, told to stop at the exit, while backtracking is not done |
| Maze.MazeWorld.EndAtExit | src/main/java/MazeWorld.java:538-541 | the player on the exit ends the game |
| Maze.MazeWorld.OnTick | src/main/java/MazeWorld.java:537-566 | the world becomes Tick of the old world, and the invariant is kept |
| Maze.MazeWorld.RunTick | src/main/java/MazeWorld.java:537-566 | the exit test, the generation part, the search part and the backtracking part, in that order |
| Maze.MazeWorld.NewMaze | src/main/java/MazeWorld.java:604-608 | 'r' gives the fresh world on a new grid |
| Maze.MazeWorld.MovePlayer | src/main/java/MazeWorld.java:610-640 | the old position is added to visited, the player moves, and one more move is counted |
| Maze.MazeWorld.StartSearch | src/main/java/MazeWorld.java:642-671 | 'b'/'d' reset the search fields for a fresh BFS or DFS and leave the rest of the world alone |
| Maze.MazeWorld.StartBreadthFirst | src/main/java/MazeWorld.java:642-655 | 'b' resets the search for a breadth-first search, with the BFS counters 0 |
| Maze.MazeWorld.StartDepthFirst | src/main/java/MazeWorld.java:657-671 | 'd' resets the search for a depth-first search with the entrance on the stack, with the DFS counters 0 |
| Maze.MazeWorld.SkipGeneration | src/main/java/MazeWorld.java:677-680 | runKruskalImmediately, then generation stops |
| Maze.MazeWorld.OnKeyEvent | src/main/java/MazeWorld.java:602-681 | the world becomes KeyEvent of the old world, and the invariant is kept |
| Maze.MazeWorld.RunKey | src/main/java/MazeWorld.java:602-681 | the branches of onKeyEvent, in Java's order, give KeyEvent of the old world |

## Left out

- Drawing: `makeScene` and the cell images are not modelled, and neither are `cellSize`, `screenHeight` and `SCREEN_WIDTH`. `makeScene` is not pure, though. On every redraw while `ended && !doneSearching` (MazeWorld.java:254-258), it runs `hasPathBetweenDFSImmediately` from the entrance to the exit. That replaces `alreadySeen`, `worklistStack` and `cameFromEdge`, sets `doneSearching`, moves `currentCell` to the entrance, and adds to `dFSWrongMoves` and `backTrackPath`. So after the player wins, a 'b' or 'd' search is cut short at the next redraw, and the trace then stalls with `currentCell` null. The state it leaves, such as `doneSearching` with neither `dfs` nor `bfs`, lies outside `MazeRules.WorldOk`. `MazeRules.TickKeepsOk` and `MazeRules.KeyKeepsOk` describe the handlers without redraws between them. `hasPathBetweenDFSImmediately` itself is modelled (Maze.MazeWorld.HasPathBetweenDFSImmediately).
- The 't' key and the `toggleAlreadySeen` field only change what is drawn.
- `initGraph()` without a seed and `new Random()` are modelled as `initGraph(seed)` with a parameter `draw`, the value behind each `nextInt` call. The generator inside `java.util.Random` is not modelled, and 'r' takes a fresh `draw`.
- Java's 32-bit `int` is modelled as an unbounded integer. This covers the edge weights, the counters, `currentEdgeCount`, the hash codes and `sumWeights`. The comparator `a.weight - b.weight` cannot overflow on the weights `initGraph` produces.
- `null` is modelled as `Option` or as a key absent from a map.
- Java compares `Cell` objects with `==` in `findRepresentative` and `backtrackPath`, and compares the representatives `findRepresentative` returns with `==` in `runKruskalImmediately` and `runKruskal` (MazeGenerator.java:226-227, 244-245). The model compares cells by coordinates. The two agree because every cell is created once, in `initGraph`.
- Each cell's `left`/`top`/`right`/`bottom`/`neighbors` fields are modelled as maps keyed by the cell, not as fields of shared objects.
- The `visited` list and the `alreadySeen` deque are modelled as sequences. `alreadySeen.addFirst` is modelled as prepending.
- SpanningTree.Kruskal.RunKruskal: requires that the worklist index is in range while the tree is incomplete. Java would throw `IndexOutOfBoundsException` otherwise. `onTick` always meets this on a grid (MazeRules.NextEdgeExists).
- SpanningTree.Kruskal.RunKruskalImmediately: requires that the run from index 0 completes. On a disconnected graph, Java would run off the end of the worklist. Every grid `initGraph` builds meets this (GridGraph.KruskalCompletesOnGrid).
- Maze.MazeWorld.BacktrackPathImmediately: requires that `from` is reachable from `to` along `cameFromEdge`. Otherwise the Java loop reaches `null` and fails on `null.equals`.
- Maze.MazeWorld.HasPathBetweenDFSImmediately: requires that no cell lists itself as a neighbour, which every neighbour list built by `addToCellNeighbors` satisfies (Search.OpenIsIrreflexive). On failure the contract fixes the set of cells in `alreadySeen` (exactly those a walk from `from` reaches, each once), and with it the final `dFSWrongMoves`. It does not fix their order, and it does not fix which predecessor `cameFromEdge` records for each cell. On success it fixes neither the set of seen cells nor `dFSWrongMoves`, only that the path from `to` back to `from` is appended. All of these depend on the order in which depth-first search visits the cells.
- Worklists.Stack.Remove: requires a non-empty stack. Java's `removeFirst` would throw `NoSuchElementException` on an empty one. Every call site tests `isEmpty()` first (MazeWorld.java:438-439, 477-478).
- Worklists.Queue.Remove: requires a non-empty queue, for the same reason. Its one call site tests `isEmpty()` first (MazeWorld.java:509-510).
- Maze.MazeWorld.constructor: models the seeded constructor (MazeWorld.java:125-133). The unseeded one (114-122) differs only in its random source.
- The sort: `Collections.sort` is modelled by its contract, as a stable insertion sort. The merge sort Java uses is not modelled.

## Findings

| source | as written | input that shows it | evidently intended | confidence | as-written member | corrected member |
|---|---|---|---|---|---|---|
| src/main/java/MazeGenerator.java:179-184 | `contains` returns during the first iteration of its loop, so only `list.get(0)` is compared, and `removeDuplicates` (187-203) drops only edges equal to the first kept one | a 3×1 grid with draws 0 and 1: the sorted worklist is Edge(a,b,1), Edge(b,a,1), Edge(b,c,2), Edge(c,b,2); the de-duplicated one keeps both Edge(b,c,2) and Edge(c,b,2), which are equal | `contains` checks every element, so the worklist holds one edge per pair of adjacent cells | not executed | SpanningTree.KeepUnlikeFirstLeavesTwins, GridGraph.ThreeByOneWorklist | SpanningTree.RemoveDuplicatesIntended, SpanningTree.DeduplicateSpec |
| src/main/java/MazeWorld.java:562-565 | `onTick` calls `backtrackPath(exit, entrance)`, so the cell it stops at is the exit, while the trace the search began (MazeWorld.java:440-443, 511-514, with `from` the entrance) walks from the exit towards the entrance; after appending the entrance it moves to `null` and `doneBackTracking` is never set, so `backtrackPath` runs on every later tick and does nothing | a 2×1 maze with entrance a and exit b: the search pops b with `cameFromEdge` {b ↦ a}, its `backtrackPath(a, b)` appends a, and the `backtrackPath(b, a)` of the same tick moves from a to `null`; every later tick leaves it there | `backtrackPath(entrance, exit)`, which stops at the entrance after appending the same cells and sets `doneBackTracking` | not executed | Search.StepwiseOverrunsStart, MazeRules.TickTraceNeverEnds | Search.StepwiseMatchesImmediate |
