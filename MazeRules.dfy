/*
  The maze world as a value (MazeWorld.java:66-682 without drawing): the
  state of a MazeWorld object as a World record in four parts (generator,
  cell links, player, search), the invariant its operations keep, the
  effect of each tick and key as a function on World, and the lemmas that
  each of them keeps the invariant. The MazeWorld class is proved against
  these functions.
*/
module MazeRules {
  import opened Grid
  import opened UnionFind
  import opened SpanningTree
  import opened GridGraph
  import opened Passages
  import opened Search

  /** One step of the player: staying put, or going through an open passage. */
  ghost predicate Stepped(tree: seq<Edge>, a: Cell, b: Cell)
  {
    a == b || Passage(tree, a, b)
  }

  /** Every step of a walk stays put or goes through an open passage. */
  ghost predicate WalkedThrough(tree: seq<Edge>, trail: seq<Cell>)
    decreases |trail|
  {
    |trail| <= 1
    || (WalkedThrough(tree, trail[..|trail| - 1]) && Stepped(tree, trail[|trail| - 2], trail[|trail| - 1]))
  }

  /** A walk through the passages of a tree is still one once the tree has more edges. */
  lemma {:induction false} WalkGrows(tree: seq<Edge>, more: seq<Edge>, trail: seq<Cell>)
    requires WalkedThrough(tree, trail)
    ensures WalkedThrough(tree + more, trail)
    decreases |trail|
  {
    if |trail| > 1 {
      WalkGrows(tree, more, trail[..|trail| - 1]);
      if trail[|trail| - 2] != trail[|trail| - 1] {
        PassageGrows(tree, more, trail[|trail| - 2], trail[|trail| - 1]);
      }
    }
  }

  /**
    What the generator needs of a graph: some cells, well-formed out-edges,
    and a worklist that links every cell to one listed before it.
  */
  ghost predicate Generable(g: Graph)
  {
    |g.cells| > 0 && GraphOk(g) && ConnectedBy(InitialWorklist(g), g.cells)
  }

  /** Every grid initGraph builds has w * h cells and is one the generator finishes. */
  lemma GridGenerates(w: nat, h: nat, pref: int, draw: nat -> int)
    requires SizesOk(w, h, pref)
    ensures Generable(GridOf(w, h, pref, draw))
    ensures |GridOf(w, h, pref, draw).cells| == w * h
  {
    GridOk(w, h, pref, draw);
    GridConnected(w, h, pref, draw);
    MulOutside(w, h);
  }

  /** The entrance, cells[0]: where the player starts and the searches begin. */
  function TopLeft(g: Graph): Cell
    requires |g.cells| > 0
  {
    g.cells[0]
  }

  /** The exit, cells[width * height - 1], the last of the grid's width * height cells: the search goal and the player's target. */
  function BottomRight(g: Graph): Cell
    requires |g.cells| > 0
  {
    g.cells[|g.cells| - 1]
  }


  // ---------------------------------------------------------------------
  // The state
  // ---------------------------------------------------------------------

  /**
    The generator: the fixed sizes, the graph, and the Kruskal object's
    graph, run (representatives and edgesInTree) and worklist, with
    mazeGenerating and currentEdgeCount.
  */
  datatype Generator = Generator(
    width: nat, height: nat, pref: int,
    graph: Graph, kruskalGraph: Graph, run: Progress, worklist: seq<Edge>,
    generating: bool, edgeCount: nat)

  /** Each cell's left/top/right/bottom slots and neighbors list, and doneAddingNeighbors. */
  datatype CellLinks = CellLinks(slots: map<Cell, Slots>, neighbors: map<Cell, seq<Cell>>, doneAddingNeighbors: bool)

  /** The Player object's fields, with playerMoves and ended. */
  datatype Walker = Walker(currentPos: Cell, visited: seq<Cell>, playerMoves: int, ended: bool)

  /**
    The search: alreadySeen, cameFromEdge, the contents of the two worklists,
    the backtracking state (currentCell, backTrackPath, doneBackTracking),
    doneSearching, the chosen search and the counters shown on screen.
  */
  datatype SearchState = SearchState(
    seen: seq<Cell>, cameFrom: map<Cell, Cell>, stack: seq<Cell>, queue: seq<Cell>,
    trace: Trace, doneSearching: bool, dfs: bool, bfs: bool,
    dfsWrongMoves: int, bfsWrongMoves: int, dfsPathLength: int, bfsPathLength: int)

  /** The state of a MazeWorld. */
  datatype World = World(gen: Generator, links: CellLinks, player: Walker, search: SearchState)

  // ---------------------------------------------------------------------
  // The invariant
  // ---------------------------------------------------------------------

  /**
    A grid of width * height cells that Kruskal's run belongs to and covers;
    while generating, every worklist edge before the current index already
    lies inside one component, and afterwards the tree is complete.
  */
  ghost predicate GenerationOk(g: Generator)
  {
    && SizesOk(g.width, g.height, g.pref) && |g.graph.cells| == g.width * g.height
    && Generable(g.graph) && g.kruskalGraph == g.graph && g.worklist == InitialWorklist(g.graph)
    && Inv(g.run) && AllTouch(g.run.forest, g.worklist)
    && (g.generating ==> Settled(g.run, g.worklist, g.edgeCount))
    && (!g.generating ==> Complete(g.run))
    && g.run.forest.reps.Keys == set c | c in g.graph.cells
  }

  /** Every slot and every neighbour list names only adjacent cells joined to their cell by a passage of tree. */
  ghost predicate LinksOpen(tree: seq<Edge>, l: CellLinks)
  {
    AllSlotsOpen(tree, l.slots) && NeighborsOpen(tree, l.neighbors)
  }

  /** The player started at the entrance and has only walked through passages of tree. */
  ghost predicate WalkOk(graph: Graph, tree: seq<Edge>, p: Walker)
  {
    && |graph.cells| > 0
    && |p.visited| > 0 && p.visited[0] == TopLeft(graph)
    && WalkedThrough(tree, p.visited)
    && Stepped(tree, p.visited[|p.visited| - 1], p.currentPos)
  }

  /** The search is one from the entrance, whichever worklist it uses. */
  ghost predicate SearchInv(graph: Graph, nb: map<Cell, seq<Cell>>, s: SearchState)
  {
    && |graph.cells| > 0
    && Explored(TopLeft(graph), s.seen, s.cameFrom, nb)
    && Queued(TopLeft(graph), s.cameFrom, s.stack)
    && Queued(TopLeft(graph), s.cameFrom, s.queue)
  }

  /**
    Backtracking walks back from the exit along cameFromEdge; before the
    goal is found it has not started, and once it is found the predecessors
    lead from the exit to the entrance.
  */
  ghost predicate TraceInv(graph: Graph, s: SearchState)
  {
    && |graph.cells| > 0
    && TraceOk(s.cameFrom, BottomRight(graph), s.trace)
    && (!s.doneSearching ==> s.trace.current == Some(BottomRight(graph)) && s.trace.path == [])
    && (s.doneSearching ==> exists k: nat :: Follow(s.cameFrom, BottomRight(graph), k) == Some(TopLeft(graph)))
  }

  /** The counters of the chosen search: wrong moves count the expanded cells, path lengths the backtracked ones. */
  ghost predicate CountersOk(s: SearchState)
  {
    && !(s.dfs && s.bfs)
    && (s.doneSearching ==> s.dfs || s.bfs)
    && (s.dfs ==> s.dfsWrongMoves == |s.seen| && s.dfsPathLength == |s.trace.path|)
    && (s.bfs ==> s.bfsWrongMoves == |s.seen| && s.bfsPathLength == |s.trace.path|)
  }

  ghost predicate WorldOk(w: World)
  {
    && GenerationOk(w.gen)
    && LinksOpen(w.gen.run.tree, w.links)
    && WalkOk(w.gen.graph, w.gen.run.tree, w.player)
    && SearchInv(w.gen.graph, w.links.neighbors, w.search)
    && TraceInv(w.gen.graph, w.search)
    && CountersOk(w.search)
  }

  // ---------------------------------------------------------------------
  // The transitions
  // ---------------------------------------------------------------------

  /** A fresh Kruskal run on g, about to process the first worklist edge. */
  ghost function FreshGenerator(width: nat, height: nat, pref: int, g: Graph): Generator
  {
    Generator(width, height, pref, g, g, Start(g), InitialWorklist(g), true, 0)
  }

  /** A player alone at the entrance, no moves made, not ended. */
  function FreshWalker(g: Graph): Walker
    requires |g.cells| > 0
  {
    Walker(TopLeft(g), [TopLeft(g)], 0, false)
  }

  /** No search: empty worklists, nothing seen or traced, backtracking set to start at the exit, neither search chosen, every counter 0. */
  function FreshSearch(g: Graph): SearchState
    requires |g.cells| > 0
  {
    SearchState([], map[], [], [], Trace(Some(BottomRight(g)), [], false), false, false, false, 0, 0, 0, 0)
  }

  /** The state initGraph followed by initKruskal leaves: a fresh run on g, the player at the entrance, no search. */
  ghost function Initial(width: nat, height: nat, pref: int, g: Graph): World
    requires |g.cells| > 0
  {
    World(FreshGenerator(width, height, pref, g), CellLinks(map[], map[], false), FreshWalker(g), FreshSearch(g))
  }

  /** The first test of onTick: the player standing on the exit ends the game. */
  ghost function ReachExit(w: World): World
    requires |w.gen.graph.cells| > 0
  {
    if w.player.currentPos == BottomRight(w.gen.graph) then w.(player := w.player.(ended := true)) else w
  }

  /** While the tree is incomplete, the edge at the current index exists and the run completes from there. */
  lemma NextEdgeExists(g: Generator)
    requires GenerationOk(g) && g.generating && !Complete(g.run)
    ensures Completes(g.run, g.worklist, g.edgeCount)
    ensures g.edgeCount < |g.worklist|
  {
    SettledCompletes(g.run, g.worklist, g.graph.cells, g.edgeCount);
    StepFollowsRun(g.run, g.worklist, g.edgeCount);
  }

  /**
    One generation tick: the edge count goes up and runKruskal processes the
    edge at the old count; once the tree was already complete, runKruskal
    returns false and generation stops.
  */
  ghost function GenerationStep(g: Generator): Generator
    requires GenerationOk(g) && g.generating
  {
    NextEdgeReady(g);
    Advance(g)
  }

  /** What runKruskal needs of a generator: the forest invariant, every worklist edge on it, and an edge at the index while the tree is incomplete. */
  ghost predicate CanAdvance(g: Generator)
  {
    Inv(g.run) && AllTouch(g.run.forest, g.worklist) && (!Complete(g.run) ==> g.edgeCount < |g.worklist|)
  }

  /** The edge count goes up; the edge at the old count is processed, or, on a complete tree, generation stops. */
  ghost function Advance(g: Generator): Generator
    requires CanAdvance(g)
  {
    if Complete(g.run) then g.(edgeCount := g.edgeCount + 1, generating := false)
    else g.(edgeCount := g.edgeCount + 1, run := Process(g.run, g.worklist[g.edgeCount]))
  }

  /** Advancing counts one more edge, sets the run to what runKruskal leaves, and keeps generating exactly while the tree was incomplete. */
  lemma AdvanceFields(g: Generator)
    requires CanAdvance(g) && g.generating
    ensures Advance(g) == g.(edgeCount := g.edgeCount + 1,
                             run := if Complete(g.run) then g.run else Process(g.run, g.worklist[g.edgeCount]),
                             generating := !Complete(g.run))
  {
  }

  /** A consistent generator that is still generating can advance. */
  lemma NextEdgeReady(g: Generator)
    requires GenerationOk(g) && g.generating
    ensures CanAdvance(g)
  {
    if !Complete(g.run) {
      NextEdgeExists(g);
    }
  }

  /** addToCellNeighbors: the slots of every cell, then each cell's non-null slots appended to its neighbours. */
  function BuildNeighbors(tree: seq<Edge>, cells: seq<Cell>, l: CellLinks): CellLinks
  {
    var slots := DirectAll(tree, l.slots, cells);
    CellLinks(slots, AppendSlots(l.neighbors, slots, cells), true)
  }

  /** The generation part of onTick: a generation tick while generating, then the neighbour lists, built once. */
  ghost function Generate(w: World): World
    requires GenerationOk(w.gen)
  {
    if w.gen.generating then w.(gen := GenerationStep(w.gen))
    else if !w.links.doneAddingNeighbors then w.(links := BuildNeighbors(w.gen.run.tree, w.gen.graph.cells, w.links))
    else w
  }

  /** The generation part of onTick changes the generator or the links, never the player or the search. */
  lemma GenerateParts(w: World)
    requires GenerationOk(w.gen)
    ensures Generate(w) == World(
      if w.gen.generating then GenerationStep(w.gen) else w.gen,
      if w.gen.generating || w.links.doneAddingNeighbors then w.links else BuildNeighbors(w.gen.run.tree, w.gen.graph.cells, w.links),
      w.player, w.search)
  {
  }

  /** HashMap.get, which gives null for a null key and for a missing one. */
  function Lookup(cf: map<Cell, Cell>, c: Option<Cell>): Option<Cell>
  {
    if c.Some? && c.value in cf then Some(cf[c.value]) else None
  }

  /** A call of backtrackPath(from, _) that moves to a predecessor and appends it. */
  predicate BacksUp(s: SearchState, from: Cell)
  {
    s.trace.current != Some(from) && Lookup(s.cameFrom, s.trace.current).Some?
  }

  /** backtrackPath(from, _): one backtracking step, counted in the DFS path length when DFS alone is chosen, else in the BFS one. */
  ghost function Backtrack(s: SearchState, from: Cell): SearchState
  {
    var t := BackStep(s.cameFrom, from, s.trace);
    if !BacksUp(s, from) then s.(trace := t)
    else if s.dfs && !s.bfs then s.(trace := t, dfsPathLength := s.dfsPathLength + 1)
    else s.(trace := t, bfsPathLength := s.bfsPathLength + 1)
  }

  /** The worklist a search step pops from: the stack as it is, or the queue after hasPathBetweenBFS has added from. */
  function Pending(s: SearchState, from: Cell, lifo: bool): seq<Cell>
  {
    if lifo then s.stack else s.queue + [from]
  }

  /** The search fields over the worklist a step pops from. */
  function FrontierOf(s: SearchState, from: Cell, lifo: bool): Frontier
  {
    Frontier(Pending(s, from, lifo), s.seen, s.cameFrom)
  }

  /**
    hasPathBetweenDFS(from, to) (lifo) or hasPathBetweenBFS(from, to): on a
    non-empty worklist one search step, counting an expansion as a wrong
    move; popping the goal sets doneSearching and takes the first
    backtracking step, towards from.
  */
  ghost function SearchStep(s: SearchState, nb: map<Cell, seq<Cell>>, from: Cell, to: Cell, lifo: bool): SearchState
  {
    var f := FrontierOf(s, from, lifo);
    if f.pending == [] then s
    else
      var g := Step(f, nb, to, lifo);
      var more := if Expands(f, to) then 1 else 0;
      var s1 := if lifo then s.(stack := g.pending, seen := g.seen, cameFrom := g.cameFrom, dfsWrongMoves := s.dfsWrongMoves + more)
                else s.(queue := g.pending, seen := g.seen, cameFrom := g.cameFrom, bfsWrongMoves := s.bfsWrongMoves + more);
      if f.pending[0] == to then Backtrack(s1.(doneSearching := true), from) else s1
  }

  /** The search part of onTick: a DFS step, then a BFS step, each when its search alone is chosen and the goal not yet found. */
  ghost function SearchPhase(graph: Graph, nb: map<Cell, seq<Cell>>, s: SearchState): SearchState
    requires |graph.cells| > 0
  {
    SearchStage(graph, nb, SearchStage(graph, nb, s, true), false)
  }

  /** One guarded stage of the search part: a step of the chosen search when it alone is chosen and the goal is not found. */
  ghost function SearchStage(graph: Graph, nb: map<Cell, seq<Cell>>, s: SearchState, lifo: bool): SearchState
    requires |graph.cells| > 0
  {
    var chosen := if lifo then s.dfs && !s.bfs else s.bfs && !s.dfs;
    if !s.doneSearching && chosen then SearchStep(s, nb, TopLeft(graph), BottomRight(graph), lifo) else s
  }

  /** The last part of onTick: once the goal is found, a backtracking step, told to stop at the exit. */
  ghost function TraceBack(graph: Graph, s: SearchState): SearchState
    requires |graph.cells| > 0
  {
    if s.doneSearching && !s.trace.done then Backtrack(s, BottomRight(graph)) else s
  }

  /** onTick: the exit test, the generation part, the search part, then backtracking. */
  ghost function Tick(w: World): World
    requires GenerationOk(w.gen)
  {
    var w1 := ReachExit(w);
    var w2 := Generate(w1);
    w2.(search := TraceBack(w2.gen.graph, SearchPhase(w2.gen.graph, w2.links.neighbors, w2.search)))
  }

  /** The cell an arrow key asks the player to move to. */
  function Target(c: Cell, key: string): Cell
  {
    if key == "down" then Cell(c.x, c.y + 1)
    else if key == "up" then Cell(c.x, c.y - 1)
    else if key == "right" then Cell(c.x + 1, c.y)
    else if key == "left" then Cell(c.x - 1, c.y)
    else c
  }

  predicate IsArrow(key: string)
  {
    key == "down" || key == "up" || key == "right" || key == "left"
  }

  /** An arrow key whose target is open: the old position is appended to visited, the player moves, one more move. */
  function Move(p: Walker, key: string): Walker
  {
    p.(visited := p.visited + [p.currentPos], currentPos := Target(p.currentPos, key), playerMoves := p.playerMoves + 1)
  }

  /**
    'b' (fifo) and 'd' (lifo): a new search from the entrance, with fresh
    worklists (the DFS one holding the entrance), nothing seen or reached,
    backtracking set to start at the exit, and the chosen search's counters
    reset.
  */
  function NewSearch(graph: Graph, s: SearchState, lifo: bool): SearchState
    requires |graph.cells| > 0
  {
    var v := s.(doneSearching := false, trace := Trace(Some(BottomRight(graph)), [], false),
                cameFrom := map[], seen := [], queue := [], stack := if lifo then [TopLeft(graph)] else []);
    if lifo then v.(dfs := true, bfs := false, dfsWrongMoves := 0, dfsPathLength := 0)
    else v.(bfs := true, dfs := false, bfsWrongMoves := 0, bfsPathLength := 0)
  }

  /**
    From any state of the generator the run started at worklist index 0
    completes, and while generating it reaches what continuing at the
    current index would.
  */
  lemma SkipCompletes(g: Generator)
    requires GenerationOk(g)
    ensures Completes(g.run, g.worklist, 0)
    ensures g.generating ==> Completes(g.run, g.worklist, g.edgeCount)
    ensures g.generating ==> RunFrom(g.run, g.worklist, 0) == RunFrom(g.run, g.worklist, g.edgeCount)
  {
    if g.generating {
      SettledCompletes(g.run, g.worklist, g.graph.cells, g.edgeCount);
      RestartAgrees(g.run, g.worklist, g.edgeCount);
    }
  }

  /** 's': runKruskalImmediately from index 0 completes the tree, and generation stops. */
  ghost function Skip(g: Generator): Generator
    requires GenerationOk(g)
  {
    SkipCompletes(g);
    g.(run := RunFrom(g.run, g.worklist, 0), generating := false)
  }

  /**
    onKeyEvent(key): 'r' builds a new grid from the draws and restarts;
    an arrow moves the player when canGoToCell allows it; 'b' and 'd' start
    a search once generation is over; 's' finishes generation at once;
    every other key ('t' included) leaves the state alone.
  */
  ghost function KeyEvent(w: World, key: string, draw: nat -> int): World
    requires GenerationOk(w.gen)
  {
    var g := w.gen;
    if key == "r" then
      GridGenerates(g.width, g.height, g.pref, draw);
      Initial(g.width, g.height, g.pref, GridOf(g.width, g.height, g.pref, draw))
    else if IsArrow(key) && Passage(g.run.tree, w.player.currentPos, Target(w.player.currentPos, key)) then
      w.(player := Move(w.player, key))
    else if key == "b" && !g.generating then w.(search := NewSearch(g.graph, w.search, false))
    else if key == "d" && !g.generating then w.(search := NewSearch(g.graph, w.search, true))
    else if key == "s" then w.(gen := Skip(g))
    else w
  }

  // ---------------------------------------------------------------------
  // Every transition keeps the invariant
  // ---------------------------------------------------------------------

  /** initGraph followed by initKruskal establishes the invariant. */
  lemma InitialOk(width: nat, height: nat, pref: int, g: Graph)
    requires SizesOk(width, height, pref) && |g.cells| == width * height && Generable(g)
    ensures WorldOk(Initial(width, height, pref, g))
  {
    StartOk(g);
  }

  /** Slots and neighbour lists open in a tree stay open once the tree has more edges. */
  lemma LinksGrow(tree: seq<Edge>, more: seq<Edge>, l: CellLinks)
    requires LinksOpen(tree, l)
    ensures LinksOpen(tree + more, l)
  {
    forall c | c in l.slots ensures SlotsOpen(tree + more, c, l.slots[c]) {
      SlotsStayOpen(tree, more, c, l.slots[c]);
    }
    forall c, n | c in l.neighbors && n in l.neighbors[c] ensures Passage(tree + more, c, n) {
      PassageGrows(tree, more, c, n);
    }
  }

  /** A walk through the passages of a tree is still one once the tree has more edges. */
  lemma WalkStaysOk(graph: Graph, tree: seq<Edge>, more: seq<Edge>, p: Walker)
    requires WalkOk(graph, tree, p)
    ensures WalkOk(graph, tree + more, p)
  {
    WalkGrows(tree, more, p.visited);
    if p.visited[|p.visited| - 1] != p.currentPos {
      PassageGrows(tree, more, p.visited[|p.visited| - 1], p.currentPos);
    }
  }

  /** A generation tick keeps the generator's invariant and only appends to the tree. */
  lemma GenerationStepOk(g: Generator)
    requires GenerationOk(g) && g.generating
    ensures GenerationOk(GenerationStep(g))
    ensures g.run.tree <= GenerationStep(g).run.tree
  {
    if !Complete(g.run) {
      NextEdgeExists(g);
      var e := g.worklist[g.edgeCount];
      ProcessSettles(g.run, g.worklist, g.edgeCount);
      ProcessKeepsCells(g.run, e);
      ProcessAddsOnlyBridges(g.run, e);
    }
  }

  /** addToCellNeighbors builds only open slots and lists. */
  lemma BuildNeighborsOpen(tree: seq<Edge>, cells: seq<Cell>, l: CellLinks)
    requires LinksOpen(tree, l)
    ensures LinksOpen(tree, BuildNeighbors(tree, cells, l))
  {
    var slots := DirectAll(tree, l.slots, cells);
    DirectAllOpen(tree, l.slots, cells);
    forall c ensures SlotsOpen(tree, c, SlotsOf(slots, c)) {
    }
    AppendSlotsOpen(tree, l.neighbors, slots, cells);
  }

  /** addToCellNeighbors only appends to neighbour lists, so a search under way stays consistent. */
  lemma BuildNeighborsKeepsSearch(tree: seq<Edge>, graph: Graph, l: CellLinks, s: SearchState)
    requires SearchInv(graph, l.neighbors, s)
    ensures SearchInv(graph, BuildNeighbors(tree, graph.cells, l).neighbors, s)
  {
    var slots := DirectAll(tree, l.slots, graph.cells);
    var nb := AppendSlots(l.neighbors, slots, graph.cells);
    forall c, n | n in NeighborsOf(l.neighbors, c) ensures n in NeighborsOf(nb, c) {
      AppendSlotsSpec(l.neighbors, slots, graph.cells, c);
    }
    ExploredGrows(TopLeft(graph), s.seen, s.cameFrom, l.neighbors, nb);
  }

  /** A consistent world stays consistent when its generator, on the same grid, only adds edges to the tree. */
  lemma TreeGrowsOk(w: World, g: Generator)
    requires WorldOk(w) && GenerationOk(g) && g.graph == w.gen.graph && w.gen.run.tree <= g.run.tree
    ensures WorldOk(w.(gen := g))
  {
    var more := g.run.tree[|w.gen.run.tree|..];
    assert g.run.tree == w.gen.run.tree + more;
    LinksGrow(w.gen.run.tree, more, w.links);
    WalkStaysOk(w.gen.graph, w.gen.run.tree, more, w.player);
  }

  /** The generation part of onTick keeps the invariant. */
  lemma GenerateKeepsOk(w: World)
    requires WorldOk(w)
    ensures WorldOk(Generate(w))
  {
    if w.gen.generating {
      GenerationStepOk(w.gen);
      TreeGrowsOk(w, GenerationStep(w.gen));
    } else if !w.links.doneAddingNeighbors {
      BuildNeighborsOpen(w.gen.run.tree, w.gen.graph.cells, w.links);
      BuildNeighborsKeepsSearch(w.gen.run.tree, w.gen.graph, w.links, w.search);
    }
  }

  /** Once the goal is found, a backtracking step keeps the trace walking back from the exit, and counts the cell it appends. */
  lemma BacktrackKeepsOk(graph: Graph, nb: map<Cell, seq<Cell>>, s: SearchState, from: Cell)
    requires SearchInv(graph, nb, s) && TraceInv(graph, s) && CountersOk(s) && s.doneSearching
    ensures SearchInv(graph, nb, Backtrack(s, from))
    ensures TraceInv(graph, Backtrack(s, from))
    ensures CountersOk(Backtrack(s, from))
  {
    BackStepKeepsTrace(s.cameFrom, BottomRight(graph), from, s.trace);
  }

  /** The first search step of a fresh or running search keeps the trace at the exit until the goal is popped. */
  lemma SearchStepKeepsOk(graph: Graph, nb: map<Cell, seq<Cell>>, s: SearchState, lifo: bool)
    requires Irreflexive(nb) && SearchInv(graph, nb, s) && TraceInv(graph, s) && CountersOk(s)
    requires !s.doneSearching && (if lifo then s.dfs && !s.bfs else s.bfs && !s.dfs)
    ensures var t := SearchStep(s, nb, TopLeft(graph), BottomRight(graph), lifo);
      SearchInv(graph, nb, t) && TraceInv(graph, t) && CountersOk(t)
  {
    var start, goal := TopLeft(graph), BottomRight(graph);
    var f := FrontierOf(s, start, lifo);
    if f.pending != [] {
      assert SearchOk(start, f, nb);
      StepKeepsOk(start, f, nb, goal, lifo);
      StepGrowsSeen(f, nb, goal, lifo);
      var g := Step(f, nb, goal, lifo);
      QueuedGrows(start, s.cameFrom, g.cameFrom, if lifo then s.queue else s.stack);
      var more := if Expands(f, goal) then 1 else 0;
      var s1 := if lifo then s.(stack := g.pending, seen := g.seen, cameFrom := g.cameFrom, dfsWrongMoves := s.dfsWrongMoves + more)
                else s.(queue := g.pending, seen := g.seen, cameFrom := g.cameFrom, bfsWrongMoves := s.bfsWrongMoves + more);
      assert SearchInv(graph, nb, s1) && CountersOk(s1);
      assert TraceOk(g.cameFrom, goal, s.trace);
      if f.pending[0] == goal {
        GoalLeadsToStart(start, f, nb, goal);
        BacktrackKeepsOk(graph, nb, s1.(doneSearching := true), start);
      }
    }
  }

  /** The search part of onTick keeps the search consistent. */
  lemma SearchPhaseKeepsOk(graph: Graph, nb: map<Cell, seq<Cell>>, s: SearchState)
    requires Irreflexive(nb) && SearchInv(graph, nb, s) && TraceInv(graph, s) && CountersOk(s)
    ensures var t := SearchPhase(graph, nb, s);
      SearchInv(graph, nb, t) && TraceInv(graph, t) && CountersOk(t)
  {
    var s1 := s;
    if !s.doneSearching && s.dfs && !s.bfs {
      SearchStepKeepsOk(graph, nb, s, true);
      s1 := SearchStep(s, nb, TopLeft(graph), BottomRight(graph), true);
    }
    if !s1.doneSearching && s1.bfs && !s1.dfs {
      SearchStepKeepsOk(graph, nb, s1, false);
    }
  }

  /** onTick keeps the invariant. */
  lemma TickKeepsOk(w: World)
    requires WorldOk(w)
    ensures WorldOk(Tick(w))
  {
    var w1 := ReachExit(w);
    assert WorldOk(w1);
    GenerateKeepsOk(w1);
    var w2 := Generate(w1);
    var tree, nb := w2.gen.run.tree, w2.links.neighbors;
    OpenIsIrreflexive(tree, nb);
    SearchPhaseKeepsOk(w2.gen.graph, nb, w2.search);
    var s3 := SearchPhase(w2.gen.graph, nb, w2.search);
    if s3.doneSearching && !s3.trace.done {
      BacktrackKeepsOk(w2.gen.graph, nb, s3, BottomRight(w2.gen.graph));
    }
  }

  /** An arrow move through an open passage keeps the player's walk inside the maze. */
  lemma MoveKeepsOk(graph: Graph, tree: seq<Edge>, p: Walker, key: string)
    requires WalkOk(graph, tree, p) && Passage(tree, p.currentPos, Target(p.currentPos, key))
    ensures WalkOk(graph, tree, Move(p, key))
  {
    var v := p.visited + [p.currentPos];
    assert v[..|v| - 1] == p.visited;
  }

  /** 'b' and 'd' start a consistent search. */
  lemma NewSearchOk(graph: Graph, nb: map<Cell, seq<Cell>>, s: SearchState, lifo: bool)
    requires |graph.cells| > 0
    ensures var t := NewSearch(graph, s, lifo);
      SearchInv(graph, nb, t) && TraceInv(graph, t) && CountersOk(t)
  {
  }

  /** 's' completes the tree, keeps the generator's invariant and only appends to the tree. */
  lemma SkipOk(g: Generator)
    requires GenerationOk(g)
    ensures GenerationOk(Skip(g)) && Complete(Skip(g).run)
    ensures g.run.tree <= Skip(g).run.tree
  {
    SkipCompletes(g);
    RunFromKeepsCells(g.run, g.worklist, 0);
    RunFromExtends(g.run, g.worklist, 0);
  }

  /** 's' in a consistent world gives a consistent world. */
  lemma SkipKeepsOk(w: World)
    requires WorldOk(w)
    ensures WorldOk(w.(gen := Skip(w.gen)))
  {
    SkipOk(w.gen);
    TreeGrowsOk(w, Skip(w.gen));
  }

  /** 'r' in any state gives a consistent fresh world. */
  lemma ResetOk(w: World, draw: nat -> int)
    requires GenerationOk(w.gen)
    ensures KeyEvent(w, "r", draw) == Initial(w.gen.width, w.gen.height, w.gen.pref, GridOf(w.gen.width, w.gen.height, w.gen.pref, draw))
    ensures WorldOk(KeyEvent(w, "r", draw))
  {
    var g := w.gen;
    GridGenerates(g.width, g.height, g.pref, draw);
    InitialOk(g.width, g.height, g.pref, GridOf(g.width, g.height, g.pref, draw));
  }

  /** onKeyEvent keeps the invariant. */
  lemma KeyKeepsOk(w: World, key: string, draw: nat -> int)
    requires WorldOk(w)
    ensures WorldOk(KeyEvent(w, key, draw))
  {
    var g := w.gen;
    if key == "r" {
      ResetOk(w, draw);
    } else if IsArrow(key) && Passage(g.run.tree, w.player.currentPos, Target(w.player.currentPos, key)) {
      MoveKeepsOk(g.graph, g.run.tree, w.player, key);
    } else if key == "b" && !g.generating {
      NewSearchOk(g.graph, w.links.neighbors, w.search, false);
    } else if key == "d" && !g.generating {
      NewSearchOk(g.graph, w.links.neighbors, w.search, true);
    } else if key == "s" {
      SkipKeepsOk(w);
    }
  }

  // ---------------------------------------------------------------------
  // Generation reaches the tree that 's' builds at once
  // ---------------------------------------------------------------------

  /** The tree the generator is heading for: the run from worklist index 0, which completes from every state. */
  ghost function Outcome(g: Generator): (r: Progress)
    requires GenerationOk(g)
    ensures Complete(r) && g.run.tree <= r.tree
    ensures !g.generating ==> r == g.run
  {
    SkipCompletes(g);
    RunFromExtends(g.run, g.worklist, 0);
    RunFrom(g.run, g.worklist, 0)
  }

  /** A runKruskal call that processes an edge leaves the outcome unchanged. */
  lemma ProcessFollowsOutcome(g: Generator)
    requires GenerationOk(g) && g.generating && !Complete(g.run)
    requires GenerationOk(GenerationStep(g))
    ensures Outcome(GenerationStep(g)) == Outcome(g)
  {
    var g' := GenerationStep(g);
    SkipCompletes(g);
    StepKeepsRestart(g.run, g.worklist, g.edgeCount);
    assert g'.run == Process(g.run, g.worklist[g.edgeCount]);
  }

  /**
    One runKruskal call of onTick leaves the outcome unchanged, moves to the
    next worklist index, and stays within the worklist while generating.
  */
  lemma GenerationStepFollows(g: Generator)
    requires GenerationOk(g) && g.generating
    ensures g.edgeCount <= |g.worklist|
    ensures GenerationOk(GenerationStep(g))
    ensures Outcome(GenerationStep(g)) == Outcome(g)
    ensures GenerationStep(g).edgeCount == g.edgeCount + 1 && GenerationStep(g).worklist == g.worklist
    ensures GenerationStep(g).generating ==> GenerationStep(g).edgeCount <= |g.worklist|
  {
    GenerationStepOk(g);
    if !Complete(g.run) {
      ProcessFollowsOutcome(g);
    }
  }

  /** What onTick does to the generator: one runKruskal call while generating, nothing afterwards. */
  lemma TickGenerator(w: World)
    requires GenerationOk(w.gen)
    ensures Tick(w).gen == if w.gen.generating then GenerationStep(w.gen) else w.gen
  {
  }

  /** onTick keeps the generator's outcome and advances the edge count while it is generating. */
  lemma TickFollowsRun(w: World)
    requires WorldOk(w)
    ensures WorldOk(Tick(w))
    ensures Outcome(Tick(w).gen) == Outcome(w.gen) && Tick(w).gen.worklist == w.gen.worklist
    ensures w.gen.generating ==> Tick(w).gen.edgeCount == w.gen.edgeCount + 1
    ensures !w.gen.generating ==> Tick(w).gen == w.gen
    ensures Tick(w).gen.generating ==> Tick(w).gen.edgeCount <= |w.gen.worklist|
  {
    TickKeepsOk(w);
    TickGenerator(w);
    if w.gen.generating {
      GenerationStepFollows(w.gen);
    }
  }

  /** The generator after n ticks: one runKruskal call per tick until generation stops. */
  ghost function GenTicks(g: Generator, n: nat): (r: Generator)
    requires GenerationOk(g)
    ensures GenerationOk(r) && r.worklist == g.worklist
    decreases n
  {
    if n == 0 || !g.generating then g
    else
      GenerationStepFollows(g);
      GenTicks(GenerationStep(g), n - 1)
  }

  /** Enough ticks finish generation, with the generator's outcome as the maze. */
  lemma {:induction false} GenTicksFinish(g: Generator, n: nat)
    requires GenerationOk(g) && (g.generating ==> |g.worklist| < g.edgeCount + n)
    ensures !GenTicks(g, n).generating && GenTicks(g, n).run == Outcome(g)
    decreases n
  {
    if !g.generating {
      assert GenTicks(g, n) == g;
    } else {
      GenerationStepFollows(g);
      var g' := GenerationStep(g);
      assert n > 0;
      GenTicksFinish(g', n - 1);
      assert GenTicks(g, n) == GenTicks(g', n - 1);
    }
  }

  /** n successive ticks. */
  ghost function Ticks(w: World, n: nat): (r: World)
    requires WorldOk(w)
    ensures WorldOk(r)
    decreases n
  {
    if n == 0 then w
    else
      TickKeepsOk(w);
      Ticks(Tick(w), n - 1)
  }

  /** The generator after n ticks of the world is the generator's own n steps. */
  lemma {:induction false} TicksGenerate(w: World, n: nat)
    requires WorldOk(w)
    ensures Ticks(w, n).gen == GenTicks(w.gen, n)
    decreases n
  {
    if n > 0 {
      TickKeepsOk(w);
      var w', m := Tick(w), n - 1;
      TicksGenerate(w', m);
      TicksStep(w, m, w');
    }
  }

  /** One tick off the front: what holds of the remaining n - 1 ticks holds of all n. */
  lemma TicksStep(w: World, m: nat, w': World)
    requires WorldOk(w) && w' == Tick(w) && WorldOk(w')
    requires Ticks(w', m).gen == GenTicks(w'.gen, m)
    ensures Ticks(w, m + 1).gen == GenTicks(w.gen, m + 1)
  {
    TickGenerator(w);
    if !w.gen.generating {
      assert GenTicks(w.gen, m) == w.gen;
    }
  }

  /** Enough ticks finish generation, with the generator's outcome as the maze. */
  lemma TicksFinish(w: World, n: nat)
    requires WorldOk(w) && (w.gen.generating ==> |w.gen.worklist| < w.gen.edgeCount + n)
    ensures !Ticks(w, n).gen.generating && Ticks(w, n).gen.run == Outcome(w.gen)
  {
    TicksGenerate(w, n);
    GenTicksFinish(w.gen, n);
  }

  /**
    The 's' key builds the generator's outcome at once, so it gives the same
    maze as waiting for the ticks to finish: the stepwise and the immediate
    Kruskal runs agree.
  */
  lemma SkipMatchesTicks(w: World, draw: nat -> int)
    requires WorldOk(w)
    ensures !KeyEvent(w, "s", draw).gen.generating
    ensures KeyEvent(w, "s", draw).gen.run == Outcome(w.gen) == Ticks(w, |w.gen.worklist| + 1).gen.run
  {
    var g := w.gen;
    assert !IsArrow("s") && "s" != "r" && "s" != "b" && "s" != "d";
    assert KeyEvent(w, "s", draw) == w.(gen := Skip(g));
    assert Skip(g).run == Outcome(g);
    TicksFinish(w, |g.worklist| + 1);
  }

  // ---------------------------------------------------------------------
  // The path the search finds
  // ---------------------------------------------------------------------

  /**
    The solution, read from the exit back along the search's predecessors to
    the entrance, is a walk through open passages between adjacent cells.
  */
  lemma SolutionIsOpen(w: World, k: nat)
    requires WorldOk(w)
    requires Follow(w.search.cameFrom, BottomRight(w.gen.graph), k) == Some(TopLeft(w.gen.graph))
    ensures var sol := PathBack(w.search.cameFrom, BottomRight(w.gen.graph), TopLeft(w.gen.graph), k) + [TopLeft(w.gen.graph)];
      && sol[0] == BottomRight(w.gen.graph)
      && (forall i :: 0 <= i < |sol| - 1 ==> Passage(w.gen.run.tree, sol[i], sol[i + 1]) && Adjacent(sol[i], sol[i + 1]))
  {
    var cf, nb := w.search.cameFrom, w.links.neighbors;
    assert forall n :: n in cf ==> n in NeighborsOf(nb, cf[n]);
    assert NeighborsOpen(w.gen.run.tree, nb);
    LinkedPathOpen(cf, nb, w.gen.run.tree, BottomRight(w.gen.graph), TopLeft(w.gen.graph), k);
  }

  /** A walk back along predecessors that are open neighbours crosses only passages between adjacent cells. */
  lemma LinkedPathOpen(cf: map<Cell, Cell>, nb: map<Cell, seq<Cell>>, tree: seq<Edge>, exit: Cell, entrance: Cell, k: nat)
    requires Follow(cf, exit, k) == Some(entrance)
    requires forall n :: n in cf ==> n in NeighborsOf(nb, cf[n])
    requires NeighborsOpen(tree, nb)
    ensures var sol := PathBack(cf, exit, entrance, k) + [entrance];
      && sol[0] == exit
      && (forall i :: 0 <= i < |sol| - 1 ==> Passage(tree, sol[i], sol[i + 1]) && Adjacent(sol[i], sol[i + 1]))
  {
    var sol := PathBack(cf, exit, entrance, k) + [entrance];
    PathBackLinks(cf, exit, entrance, k);
    forall i | 0 <= i < |sol| - 1
      ensures Passage(tree, sol[i], sol[i + 1]) && Adjacent(sol[i], sol[i + 1])
    {
      var n := sol[i];
      assert n in cf && cf[n] == sol[i + 1];
      assert n in NeighborsOf(nb, cf[n]);
      PassageSymmetric(tree, n, cf[n]);
    }
  }

  /** n consecutive backtracking parts of onTick. */
  ghost function TraceBacks(graph: Graph, s: SearchState, n: nat): SearchState
    requires |graph.cells| > 0
    decreases n
  {
    if n == 0 then s else TraceBacks(graph, TraceBack(graph, s), n - 1)
  }

  /** While the steps never set doneBackTracking, repeated backtracking parts move the trace as repeated steps told to stop at the exit. */
  lemma {:induction false} TraceBacksFollow(graph: Graph, s: SearchState, n: nat)
    requires |graph.cells| > 0 && s.doneSearching
    requires forall m: nat :: !BackSteps(s.cameFrom, BottomRight(graph), s.trace, m).done
    ensures TraceBacks(graph, s, n).trace == BackSteps(s.cameFrom, BottomRight(graph), s.trace, n)
    decreases n
  {
    if n > 0 {
      assert !BackSteps(s.cameFrom, BottomRight(graph), s.trace, 0).done;
      var s1 := TraceBack(graph, s);
      assert s1.trace == BackStep(s.cameFrom, BottomRight(graph), s.trace);
      assert s1.cameFrom == s.cameFrom && s1.doneSearching;
      forall m: nat ensures !BackSteps(s1.cameFrom, BottomRight(graph), s1.trace, m).done {
        assert !BackSteps(s.cameFrom, BottomRight(graph), s.trace, m + 1).done;
      }
      TraceBacksFollow(graph, s1, n - 1);
    }
  }

  /**
    onTick backtracks with the exit as the cell to stop at, while the search
    began the trace at the exit and walks it towards the entrance: the ticks
    append the chain up to the entrance, then leave currentCell at null, and
    doneBackTracking is never set.
  */
  lemma TickTraceNeverEnds(graph: Graph, s: SearchState, c: Cell, k: nat)
    requires |graph.cells| > 0 && s.doneSearching
    requires s.trace.current == Some(c) && !s.trace.done
    requires Follow(s.cameFrom, c, k) == Some(TopLeft(graph)) && TopLeft(graph) !in s.cameFrom
    requires BottomRight(graph) != TopLeft(graph) && BottomRight(graph) !in PathBack(s.cameFrom, c, TopLeft(graph), k)
    ensures forall n: nat :: !TraceBacks(graph, s, n).trace.done
    ensures forall n: nat :: n > |PathBack(s.cameFrom, c, TopLeft(graph), k)| ==>
      TraceBacks(graph, s, n).trace == Trace(None, s.trace.path + Shifted(PathBack(s.cameFrom, c, TopLeft(graph), k), TopLeft(graph)), false)
  {
    assert s.trace == Trace(Some(c), s.trace.path, false);
    StepwiseOverrunsStart(s.cameFrom, c, TopLeft(graph), BottomRight(graph), k, s.trace.path);
    forall n: nat ensures TraceBacks(graph, s, n).trace == BackSteps(s.cameFrom, BottomRight(graph), s.trace, n) {
      TraceBacksFollow(graph, s, n);
    }
  }
}
