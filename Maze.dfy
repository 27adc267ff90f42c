/*
  The maze world (MazeWorld.java:66-682 without drawing): the grid and its
  Kruskal run, the player, the cell slots and neighbour lists, the stepwise
  and looped searches, backtracking, and the tick and key handlers. Each
  Java Cell object's mutable fields (left/top/right/bottom and neighbors)
  are kept in maps keyed by the cell; a graph rebuilt by 'r' starts with
  empty maps, as new Cell objects start with null slots and no neighbours.
  Every state-changing method is proved against the World functions of
  MazeRules, and the ones onTick and onKeyEvent are built from keep the
  invariant WorldOk.
*/
module Maze {
  import opened Grid
  import opened UnionFind
  import opened SpanningTree
  import opened GridGraph
  import opened Passages
  import opened Search
  import opened Worklists
  import opened MazeRules

  class Player {
    var currentPos: Cell
    var visited: seq<Cell>

    constructor (currentPos: Cell)
      ensures this.currentPos == currentPos && visited == [currentPos]
    {
      this.currentPos := currentPos;
      visited := [currentPos];
    }
  }

  class MazeWorld {
    const mazeWidth: nat
    const mazeHeight: nat
    const horizontalPreference: int

    var graph: Graph
    var kruskal: Kruskal
    var player: Player
    /** The left/top/right/bottom fields of each cell. */
    var slots: map<Cell, Slots>
    /** The neighbors list of each cell. */
    var neighbors: map<Cell, seq<Cell>>

    var currentEdgeCount: nat
    var cameFromEdge: map<Cell, Cell>
    var alreadySeen: seq<Cell>
    var worklistStack: Stack<Cell>
    var worklistQueue: Queue<Cell>
    var backTrackPath: seq<Cell>

    var mazeGenerating: bool
    var doneSearching: bool
    var currentCell: Option<Cell>
    var doneAddingNeighbors: bool
    var doneBackTracking: bool
    var dfs: bool
    var bfs: bool
    var bFSWrongMoves: int
    var dFSWrongMoves: int
    var playerMoves: int
    var bFSPathLength: int
    var dFSPathLength: int
    var ended: bool

    // -------------------------------------------------------------------
    // The fields as a World value
    // -------------------------------------------------------------------

    ghost function GenSnap(): Generator
      reads this`graph, this`kruskal, this`mazeGenerating, this`currentEdgeCount,
            kruskal`graph, kruskal`representatives, kruskal`rootOf, kruskal`depth, kruskal`edgesInTree, kruskal`worklist
    {
      Generator(mazeWidth, mazeHeight, horizontalPreference, graph, kruskal.graph, kruskal.State(), kruskal.worklist,
                mazeGenerating, currentEdgeCount)
    }

    ghost function LinksSnap(): CellLinks
      reads this`slots, this`neighbors, this`doneAddingNeighbors
    {
      CellLinks(slots, neighbors, doneAddingNeighbors)
    }

    ghost function PlayerSnap(): Walker
      reads this`player, player`currentPos, player`visited, this`playerMoves, this`ended
    {
      Walker(player.currentPos, player.visited, playerMoves, ended)
    }

    ghost function SearchSnap(): SearchState
      reads this`alreadySeen, this`cameFromEdge, this`worklistStack, worklistStack`contents, this`worklistQueue, worklistQueue`contents,
            this`currentCell, this`backTrackPath, this`doneBackTracking, this`doneSearching,
            this`dfs, this`bfs, this`dFSWrongMoves, this`bFSWrongMoves, this`dFSPathLength, this`bFSPathLength
    {
      SearchState(alreadySeen, cameFromEdge, worklistStack.contents, worklistQueue.contents,
                  Trace(currentCell, backTrackPath, doneBackTracking), doneSearching,
                  dfs, bfs, dFSWrongMoves, bFSWrongMoves, dFSPathLength, bFSPathLength)
    }

    /** The fields the model is about, as one value. */
    ghost function Snapshot(): World
      reads this`graph, this`kruskal, this`mazeGenerating, this`currentEdgeCount,
            kruskal`graph, kruskal`representatives, kruskal`rootOf, kruskal`depth, kruskal`edgesInTree, kruskal`worklist,
            this`slots, this`neighbors, this`doneAddingNeighbors, this`player, player`currentPos, player`visited, this`playerMoves, this`ended,
            this`alreadySeen, this`cameFromEdge, this`worklistStack, worklistStack`contents, this`worklistQueue, worklistQueue`contents,
            this`currentCell, this`backTrackPath, this`doneBackTracking, this`doneSearching,
            this`dfs, this`bfs, this`dFSWrongMoves, this`bFSWrongMoves, this`dFSPathLength, this`bFSPathLength
    {
      World(GenSnap(), LinksSnap(), PlayerSnap(), SearchSnap())
    }

    ghost predicate Valid()
      reads this`graph, this`kruskal, this`mazeGenerating, this`currentEdgeCount,
            kruskal`graph, kruskal`representatives, kruskal`rootOf, kruskal`depth, kruskal`edgesInTree, kruskal`worklist,
            this`slots, this`neighbors, this`doneAddingNeighbors, this`player, player`currentPos, player`visited, this`playerMoves, this`ended,
            this`alreadySeen, this`cameFromEdge, this`worklistStack, worklistStack`contents, this`worklistQueue, worklistQueue`contents,
            this`currentCell, this`backTrackPath, this`doneBackTracking, this`doneSearching,
            this`dfs, this`bfs, this`dFSWrongMoves, this`bFSWrongMoves, this`dFSPathLength, this`bFSPathLength
    {
      WorldOk(Snapshot())
    }

    // -------------------------------------------------------------------
    // Construction (MazeWorld.java:113-136, 137-177, 222-247)
    // -------------------------------------------------------------------

    /**
      The constructor for a given seed, whose Random gives the draws; the
      unseeded one differs only in the draws. Java's fields start null; here
      they hold placeholders until initGraph and initKruskal set them.
    */
    constructor (mazeWidth: nat, mazeHeight: nat, horizontalPreference: int, draw: nat -> int)
      requires SizesOk(mazeWidth, mazeHeight, horizontalPreference)
      ensures graph == GridOf(mazeWidth, mazeHeight, horizontalPreference, draw) && |graph.cells| == mazeWidth * mazeHeight > 0
      ensures Snapshot() == Initial(mazeWidth, mazeHeight, horizontalPreference, graph)
      ensures Valid()
    {
      this.mazeWidth := mazeWidth;
      this.mazeHeight := mazeHeight;
      this.horizontalPreference := horizontalPreference;
      graph := Graph([], []);
      kruskal := new Kruskal(Graph([], []));
      player := new Player(Cell(0, 0));
      worklistStack := new Stack();
      worklistQueue := new Queue();
      new;
      Restart(draw);
      InitialOk(mazeWidth, mazeHeight, horizontalPreference, graph);
    }

    /** initGraph followed by initKruskal, as the constructor and the 'r' key call them. */
    method Restart(draw: nat -> int)
      requires SizesOk(mazeWidth, mazeHeight, horizontalPreference)
      modifies this`graph, this`slots, this`neighbors,
               this`currentEdgeCount, this`kruskal, this`cameFromEdge, this`alreadySeen, this`worklistStack, this`worklistQueue,
               this`backTrackPath, this`currentCell, this`mazeGenerating, this`doneSearching, this`doneAddingNeighbors,
               this`player, this`dfs, this`bfs, this`doneBackTracking,
               this`bFSWrongMoves, this`dFSWrongMoves, this`playerMoves, this`bFSPathLength, this`dFSPathLength, this`ended
      ensures graph == GridOf(mazeWidth, mazeHeight, horizontalPreference, draw) && |graph.cells| == mazeWidth * mazeHeight > 0
      ensures Generable(graph)
      ensures Snapshot() == Initial(mazeWidth, mazeHeight, horizontalPreference, graph)
    {
      InitGraph(draw);
      GridGenerates(mazeWidth, mazeHeight, horizontalPreference, draw);
      MulOutside(mazeWidth, mazeHeight);
      InitKruskal();
      assert LinksSnap() == CellLinks(map[], map[], false);
    }

    /** initGraph(seed): the grid built from the draws; its new cells have null slots and no neighbours. */
    method InitGraph(draw: nat -> int)
      requires SizesOk(mazeWidth, mazeHeight, horizontalPreference)
      modifies this`graph, this`slots, this`neighbors
      ensures graph == GridOf(mazeWidth, mazeHeight, horizontalPreference, draw)
      ensures slots == map[] && neighbors == map[]
    {
      graph := BuildGrid(mazeWidth, mazeHeight, horizontalPreference, draw);
      slots := map[];
      neighbors := map[];
    }

    /** The generator part of initKruskal: edge count 0, a fresh Kruskal run on the graph, generating. */
    method StartGeneration()
      requires GraphOk(graph)
      modifies this`currentEdgeCount, this`kruskal, this`mazeGenerating
      ensures fresh(kruskal)
      ensures GenSnap() == FreshGenerator(mazeWidth, mazeHeight, horizontalPreference, graph)
    {
      currentEdgeCount := 0;
      kruskal := new Kruskal(graph);
      mazeGenerating := true;
      assert kruskal.State() == Start(graph);
    }

    /** New empty worklists, nothing seen or reached. */
    method ResetWorklists()
      modifies this`cameFromEdge, this`alreadySeen, this`worklistStack, this`worklistQueue
      ensures fresh(worklistStack) && fresh(worklistQueue)
      ensures worklistStack.contents == [] && worklistQueue.contents == []
      ensures cameFromEdge == map[] && alreadySeen == []
    {
      cameFromEdge := map[];
      alreadySeen := [];
      worklistStack := new Stack();
      worklistQueue := new Queue();
    }

    /** No path traced, backtracking set to start at the exit, the goal not yet found. */
    method ResetTrace()
      requires |graph.cells| == mazeWidth * mazeHeight > 0
      modifies this`backTrackPath, this`currentCell, this`doneSearching, this`doneBackTracking
      ensures backTrackPath == [] && currentCell == Some(BottomRight(graph)) && !doneSearching && !doneBackTracking
    {
      backTrackPath := [];
      currentCell := Some(graph.cells[mazeWidth * mazeHeight - 1]);
      doneSearching := false;
      doneBackTracking := false;
    }

    /** Neither search chosen, every counter 0. */
    method ResetModes()
      modifies this`dfs, this`bfs, this`bFSWrongMoves, this`dFSWrongMoves, this`bFSPathLength, this`dFSPathLength
      ensures !dfs && !bfs && bFSWrongMoves == 0 && dFSWrongMoves == 0 && bFSPathLength == 0 && dFSPathLength == 0
    {
      dfs := false;
      bfs := false;
      bFSWrongMoves := 0;
      dFSWrongMoves := 0;
      bFSPathLength := 0;
      dFSPathLength := 0;
    }

    /** The search part of initKruskal: every search field reset. */
    method ResetSearch()
      requires |graph.cells| == mazeWidth * mazeHeight > 0
      modifies this`cameFromEdge, this`alreadySeen, this`worklistStack, this`worklistQueue, this`backTrackPath, this`currentCell,
               this`doneSearching, this`dfs, this`bfs, this`doneBackTracking,
               this`bFSWrongMoves, this`dFSWrongMoves, this`bFSPathLength, this`dFSPathLength
      ensures fresh(worklistStack) && fresh(worklistQueue)
      ensures SearchSnap() == FreshSearch(graph)
    {
      ResetWorklists();
      ResetTrace();
      ResetModes();
    }

    /** The player part of initKruskal: a new player at the entrance, no moves, not ended. */
    method ResetPlayer()
      requires |graph.cells| > 0
      modifies this`player, this`playerMoves, this`ended
      ensures fresh(player)
      ensures PlayerSnap() == FreshWalker(graph)
    {
      player := new Player(graph.cells[0]);
      playerMoves := 0;
      ended := false;
    }

    /** The player and search part of initKruskal, with the neighbour lists marked as not built. */
    method ResetGame()
      requires |graph.cells| == mazeWidth * mazeHeight > 0
      modifies this`cameFromEdge, this`alreadySeen, this`worklistStack, this`worklistQueue, this`backTrackPath, this`currentCell,
               this`doneSearching, this`doneAddingNeighbors, this`player, this`dfs, this`bfs, this`doneBackTracking,
               this`bFSWrongMoves, this`dFSWrongMoves, this`playerMoves, this`bFSPathLength, this`dFSPathLength, this`ended
      ensures fresh(player) && fresh(worklistStack) && fresh(worklistQueue)
      ensures SearchSnap() == FreshSearch(graph) && PlayerSnap() == FreshWalker(graph) && !doneAddingNeighbors
    {
      ResetSearch();
      doneAddingNeighbors := false;
      ResetPlayer();
    }

    /**
      initKruskal: a fresh Kruskal run on the graph, the player at the
      entrance, every search field reset and generation started (the source
      interleaves these independent assignments). The slots and neighbour
      lists are not touched; every caller has just built a graph whose cells
      have none.
    */
    method InitKruskal()
      requires |graph.cells| == mazeWidth * mazeHeight > 0 && GraphOk(graph)
      modifies this`currentEdgeCount, this`kruskal, this`cameFromEdge, this`alreadySeen, this`worklistStack, this`worklistQueue,
               this`backTrackPath, this`currentCell, this`mazeGenerating, this`doneSearching, this`doneAddingNeighbors,
               this`player, this`dfs, this`bfs, this`doneBackTracking,
               this`bFSWrongMoves, this`dFSWrongMoves, this`playerMoves, this`bFSPathLength, this`dFSPathLength, this`ended
      ensures fresh(kruskal) && fresh(player) && fresh(worklistStack) && fresh(worklistQueue)
      ensures GenSnap() == FreshGenerator(mazeWidth, mazeHeight, horizontalPreference, graph)
      ensures SearchSnap() == FreshSearch(graph) && PlayerSnap() == FreshWalker(graph) && !doneAddingNeighbors
    {
      ResetGame();
      StartGeneration();
    }

    // -------------------------------------------------------------------
    // Scans of the tree (MazeWorld.java:384-404, 590-599)
    // -------------------------------------------------------------------

    /** canGoToCell: true exactly when some tree edge joins the two cells, in either orientation. */
    method CanGoToCell(from: Cell, to: Cell) returns (r: bool)
      ensures r <==> Passage(kruskal.edgesInTree, from, to)
      ensures r <==> Passage(kruskal.edgesInTree, to, from)
    {
      PassageSymmetric(kruskal.edgesInTree, from, to);
      var tree := kruskal.edgesInTree;
      for k := 0 to |tree|
        invariant forall j :: 0 <= j < k ==> !Joins(tree[j], from, to)
      {
        var e := tree[k];
        var forward := EdgeEquals(e, Edge(from, to, e.weight));
        var backward := EdgeEquals(e, Edge(to, from, e.weight));
        if forward || backward {
          return true;
        }
      }
      return false;
    }

    /** edgesFromCell: the tree edges leaving cell, in tree order. */
    method EdgesFromCell(cell: Cell) returns (toReturn: seq<Edge>)
      ensures toReturn == StartingAt(kruskal.edgesInTree, cell)
      ensures forall e :: e in toReturn <==> e in kruskal.edgesInTree && e.from == cell
    {
      var tree := kruskal.edgesInTree;
      toReturn := [];
      for k := 0 to |tree|
        invariant toReturn == StartingAt(tree[..k], cell)
      {
        assert tree[..k + 1][..k] == tree[..k];
        if tree[k].from == cell {
          toReturn := toReturn + [tree[k]];
        }
      }
      assert tree[..|tree|] == tree;
      StartingAtMembers(tree, cell);
    }

    /** edgesToCell: the tree edges entering cell, in tree order. */
    method EdgesToCell(cell: Cell) returns (toReturn: seq<Edge>)
      ensures toReturn == EndingAt(kruskal.edgesInTree, cell)
      ensures forall e :: e in toReturn <==> e in kruskal.edgesInTree && e.to == cell
    {
      var tree := kruskal.edgesInTree;
      toReturn := [];
      for k := 0 to |tree|
        invariant toReturn == EndingAt(tree[..k], cell)
      {
        assert tree[..k + 1][..k] == tree[..k];
        if tree[k].to == cell {
          toReturn := toReturn + [tree[k]];
        }
      }
      assert tree[..|tree|] == tree;
      EndingAtMembers(tree, cell);
    }

    // -------------------------------------------------------------------
    // Slots and neighbours (MazeWorld.java:406-432, 568-588)
    // -------------------------------------------------------------------

    /** One test of the chain: the coordinates first, then canGoToCell, as Java's && evaluates them. */
    method Opens(neighbour: Cell, expected: Cell, cell: Cell) returns (ok: bool)
      ensures ok <==> neighbour == expected && Passage(kruskal.edgesInTree, neighbour, cell)
    {
      if neighbour == expected {
        ok := CanGoToCell(neighbour, cell);
      } else {
        ok := false;
      }
    }

    /** addDirectionsToCell: one pass over a copy of the tree, each edge tried against left, top, right, bottom in turn. */
    method AddDirectionsToCell(cell: Cell)
      modifies this`slots
      ensures slots == old(slots)[cell := Directed(kruskal.edgesInTree, cell, SlotsOf(old(slots), cell), kruskal.edgesInTree)]
    {
      var tree := kruskal.edgesInTree;
      var edgesInTreeCopy: seq<Edge> := [];
      for k := 0 to |tree|
        invariant edgesInTreeCopy == tree[..k]
      {
        edgesInTreeCopy := edgesInTreeCopy + [tree[k]];
      }
      assert edgesInTreeCopy == tree;
      var d := SlotsOf(slots, cell);
      for k := 0 to |edgesInTreeCopy|
        invariant slots == old(slots)
        invariant d == Directed(tree, cell, SlotsOf(slots, cell), edgesInTreeCopy[..k])
      {
        var edge := edgesInTreeCopy[k];
        assert edgesInTreeCopy[..k + 1][..k] == edgesInTreeCopy[..k];
        var opens := Opens(edge.from, LeftCell(cell), cell);
        if opens {
          d := d.(left := Some(edge.from));
        } else {
          opens := Opens(edge.from, TopCell(cell), cell);
          if opens {
            d := d.(top := Some(edge.from));
          } else {
            opens := Opens(edge.to, RightCell(cell), cell);
            if opens {
              d := d.(right := Some(edge.to));
            } else {
              opens := Opens(edge.to, BottomCell(cell), cell);
              if opens {
                d := d.(bottom := Some(edge.to));
              }
            }
          }
        }
      }
      assert edgesInTreeCopy[..|edgesInTreeCopy|] == tree;
      slots := slots[cell := d];
    }

    /** The first loop of addToCellNeighbors: addDirectionsToCell on every cell, in order. */
    method DirectAllCells()
      modifies this`slots
      ensures slots == DirectAll(kruskal.edgesInTree, old(slots), graph.cells)
    {
      for k := 0 to |graph.cells|
        invariant slots == DirectAll(kruskal.edgesInTree, old(slots), graph.cells[..k])
      {
        assert graph.cells[..k + 1][..k] == graph.cells[..k];
        AddDirectionsToCell(graph.cells[k]);
      }
      assert graph.cells[..|graph.cells|] == graph.cells;
    }

    /** The body of the second loop: the cell's non-null slots appended to its neighbours, right, left, bottom, top. */
    method AppendSlotsToCell(cell: Cell)
      modifies this`neighbors
      ensures neighbors == old(neighbors)[cell := NeighborsOf(old(neighbors), cell) + NeighborList(SlotsOf(slots, cell))]
    {
      var d := SlotsOf(slots, cell);
      var list := NeighborsOf(neighbors, cell);
      ghost var before := list;
      if d.right.Some? {
        list := list + [d.right.value];
      }
      assert list == before + Present(d.right);
      if d.left.Some? {
        list := list + [d.left.value];
      }
      assert list == before + (Present(d.right) + Present(d.left));
      if d.bottom.Some? {
        list := list + [d.bottom.value];
      }
      assert list == before + (Present(d.right) + Present(d.left) + Present(d.bottom));
      if d.top.Some? {
        list := list + [d.top.value];
      }
      assert list == before + NeighborList(d);
      neighbors := neighbors[cell := list];
    }

    /** The second loop of addToCellNeighbors, over the cells in order. */
    method AppendAllSlots()
      modifies this`neighbors
      ensures neighbors == AppendSlots(old(neighbors), slots, graph.cells)
    {
      for k := 0 to |graph.cells|
        invariant neighbors == AppendSlots(old(neighbors), slots, graph.cells[..k])
      {
        assert graph.cells[..k + 1][..k] == graph.cells[..k];
        AppendSlotsToCell(graph.cells[k]);
      }
      assert graph.cells[..|graph.cells|] == graph.cells;
    }

    /** addToCellNeighbors: the slots of every cell, then each cell's non-null slots appended to its neighbours. */
    method AddToCellNeighbors()
      modifies this`slots, this`neighbors, this`doneAddingNeighbors
      ensures slots == DirectAll(kruskal.edgesInTree, old(slots), graph.cells)
      ensures neighbors == AppendSlots(old(neighbors), slots, graph.cells)
      ensures doneAddingNeighbors
    {
      DirectAllCells();
      AppendAllSlots();
      doneAddingNeighbors := true;
    }

    // -------------------------------------------------------------------
    // Searching and backtracking (MazeWorld.java:351-382, 434-534)
    // -------------------------------------------------------------------

    /**
      backtrackPath(from, to): away from `from`, move to the predecessor
      and, when there is one, append it and count it in the path length of
      the search under way; at `from`, mark backtracking done. `to` is not
      used.
    */
    method BacktrackPath(from: Cell, to: Cell)
      modifies this`currentCell, this`backTrackPath, this`doneBackTracking, this`dFSPathLength, this`bFSPathLength
      ensures SearchSnap() == Backtrack(old(SearchSnap()), from)
    {
      if currentCell != Some(from) {
        currentCell := Lookup(cameFromEdge, currentCell);
        if currentCell == None {
          return;
        }
        backTrackPath := backTrackPath + [currentCell.value];
        if dfs && !bfs {
          dFSPathLength := dFSPathLength + 1;
        } else {
          bFSPathLength := bFSPathLength + 1;
        }
      } else {
        doneBackTracking := true;
      }
    }

    /**
      backtrackPathImmediately(from, to): from `to` back along cameFromEdge,
      appending each cell until `from` is reached, which is not appended.
      The walk must reach `from` in k steps.
    */
    method BacktrackPathImmediately(from: Cell, to: Cell, ghost k: nat)
      requires Follow(cameFromEdge, to, k) == Some(from)
      modifies this`currentCell, this`backTrackPath
      ensures backTrackPath == old(backTrackPath) + PathBack(cameFromEdge, to, from, k)
      ensures currentCell == Some(from)
    {
      ghost var p := PathBack(cameFromEdge, to, from, k);
      PathBackLinks(cameFromEdge, to, from, k);
      ghost var i := 0;
      currentCell := Some(to);
      while currentCell != Some(from)
        invariant 0 <= i <= |p|
        invariant currentCell == Some(if i < |p| then p[i] else from)
        invariant backTrackPath == old(backTrackPath) + p[..i]
        decreases |p| - i
      {
        assert p[..i + 1] == p[..i] + [p[i]];
        backTrackPath := backTrackPath + [currentCell.value];
        currentCell := Lookup(cameFromEdge, currentCell);
        i := i + 1;
      }
    }

    /** The loop of hasPathBetweenDFS over next's neighbours: each unseen one pushed and recorded with next as predecessor. */
    method PushUnseen(next: Cell)
      modifies worklistStack, this`cameFromEdge
      ensures worklistStack.contents == Reverse(Unseen(NeighborsOf(neighbors, next), alreadySeen)) + old(worklistStack.contents)
      ensures cameFromEdge == Record(old(cameFromEdge), Unseen(NeighborsOf(neighbors, next), alreadySeen), next)
    {
      var ns := NeighborsOf(neighbors, next);
      for k := 0 to |ns|
        invariant worklistStack.contents == Reverse(Unseen(ns[..k], alreadySeen)) + old(worklistStack.contents)
        invariant cameFromEdge == Record(old(cameFromEdge), Unseen(ns[..k], alreadySeen), next)
      {
        var n := ns[k];
        UnseenSnoc(ns, k, alreadySeen, old(cameFromEdge), next, old(worklistStack.contents));
        if n !in alreadySeen {
          worklistStack.Add(n);
          cameFromEdge := cameFromEdge[n := next];
        }
      }
      assert ns[..|ns|] == ns;
    }

    /** The loop of hasPathBetweenBFS over next's neighbours: each unseen one enqueued and recorded with next as predecessor. */
    method EnqueueUnseen(next: Cell)
      modifies worklistQueue, this`cameFromEdge
      ensures worklistQueue.contents == old(worklistQueue.contents) + Unseen(NeighborsOf(neighbors, next), alreadySeen)
      ensures cameFromEdge == Record(old(cameFromEdge), Unseen(NeighborsOf(neighbors, next), alreadySeen), next)
    {
      var ns := NeighborsOf(neighbors, next);
      for k := 0 to |ns|
        invariant worklistQueue.contents == old(worklistQueue.contents) + Unseen(ns[..k], alreadySeen)
        invariant cameFromEdge == Record(old(cameFromEdge), Unseen(ns[..k], alreadySeen), next)
      {
        var n := ns[k];
        UnseenSnoc(ns, k, alreadySeen, old(cameFromEdge), next, old(worklistQueue.contents));
        if n !in alreadySeen {
          worklistQueue.Add(n);
          cameFromEdge := cameFromEdge[n := next];
        }
      }
      assert ns[..|ns|] == ns;
    }

    /** The expanding branch of hasPathBetweenDFS: next's unseen neighbours pushed, next marked seen, a wrong move counted. */
    method ExpandStack(next: Cell)
      modifies worklistStack, this`alreadySeen, this`cameFromEdge, this`dFSWrongMoves
      ensures var e := Expand(Frontier(old(worklistStack.contents), old(alreadySeen), old(cameFromEdge)), neighbors, next, true);
              SearchSnap() == old(SearchSnap()).(stack := e.pending, seen := e.seen, cameFrom := e.cameFrom, dfsWrongMoves := old(dFSWrongMoves) + 1)
    {
      PushUnseen(next);
      alreadySeen := [next] + alreadySeen;
      dFSWrongMoves := dFSWrongMoves + 1;
    }

    /**
      hasPathBetweenDFS(from, to): one step of the depth-first search. It
      reports whether it popped the goal.
    */
    method HasPathBetweenDFS(from: Cell, to: Cell) returns (found: bool)
      modifies worklistStack, this`alreadySeen, this`cameFromEdge, this`doneSearching, this`dFSWrongMoves,
               this`currentCell, this`backTrackPath, this`doneBackTracking, this`dFSPathLength, this`bFSPathLength
      ensures SearchSnap() == SearchStep(old(SearchSnap()), neighbors, from, to, true)
      ensures found <==> old(worklistStack.contents) != [] && old(worklistStack.contents)[0] == to
    {
      ghost var s0 := SearchSnap();
      if !worklistStack.IsEmpty() {
        var next := worklistStack.Remove();
        ghost var g := Step(FrontierOf(s0, from, true), neighbors, to, true);
        if next == to {
          doneSearching := true;
          assert SearchSnap() == s0.(stack := g.pending, doneSearching := true);
          BacktrackPath(from, to);
          return true;
        } else if next in alreadySeen {
          assert SearchSnap() == s0.(stack := g.pending);
        } else {
          assert g == Expand(Frontier(worklistStack.contents, alreadySeen, cameFromEdge), neighbors, next, true);
          ExpandStack(next);
        }
      }
      return false;
    }

    /** The expanding branch of hasPathBetweenBFS: next's unseen neighbours enqueued, next marked seen, a wrong move counted. */
    method ExpandQueue(next: Cell)
      modifies worklistQueue, this`alreadySeen, this`cameFromEdge, this`bFSWrongMoves
      ensures var e := Expand(Frontier(old(worklistQueue.contents), old(alreadySeen), old(cameFromEdge)), neighbors, next, false);
              SearchSnap() == old(SearchSnap()).(queue := e.pending, seen := e.seen, cameFrom := e.cameFrom, bfsWrongMoves := old(bFSWrongMoves) + 1)
    {
      EnqueueUnseen(next);
      alreadySeen := [next] + alreadySeen;
      bFSWrongMoves := bFSWrongMoves + 1;
    }

    /** The loop body of hasPathBetweenDFSImmediately after popping next, when next is not the goal: a seen cell is dropped, any other expanded. */
    method Visit(next: Cell, ghost to: Cell)
      requires next != to
      modifies worklistStack, this`alreadySeen, this`cameFromEdge, this`dFSWrongMoves
      ensures Frontier(worklistStack.contents, alreadySeen, cameFromEdge)
              == Step(Frontier([next] + old(worklistStack.contents), old(alreadySeen), old(cameFromEdge)), neighbors, to, true)
      ensures dFSWrongMoves == old(dFSWrongMoves) + |alreadySeen| - |old(alreadySeen)|
    {
      if next !in alreadySeen {
        PushUnseen(next);
        alreadySeen := [next] + alreadySeen;
        dFSWrongMoves := dFSWrongMoves + 1;
      }
    }

    /**
      One round of the loop of hasPathBetweenDFSImmediately: pop a cell; the
      goal ends the search with the path back to from, any other cell is
      dropped or expanded, which keeps the search running and moves it
      forward.
    */
    method PopAndVisit(from: Cell, to: Cell, ghost reach: set<Cell>) returns (found: bool, ghost k: nat)
      requires Running(from, to, reach, Frontier(worklistStack.contents, alreadySeen, cameFromEdge), neighbors)
      requires Irreflexive(neighbors) && worklistStack.contents != [] && forall c, n :: n in NeighborsOf(neighbors, c) ==> n in reach
      modifies worklistStack, this`alreadySeen, this`cameFromEdge, this`dFSWrongMoves, this`doneSearching, this`currentCell, this`backTrackPath
      ensures Frontier(worklistStack.contents, alreadySeen, cameFromEdge)
              == Step(Frontier(old(worklistStack.contents), old(alreadySeen), old(cameFromEdge)), neighbors, to, true)
      ensures SearchOk(from, Frontier(worklistStack.contents, alreadySeen, cameFromEdge), neighbors)
      ensures dFSWrongMoves == old(dFSWrongMoves) + |alreadySeen| - |old(alreadySeen)|
      ensures found ==> && doneSearching && currentCell == Some(from)
                        && Follow(cameFromEdge, to, k) == Some(from)
                        && backTrackPath == old(backTrackPath) + PathBack(cameFromEdge, to, from, k)
      ensures !found ==> && Running(from, to, reach, Frontier(worklistStack.contents, alreadySeen, cameFromEdge), neighbors)
                         && doneSearching == old(doneSearching) && backTrackPath == old(backTrackPath)
                         && currentCell == old(currentCell)
                         && (|| Unexplored(reach, alreadySeen) < old(Unexplored(reach, alreadySeen))
                             || (alreadySeen == old(alreadySeen) && |worklistStack.contents| < old(|worklistStack.contents|)))
    {
      ghost var f := Frontier(worklistStack.contents, alreadySeen, cameFromEdge);
      var next := worklistStack.Remove();
      if next == to {
        StepKeepsOk(from, f, neighbors, to, true);
        k := ReachGoal(from, to, f);
        return true, k;
      }
      StepKeepsRunning(from, to, reach, f, neighbors, true);
      Visit(next, to);
      return false, 0;
    }

    /** The goal popped by hasPathBetweenDFSImmediately: doneSearching set and the whole path back to from appended. */
    method ReachGoal(from: Cell, to: Cell, ghost f: Frontier) returns (ghost k: nat)
      requires SearchOk(from, f, neighbors) && f.pending != [] && f.pending[0] == to && cameFromEdge == f.cameFrom
      modifies this`doneSearching, this`currentCell, this`backTrackPath
      ensures doneSearching && currentCell == Some(from) && Follow(cameFromEdge, to, k) == Some(from)
      ensures backTrackPath == old(backTrackPath) + PathBack(cameFromEdge, to, from, k)
    {
      doneSearching := true;
      GoalLeadsToStart(from, f, neighbors, to);
      k :| k <= |f.seen| + 1 && Follow(cameFromEdge, to, k) == Some(from);
      BacktrackPathImmediately(from, to, k);
    }

    /**
      hasPathBetweenDFSImmediately(from, to): a fresh depth-first search from
      `from`, run until it pops `to` or the stack is empty. On success the
      whole path back to `from` is appended at once; otherwise alreadySeen
      holds exactly the cells a walk along the neighbour lists reaches from
      `from`, and `to` is not among them. Every expansion counts a wrong move. The neighbour lists must hold no cell as its own neighbour,
      as those of every maze do.
    */
    method HasPathBetweenDFSImmediately(from: Cell, to: Cell) returns (found: bool, ghost k: nat)
      requires Irreflexive(neighbors)
      modifies this`alreadySeen, this`worklistStack, this`cameFromEdge, this`doneSearching, this`dFSWrongMoves,
               this`currentCell, this`backTrackPath
      ensures SearchOk(from, Frontier(worklistStack.contents, alreadySeen, cameFromEdge), neighbors)
      ensures dFSWrongMoves == old(dFSWrongMoves) + |alreadySeen|
      ensures found ==> && doneSearching && currentCell == Some(from)
                        && Follow(cameFromEdge, to, k) == Some(from)
                        && backTrackPath == old(backTrackPath) + PathBack(cameFromEdge, to, from, k)
      ensures !found ==> && to !in alreadySeen && worklistStack.contents == []
                         && doneSearching == old(doneSearching) && backTrackPath == old(backTrackPath)
                         && currentCell == old(currentCell)
                         && (forall c :: c in alreadySeen <==> WalkReaches(neighbors, from, c))
                         && forall w :: Walk(neighbors, w) && |w| > 0 && w[0] == from ==> w[|w| - 1] != to
    {
      alreadySeen := [];
      worklistStack := new Stack<Cell>();
      cameFromEdge := map[];
      worklistStack.Add(from);
      ghost var reach := Reachable(from, neighbors);
      k := 0;
      while !worklistStack.IsEmpty()
        invariant fresh(worklistStack)
        invariant Running(from, to, reach, Frontier(worklistStack.contents, alreadySeen, cameFromEdge), neighbors)
        invariant dFSWrongMoves == old(dFSWrongMoves) + |alreadySeen|
        invariant doneSearching == old(doneSearching) && backTrackPath == old(backTrackPath)
        invariant currentCell == old(currentCell)
        decreases Unexplored(reach, alreadySeen), |worklistStack.contents|
      {
        found, k := PopAndVisit(from, to, reach);
        if found {
          return;
        }
      }
      found := false;
      FinishedSearchSeesReachable(from, Frontier([], alreadySeen, cameFromEdge), neighbors);
      forall w | Walk(neighbors, w) && |w| > 0 && w[0] == from ensures w[|w| - 1] != to {
        WalkStaysSeen(Frontier([], alreadySeen, cameFromEdge), neighbors, w, |w| - 1);
      }
    }

    /**
      hasPathBetweenBFS(from, to): from added to the queue, then one step of
      the breadth-first search. It reports whether it popped the goal.
    */
    method HasPathBetweenBFS(from: Cell, to: Cell) returns (found: bool)
      modifies worklistQueue, this`alreadySeen, this`cameFromEdge, this`doneSearching, this`bFSWrongMoves,
               this`currentCell, this`backTrackPath, this`doneBackTracking, this`dFSPathLength, this`bFSPathLength
      ensures SearchSnap() == SearchStep(old(SearchSnap()), neighbors, from, to, false)
      ensures found <==> (old(worklistQueue.contents) + [from])[0] == to
    {
      ghost var s0 := SearchSnap();
      worklistQueue.Add(from);
      if !worklistQueue.IsEmpty() {
        var next := worklistQueue.Remove();
        ghost var g := Step(FrontierOf(s0, from, false), neighbors, to, false);
        if next == to {
          doneSearching := true;
          assert SearchSnap() == s0.(queue := g.pending, doneSearching := true);
          BacktrackPath(from, to);
          return true;
        } else if next in alreadySeen {
          assert SearchSnap() == s0.(queue := g.pending);
        } else {
          assert g == Expand(Frontier(worklistQueue.contents, alreadySeen, cameFromEdge), neighbors, next, false);
          ExpandQueue(next);
        }
      }
      return false;
    }

    // -------------------------------------------------------------------
    // The tick (MazeWorld.java:536-566)
    // -------------------------------------------------------------------

    /** currentEdgeCount++: the generator's edge count one higher, nothing else changed. */
    method CountEdge()
      modifies this`currentEdgeCount
      ensures Snapshot() == old(Snapshot()).(gen := old(GenSnap()).(edgeCount := old(currentEdgeCount) + 1))
    {
      currentEdgeCount := currentEdgeCount + 1;
    }

    /** mazeGenerating := b, nothing else changed. */
    method SetGenerating(b: bool)
      modifies this`mazeGenerating
      ensures Snapshot() == old(Snapshot()).(gen := old(GenSnap()).(generating := b))
    {
      mazeGenerating := b;
    }

    /** runKruskal(i) on this world's Kruskal state: the run processed or, on a complete tree, left as it was. */
    method RunKruskalAt(i: nat) returns (more: bool)
      requires kruskal.Valid() && (!Complete(kruskal.State()) ==> i < |kruskal.worklist|)
      modifies kruskal`representatives, kruskal`rootOf, kruskal`depth, kruskal`edgesInTree
      ensures more == !Complete(old(kruskal.State()))
      ensures Snapshot() == old(Snapshot()).(gen := old(GenSnap()).(run := if more then Process(old(kruskal.State()), kruskal.worklist[i]) else old(kruskal.State())))
    {
      more := kruskal.RunKruskal(i);
    }

    /** The generation part of onTick while generating: one more edge counted, then runKruskal at the old count. */
    method GenerateEdge()
      requires CanAdvance(GenSnap()) && mazeGenerating
      modifies this`currentEdgeCount, this`mazeGenerating, kruskal`representatives, kruskal`rootOf, kruskal`depth, kruskal`edgesInTree
      ensures Snapshot() == old(Snapshot()).(gen := Advance(old(GenSnap())))
    {
      ghost var g := GenSnap();
      AdvanceFields(g);
      CountEdge();
      var more := RunKruskalAt(currentEdgeCount - 1);
      SetGenerating(more);
    }

    /** The search part of onTick: a DFS step from the entrance to the exit, then a BFS step, each when its search alone is chosen and the goal is not found. */
    method SearchTick()
      requires |graph.cells| == mazeWidth * mazeHeight > 0
      modifies worklistStack, worklistQueue, this`alreadySeen, this`cameFromEdge, this`doneSearching, this`dFSWrongMoves, this`bFSWrongMoves,
               this`currentCell, this`backTrackPath, this`doneBackTracking, this`dFSPathLength, this`bFSPathLength
      ensures Snapshot() == old(Snapshot()).(search := SearchPhase(graph, neighbors, old(SearchSnap())))
    {
      SearchStageTick(true);
      SearchStageTick(false);
    }

    /** One guarded stage of the search part: a DFS step (lifo) or a BFS step from the entrance to the exit, when that search alone is chosen and the goal is not found. */
    method SearchStageTick(lifo: bool)
      requires |graph.cells| == mazeWidth * mazeHeight > 0
      modifies worklistStack, worklistQueue, this`alreadySeen, this`cameFromEdge, this`doneSearching, this`dFSWrongMoves, this`bFSWrongMoves,
               this`currentCell, this`backTrackPath, this`doneBackTracking, this`dFSPathLength, this`bFSPathLength
      ensures Snapshot() == old(Snapshot()).(search := SearchStage(graph, neighbors, old(SearchSnap()), lifo))
    {
      var entrance := graph.cells[0];
      var exit := graph.cells[mazeWidth * mazeHeight - 1];
      var chosen := if lifo then dfs && !bfs else bfs && !dfs;
      if !doneSearching && chosen {
        if lifo {
          DfsStepTick(entrance, exit);
        } else {
          BfsStepTick(entrance, exit);
        }
      }
    }

    /** A depth-first search step, with everything outside the search state left alone. */
    method DfsStepTick(from: Cell, to: Cell)
      modifies worklistStack, this`alreadySeen, this`cameFromEdge, this`doneSearching, this`dFSWrongMoves,
               this`currentCell, this`backTrackPath, this`doneBackTracking, this`dFSPathLength, this`bFSPathLength
      ensures Snapshot() == old(Snapshot()).(search := SearchStep(old(SearchSnap()), neighbors, from, to, true))
    {
      var found := HasPathBetweenDFS(from, to);
    }

    /** A breadth-first search step, with everything outside the search state left alone. */
    method BfsStepTick(from: Cell, to: Cell)
      modifies worklistQueue, this`alreadySeen, this`cameFromEdge, this`doneSearching, this`bFSWrongMoves,
               this`currentCell, this`backTrackPath, this`doneBackTracking, this`dFSPathLength, this`bFSPathLength
      ensures Snapshot() == old(Snapshot()).(search := SearchStep(old(SearchSnap()), neighbors, from, to, false))
    {
      var found := HasPathBetweenBFS(from, to);
    }

    /** The last part of onTick: once the goal is found and until backtracking is done, one backtracking step told to stop at the exit. */
    method TraceTick()
      requires |graph.cells| == mazeWidth * mazeHeight > 0
      modifies this`currentCell, this`backTrackPath, this`doneBackTracking, this`dFSPathLength, this`bFSPathLength
      ensures Snapshot() == old(Snapshot()).(search := TraceBack(graph, old(SearchSnap())))
    {
      if doneSearching && !doneBackTracking {
        BacktrackPath(graph.cells[mazeWidth * mazeHeight - 1], graph.cells[0]);
      }
    }

    /** The first test of onTick: the player standing on the exit ends the game. */
    method EndAtExit()
      requires |graph.cells| == mazeWidth * mazeHeight > 0
      modifies this`ended
      ensures Snapshot() == ReachExit(old(Snapshot()))
    {
      if player.currentPos == graph.cells[mazeWidth * mazeHeight - 1] {
        ended := true;
      }
    }

    /** The second part of onTick once generation is over: addToCellNeighbors, unless the lists are built. */
    method BuildNeighborsOnce()
      modifies this`slots, this`neighbors, this`doneAddingNeighbors
      ensures Snapshot() == if old(doneAddingNeighbors) then old(Snapshot())
                            else old(Snapshot()).(links := BuildNeighbors(kruskal.edgesInTree, graph.cells, old(LinksSnap())))
    {
      if !doneAddingNeighbors {
        AddToCellNeighbors();
      }
    }

    /** The search and backtracking parts of onTick. */
    method SearchAndTrace()
      requires |graph.cells| == mazeWidth * mazeHeight > 0
      modifies worklistStack, worklistQueue, this`alreadySeen, this`cameFromEdge, this`doneSearching, this`dFSWrongMoves, this`bFSWrongMoves,
               this`currentCell, this`backTrackPath, this`doneBackTracking, this`dFSPathLength, this`bFSPathLength
      ensures Snapshot() == old(Snapshot()).(search := TraceBack(graph, SearchPhase(graph, neighbors, old(SearchSnap()))))
    {
      SearchTick();
      TraceTick();
    }

    /**
      The steps of onTick: the player on the exit ends the game; then a
      generation tick while generating, or else the neighbour lists, built
      once; then the search and backtracking steps.
    */
    method RunTick()
      requires GenerationOk(GenSnap()) && |graph.cells| == mazeWidth * mazeHeight > 0
      modifies this`ended, this`currentEdgeCount, this`mazeGenerating,
               kruskal`representatives, kruskal`rootOf, kruskal`depth, kruskal`edgesInTree,
               this`slots, this`neighbors, this`doneAddingNeighbors,
               worklistStack, worklistQueue, this`alreadySeen, this`cameFromEdge, this`doneSearching, this`dFSWrongMoves, this`bFSWrongMoves,
               this`currentCell, this`backTrackPath, this`doneBackTracking, this`dFSPathLength, this`bFSPathLength
      ensures Snapshot() == Tick(old(Snapshot()))
    {
      EndAtExit();
      GenerateTick();
      SearchAndTrace();
    }

    /** The generation part of onTick: an edge while generating, otherwise the neighbour lists once. */
    method GenerateTick()
      requires GenerationOk(GenSnap())
      modifies this`currentEdgeCount, this`mazeGenerating,
               kruskal`representatives, kruskal`rootOf, kruskal`depth, kruskal`edgesInTree,
               this`slots, this`neighbors, this`doneAddingNeighbors
      ensures Snapshot() == Generate(old(Snapshot()))
    {
      GenerateParts(Snapshot());
      if mazeGenerating {
        NextEdgeReady(GenSnap());
        GenerateEdge();
      } else {
        BuildNeighborsOnce();
      }
    }

    /** onTick: its steps, which keep the invariant. */
    method OnTick()
      requires Valid()
      modifies this`ended, this`currentEdgeCount, this`mazeGenerating,
               kruskal`representatives, kruskal`rootOf, kruskal`depth, kruskal`edgesInTree,
               this`slots, this`neighbors, this`doneAddingNeighbors,
               worklistStack, worklistQueue, this`alreadySeen, this`cameFromEdge, this`doneSearching, this`dFSWrongMoves, this`bFSWrongMoves,
               this`currentCell, this`backTrackPath, this`doneBackTracking, this`dFSPathLength, this`bFSPathLength
      ensures Snapshot() == Tick(old(Snapshot()))
      ensures Valid()
    {
      ghost var w := Snapshot();
      RunTick();
      TickKeepsOk(w);
    }

    // -------------------------------------------------------------------
    // Keys (MazeWorld.java:601-681)
    // -------------------------------------------------------------------

    /** 'r': a new grid from the draws, a fresh Kruskal run, the player at the entrance, no search. */
    method NewMaze(draw: nat -> int)
      requires SizesOk(mazeWidth, mazeHeight, horizontalPreference)
      modifies this
      ensures Snapshot() == Initial(mazeWidth, mazeHeight, horizontalPreference, GridOf(mazeWidth, mazeHeight, horizontalPreference, draw))
    {
      Restart(draw);
      ended := false;
    }

    /** An arrow key whose target is open: the old position appended to visited, the player moved, one more move. */
    method MovePlayer(key: string)
      modifies player`visited, player`currentPos, this`playerMoves
      ensures Snapshot() == old(Snapshot()).(player := Move(old(PlayerSnap()), key))
    {
      player.visited := player.visited + [player.currentPos];
      player.currentPos := Target(player.currentPos, key);
      playerMoves := playerMoves + 1;
    }

    /** 'b': the search fields reset for a breadth-first search from the entrance. */
    method StartBreadthFirst()
      requires |graph.cells| == mazeWidth * mazeHeight > 0
      modifies this`cameFromEdge, this`alreadySeen, this`worklistStack, this`worklistQueue, this`backTrackPath, this`currentCell,
               this`doneSearching, this`doneBackTracking, this`dfs, this`bfs, this`bFSWrongMoves, this`bFSPathLength
      ensures SearchSnap() == NewSearch(graph, old(SearchSnap()), false)
    {
      ResetTrace();
      ResetWorklists();
      bfs := true;
      dfs := false;
      bFSWrongMoves := 0;
      bFSPathLength := 0;
    }

    /** 'd': the search fields reset for a depth-first search, the entrance on the stack. */
    method StartDepthFirst()
      requires |graph.cells| == mazeWidth * mazeHeight > 0
      modifies this`cameFromEdge, this`alreadySeen, this`worklistStack, this`worklistQueue, this`backTrackPath, this`currentCell,
               this`doneSearching, this`doneBackTracking, this`dfs, this`bfs, this`dFSWrongMoves, this`dFSPathLength
      ensures SearchSnap() == NewSearch(graph, old(SearchSnap()), true)
    {
      ResetTrace();
      ResetWorklists();
      worklistStack.Add(graph.cells[0]);
      dfs := true;
      bfs := false;
      dFSWrongMoves := 0;
      dFSPathLength := 0;
    }

    /** The generator, the links and the player are read from fields a search never writes. */
    twostate lemma OthersFramed()
      requires unchanged(this`graph, this`kruskal, this`mazeGenerating, this`currentEdgeCount,
                         this`slots, this`neighbors, this`doneAddingNeighbors, this`player, this`playerMoves, this`ended)
      requires unchanged(kruskal`graph, kruskal`representatives, kruskal`rootOf, kruskal`depth, kruskal`edgesInTree, kruskal`worklist)
      requires unchanged(player`currentPos, player`visited)
      ensures GenSnap() == old(GenSnap()) && LinksSnap() == old(LinksSnap()) && PlayerSnap() == old(PlayerSnap())
    {
    }

    /** 'b' (fifo) and 'd' (lifo) once generation is over: a new search, the rest of the world as it was. */
    method StartSearch(lifo: bool)
      requires |graph.cells| == mazeWidth * mazeHeight > 0
      modifies this`cameFromEdge, this`alreadySeen, this`worklistStack, this`worklistQueue, this`backTrackPath, this`currentCell,
               this`doneSearching, this`doneBackTracking, this`dfs, this`bfs,
               this`bFSWrongMoves, this`dFSWrongMoves, this`bFSPathLength, this`dFSPathLength
      ensures Snapshot() == old(Snapshot()).(search := NewSearch(graph, old(SearchSnap()), lifo))
    {
      if lifo {
        StartDepthFirst();
      } else {
        StartBreadthFirst();
      }
      OthersFramed();
    }

    /** 's': runKruskalImmediately, and generation stops. */
    method SkipGeneration()
      requires GenerationOk(GenSnap())
      modifies kruskal`representatives, kruskal`rootOf, kruskal`depth, kruskal`edgesInTree, this`mazeGenerating
      ensures Snapshot() == old(Snapshot()).(gen := Skip(old(GenSnap())))
    {
      ghost var s := SearchSnap();
      SkipCompletes(GenSnap());
      kruskal.RunKruskalImmediately();
      mazeGenerating := false;
      assert SearchSnap() == s;
    }

    /**
      The steps of onKeyEvent(key): 'r' restarts on the draws; an arrow
      moves the player when canGoToCell allows it; 'b' and 'd' start a
      search once generation is over; 's' finishes generation at once; any
      other key changes nothing.
    */
    method RunKey(key: string, draw: nat -> int)
      requires GenerationOk(GenSnap()) && |graph.cells| == mazeWidth * mazeHeight > 0
      modifies this, kruskal, player
      ensures Snapshot() == KeyEvent(old(Snapshot()), key, draw)
    {
      if key == "r" {
        NewMaze(draw);
        return;
      }
      var open := false;
      if IsArrow(key) {
        open := CanGoToCell(player.currentPos, Target(player.currentPos, key));
      }
      if open {
        MovePlayer(key);
      } else if key == "b" && !mazeGenerating {
        StartSearch(false);
      } else if key == "d" && !mazeGenerating {
        StartSearch(true);
      } else if key == "s" {
        SkipGeneration();
      }
    }

    /** onKeyEvent(key): its steps, which keep the invariant. */
    method OnKeyEvent(key: string, draw: nat -> int)
      requires Valid()
      modifies this, kruskal, player
      ensures Snapshot() == KeyEvent(old(Snapshot()), key, draw)
      ensures Valid()
    {
      ghost var w := Snapshot();
      RunKey(key, draw);
      KeyKeepsOk(w, key, draw);
    }
  }
}
