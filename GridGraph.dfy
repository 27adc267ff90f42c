/**
  The grid graph that MazeWorld.initGraph(seed) builds (MazeWorld.java:137-177).

  Cells are created row by row, so the cell at index w * y + x has
  coordinates (x, y). Each cell is then visited in that order: a cell with a
  right neighbour draws one weight in 1..10 and gets an edge to that
  neighbour, the neighbour getting the opposite edge with the same weight; a
  cell with a bottom neighbour does the same with a weight in
  1..10 * horizontalPreference.

  The seeded java.util.Random is a parameter: `draw(n)` is the value behind
  the n-th call to nextInt, and NextInt reduces it into the requested range.
*/
module GridGraph {
  import opened Grid
  import opened EdgeSort
  import opened UnionFind
  import opened SpanningTree

  /** The cell at row-major index i of a grid w cells wide. */
  function CellAt(w: nat, i: nat): (c: Cell)
    requires w > 0
    ensures 0 <= c.x < w && 0 <= c.y && i == w * c.y + c.x
  {
    Cell(i % w, i / w)
  }

  /** A nonzero multiple of w is at least w away from zero. */
  lemma MulOutside(w: int, d: int)
    requires w >= 0
    ensures d >= 1 ==> w * d >= w
    ensures d <= -1 ==> w * d <= -w
  {
  }

  /** The cell (x, y) sits at index w * y + x, and that index is inside a grid of h rows exactly when y < h. */
  lemma CellAtIndex(w: nat, h: nat, x: int, y: int)
    requires 0 <= x < w && 0 <= y
    ensures w * y + x >= 0 && CellAt(w, w * y + x) == Cell(x, y)
    ensures w * y + x < w * h <==> y < h
  {
    var i := w * y + x;
    var c := CellAt(w, i);
    MulOutside(w, c.y - y);
    assert w * (c.y - y) == x - c.x;
    MulOutside(w, h - y);
  }

  /** The right and bottom neighbours of the cell at index k sit at indices k + 1 and k + w. */
  lemma Neighbours(w: nat, h: nat, k: nat)
    requires w > 0 && k < w * h
    ensures var c := CellAt(w, k);
      && c.y < h
      && w * c.y + c.x + 1 == k + 1 && w * (c.y + 1) + c.x == k + w
      && (c.x < w - 1 ==> k + 1 < w * h && CellAt(w, k + 1) == Cell(c.x + 1, c.y))
      && (c.y < h - 1 <==> k + w < w * h)
      && (c.y < h - 1 ==> CellAt(w, k + w) == Cell(c.x, c.y + 1))
  {
    var c := CellAt(w, k);
    CellAtIndex(w, h, c.x, c.y);
    if c.x < w - 1 {
      CellAtIndex(w, h, c.x + 1, c.y);
    }
    CellAtIndex(w, h, c.x, c.y + 1);
  }

  /** The width, height and horizontal preference the source accepts without an exception. */
  predicate SizesOk(w: nat, h: nat, pref: int)
  {
    w > 0 && h > 0 && (h > 1 ==> pref > 0)
  }

  /** Random.nextInt(bound): the raw draw reduced into 0 .. bound - 1. */
  function NextInt(raw: int, bound: int): (r: int)
    requires bound > 0
    ensures 0 <= r < bound
    ensures 0 <= raw < bound ==> r == raw
  {
    raw % bound
  }

  /** How many times cell i calls nextInt: once for a right neighbour, once for a bottom neighbour (index i + w). */
  function Draws(w: nat, h: nat, i: nat): nat
    requires w > 0
  {
    (if CellAt(w, i).x < w - 1 then 1 else 0) + (if i + w < w * h then 1 else 0)
  }

  /** How many draws the cells before index i have made. */
  function DrawsBefore(w: nat, h: nat, i: nat): nat
    requires w > 0
  {
    if i == 0 then 0 else DrawsBefore(w, h, i - 1) + Draws(w, h, i - 1)
  }

  /** The weight of the edge between cell i and its right neighbour: its first draw, in 1..10. */
  function RightWeight(w: nat, h: nat, draw: nat -> int, i: nat): (r: int)
    requires w > 0
    ensures 1 <= r <= 10
  {
    NextInt(draw(DrawsBefore(w, h, i)), 10) + 1
  }

  /** The weight of the edge between cell i and its bottom neighbour: its last draw, in 1..10 * pref. */
  function BottomWeight(w: nat, h: nat, pref: int, draw: nat -> int, i: nat): (r: int)
    requires w > 0 && pref > 0
    ensures 1 <= r <= 10 * pref
  {
    NextInt(draw(DrawsBefore(w, h, i) + (if CellAt(w, i).x < w - 1 then 1 else 0)), 10 * pref) + 1
  }

  /** A grid with a cell one row below another has at least two rows. */
  lemma TwoRows(w: nat, h: nat)
    ensures w * h > w ==> h > 1
  {
    MulOutside(w, 1 - h);
  }

  /** The edge from cell j to its top neighbour (index j - w), once that neighbour has been visited before k. */
  function ToTop(w: nat, h: nat, pref: int, draw: nat -> int, j: nat, k: nat): seq<Edge>
    requires SizesOk(w, h, pref) && j < w * h
  {
    TwoRows(w, h);
    if j >= w && j - w < k then [Edge(CellAt(w, j), CellAt(w, j - w), BottomWeight(w, h, pref, draw, j - w))] else []
  }

  /** The edge from cell j to its left neighbour (index j - 1), once that neighbour has been visited before k. */
  function ToLeft(w: nat, h: nat, draw: nat -> int, j: nat, k: nat): seq<Edge>
    requires w > 0
  {
    if CellAt(w, j).x > 0 && j - 1 < k then [Edge(CellAt(w, j), CellAt(w, j - 1), RightWeight(w, h, draw, j - 1))] else []
  }

  /** The edge from cell j to its right neighbour (index j + 1), once j has been visited before k. */
  function ToRight(w: nat, h: nat, draw: nat -> int, j: nat, k: nat): seq<Edge>
    requires w > 0
  {
    if CellAt(w, j).x < w - 1 && j < k then [Edge(CellAt(w, j), CellAt(w, j + 1), RightWeight(w, h, draw, j))] else []
  }

  /** The edge from cell j to its bottom neighbour (index j + w), once j has been visited before k. */
  function ToBottom(w: nat, h: nat, pref: int, draw: nat -> int, j: nat, k: nat): seq<Edge>
    requires SizesOk(w, h, pref)
  {
    TwoRows(w, h);
    if j + w < w * h && j < k then [Edge(CellAt(w, j), CellAt(w, j + w), BottomWeight(w, h, pref, draw, j))] else []
  }

  /**
    The out-edges of cell j once the cells before index k have been visited,
    in the order they were added: the edge to the top neighbour (added when
    the top neighbour was visited), to the left neighbour (likewise), then to
    the right and bottom neighbours (added when j itself is visited).
  */
  function OutEdgesAfter(w: nat, h: nat, pref: int, draw: nat -> int, j: nat, k: nat): seq<Edge>
    requires SizesOk(w, h, pref) && j < w * h
  {
    ToTop(w, h, pref, draw, j, k) + ToLeft(w, h, draw, j, k) + ToRight(w, h, draw, j, k) + ToBottom(w, h, pref, draw, j, k)
  }

  /** The out-edges of cell j in the finished grid. */
  function OutEdges(w: nat, h: nat, pref: int, draw: nat -> int, j: nat): seq<Edge>
    requires SizesOk(w, h, pref) && j < w * h
  {
    OutEdgesAfter(w, h, pref, draw, j, w * h)
  }

  /** The graph initGraph builds. */
  function GridOf(w: nat, h: nat, pref: int, draw: nat -> int): Graph
    requires SizesOk(w, h, pref)
  {
    Graph(seq(w * h, i requires 0 <= i < w * h => CellAt(w, i)),
          seq(w * h, j requires 0 <= j < w * h => OutEdges(w, h, pref, draw, j)))
  }

  /** The edges that visiting cell k appends to the out-edge list of cell j for its right neighbour. */
  function RightPair(w: nat, h: nat, draw: nat -> int, k: nat, j: nat): seq<Edge>
    requires w > 0
  {
    var c := CellAt(w, k);
    if c.x < w - 1 && j == k then [Edge(c, CellAt(w, k + 1), RightWeight(w, h, draw, k))]
    else if c.x < w - 1 && j == k + 1 then [Edge(CellAt(w, k + 1), c, RightWeight(w, h, draw, k))]
    else []
  }

  /** The edges that visiting cell k appends to the out-edge list of cell j for its bottom neighbour. */
  function BottomPair(w: nat, h: nat, pref: int, draw: nat -> int, k: nat, j: nat): seq<Edge>
    requires SizesOk(w, h, pref)
  {
    TwoRows(w, h);
    if k + w < w * h && j == k then [Edge(CellAt(w, k), CellAt(w, k + w), BottomWeight(w, h, pref, draw, k))]
    else if k + w < w * h && j == k + w then [Edge(CellAt(w, k + w), CellAt(w, k), BottomWeight(w, h, pref, draw, k))]
    else []
  }

  /** Visiting cell k changes the piece to the top neighbour only for the cell below k. */
  lemma ToTopStep(w: nat, h: nat, pref: int, draw: nat -> int, k: nat, j: nat)
    requires SizesOk(w, h, pref) && k < w * h && j < w * h
    ensures j != k + w ==> ToTop(w, h, pref, draw, j, k + 1) == ToTop(w, h, pref, draw, j, k)
    ensures j == k + w ==> ToTop(w, h, pref, draw, j, k) == []
  {
  }

  lemma ToLeftStep(w: nat, h: nat, draw: nat -> int, k: nat, j: nat)
    requires w > 0
    ensures j != k + 1 ==> ToLeft(w, h, draw, j, k + 1) == ToLeft(w, h, draw, j, k)
    ensures j == k + 1 ==> ToLeft(w, h, draw, j, k) == []
  {
  }

  lemma ToRightStep(w: nat, h: nat, draw: nat -> int, k: nat, j: nat)
    requires w > 0
    ensures j != k ==> ToRight(w, h, draw, j, k + 1) == ToRight(w, h, draw, j, k)
    ensures j == k ==> ToRight(w, h, draw, j, k) == []
  {
  }

  lemma ToBottomStep(w: nat, h: nat, pref: int, draw: nat -> int, k: nat, j: nat)
    requires SizesOk(w, h, pref) && k < w * h && j < w * h
    ensures j != k ==> ToBottom(w, h, pref, draw, j, k + 1) == ToBottom(w, h, pref, draw, j, k)
    ensures j == k ==> ToBottom(w, h, pref, draw, j, k) == []
  {
  }

  /** What list j holds once cell k has added the pair for its right neighbour. */
  function OutEdgesHalfway(w: nat, h: nat, pref: int, draw: nat -> int, j: nat, k: nat): seq<Edge>
    requires SizesOk(w, h, pref) && j < w * h
  {
    OutEdgesAfter(w, h, pref, draw, j, k) + RightPair(w, h, draw, k, j)
  }

  lemma StepSelf(w: nat, h: nat, pref: int, draw: nat -> int, k: nat)
    requires SizesOk(w, h, pref) && k < w * h
    ensures OutEdgesAfter(w, h, pref, draw, k, k + 1)
         == OutEdgesHalfway(w, h, pref, draw, k, k) + BottomPair(w, h, pref, draw, k, k)
  {
    assert ToTop(w, h, pref, draw, k, k + 1) == ToTop(w, h, pref, draw, k, k);
    assert ToLeft(w, h, draw, k, k + 1) == ToLeft(w, h, draw, k, k);
    assert ToRight(w, h, draw, k, k) == [] && ToBottom(w, h, pref, draw, k, k) == [];
  }

  lemma StepRightNeighbour(w: nat, h: nat, pref: int, draw: nat -> int, k: nat)
    requires SizesOk(w, h, pref) && k + 1 < w * h && CellAt(w, k).x < w - 1
    ensures OutEdgesAfter(w, h, pref, draw, k + 1, k + 1)
         == OutEdgesHalfway(w, h, pref, draw, k + 1, k) + BottomPair(w, h, pref, draw, k, k + 1)
  {
    var c := CellAt(w, k);
    CellAtIndex(w, h, c.x + 1, c.y);
    assert ToTop(w, h, pref, draw, k + 1, k + 1) == ToTop(w, h, pref, draw, k + 1, k);
    assert ToLeft(w, h, draw, k + 1, k) == [];
    assert ToRight(w, h, draw, k + 1, k + 1) == [] && ToBottom(w, h, pref, draw, k + 1, k + 1) == [];
  }

  lemma StepBelow(w: nat, h: nat, pref: int, draw: nat -> int, k: nat)
    requires SizesOk(w, h, pref) && k + w < w * h
    ensures OutEdgesAfter(w, h, pref, draw, k + w, k + 1)
         == OutEdgesHalfway(w, h, pref, draw, k + w, k) + BottomPair(w, h, pref, draw, k, k + w)
  {
    assert ToTop(w, h, pref, draw, k + w, k) == [];
    assert ToLeft(w, h, draw, k + w, k + 1) == [] && ToLeft(w, h, draw, k + w, k) == [];
    assert ToRight(w, h, draw, k + w, k + 1) == [] && ToBottom(w, h, pref, draw, k + w, k + 1) == [];
    assert RightPair(w, h, draw, k, k + w) == [];
  }

  /** The cell after the last of a row starts the next row, so it has no left neighbour. */
  lemma RowStart(w: nat, h: nat, k: nat)
    requires w > 0
    ensures CellAt(w, k).x == w - 1 ==> CellAt(w, k + 1).x == 0
    ensures CellAt(w, k).x < w - 1 ==> CellAt(w, k + 1) == Cell(CellAt(w, k).x + 1, CellAt(w, k).y)
  {
    var c := CellAt(w, k);
    if c.x == w - 1 {
      assert k + 1 == w * (c.y + 1) + 0;
      CellAtIndex(w, c.y + 2, 0, c.y + 1);
    } else {
      CellAtIndex(w, c.y + 1, c.x + 1, c.y);
    }
  }

  lemma StepOther(w: nat, h: nat, pref: int, draw: nat -> int, k: nat, j: nat)
    requires SizesOk(w, h, pref) && k < w * h && j < w * h
    requires j != k && j != k + w && (j == k + 1 ==> CellAt(w, k).x == w - 1)
    ensures OutEdgesAfter(w, h, pref, draw, j, k + 1)
         == OutEdgesHalfway(w, h, pref, draw, j, k) + BottomPair(w, h, pref, draw, k, j)
  {
    if j == k + 1 {
      RowStart(w, h, k);
    }
    assert ToTop(w, h, pref, draw, j, k + 1) == ToTop(w, h, pref, draw, j, k);
    assert ToLeft(w, h, draw, j, k + 1) == ToLeft(w, h, draw, j, k);
    assert ToRight(w, h, draw, j, k + 1) == ToRight(w, h, draw, j, k);
    assert ToBottom(w, h, pref, draw, j, k + 1) == ToBottom(w, h, pref, draw, j, k);
    assert RightPair(w, h, draw, k, j) == [] && BottomPair(w, h, pref, draw, k, j) == [];
  }

  /** Visiting cell k extends each out-edge list by exactly the pairs it appends. */
  lemma OutEdgesStep(w: nat, h: nat, pref: int, draw: nat -> int, k: nat, j: nat)
    requires SizesOk(w, h, pref) && k < w * h && j < w * h
    ensures OutEdgesAfter(w, h, pref, draw, j, k + 1)
         == OutEdgesHalfway(w, h, pref, draw, j, k) + BottomPair(w, h, pref, draw, k, j)
  {
    if j == k {
      StepSelf(w, h, pref, draw, k);
    } else if j == k + 1 && CellAt(w, k).x < w - 1 {
      StepRightNeighbour(w, h, pref, draw, k);
    } else if j == k + w {
      StepBelow(w, h, pref, draw, k);
    } else {
      StepOther(w, h, pref, draw, k, j);
    }
  }

  /** outs holds every cell's out-edges once the cells before k have been visited. */
  ghost predicate Visited(w: nat, h: nat, pref: int, draw: nat -> int, outs: seq<seq<Edge>>, k: nat)
    requires SizesOk(w, h, pref)
  {
    |outs| == w * h && forall j :: 0 <= j < w * h ==> outs[j] == OutEdgesAfter(w, h, pref, draw, j, k)
  }

  /** outs holds every cell's out-edges once cell k has also added its right pair. */
  ghost predicate HalfVisited(w: nat, h: nat, pref: int, draw: nat -> int, outs: seq<seq<Edge>>, k: nat)
    requires SizesOk(w, h, pref)
  {
    |outs| == w * h && forall j :: 0 <= j < w * h ==> outs[j] == OutEdgesHalfway(w, h, pref, draw, j, k)
  }

  /** Adding the pair between cell k and its right neighbour. */
  lemma AddRightPair(w: nat, h: nat, pref: int, draw: nat -> int, k: nat, before: seq<seq<Edge>>, mid: seq<seq<Edge>>, after: seq<seq<Edge>>)
    requires SizesOk(w, h, pref) && k + 1 < w * h && Visited(w, h, pref, draw, before, k)
    requires CellAt(w, k).x < w - 1
    requires mid == before[k := before[k] + [Edge(CellAt(w, k), CellAt(w, k + 1), RightWeight(w, h, draw, k))]]
    requires after == mid[k + 1 := mid[k + 1] + [Edge(CellAt(w, k + 1), CellAt(w, k), RightWeight(w, h, draw, k))]]
    ensures HalfVisited(w, h, pref, draw, after, k)
  {
    forall j | 0 <= j < w * h ensures after[j] == OutEdgesHalfway(w, h, pref, draw, j, k) {
      RightPairAt(w, h, draw, k, j);
    }
  }

  /** The pair for cell k's right neighbour lands in lists k and k + 1 only. */
  lemma RightPairAt(w: nat, h: nat, draw: nat -> int, k: nat, j: nat)
    requires w > 0 && CellAt(w, k).x < w - 1
    ensures RightPair(w, h, draw, k, j)
         == if j == k then [Edge(CellAt(w, k), CellAt(w, k + 1), RightWeight(w, h, draw, k))]
            else if j == k + 1 then [Edge(CellAt(w, k + 1), CellAt(w, k), RightWeight(w, h, draw, k))]
            else []
  {
  }

  /** A cell at the end of its row adds no right pair. */
  lemma NoRightPair(w: nat, h: nat, pref: int, draw: nat -> int, k: nat, outs: seq<seq<Edge>>)
    requires SizesOk(w, h, pref) && Visited(w, h, pref, draw, outs, k)
    requires CellAt(w, k).x == w - 1
    ensures HalfVisited(w, h, pref, draw, outs, k)
  {
    forall j | 0 <= j < w * h ensures RightPair(w, h, draw, k, j) == [] {}
  }

  /** Adding the pair between cell k and its bottom neighbour. */
  lemma AddBottomPair(w: nat, h: nat, pref: int, draw: nat -> int, k: nat, before: seq<seq<Edge>>, mid: seq<seq<Edge>>, after: seq<seq<Edge>>)
    requires SizesOk(w, h, pref) && k + w < w * h && HalfVisited(w, h, pref, draw, before, k)
    requires mid == before[k := before[k] + [Edge(CellAt(w, k), CellAt(w, k + w), BottomWeight(w, h, pref, draw, k))]]
    requires after == mid[k + w := mid[k + w] + [Edge(CellAt(w, k + w), CellAt(w, k), BottomWeight(w, h, pref, draw, k))]]
    ensures Visited(w, h, pref, draw, after, k + 1)
  {
    forall j | 0 <= j < w * h ensures after[j] == OutEdgesAfter(w, h, pref, draw, j, k + 1) {
      OutEdgesStep(w, h, pref, draw, k, j);
      BottomPairAt(w, h, pref, draw, k, j);
    }
  }

  /** The pair for cell k's bottom neighbour lands in lists k and k + w only. */
  lemma BottomPairAt(w: nat, h: nat, pref: int, draw: nat -> int, k: nat, j: nat)
    requires SizesOk(w, h, pref) && k + w < w * h
    ensures h > 1 && pref > 0
    ensures BottomPair(w, h, pref, draw, k, j)
         == if j == k then [Edge(CellAt(w, k), CellAt(w, k + w), BottomWeight(w, h, pref, draw, k))]
            else if j == k + w then [Edge(CellAt(w, k + w), CellAt(w, k), BottomWeight(w, h, pref, draw, k))]
            else []
  {
    TwoRows(w, h);
  }

  /** A cell in the last row adds no bottom pair. */
  lemma NoBottomPair(w: nat, h: nat, pref: int, draw: nat -> int, k: nat, outs: seq<seq<Edge>>)
    requires SizesOk(w, h, pref) && k < w * h && k + w >= w * h && HalfVisited(w, h, pref, draw, outs, k)
    ensures Visited(w, h, pref, draw, outs, k + 1)
  {
    forall j | 0 <= j < w * h ensures outs[j] == OutEdgesAfter(w, h, pref, draw, j, k + 1) {
      OutEdgesStep(w, h, pref, draw, k, j);
    }
  }

  /** The first half of initGraph: the cells, created row by row. */
  method BuildCells(w: nat, h: nat) returns (cells: seq<Cell>)
    requires w > 0
    ensures |cells| == w * h
    ensures forall i :: 0 <= i < |cells| ==> cells[i] == CellAt(w, i)
  {
    cells := [];
    // As in the source, x counts rows and y columns.
    for x := 0 to h
      invariant |cells| == w * x
      invariant forall i :: 0 <= i < |cells| ==> cells[i] == CellAt(w, i)
    {
      for y := 0 to w
        invariant |cells| == w * x + y
        invariant forall i :: 0 <= i < |cells| ==> cells[i] == CellAt(w, i)
      {
        CellAtIndex(w, h, y, x);
        cells := cells + [Cell(y, x)];
      }
    }
  }

  /** The first half of a pass of initGraph's second loop: cell k joins its right neighbour, if it has one. */
  method JoinRight(w: nat, h: nat, pref: int, draw: nat -> int, cells: seq<Cell>, k: nat, outs: seq<seq<Edge>>, drawn: nat)
    returns (outs': seq<seq<Edge>>, drawn': nat)
    requires SizesOk(w, h, pref) && k < w * h
    requires |cells| == w * h && forall i :: 0 <= i < |cells| ==> cells[i] == CellAt(w, i)
    requires drawn == DrawsBefore(w, h, k) && Visited(w, h, pref, draw, outs, k)
    ensures drawn' == DrawsBefore(w, h, k) + (if CellAt(w, k).x < w - 1 then 1 else 0)
    ensures HalfVisited(w, h, pref, draw, outs', k)
  {
    outs', drawn' := outs, drawn;
    var cell := cells[k];
    Neighbours(w, h, k);
    if cell.x < w - 1 {
      var rightCell := cells[w * cell.y + cell.x + 1];
      var weight := NextInt(draw(drawn'), 10) + 1;
      assert rightCell == CellAt(w, k + 1) && weight == RightWeight(w, h, draw, k);
      drawn' := drawn' + 1;
      ghost var before := outs';
      outs' := outs'[k := outs'[k] + [Edge(cell, rightCell, weight)]];
      ghost var mid := outs';
      outs' := outs'[k + 1 := outs'[k + 1] + [Edge(rightCell, cell, weight)]];
      AddRightPair(w, h, pref, draw, k, before, mid, outs');
    } else {
      NoRightPair(w, h, pref, draw, k, outs');
    }
  }

  /** The second half of a pass of initGraph's second loop: cell k joins its bottom neighbour, if it has one. */
  method JoinBelow(w: nat, h: nat, pref: int, draw: nat -> int, cells: seq<Cell>, k: nat, outs: seq<seq<Edge>>, drawn: nat)
    returns (outs': seq<seq<Edge>>, drawn': nat)
    requires SizesOk(w, h, pref) && k < w * h
    requires |cells| == w * h && forall i :: 0 <= i < |cells| ==> cells[i] == CellAt(w, i)
    requires drawn == DrawsBefore(w, h, k) + (if CellAt(w, k).x < w - 1 then 1 else 0)
    requires HalfVisited(w, h, pref, draw, outs, k)
    ensures drawn' == DrawsBefore(w, h, k + 1) && Visited(w, h, pref, draw, outs', k + 1)
  {
    outs', drawn' := outs, drawn;
    var cell := cells[k];
    Neighbours(w, h, k);
    assert DrawsBefore(w, h, k + 1) == drawn + (if k + w < w * h then 1 else 0);
    if cell.y < h - 1 {
      var bottomCell := cells[w * (cell.y + 1) + cell.x];
      var weight := NextInt(draw(drawn'), 10 * pref) + 1;
      assert bottomCell == CellAt(w, k + w) && weight == BottomWeight(w, h, pref, draw, k);
      drawn' := drawn' + 1;
      ghost var before := outs';
      outs' := outs'[k := outs'[k] + [Edge(cell, bottomCell, weight)]];
      ghost var mid := outs';
      outs' := outs'[k + w := outs'[k + w] + [Edge(bottomCell, cell, weight)]];
      AddBottomPair(w, h, pref, draw, k, before, mid, outs');
    } else {
      NoBottomPair(w, h, pref, draw, k, outs');
    }
  }

  /**
    initGraph(seed): creates the cells, then visits them in order.
  */
  method BuildGrid(w: nat, h: nat, pref: int, draw: nat -> int) returns (g: Graph)
    requires SizesOk(w, h, pref)
    ensures g == GridOf(w, h, pref, draw)
  {
    var cells := BuildCells(w, h);
    var outs: seq<seq<Edge>> := seq(w * h, _ => []);
    var drawn := 0;
    for k := 0 to w * h
      invariant drawn == DrawsBefore(w, h, k)
      invariant Visited(w, h, pref, draw, outs, k)
    {
      outs, drawn := JoinRight(w, h, pref, draw, cells, k, outs, drawn);
      outs, drawn := JoinBelow(w, h, pref, draw, cells, k, outs, drawn);
    }
    g := Graph(cells, outs);
  }

  /** The cell at index j - w is the one above cell j. */
  lemma Above(w: nat, h: nat, j: nat)
    requires w > 0 && w <= j < w * h
    ensures CellAt(w, j - w) == Cell(CellAt(w, j).x, CellAt(w, j).y - 1)
  {
    Neighbours(w, h, j - w);
  }

  /** Every index below w * h names a cell inside the grid. */
  predicate InGrid(w: nat, h: nat, c: Cell)
  {
    0 <= c.x < w && 0 <= c.y < h
  }

  lemma CellInGrid(w: nat, h: nat, n: nat)
    requires w > 0 && n < w * h
    ensures InGrid(w, h, CellAt(w, n))
  {
    Neighbours(w, h, n);
  }

  /**
    An out-edge of cell j as initGraph lays it out: it leaves cell j for one
    of its grid neighbours; a horizontal edge weighs 1..10 and a vertical one
    1..10 * pref; and the neighbour holds the opposite edge with the same
    weight.
  */
  ghost predicate GridEdge(w: nat, h: nat, pref: int, draw: nat -> int, j: nat, e: Edge)
    requires SizesOk(w, h, pref)
  {
    && e.from == CellAt(w, j) && InGrid(w, h, e.to) && Adjacent(e.from, e.to)
    && (e.from.y == e.to.y ==> 1 <= e.weight <= 10)
    && (e.from.x == e.to.x ==> pref > 0 && 1 <= e.weight <= 10 * pref)
    && exists n :: 0 <= n < w * h && CellAt(w, n) == e.to && Edge(e.to, e.from, e.weight) in OutEdges(w, h, pref, draw, n)
  }

  lemma TopEdge(w: nat, h: nat, pref: int, draw: nat -> int, j: nat, e: Edge)
    requires SizesOk(w, h, pref) && j < w * h && e in ToTop(w, h, pref, draw, j, w * h)
    ensures GridEdge(w, h, pref, draw, j, e)
  {
    TwoRows(w, h);
    Above(w, h, j);
    CellInGrid(w, h, j - w);
    assert Edge(e.to, e.from, e.weight) in ToBottom(w, h, pref, draw, j - w, w * h);
    assert Edge(e.to, e.from, e.weight) in OutEdges(w, h, pref, draw, j - w);
  }

  lemma LeftEdge(w: nat, h: nat, pref: int, draw: nat -> int, j: nat, e: Edge)
    requires SizesOk(w, h, pref) && j < w * h && e in ToLeft(w, h, draw, j, w * h)
    ensures GridEdge(w, h, pref, draw, j, e)
  {
    RowStart(w, h, j - 1);
    CellInGrid(w, h, j - 1);
    assert Edge(e.to, e.from, e.weight) in ToRight(w, h, draw, j - 1, w * h);
    assert Edge(e.to, e.from, e.weight) in OutEdges(w, h, pref, draw, j - 1);
  }

  lemma RightEdge(w: nat, h: nat, pref: int, draw: nat -> int, j: nat, e: Edge)
    requires SizesOk(w, h, pref) && j < w * h && e in ToRight(w, h, draw, j, w * h)
    ensures GridEdge(w, h, pref, draw, j, e)
  {
    RowStart(w, h, j);
    Neighbours(w, h, j);
    CellInGrid(w, h, j + 1);
    assert Edge(e.to, e.from, e.weight) in ToLeft(w, h, draw, j + 1, w * h);
    assert Edge(e.to, e.from, e.weight) in OutEdges(w, h, pref, draw, j + 1);
  }

  lemma BottomEdge(w: nat, h: nat, pref: int, draw: nat -> int, j: nat, e: Edge)
    requires SizesOk(w, h, pref) && j < w * h && e in ToBottom(w, h, pref, draw, j, w * h)
    ensures GridEdge(w, h, pref, draw, j, e)
  {
    TwoRows(w, h);
    Above(w, h, j + w);
    CellInGrid(w, h, j + w);
    assert Edge(e.to, e.from, e.weight) in ToTop(w, h, pref, draw, j + w, w * h);
    assert Edge(e.to, e.from, e.weight) in OutEdges(w, h, pref, draw, j + w);
  }

  /** Every out-edge of every cell is laid out as GridEdge describes. */
  lemma OutEdgeShape(w: nat, h: nat, pref: int, draw: nat -> int, j: nat, e: Edge)
    requires SizesOk(w, h, pref) && j < w * h && e in OutEdges(w, h, pref, draw, j)
    ensures GridEdge(w, h, pref, draw, j, e)
  {
    var n := w * h;
    if e in ToTop(w, h, pref, draw, j, n) {
      TopEdge(w, h, pref, draw, j, e);
    } else if e in ToLeft(w, h, draw, j, n) {
      LeftEdge(w, h, pref, draw, j, e);
    } else if e in ToRight(w, h, draw, j, n) {
      RightEdge(w, h, pref, draw, j, e);
    } else {
      BottomEdge(w, h, pref, draw, j, e);
    }
  }

  /** The grid is a well-formed graph: one out-edge list per cell, every edge between cells of the grid. */
  lemma GridOk(w: nat, h: nat, pref: int, draw: nat -> int)
    requires SizesOk(w, h, pref)
    ensures GraphOk(GridOf(w, h, pref, draw))
  {
    var g := GridOf(w, h, pref, draw);
    forall e | e in Flatten(g.outEdges) ensures e.from in g.cells && e.to in g.cells {
      FlattenMembers(g.outEdges, e);
      var j :| 0 <= j < |g.outEdges| && e in g.outEdges[j];
      OutEdgeShape(w, h, pref, draw, j, e);
      var n :| 0 <= n < w * h && CellAt(w, n) == e.to && Edge(e.to, e.from, e.weight) in OutEdges(w, h, pref, draw, n);
      assert g.cells[j] == e.from && g.cells[n] == e.to;
    }
  }

  /** The grid edge from cell i to its left neighbour, or else to its top neighbour, when i is not the first cell. */
  lemma EarlierNeighbour(w: nat, h: nat, pref: int, draw: nat -> int, i: nat)
    requires SizesOk(w, h, pref) && 0 < i < w * h
    ensures exists j, e :: 0 <= j < i && e in OutEdges(w, h, pref, draw, i) && e.from == CellAt(w, i) && e.to == CellAt(w, j)
  {
    var c := CellAt(w, i);
    if c.x > 0 {
      assert Edge(c, CellAt(w, i - 1), RightWeight(w, h, draw, i - 1)) in ToLeft(w, h, draw, i, w * h);
    } else {
      MulOutside(w, c.y);
      TwoRows(w, h);
      assert Edge(c, CellAt(w, i - w), BottomWeight(w, h, pref, draw, i - w)) in ToTop(w, h, pref, draw, i, w * h);
    }
  }

  /** Kruskal's worklist on the grid connects every cell to an earlier one. */
  lemma GridConnected(w: nat, h: nat, pref: int, draw: nat -> int)
    requires SizesOk(w, h, pref)
    ensures ConnectedBy(InitialWorklist(GridOf(w, h, pref, draw)), GridOf(w, h, pref, draw).cells)
  {
    var g := GridOf(w, h, pref, draw);
    forall i | 0 < i < |g.cells| ensures LinkedEarlier(InitialWorklist(g), g.cells, i) {
      EarlierNeighbour(w, h, pref, draw, i);
      var j, e :| 0 <= j < i && e in OutEdges(w, h, pref, draw, i) && e.from == CellAt(w, i) && e.to == CellAt(w, j);
      assert e in g.outEdges[i];
      WorklistJoins(g, i, e);
      var y :| y in InitialWorklist(g) && Joins(y, e.from, e.to);
      assert Joins(y, g.cells[i], g.cells[j]);
    }
  }

  /**
    On every grid initGraph can build, runKruskalImmediately reaches a
    complete spanning tree before running out of worklist edges.
  */
  lemma KruskalCompletesOnGrid(w: nat, h: nat, pref: int, draw: nat -> int)
    requires SizesOk(w, h, pref)
    ensures GraphOk(GridOf(w, h, pref, draw))
    ensures Inv(Start(GridOf(w, h, pref, draw)))
    ensures AllTouch(Start(GridOf(w, h, pref, draw)).forest, InitialWorklist(GridOf(w, h, pref, draw)))
    ensures Completes(Start(GridOf(w, h, pref, draw)), InitialWorklist(GridOf(w, h, pref, draw)), 0)
  {
    GridOk(w, h, pref, draw);
    GridConnected(w, h, pref, draw);
    MulOutside(w, h);
    KruskalCompletes(GridOf(w, h, pref, draw));
  }

  /** A draw sequence whose n-th value is n. */
  function Counting(n: nat): int
  {
    n
  }

  /** On a 3-by-1 grid whose draws are 0 and 1, the two horizontal edge pairs weigh 1 and 2. */
  lemma ThreeByOneGrid()
    ensures var a, b, c := Cell(0, 0), Cell(1, 0), Cell(2, 0);
            var g := GridOf(3, 1, 1, Counting);
            && g.cells == [a, b, c]
            && g.outEdges == [[Edge(a, b, 1)], [Edge(b, a, 1), Edge(b, c, 2)], [Edge(c, b, 2)]]
  {
    var a, b, c := Cell(0, 0), Cell(1, 0), Cell(2, 0);
    var g := GridOf(3, 1, 1, Counting);
    assert CellAt(3, 0) == a && CellAt(3, 1) == b && CellAt(3, 2) == c;
    assert g.cells == [a, b, c];
    assert RightWeight(3, 1, Counting, 0) == 1;
    assert DrawsBefore(3, 1, 1) == 1;
    assert RightWeight(3, 1, Counting, 1) == 2;
    assert OutEdges(3, 1, 1, Counting, 0) == [Edge(a, b, 1)];
    assert OutEdges(3, 1, 1, Counting, 1) == [Edge(b, a, 1), Edge(b, c, 2)];
    assert OutEdges(3, 1, 1, Counting, 2) == [Edge(c, b, 2)];
  }

  /**
    On that grid the worklist the Kruskal constructor builds still holds the
    two opposite edges between the second and third cells.
  */
  lemma ThreeByOneWorklist()
    ensures var a, b, c := Cell(0, 0), Cell(1, 0), Cell(2, 0);
            var g := GridOf(3, 1, 1, Counting);
            && InitialWorklist(g) == [Edge(a, b, 1), Edge(b, c, 2), Edge(c, b, 2)]
            && HasEqualPair(InitialWorklist(g))
  {
    ThreeByOneGrid();
    TwinsSurvive(GridOf(3, 1, 1, Counting));
  }

  /** The worklist built from those three out-edge lists. */
  lemma TwinsSurvive(g: Graph)
    requires var a, b, c := Cell(0, 0), Cell(1, 0), Cell(2, 0);
             g.outEdges == [[Edge(a, b, 1)], [Edge(b, a, 1), Edge(b, c, 2)], [Edge(c, b, 2)]]
    ensures var a, b, c := Cell(0, 0), Cell(1, 0), Cell(2, 0);
            && InitialWorklist(g) == [Edge(a, b, 1), Edge(b, c, 2), Edge(c, b, 2)]
            && HasEqualPair(InitialWorklist(g))
  {
    var a, b, c := Cell(0, 0), Cell(1, 0), Cell(2, 0);
    var outs := g.outEdges;
    var wl := [Edge(a, b, 1), Edge(b, a, 1), Edge(b, c, 2), Edge(c, b, 2)];
    assert outs[..2][..1] == outs[..1] && outs[..1][..0] == [];
    assert outs[..3][..2] == outs[..2];
    assert Flatten(outs[..1]) == wl[..1];
    assert Flatten(outs[..2]) == wl[..3];
    assert Flatten(outs) == wl;
    SortKeepsSorted(wl);
    KeepUnlikeFirstLeavesTwins();
  }
}
