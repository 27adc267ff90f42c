/*
  Open passages of a finished maze (MazeWorld.java:384-432, 569-599): which
  cells the spanning tree connects, the four direction slots addDirectionsToCell
  fills for a cell, and the neighbour list addToCellNeighbors derives from them.
  These are the specifications; the MazeWorld methods are proved against them.
*/
module Passages {
  import opened Grid

  /** canGoToCell(a, b): some tree edge joins a and b, in either orientation. */
  predicate Passage(tree: seq<Edge>, a: Cell, b: Cell)
  {
    exists e <- tree :: Joins(e, a, b)
  }

  lemma PassageSymmetric(tree: seq<Edge>, a: Cell, b: Cell)
    ensures Passage(tree, a, b) <==> Passage(tree, b, a)
  {
    if Passage(tree, a, b) {
      var e :| e in tree && Joins(e, a, b);
      assert Joins(e, b, a);
    }
    if Passage(tree, b, a) {
      var e :| e in tree && Joins(e, b, a);
      assert Joins(e, a, b);
    }
  }

  /** A tree that only grows keeps every passage it had. */
  lemma PassageGrows(tree: seq<Edge>, more: seq<Edge>, a: Cell, b: Cell)
    requires Passage(tree, a, b)
    ensures Passage(tree + more, a, b)
  {
    var e :| e in tree && Joins(e, a, b);
    assert e in tree + more;
  }

  // ---------------------------------------------------------------------
  // edgesFromCell and edgesToCell (MazeWorld.java:384-404)
  // ---------------------------------------------------------------------

  /** The tree edges leaving c, in tree order. */
  function StartingAt(tree: seq<Edge>, c: Cell): seq<Edge>
    decreases |tree|
  {
    if tree == [] then []
    else StartingAt(tree[..|tree| - 1], c) + (if tree[|tree| - 1].from == c then [tree[|tree| - 1]] else [])
  }

  /** The tree edges entering c, in tree order. */
  function EndingAt(tree: seq<Edge>, c: Cell): seq<Edge>
    decreases |tree|
  {
    if tree == [] then []
    else EndingAt(tree[..|tree| - 1], c) + (if tree[|tree| - 1].to == c then [tree[|tree| - 1]] else [])
  }

  lemma {:induction false} StartingAtMembers(tree: seq<Edge>, c: Cell)
    ensures forall e :: e in StartingAt(tree, c) <==> e in tree && e.from == c
    ensures |StartingAt(tree, c)| <= |tree|
    decreases |tree|
  {
    if tree != [] {
      var t := tree[..|tree| - 1];
      StartingAtMembers(t, c);
      assert tree == t + [tree[|tree| - 1]];
    }
  }

  lemma {:induction false} EndingAtMembers(tree: seq<Edge>, c: Cell)
    ensures forall e :: e in EndingAt(tree, c) <==> e in tree && e.to == c
    ensures |EndingAt(tree, c)| <= |tree|
    decreases |tree|
  {
    if tree != [] {
      var t := tree[..|tree| - 1];
      EndingAtMembers(t, c);
      assert tree == t + [tree[|tree| - 1]];
    }
  }

  /** Every edge incident to c leaves it or enters it: the two lists together hold them all (a loop counts twice). */
  lemma StartingOrEnding(tree: seq<Edge>, c: Cell, e: Edge)
    requires e in tree && (e.from == c || e.to == c)
    ensures e in StartingAt(tree, c) || e in EndingAt(tree, c)
  {
    StartingAtMembers(tree, c);
    EndingAtMembers(tree, c);
  }

  // ---------------------------------------------------------------------
  // addDirectionsToCell (MazeWorld.java:406-432)
  // ---------------------------------------------------------------------

  /** A cell's left, top, right and bottom fields; None stands for null. */
  datatype Slots = Slots(left: Option<Cell>, top: Option<Cell>, right: Option<Cell>, bottom: Option<Cell>)

  const NoSlots := Slots(None, None, None, None)

  function LeftCell(c: Cell): Cell { Cell(c.x - 1, c.y) }
  function TopCell(c: Cell): Cell { Cell(c.x, c.y - 1) }
  function RightCell(c: Cell): Cell { Cell(c.x + 1, c.y) }
  function BottomCell(c: Cell): Cell { Cell(c.x, c.y + 1) }

  /** The four tests of the if / else-if chain, each on its own. */
  predicate OpensLeft(tree: seq<Edge>, cell: Cell, e: Edge)
  {
    e.from == LeftCell(cell) && Passage(tree, e.from, cell)
  }

  predicate OpensTop(tree: seq<Edge>, cell: Cell, e: Edge)
  {
    e.from == TopCell(cell) && Passage(tree, e.from, cell)
  }

  predicate OpensRight(tree: seq<Edge>, cell: Cell, e: Edge)
  {
    e.to == RightCell(cell) && Passage(tree, e.to, cell)
  }

  predicate OpensBottom(tree: seq<Edge>, cell: Cell, e: Edge)
  {
    e.to == BottomCell(cell) && Passage(tree, e.to, cell)
  }

  /** Which branch of the chain an edge takes: a test counts only when the earlier ones failed. */
  predicate SetsLeft(tree: seq<Edge>, cell: Cell, e: Edge)
  {
    OpensLeft(tree, cell, e)
  }

  predicate SetsTop(tree: seq<Edge>, cell: Cell, e: Edge)
  {
    !OpensLeft(tree, cell, e) && OpensTop(tree, cell, e)
  }

  predicate SetsRight(tree: seq<Edge>, cell: Cell, e: Edge)
  {
    !OpensLeft(tree, cell, e) && !OpensTop(tree, cell, e) && OpensRight(tree, cell, e)
  }

  predicate SetsBottom(tree: seq<Edge>, cell: Cell, e: Edge)
  {
    !OpensLeft(tree, cell, e) && !OpensTop(tree, cell, e) && !OpensRight(tree, cell, e)
      && OpensBottom(tree, cell, e)
  }

  /** The slots after one pass of the loop body with edge e. */
  function DirectionStep(tree: seq<Edge>, cell: Cell, d: Slots, e: Edge): Slots
  {
    if SetsLeft(tree, cell, e) then d.(left := Some(e.from))
    else if SetsTop(tree, cell, e) then d.(top := Some(e.from))
    else if SetsRight(tree, cell, e) then d.(right := Some(e.to))
    else if SetsBottom(tree, cell, e) then d.(bottom := Some(e.to))
    else d
  }

  /** The slots after the loop has run over the edges es, in order, starting from d. */
  function Directed(tree: seq<Edge>, cell: Cell, d: Slots, es: seq<Edge>): Slots
    decreases |es|
  {
    if es == [] then d
    else DirectionStep(tree, cell, Directed(tree, cell, d, es[..|es| - 1]), es[|es| - 1])
  }

  /** The left slot after the loop: the left neighbour if some edge took the first branch, else unchanged. */
  lemma {:induction false} DirectedLeft(tree: seq<Edge>, cell: Cell, d: Slots, es: seq<Edge>)
    ensures Directed(tree, cell, d, es).left
      == if exists e <- es :: SetsLeft(tree, cell, e) then Some(LeftCell(cell)) else d.left
    decreases |es|
  {
    if es != [] {
      var t, x := es[..|es| - 1], es[|es| - 1];
      DirectedLeft(tree, cell, d, t);
      assert Directed(tree, cell, d, es) == DirectionStep(tree, cell, Directed(tree, cell, d, t), x);
      assert es == t + [x];
      assert (exists e <- es :: SetsLeft(tree, cell, e)) <==> (exists e <- t :: SetsLeft(tree, cell, e)) || SetsLeft(tree, cell, x);
    }
  }

  lemma {:induction false} DirectedTop(tree: seq<Edge>, cell: Cell, d: Slots, es: seq<Edge>)
    ensures Directed(tree, cell, d, es).top
      == if exists e <- es :: SetsTop(tree, cell, e) then Some(TopCell(cell)) else d.top
    decreases |es|
  {
    if es != [] {
      var t, x := es[..|es| - 1], es[|es| - 1];
      DirectedTop(tree, cell, d, t);
      assert Directed(tree, cell, d, es) == DirectionStep(tree, cell, Directed(tree, cell, d, t), x);
      assert es == t + [x];
      assert (exists e <- es :: SetsTop(tree, cell, e)) <==> (exists e <- t :: SetsTop(tree, cell, e)) || SetsTop(tree, cell, x);
    }
  }

  lemma {:induction false} DirectedRight(tree: seq<Edge>, cell: Cell, d: Slots, es: seq<Edge>)
    ensures Directed(tree, cell, d, es).right
      == if exists e <- es :: SetsRight(tree, cell, e) then Some(RightCell(cell)) else d.right
    decreases |es|
  {
    if es != [] {
      var t, x := es[..|es| - 1], es[|es| - 1];
      DirectedRight(tree, cell, d, t);
      assert Directed(tree, cell, d, es) == DirectionStep(tree, cell, Directed(tree, cell, d, t), x);
      assert es == t + [x];
      assert (exists e <- es :: SetsRight(tree, cell, e)) <==> (exists e <- t :: SetsRight(tree, cell, e)) || SetsRight(tree, cell, x);
    }
  }

  lemma {:induction false} DirectedBottom(tree: seq<Edge>, cell: Cell, d: Slots, es: seq<Edge>)
    ensures Directed(tree, cell, d, es).bottom
      == if exists e <- es :: SetsBottom(tree, cell, e) then Some(BottomCell(cell)) else d.bottom
    decreases |es|
  {
    if es != [] {
      var t, x := es[..|es| - 1], es[|es| - 1];
      DirectedBottom(tree, cell, d, t);
      assert Directed(tree, cell, d, es) == DirectionStep(tree, cell, Directed(tree, cell, d, t), x);
      assert es == t + [x];
      assert (exists e <- es :: SetsBottom(tree, cell, e)) <==> (exists e <- t :: SetsBottom(tree, cell, e)) || SetsBottom(tree, cell, x);
    }
  }

  /** Each slot is null or the open, grid-adjacent cell in its direction. */
  ghost predicate SlotsOpen(tree: seq<Edge>, cell: Cell, d: Slots)
  {
    && (d.left.Some? ==> d.left.value == LeftCell(cell) && Passage(tree, d.left.value, cell))
    && (d.top.Some? ==> d.top.value == TopCell(cell) && Passage(tree, d.top.value, cell))
    && (d.right.Some? ==> d.right.value == RightCell(cell) && Passage(tree, d.right.value, cell))
    && (d.bottom.Some? ==> d.bottom.value == BottomCell(cell) && Passage(tree, d.bottom.value, cell))
  }

  /** addDirectionsToCell sets a slot only to the adjacent cell in that direction, and only when canGoToCell holds. */
  lemma DirectedOpen(tree: seq<Edge>, cell: Cell, d: Slots, es: seq<Edge>)
    requires SlotsOpen(tree, cell, d)
    ensures SlotsOpen(tree, cell, Directed(tree, cell, d, es))
  {
    DirectedLeft(tree, cell, d, es);
    DirectedTop(tree, cell, d, es);
    DirectedRight(tree, cell, d, es);
    DirectedBottom(tree, cell, d, es);
  }

  /**
    A tree edge that points right or down from cell fills the cell's right or
    bottom slot, and one that points right or down into cell fills its left or
    top slot.
  */
  lemma DirectedFindsForwardEdges(tree: seq<Edge>, cell: Cell, d: Slots, e: Edge)
    requires e in tree
    ensures e.from == cell && e.to == RightCell(cell) ==> Directed(tree, cell, d, tree).right == Some(e.to)
    ensures e.from == cell && e.to == BottomCell(cell) ==> Directed(tree, cell, d, tree).bottom == Some(e.to)
    ensures e.to == cell && e.from == LeftCell(cell) ==> Directed(tree, cell, d, tree).left == Some(e.from)
    ensures e.to == cell && e.from == TopCell(cell) ==> Directed(tree, cell, d, tree).top == Some(e.from)
  {
    DirectedLeft(tree, cell, d, tree);
    DirectedTop(tree, cell, d, tree);
    DirectedRight(tree, cell, d, tree);
    DirectedBottom(tree, cell, d, tree);
    assert Joins(e, e.from, e.to) && Joins(e, e.to, e.from);
  }

  /** Slots that a tree which only grows leaves open. */
  lemma SlotsStayOpen(tree: seq<Edge>, more: seq<Edge>, cell: Cell, d: Slots)
    requires SlotsOpen(tree, cell, d)
    ensures SlotsOpen(tree + more, cell, d)
  {
    if d.left.Some? { PassageGrows(tree, more, d.left.value, cell); }
    if d.top.Some? { PassageGrows(tree, more, d.top.value, cell); }
    if d.right.Some? { PassageGrows(tree, more, d.right.value, cell); }
    if d.bottom.Some? { PassageGrows(tree, more, d.bottom.value, cell); }
  }


  /** The slots after the first loop of addToCellNeighbors has run addDirectionsToCell over cells. */
  function DirectAll(tree: seq<Edge>, slots: map<Cell, Slots>, cells: seq<Cell>): map<Cell, Slots>
    decreases |cells|
  {
    if cells == [] then slots
    else
      var before := DirectAll(tree, slots, cells[..|cells| - 1]);
      var c := cells[|cells| - 1];
      before[c := Directed(tree, c, SlotsOf(before, c), tree)]
  }

  /** Filling the slots of every cell keeps every slot open. */
  lemma {:induction false} DirectAllOpen(tree: seq<Edge>, slots: map<Cell, Slots>, cells: seq<Cell>)
    requires AllSlotsOpen(tree, slots)
    ensures AllSlotsOpen(tree, DirectAll(tree, slots, cells))
    decreases |cells|
  {
    if cells != [] {
      var before := DirectAll(tree, slots, cells[..|cells| - 1]);
      var c := cells[|cells| - 1];
      DirectAllOpen(tree, slots, cells[..|cells| - 1]);
      DirectedOpen(tree, c, SlotsOf(before, c), tree);
    }
  }

  /** Starting from null slots, each listed cell ends with the slots one pass over the whole tree gives it. */
  lemma {:induction false} DirectAllFills(tree: seq<Edge>, cells: seq<Cell>, c: Cell)
    requires c in cells
    ensures c in DirectAll(tree, map[], cells)
    ensures DirectAll(tree, map[], cells)[c] == Directed(tree, c, NoSlots, tree)
    decreases |cells|
  {
    var t := cells[..|cells| - 1];
    if c != cells[|cells| - 1] {
      assert cells == t + [cells[|cells| - 1]];
      DirectAllFills(tree, t, c);
    } else if c in t {
      DirectAllFills(tree, t, c);
      assert Directed(tree, c, Directed(tree, c, NoSlots, tree), tree) == Directed(tree, c, NoSlots, tree) by {
        DirectedTwice(tree, c, tree);
      }
    } else {
      DirectAllMisses(tree, t, c);
    }
  }

  /** A cell not listed keeps null slots. */
  lemma {:induction false} DirectAllMisses(tree: seq<Edge>, cells: seq<Cell>, c: Cell)
    requires c !in cells
    ensures SlotsOf(DirectAll(tree, map[], cells), c) == NoSlots
    decreases |cells|
  {
    if cells != [] {
      DirectAllMisses(tree, cells[..|cells| - 1], c);
    }
  }

  /** Running addDirectionsToCell twice on a cell gives what running it once gives. */
  lemma DirectedTwice(tree: seq<Edge>, cell: Cell, es: seq<Edge>)
    ensures Directed(tree, cell, Directed(tree, cell, NoSlots, es), es) == Directed(tree, cell, NoSlots, es)
  {
    var d := Directed(tree, cell, NoSlots, es);
    DirectedLeft(tree, cell, NoSlots, es);
    DirectedTop(tree, cell, NoSlots, es);
    DirectedRight(tree, cell, NoSlots, es);
    DirectedBottom(tree, cell, NoSlots, es);
    DirectedLeft(tree, cell, d, es);
    DirectedTop(tree, cell, d, es);
    DirectedRight(tree, cell, d, es);
    DirectedBottom(tree, cell, d, es);
  }

  // ---------------------------------------------------------------------
  // addToCellNeighbors (MazeWorld.java:568-588)
  // ---------------------------------------------------------------------

  function Present(o: Option<Cell>): seq<Cell>
  {
    if o.Some? then [o.value] else []
  }

  /** The non-null slots in the order right, left, bottom, top. */
  function NeighborList(d: Slots): seq<Cell>
  {
    Present(d.right) + Present(d.left) + Present(d.bottom) + Present(d.top)
  }

  /** A cell's slots, null until addDirectionsToCell has filled them. */
  function SlotsOf(slots: map<Cell, Slots>, c: Cell): Slots
  {
    if c in slots then slots[c] else NoSlots
  }

  /** A cell's neighbours list, empty until addToCellNeighbors has filled it. */
  function NeighborsOf(nb: map<Cell, seq<Cell>>, c: Cell): seq<Cell>
  {
    if c in nb then nb[c] else []
  }

  /** The neighbour lists after the second loop of addToCellNeighbors has run over cells. */
  function AppendSlots(nb: map<Cell, seq<Cell>>, slots: map<Cell, Slots>, cells: seq<Cell>): map<Cell, seq<Cell>>
    decreases |cells|
  {
    if cells == [] then nb
    else
      var before := AppendSlots(nb, slots, cells[..|cells| - 1]);
      var c := cells[|cells| - 1];
      before[c := NeighborsOf(before, c) + NeighborList(SlotsOf(slots, c))]
  }

  /** Every cell's neighbours are open and grid-adjacent. */
  ghost predicate NeighborsOpen(tree: seq<Edge>, nb: map<Cell, seq<Cell>>)
  {
    forall c, n :: c in nb && n in nb[c] ==> Passage(tree, c, n) && Adjacent(c, n)
  }

  ghost predicate AllSlotsOpen(tree: seq<Edge>, slots: map<Cell, Slots>)
  {
    forall c :: c in slots ==> SlotsOpen(tree, c, slots[c])
  }

  /** The neighbour list of open slots holds only open, adjacent cells, and holds each non-null slot. */
  lemma NeighborListOpen(tree: seq<Edge>, c: Cell, d: Slots)
    requires SlotsOpen(tree, c, d)
    ensures forall n :: n in NeighborList(d) ==> Passage(tree, c, n) && Adjacent(c, n)
    ensures forall n :: n in NeighborList(d) <==> Some(n) in {d.left, d.top, d.right, d.bottom}
  {
    forall n | n in NeighborList(d) ensures Passage(tree, c, n) {
      PassageSymmetric(tree, c, n);
    }
  }

  /**
    addToCellNeighbors only appends: every old neighbour stays, a cell listed
    once gains exactly its non-null slots in the order right, left, bottom,
    top, and cells not listed are untouched.
  */
  lemma AppendSlotsSpec(nb: map<Cell, seq<Cell>>, slots: map<Cell, Slots>, cells: seq<Cell>, c: Cell)
    ensures forall n :: n in NeighborsOf(nb, c) ==> n in NeighborsOf(AppendSlots(nb, slots, cells), c)
    ensures c !in cells ==> NeighborsOf(AppendSlots(nb, slots, cells), c) == NeighborsOf(nb, c)
    ensures (forall i, j :: 0 <= i < j < |cells| ==> cells[i] != cells[j]) && c in cells
      ==> NeighborsOf(AppendSlots(nb, slots, cells), c) == NeighborsOf(nb, c) + NeighborList(SlotsOf(slots, c))
    ensures c in AppendSlots(nb, slots, cells) <==> c in nb || c in cells
  {
    AppendSlotsPrefix(nb, slots, cells, c);
    AppendSlotsUnlisted(nb, slots, cells, c);
    if (forall i, j :: 0 <= i < j < |cells| ==> cells[i] != cells[j]) && c in cells {
      AppendSlotsOnce(nb, slots, cells, c);
    }
  }

  /** The old list of c is a prefix of its new one. */
  lemma {:induction false} AppendSlotsPrefix(nb: map<Cell, seq<Cell>>, slots: map<Cell, Slots>, cells: seq<Cell>, c: Cell)
    ensures NeighborsOf(nb, c) <= NeighborsOf(AppendSlots(nb, slots, cells), c)
    decreases |cells|
  {
    if cells != [] {
      var t, x := cells[..|cells| - 1], cells[|cells| - 1];
      AppendSlotsPrefix(nb, slots, t, c);
      var before := AppendSlots(nb, slots, t);
      if c == x {
        assert NeighborsOf(before, c) <= NeighborsOf(before, c) + NeighborList(SlotsOf(slots, c));
      }
    }
  }

  /** A cell not listed keeps its list, and the keys are the old ones and the listed cells. */
  lemma {:induction false} AppendSlotsUnlisted(nb: map<Cell, seq<Cell>>, slots: map<Cell, Slots>, cells: seq<Cell>, c: Cell)
    ensures c !in cells ==> NeighborsOf(AppendSlots(nb, slots, cells), c) == NeighborsOf(nb, c)
    ensures c in AppendSlots(nb, slots, cells) <==> c in nb || c in cells
    decreases |cells|
  {
    if cells != [] {
      var t, x := cells[..|cells| - 1], cells[|cells| - 1];
      AppendSlotsUnlisted(nb, slots, t, c);
      assert cells == t + [x];
    }
  }

  /** A cell listed once gains exactly its non-null slots. */
  lemma {:induction false} AppendSlotsOnce(nb: map<Cell, seq<Cell>>, slots: map<Cell, Slots>, cells: seq<Cell>, c: Cell)
    requires forall i, j :: 0 <= i < j < |cells| ==> cells[i] != cells[j]
    requires c in cells
    ensures NeighborsOf(AppendSlots(nb, slots, cells), c) == NeighborsOf(nb, c) + NeighborList(SlotsOf(slots, c))
    decreases |cells|
  {
    var t, x := cells[..|cells| - 1], cells[|cells| - 1];
    assert cells == t + [x];
    if c == x {
      assert c !in t by {
        forall i | 0 <= i < |t| ensures t[i] != c {
          assert cells[i] != cells[|cells| - 1];
        }
      }
      AppendSlotsUnlisted(nb, slots, t, c);
    } else {
      assert c in t;
      AppendSlotsOnce(nb, slots, t, c);
    }
  }

  /** With open slots, the lists addToCellNeighbors builds keep every neighbour open and adjacent. */
  lemma {:induction false} AppendSlotsOpen(tree: seq<Edge>, nb: map<Cell, seq<Cell>>, slots: map<Cell, Slots>, cells: seq<Cell>)
    requires NeighborsOpen(tree, nb)
    requires forall c :: SlotsOpen(tree, c, SlotsOf(slots, c))
    ensures NeighborsOpen(tree, AppendSlots(nb, slots, cells))
    decreases |cells|
  {
    if cells != [] {
      var t := cells[..|cells| - 1];
      AppendSlotsOpen(tree, nb, slots, t);
      var c := cells[|cells| - 1];
      NeighborListOpen(tree, c, SlotsOf(slots, c));
    }
  }
}
