/**
  Kruskal's algorithm as the maze generator runs it (MazeGenerator.java:149-268).

  The value-level part states what one worklist edge does to the state
  (Process), when the run is finished (Complete), and what running from a
  worklist index to completion yields (RunFrom). The class Kruskal holds the
  source's fields and its methods are proved against those functions.
*/
module SpanningTree {
  import opened Grid
  import opened EdgeSort
  import opened UnionFind

  /** Kruskal's working state: the union-find forest and the edges accepted so far. */
  datatype Progress = Progress(forest: Forest, tree: seq<Edge>)

  ghost predicate Touches(f: Forest, e: Edge)
  {
    e.from in f.reps && e.to in f.reps
  }

  ghost predicate AllTouch(f: Forest, wl: seq<Edge>)
  {
    forall j :: 0 <= j < |wl| ==> Touches(f, wl[j])
  }

  /**
    The Kruskal invariant: a valid forest; every accepted edge lies inside one
    component; and each accepted edge has merged two components, so the number
    of components plus the number of tree edges is the number of cells.
  */
  ghost predicate Inv(s: Progress)
  {
    && ForestOk(s.forest)
    && |Roots(s.forest)| + |s.tree| == |s.forest.reps|
    && forall e <- s.tree :: Touches(s.forest, e) && Root(s.forest, e.from) == Root(s.forest, e.to)
  }

  /** The loop guard of runKruskal and runKruskalImmediately, edgesInTree.size() < representatives.size() - 1, is false. */
  predicate Complete(s: Progress)
  {
    !(|s.tree| < |s.forest.reps| - 1)
  }

  lemma {:induction false} ProcessKeepsInv(s: Progress, e: Edge)
    requires Inv(s) && Touches(s.forest, e)
    requires Root(s.forest, e.from) != Root(s.forest, e.to)
    ensures CanLink(s.forest, Root(s.forest, e.to), Root(s.forest, e.from))
    ensures Inv(Progress(Link(s.forest, Root(s.forest, e.to), Root(s.forest, e.from)), s.tree + [e]))
  {
    var f := s.forest;
    var a, b := Root(f, e.from), Root(f, e.to);
    var g := Link(f, b, a);
    LinkOk(f, b, a);
    LinkRemovesRoot(f, b, a);
    forall x | x in s.tree + [e]
      ensures Touches(g, x) && Root(g, x.from) == Root(g, x.to)
    {
      if x != e {
        assert x in s.tree;
      }
      LinkMerges(f, b, a, x.from);
      LinkMerges(f, b, a, x.to);
    }
  }

  /**
    One worklist edge: if its endpoints already share a root it is skipped;
    otherwise it joins the tree and the root of its `to` end is linked below
    the root of its `from` end (unionRepresentative(find(from), find(to))).
  */
  ghost function Process(s: Progress, e: Edge): (t: Progress)
    requires Inv(s) && Touches(s.forest, e)
    ensures Inv(t) && |t.forest.reps| == |s.forest.reps|
  {
    var a, b := Root(s.forest, e.from), Root(s.forest, e.to);
    if a == b then s
    else
      ProcessKeepsInv(s, e);
      Progress(Link(s.forest, b, a), s.tree + [e])
  }

  /** Processing keeps every cell in the forest. */
  lemma ProcessKeepsTouch(s: Progress, e: Edge, wl: seq<Edge>)
    requires Inv(s) && Touches(s.forest, e) && AllTouch(s.forest, wl)
    ensures AllTouch(Process(s, e).forest, wl)
  {
    var f, g := s.forest, Process(s, e).forest;
    var a, b := Root(f, e.from), Root(f, e.to);
    assert g.reps == f.reps || g.reps == f.reps[b := a];
    forall j | 0 <= j < |wl| ensures Touches(g, wl[j]) {
      assert Touches(f, wl[j]);
    }
  }

  /** The edge joins the tree exactly when its ends were in different components; afterwards they are in one. */
  lemma ProcessAddsOnlyBridges(s: Progress, e: Edge)
    requires Inv(s) && Touches(s.forest, e)
    ensures Process(s, e).tree == if Root(s.forest, e.from) == Root(s.forest, e.to) then s.tree else s.tree + [e]
    ensures Root(Process(s, e).forest, e.from) == Root(Process(s, e).forest, e.to)
  {
    var a, b := Root(s.forest, e.from), Root(s.forest, e.to);
    if a != b {
      LinkMerges(s.forest, b, a, e.from);
      LinkMerges(s.forest, b, a, e.to);
    }
  }

  /** Processing merges components and never splits one: cells that shared a root still do. */
  lemma ProcessKeepsJoined(s: Progress, e: Edge, x: Cell, y: Cell)
    requires Inv(s) && Touches(s.forest, e) && x in s.forest.reps && y in s.forest.reps
    requires Root(s.forest, x) == Root(s.forest, y)
    ensures Root(Process(s, e).forest, x) == Root(Process(s, e).forest, y)
  {
    var a, b := Root(s.forest, e.from), Root(s.forest, e.to);
    if a != b {
      LinkMerges(s.forest, b, a, x);
      LinkMerges(s.forest, b, a, y);
    }
  }

  /** The tree never holds more than cellCount - 1 edges, and a completed run holds exactly that many. */
  lemma TreeBound(s: Progress)
    requires Inv(s) && |s.forest.reps| > 0
    ensures |s.tree| <= |s.forest.reps| - 1
    ensures Complete(s) ==> |s.tree| == |s.forest.reps| - 1
  {
    var c :| c in s.forest.reps;
    assert Root(s.forest, c) in Roots(s.forest);
  }

  /** Starting at worklist index i, the run reaches a complete tree before the worklist runs out. */
  ghost predicate Completes(s: Progress, wl: seq<Edge>, i: nat)
    requires Inv(s) && AllTouch(s.forest, wl)
    decreases |wl| - i
  {
    if Complete(s) then true
    else if i < |wl| then
      ProcessKeepsTouch(s, wl[i], wl);
      Completes(Process(s, wl[i]), wl, i + 1)
    else false
  }

  /** The state reached by processing wl[i], wl[i+1], ... until the tree is complete. */
  ghost function RunFrom(s: Progress, wl: seq<Edge>, i: nat): (r: Progress)
    requires Inv(s) && AllTouch(s.forest, wl) && Completes(s, wl, i)
    ensures Inv(r) && Complete(r) && |r.forest.reps| == |s.forest.reps|
    decreases |wl| - i
  {
    if Complete(s) then s
    else
      ProcessKeepsTouch(s, wl[i], wl);
      RunFrom(Process(s, wl[i]), wl, i + 1)
  }

  /** Every worklist edge before index k already has both ends in one component. */
  ghost predicate Settled(s: Progress, wl: seq<Edge>, k: nat)
    requires Inv(s) && AllTouch(s.forest, wl)
  {
    k <= |wl| && forall j :: 0 <= j < k ==> Root(s.forest, wl[j].from) == Root(s.forest, wl[j].to)
  }

  /** Processing every worklist edge from index i to the end, whether or not the tree is already complete. */
  ghost function RunAll(s: Progress, wl: seq<Edge>, i: nat): (r: Progress)
    requires Inv(s) && AllTouch(s.forest, wl)
    ensures Inv(r) && AllTouch(r.forest, wl) && r.forest.reps.Keys == s.forest.reps.Keys
    decreases |wl| - i
  {
    if i >= |wl| then s
    else
      ProcessKeepsTouch(s, wl[i], wl);
      ProcessKeepsCells(s, wl[i]);
      RunAll(Process(s, wl[i]), wl, i + 1)
  }

  /** Processing an edge keeps the same cells in the forest. */
  lemma ProcessKeepsCells(s: Progress, e: Edge)
    requires Inv(s) && Touches(s.forest, e)
    ensures Process(s, e).forest.reps.Keys == s.forest.reps.Keys
  {
  }

  /** A run that never completes ends with every worklist edge inside one component, still incomplete. */
  lemma {:induction false} IncompleteRunSettles(s: Progress, wl: seq<Edge>, i: nat)
    requires Inv(s) && AllTouch(s.forest, wl) && Settled(s, wl, i) && !Completes(s, wl, i)
    ensures Settled(RunAll(s, wl, i), wl, |wl|) && !Complete(RunAll(s, wl, i))
    decreases |wl| - i
  {
    if i < |wl| {
      ProcessKeepsTouch(s, wl[i], wl);
      ProcessSettles(s, wl, i);
      IncompleteRunSettles(Process(s, wl[i]), wl, i + 1);
    }
  }

  /** A state in which every cell shares one root is complete: the tree has cellCount - 1 edges. */
  lemma OneComponentCompletes(s: Progress, c: Cell)
    requires Inv(s) && c in s.forest.reps
    requires forall x :: x in s.forest.reps ==> Root(s.forest, x) == Root(s.forest, c)
    ensures Complete(s)
  {
    var f := s.forest;
    forall r | r in Roots(f) ensures r == Root(f, c) {
      assert Parent(f, r) == r;
      assert Root(f, r) == r;
    }
    assert Root(f, c) in Roots(f);
    assert Roots(f) == {Root(f, c)};
  }

  /**
    The worklist connects the cells in order: each cell after the first is
    joined by some worklist edge to a cell listed before it.
  */
  ghost predicate ConnectedBy(wl: seq<Edge>, cells: seq<Cell>)
  {
    forall i :: 0 < i < |cells| ==> LinkedEarlier(wl, cells, i)
  }

  /** Some worklist edge joins cells[i] to a cell listed before it. */
  ghost predicate LinkedEarlier(wl: seq<Edge>, cells: seq<Cell>, i: nat)
    requires i < |cells|
  {
    exists j, e :: 0 <= j < i && e in wl && Joins(e, cells[i], cells[j])
  }

  /** Once every worklist edge lies inside one component, each cell shares the first cell's root. */
  lemma {:induction false} JoinedToFirst(s: Progress, wl: seq<Edge>, cells: seq<Cell>, i: nat)
    requires Inv(s) && AllTouch(s.forest, wl) && Settled(s, wl, |wl|)
    requires ConnectedBy(wl, cells) && i < |cells|
    requires forall c :: c in cells ==> c in s.forest.reps
    ensures Root(s.forest, cells[i]) == Root(s.forest, cells[0])
    decreases i
  {
    if i > 0 {
      assert LinkedEarlier(wl, cells, i);
      var j, e :| 0 <= j < i && e in wl && Joins(e, cells[i], cells[j]);
      var k :| 0 <= k < |wl| && wl[k] == e;
      assert Root(s.forest, e.from) == Root(s.forest, e.to);
      JoinedToFirst(s, wl, cells, j);
    }
  }

  /** One more processed edge keeps the prefix settled: unions only merge components. */
  lemma ProcessSettles(s: Progress, wl: seq<Edge>, k: nat)
    requires Inv(s) && AllTouch(s.forest, wl) && Settled(s, wl, k) && k < |wl|
    ensures AllTouch(Process(s, wl[k]).forest, wl)
    ensures Settled(Process(s, wl[k]), wl, k + 1)
  {
    var e := wl[k];
    ProcessKeepsTouch(s, e, wl);
    ProcessAddsOnlyBridges(s, e);
    var g := Process(s, e).forest;
    forall j | 0 <= j < k ensures Root(g, wl[j].from) == Root(g, wl[j].to) {
      ProcessKeepsJoined(s, e, wl[j].from, wl[j].to);
    }
  }

  /** A settled edge is skipped: continuing one index earlier reaches the same result. */
  lemma SkipSettled(s: Progress, wl: seq<Edge>, k: nat)
    requires Inv(s) && AllTouch(s.forest, wl) && Settled(s, wl, k) && Completes(s, wl, k) && k > 0
    ensures Settled(s, wl, k - 1) && Completes(s, wl, k - 1)
    ensures RunFrom(s, wl, k - 1) == RunFrom(s, wl, k)
  {
    var e := wl[k - 1];
    assert Process(s, e) == s by {
      assert Root(s.forest, e.from) == Root(s.forest, e.to);
    }
  }

  /**
    Restarting the run at index 0 from a state whose first k worklist edges
    are settled gives the same result as continuing at k: the edges already
    seen are skipped again. This is why pressing 's' in the middle of the
    animated generation yields the same tree as the animation would.
  */
  lemma {:induction false} RestartAgrees(s: Progress, wl: seq<Edge>, k: nat)
    requires Inv(s) && AllTouch(s.forest, wl) && Settled(s, wl, k) && Completes(s, wl, k)
    ensures Completes(s, wl, 0)
    ensures RunFrom(s, wl, 0) == RunFrom(s, wl, k)
    decreases k
  {
    if k > 0 {
      SkipSettled(s, wl, k);
      RestartAgrees(s, wl, k - 1);
      assert RunFrom(s, wl, 0) == RunFrom(s, wl, k - 1);
    }
  }

  /** One step with the next index follows the run: the rest of the run reaches the same result. */
  lemma StepFollowsRun(s: Progress, wl: seq<Edge>, i: nat)
    requires Inv(s) && AllTouch(s.forest, wl) && Completes(s, wl, i) && !Complete(s)
    ensures i < |wl| && AllTouch(Process(s, wl[i]).forest, wl)
    ensures Completes(Process(s, wl[i]), wl, i + 1)
    ensures RunFrom(Process(s, wl[i]), wl, i + 1) == RunFrom(s, wl, i)
  {
    ProcessKeepsTouch(s, wl[i], wl);
  }

  /** Restarting from index 0 after one step with the next index reaches what restarting before it does. */
  lemma StepKeepsRestart(s: Progress, wl: seq<Edge>, k: nat)
    requires Inv(s) && AllTouch(s.forest, wl) && Settled(s, wl, k) && Completes(s, wl, k) && !Complete(s)
    ensures k < |wl| && AllTouch(Process(s, wl[k]).forest, wl)
    ensures Completes(s, wl, 0) && Completes(Process(s, wl[k]), wl, 0)
    ensures RunFrom(Process(s, wl[k]), wl, 0) == RunFrom(s, wl, 0)
  {
    StepFollowsRun(s, wl, k);
    ProcessSettles(s, wl, k);
    RestartAgrees(s, wl, k);
    RestartAgrees(Process(s, wl[k]), wl, k + 1);
  }

  /** A run only appends to the tree: the edges accepted so far stay, in order. */
  lemma {:induction false} RunFromExtends(s: Progress, wl: seq<Edge>, i: nat)
    requires Inv(s) && AllTouch(s.forest, wl) && Completes(s, wl, i)
    ensures s.tree <= RunFrom(s, wl, i).tree
    decreases |wl| - i
  {
    if !Complete(s) {
      ProcessKeepsTouch(s, wl[i], wl);
      ProcessAddsOnlyBridges(s, wl[i]);
      RunFromExtends(Process(s, wl[i]), wl, i + 1);
    }
  }

  /** A run keeps the same cells in the forest, so every worklist edge still has both ends in it. */
  lemma {:induction false} RunFromKeepsCells(s: Progress, wl: seq<Edge>, i: nat)
    requires Inv(s) && AllTouch(s.forest, wl) && Completes(s, wl, i)
    ensures RunFrom(s, wl, i).forest.reps.Keys == s.forest.reps.Keys
    ensures AllTouch(RunFrom(s, wl, i).forest, wl)
    decreases |wl| - i
  {
    if !Complete(s) {
      ProcessKeepsTouch(s, wl[i], wl);
      ProcessKeepsCells(s, wl[i]);
      RunFromKeepsCells(Process(s, wl[i]), wl, i + 1);
    }
  }

  // ---------------------------------------------------------------------
  // De-duplication of the worklist (MazeGenerator.java:178-203)
  // ---------------------------------------------------------------------

  /** The edges of s that are not equal to e, in order. */
  function DropEqual(s: seq<Edge>, e: Edge): seq<Edge>
    decreases |s|
  {
    if s == [] then []
    else DropEqual(s[..|s| - 1], e) + (if EdgeEquals(s[|s| - 1], e) then [] else [s[|s| - 1]])
  }

  lemma DropEqualSnoc(s: seq<Edge>, x: Edge, e: Edge)
    ensures DropEqual(s + [x], e) == DropEqual(s, e) + (if EdgeEquals(x, e) then [] else [x])
  {
    assert (s + [x])[..|s|] == s;
  }

  lemma {:induction false} DropEqualMembers(s: seq<Edge>, e: Edge)
    ensures forall x :: x in DropEqual(s, e) <==> x in s && !EdgeEquals(x, e)
    decreases |s|
  {
    if s != [] {
      DropEqualMembers(s[..|s| - 1], e);
      assert s == s[..|s| - 1] + [s[|s| - 1]];
    }
  }

  /**
    What removeDuplicates returns as written: since contains looks only at
    the first kept edge, the result is the first edge followed by every later
    edge that is not equal to that first edge.
  */
  function KeepUnlikeFirst(s: seq<Edge>): seq<Edge>
  {
    if s == [] then [] else [s[0]] + DropEqual(s[1..], s[0])
  }

  /** contains(list, e): the loop returns during its first iteration, so only list[0] is ever compared. */
  method Contains(list: seq<Edge>, e: Edge) returns (r: bool)
    ensures r <==> |list| > 0 && EdgeEquals(list[0], e)
  {
    for i := 0 to |list|
      invariant i == 0
    {
      return EdgeEquals(list[i], e);
    }
    return false;
  }

  /** removeDuplicates: keeps each edge for which contains(newList, edge) is false. */
  method RemoveDuplicates(worklist: seq<Edge>) returns (newList: seq<Edge>)
    ensures newList == KeepUnlikeFirst(worklist)
  {
    newList := [];
    for i := 0 to |worklist|
      invariant newList == KeepUnlikeFirst(worklist[..i])
    {
      var element := worklist[i];
      var present := Contains(newList, element);
      if !present {
        newList := newList + [element];
      }
      if i > 0 {
        assert worklist[..i + 1][1..] == worklist[..i][1..] + [element];
        DropEqualSnoc(worklist[..i][1..], element, worklist[0]);
      }
    }
    assert worklist[..|worklist|] == worklist;
  }

  /**
    The as-written pass keeps the first edge, drops only edges equal to it,
    keeps every other edge, and so leaves an equal representative of every
    input edge in the list.
  */
  lemma KeepUnlikeFirstSpec(s: seq<Edge>)
    ensures s != [] ==> KeepUnlikeFirst(s)[0] == s[0]
    ensures forall x :: x in KeepUnlikeFirst(s) ==> x in s
    ensures forall x :: x in s ==> x in KeepUnlikeFirst(s) || EdgeEquals(x, s[0])
    ensures forall x :: x in s ==> exists y :: y in KeepUnlikeFirst(s) && EdgeEquals(y, x)
  {
    if s != [] {
      DropEqualMembers(s[1..], s[0]);
      assert s == [s[0]] + s[1..];
      forall x | x in s ensures exists y :: y in KeepUnlikeFirst(s) && EdgeEquals(y, x) {
        if x in KeepUnlikeFirst(s) {
          assert EdgeEquals(x, x);
        } else {
          assert s[0] in KeepUnlikeFirst(s);
        }
      }
    }
  }

  /** Two edges of s are equal under Edge.equals. */
  ghost predicate HasEqualPair(s: seq<Edge>)
  {
    exists i, j :: 0 <= i < j < |s| && EdgeEquals(s[i], s[j])
  }

  /** Some edge of list equals e. */
  predicate AnyEqual(list: seq<Edge>, e: Edge)
  {
    exists i :: 0 <= i < |list| && EdgeEquals(list[i], e)
  }

  /** The intended contains: compares e against every edge of the list. */
  method ContainsAny(list: seq<Edge>, e: Edge) returns (r: bool)
    ensures r <==> AnyEqual(list, e)
  {
    for i := 0 to |list|
      invariant !AnyEqual(list[..i], e)
    {
      if EdgeEquals(list[i], e) {
        assert list[..|list|][i] == list[i];
        return true;
      }
      assert list[..i + 1] == list[..i] + [list[i]];
    }
    assert list[..|list|] == list;
    return false;
  }

  /** The intended de-duplication: keeps an edge only when no kept edge equals it. */
  function Deduplicate(s: seq<Edge>): seq<Edge>
    decreases |s|
  {
    if s == [] then []
    else
      var r := Deduplicate(s[..|s| - 1]);
      if AnyEqual(r, s[|s| - 1]) then r else r + [s[|s| - 1]]
  }

  /** removeDuplicates with the intended contains. */
  method RemoveDuplicatesIntended(worklist: seq<Edge>) returns (newList: seq<Edge>)
    ensures newList == Deduplicate(worklist)
  {
    newList := [];
    for i := 0 to |worklist|
      invariant newList == Deduplicate(worklist[..i])
    {
      var element := worklist[i];
      var present := ContainsAny(newList, element);
      if !present {
        newList := newList + [element];
      }
      assert worklist[..i + 1][..i] == worklist[..i];
    }
    assert worklist[..|worklist|] == worklist;
  }

  /**
    The intended de-duplication leaves no two equal edges, keeps only input
    edges, and keeps an equal representative of every input edge.
  */
  lemma {:induction false} DeduplicateSpec(s: seq<Edge>)
    ensures !HasEqualPair(Deduplicate(s))
    ensures forall x :: x in Deduplicate(s) ==> x in s
    ensures forall k :: 0 <= k < |s| ==> AnyEqual(Deduplicate(s), s[k])
    decreases |s|
  {
    if s != [] {
      var t, e := s[..|s| - 1], s[|s| - 1];
      var r := Deduplicate(t);
      DeduplicateSpec(t);
      assert s == t + [e];
      if !AnyEqual(r, e) {
        forall i, j | 0 <= i < j < |r| + 1 ensures !EdgeEquals((r + [e])[i], (r + [e])[j]) {
          if j == |r| {
            assert (r + [e])[i] == r[i];
          }
        }
        forall k | 0 <= k < |s| ensures AnyEqual(r + [e], s[k]) {
          if k < |t| {
            assert AnyEqual(r, t[k]);
            var i :| 0 <= i < |r| && EdgeEquals(r[i], t[k]);
            assert (r + [e])[i] == r[i];
          } else {
            assert (r + [e])[|r|] == e;
          }
        }
      } else {
        forall k | 0 <= k < |s| ensures AnyEqual(r, s[k]) {
          if k < |t| {
            assert AnyEqual(r, t[k]);
          }
        }
      }
    }
  }

  /** The as-written pass can leave two equal edges: the worklist of a 3-by-1 grid with weights 1 and 2. */
  lemma KeepUnlikeFirstLeavesTwins()
    ensures var a, b, c := Cell(0, 0), Cell(1, 0), Cell(2, 0);
            var wl := [Edge(a, b, 1), Edge(b, a, 1), Edge(b, c, 2), Edge(c, b, 2)];
            && KeepUnlikeFirst(wl) == [Edge(a, b, 1), Edge(b, c, 2), Edge(c, b, 2)]
            && HasEqualPair(KeepUnlikeFirst(wl))
            && Deduplicate(wl) == [Edge(a, b, 1), Edge(b, c, 2)]
  {
    var a, b, c := Cell(0, 0), Cell(1, 0), Cell(2, 0);
    var wl := [Edge(a, b, 1), Edge(b, a, 1), Edge(b, c, 2), Edge(c, b, 2)];
    assert wl[1..] == [Edge(b, a, 1), Edge(b, c, 2), Edge(c, b, 2)];
    DropEqualSnoc([Edge(b, a, 1), Edge(b, c, 2)], Edge(c, b, 2), wl[0]);
    DropEqualSnoc([Edge(b, a, 1)], Edge(b, c, 2), wl[0]);
    DropEqualSnoc([], Edge(b, a, 1), wl[0]);
    assert [Edge(b, a, 1), Edge(b, c, 2), Edge(c, b, 2)] == [Edge(b, a, 1), Edge(b, c, 2)] + [Edge(c, b, 2)];
    assert [Edge(b, a, 1), Edge(b, c, 2)] == [Edge(b, a, 1)] + [Edge(b, c, 2)];
    assert [Edge(b, a, 1)] == [] + [Edge(b, a, 1)];
    var kept := KeepUnlikeFirst(wl);
    assert kept[1] == Edge(b, c, 2) && kept[2] == Edge(c, b, 2);
    assert EdgeEquals(kept[1], kept[2]);
    var d1 := [Edge(a, b, 1)];
    var d2 := [Edge(a, b, 1), Edge(b, c, 2)];
    assert wl[..1] == d1 && wl[..1][..0] == [];
    assert Deduplicate(wl[..1]) == d1;
    assert wl[..2][..1] == wl[..1];
    assert AnyEqual(d1, wl[1]) by { assert EdgeEquals(d1[0], wl[1]); }
    assert Deduplicate(wl[..2]) == d1;
    assert wl[..3][..2] == wl[..2];
    assert !AnyEqual(d1, wl[2]);
    assert Deduplicate(wl[..3]) == d2;
    assert wl[..3] == wl[..|wl| - 1];
    assert AnyEqual(d2, wl[3]) by { assert EdgeEquals(d2[1], wl[3]); }
  }

  // ---------------------------------------------------------------------
  // The Kruskal class
  // ---------------------------------------------------------------------

  /** All out-edges of all cells, cell by cell: the constructor's nested loop. */
  function Flatten(ss: seq<seq<Edge>>): seq<Edge>
    decreases |ss|
  {
    if ss == [] then [] else Flatten(ss[..|ss| - 1]) + ss[|ss| - 1]
  }

  lemma {:induction false} FlattenMembers(ss: seq<seq<Edge>>, e: Edge)
    ensures e in Flatten(ss) <==> exists i :: 0 <= i < |ss| && e in ss[i]
    decreases |ss|
  {
    if ss != [] {
      FlattenMembers(ss[..|ss| - 1], e);
      if e in Flatten(ss[..|ss| - 1]) {
        var i :| 0 <= i < |ss| - 1 && e in ss[..|ss| - 1][i];
        assert e in ss[i];
      }
      if exists i :: 0 <= i < |ss| && e in ss[i] {
        var i :| 0 <= i < |ss| && e in ss[i];
        if i < |ss| - 1 {
          assert e in ss[..|ss| - 1][i];
        }
      }
    }
  }

  /** The worklist the constructor leaves: all out-edges, stably sorted by weight, then de-duplicated as written. */
  function InitialWorklist(g: Graph): seq<Edge>
  {
    KeepUnlikeFirst(SortByWeight(Flatten(g.outEdges)))
  }

  /** Every out-edge runs between cells of the graph, and there is one out-edge list per cell. */
  ghost predicate GraphOk(g: Graph)
  {
    && |g.outEdges| == |g.cells|
    && forall e <- Flatten(g.outEdges) :: e.from in g.cells && e.to in g.cells
  }

  lemma InitialWorklistMembers(g: Graph)
    ensures forall e :: e in InitialWorklist(g) ==> e in Flatten(g.outEdges)
    ensures forall e :: e in Flatten(g.outEdges) ==> exists y :: y in InitialWorklist(g) && EdgeEquals(y, e)
  {
    var sorted := SortByWeight(Flatten(g.outEdges));
    KeepUnlikeFirstSpec(sorted);
    forall e | e in InitialWorklist(g) ensures e in Flatten(g.outEdges) {
      assert e in multiset(sorted);
    }
    forall e | e in Flatten(g.outEdges) ensures exists y :: y in InitialWorklist(g) && EdgeEquals(y, e) {
      assert e in multiset(Flatten(g.outEdges));
      assert e in sorted;
    }
  }

  /** Every out-edge of the graph has an equal edge, joining the same two cells, in the worklist. */
  lemma WorklistJoins(g: Graph, i: nat, e: Edge)
    requires i < |g.outEdges| && e in g.outEdges[i]
    ensures exists y :: y in InitialWorklist(g) && Joins(y, e.from, e.to)
  {
    FlattenMembers(g.outEdges, e);
    InitialWorklistMembers(g);
    var y :| y in InitialWorklist(g) && EdgeEquals(y, e);
  }

  /** Once every worklist edge of a connecting worklist lies inside one component, there is one component. */
  lemma AllJoinedToFirst(s: Progress, wl: seq<Edge>, cells: seq<Cell>)
    requires Inv(s) && AllTouch(s.forest, wl) && Settled(s, wl, |wl|)
    requires ConnectedBy(wl, cells) && |cells| > 0
    requires s.forest.reps.Keys == set c | c in cells
    ensures forall x :: x in s.forest.reps ==> Root(s.forest, x) == Root(s.forest, cells[0])
  {
    forall x | x in s.forest.reps ensures Root(s.forest, x) == Root(s.forest, cells[0]) {
      var i :| 0 <= i < |cells| && cells[i] == x;
      JoinedToFirst(s, wl, cells, i);
    }
  }

  /** The state the constructor leaves: every cell alone, no tree edges. */
  ghost function Start(g: Graph): Progress
  {
    Progress(Singletons(g.cells), [])
  }

  lemma StartOk(g: Graph)
    requires GraphOk(g)
    ensures Inv(Start(g)) && AllTouch(Start(g).forest, InitialWorklist(g))
    ensures Start(g).forest.reps.Keys == set c | c in g.cells
  {
    SingletonsAreRoots(g.cells);
    InitialWorklistMembers(g);
    forall j | 0 <= j < |InitialWorklist(g)| ensures Touches(Start(g).forest, InitialWorklist(g)[j]) {
      assert InitialWorklist(g)[j] in Flatten(g.outEdges);
    }
  }

  /**
    On a graph with at least one cell whose worklist connects every cell,
    runKruskalImmediately reaches a complete spanning tree before the
    worklist runs out.
  */
  lemma KruskalCompletes(g: Graph)
    requires GraphOk(g) && |g.cells| > 0 && ConnectedBy(InitialWorklist(g), g.cells)
    ensures Inv(Start(g)) && AllTouch(Start(g).forest, InitialWorklist(g))
    ensures Completes(Start(g), InitialWorklist(g), 0)
  {
    StartOk(g);
    SettledCompletes(Start(g), InitialWorklist(g), g.cells, 0);
  }

  /**
    Any state over the cells whose first k worklist edges are settled, with a
    worklist that connects the cells, completes its tree before the worklist
    runs out when continued from index k.
  */
  lemma SettledCompletes(s: Progress, wl: seq<Edge>, cells: seq<Cell>, k: nat)
    requires Inv(s) && AllTouch(s.forest, wl) && Settled(s, wl, k)
    requires ConnectedBy(wl, cells) && |cells| > 0 && s.forest.reps.Keys == set c | c in cells
    ensures Completes(s, wl, k)
  {
    if !Completes(s, wl, k) {
      IncompleteRunSettles(s, wl, k);
      var t := RunAll(s, wl, k);
      AllJoinedToFirst(t, wl, cells);
      OneComponentCompletes(t, cells[0]);
      assert false;
    }
  }

  function TotalWeight(s: seq<Edge>): int
    decreases |s|
  {
    if s == [] then 0 else TotalWeight(s[..|s| - 1]) + s[|s| - 1].weight
  }

  lemma TotalWeightSnoc(s: seq<Edge>, e: Edge)
    ensures TotalWeight(s + [e]) == TotalWeight(s) + e.weight
  {
    assert (s + [e])[..|s|] == s;
  }

  /** The weight sum of a tree whose weights lie in 1..m lies between its size and m times its size. */
  lemma {:induction false} TotalWeightBounds(s: seq<Edge>, m: int)
    requires forall e <- s :: 1 <= e.weight <= m
    ensures |s| <= TotalWeight(s) <= m * |s|
    decreases |s|
  {
    if s != [] {
      TotalWeightBounds(s[..|s| - 1], m);
      assert s[|s| - 1] in s;
      assert m * |s| == m * (|s| - 1) + m;
    }
  }

  /** The constructor's first loop: each cell of the list put as its own representative. */
  method SelfRepresentatives(cells: seq<Cell>) returns (reps: map<Cell, Cell>)
    ensures forall c :: c in reps <==> c in cells
    ensures forall c :: c in reps ==> reps[c] == c
    ensures reps == Singletons(cells).reps
  {
    reps := map[];
    for k := 0 to |cells|
      invariant forall c :: c in reps <==> c in cells[..k]
      invariant forall c :: c in reps ==> reps[c] == c
    {
      assert cells[..k + 1] == cells[..k] + [cells[k]];
      reps := reps[cells[k] := cells[k]];
    }
    assert cells[..|cells|] == cells;
    assert reps == Singletons(cells).reps;
  }

  /** The constructor's second loop: every out-edge list appended, cell by cell, in order. */
  method AllOutEdges(outEdges: seq<seq<Edge>>) returns (wl: seq<Edge>)
    ensures wl == Flatten(outEdges)
  {
    wl := [];
    for k := 0 to |outEdges|
      invariant wl == Flatten(outEdges[..k])
    {
      for j := 0 to |outEdges[k]|
        invariant wl == Flatten(outEdges[..k]) + outEdges[k][..j]
      {
        wl := wl + [outEdges[k][j]];
      }
      assert outEdges[k][..|outEdges[k]|] == outEdges[k];
      assert outEdges[..k + 1][..k] == outEdges[..k];
    }
    assert outEdges[..|outEdges|] == outEdges;
  }

  class Kruskal {
    var graph: Graph
    var representatives: map<Cell, Cell>
    ghost var rootOf: map<Cell, Cell>
    ghost var depth: map<Cell, nat>
    var edgesInTree: seq<Edge>
    var worklist: seq<Edge>

    ghost function Links(): Forest
      reads this`representatives, this`rootOf, this`depth
    {
      Forest(representatives, rootOf, depth)
    }

    ghost function State(): Progress
      reads this`representatives, this`rootOf, this`depth, this`edgesInTree
    {
      Progress(Links(), edgesInTree)
    }

    ghost predicate Valid()
      reads this`representatives, this`rootOf, this`depth, this`edgesInTree, this`worklist
    {
      Inv(State()) && AllTouch(Links(), worklist)
    }

    /** Every cell its own representative; the worklist sorted and de-duplicated as written; no tree edges. */
    constructor (graph: Graph)
      requires GraphOk(graph)
      ensures Valid()
      ensures this.graph == graph
      ensures Links() == Singletons(graph.cells)
      ensures edgesInTree == []
      ensures worklist == InitialWorklist(graph)
    {
      this.graph := graph;
      var reps := SelfRepresentatives(graph.cells);
      representatives := reps;
      rootOf := reps;
      depth := map c | c in graph.cells :: 0;
      edgesInTree := [];
      var wl := AllOutEdges(graph.outEdges);
      wl := SortByWeight(wl);
      var deduped := RemoveDuplicates(wl);
      worklist := deduped;
      new;
      assert State() == Start(graph);
      StartOk(graph);
    }

    /** findRepresentative: follows links from node until a cell is its own representative. */
    method FindRepresentative(node: Cell) returns (r: Cell)
      requires ForestOk(Links()) && node in representatives
      ensures r == Root(Links(), node)
      ensures r in representatives && representatives[r] == r
    {
      r := node;
      while representatives[r] != r
        invariant r in representatives && Root(Links(), r) == Root(Links(), node)
        decreases depth[r]
      {
        assert Parent(Links(), r) != r;
        r := representatives[r];
      }
      assert Parent(Links(), r) == r;
    }

    /** unionRepresentative(to, from): the root of `from` now points at the root of `to`, nothing else changes. */
    method UnionRepresentative(to: Cell, from: Cell)
      requires ForestOk(Links()) && to in representatives && from in representatives
      modifies this`representatives, this`rootOf, this`depth
      ensures Links() == Union(old(Links()), to, from)
      ensures representatives == old(representatives)[old(Root(Links(), from)) := old(Root(Links(), to))]
      ensures Root(Links(), to) == Root(Links(), from)
    {
      ghost var g := Union(Links(), to, from);
      UnionJoins(Links(), to, from);
      var rootFrom := FindRepresentative(from);
      var rootTo := FindRepresentative(to);
      representatives := representatives[rootFrom := rootTo];
      rootOf, depth := g.root, g.depth;
    }

    /**
      The step runKruskal and runKruskalImmediately share: an edge whose ends
      have one representative is skipped; otherwise it joins the tree and the
      representative of its `to` end is re-pointed at that of its `from` end.
    */
    method ProcessEdge(currentEdge: Edge)
      requires Valid() && currentEdge in worklist
      modifies this`representatives, this`rootOf, this`depth, this`edgesInTree
      ensures Valid()
      ensures State() == Process(old(State()), currentEdge)
    {
      ghost var s := State();
      assert Touches(s.forest, currentEdge);
      ProcessKeepsTouch(s, currentEdge, worklist);
      var a := FindRepresentative(currentEdge.from);
      var b := FindRepresentative(currentEdge.to);
      if a == b {
        assert Process(s, currentEdge) == s;
      } else {
        ghost var t := Progress(Link(s.forest, b, a), s.tree + [currentEdge]);
        assert Process(s, currentEdge) == t;
        edgesInTree := edgesInTree + [currentEdge];
        var a' := FindRepresentative(currentEdge.from);
        var b' := FindRepresentative(currentEdge.to);
        UnionOfRoots(Links(), a', b');
        UnionRepresentative(a', b');
        assert State() == t;
      }
    }

    /**
      runKruskal(i): while the tree is incomplete, processes worklist[i] and
      returns true; once it is complete, returns false and changes nothing.
    */
    method RunKruskal(currentEdgeCount: nat) returns (more: bool)
      requires Valid()
      requires !Complete(State()) ==> currentEdgeCount < |worklist|
      modifies this`representatives, this`rootOf, this`depth, this`edgesInTree
      ensures Valid()
      ensures more == !Complete(old(State()))
      ensures State() == if more then Process(old(State()), worklist[currentEdgeCount]) else old(State())
    {
      if |edgesInTree| < |representatives| - 1 {
        ProcessEdge(worklist[currentEdgeCount]);
        return true;
      } else {
        return false;
      }
    }

    /** runKruskalImmediately: processes worklist indices 0, 1, 2, ... until the tree is complete. */
    method RunKruskalImmediately()
      requires Valid() && Completes(State(), worklist, 0)
      modifies this`representatives, this`rootOf, this`depth, this`edgesInTree
      ensures Valid() && Complete(State())
      ensures State() == RunFrom(old(State()), worklist, 0)
    {
      var currentEdgeCount := 0;
      while |edgesInTree| < |representatives| - 1
        invariant Valid() && Completes(State(), worklist, currentEdgeCount)
        invariant RunFrom(State(), worklist, currentEdgeCount) == RunFrom(old(State()), worklist, 0)
        decreases |worklist| - currentEdgeCount
      {
        StepFollowsRun(State(), worklist, currentEdgeCount);
        ProcessEdge(worklist[currentEdgeCount]);
        currentEdgeCount := currentEdgeCount + 1;
      }
    }

    /** sumWeights: the total weight of the tree edges. */
    method SumWeights() returns (total: int)
      ensures total == TotalWeight(edgesInTree)
    {
      total := 0;
      for k := 0 to |edgesInTree|
        invariant total == TotalWeight(edgesInTree[..k])
      {
        assert edgesInTree[..k + 1] == edgesInTree[..k] + [edgesInTree[k]];
        TotalWeightSnoc(edgesInTree[..k], edgesInTree[k]);
        total := total + edgesInTree[k].weight;
      }
      assert edgesInTree[..|edgesInTree|] == edgesInTree;
    }
  }
}
