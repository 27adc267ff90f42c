/**
  The union-find structure behind Kruskal (MazeGenerator.java:152, 206-218):
  a HashMap from every cell to its representative. A cell that maps to
  itself is a root; findRepresentative follows links until it reaches one;
  unionRepresentative(to, from) re-points the root of `from` at the root of
  `to`.

  The map alone does not show that link-following stops. The model pairs it
  with two ghost maps: the root each cell's links end at, and the number of
  links from the cell to that root. RootByLinks shows that the ghost root is
  exactly where following the representative links ends.
*/
module UnionFind {
  import opened Grid

  datatype Forest = Forest(reps: map<Cell, Cell>, root: map<Cell, Cell>, depth: map<Cell, nat>)

  /**
    Every link stays inside the map; a root is its own representative, at
    depth 0; any other cell has the root of its representative, one link
    further away.
  */
  ghost predicate ForestOk(f: Forest)
  {
    && (forall c :: c in f.reps ==> c in f.root && c in f.depth)
    && forall c {:trigger Parent(f, c)} :: c in f.reps ==>
         && Parent(f, c) in f.reps
         && (Parent(f, c) == c ==> f.root[c] == c && f.depth[c] == 0)
         && (Parent(f, c) != c ==> f.root[c] == f.root[Parent(f, c)] && f.depth[c] == f.depth[Parent(f, c)] + 1)
  }

  /** The representative the map holds for c. */
  function Parent(f: Forest, c: Cell): Cell
    requires c in f.reps
  {
    f.reps[c]
  }

  /** The cells that are their own representative. */
  ghost function Roots(f: Forest): set<Cell>
  {
    set c | c in f.reps && f.reps[c] == c
  }

  /** The cell reached from c by following k representative links (None once a link is missing). */
  function Follow(reps: map<Cell, Cell>, c: Cell, k: nat): Option<Cell>
    decreases k
  {
    if k == 0 then Some(c)
    else if c in reps then Follow(reps, reps[c], k - 1)
    else None
  }

  /** The root that findRepresentative returns for c. */
  ghost function Root(f: Forest, c: Cell): (r: Cell)
    requires ForestOk(f) && c in f.reps
    ensures r in f.reps && Parent(f, r) == r
  {
    RootIsRoot(f, c);
    f.root[c]
  }

  /** Following the links from c ends at a cell that is its own representative. */
  lemma {:induction false} RootIsRoot(f: Forest, c: Cell)
    requires ForestOk(f) && c in f.reps
    ensures f.root[c] in f.reps && Parent(f, f.root[c]) == f.root[c]
    decreases f.depth[c]
  {
    if Parent(f, c) != c {
      RootIsRoot(f, Parent(f, c));
    }
  }

  /**
    Root(f, c) is where link-following from c stops: depth(c) links lead from
    c to it, and every cell passed before it is not a root.
  */
  lemma {:induction false} RootByLinks(f: Forest, c: Cell)
    requires ForestOk(f) && c in f.reps
    ensures Follow(f.reps, c, f.depth[c]) == Some(Root(f, c))
    ensures forall j :: 0 <= j < f.depth[c] ==>
      Follow(f.reps, c, j).Some? && Follow(f.reps, c, j).value in f.reps
      && f.reps[Follow(f.reps, c, j).value] != Follow(f.reps, c, j).value
    decreases f.depth[c]
  {
    if Parent(f, c) != c {
      var p := Parent(f, c);
      RootByLinks(f, p);
      forall j | 0 <= j < f.depth[c]
        ensures Follow(f.reps, c, j).Some? && Follow(f.reps, c, j).value in f.reps
             && f.reps[Follow(f.reps, c, j).value] != Follow(f.reps, c, j).value
      {
        if j > 0 {
          assert Follow(f.reps, c, j) == Follow(f.reps, p, j - 1);
        }
      }
    }
  }

  /** Finding the representative of a representative gives it back. */
  lemma RootIdempotent(f: Forest, c: Cell)
    requires ForestOk(f) && c in f.reps
    ensures Root(f, Root(f, c)) == Root(f, c)
  {
  }

  /** The initial forest: every cell of the graph is its own representative. */
  function Singletons(cells: seq<Cell>): (f: Forest)
  {
    Forest(map c | c in cells :: c, map c | c in cells :: c, map c | c in cells :: 0)
  }

  /** In the initial forest every cell is a root, and the root of every cell is itself. */
  lemma SingletonsAreRoots(cells: seq<Cell>)
    ensures ForestOk(Singletons(cells))
    ensures Roots(Singletons(cells)) == Singletons(cells).reps.Keys
    ensures forall c :: c in cells ==> Root(Singletons(cells), c) == c
  {
  }

  /** Roots rf and rt are distinct roots of f: the case in which a union links. */
  ghost predicate CanLink(f: Forest, rf: Cell, rt: Cell)
  {
    && ForestOk(f) && rf in f.reps && rt in f.reps
    && Parent(f, rf) == rf && Parent(f, rt) == rt && rf != rt
  }

  /** Root rf now points at root rt; the cells of rf's tree get root rt, one link further away. */
  ghost function Link(f: Forest, rf: Cell, rt: Cell): Forest
    requires CanLink(f, rf, rt)
  {
    Forest(f.reps[rf := rt], Relabel(f.root, rf, rt), Deepen(f.root, f.depth, rf))
  }

  /** The root map after rf's tree moves under rt. */
  ghost function Relabel(root: map<Cell, Cell>, rf: Cell, rt: Cell): (r: map<Cell, Cell>)
    ensures r.Keys == root.Keys
    ensures forall c {:trigger r[c]} :: c in root ==> r[c] == if root[c] == rf then rt else root[c]
  {
    map c | c in root :: if root[c] == rf then rt else root[c]
  }

  /** The depth map after rf's tree moves one link further from its root. */
  ghost function Deepen(root: map<Cell, Cell>, depth: map<Cell, nat>, rf: Cell): (r: map<Cell, nat>)
    ensures r.Keys == depth.Keys
    ensures forall c {:trigger r[c]} :: c in depth ==> r[c] == if c in root && root[c] == rf then depth[c] + 1 else depth[c]
  {
    map c | c in depth :: if c in root && root[c] == rf then depth[c] + 1 else depth[c]
  }

  /**
    unionRepresentative(to, from): the root of `from` now points at the root
    of `to`, unless they are the same; nothing else changes in the map.
  */
  ghost function Union(f: Forest, to: Cell, from: Cell): (g: Forest)
    requires ForestOk(f) && to in f.reps && from in f.reps
    ensures ForestOk(g)
    ensures g.reps == f.reps[Root(f, from) := Root(f, to)]
  {
    var rt, rf := Root(f, to), Root(f, from);
    if rt == rf then
      assert f.reps[rf := rt] == f.reps;
      f
    else
      LinkOk(f, rf, rt);
      Link(f, rf, rt)
  }

  lemma LinkKeepsCell(f: Forest, rf: Cell, rt: Cell, c: Cell)
    requires CanLink(f, rf, rt) && c in f.reps
    ensures var g := Link(f, rf, rt);
      && c in g.reps && c in g.root && c in g.depth
      && Parent(g, c) in g.reps
      && (Parent(g, c) == c ==> g.root[c] == c && g.depth[c] == 0)
      && (Parent(g, c) != c ==> g.root[c] == g.root[Parent(g, c)] && g.depth[c] == g.depth[Parent(g, c)] + 1)
  {
    var g := Link(f, rf, rt);
    assert g.root[rt] == rt && g.depth[rt] == 0;
    if c == rf {
      assert Parent(g, c) == rt && g.root[c] == rt && g.depth[c] == 1;
    } else if Parent(f, c) == c {
      assert Parent(g, c) == c && g.root[c] == c && g.depth[c] == 0;
    } else {
      var p := Parent(f, c);
      assert Parent(g, c) == p;
      LinkShiftsChild(f, rf, rt, c);
    }
  }

  lemma LinkShiftsChild(f: Forest, rf: Cell, rt: Cell, c: Cell)
    requires CanLink(f, rf, rt) && c in f.reps && Parent(f, c) != c
    ensures var g := Link(f, rf, rt); var p := Parent(f, c);
      g.root[c] == g.root[p] && g.depth[c] == g.depth[p] + 1
  {
    var g := Link(f, rf, rt);
    var p := Parent(f, c);
    if f.root[c] == rf {
      assert g.depth[c] == f.depth[c] + 1 && g.depth[p] == f.depth[p] + 1;
    } else {
      assert g.depth[c] == f.depth[c] && g.depth[p] == f.depth[p];
    }
  }

  /** Linking keeps the forest well formed, over the same cells. */
  lemma LinkOk(f: Forest, rf: Cell, rt: Cell)
    requires CanLink(f, rf, rt)
    ensures ForestOk(Link(f, rf, rt))
  {
    var g := Link(f, rf, rt);
    forall c | c in g.reps
      ensures && Parent(g, c) in g.reps
              && (Parent(g, c) == c ==> g.root[c] == c && g.depth[c] == 0)
              && (Parent(g, c) != c ==> g.root[c] == g.root[Parent(g, c)] && g.depth[c] == g.depth[Parent(g, c)] + 1)
    {
      LinkKeepsCell(f, rf, rt, c);
    }
  }

  /** After linking rf below rt, the cells of rf's tree have root rt; every other cell keeps its root. */
  lemma LinkMerges(f: Forest, rf: Cell, rt: Cell, c: Cell)
    requires CanLink(f, rf, rt) && c in f.reps
    ensures ForestOk(Link(f, rf, rt))
    ensures Root(Link(f, rf, rt), c) == if Root(f, c) == rf then rt else Root(f, c)
  {
    LinkOk(f, rf, rt);
  }

  /** Linking removes exactly one root, rf. */
  lemma LinkRemovesRoot(f: Forest, rf: Cell, rt: Cell)
    requires CanLink(f, rf, rt)
    ensures Roots(Link(f, rf, rt)) == Roots(f) - {rf}
    ensures |Roots(Link(f, rf, rt))| == |Roots(f)| - 1
  {
    var g := Link(f, rf, rt);
    forall c ensures c in Roots(g) <==> c in Roots(f) - {rf} {
      if c in f.reps && c != rf {
        assert g.reps[c] == f.reps[c];
      }
    }
    assert rf in Roots(f);
  }

  /** A union of two different roots links the second below the first. */
  lemma UnionOfRoots(f: Forest, to: Cell, from: Cell)
    requires CanLink(f, from, to)
    ensures Union(f, to, from) == Link(f, from, to)
  {
    assert Root(f, to) == to && Root(f, from) == from;
  }

  /** After a union, a cell whose root was from's root has to's root; every other cell keeps its root. */
  lemma UnionMerges(f: Forest, to: Cell, from: Cell, c: Cell)
    requires ForestOk(f) && to in f.reps && from in f.reps && c in f.reps
    ensures Root(Union(f, to, from), c) == if Root(f, c) == Root(f, from) then Root(f, to) else Root(f, c)
  {
    if Root(f, to) != Root(f, from) {
      LinkMerges(f, Root(f, from), Root(f, to), c);
    }
  }

  /** After a union, `to` and `from` share the root `to` had. */
  lemma UnionJoins(f: Forest, to: Cell, from: Cell)
    requires ForestOk(f) && to in f.reps && from in f.reps
    ensures Root(Union(f, to, from), to) == Root(Union(f, to, from), from) == Root(f, to)
  {
    UnionMerges(f, to, from, to);
    UnionMerges(f, to, from, from);
  }

  /** Joining two different components removes exactly one root. */
  lemma UnionRemovesOneRoot(f: Forest, to: Cell, from: Cell)
    requires ForestOk(f) && to in f.reps && from in f.reps
    requires Root(f, to) != Root(f, from)
    ensures Roots(Union(f, to, from)) == Roots(f) - {Root(f, from)}
    ensures |Roots(Union(f, to, from))| == |Roots(f)| - 1
  {
    LinkRemovesRoot(f, Root(f, from), Root(f, to));
  }
}
