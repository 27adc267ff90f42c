/**
  Value semantics of the maze's cells and edges (MazeGenerator.java).

  A Cell is identified by its grid coordinates: the source overrides equals
  and hashCode so that two Cell objects with the same (x, y) are the same key
  in every HashMap, list search and comparison. Modelling Cell as a datatype
  gives exactly that equality. The per-cell mutable parts of the source's
  Cell (direction slots, neighbour list, out-edges) are held by their owners
  (Graph, MazeWorld) as maps and sequences keyed by the cell value.
*/
module Grid {

  /** A reference that may be null. */
  datatype Option<T> = None | Some(value: T)

  datatype Cell = Cell(x: int, y: int)

  /** A directed edge with a weight; equality ignores orientation and weight. */
  datatype Edge = Edge(from: Cell, to: Cell, weight: int)

  /** The graph: all cells in row-major order, and the out-edges of cells[i] at outEdges[i]. */
  datatype Graph = Graph(cells: seq<Cell>, outEdges: seq<seq<Edge>>)

  /** Cell.equals: coordinate equality. */
  function CellEquals(a: Cell, b: Cell): (r: bool)
    ensures r <==> a == b
  {
    a.x == b.x && a.y == b.y
  }

  /** Cell.hashCode. */
  function CellHash(c: Cell): int
  {
    c.x + c.y * 10000
  }

  /** Equal cells hash alike, and on any grid narrower than 10000 columns the hash tells cells apart. */
  lemma CellHashConsistent(a: Cell, b: Cell)
    ensures CellEquals(a, b) ==> CellHash(a) == CellHash(b)
    ensures 0 <= a.x < 10000 && 0 <= b.x < 10000 && CellHash(a) == CellHash(b) ==> CellEquals(a, b)
  {
  }

  /** The two cells are grid neighbours: one column or one row apart. */
  predicate Adjacent(a: Cell, b: Cell)
  {
    || (a.y == b.y && (a.x == b.x + 1 || b.x == a.x + 1))
    || (a.x == b.x && (a.y == b.y + 1 || b.y == a.y + 1))
  }

  /** The edge joins a and b, in either orientation. */
  predicate Joins(e: Edge, a: Cell, b: Cell)
  {
    (e.from == a && e.to == b) || (e.from == b && e.to == a)
  }

  /** Edge.equals: same endpoints in the same or the opposite orientation; weights are ignored. */
  function EdgeEquals(e: Edge, f: Edge): (r: bool)
    ensures r <==> Joins(e, f.from, f.to)
  {
    (CellEquals(e.from, f.from) && CellEquals(e.to, f.to))
      || (CellEquals(e.from, f.to) && CellEquals(e.to, f.from))
  }

  /** Edge.hashCode: the sum of the endpoint hashes, so it ignores orientation. */
  function EdgeHash(e: Edge): int
  {
    CellHash(e.from) + CellHash(e.to)
  }

  /** Edge(a, b, w) equals Edge(b, a, w') for all weights, and Edge equality is an equivalence. */
  lemma EdgeEqualsIgnoresOrientation(a: Cell, b: Cell, w: int, w': int)
    ensures EdgeEquals(Edge(a, b, w), Edge(b, a, w'))
    ensures EdgeEquals(Edge(a, b, w), Edge(a, b, w'))
  {
  }

  lemma EdgeEqualsIsEquivalence(e: Edge, f: Edge, g: Edge)
    ensures EdgeEquals(e, e)
    ensures EdgeEquals(e, f) ==> EdgeEquals(f, e)
    ensures EdgeEquals(e, f) && EdgeEquals(f, g) ==> EdgeEquals(e, g)
  {
  }

  /** hashCode is consistent with equals. */
  lemma EdgeHashConsistent(e: Edge, f: Edge)
    ensures EdgeEquals(e, f) ==> EdgeHash(e) == EdgeHash(f)
  {
  }

  /** SortEdgeByWeight.compare: negative, zero or positive as a's weight is below, equal to or above b's. */
  function CompareByWeight(a: Edge, b: Edge): (r: int)
    ensures r < 0 <==> a.weight < b.weight
    ensures r == 0 <==> a.weight == b.weight
    ensures r > 0 <==> a.weight > b.weight
  {
    a.weight - b.weight
  }
}
