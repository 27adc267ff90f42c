/**
  Sorting edges by weight: Collections.sort with the SortEdgeByWeight
  comparator (MazeGenerator.java), used by the Kruskal constructor and by
  Cell.sortOutEdges. Java's list sort is a stable merge sort; the model is a
  stable insertion sort with the same contract: ascending by weight, a
  permutation of its input, and edges of equal weight kept in input order.
*/
module EdgeSort {
  import opened Grid

  /** The weight of the i-th edge; naming it keeps the sortedness quantifier to sorting proofs. */
  function WeightAt(s: seq<Edge>, i: nat): int
    requires i < |s|
  {
    s[i].weight
  }

  ghost predicate SortedByWeight(s: seq<Edge>)
  {
    forall i, j :: 0 <= i < j < |s| ==> WeightAt(s, i) <= WeightAt(s, j)
  }

  lemma SortedFront(t: seq<Edge>)
    requires SortedByWeight(t) && t != []
    ensures SortedByWeight(t[..|t| - 1])
  {
    var t' := t[..|t| - 1];
    forall i, j | 0 <= i < j < |t'| ensures WeightAt(t', i) <= WeightAt(t', j) {
      assert WeightAt(t, i) <= WeightAt(t, j);
    }
  }

  lemma SortedSnoc(t: seq<Edge>, e: Edge)
    requires SortedByWeight(t) && (t == [] || t[|t| - 1].weight <= e.weight)
    ensures SortedByWeight(t + [e])
  {
    forall i, j | 0 <= i < j < |t| + 1 ensures WeightAt(t + [e], i) <= WeightAt(t + [e], j) {
      if j < |t| {
        assert WeightAt(t, i) <= WeightAt(t, j);
      } else if i < |t| - 1 {
        assert WeightAt(t, i) <= WeightAt(t, |t| - 1);
      }
    }
  }

  /** The edges of s whose weight is w, in their order in s. */
  function WithWeight(s: seq<Edge>, w: int): seq<Edge>
    decreases |s|
  {
    if s == [] then []
    else WithWeight(s[..|s| - 1], w) + (if s[|s| - 1].weight == w then [s[|s| - 1]] else [])
  }

  lemma WithWeightSnoc(s: seq<Edge>, e: Edge, w: int)
    ensures WithWeight(s + [e], w) == WithWeight(s, w) + (if e.weight == w then [e] else [])
  {
    assert (s + [e])[..|s|] == s;
  }

  /** Places e into t after the last edge whose weight does not exceed e's. */
  function Insert(t: seq<Edge>, e: Edge): seq<Edge>
    decreases |t|
  {
    if t == [] || t[|t| - 1].weight <= e.weight then t + [e]
    else Insert(t[..|t| - 1], e) + [t[|t| - 1]]
  }

  lemma {:induction false} InsertPermutes(t: seq<Edge>, e: Edge)
    ensures multiset(Insert(t, e)) == multiset(t) + multiset{e}
    decreases |t|
  {
    if !(t == [] || t[|t| - 1].weight <= e.weight) {
      var t', l := t[..|t| - 1], t[|t| - 1];
      assert t == t' + [l];
      InsertPermutes(t', e);
    }
  }

  lemma {:induction false} InsertSorted(t: seq<Edge>, e: Edge)
    requires SortedByWeight(t)
    ensures SortedByWeight(Insert(t, e))
    decreases |t|
  {
    if t == [] || t[|t| - 1].weight <= e.weight {
      SortedSnoc(t, e);
    } else {
      var t', l := t[..|t| - 1], t[|t| - 1];
      assert t == t' + [l];
      SortedFront(t);
      InsertSorted(t', e);
      InsertPermutes(t', e);
      var u := Insert(t', e);
      assert Insert(t, e) == u + [l];
      forall x | x in u ensures x.weight <= l.weight {
        assert x in multiset(u);
        if x != e {
          assert x in multiset(t');
          var k :| 0 <= k < |t'| && t'[k] == x;
          assert t[k] == x && WeightAt(t, k) <= WeightAt(t, |t| - 1);
        }
      }
      forall i, j | 0 <= i < j < |u| + 1 ensures WeightAt(u + [l], i) <= WeightAt(u + [l], j) {
        if j == |u| {
          assert (u + [l])[i] in u;
        } else {
          assert WeightAt(u, i) <= WeightAt(u, j);
        }
      }
    }
  }

  lemma {:induction false} InsertKeepsOrder(t: seq<Edge>, e: Edge, w: int)
    requires SortedByWeight(t)
    ensures WithWeight(Insert(t, e), w) == WithWeight(t, w) + (if e.weight == w then [e] else [])
    decreases |t|
  {
    if t == [] || t[|t| - 1].weight <= e.weight {
      WithWeightSnoc(t, e, w);
    } else {
      var t', l := t[..|t| - 1], t[|t| - 1];
      assert t == t' + [l];
      SortedFront(t);
      InsertKeepsOrder(t', e, w);
      var u := Insert(t', e);
      assert Insert(t, e) == u + [l];
      WithWeightSnoc(u, l, w);
      WithWeightSnoc(t', l, w);
    }
  }

  /** Collections.sort(list, new SortEdgeByWeight()): stable, ascending by weight. */
  function SortByWeight(s: seq<Edge>): (r: seq<Edge>)
    ensures SortedByWeight(r)
    ensures multiset(r) == multiset(s)
    ensures forall w :: WithWeight(r, w) == WithWeight(s, w)
    decreases |s|
  {
    if s == [] then []
    else
      var t := SortByWeight(s[..|s| - 1]);
      var e := s[|s| - 1];
      InsertSorted(t, e);
      InsertPermutes(t, e);
      assert s == s[..|s| - 1] + [e];
      assert forall w :: WithWeight(Insert(t, e), w) == WithWeight(s, w) by {
        forall w ensures WithWeight(Insert(t, e), w) == WithWeight(s, w) {
          InsertKeepsOrder(t, e, w);
          WithWeightSnoc(s[..|s| - 1], e, w);
        }
      }
      Insert(t, s[|s| - 1])
  }

  /** Sorting a list already in weight order leaves it unchanged. */
  lemma {:induction false} SortKeepsSorted(s: seq<Edge>)
    requires SortedByWeight(s)
    ensures SortByWeight(s) == s
    decreases |s|
  {
    if s != [] {
      var t := s[..|s| - 1];
      SortedFront(s);
      SortKeepsSorted(t);
      if |t| > 0 {
        assert WeightAt(s, |t| - 1) <= WeightAt(s, |t|);
      }
      assert s == t + [s[|s| - 1]];
    }
  }

  /** Sorting twice is sorting once. */
  lemma SortIdempotent(s: seq<Edge>)
    ensures SortByWeight(SortByWeight(s)) == SortByWeight(s)
  {
    SortKeepsSorted(SortByWeight(s));
  }

  /** The sorted order agrees with the comparator: no later edge compares below an earlier one. */
  lemma SortAgreesWithComparator(s: seq<Edge>)
    ensures forall i, j :: 0 <= i < j < |SortByWeight(s)| ==> CompareByWeight(SortByWeight(s)[i], SortByWeight(s)[j]) <= 0
  {
    var r := SortByWeight(s);
    forall i, j | 0 <= i < j < |r| ensures CompareByWeight(r[i], r[j]) <= 0 {
      assert WeightAt(r, i) <= WeightAt(r, j);
    }
  }

  /** Cell.sortOutEdges: the out-edges of cell i are replaced by their stable sort, and returned. */
  function SortOutEdges(g: Graph, i: nat): (r: (Graph, seq<Edge>))
    requires i < |g.outEdges|
    ensures r.0.cells == g.cells && |r.0.outEdges| == |g.outEdges|
    ensures r.0.outEdges[i] == r.1
    ensures forall j :: 0 <= j < |g.outEdges| && j != i ==> r.0.outEdges[j] == g.outEdges[j]
    ensures SortedByWeight(r.1) && multiset(r.1) == multiset(g.outEdges[i])
    ensures forall w :: WithWeight(r.1, w) == WithWeight(g.outEdges[i], w)
  {
    var sorted := SortByWeight(g.outEdges[i]);
    (Graph(g.cells, g.outEdges[i := sorted]), sorted)
  }
}
