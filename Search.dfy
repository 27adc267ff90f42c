/*
  The search and backtracking of the maze (MazeWorld.java:351-382, 434-534) on
  values. A search keeps a worklist (pending), the cells already expanded
  (alreadySeen, newest first) and the predecessor map cameFromEdge. One step
  pops a cell; the goal stops the search, a seen cell is dropped, and any
  other cell is expanded: its unseen neighbours are added to the worklist with
  the cell recorded as their predecessor. The MazeWorld methods are proved
  against Step and BackStep; the lemmas here state what the search guarantees.
*/
module Search {
  import opened Grid
  import opened UnionFind
  import opened Passages

  predicate NoDuplicates(s: seq<Cell>)
  {
    forall i, j :: 0 <= i < j < |s| ==> s[i] != s[j]
  }

  /** The cells of ns that are not in seen, in order. */
  function Unseen(ns: seq<Cell>, seen: seq<Cell>): seq<Cell>
    decreases |ns|
  {
    if ns == [] then []
    else Unseen(ns[..|ns| - 1], seen) + (if ns[|ns| - 1] in seen then [] else [ns[|ns| - 1]])
  }

  lemma {:induction false} UnseenMembers(ns: seq<Cell>, seen: seq<Cell>)
    ensures forall n :: n in Unseen(ns, seen) <==> n in ns && n !in seen
    decreases |ns|
  {
    if ns != [] {
      var t := ns[..|ns| - 1];
      UnseenMembers(t, seen);
      assert ns == t + [ns[|ns| - 1]];
    }
  }

  function Reverse(s: seq<Cell>): seq<Cell>
    decreases |s|
  {
    if s == [] then [] else [s[|s| - 1]] + Reverse(s[..|s| - 1])
  }

  lemma {:induction false} ReverseMembers(s: seq<Cell>)
    ensures |Reverse(s)| == |s|
    ensures forall i :: 0 <= i < |s| ==> Reverse(s)[i] == s[|s| - 1 - i]
    decreases |s|
  {
    if s != [] {
      ReverseMembers(s[..|s| - 1]);
    }
  }

  /** cameFromEdge after put(n, next) for each n of ns in turn. */
  function Record(cf: map<Cell, Cell>, ns: seq<Cell>, next: Cell): map<Cell, Cell>
    decreases |ns|
  {
    if ns == [] then cf else Record(cf, ns[..|ns| - 1], next)[ns[|ns| - 1] := next]
  }

  /** put overwrites: every recorded cell now has next as its predecessor; the others keep theirs. */
  lemma {:induction false} RecordSpec(cf: map<Cell, Cell>, ns: seq<Cell>, next: Cell)
    ensures forall n :: n in Record(cf, ns, next) <==> n in cf || n in ns
    ensures forall n :: n in ns ==> Record(cf, ns, next)[n] == next
    ensures forall n :: n in cf && n !in ns ==> Record(cf, ns, next)[n] == cf[n]
    decreases |ns|
  {
    if ns != [] {
      var t := ns[..|ns| - 1];
      RecordSpec(cf, t, next);
      assert ns == t + [ns[|ns| - 1]];
    }
  }

  /** The search state: the worklist's contents, alreadySeen (front first) and cameFromEdge. */
  datatype Frontier = Frontier(pending: seq<Cell>, seen: seq<Cell>, cameFrom: map<Cell, Cell>)
  /** Looking at one more neighbour n: it is added to the unseen ones when not seen, pushed on the reversed list's front, and recorded. */
  lemma UnseenSnoc(ns: seq<Cell>, k: nat, seen: seq<Cell>, cf: map<Cell, Cell>, next: Cell, rest: seq<Cell>)
    requires k < |ns|
    ensures var u, n := Unseen(ns[..k], seen), ns[k];
      && Unseen(ns[..k + 1], seen) == (if n in seen then u else u + [n])
      && Reverse(u + [n]) + rest == [n] + (Reverse(u) + rest)
      && rest + (u + [n]) == (rest + u) + [n]
      && Record(cf, u + [n], next) == Record(cf, u, next)[n := next]
  {
    var u, n := Unseen(ns[..k], seen), ns[k];
    assert ns[..k + 1][..k] == ns[..k];
    assert (u + [n])[..|u|] == u;
    assert Reverse(u + [n]) == [n] + Reverse(u);
    Assoc([n], Reverse(u), rest);
    Assoc(rest, u, [n]);
  }

  lemma Assoc(a: seq<Cell>, b: seq<Cell>, c: seq<Cell>)
    ensures (a + b) + c == a + (b + c)
  {
  }


  /**
    Expanding next: its unseen neighbours are added to the worklist (each one
    pushed on the front of a Stack, so they come out in reverse; appended to
    the back of a Queue), each recorded with next as predecessor, and next is
    added to the front of alreadySeen.
  */
  function Expand(f: Frontier, nb: map<Cell, seq<Cell>>, next: Cell, lifo: bool): Frontier
  {
    var ns := Unseen(NeighborsOf(nb, next), f.seen);
    Frontier(if lifo then Reverse(ns) + f.pending else f.pending + ns,
             [next] + f.seen,
             Record(f.cameFrom, ns, next))
  }

  /** A step expands the popped cell when it is neither the goal nor seen before. */
  predicate Expands(f: Frontier, to: Cell)
  {
    f.pending != [] && f.pending[0] != to && f.pending[0] !in f.seen
  }

  /** One step of hasPathBetweenDFS (lifo) or hasPathBetweenBFS (fifo) on a non-empty worklist. */
  function Step(f: Frontier, nb: map<Cell, seq<Cell>>, to: Cell, lifo: bool): Frontier
    requires f.pending != []
  {
    var next := f.pending[0];
    var rest := f.(pending := f.pending[1..]);
    if next == to || next in f.seen then rest else Expand(rest, nb, next, lifo)
  }

  // ---------------------------------------------------------------------
  // The search invariant
  // ---------------------------------------------------------------------

  /**
    What every step keeps, for a search that started from `start`:
    alreadySeen has no duplicates and ends with start once anything is seen;
    start has no predecessor; every predecessor is a seen cell that was seen
    before the cell itself and had it as a neighbour; and every queued cell
    is start or has a predecessor.
  */
  ghost predicate SearchOk(start: Cell, f: Frontier, nb: map<Cell, seq<Cell>>)
  {
    Explored(start, f.seen, f.cameFrom, nb) && Queued(start, f.cameFrom, f.pending)
  }

  ghost predicate Explored(start: Cell, seen: seq<Cell>, cf: map<Cell, Cell>, nb: map<Cell, seq<Cell>>)
  {
    && NoDuplicates(seen)
    && (seen == [] ==> cf == map[])
    && (seen != [] ==> seen[|seen| - 1] == start)
    && start !in cf
    && (forall n :: n in cf ==> cf[n] in seen && n in NeighborsOf(nb, cf[n]))
    && Ranked(start, seen, cf)
  }

  /** Every cell in a worklist is the start or has a predecessor. */
  ghost predicate Queued(start: Cell, cf: map<Cell, Cell>, pending: seq<Cell>)
  {
    forall c :: c in pending ==> c == start || c in cf
  }

  /** No cell is its own neighbour; the neighbour lists of a grid maze satisfy this. */
  ghost predicate Irreflexive(nb: map<Cell, seq<Cell>>)
  {
    forall c :: c !in NeighborsOf(nb, c)
  }

  lemma OpenIsIrreflexive(tree: seq<Edge>, nb: map<Cell, seq<Cell>>)
    requires NeighborsOpen(tree, nb)
    ensures Irreflexive(nb)
  {
    forall c ensures c !in NeighborsOf(nb, c) {
    }
  }

  /** A worklist stays queued when predecessors are only added. */
  lemma QueuedGrows(start: Cell, cf: map<Cell, Cell>, cf': map<Cell, Cell>, pending: seq<Cell>)
    requires Queued(start, cf, pending) && cf.Keys <= cf'.Keys
    ensures Queued(start, cf', pending)
  {
  }

  /** Appending to neighbour lists keeps what the search has explored consistent. */
  lemma ExploredGrows(start: Cell, seen: seq<Cell>, cf: map<Cell, Cell>, nb: map<Cell, seq<Cell>>, nb': map<Cell, seq<Cell>>)
    requires Explored(start, seen, cf, nb)
    requires forall c, n :: n in NeighborsOf(nb, c) ==> n in NeighborsOf(nb', c)
    ensures Explored(start, seen, cf, nb')
  {
  }

  /** The start of a new search: only start queued, nothing seen. */
  lemma FreshSearchOk(start: Cell, pending: seq<Cell>, nb: map<Cell, seq<Cell>>)
    requires forall c :: c in pending ==> c == start
    ensures SearchOk(start, Frontier(pending, [], map[]), nb)
  {
  }

  /** The worklist after an expansion holds the old cells and the newly recorded ones. */
  lemma ExpandQueues(start: Cell, f: Frontier, nb: map<Cell, seq<Cell>>, next: Cell, lifo: bool)
    requires Queued(start, f.cameFrom, f.pending)
    ensures Queued(start, Expand(f, nb, next, lifo).cameFrom, Expand(f, nb, next, lifo).pending)
  {
    var ns := Unseen(NeighborsOf(nb, next), f.seen);
    RecordSpec(f.cameFrom, ns, next);
    var g := Expand(f, nb, next, lifo);
    if lifo {
      ReverseMembers(ns);
      forall c | c in g.pending ensures c == start || c in g.cameFrom {
        if c in Reverse(ns) {
          var i :| 0 <= i < |ns| && Reverse(ns)[i] == c;
          assert ns[|ns| - 1 - i] == c;
        }
      }
    }
  }

  /** Every seen cell other than start has a predecessor that was seen before it. */
  ghost predicate Ranked(start: Cell, seen: seq<Cell>, cf: map<Cell, Cell>)
  {
    forall i :: 0 <= i < |seen| && seen[i] != start ==> seen[i] in cf && cf[seen[i]] in seen[i + 1..]
  }

  /** Seeing one more cell, whose predecessor was already seen, keeps the order of predecessors. */
  lemma RankedFront(start: Cell, seen: seq<Cell>, cf: map<Cell, Cell>, cf': map<Cell, Cell>, next: Cell)
    requires Ranked(start, seen, cf)
    requires next != start ==> next in cf && cf[next] in seen
    requires forall c :: c in cf && (c in seen || c == next) ==> c in cf' && cf'[c] == cf[c]
    ensures Ranked(start, [next] + seen, cf')
  {
    var g := [next] + seen;
    forall i | 0 <= i < |g| && g[i] != start ensures g[i] in cf' && cf'[g[i]] in g[i + 1..] {
      if i == 0 {
        assert g[1..] == seen;
        assert cf'[next] == cf[next];
      } else {
        var j := i - 1;
        assert g[i] == seen[j] && g[i + 1..] == seen[j + 1..];
        assert seen[j] in cf && cf[seen[j]] in seen[j + 1..];
        assert seen[j] in seen;
        assert cf'[seen[j]] == cf[seen[j]];
      }
    }
  }

  lemma ExpandKeepsOk(start: Cell, f: Frontier, nb: map<Cell, seq<Cell>>, next: Cell, lifo: bool)
    requires SearchOk(start, f, nb) && Irreflexive(nb)
    requires next !in f.seen && (next == start || next in f.cameFrom)
    ensures SearchOk(start, Expand(f, nb, next, lifo), nb)
  {
    var ns := Unseen(NeighborsOf(nb, next), f.seen);
    UnseenMembers(NeighborsOf(nb, next), f.seen);
    RecordSpec(f.cameFrom, ns, next);
    assert next !in NeighborsOf(nb, next);
    ExpandQueues(start, f, nb, next, lifo);
    RankedFront(start, f.seen, f.cameFrom, Expand(f, nb, next, lifo).cameFrom, next);
  }

  /** Every step keeps the search invariant. */
  lemma StepKeepsOk(start: Cell, f: Frontier, nb: map<Cell, seq<Cell>>, to: Cell, lifo: bool)
    requires SearchOk(start, f, nb) && Irreflexive(nb) && f.pending != []
    ensures SearchOk(start, Step(f, nb, to, lifo), nb)
  {
    var next := f.pending[0];
    var rest := f.(pending := f.pending[1..]);
    assert SearchOk(start, rest, nb);
    if next != to && next !in f.seen {
      ExpandKeepsOk(start, rest, nb, next, lifo);
    }
  }

  /** Each expansion adds exactly one cell to alreadySeen; other steps leave it alone. */
  lemma StepGrowsSeen(f: Frontier, nb: map<Cell, seq<Cell>>, to: Cell, lifo: bool)
    requires f.pending != []
    ensures |Step(f, nb, to, lifo).seen| == |f.seen| + (if Expands(f, to) then 1 else 0)
    ensures Step(f, nb, to, lifo).cameFrom.Keys >= f.cameFrom.Keys
  {
    if Expands(f, to) {
      RecordSpec(f.cameFrom, Unseen(NeighborsOf(nb, f.pending[0]), f.seen), f.pending[0]);
    }
  }

  // ---------------------------------------------------------------------
  // What a search that reaches the goal guarantees
  // ---------------------------------------------------------------------

  /** Following predecessors from a seen cell reaches start, through cells that each had the next one as a neighbour. */
  lemma {:induction false} SeenLeadsToStart(start: Cell, f: Frontier, nb: map<Cell, seq<Cell>>, i: nat)
    requires SearchOk(start, f, nb) && i < |f.seen|
    ensures exists k: nat :: k <= |f.seen| - i && Follow(f.cameFrom, f.seen[i], k) == Some(start)
    decreases |f.seen| - i
  {
    var c := f.seen[i];
    if c == start {
      assert Follow(f.cameFrom, c, 0) == Some(start);
    } else {
      var p := f.cameFrom[c];
      var j :| i + 1 <= j < |f.seen| && f.seen[j] == p by {
        assert p in f.seen[i + 1..];
        var m :| 0 <= m < |f.seen[i + 1..]| && f.seen[i + 1..][m] == p;
        assert f.seen[i + 1 + m] == p;
      }
      SeenLeadsToStart(start, f, nb, j);
      var k: nat :| k <= |f.seen| - j && Follow(f.cameFrom, f.seen[j], k) == Some(start);
      assert Follow(f.cameFrom, c, k + 1) == Some(start);
    }
  }

  /**
    When the goal is popped, the predecessor map leads back from it to the
    start: backtracking from the goal is a walk to the start.
  */
  lemma GoalLeadsToStart(start: Cell, f: Frontier, nb: map<Cell, seq<Cell>>, to: Cell)
    requires SearchOk(start, f, nb) && f.pending != [] && f.pending[0] == to
    ensures exists k: nat :: k <= |f.seen| + 1 && Follow(f.cameFrom, to, k) == Some(start)
  {
    if to == start {
      assert Follow(f.cameFrom, to, 0) == Some(start);
    } else {
      assert to in f.pending;
      var p := f.cameFrom[to];
      var j :| 0 <= j < |f.seen| && f.seen[j] == p;
      SeenLeadsToStart(start, f, nb, j);
      var k: nat :| k <= |f.seen| - j && Follow(f.cameFrom, p, k) == Some(start);
      assert Follow(f.cameFrom, to, k + 1) == Some(start);
    }
  }

  /** Every predecessor link of the search is an open passage of the maze. */
  lemma LinksAreOpen(start: Cell, f: Frontier, nb: map<Cell, seq<Cell>>, tree: seq<Edge>, n: Cell)
    requires SearchOk(start, f, nb) && NeighborsOpen(tree, nb) && n in f.cameFrom
    ensures Passage(tree, f.cameFrom[n], n) && Adjacent(f.cameFrom[n], n)
  {
  }

  // ---------------------------------------------------------------------
  // What a search that runs dry guarantees
  // ---------------------------------------------------------------------

  /** Every neighbour of a seen cell is seen or still waiting in the worklist. */
  ghost predicate Covered(f: Frontier, nb: map<Cell, seq<Cell>>)
  {
    forall c, n :: c in f.seen && n in NeighborsOf(nb, c) ==> n in f.seen || n in f.pending
  }

  /** A step that does not pop the goal keeps every neighbour of a seen cell seen or waiting. */
  lemma StepKeepsCovered(f: Frontier, nb: map<Cell, seq<Cell>>, to: Cell, lifo: bool)
    requires Covered(f, nb) && f.pending != [] && f.pending[0] != to
    ensures Covered(Step(f, nb, to, lifo), nb)
  {
    var next := f.pending[0];
    if next in f.seen {
      var g := Step(f, nb, to, lifo);
      forall c, n | c in g.seen && n in NeighborsOf(nb, c) ensures n in g.seen || n in g.pending {
        if n !in f.seen {
          assert n in f.pending[1..];
        }
      }
    } else {
      ExpandKeepsCovered(f, nb, lifo);
    }
  }

  /** Reversal keeps every element. */
  lemma ReverseHas(s: seq<Cell>)
    ensures forall x :: x in s ==> x in Reverse(s)
  {
    ReverseMembers(s);
    forall x | x in s ensures x in Reverse(s) {
      var i :| 0 <= i < |s| && s[i] == x;
      assert Reverse(s)[|s| - 1 - i] == x;
    }
  }

  /** Expanding an unseen head of the worklist keeps every neighbour of a seen cell seen or waiting. */
  lemma ExpandKeepsCovered(f: Frontier, nb: map<Cell, seq<Cell>>, lifo: bool)
    requires Covered(f, nb) && f.pending != [] && f.pending[0] !in f.seen
    ensures Covered(Expand(f.(pending := f.pending[1..]), nb, f.pending[0], lifo), nb)
  {
    var next, rest := f.pending[0], f.pending[1..];
    var ns := Unseen(NeighborsOf(nb, next), f.seen);
    var added := if lifo then Reverse(ns) else ns;
    UnseenMembers(NeighborsOf(nb, next), f.seen);
    ReverseHas(ns);
    assert forall n :: n in NeighborsOf(nb, next) && n !in f.seen ==> n in added;
    var g := Expand(f.(pending := rest), nb, next, lifo);
    assert g.seen == [next] + f.seen;
    assert g.pending == if lifo then added + rest else rest + added;
    forall c, n | c in g.seen && n in NeighborsOf(nb, c) ensures n in g.seen || n in g.pending {
      if n != next && n !in f.seen && c != next {
        assert n in rest;
      }
    }
  }

  /** A walk along neighbour lists. */
  ghost predicate Walk(nb: map<Cell, seq<Cell>>, w: seq<Cell>)
  {
    forall i :: 0 <= i < |w| - 1 ==> w[i + 1] in NeighborsOf(nb, w[i])
  }

  /** Once the worklist is empty, a walk that starts at a seen cell never leaves alreadySeen. */
  lemma {:induction false} WalkStaysSeen(f: Frontier, nb: map<Cell, seq<Cell>>, w: seq<Cell>, i: nat)
    requires Covered(f, nb) && f.pending == [] && Walk(nb, w) && i < |w| && w[0] in f.seen
    ensures w[i] in f.seen
    decreases i
  {
    if i > 0 {
      WalkStaysSeen(f, nb, w, i - 1);
    }
  }

  /** Some walk along the neighbour lists leads from start to c. */
  ghost predicate WalkReaches(nb: map<Cell, seq<Cell>>, start: Cell, c: Cell)
  {
    exists w :: Walk(nb, w) && |w| > 0 && w[0] == start && w[|w| - 1] == c
  }

  /** Predecessors that list their successor as a neighbour, read forwards, are a walk from where they end. */
  lemma {:induction false} FollowIsWalk(cf: map<Cell, Cell>, nb: map<Cell, seq<Cell>>, c: Cell, start: Cell, k: nat)
    requires Follow(cf, c, k) == Some(start)
    requires forall n :: n in cf ==> n in NeighborsOf(nb, cf[n])
    ensures WalkReaches(nb, start, c)
    decreases k
  {
    if k == 0 {
      assert Walk(nb, [c]);
    } else {
      FollowIsWalk(cf, nb, cf[c], start, k - 1);
      var w :| Walk(nb, w) && |w| > 0 && w[0] == start && w[|w| - 1] == cf[c];
      var w' := w + [c];
      forall i | 0 <= i < |w'| - 1 ensures w'[i + 1] in NeighborsOf(nb, w'[i]) {
        if i < |w| - 1 {
          assert w'[i] == w[i] && w'[i + 1] == w[i + 1];
        } else {
          assert w'[i] == cf[c] && w'[i + 1] == c;
        }
      }
      assert Walk(nb, w') && w'[0] == start && w'[|w'| - 1] == c;
    }
  }

  /**
    A search that has emptied its worklist without popping the goal has seen
    exactly the cells some walk from start reaches.
  */
  lemma FinishedSearchSeesReachable(start: Cell, f: Frontier, nb: map<Cell, seq<Cell>>)
    requires SearchOk(start, f, nb) && Covered(f, nb) && f.pending == [] && start in f.seen
    ensures forall c :: c in f.seen <==> WalkReaches(nb, start, c)
  {
    forall c ensures c in f.seen <==> WalkReaches(nb, start, c) {
      if c in f.seen {
        var i :| 0 <= i < |f.seen| && f.seen[i] == c;
        SeenLeadsToStart(start, f, nb, i);
        var k: nat :| k <= |f.seen| - i && Follow(f.cameFrom, c, k) == Some(start);
        FollowIsWalk(f.cameFrom, nb, c, start, k);
      } else if WalkReaches(nb, start, c) {
        var w :| Walk(nb, w) && |w| > 0 && w[0] == start && w[|w| - 1] == c;
        WalkStaysSeen(f, nb, w, |w| - 1);
      }
    }
  }

  /** Every cell a search can ever add to its worklist: start and the cells on neighbour lists. */
  ghost function Reachable(start: Cell, nb: map<Cell, seq<Cell>>): (r: set<Cell>)
    ensures start in r && forall c, n :: n in NeighborsOf(nb, c) ==> n in r
  {
    {start} + set c, n | c in nb && n in nb[c] :: n
  }

  /** The cells of reach a search has not expanded yet. */
  ghost function Unexplored(reach: set<Cell>, seen: seq<Cell>): set<Cell>
  {
    reach - set c | c in seen
  }

  /**
    What a search from start towards to keeps while it runs: the search
    invariant, every neighbour of a seen cell seen or waiting, the goal never
    expanded, start seen or waiting, and only cells of reach in the worklist.
  */
  ghost predicate Running(start: Cell, to: Cell, reach: set<Cell>, f: Frontier, nb: map<Cell, seq<Cell>>)
  {
    && SearchOk(start, f, nb) && Covered(f, nb)
    && to !in f.seen && (start in f.seen || start in f.pending)
    && forall c :: c in f.pending ==> c in reach
  }

  /**
    A step that does not pop the goal keeps the search running, and it either
    expands a cell of reach not expanded before or shortens the worklist
    without touching alreadySeen: a search over finitely many cells stops.
  */
  lemma StepKeepsRunning(start: Cell, to: Cell, reach: set<Cell>, f: Frontier, nb: map<Cell, seq<Cell>>, lifo: bool)
    requires Running(start, to, reach, f, nb) && Irreflexive(nb) && f.pending != [] && f.pending[0] != to
    requires forall c, n :: n in NeighborsOf(nb, c) ==> n in reach
    ensures Running(start, to, reach, Step(f, nb, to, lifo), nb)
    ensures var g := Step(f, nb, to, lifo);
      || Unexplored(reach, g.seen) < Unexplored(reach, f.seen)
      || (g.seen == f.seen && |g.pending| < |f.pending|)
  {
    var g := Step(f, nb, to, lifo);
    StepKeepsOk(start, f, nb, to, lifo);
    StepKeepsCovered(f, nb, to, lifo);
    StepStaysInReach(reach, f, nb, to, lifo);
    if f.pending[0] !in f.seen {
      assert f.pending[0] in Unexplored(reach, f.seen) - Unexplored(reach, g.seen);
    }
  }

  /** A step queues only neighbours, so a worklist inside a set closed under neighbours stays inside it. */
  lemma StepStaysInReach(reach: set<Cell>, f: Frontier, nb: map<Cell, seq<Cell>>, to: Cell, lifo: bool)
    requires f.pending != [] && forall c :: c in f.pending ==> c in reach
    requires forall c, n :: n in NeighborsOf(nb, c) ==> n in reach
    ensures forall c :: c in Step(f, nb, to, lifo).pending ==> c in reach
  {
    var next := f.pending[0];
    var g := Step(f, nb, to, lifo);
    if next != to && next !in f.seen {
      var ns := Unseen(NeighborsOf(nb, next), f.seen);
      UnseenMembers(NeighborsOf(nb, next), f.seen);
      ReverseMembers(ns);
      forall c | c in g.pending ensures c in reach {
        if c !in f.pending[1..] {
          if lifo {
            var i :| 0 <= i < |ns| && Reverse(ns)[i] == c;
            assert ns[|ns| - 1 - i] == c;
          }
        }
      }
    }
  }

  // ---------------------------------------------------------------------
  // Backtracking (MazeWorld.java:351-382)
  // ---------------------------------------------------------------------

  /** The cell before p[i] on the walk that starts at c. */
  function Prev(c: Cell, p: seq<Cell>, i: nat): Cell
    requires i <= |p|
  {
    if i == 0 then c else p[i - 1]
  }

  /** The cell a walk from c along p ends at. */
  function Last(c: Cell, p: seq<Cell>): Cell
  {
    if p == [] then c else p[|p| - 1]
  }

  /** p walks along predecessors from c: each cell of p is the predecessor of the one before it. */
  ghost predicate Chain(cf: map<Cell, Cell>, c: Cell, p: seq<Cell>)
  {
    forall i :: 0 <= i < |p| ==> Prev(c, p, i) in cf && cf[Prev(c, p, i)] == p[i]
  }

  /** The backtracking state walks back from goal: at the path's last cell, or at null once that cell had no predecessor. */
  ghost predicate TraceOk(cf: map<Cell, Cell>, goal: Cell, t: Trace)
  {
    && Chain(cf, goal, t.path)
    && (t.current == Some(Last(goal, t.path)) || (t.current == None && Last(goal, t.path) !in cf))
  }

  /** Whatever cell it is told to stop at, a backtracking step keeps walking back from the goal. */
  lemma BackStepKeepsTrace(cf: map<Cell, Cell>, goal: Cell, from: Cell, t: Trace)
    requires TraceOk(cf, goal, t)
    ensures TraceOk(cf, goal, BackStep(cf, from, t))
  {
    var u := BackStep(cf, from, t);
    if u.path != t.path {
      var c := t.current.value;
      assert c == Last(goal, t.path);
      assert u.path == t.path + [cf[c]];
      forall i | 0 <= i < |u.path| ensures Prev(goal, u.path, i) in cf && cf[Prev(goal, u.path, i)] == u.path[i] {
        if i < |t.path| {
          assert Prev(goal, u.path, i) == Prev(goal, t.path, i);
        }
      }
    }
  }

  /** Every step of a walk along the search's predecessors passes through an open passage. */
  lemma ChainIsOpen(start: Cell, seen: seq<Cell>, cf: map<Cell, Cell>, nb: map<Cell, seq<Cell>>, tree: seq<Edge>, goal: Cell, p: seq<Cell>)
    requires Explored(start, seen, cf, nb) && NeighborsOpen(tree, nb) && Chain(cf, goal, p)
    ensures forall i :: 0 <= i < |p| ==> Passage(tree, Prev(goal, p, i), p[i]) && Adjacent(p[i], Prev(goal, p, i))
  {
    forall i | 0 <= i < |p| ensures Passage(tree, Prev(goal, p, i), p[i]) && Adjacent(p[i], Prev(goal, p, i)) {
      var n := Prev(goal, p, i);
      assert n in NeighborsOf(nb, cf[n]);
      PassageSymmetric(tree, n, p[i]);
    }
  }

  /** The cells from c back along predecessors, stopping just before from: what backtrackPathImmediately appends. */
  function PathBack(cf: map<Cell, Cell>, c: Cell, from: Cell, k: nat): (p: seq<Cell>)
    requires Follow(cf, c, k) == Some(from)
    ensures |p| <= k
    decreases k
  {
    if c == from then [] else [c] + PathBack(cf, cf[c], from, k - 1)
  }

  /**
    The path starts at c, each cell's predecessor is the next cell, the last
    cell's predecessor is from, and from itself is not on it.
  */
  lemma {:induction false} PathBackLinks(cf: map<Cell, Cell>, c: Cell, from: Cell, k: nat)
    requires Follow(cf, c, k) == Some(from)
    ensures var p := PathBack(cf, c, from, k);
      && (c == from <==> p == [])
      && (p != [] ==> p[0] == c && p[|p| - 1] in cf && cf[p[|p| - 1]] == from)
      && (forall i :: 0 <= i < |p| - 1 ==> p[i] in cf && cf[p[i]] == p[i + 1])
      && from !in p
    decreases k
  {
    if c != from {
      PathBackLinks(cf, cf[c], from, k - 1);
    }
  }

  /** The cell backtracking is at, the path built so far, and doneBackTracking. */
  datatype Trace = Trace(current: Option<Cell>, path: seq<Cell>, done: bool)

  /**
    One call of backtrackPath(from, _): away from `from` it moves to the
    predecessor and appends it, or, when there is none, is left at null and
    appends nothing; at `from` it only sets doneBackTracking.
  */
  function BackStep(cf: map<Cell, Cell>, from: Cell, t: Trace): Trace
  {
    if t.current != Some(from) then
      if t.current.Some? && t.current.value in cf then
        Trace(Some(cf[t.current.value]), t.path + [cf[t.current.value]], t.done)
      else Trace(None, t.path, t.done)
    else t.(done := true)
  }

  function BackSteps(cf: map<Cell, Cell>, from: Cell, t: Trace, n: nat): Trace
    decreases n
  {
    if n == 0 then t else BackSteps(cf, from, BackStep(cf, from, t), n - 1)
  }

  /** What stepwise backtracking appends for a path p that backtrackPathImmediately would append. */
  function Shifted(p: seq<Cell>, from: Cell): seq<Cell>
  {
    if p == [] then [] else p[1..] + [from]
  }

  /**
    Stepwise backtracking from `to` towards `from` visits the same cells as
    backtrackPathImmediately, shifted by one: it appends every predecessor
    (ending with from) where the loop appends every cell before from
    (starting with to); one more call then sets doneBackTracking.
  */
  lemma {:induction false} StepwiseMatchesImmediate(cf: map<Cell, Cell>, to: Cell, from: Cell, k: nat, path: seq<Cell>)
    requires Follow(cf, to, k) == Some(from)
    ensures BackSteps(cf, from, Trace(Some(to), path, false), |PathBack(cf, to, from, k)|)
         == Trace(Some(from), path + Shifted(PathBack(cf, to, from, k), from), false)
    ensures BackSteps(cf, from, Trace(Some(to), path, false), |PathBack(cf, to, from, k)| + 1)
         == Trace(Some(from), path + Shifted(PathBack(cf, to, from, k), from), true)
    decreases k
  {
    var p := PathBack(cf, to, from, k);
    if to != from {
      var c := cf[to];
      var q := PathBack(cf, c, from, k - 1);
      assert p == [to] + q;
      var t0 := Trace(Some(to), path, false);
      var t1 := Trace(Some(c), path + [c], false);
      assert BackStep(cf, from, t0) == t1;
      StepwiseMatchesImmediate(cf, c, from, k - 1, path + [c]);
      assert [c] + Shifted(q, from) == Shifted(p, from) by {
        if q != [] {
          assert q[0] == c;
        }
      }
      assert BackSteps(cf, from, t0, |p|) == BackSteps(cf, from, t1, |q|);
      assert BackSteps(cf, from, t0, |p| + 1) == BackSteps(cf, from, t1, |q| + 1);
      Assoc(path, [c], Shifted(q, from));
    } else {
      assert p == [] && Shifted(p, from) == [] && path + [] == path;
      assert BackSteps(cf, from, Trace(Some(to), path, false), 1) == BackStep(cf, from, Trace(Some(to), path, false));
    }
  }

  /** A trace that has fallen to null stays there, whatever cell it is told to stop at. */
  lemma {:induction false} StalledTraceStays(cf: map<Cell, Cell>, stop: Cell, q: seq<Cell>, n: nat)
    ensures BackSteps(cf, stop, Trace(None, q, false), n) == Trace(None, q, false)
    decreases n
  {
    if n > 0 {
      assert BackStep(cf, stop, Trace(None, q, false)) == Trace(None, q, false);
      StalledTraceStays(cf, stop, q, n - 1);
    }
  }

  /**
    Told to stop at a cell that is neither the search's start nor on the
    chain back to it, stepwise backtracking appends the same cells as when
    told to stop at the start, then falls past the start to null; it never
    sets doneBackTracking.
  */
  lemma {:induction false} StepwiseOverrunsStart(cf: map<Cell, Cell>, to: Cell, from: Cell, stop: Cell, k: nat, path: seq<Cell>)
    requires Follow(cf, to, k) == Some(from) && from !in cf
    requires stop != from && stop !in PathBack(cf, to, from, k)
    ensures forall n: nat :: !BackSteps(cf, stop, Trace(Some(to), path, false), n).done
    ensures forall n: nat :: n > |PathBack(cf, to, from, k)| ==>
      BackSteps(cf, stop, Trace(Some(to), path, false), n) == Trace(None, path + Shifted(PathBack(cf, to, from, k), from), false)
    decreases k
  {
    var p := PathBack(cf, to, from, k);
    var t0 := Trace(Some(to), path, false);
    if to != from {
      var c := cf[to];
      var q := PathBack(cf, c, from, k - 1);
      assert p == [to] + q;
      var t1 := Trace(Some(c), path + [c], false);
      assert BackStep(cf, stop, t0) == t1;
      StepwiseOverrunsStart(cf, c, from, stop, k - 1, path + [c]);
      forall n: nat ensures !BackSteps(cf, stop, t0, n).done {
        if n > 0 {
          assert BackSteps(cf, stop, t0, n) == BackSteps(cf, stop, t1, n - 1);
        }
      }
      assert [c] + Shifted(q, from) == Shifted(p, from) by {
        if q != [] {
          PathBackLinks(cf, c, from, k - 1);
        }
      }
      Assoc(path, [c], Shifted(q, from));
      forall n: nat | n > |p| ensures BackSteps(cf, stop, t0, n) == Trace(None, path + Shifted(p, from), false) {
        assert BackSteps(cf, stop, t0, n) == BackSteps(cf, stop, t1, n - 1);
      }
    } else {
      assert p == [] && path + Shifted(p, from) == path;
      assert BackStep(cf, stop, t0) == Trace(None, path, false);
      forall n: nat ensures BackSteps(cf, stop, t0, n) == if n == 0 then t0 else Trace(None, path, false) {
        if n > 0 {
          StalledTraceStays(cf, stop, path, n - 1);
        }
      }
    }
  }
}
