/**
 * The randomized depth-first search of generate_maze (library/maze.c), as a
 * state machine over grid values: the state is the grid, the backtracking
 * stack and the current cell. This module states the invariant the loop
 * keeps, proves that each forward step and each backtrack step preserves it
 * while 2 * (unvisited cells) + |stack| drops, and proves that the state the
 * loop stops in (empty stack) holds a spanning tree of the grid.
 *
 * The proof follows each step with two ghost records: the cells in the order
 * they were first visited, and the carved passages as (parent, child) edges.
 */
module Generation {
  import opened Config
  import opened CellGrid

  /** generate_maze starts at cell (0, 0). */
  const Root: Pos := Pos(0, 0)

  /** A carved passage, from the cell the search stood on to the cell it reached. */
  datatype Edge = Edge(parent: Pos, child: Pos)

  /** The grid after lines 256-257: the start cell is marked visited. */
  function Start(g: Grid): (r: Grid)
    requires WellFormed(g)
    ensures WellFormed(r)
  {
    Update(g, Root, At(g, Root).(visited := true))
  }

  /** The grid after a forward step from cur to next: remove_wall (line 272), then mark next visited (line 273). */
  function Advance(g: Grid, cur: Pos, next: Pos): (r: Grid)
    requires WellFormed(g) && InGrid(cur) && InGrid(next)
    ensures WellFormed(r)
  {
    var g1 := WithWallRemoved(g, cur, next, Direction(cur, next));
    Update(g1, next, At(g1, next).(visited := true))
  }

  /** The loop's termination measure. */
  function Measure(g: Grid, stack: seq<Pos>): nat
    requires WellFormed(g)
  {
    2 * Unvisited(g) + |stack|
  }

  // ---------------------------------------------------------------------------
  // Properties of the finished maze

  /** A's wall facing B stands exactly when B's wall facing A stands, for every pair of adjacent cells. */
  ghost predicate WallsAgree(g: Grid)
    requires WellFormed(g)
  {
    forall p, d | HasNeighbor(p, d) :: Wall(At(g, p), d) == Wall(At(g, NeighborAt(p, d)), Opposite(d))
  }

  /** One can walk from a to the adjacent cell b: a's wall facing b is open. */
  ghost predicate IsPassage(g: Grid, a: Pos, b: Pos)
    requires WellFormed(g)
  {
    Adjacent(a, b) && !Wall(At(g, a), Direction(a, b))
  }

  /** path walks from `from` to `to` through open passages. */
  ghost predicate IsPath(g: Grid, path: seq<Pos>, from: Pos, to: Pos)
    requires WellFormed(g)
  {
    |path| >= 1 && path[0] == from && path[|path| - 1] == to &&
    forall k | 0 <= k < |path| - 1 :: IsPassage(g, path[k], path[k + 1])
  }

  /** Every cell can be reached from the start cell through open passages. */
  ghost predicate Connected(g: Grid)
    requires WellFormed(g)
  {
    forall p | InGrid(p) :: exists path :: IsPath(g, path, Root, p)
  }

  /**
   * The passages form a spanning tree of the grid: every cell is visited and
   * reachable from the start, the two sides of every shared wall agree, and
   * exactly NumCells - 1 shared walls are open (a connected graph on NumCells
   * vertices with NumCells - 1 edges is a tree).
   */
  ghost predicate SpanningTree(g: Grid)
  {
    WellFormed(g) &&
    (forall p | InGrid(p) :: At(g, p).visited) &&
    WallsAgree(g) &&
    Tally(g, OpenWeight) == NumCells - 1 &&
    Connected(g)
  }

  // ---------------------------------------------------------------------------
  // The loop invariant

  /**
   * The stack holds visited cells; its two bottom entries are the start cell,
   * pushed once at line 258 and again by the first forward step at line 274;
   * with one entry left the current cell is the start cell, and once the
   * stack is empty the current cell has no unvisited neighbour.
   */
  ghost predicate StackShape(g: Grid, stack: seq<Pos>, cur: Pos)
    requires WellFormed(g)
  {
    InGrid(cur) && At(g, cur).visited &&
    (forall i | 0 <= i < |stack| :: InGrid(stack[i]) && At(g, stack[i]).visited) &&
    (|stack| >= 1 ==> stack[0] == Root) &&
    (|stack| >= 2 ==> stack[1] == Root) &&
    (|stack| == 1 ==> cur == Root) &&
    (stack == [] ==> Finished(g, cur))
  }

  /** Every visited cell is on the stack, is the current cell, or has no unvisited neighbour. */
  ghost predicate Covered(g: Grid, stack: seq<Pos>, cur: Pos)
    requires WellFormed(g)
  {
    forall p | InGrid(p) && At(g, p).visited :: p in stack || p == cur || Finished(g, p)
  }

  /** order lists the visited cells, each once, starting with the start cell. */
  ghost predicate VisitOrder(g: Grid, order: seq<Pos>)
    requires WellFormed(g)
  {
    |order| >= 1 && order[0] == Root &&
    (forall i | 0 <= i < |order| :: InGrid(order[i])) &&
    (forall i, j | 0 <= i < j < |order| :: order[i] != order[j]) &&
    (forall p | InGrid(p) :: At(g, p).visited <==> p in order)
  }

  /** Each cell after the first was reached by exactly one edge from an adjacent, earlier cell. */
  ghost predicate TreeEdges(order: seq<Pos>, edges: seq<Edge>)
  {
    |edges| + 1 == |order| &&
    forall i | 0 <= i < |edges| ::
      edges[i].child == order[i + 1] && edges[i].parent in order[..i + 1] &&
      Adjacent(edges[i].parent, edges[i].child)
  }

  /** a and b are the two ends of some edge. */
  predicate Joined(edges: seq<Edge>, a: Pos, b: Pos)
  {
    Edge(a, b) in edges || Edge(b, a) in edges
  }

  /** A wall side is open exactly when it separates the two ends of an edge. */
  ghost predicate PassagesAreEdges(g: Grid, edges: seq<Edge>)
    requires WellFormed(g)
  {
    forall p, d | HasNeighbor(p, d) :: !Wall(At(g, p), d) <==> Joined(edges, p, NeighborAt(p, d))
  }

  /**
   * Cell counts: visited plus unvisited cells make NumCells, there is one
   * open shared wall fewer than visited cells, and each open shared wall
   * took down two wall flags.
   */
  ghost predicate Counts(g: Grid, order: seq<Pos>)
    requires WellFormed(g)
  {
    Unvisited(g) + |order| == NumCells &&
    Tally(g, OpenWeight) + 1 == |order| &&
    Tally(g, StandingWeight) + 2 * Tally(g, OpenWeight) == 4 * NumCells
  }

  ghost predicate Inv(g: Grid, stack: seq<Pos>, cur: Pos, order: seq<Pos>, edges: seq<Edge>)
  {
    WellFormed(g) &&
    StackShape(g, stack, cur) &&
    Covered(g, stack, cur) &&
    VisitOrder(g, order) &&
    TreeEdges(order, edges) &&
    PassagesAreEdges(g, edges) &&
    Counts(g, order)
  }

  // ---------------------------------------------------------------------------
  // Start

  /** The walls of a grid whose walls all stand agree. */
  lemma UntouchedWallsAgree(g: Grid)
    requires WellFormed(g)
    requires forall p | InGrid(p) :: Untouched(At(g, p))
    ensures WallsAgree(g)
  {
    forall p, d | HasNeighbor(p, d)
      ensures Wall(At(g, p), d) == Wall(At(g, NeighborAt(p, d)), Opposite(d))
    {
      assert Untouched(At(g, NeighborAt(p, d)));
    }
  }

  /** Lines 256-258 establish the invariant on a grid of untouched cells. */
  lemma StartInv(g: Grid)
    requires WellFormed(g)
    requires forall p | InGrid(p) :: Untouched(At(g, p))
    ensures Inv(Start(g), [Root], Root, [Root], [])
    ensures SameBoxes(Start(g), g)
  {
    var s := Start(g);
    var c := At(g, Root).(visited := true);
    TallyConst(g, UnvisitedWeight, 1);
    TallyUpdate(g, UnvisitedWeight, Root, c);
    TallyConst(g, OpenWeight, 0);
    TallyUpdate(g, OpenWeight, Root, c);
    TallyConst(g, StandingWeight, 4);
    TallyUpdate(g, StandingWeight, Root, c);
    forall p, d | HasNeighbor(p, d)
      ensures !Wall(At(s, p), d) <==> Joined([], p, NeighborAt(p, d))
    {
      assert Untouched(At(g, p));
    }
    forall p | InGrid(p) && At(s, p).visited
      ensures p == Root
    {
      assert Untouched(At(g, p));
    }
  }

  // ---------------------------------------------------------------------------
  // Forward step

  /**
   * A forward step to an adjacent cell: the shared wall is opened from both
   * sides, next becomes visited, and no other flag of any cell changes.
   */
  lemma AdvanceEffect(g: Grid, cur: Pos, next: Pos)
    requires WellFormed(g) && InGrid(cur) && Adjacent(cur, next)
    ensures var r := Advance(g, cur, next); var d := Direction(cur, next);
      At(r, cur) == ClearSide(At(g, cur), d) &&
      At(r, next) == ClearSide(At(g, next), Opposite(d)).(visited := true) &&
      (forall q | InGrid(q) && q != cur && q != next :: At(r, q) == At(g, q)) &&
      (forall q | InGrid(q) :: At(r, q).visited == (At(g, q).visited || q == next))
  {
    var d := Direction(cur, next);
    RemoveWallEffect(g, cur, next, d);
  }

  /** The wall-to-edge correspondence survives a forward step that records the edge (cur, next). */
  lemma AdvancePassages(g: Grid, cur: Pos, next: Pos, edges: seq<Edge>)
    requires WellFormed(g) && InGrid(cur) && Adjacent(cur, next)
    requires PassagesAreEdges(g, edges)
    ensures PassagesAreEdges(Advance(g, cur, next), edges + [Edge(cur, next)])
  {
    AdvanceEffect(g, cur, next);
    forall p, d | HasNeighbor(p, d)
      ensures !Wall(At(Advance(g, cur, next), p), d) <==> Joined(edges + [Edge(cur, next)], p, NeighborAt(p, d))
    {
      AdvancePassageAt(g, cur, next, edges, p, d);
    }
  }

  /** One wall side of AdvancePassages. */
  lemma AdvancePassageAt(g: Grid, cur: Pos, next: Pos, edges: seq<Edge>, p: Pos, d: nat)
    requires WellFormed(g) && InGrid(cur) && Adjacent(cur, next) && HasNeighbor(p, d)
    requires !Wall(At(g, p), d) <==> Joined(edges, p, NeighborAt(p, d))
    requires var r := Advance(g, cur, next); var dn := Direction(cur, next);
      At(r, cur) == ClearSide(At(g, cur), dn) &&
      At(r, next) == ClearSide(At(g, next), Opposite(dn)).(visited := true) &&
      (p != cur && p != next ==> At(r, p) == At(g, p))
    ensures !Wall(At(Advance(g, cur, next), p), d) <==> Joined(edges + [Edge(cur, next)], p, NeighborAt(p, d))
  {
    var r := Advance(g, cur, next);
    var dn := Direction(cur, next);
    var q := NeighborAt(p, d);
    DirectionFacesNeighbor(cur, dn);
    DirectionFacesNeighbor(p, d);
    assert Joined(edges + [Edge(cur, next)], p, q) <==> Joined(edges, p, q) || (p == cur && q == next) || (p == next && q == cur);
    if p == cur {
      assert Wall(At(r, p), d) == (d != dn && Wall(At(g, p), d));
    } else if p == next {
      assert Wall(At(r, p), d) == (d != Opposite(dn) && Wall(At(g, p), d));
    }
  }

  /** The wall between cur and an unvisited next stands on both sides: no edge reaches an unvisited cell. */
  lemma WallUpBeforeAdvance(g: Grid, cur: Pos, next: Pos, order: seq<Pos>, edges: seq<Edge>)
    requires WellFormed(g) && InGrid(cur) && Adjacent(cur, next)
    requires VisitOrder(g, order) && TreeEdges(order, edges) && PassagesAreEdges(g, edges)
    requires !At(g, next).visited
    ensures Wall(At(g, cur), Direction(cur, next))
    ensures Wall(At(g, next), Opposite(Direction(cur, next)))
  {
    var d := Direction(cur, next);
    DirectionFacesNeighbor(cur, d);
    assert next !in order;
    forall i | 0 <= i < |edges|
      ensures edges[i] != Edge(cur, next) && edges[i] != Edge(next, cur)
    {
      assert edges[i].child == order[i + 1];
      assert edges[i].parent in order[..i + 1];
    }
    assert !Joined(edges, cur, next);
    assert !Joined(edges, next, cur);
  }

  /** Clearing a standing side of a cell takes down one flag, and opens one owned passage when the side is east or south. */
  lemma ClearSideWeights(c: Cell, p: Pos, d: nat)
    requires HasNeighbor(p, d) && Wall(c, d)
    ensures StandingWeight(ClearSide(c, d), p) + 1 == StandingWeight(c, p)
    ensures OpenWeight(ClearSide(c, d), p) == OpenWeight(c, p) + (if d == 1 || d == 2 then 1 else 0)
    ensures UnvisitedWeight(ClearSide(c, d), p) == UnvisitedWeight(c, p)
  {
  }

  /** How any tally changes over a forward step: only the two cells of the step contribute differently. */
  lemma AdvanceTally(g: Grid, cur: Pos, next: Pos, f: (Cell, Pos) -> nat)
    requires WellFormed(g) && InGrid(cur) && Adjacent(cur, next)
    ensures var d := Direction(cur, next);
      Tally(Advance(g, cur, next), f) + f(At(g, cur), cur) + f(At(g, next), next)
      == Tally(g, f) + f(ClearSide(At(g, cur), d), cur) + f(ClearSide(At(g, next), Opposite(d)).(visited := true), next)
  {
    var d := Direction(cur, next);
    DirectionFacesNeighbor(cur, d);
    var c1 := ClearSide(At(g, cur), d);
    var g1 := Update(g, cur, c1);
    var c2 := ClearSide(At(g1, next), Opposite(d));
    var g2 := Update(g1, next, c2);
    var c3 := c2.(visited := true);
    assert At(g1, next) == At(g, next);
    assert At(g2, next) == c2;
    assert Update(g2, next, c3) == Advance(g, cur, next);
    TallyUpdate(g, f, cur, c1);
    TallyUpdate(g1, f, next, c2);
    TallyUpdate(g2, f, next, c3);
  }

  /** A forward step visits one more cell, opens one more shared wall and takes down two wall flags. */
  lemma AdvanceCounts(g: Grid, cur: Pos, next: Pos)
    requires WellFormed(g) && InGrid(cur) && Adjacent(cur, next)
    requires !At(g, next).visited
    requires Wall(At(g, cur), Direction(cur, next)) && Wall(At(g, next), Opposite(Direction(cur, next)))
    ensures var r := Advance(g, cur, next);
      Unvisited(r) + 1 == Unvisited(g) &&
      Tally(r, OpenWeight) == Tally(g, OpenWeight) + 1 &&
      Tally(r, StandingWeight) + 2 == Tally(g, StandingWeight)
  {
    var d := Direction(cur, next);
    DirectionFacesNeighbor(cur, d);
    ClearSideWeights(At(g, cur), cur, d);
    ClearSideWeights(At(g, next), next, Opposite(d));
    AdvanceTally(g, cur, next, UnvisitedWeight);
    AdvanceTally(g, cur, next, OpenWeight);
    AdvanceTally(g, cur, next, StandingWeight);
  }

  /** A forward step keeps the stack's shape: the current cell is pushed and next becomes current. */
  lemma ForwardShape(g: Grid, stack: seq<Pos>, cur: Pos, next: Pos)
    requires WellFormed(g) && StackShape(g, stack, cur) && stack != [] && Adjacent(cur, next)
    ensures StackShape(Advance(g, cur, next), stack + [cur], next)
  {
    AdvanceEffect(g, cur, next);
  }

  /** A forward step keeps every visited cell covered: the old current cell is now on the stack. */
  lemma ForwardCovered(g: Grid, stack: seq<Pos>, cur: Pos, next: Pos)
    requires WellFormed(g) && InGrid(cur) && Adjacent(cur, next) && Covered(g, stack, cur)
    ensures Covered(Advance(g, cur, next), stack + [cur], next)
  {
    var r := Advance(g, cur, next);
    AdvanceEffect(g, cur, next);
    forall p | InGrid(p) && At(r, p).visited
      ensures p in stack + [cur] || p == next || Finished(r, p)
    {
      if p != next && p != cur && p !in stack {
        assert Finished(g, p);
      }
    }
  }

  /** A forward step to an unvisited cell appends that cell to the visiting order. */
  lemma ForwardOrder(g: Grid, cur: Pos, next: Pos, order: seq<Pos>)
    requires WellFormed(g) && InGrid(cur) && Adjacent(cur, next) && VisitOrder(g, order)
    requires !At(g, next).visited
    ensures VisitOrder(Advance(g, cur, next), order + [next])
  {
    var r := Advance(g, cur, next);
    AdvanceEffect(g, cur, next);
    assert next !in order;
    forall p | InGrid(p)
      ensures At(r, p).visited <==> p in order + [next]
    {
    }
  }

  /** Recording the edge (cur, next) for a cell next new to the order keeps the edges a tree over the order. */
  lemma ForwardEdges(cur: Pos, next: Pos, order: seq<Pos>, edges: seq<Edge>)
    requires TreeEdges(order, edges) && cur in order && Adjacent(cur, next)
    ensures TreeEdges(order + [next], edges + [Edge(cur, next)])
  {
    var order', edges' := order + [next], edges + [Edge(cur, next)];
    forall i | 0 <= i < |edges'|
      ensures edges'[i].child == order'[i + 1] && edges'[i].parent in order'[..i + 1] &&
        Adjacent(edges'[i].parent, edges'[i].child)
    {
      if i < |edges| {
        assert order'[..i + 1] == order[..i + 1];
      } else {
        assert order'[..i + 1] == order;
      }
    }
  }

  /**
   * A forward step (lines 265-276) from the current cell to an unvisited
   * neighbour that get_neighbors listed keeps the invariant, marks exactly
   * that cell visited, pushes one entry, and lowers the measure.
   */
  lemma ForwardStep(g: Grid, stack: seq<Pos>, cur: Pos, order: seq<Pos>, edges: seq<Edge>, next: Pos)
    requires Inv(g, stack, cur, order, edges) && stack != []
    requires next in UnvisitedNeighbors(g, cur)
    ensures InGrid(next) && Adjacent(cur, next)
    ensures var r := Advance(g, cur, next);
      Inv(r, stack + [cur], next, order + [next], edges + [Edge(cur, next)]) &&
      SameBoxes(r, g) &&
      !At(g, next).visited &&
      (forall q | InGrid(q) :: At(r, q).visited == (At(g, q).visited || q == next)) &&
      Unvisited(r) + 1 == Unvisited(g) &&
      Measure(r, stack + [cur]) < Measure(g, stack)
  {
    UnvisitedNeighborsSound(g, cur);
    AdvanceEffect(g, cur, next);
    AdvancePassages(g, cur, next, edges);
    WallUpBeforeAdvance(g, cur, next, order, edges);
    AdvanceCounts(g, cur, next);
    ForwardShape(g, stack, cur, next);
    ForwardCovered(g, stack, cur, next);
    ForwardOrder(g, cur, next, order);
    ForwardEdges(cur, next, order, edges);
  }

  // ---------------------------------------------------------------------------
  // Backtrack step

  /** Popping the top entry into the current cell keeps the stack's shape once the current cell is finished. */
  lemma BacktrackShape(g: Grid, stack: seq<Pos>, cur: Pos)
    requires WellFormed(g) && StackShape(g, stack, cur) && stack != [] && Finished(g, cur)
    ensures StackShape(g, stack[..|stack| - 1], stack[|stack| - 1])
  {
  }

  /** Popping the top entry into the current cell keeps every visited cell covered once the current cell is finished. */
  lemma BacktrackCovered(g: Grid, stack: seq<Pos>, cur: Pos)
    requires WellFormed(g) && Covered(g, stack, cur) && stack != [] && Finished(g, cur)
    ensures Covered(g, stack[..|stack| - 1], stack[|stack| - 1])
  {
    var n := |stack|;
    var stack', cur' := stack[..n - 1], stack[n - 1];
    forall p | InGrid(p) && At(g, p).visited
      ensures p in stack' || p == cur' || Finished(g, p)
    {
      if p in stack && p != cur' {
        var i :| 0 <= i < n && stack[i] == p;
        assert stack'[i] == p;
      }
    }
  }

  /**
   * A backtrack step (line 280): when the current cell has no unvisited
   * neighbour, popping the top entry into the current cell keeps the
   * invariant and lowers the measure.
   */
  lemma BacktrackStep(g: Grid, stack: seq<Pos>, cur: Pos, order: seq<Pos>, edges: seq<Edge>)
    requires Inv(g, stack, cur, order, edges) && stack != []
    requires UnvisitedNeighbors(g, cur) == []
    ensures Inv(g, stack[..|stack| - 1], stack[|stack| - 1], order, edges)
    ensures Measure(g, stack[..|stack| - 1]) < Measure(g, stack)
  {
    UnvisitedNeighborsEmpty(g, cur);
    BacktrackShape(g, stack, cur);
    BacktrackCovered(g, stack, cur);
  }

  // ---------------------------------------------------------------------------
  // The end state

  /** A set of visited cells that holds the start cell and is closed under taking neighbours holds every cell. */
  lemma {:induction false} ReachedFromRoot(g: Grid, p: Pos)
    requires WellFormed(g) && InGrid(p) && At(g, Root).visited
    requires forall q | InGrid(q) && At(g, q).visited :: Finished(g, q)
    ensures At(g, p).visited
    decreases p.x + p.y
  {
    if p.x > 0 {
      var q := Pos(p.x - 1, p.y);
      ReachedFromRoot(g, q);
      assert HasNeighbor(q, 1) && NeighborAt(q, 1) == p;
    } else if p.y > 0 {
      var q := Pos(p.x, p.y - 1);
      ReachedFromRoot(g, q);
      assert HasNeighbor(q, 2) && NeighborAt(q, 2) == p;
    }
  }

  /** A grid whose open walls are exactly the edges has agreeing walls. */
  lemma PassagesAgree(g: Grid, edges: seq<Edge>)
    requires WellFormed(g) && PassagesAreEdges(g, edges)
    ensures WallsAgree(g)
  {
    forall p, d | HasNeighbor(p, d)
      ensures Wall(At(g, p), d) == Wall(At(g, NeighborAt(p, d)), Opposite(d))
    {
      DirectionFacesNeighbor(p, d);
    }
  }

  /** A walk from the first cell to cell i of the visit order along recorded edges. */
  ghost function TreePath(order: seq<Pos>, edges: seq<Edge>, i: nat): (path: seq<Pos>)
    requires TreeEdges(order, edges) && i < |order|
    ensures |path| >= 1 && path[0] == order[0] && path[|path| - 1] == order[i]
    ensures forall k | 0 <= k < |path| - 1 :: Edge(path[k], path[k + 1]) in edges
    decreases i
  {
    if i == 0 then [order[0]]
    else
      var e := edges[i - 1];
      assert e.parent in order[..i];
      var j :| 0 <= j < i && order[j] == e.parent;
      var prefix := TreePath(order, edges, j);
      assert e == Edge(prefix[|prefix| - 1], order[i]);
      prefix + [order[i]]
  }

  /** Every recorded edge is an open passage. */
  lemma EdgesArePassages(g: Grid, order: seq<Pos>, edges: seq<Edge>, a: Pos, b: Pos)
    requires WellFormed(g) && TreeEdges(order, edges) && PassagesAreEdges(g, edges)
    requires Edge(a, b) in edges
    ensures IsPassage(g, a, b)
  {
    var i :| 0 <= i < |edges| && edges[i] == Edge(a, b);
    assert Adjacent(a, b);
    assert Joined(edges, a, NeighborAt(a, Direction(a, b)));
  }

  /** When every cell is visited, the recorded edges connect the start cell to every cell. */
  lemma TreeConnects(g: Grid, order: seq<Pos>, edges: seq<Edge>)
    requires WellFormed(g) && VisitOrder(g, order) && TreeEdges(order, edges) && PassagesAreEdges(g, edges)
    requires forall p | InGrid(p) :: At(g, p).visited
    ensures Connected(g)
  {
    forall p | InGrid(p)
      ensures exists path :: IsPath(g, path, Root, p)
    {
      var i :| 0 <= i < |order| && order[i] == p;
      var path := TreePath(order, edges, i);
      forall k | 0 <= k < |path| - 1
        ensures IsPassage(g, path[k], path[k + 1])
      {
        EdgesArePassages(g, order, edges, path[k], path[k + 1]);
      }
      assert IsPath(g, path, Root, p);
    }
  }

  /**
   * When the stack is empty (the loop at line 260 exits), every cell is
   * visited and the passages form a spanning tree: NumCells - 1 open shared
   * walls, and 4 * NumCells - 2 * (NumCells - 1) standing wall flags.
   */
  lemma FinalState(g: Grid, cur: Pos, order: seq<Pos>, edges: seq<Edge>)
    requires Inv(g, [], cur, order, edges)
    ensures SpanningTree(g)
    ensures |edges| == NumCells - 1
    ensures Tally(g, StandingWeight) == 4 * NumCells - 2 * (NumCells - 1)
  {
    assert At(g, Root).visited by {
      assert order[0] == Root;
    }
    forall p | InGrid(p)
      ensures At(g, p).visited
    {
      ReachedFromRoot(g, p);
    }
    TallyConst(g, UnvisitedWeight, 0);
    PassagesAgree(g, edges);
    TreeConnects(g, order, edges);
  }

  // ---------------------------------------------------------------------------
  // The search as seen from generate_maze

  /** The search can reach this grid, stack and current cell: some visiting order and carved edges account for them. */
  ghost predicate Reachable(g: Grid, stack: seq<Pos>, cur: Pos)
  {
    exists order, edges :: Inv(g, stack, cur, order, edges)
  }

  /** The state after lines 256-258, on a grid of untouched cells, is reachable, and keeps every box. */
  lemma StartReachable(g: Grid)
    requires WellFormed(g)
    requires forall p | InGrid(p) :: Untouched(At(g, p))
    ensures Reachable(Start(g), [Root], Root)
    ensures SameBoxes(Start(g), g)
  {
    StartInv(g);
  }

  /** A forward step from a reachable state reaches a state, keeps every box, and lowers the measure. */
  lemma ForwardReachable(g: Grid, stack: seq<Pos>, cur: Pos, next: Pos)
    requires Reachable(g, stack, cur) && stack != []
    requires next in UnvisitedNeighbors(g, cur)
    ensures InGrid(next) && Adjacent(cur, next)
    ensures var r := Advance(g, cur, next);
      Reachable(r, stack + [cur], next) &&
      SameBoxes(r, g) &&
      Measure(r, stack + [cur]) < Measure(g, stack)
  {
    var order, edges :| Inv(g, stack, cur, order, edges);
    ForwardStep(g, stack, cur, order, edges, next);
  }

  /** A backtrack step from a reachable state reaches a state and lowers the measure. */
  lemma BacktrackReachable(g: Grid, stack: seq<Pos>, cur: Pos)
    requires Reachable(g, stack, cur) && stack != []
    requires UnvisitedNeighbors(g, cur) == []
    ensures Reachable(g, stack[..|stack| - 1], stack[|stack| - 1])
    ensures Measure(g, stack[..|stack| - 1]) < Measure(g, stack)
  {
    var order, edges :| Inv(g, stack, cur, order, edges);
    BacktrackStep(g, stack, cur, order, edges);
  }

  /** At every state the loop reaches, the two sides of each shared wall agree. */
  lemma ReachableWallsAgree(g: Grid, stack: seq<Pos>, cur: Pos)
    requires Reachable(g, stack, cur)
    ensures WellFormed(g) && WallsAgree(g)
  {
    var order, edges :| Inv(g, stack, cur, order, edges);
    PassagesAgree(g, edges);
  }

  /** A reachable state with an empty stack holds a spanning tree with 4 * NumCells - 2 * (NumCells - 1) standing wall flags. */
  lemma ReachableFinal(g: Grid, cur: Pos)
    requires Reachable(g, [], cur)
    ensures SpanningTree(g)
    ensures Tally(g, StandingWeight) == 4 * NumCells - 2 * (NumCells - 1)
  {
    var order, edges :| Inv(g, [], cur, order, edges);
    FinalState(g, cur, order, edges);
  }
}
