/**
 * The cell grid of library/maze.c as a value: a GRID_HEIGHT x GRID_WIDTH
 * collection of cells indexed cells[y][x], the wall flags of a cell, the
 * pure effect of remove_wall, the neighbour enumeration of get_neighbors,
 * the direction code of generate_maze, and tallies over all cells.
 */
module CellGrid {
  import opened Config

  /** cell_t of library/maze.c: a bounding box, four wall flags, a visited flag and two marker flags. */
  datatype Cell = Cell(box: Rect, north: bool, east: bool, south: bool, west: bool,
                       visited: bool, start: bool, end: bool)

  /** A snapshot of maze->cells: row y holds the cells (0, y) .. (GridWidth - 1, y). */
  type Grid = seq<seq<Cell>>

  predicate WellFormed(g: Grid)
  {
    |g| == GridHeight && forall y | 0 <= y < |g| :: |g[y]| == GridWidth
  }

  predicate InGrid(p: Pos)
  {
    p.x < GridWidth && p.y < GridHeight
  }

  function At(g: Grid, p: Pos): Cell
    requires WellFormed(g) && InGrid(p)
  {
    g[p.y][p.x]
  }

  /** The grid after one cell is overwritten. */
  function Update(g: Grid, p: Pos, c: Cell): (r: Grid)
    requires WellFormed(g) && InGrid(p)
    ensures WellFormed(r)
    ensures forall q | InGrid(q) :: At(r, q) == if q == p then c else At(g, q)
  {
    g[p.y := g[p.y][p.x := c]]
  }

  /** Two well-formed grids that agree on every cell are equal. */
  lemma GridExtensional(g1: Grid, g2: Grid)
    requires WellFormed(g1) && WellFormed(g2)
    requires forall q | InGrid(q) :: At(g1, q) == At(g2, q)
    ensures g1 == g2
  {
    forall y | 0 <= y < GridHeight
      ensures g1[y] == g2[y]
    {
      forall x | 0 <= x < GridWidth
        ensures g1[y][x] == g2[y][x]
      {
        assert At(g1, Pos(x, y)) == At(g2, Pos(x, y));
      }
    }
  }

  /** Every cell of g1 has the bounding box of the same cell of g2. */
  ghost predicate SameBoxes(g1: Grid, g2: Grid)
    requires WellFormed(g1) && WellFormed(g2)
  {
    forall p | InGrid(p) :: At(g1, p).box == At(g2, p).box
  }

  // ---------------------------------------------------------------------------
  // init_maze

  /** The cell that init_maze stores at (x, y): all walls up, not visited, box (40x, 40y, 40, 40). */
  function FreshCell(p: Pos): Cell
  {
    Cell(Rect(p.x * GridCellSize, p.y * GridCellSize, GridCellSize, GridCellSize),
         true, true, true, true, false, false, false)
  }

  /** The grid that init_maze produces. */
  function InitialGrid(): (g: Grid)
    ensures WellFormed(g)
    ensures forall p | InGrid(p) :: At(g, p) == FreshCell(p)
  {
    seq(GridHeight, (y: int) requires 0 <= y =>
      seq(GridWidth, (x: int) requires 0 <= x => FreshCell(Pos(x, y))))
  }

  /** A cell that generation has not reached yet: unvisited, with all four walls standing. */
  predicate Untouched(c: Cell)
  {
    !c.visited && c.north && c.east && c.south && c.west
  }

  // ---------------------------------------------------------------------------
  // Walls and directions: 0 = north, 1 = east, 2 = south, 3 = west

  /** The wall flag of side d. */
  function Wall(c: Cell, d: nat): bool
    requires d < 4
  {
    match d
    case 0 => c.north
    case 1 => c.east
    case 2 => c.south
    case _ => c.west
  }

  /** The side facing side d of a neighbour: north and south, east and west. */
  function Opposite(d: nat): (o: nat)
    requires d < 4
    ensures o < 4 && o != d && (o + 2) % 4 == d
  {
    (d + 2) % 4
  }

  /** One half of remove_wall: clear side d of a cell; a code other than 0..3 leaves it alone. */
  function ClearSide(c: Cell, d: nat): (r: Cell)
    ensures d < 4 ==> !Wall(r, d)
    ensures d < 4 ==> forall e | e < 4 && e != d :: Wall(r, e) == Wall(c, e)
    ensures d >= 4 ==> r == c
    ensures r.box == c.box && r.visited == c.visited && r.start == c.start && r.end == c.end
  {
    match d
    case 0 => c.(north := false)
    case 1 => c.(east := false)
    case 2 => c.(south := false)
    case 3 => c.(west := false)
    case _ => c
  }

  /**
   * remove_wall(&cells[cur], &cells[next], d): side d of cur and the opposite
   * side of next are cleared, in that order (so the definition is also right
   * when both pointers name the same cell); any other code changes nothing.
   */
  function WithWallRemoved(g: Grid, cur: Pos, next: Pos, d: nat): (r: Grid)
    requires WellFormed(g) && InGrid(cur) && InGrid(next)
    ensures WellFormed(r)
  {
    if d < 4 then
      var g1 := Update(g, cur, ClearSide(At(g, cur), d));
      Update(g1, next, ClearSide(At(g1, next), Opposite(d)))
    else
      g
  }

  /**
   * remove_wall, for two distinct cells: the d side of cur and the opposite side
   * of next are cleared, and every other flag and every other cell is unchanged.
   */
  lemma RemoveWallEffect(g: Grid, cur: Pos, next: Pos, d: nat)
    requires WellFormed(g) && InGrid(cur) && InGrid(next) && cur != next
    ensures var r := WithWallRemoved(g, cur, next, d);
      WellFormed(r) &&
      (d < 4 ==>
        At(r, cur) == ClearSide(At(g, cur), d) &&
        At(r, next) == ClearSide(At(g, next), Opposite(d)) &&
        !Wall(At(r, cur), d) && !Wall(At(r, next), Opposite(d)) &&
        (forall e | e < 4 && e != d :: Wall(At(r, cur), e) == Wall(At(g, cur), e)) &&
        (forall e | e < 4 && e != Opposite(d) :: Wall(At(r, next), e) == Wall(At(g, next), e)) &&
        At(r, cur).visited == At(g, cur).visited && At(r, next).visited == At(g, next).visited &&
        At(r, cur).box == At(g, cur).box && At(r, next).box == At(g, next).box &&
        (forall q | InGrid(q) && q != cur && q != next :: At(r, q) == At(g, q))) &&
      (d >= 4 ==> r == g)
  {
  }

  // ---------------------------------------------------------------------------
  // Neighbours

  /** Cell p has an in-bounds neighbour on side d. */
  predicate HasNeighbor(p: Pos, d: nat)
  {
    InGrid(p) && d < 4 &&
    match d
    case 0 => p.y > 0
    case 1 => p.x + 1 < GridWidth
    case 2 => p.y + 1 < GridHeight
    case _ => p.x > 0
  }

  /** The neighbour of p on side d. */
  function NeighborAt(p: Pos, d: nat): (q: Pos)
    requires HasNeighbor(p, d)
    ensures InGrid(q)
  {
    match d
    case 0 => Pos(p.x, p.y - 1)
    case 1 => Pos(p.x + 1, p.y)
    case 2 => Pos(p.x, p.y + 1)
    case _ => Pos(p.x - 1, p.y)
  }

  /** The direction code of generate_maze for a step from cur to next. */
  function Direction(cur: Pos, next: Pos): (d: nat)
    ensures d < 4
  {
    if next.x == cur.x then (if next.y > cur.y then 2 else 0)
    else (if next.x > cur.x then 1 else 3)
  }

  /** next is an orthogonal in-bounds neighbour of cur. */
  predicate Adjacent(cur: Pos, next: Pos)
  {
    HasNeighbor(cur, Direction(cur, next)) && NeighborAt(cur, Direction(cur, next)) == next
  }

  /**
   * The direction code names the side of the current cell that faces the
   * neighbour, and the opposite side of the neighbour faces back.
   */
  lemma DirectionFacesNeighbor(p: Pos, d: nat)
    requires HasNeighbor(p, d)
    ensures Direction(p, NeighborAt(p, d)) == d
    ensures Adjacent(p, NeighborAt(p, d))
    ensures HasNeighbor(NeighborAt(p, d), Opposite(d))
    ensures NeighborAt(NeighborAt(p, d), Opposite(d)) == p
    ensures Direction(NeighborAt(p, d), p) == Opposite(d)
  {
  }

  /** The test get_neighbors makes on side d: the neighbour there, if it is in bounds and unvisited. */
  function Candidate(g: Grid, p: Pos, d: nat): seq<Pos>
    requires WellFormed(g) && InGrid(p)
  {
    match d
    case 0 => if p.y > 0 && !At(g, Pos(p.x, p.y - 1)).visited then [Pos(p.x, p.y - 1)] else []
    case 1 => if p.x < GridWidth - 1 && !At(g, Pos(p.x + 1, p.y)).visited then [Pos(p.x + 1, p.y)] else []
    case 2 => if p.y < GridHeight - 1 && !At(g, Pos(p.x, p.y + 1)).visited then [Pos(p.x, p.y + 1)] else []
    case _ => if p.x > 0 && !At(g, Pos(p.x - 1, p.y)).visited then [Pos(p.x - 1, p.y)] else []
  }

  /** get_neighbors: the unvisited orthogonal neighbours of p, tried north, east, south, west. */
  function UnvisitedNeighbors(g: Grid, p: Pos): seq<Pos>
    requires WellFormed(g) && InGrid(p)
  {
    Candidate(g, p, 0) + Candidate(g, p, 1) + Candidate(g, p, 2) + Candidate(g, p, 3)
  }

  /** The position (x, y) as a one-entry list when its test succeeded, else nothing. */
  function Taken(test: bool, x: int, y: int): seq<Pos>
    requires test ==> x >= 0 && y >= 0
  {
    if test then [Pos(x, y)] else []
  }

  /** The list get_neighbors builds from the outcomes of its four tests. */
  function Listed(p: Pos, north: bool, east: bool, south: bool, west: bool): seq<Pos>
    requires north ==> p.y > 0
    requires west ==> p.x > 0
  {
    Taken(north, p.x, p.y - 1) + Taken(east, p.x + 1, p.y) + Taken(south, p.x, p.y + 1) + Taken(west, p.x - 1, p.y)
  }

  /** get_neighbors' list, given the outcomes of its four tests. */
  lemma UnvisitedNeighborsByTests(g: Grid, p: Pos, north: bool, east: bool, south: bool, west: bool)
    requires WellFormed(g) && InGrid(p)
    requires north == (p.y > 0 && !At(g, Pos(p.x, p.y - 1)).visited)
    requires east == (p.x < GridWidth - 1 && !At(g, Pos(p.x + 1, p.y)).visited)
    requires south == (p.y < GridHeight - 1 && !At(g, Pos(p.x, p.y + 1)).visited)
    requires west == (p.x > 0 && !At(g, Pos(p.x - 1, p.y)).visited)
    ensures UnvisitedNeighbors(g, p) == Listed(p, north, east, south, west)
  {
  }

  /** Every in-bounds neighbour of p is visited. */
  predicate Finished(g: Grid, p: Pos)
    requires WellFormed(g)
  {
    forall d: nat | d < 4 && HasNeighbor(p, d) :: At(g, NeighborAt(p, d)).visited
  }

  /** What side d contributes to get_neighbors' list: at most one entry, the unvisited neighbour there. */
  lemma CandidateSpec(g: Grid, p: Pos, d: nat)
    requires WellFormed(g) && InGrid(p) && d < 4
    ensures var cs := Candidate(g, p, d);
      |cs| <= 1 &&
      (cs != [] <==> HasNeighbor(p, d) && !At(g, NeighborAt(p, d)).visited) &&
      (cs != [] ==> cs[0] == NeighborAt(p, d) && Direction(p, cs[0]) == d && Adjacent(p, cs[0]))
  {
    if HasNeighbor(p, d) {
      DirectionFacesNeighbor(p, d);
    }
  }

  /** The candidates of sides d, d + 1, .., 3, in that order. */
  function Scan(g: Grid, p: Pos, d: nat): seq<Pos>
    requires WellFormed(g) && InGrid(p) && d <= 4
    decreases 4 - d
  {
    if d == 4 then [] else Candidate(g, p, d) + Scan(g, p, d + 1)
  }

  /** The candidates of sides d .. 3 are at most 4 - d unvisited neighbours, each in a direction from d on. */
  lemma {:induction false} ScanSound(g: Grid, p: Pos, d: nat)
    requires WellFormed(g) && InGrid(p) && d <= 4
    ensures var s := Scan(g, p, d);
      |s| <= 4 - d &&
      forall i | 0 <= i < |s| :: Adjacent(p, s[i]) && !At(g, s[i]).visited && d <= Direction(p, s[i])
    decreases 4 - d
  {
    if d < 4 {
      ScanSound(g, p, d + 1);
      CandidateSpec(g, p, d);
    }
  }

  /** The candidates of sides d .. 3 come in strictly increasing direction. */
  lemma {:induction false} ScanOrdered(g: Grid, p: Pos, d: nat)
    requires WellFormed(g) && InGrid(p) && d <= 4
    ensures var s := Scan(g, p, d);
      forall i, j | 0 <= i < j < |s| :: Direction(p, s[i]) < Direction(p, s[j])
    decreases 4 - d
  {
    if d < 4 {
      ScanOrdered(g, p, d + 1);
      ScanSound(g, p, d + 1);
      CandidateSpec(g, p, d);
    }
  }

  /** Every unvisited neighbour on a side from d on is among the candidates of sides d .. 3. */
  lemma {:induction false} ScanComplete(g: Grid, p: Pos, d: nat)
    requires WellFormed(g) && InGrid(p) && d <= 4
    ensures forall e | d <= e < 4 && HasNeighbor(p, e) && !At(g, NeighborAt(p, e)).visited :: NeighborAt(p, e) in Scan(g, p, d)
    decreases 4 - d
  {
    if d < 4 {
      ScanComplete(g, p, d + 1);
      CandidateSpec(g, p, d);
    }
  }

  /** The four tests of get_neighbors, taken together, are the scan from side 0. */
  lemma ScanAll(g: Grid, p: Pos)
    requires WellFormed(g) && InGrid(p)
    ensures UnvisitedNeighbors(g, p) == Scan(g, p, 0)
  {
    var c0, c1, c2, c3 := Candidate(g, p, 0), Candidate(g, p, 1), Candidate(g, p, 2), Candidate(g, p, 3);
    assert Scan(g, p, 3) == c3 + [];
    assert c0 + c1 + c2 + c3 == c0 + (c1 + (c2 + (c3 + [])));
  }

  /** Every entry of get_neighbors' list is an unvisited neighbour of p, in increasing direction order. */
  lemma UnvisitedNeighborsSound(g: Grid, p: Pos)
    requires WellFormed(g) && InGrid(p)
    ensures var ns := UnvisitedNeighbors(g, p);
      |ns| <= 4 &&
      (forall i | 0 <= i < |ns| :: Adjacent(p, ns[i]) && !At(g, ns[i]).visited) &&
      (forall i, j | 0 <= i < j < |ns| :: Direction(p, ns[i]) < Direction(p, ns[j]))
  {
    ScanAll(g, p);
    ScanSound(g, p, 0);
    ScanOrdered(g, p, 0);
  }

  /** Every unvisited neighbour of p is in get_neighbors' list. */
  lemma UnvisitedNeighborsComplete(g: Grid, p: Pos)
    requires WellFormed(g) && InGrid(p)
    ensures var ns := UnvisitedNeighbors(g, p);
      forall d | HasNeighbor(p, d) && !At(g, NeighborAt(p, d)).visited :: NeighborAt(p, d) in ns
  {
    ScanAll(g, p);
    ScanComplete(g, p, 0);
  }

  /** get_neighbors' list is empty exactly when every neighbour of p is visited. */
  lemma UnvisitedNeighborsEmpty(g: Grid, p: Pos)
    requires WellFormed(g) && InGrid(p)
    ensures UnvisitedNeighbors(g, p) == [] <==> Finished(g, p)
  {
    if UnvisitedNeighbors(g, p) == [] {
      UnvisitedNeighborsComplete(g, p);
    } else {
      UnvisitedNeighborsSound(g, p);
      var q := UnvisitedNeighbors(g, p)[0];
      assert HasNeighbor(p, Direction(p, q)) && !At(g, NeighborAt(p, Direction(p, q))).visited;
    }
  }

  /**
   * get_neighbors is sound and complete: at most four entries, each an
   * unvisited neighbour of p, every unvisited neighbour listed, in increasing
   * direction order; the list is empty exactly when p is finished.
   */
  lemma UnvisitedNeighborsSpec(g: Grid, p: Pos)
    requires WellFormed(g) && InGrid(p)
    ensures var ns := UnvisitedNeighbors(g, p);
      |ns| <= 4 &&
      (forall i | 0 <= i < |ns| :: Adjacent(p, ns[i]) && !At(g, ns[i]).visited) &&
      (forall d | HasNeighbor(p, d) && !At(g, NeighborAt(p, d)).visited :: NeighborAt(p, d) in ns) &&
      (forall i, j | 0 <= i < j < |ns| :: Direction(p, ns[i]) < Direction(p, ns[j])) &&
      (ns == [] <==> Finished(g, p))
  {
    UnvisitedNeighborsSound(g, p);
    UnvisitedNeighborsComplete(g, p);
    UnvisitedNeighborsEmpty(g, p);
  }

  // ---------------------------------------------------------------------------
  // Tallies over all cells

  /** Sum of f over the first n cells of row y. */
  function RowTally(row: seq<Cell>, y: nat, f: (Cell, Pos) -> nat, n: nat): nat
    requires n <= |row|
  {
    if n == 0 then 0 else RowTally(row, y, f, n - 1) + f(row[n - 1], Pos(n - 1, y))
  }

  /** Sum of f over the first m rows. */
  function RowsTally(g: Grid, f: (Cell, Pos) -> nat, m: nat): nat
    requires WellFormed(g) && m <= GridHeight
  {
    if m == 0 then 0 else RowsTally(g, f, m - 1) + RowTally(g[m - 1], m - 1, f, GridWidth)
  }

  /** Sum of f over every cell of the grid. */
  function Tally(g: Grid, f: (Cell, Pos) -> nat): nat
    requires WellFormed(g)
  {
    RowsTally(g, f, GridHeight)
  }

  lemma {:induction false} RowTallyUpdate(row: seq<Cell>, y: nat, f: (Cell, Pos) -> nat, n: nat, x: nat, c: Cell)
    requires n <= |row| && x < |row|
    ensures RowTally(row[x := c], y, f, n) + (if x < n then f(row[x], Pos(x, y)) else 0)
         == RowTally(row, y, f, n) + (if x < n then f(c, Pos(x, y)) else 0)
  {
    if n > 0 {
      RowTallyUpdate(row, y, f, n - 1, x, c);
    }
  }

  lemma {:induction false} RowsTallyUpdate(g: Grid, f: (Cell, Pos) -> nat, m: nat, p: Pos, c: Cell)
    requires WellFormed(g) && m <= GridHeight && InGrid(p)
    ensures RowsTally(Update(g, p, c), f, m) + (if p.y < m then f(At(g, p), p) else 0)
         == RowsTally(g, f, m) + (if p.y < m then f(c, p) else 0)
  {
    if m > 0 {
      RowsTallyUpdate(g, f, m - 1, p, c);
      var g' := Update(g, p, c);
      if p.y == m - 1 {
        RowTallyUpdate(g[m - 1], m - 1, f, GridWidth, p.x, c);
      } else {
        assert g'[m - 1] == g[m - 1];
      }
    }
  }

  /** Overwriting one cell changes a tally by the difference of that cell's weights. */
  lemma TallyUpdate(g: Grid, f: (Cell, Pos) -> nat, p: Pos, c: Cell)
    requires WellFormed(g) && InGrid(p)
    ensures Tally(Update(g, p, c), f) + f(At(g, p), p) == Tally(g, f) + f(c, p)
  {
    RowsTallyUpdate(g, f, GridHeight, p, c);
  }

  lemma {:induction false} RowTallyConst(row: seq<Cell>, y: nat, f: (Cell, Pos) -> nat, n: nat, k: nat)
    requires n <= |row|
    requires forall x | 0 <= x < n :: f(row[x], Pos(x, y)) == k
    ensures RowTally(row, y, f, n) == k * n
  {
    if n > 0 {
      RowTallyConst(row, y, f, n - 1, k);
    }
  }

  lemma {:induction false} RowsTallyConst(g: Grid, f: (Cell, Pos) -> nat, m: nat, k: nat)
    requires WellFormed(g) && m <= GridHeight
    requires forall p | InGrid(p) :: f(At(g, p), p) == k
    ensures RowsTally(g, f, m) == k * GridWidth * m
  {
    if m > 0 {
      RowsTallyConst(g, f, m - 1, k);
      var y := m - 1;
      var row := g[y];
      forall x | 0 <= x < GridWidth
        ensures f(row[x], Pos(x, y)) == k
      {
        assert At(g, Pos(x, y)) == row[x];
      }
      RowTallyConst(row, y, f, GridWidth, k);
    }
  }

  /** A weight that is the same on every cell tallies to that weight times the cell count. */
  lemma TallyConst(g: Grid, f: (Cell, Pos) -> nat, k: nat)
    requires WellFormed(g)
    requires forall p | InGrid(p) :: f(At(g, p), p) == k
    ensures Tally(g, f) == k * NumCells
  {
    RowsTallyConst(g, f, GridHeight, k);
  }

  /** 1 for an unvisited cell. */
  function UnvisitedWeight(c: Cell, p: Pos): nat
  {
    if c.visited then 0 else 1
  }

  /**
   * The open passages a cell owns: its east side when it has an east
   * neighbour, and its south side when it has a south neighbour. Every
   * interior shared wall is owned by exactly one of its two cells.
   */
  function OpenWeight(c: Cell, p: Pos): nat
  {
    (if p.x + 1 < GridWidth && !c.east then 1 else 0) +
    (if p.y + 1 < GridHeight && !c.south then 1 else 0)
  }

  /** The number of standing wall flags of a cell: the segments draw_maze draws for it. */
  function StandingWeight(c: Cell, p: Pos): nat
  {
    (if c.north then 1 else 0) + (if c.east then 1 else 0) +
    (if c.south then 1 else 0) + (if c.west then 1 else 0)
  }

  /** The number of unvisited cells. */
  function Unvisited(g: Grid): nat
    requires WellFormed(g)
  {
    Tally(g, UnvisitedWeight)
  }
}
