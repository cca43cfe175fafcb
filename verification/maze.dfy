/**
 * The maze of library/maze.c as imperative state: maze_t with its cell rows
 * (cells[y][x], here a two-dimensional array) and its backtracking stack,
 * and the operations that change them in place: init_maze, remove_wall,
 * get_neighbors and generate_maze; plus the building markers of
 * buildings_init. Each method is specified against the grid values and
 * functions of CellGrid and Generation.
 */
module Maze {
  import opened Config
  import opened CellGrid
  import opened Generation

  /** building_t: the pixel position of a building marker. */
  datatype Building = Building(x: nat, y: nat)

  /** maze_t: the cells, indexed [y, x], and the stack of (x, y) entries, top last. */
  class Maze {
    const cells: array2<Cell>
    var stack: seq<Pos>

    ghost predicate Valid()
    {
      cells.Length0 == GridHeight && cells.Length1 == GridWidth
    }

    /** The cells as a grid value. */
    ghost function Snapshot(): (g: Grid)
      reads cells
      requires Valid()
      ensures WellFormed(g)
      ensures forall p | InGrid(p) :: At(g, p) == cells[p.y, p.x]
    {
      RowsOf(GridHeight)
    }

    /** Rows 0 .. n - 1 of the cells. */
    ghost function RowsOf(n: nat): (rows: seq<seq<Cell>>)
      reads cells
      requires Valid() && n <= GridHeight
      ensures |rows| == n
      ensures forall y | 0 <= y < n :: |rows[y]| == GridWidth
      ensures forall p | InGrid(p) && p.y < n :: rows[p.y][p.x] == cells[p.y, p.x]
    {
      if n == 0 then [] else RowsOf(n - 1) + [RowOf(n - 1, GridWidth)]
    }

    /** Cells 0 .. n - 1 of row y. */
    ghost function RowOf(y: nat, n: nat): (row: seq<Cell>)
      reads cells
      requires Valid() && y < GridHeight && n <= GridWidth
      ensures |row| == n
      ensures forall x | 0 <= x < n :: row[x] == cells[y, x]
    {
      if n == 0 then [] else RowOf(y, n - 1) + [cells[y, n - 1]]
    }

    /** The allocation done by create_maze: the cell storage, not yet initialised; the stack is left unset until init_maze. */
    constructor ()
      ensures Valid() && fresh(cells)
    {
      cells := new Cell[GridHeight, GridWidth];
    }

    /** Overwrites one cell. */
    method Store(p: Pos, c: Cell)
      requires Valid() && InGrid(p)
      modifies cells
      ensures Snapshot() == Update(old(Snapshot()), p, c)
    {
      ghost var g := Snapshot();
      cells[p.y, p.x] := c;
      GridExtensional(Snapshot(), Update(g, p, c));
    }

    /** init_maze: empty stack; every cell gets all four walls, no visit, and its box. */
    method InitMaze()
      requires Valid()
      modifies this, cells
      ensures stack == []
      ensures Snapshot() == InitialGrid()
    {
      stack := [];
      for y := 0 to GridHeight
        invariant stack == []
        invariant forall q | InGrid(q) && q.y < y :: cells[q.y, q.x] == FreshCell(q)
      {
        for x := 0 to GridWidth
          invariant stack == []
          invariant forall q | InGrid(q) && (q.y < y || (q.y == y && q.x < x)) :: cells[q.y, q.x] == FreshCell(q)
        {
          cells[y, x] := FreshCell(Pos(x, y));
        }
      }
      GridExtensional(Snapshot(), InitialGrid());
    }

    /** remove_wall(&cells[cur], &cells[next], direction). */
    method RemoveWall(cur: Pos, next: Pos, direction: nat)
      requires Valid() && InGrid(cur) && InGrid(next)
      modifies cells
      ensures Snapshot() == WithWallRemoved(old(Snapshot()), cur, next, direction)
    {
      match direction
      case 0 =>
        Store(cur, cells[cur.y, cur.x].(north := false));
        Store(next, cells[next.y, next.x].(south := false));
      case 1 =>
        Store(cur, cells[cur.y, cur.x].(east := false));
        Store(next, cells[next.y, next.x].(west := false));
      case 2 =>
        Store(cur, cells[cur.y, cur.x].(south := false));
        Store(next, cells[next.y, next.x].(north := false));
      case 3 =>
        Store(cur, cells[cur.y, cur.x].(west := false));
        Store(next, cells[next.y, next.x].(east := false));
      case _ =>
    }

    /**
     * get_neighbors: writes the unvisited orthogonal neighbours of (x, y)
     * into rows 0 .. count - 1 of neighbors, north, east, south, west.
     */
    method GetNeighbors(x: nat, y: nat, neighbors: array2<nat>, ghost g: Grid) returns (count: nat)
      requires Valid() && InGrid(Pos(x, y)) && g == Snapshot()
      requires neighbors.Length0 >= 4 && neighbors.Length1 == 2
      modifies neighbors
      ensures count == |UnvisitedNeighbors(g, Pos(x, y))| <= 4
      ensures forall i | 0 <= i < count :: Pos(neighbors[i, 0], neighbors[i, 1]) == UnvisitedNeighbors(g, Pos(x, y))[i]
    {
      // the four tests of get_neighbors; none of them reads the table
      var north := y > 0 && !cells[y - 1, x].visited;
      var east := x < GridWidth - 1 && !cells[y, x + 1].visited;
      var south := y < GridHeight - 1 && !cells[y + 1, x].visited;
      var west := x > 0 && !cells[y, x - 1].visited;
      UnvisitedNeighborsByTests(g, Pos(x, y), north, east, south, west);
      count := Fill(neighbors, x, y, north, east, south, west);
    }

    /** The forward move of generate_maze: remove_wall between cur and next, then mark next visited. */
    method Carve(cur: Pos, next: Pos, direction: nat)
      requires Valid() && InGrid(cur) && InGrid(next) && direction == Direction(cur, next)
      modifies cells
      ensures Snapshot() == Advance(old(Snapshot()), cur, next)
    {
      RemoveWall(cur, next, direction);
      Store(next, cells[next.y, next.x].(visited := true));
    }

    /**
     * generate_maze: depth-first search from (0, 0) with an explicit stack.
     * rand(k) is the k-th value rand() returns during the call. Started on a
     * grid of untouched cells, it ends with an empty stack and a spanning tree
     * of passages.
     */
    method GenerateMaze(rand: nat -> nat)
      requires Valid() && stack == []
      requires forall p | InGrid(p) :: Untouched(cells[p.y, p.x])
      modifies this, cells
      ensures stack == []
      ensures SpanningTree(Snapshot())
      ensures Tally(Snapshot(), StandingWeight) == 4 * NumCells - 2 * (NumCells - 1)
      ensures SameBoxes(Snapshot(), old(Snapshot()))
    {
      var x: nat, y: nat := 0, 0;
      ghost var g0 := Snapshot();
      StartReachable(g0);
      Store(Pos(x, y), cells[y, x].(visited := true));
      stack := stack + [Pos(x, y)];
      ghost var g := Start(g0);
      assert stack == [Root];
      var draws := 0;
      var neighbors := new nat[4, 2];

      while stack != []
        invariant Valid() && Snapshot() == g
        invariant InGrid(Pos(x, y)) && Reachable(g, stack, Pos(x, y))
        invariant SameBoxes(g, g0)
        decreases Measure(g, stack)
      {
        x, y, draws := Step(x, y, neighbors, rand, draws);
        g := Snapshot();
      }
      ReachableFinal(g, Pos(x, y));
    }

    method Step(x: nat, y: nat, neighbors: array2<nat>, rand: nat -> nat, draws: nat) returns (x': nat, y': nat, draws': nat)
      requires Valid() && neighbors.Length0 == 4 && neighbors.Length1 == 2
      requires InGrid(Pos(x, y)) && Reachable(Snapshot(), stack, Pos(x, y)) && stack != []
      modifies this, cells, neighbors
      ensures InGrid(Pos(x', y')) && Reachable(Snapshot(), stack, Pos(x', y'))
      ensures SameBoxes(Snapshot(), old(Snapshot()))
      ensures Measure(Snapshot(), stack) < old(Measure(Snapshot(), stack))
      ensures draws <= draws' <= draws + 1
      ensures var ns := UnvisitedNeighbors(old(Snapshot()), Pos(x, y));
        ns != [] ==>
          Pos(x', y') == ns[rand(draws) % |ns|] && draws' == draws + 1 &&
          Snapshot() == Advance(old(Snapshot()), Pos(x, y), Pos(x', y')) && stack == old(stack) + [Pos(x, y)]
      ensures UnvisitedNeighbors(old(Snapshot()), Pos(x, y)) == [] ==>
        draws' == draws && Snapshot() == old(Snapshot()) &&
        stack == old(stack)[..|old(stack)| - 1] && Pos(x', y') == old(stack)[|old(stack)| - 1]
    {
      ghost var g := Snapshot();
      ghost var ns := UnvisitedNeighbors(g, Pos(x, y));
      var count := GetNeighbors(x, y, neighbors, g);
      assert Snapshot() == g;
      if count > 0 {
        var r := rand(draws) % count;
        draws' := draws + 1;
        var nx, ny := neighbors[r, 0], neighbors[r, 1];
        assert Pos(nx, ny) == ns[r];
        Forward(Pos(x, y), Pos(nx, ny));
        x', y' := nx, ny;
      } else {
        assert ns == [];
        x', y' := Backtrack(Pos(x, y));
        draws' := draws;
      }
    }

    /** The forward move: carve from cur into its unvisited neighbour next and push cur. */
    method Forward(cur: Pos, next: Pos)
      requires Valid() && Reachable(Snapshot(), stack, cur) && stack != []
      requires next in UnvisitedNeighbors(Snapshot(), cur)
      modifies this, cells
      ensures Reachable(Snapshot(), stack, next)
      ensures SameBoxes(Snapshot(), old(Snapshot()))
      ensures Measure(Snapshot(), stack) < old(Measure(Snapshot(), stack))
      ensures Snapshot() == Advance(old(Snapshot()), cur, next) && stack == old(stack) + [cur]
    {
      ghost var g := Snapshot();
      ForwardReachable(g, stack, cur, next);
      var direction := Direction(cur, next);
      Carve(cur, next, direction);
      stack := stack + [cur];
    }

    /** The backtrack: cur has no unvisited neighbour, so the search resumes from the popped top of the stack. */
    method Backtrack(cur: Pos) returns (x': nat, y': nat)
      requires Valid() && Reachable(Snapshot(), stack, cur) && stack != []
      requires UnvisitedNeighbors(Snapshot(), cur) == []
      modifies this
      ensures Reachable(Snapshot(), stack, Pos(x', y'))
      ensures Measure(Snapshot(), stack) < old(Measure(Snapshot(), stack))
      ensures Snapshot() == old(Snapshot())
      ensures stack == old(stack)[..|old(stack)| - 1] && Pos(x', y') == old(stack)[|old(stack)| - 1]
    {
      BacktrackReachable(Snapshot(), stack, cur);
      var top := stack[|stack| - 1];
      stack := stack[..|stack| - 1];
      x', y' := top.x, top.y;
    }

    /** init_maze followed by generate_maze, as maze_init runs them. */
    method InitAndGenerate(rand: nat -> nat)
      requires Valid()
      modifies this, cells
      ensures stack == []
      ensures SpanningTree(Snapshot())
      ensures forall p | InGrid(p) :: cells[p.y, p.x].box == FreshCell(p).box
    {
      InitMaze();
      assert forall p | InGrid(p) :: cells[p.y, p.x] == FreshCell(p) by {
        forall p | InGrid(p) ensures cells[p.y, p.x] == FreshCell(p) {
          assert At(Snapshot(), p) == At(InitialGrid(), p);
        }
      }
      GenerateMaze(rand);
    }
  }

  /** Rows 0 .. |ps| - 1 of a coordinate table hold ps. */
  ghost predicate Written(table: array2<nat>, ps: seq<Pos>)
    reads table
  {
    |ps| <= table.Length0 && table.Length1 == 2 &&
    forall i | 0 <= i < |ps| :: Pos(table[i, 0], table[i, 1]) == ps[i]
  }

  /** The writes of get_neighbors: the neighbours whose test succeeded, north, east, south, west, into rows 0 .. count - 1. */
  method Fill(table: array2<nat>, x: nat, y: nat, north: bool, east: bool, south: bool, west: bool) returns (count: nat)
    requires table.Length0 >= 4 && table.Length1 == 2
    requires north ==> y > 0
    requires west ==> x > 0
    modifies table
    ensures count == |Listed(Pos(x, y), north, east, south, west)|
    ensures forall i | 0 <= i < count :: Pos(table[i, 0], table[i, 1]) == Listed(Pos(x, y), north, east, south, west)[i]
  {
    count := Offer(table, 0, [], north, x, y - 1);
    // found: the neighbours of the sides tested so far, held in rows 0 .. count - 1
    ghost var found := Taken(north, x, y - 1);
    assert [] + found == found;
    count := Offer(table, count, found, east, x + 1, y);
    found := found + Taken(east, x + 1, y);
    count := Offer(table, count, found, south, x, y + 1);
    found := found + Taken(south, x, y + 1);
    count := Offer(table, count, found, west, x - 1, y);
    found := found + Taken(west, x - 1, y);
  }

  /** One test of get_neighbors that succeeded or not: if it did, write (x, y) into row count and count it. */
  method Offer(table: array2<nat>, count: nat, ghost ps: seq<Pos>, take: bool, x: int, y: int) returns (count': nat)
    requires Written(table, ps) && count == |ps|
    requires take ==> count < table.Length0 && x >= 0 && y >= 0
    modifies table
    ensures count' == |ps + Taken(take, x, y)| <= count + 1
    ensures Written(table, ps + Taken(take, x, y))
    ensures !take ==> unchanged(table)
    ensures forall i, j | 0 <= i < table.Length0 && 0 <= j < table.Length1 && i != count :: table[i, j] == old(table[i, j])
  {
    count' := count;
    if take {
      table[count, 0] := x;
      table[count, 1] := y;
      count' := count + 1;
    }
  }

  // ---------------------------------------------------------------------------
  // buildings_init

  /**
   * The building a pair of rand() values places: column GRID_WIDTH - rand_x and
   * row GRID_HEIGHT - rand_y, offset by a quarter cell; it lies inside a cell of
   * the grid, a quarter cell from that cell's corner.
   */
  function BuildingAt(randomX: nat, randomY: nat): (b: Building)
    ensures b.x % GridCellSize == GridCellSize / 4 && b.x / GridCellSize < GridWidth
    ensures b.y % GridCellSize == GridCellSize / 4 && b.y / GridCellSize < GridHeight
    ensures b.x + GridCellSize / 2 < MazeWindowWidth && b.y + GridCellSize / 2 < MazeWindowHeight
  {
    var randX := randomX % GridWidth + 1;
    var randY := randomY % GridHeight + 1;
    Building((GridWidth - randX) * GridCellSize + GridCellSize / 4,
             (GridHeight - randY) * GridCellSize + GridCellSize / 4)
  }

  /** buildings_init: building i takes the 2i-th and (2i+1)-th rand() values. */
  method BuildingsInit(buildings: array<Building>, rand: nat -> nat)
    requires buildings.Length == NumBuildings
    modifies buildings
    ensures forall i | 0 <= i < NumBuildings :: buildings[i] == BuildingAt(rand(2 * i), rand(2 * i + 1))
  {
    for i := 0 to NumBuildings
      invariant forall j | 0 <= j < i :: buildings[j] == BuildingAt(rand(2 * j), rand(2 * j + 1))
    {
      var randX := rand(2 * i) % GridWidth + 1;
      var randY := rand(2 * i + 1) % GridHeight + 1;
      buildings[i] := Building((GridWidth - randX) * GridCellSize + GridCellSize / 4,
                               (GridHeight - randY) * GridCellSize + GridCellSize / 4);
    }
  }
}
