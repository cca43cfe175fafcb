/**
 * The adjacency helpers of library/cell.c. Cells there are 1-based (x, y)
 * pairs: column 0 and row 0 of the padded `visited` array are a border, as
 * are column GridWidth + 1 and row GridHeight + 1. A cell's linear index
 * into the num_cells × num_cells adjacency matrix is (x - 1) · grid_height + (y - 1).
 */
module Adjacency {
  import opened Config

  /** A cell of the 1-based grid of cell.c. */
  predicate InRange(c: Pos)
  {
    1 <= c.x <= GridWidth && 1 <= c.y <= GridHeight
  }

  /** The linear index of curr_pos and neighbor_pos. */
  function Index(c: Pos): (i: nat)
    requires InRange(c)
    ensures i < NumCells
  {
    (c.x - 1) * GridHeight + (c.y - 1)
  }

  /** The cell a linear index stands for. */
  function CellOf(i: nat): (c: Pos)
    requires i < NumCells
    ensures InRange(c)
  {
    Pos(i / GridHeight + 1, i % GridHeight + 1)
  }

  /** Index and CellOf are inverse bijections between the cells and [0, num_cells). */
  lemma IndexRoundTrip(c: Pos, i: nat)
    requires InRange(c) && i < NumCells
    ensures CellOf(Index(c)) == c
    ensures Index(CellOf(i)) == i
  {
    var k := (c.x - 1) * GridHeight + (c.y - 1);
    assert k / GridHeight == c.x - 1 && k % GridHeight == c.y - 1 by {
      DivModUnique(k, c.x - 1, c.y - 1);
    }
  }

  /** k = q · grid_height + r with 0 <= r < grid_height fixes the quotient and the remainder. */
  lemma DivModUnique(k: int, q: int, r: int)
    requires k == q * GridHeight + r && 0 <= r < GridHeight
    ensures k / GridHeight == q && k % GridHeight == r
  {
  }

  /** Different cells have different indices. */
  lemma IndexInjective(a: Pos, b: Pos)
    requires InRange(a) && InRange(b) && Index(a) == Index(b)
    ensures a == b
  {
    IndexRoundTrip(a, 0);
    IndexRoundTrip(b, 0);
  }

  /** A num_cells × num_cells matrix. */
  predicate IsMatrix(m: array2<bool>)
  {
    m.Length0 == NumCells && m.Length1 == NumCells
  }

  /** adj_matrix[i][j] == adj_matrix[j][i] everywhere. */
  ghost predicate Symmetric(m: array2<bool>)
    reads m
    requires IsMatrix(m)
  {
    forall i, j | 0 <= i < NumCells && 0 <= j < NumCells :: m[i, j] == m[j, i]
  }

  /** (i, j) is one of the two entries adjacency(a, b) writes. */
  predicate Joins(i: nat, j: nat, a: Pos, b: Pos)
    requires InRange(a) && InRange(b)
  {
    (i == Index(a) && j == Index(b)) || (i == Index(b) && j == Index(a))
  }

  /** isAdjacency: the matrix entry of the pair, read and not changed. */
  function IsAdjacency(current: Pos, neighbor: Pos, m: array2<bool>): bool
    reads m
    requires InRange(current) && InRange(neighbor) && IsMatrix(m)
  {
    m[Index(current), Index(neighbor)]
  }

  /** On a symmetric matrix, isAdjacency does not depend on the order of its two cells. */
  lemma IsAdjacencySymmetric(a: Pos, b: Pos, m: array2<bool>)
    requires InRange(a) && InRange(b) && IsMatrix(m) && Symmetric(m)
    ensures IsAdjacency(a, b, m) == IsAdjacency(b, a, m)
  {
  }

  /**
   * adjacency: records that current and neighbor are connected, in both
   * entries of the pair; no other entry changes. Hence a symmetric matrix
   * stays symmetric, and a repeated call changes nothing.
   */
  method Adjacency(current: Pos, neighbor: Pos, m: array2<bool>)
    requires InRange(current) && InRange(neighbor) && IsMatrix(m)
    modifies m
    ensures IsAdjacency(current, neighbor, m) && IsAdjacency(neighbor, current, m)
    ensures forall i, j | 0 <= i < NumCells && 0 <= j < NumCells ::
      m[i, j] == (old(m[i, j]) || Joins(i, j, current, neighbor))
    ensures old(Symmetric(m)) ==> Symmetric(m)
    ensures old(IsAdjacency(current, neighbor, m) && IsAdjacency(neighbor, current, m)) ==>
      forall i, j | 0 <= i < NumCells && 0 <= j < NumCells :: m[i, j] == old(m[i, j])
  {
    var currPos := Index(current);
    var neighborPos := Index(neighbor);
    m[currPos, neighborPos] := true;
    m[neighborPos, currPos] := true;
  }

  /** The cell on side `side` (1 west, 2 north, 3 south, 4 east) of c, as the switch of get_neighbor picks it. */
  function Pick(c: Pos, side: nat): (n: Pos)
    requires 1 <= c.x && 1 <= c.y && 1 <= side <= 4
    ensures OneStep(c, n)
  {
    match side
    case 1 => Pos(c.x - 1, c.y)
    case 2 => Pos(c.x, c.y - 1)
    case 3 => Pos(c.x, c.y + 1)
    case _ => Pos(c.x + 1, c.y)
  }

  /** n differs from c by exactly 1 in exactly one coordinate. */
  predicate OneStep(c: Pos, n: Pos)
  {
    (n.x == c.x && (n.y == c.y + 1 || n.y + 1 == c.y)) ||
    (n.y == c.y && (n.x == c.x + 1 || n.x + 1 == c.x))
  }

  /** The padded visited array holds c and its four neighbours. */
  predicate Padded(c: Pos, visited: array2<bool>)
  {
    1 <= c.x && c.x + 1 < visited.Length0 && 1 <= c.y && c.y + 1 < visited.Length1
  }

  /** All four neighbours of c are visited. */
  ghost predicate Surrounded(c: Pos, visited: array2<bool>)
    reads visited
    requires Padded(c, visited)
  {
    forall side | 1 <= side <= 4 :: visited[Pick(c, side).x, Pick(c, side).y]
  }

  /** The side the k-th rand() value picks: rand() % 4 + 1. */
  function Draw(c: Pos, rand: nat -> nat, k: nat): (n: Pos)
    requires 1 <= c.x && 1 <= c.y
    ensures OneStep(c, n)
  {
    Pick(c, rand(k) % 4 + 1)
  }

  /**
   * get_neighbor: None when all four neighbours are visited; otherwise the
   * first drawn neighbour that is unvisited, after `draws` calls of rand().
   * rand(k) is the k-th value rand() returns during the call; `fair` is a
   * draw that lands on an unvisited neighbour whenever there is one, without
   * which the retry loop of the source need not end.
   */
  method GetNeighbor(current: Pos, visited: array2<bool>, rand: nat -> nat, ghost fair: nat)
    returns (neighbor: Option<Pos>, draws: nat)
    requires Padded(current, visited) && visited.Length1 == GridHeight + 2
    requires !Surrounded(current, visited) ==>
      !visited[Draw(current, rand, fair).x, Draw(current, rand, fair).y]
    ensures neighbor.None? <==> Surrounded(current, visited)
    ensures neighbor.None? ==> draws == 0
    ensures neighbor.Some? ==>
      var n := neighbor.value;
      OneStep(current, n) && !visited[n.x, n.y] &&
      draws >= 1 && n == Draw(current, rand, draws - 1) &&
      forall k | 0 <= k < draws - 1 :: visited[Draw(current, rand, k).x, Draw(current, rand, k).y]
  {
    var x, y := current.x, current.y;
    if visited[x - 1, y] && visited[x, y - 1] && visited[x, y + 1] && visited[x + 1, y] {
      assert forall side | 1 <= side <= 4 :: visited[Pick(current, side).x, Pick(current, side).y];
      return None, 0;
    }
    assert !Surrounded(current, visited) by {
      assert Pick(current, 1) == Pos(x - 1, y) && Pick(current, 2) == Pos(x, y - 1);
      assert Pick(current, 3) == Pos(x, y + 1) && Pick(current, 4) == Pos(x + 1, y);
    }
    var n := Draw(current, rand, 0);
    draws := 1;
    while visited[n.x, n.y]
      invariant !Surrounded(current, visited)
      invariant 1 <= draws <= fair + 1
      invariant n == Draw(current, rand, draws - 1)
      invariant forall k | 0 <= k < draws - 1 :: visited[Draw(current, rand, k).x, Draw(current, rand, k).y]
      decreases fair + 1 - draws
    {
      n := Draw(current, rand, draws);
      draws := draws + 1;
    }
    neighbor := Some(n);
  }
}
