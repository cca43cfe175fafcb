# Maze generation core of hideout, in Dafny

hideout is a small SDL game. A 25 × 12 grid maze is carved by a randomized
depth-first search, and a "hider" square is moved through the window with
the arrow keys. This project models the maze core of `library/maze.c` and the
adjacency helpers of `library/cell.c`, and proves what they promise.

- `config.dfy` (module `Config`): the build-time constants (`GRID_WIDTH`,
  `GRID_HEIGHT`, `GRID_CELL_SIZE`, the window size, `NUM_BUILDINGS`) and the
  shared value types `Pos`, `Rect` (SDL_Rect) and `Option`.
- `grid.dfy` (module `CellGrid`): `cell_t` and the cell grid as values. It
  defines the grid `init_maze` builds, the effect of `remove_wall`, the
  neighbour list of `get_neighbors`, and the direction code at line 270.
  It also defines tallies over all cells (unvisited cells, open shared
  walls, standing wall flags).
- `generation.dfy` (module `Generation`): the loop of `generate_maze` as a
  state machine over (grid, stack, current cell). It gives the invariant
  the loop keeps, shows that every forward step and every backtrack lowers
  `2 · unvisited + |stack|`, and proves that the state where the stack is
  empty holds a spanning tree.
- `maze.dfy` (module `Maze`): `maze_t` as a class. It has the cell array
  `cells[y, x]` and the stack, plus the in-place operations `init_maze`,
  `remove_wall`, `get_neighbors`, `generate_maze` and `buildings_init`.
  Each is proved against the functions of the two modules above, and
  buildings_init against `BuildingAt`.
- `hider.dfy` (module `Hider`): the global `hider` rectangle and `on_key`.
- `cell.dfy` (module `Adjacency`): the linear index, `adjacency`,
  `isAdjacency` and `get_neighbor` of `library/cell.c`.

Integer widths: `int` and `size_t` are both 32 bits wide, as on the wasm32
target that the emscripten entry points of `demo/game.c` are built for
(`Config.SizeTModulus`).

Randomness: `rand` is a parameter `rand: nat -> nat`, and `rand(k)` is the
k-th value `rand()` returns. The stack of `stack.h` is a `seq<Pos>` with the
top last.

Where the code differs from its own comments or from what a reader might
expect, the model follows the code:

- The hider and the building markers are in pixel coordinates.
- The comment above `init_maze` says border cells are marked visited. The
  code does not do that, and neither does the model.
- The start cell (0, 0) is pushed at line 258 and again by the first forward
  step at line 274. The model keeps both pushes.

## Model

| member | source | states |
|---|---|---|
| Maze.Maze.InitMaze | library/maze.c:75-94 | The stack is empty and every cell (x, y) is `FreshCell`: all four walls up, not visited, no start or end mark, box (40x, 40y, 40, 40). |
| CellGrid.InitialGrid | library/maze.c:79-93 | The grid init_maze builds has 12 rows of 25 cells, and cell (x, y) is `FreshCell((x, y))`. |
| Maze.Maze.RemoveWall | library/maze.c:102-123 | The cells become `WithWallRemoved(old cells, cur, next, direction)`. Any code other than 0..3 leaves them unchanged. |
| CellGrid.ClearSide | library/maze.c:104-122 | Clearing side d (d < 4) lowers that flag and no other. Box, visited and markers are kept. A code of 4 or more changes nothing. |
| CellGrid.Opposite | library/maze.c:106-121 | The facing side of a neighbour is another side: north pairs with south, east with west. |
| CellGrid.WithWallRemoved | library/maze.c:102-123 | The grid after remove_wall is again a 12 × 25 grid. What it changes is stated by RemoveWallEffect. |
| CellGrid.RemoveWallEffect | library/maze.c:102-123 | For two distinct cells and d in 0..3, exactly side d of cur and the opposite side of next are cleared. Every other flag, both boxes, both visited flags and every other cell stay as they were. Any other d leaves the grid unchanged. |
| CellGrid.Direction | library/maze.c:270 | The code of line 270 is always one of the four wall codes 0..3, so remove_wall never takes its default branch. DirectionFacesNeighbor states which code each neighbour gets. |
| CellGrid.DirectionFacesNeighbor | library/maze.c:270 | For the neighbour on side d, the direction expression of line 270 yields d. That neighbour is adjacent, and its side facing back is `Opposite(d)`. So remove_wall opens the shared wall from both sides. |
| Maze.Maze.GetNeighbors | library/maze.c:139-164 | count is the length of `UnvisitedNeighbors` (at most 4). Rows 0 .. count-1 of the table hold that list in order. The grid is only read. |
| Maze.Fill | library/maze.c:141-163 | Given the outcomes of the four tests, rows 0 .. count-1 hold the neighbours whose test passed, north, east, south, west, and count is their number. |
| Maze.Offer | library/maze.c:143-147 | A passed test appends its position to the rows written so far and increments count by one. No row other than row count changes, and a failed test changes nothing in the table. |
| CellGrid.UnvisitedNeighbors | library/maze.c:139-164 | The list get_neighbors writes. UnvisitedNeighborsSpec proves it sound, complete and ordered, and empty exactly for a finished cell. |
| CellGrid.UnvisitedNeighborsByTests | library/maze.c:143-161 | The neighbour list is fixed by the four tests (in bounds and unvisited) in the order north, east, south, west. |
| CellGrid.CandidateSpec | library/maze.c:143-161 | One test contributes at most one position. It does so exactly when side d has an in-bounds unvisited neighbour, and that position lies in direction d. |
| CellGrid.UnvisitedNeighborsSound | library/maze.c:139-164 | There are at most 4 entries. Each is an adjacent, unvisited cell, and the directions strictly increase (north, east, south, west). |
| CellGrid.UnvisitedNeighborsComplete | library/maze.c:139-164 | Every in-bounds unvisited orthogonal neighbour is listed. |
| CellGrid.UnvisitedNeighborsEmpty | library/maze.c:139-164 | The list is empty exactly when every in-bounds neighbour is visited. |
| CellGrid.UnvisitedNeighborsSpec | library/maze.c:139-164 | Soundness, completeness and order together, and emptiness exactly for a finished cell. |
| CellGrid.ScanSound | library/maze.c:143-161 | The tests from side d on yield at most 4 - d entries. Each is an adjacent unvisited cell in a direction of at least d. |
| CellGrid.ScanOrdered | library/maze.c:143-161 | The tests from side d on yield entries in strictly increasing direction. |
| CellGrid.ScanComplete | library/maze.c:143-161 | The tests from side d on list every unvisited neighbour on sides d..3. |
| CellGrid.TallyUpdate | library/maze.c:272-273 | Overwriting one cell changes a tally over all cells by the difference of that cell's old and new weights. |
| CellGrid.TallyConst | library/maze.c:79-93 | A weight equal to k on every cell tallies to k · 300. |
| Generation.AdvanceEffect | library/maze.c:270-273 | A forward step clears side d of cur and the opposite side of next, marks next visited, and leaves every other cell alone. Visited flags only go from false to true. |
| Generation.ClearSideWeights | library/maze.c:104-122 | Clearing a standing side removes one standing flag. It opens one owned passage when the side is east or south. |
| Generation.AdvanceTally | library/maze.c:272-273 | A tally changes over a forward step only through the two cells of the step. |
| Generation.AdvanceCounts | library/maze.c:265-276 | A forward step into an unvisited cell whose shared wall stands leaves one unvisited cell fewer and one more open shared wall. It removes exactly two standing wall flags. |
| Generation.WallUpBeforeAdvance | library/maze.c:265-272 | Before the step, the wall between cur and an unvisited next still stands on both sides. |
| Generation.AdvancePassages | library/maze.c:272 | After a forward step, a wall side is open exactly when it separates the two ends of a recorded edge, now including (cur, next). |
| Generation.AdvancePassageAt | library/maze.c:272 | The same correspondence, for one wall side. |
| Generation.UntouchedWallsAgree | library/maze.c:83-91 | On a grid where every wall stands, the two sides of every shared wall agree. |
| Generation.Start | library/maze.c:256-257 | The grid after (0, 0) is marked visited is again a 12 × 25 grid. StartInv states the loop invariant it establishes. |
| Generation.Advance | library/maze.c:272-273 | The grid after remove_wall and marking next visited is again a 12 × 25 grid. AdvanceEffect states exactly which flags change. |
| Generation.StartInv | library/maze.c:256-258 | After (0, 0) is marked visited and pushed, the loop invariant holds and no box has changed. |
| Generation.StartReachable | library/maze.c:256-258 | The state after lines 256-258 satisfies the loop invariant for some visit order and edge record. |
| Generation.ForwardShape | library/maze.c:274-276 | A forward step keeps the stack's shape: only visited cells, (0, 0) at the bottom twice. |
| Generation.ForwardCovered | library/maze.c:273-276 | After a forward step, every visited cell is on the stack, is current, or has no unvisited neighbour. |
| Generation.ForwardOrder | library/maze.c:273 | Appending next to the visit order keeps it a duplicate-free list of exactly the visited cells. |
| Generation.ForwardEdges | library/maze.c:272-275 | The edge (cur, next) extends the record of tree edges: each later cell is reached from an adjacent earlier cell. |
| Generation.ForwardStep | library/maze.c:265-276 | From an invariant state, a step to a listed neighbour re-establishes the invariant with cur pushed. It keeps every box, marks exactly next visited and lowers the measure. |
| Generation.BacktrackShape | library/maze.c:278-281 | Popping from the stack of a finished cell keeps the stack's shape. |
| Generation.BacktrackCovered | library/maze.c:278-281 | Popping keeps every visited cell on the stack, current, or finished. |
| Generation.BacktrackStep | library/maze.c:278-281 | When the current cell has no unvisited neighbour, popping re-establishes the invariant and lowers the measure. |
| Generation.ForwardReachable | library/maze.c:265-276 | A forward step from a reachable state reaches a state, keeps every box and lowers `2 · unvisited + |stack|`. |
| Generation.BacktrackReachable | library/maze.c:278-281 | A backtrack from a reachable state reaches a state and lowers `2 · unvisited + |stack|`. |
| Generation.ReachedFromRoot | library/maze.c:260-282 | If (0, 0) is visited and every visited cell is finished, then every cell is visited. |
| Generation.PassagesAgree | library/maze.c:272 | A grid whose open sides are exactly the recorded edges has agreeing walls on every shared edge. |
| Generation.TreePath | library/maze.c:265-276 | A walk from (0, 0) to the i-th visited cell along recorded edges. |
| Generation.EdgesArePassages | library/maze.c:272 | Every recorded edge is an open passage. |
| Generation.TreeConnects | library/maze.c:254-283 | Once every cell is visited, every cell can be reached from (0, 0) through open passages. |
| Generation.FinalState | library/maze.c:254-283 | With an empty stack, the passages form a spanning tree: every cell visited, walls agreeing, 299 open shared walls, connected. There are 299 edges, and 4 · 300 - 2 · 299 wall flags stand. |
| Generation.ReachableWallsAgree | library/maze.c:260-282 | At every state the loop reaches, not only the final one, the walls on the two sides of each shared edge agree. |
| Generation.ReachableFinal | library/maze.c:260-283 | A reachable state with an empty stack holds a spanning tree with 4 · 300 - 2 · 299 standing wall flags. |
| Maze.Maze.GenerateMaze | library/maze.c:254-283 | Started on untouched cells with an empty stack, the loop terminates with an empty stack. The cells then hold a spanning tree, exactly 4 · 300 - 2 · 299 wall flags stand, and no box has changed. |
| Maze.Maze.Step | library/maze.c:261-281 | One iteration keeps the state reachable, keeps every box and strictly lowers `2 · unvisited + |stack|`. With unvisited neighbours, it draws one rand() value r. The next cell is entry r mod count of the neighbour list, the grid becomes `Advance(old grid, cur, next)`, and cur is pushed. Otherwise it draws nothing, the grid is unchanged, and the top of the stack is popped and becomes the current cell. |
| Maze.Maze.Forward | library/maze.c:267-276 | The grid becomes `Advance(old grid, cur, next)` and the stack gains cur on top. The state stays reachable, every box is kept, and the measure drops. |
| Maze.Maze.Backtrack | library/maze.c:280 | The grid is unchanged, the stack loses exactly its top, and that top becomes the current cell. The state stays reachable and the measure drops. |
| Maze.Maze.Carve | library/maze.c:272-273 | remove_wall between cur and next followed by marking next visited yields `Advance(old grid, cur, next)`. |
| Maze.Maze.InitAndGenerate | library/maze.c:312-313 | init_maze then generate_maze leaves an empty stack, a spanning tree, and every box as init_maze set it. |
| Maze.Maze.constructor | library/maze.c:239-248 | A fresh 12 × 25 cell array. Like create_maze, it promises nothing about the cells or the stack, which init_maze sets first. |
| Maze.BuildingAt | library/maze.c:293-298 | Each coordinate is a quarter cell into a cell of the grid (x mod 40 = 10 with x / 40 < 25, likewise for y). The marker lies inside the window. |
| Maze.BuildingsInit | library/maze.c:289-301 | Building i is placed by the 2i-th and (2i+1)-th rand() values. |
| Hider.ToSizeT | library/maze.c:183 | The int-to-size_t conversion keeps values in [0, 2^32) and adds 2^32 to negative values. |
| Hider.Moved | library/maze.c:166-212 | Nothing moves unless the event is a key press of an arrow key. A move keeps width and height and shifts exactly one coordinate by exactly 40. |
| Hider.ArrowMovesWithinWindow | library/maze.c:172-209 | From inside the window, each arrow moves the hider exactly when the moved coordinate lies in [0, 1001) or [0, 481). Otherwise the hider stays put. |
| Hider.MovedStaysInCell | library/maze.c:166-212 | A hider inside the window and a quarter cell into its cell stays so after any key event. |
| Hider.HiderCell | library/maze.c:20 | Such a hider stands inside a cell of the 25 × 12 grid. |
| Hider.HiderState.constructor | library/maze.c:20 | The hider starts at (10, 10) with size 20 × 20, inside the window and a quarter cell into cell (0, 0). |
| Hider.HiderState.OnKey | library/maze.c:166-212 | The hider becomes `Moved(old hider, key, type)` and stays inside the window and aligned in its cell. |
| Adjacency.Index | library/cell.c:18-19 | For 1 ≤ x ≤ 25 and 1 ≤ y ≤ 12, (x - 1) · 12 + (y - 1) lies in [0, 300). |
| Adjacency.CellOf | library/cell.c:18-19 | Every index in [0, 300) stands for a cell of the 1-based grid. |
| Adjacency.IndexRoundTrip | library/cell.c:18-19 | Index and CellOf are inverse to each other. |
| Adjacency.IndexInjective | library/cell.c:26-27 | Different cells get different indices. |
| Adjacency.IsAdjacency | library/cell.c:24-29 | Reads the matrix entry of the pair and changes nothing. Adjacency's contract shows that it holds both ways after adjacency, and IsAdjacencySymmetric shows that on a symmetric matrix it does not depend on argument order. |
| Adjacency.IsAdjacencySymmetric | library/cell.c:24-29 | On a symmetric matrix, isAdjacency(a, b) equals isAdjacency(b, a). |
| Adjacency.Adjacency | library/cell.c:16-22 | Afterwards isAdjacency holds both ways. Exactly the two entries of the pair become true and every other entry keeps its value. A symmetric matrix stays symmetric, and a repeated call changes nothing. |
| Adjacency.Pick | library/cell.c:43-61 | Each of the four switch cases picks a cell one step away along exactly one axis. |
| Adjacency.Draw | library/cell.c:42-61 | The cell picked by rand() % 4 + 1 is one step away along exactly one axis. |
| Adjacency.GetNeighbor | library/cell.c:31-65 | The result is None exactly when all four neighbours are visited, and then no rand() value is drawn. Otherwise it is the first drawn neighbour that is unvisited: one step away and unvisited, with every earlier draw visited. |

## Left out

- Rendering: `init_grid`, `draw_maze`, `show_maze` and the `render_rect` calls in `on_key` only issue draw calls.
- `maze_init`: seeding with `srand(time(NULL))` and the allocation of `maze_state_t`. Its pointer-to-struct assignment is ill-typed, and the model does not reproduce it. `InitAndGenerate` covers its init_maze and generate_maze calls. `buildings_init` is modelled on its own.
- The `width`, `height` and `cell_size` fields of `maze_t`: nothing in the core writes or reads them.
- `library/seeker.c`, `demo/game.c` and `include/landing_page.h` are not part of this model. The stack implementation of `stack.h` is also not modelled: it is a sequence here.
- `rand()` is an oracle. Which values it returns, and whether its choices are uniform, is not modelled.
- Maze.Maze.GenerateMaze: the source declares an `int neighbors[4][2]` array inside the loop and passes it to a `size_t[][2]` parameter. The model uses one table of naturals, allocated before the loop. This matches the source only because `int` and `size_t` are both 32 bits wide on its build target. With a 64-bit `size_t`, get_neighbors would write 16-byte rows that generate_maze reads as 8-byte rows. The model follows the intended integer semantics.
- Maze.Maze.GetNeighbors: the four tests are evaluated before any row is written, rather than interleaved with the writes. The tests do not read the table, so the result is the same.
- Hider.HiderState.OnKey: `held_time` and the game-state argument are unused by `on_key` and are not parameters. The arrow-key codes of `sdl_wrapper.h` are symbolic constructors. int overflow of `hider.x ± 40` is not modelled, because the hider stays inside the window.
- Adjacency.GetNeighbor: the `malloc` of the result and its leak on the NULL path are not modelled. The retry loop is proved to end only given a draw `fair` that lands on an unvisited neighbour. The source has no such bound, and with an unlucky `rand()` its loop need not end.
- Adjacency.Adjacency: `include/cell.h` declares `adjacency` with two parameters, while `library/cell.c` defines it with three. The model follows the definition.
- Adjacency.Adjacency and Adjacency.IsAdjacency: cells outside 1..25 × 1..12 are excluded by the precondition of both. For them the source's index either falls outside the matrix or aliases another cell's entry: (1, 13) and (2, 1) both map to 12.
- Adjacency.GetNeighbor: the padded `visited` array must hold the cell and its four neighbours. This is a precondition, because the source does not check its bounds.
