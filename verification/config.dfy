/**
 * Build-time constants of the maze game and the small value types shared by
 * the maze generator (library/maze.c) and the adjacency module (library/cell.c).
 */
module Config {

  /** GRID_WIDTH and GRID_HEIGHT: the maze is 25 cells wide and 12 cells high. */
  const GridWidth: nat := 25
  const GridHeight: nat := 12
  /** NUM_CELLS */
  const NumCells: nat := GridWidth * GridHeight

  /** GRID_CELL_SIZE, in pixels. */
  const GridCellSize: int := 40

  /** MAZE_WINDOW_WIDTH and MAZE_WINDOW_HEIGHT: one extra pixel for the closing border line. */
  const MazeWindowWidth: int := GridWidth * GridCellSize + 1
  const MazeWindowHeight: int := GridHeight * GridCellSize + 1

  /**
   * The number of size_t values: size_t is 32 bits wide, as on the wasm32
   * target the emscripten entry points of demo/game.c are built for.
   */
  const SizeTModulus: int := 0x1_0000_0000

  /** NUM_BUILDINGS */
  const NumBuildings: nat := 2

  /** A grid coordinate; the C code keeps both components in a size_t. */
  datatype Pos = Pos(x: nat, y: nat)

  /** SDL_Rect: a rectangle with signed integer position and size. */
  datatype Rect = Rect(x: int, y: int, w: int, h: int)

  /** A pointer that may be NULL. */
  datatype Option<T> = None | Some(value: T)
}
