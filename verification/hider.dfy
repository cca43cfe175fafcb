/**
 * The hider of library/maze.c: the global SDL_Rect `hider` and the key
 * handler on_key that moves it one grid cell per arrow-key press, but only
 * while the moved coordinate passes the window test.
 */
module Hider {
  import opened Config
  import opened CellGrid

  /** The keys on_key distinguishes; every other key code is Other. */
  datatype Key = LeftArrow | RightArrow | UpArrow | DownArrow | Other(code: char)

  /** key_event_type_t */
  datatype KeyEventType = KeyPressed | KeyReleased

  /** The initial hider: a half-cell square a quarter cell into cell (0, 0). */
  const InitialHider := Rect(GridCellSize / 4, GridCellSize / 4, GridCellSize / 2, GridCellSize / 2)

  /** An int converted to size_t, as C does before comparing it with MAZE_WINDOW_WIDTH or MAZE_WINDOW_HEIGHT. */
  function ToSizeT(v: int): (r: nat)
    ensures r < SizeTModulus
    ensures 0 <= v < SizeTModulus ==> r == v
    ensures -SizeTModulus <= v < 0 ==> r == v + SizeTModulus
  {
    v % SizeTModulus
  }

  /** The top-left corner of the rectangle lies inside the window. */
  predicate InWindow(h: Rect)
  {
    0 <= h.x < MazeWindowWidth && 0 <= h.y < MazeWindowHeight
  }

  /** The rectangle is the hider's half-cell square, a quarter cell into some cell. */
  predicate InCell(h: Rect)
  {
    h.x % GridCellSize == GridCellSize / 4 && h.y % GridCellSize == GridCellSize / 4 &&
    h.w == GridCellSize / 2 && h.h == GridCellSize / 2
  }

  /**
   * What on_key does to the hider. A press of an arrow key moves it one cell
   * along one axis when the test passes; anything else leaves it in place.
   */
  function Moved(h: Rect, key: Key, kind: KeyEventType): (r: Rect)
    ensures kind != KeyPressed ==> r == h
    ensures key.Other? ==> r == h
    ensures r.w == h.w && r.h == h.h
    ensures r == h ||
      (r.y == h.y && (r.x == h.x - GridCellSize || r.x == h.x + GridCellSize)) ||
      (r.x == h.x && (r.y == h.y - GridCellSize || r.y == h.y + GridCellSize))
  {
    if kind != KeyPressed then h
    else match key
      case LeftArrow => if h.x - GridCellSize >= 0 then h.(x := h.x - GridCellSize) else h
      case RightArrow => if ToSizeT(h.x + GridCellSize) < MazeWindowWidth then h.(x := h.x + GridCellSize) else h
      case UpArrow => if h.y - GridCellSize >= 0 then h.(y := h.y - GridCellSize) else h
      case DownArrow => if ToSizeT(h.y + GridCellSize) < MazeWindowHeight then h.(y := h.y + GridCellSize) else h
      case Other(_) => h
  }

  /** One cell more or less leaves the offset within a cell unchanged. */
  lemma CellOffset(v: int)
    ensures (v + GridCellSize) % GridCellSize == v % GridCellSize
    ensures (v - GridCellSize) % GridCellSize == v % GridCellSize
  {
  }

  /** A hider inside the window and aligned in its cell stays so, whatever key event arrives. */
  lemma MovedStaysInCell(h: Rect, key: Key, kind: KeyEventType)
    requires InWindow(h) && InCell(h)
    ensures InWindow(Moved(h, key, kind)) && InCell(Moved(h, key, kind))
  {
    CellOffset(h.x);
    CellOffset(h.y);
  }

  /**
   * From inside the window, an arrow press moves the hider exactly when the
   * moved coordinate is still in [0, MAZE_WINDOW_WIDTH) or [0, MAZE_WINDOW_HEIGHT).
   */
  lemma ArrowMovesWithinWindow(h: Rect)
    requires InWindow(h)
    ensures Moved(h, LeftArrow, KeyPressed) ==
      if 0 <= h.x - GridCellSize < MazeWindowWidth then h.(x := h.x - GridCellSize) else h
    ensures Moved(h, RightArrow, KeyPressed) ==
      if 0 <= h.x + GridCellSize < MazeWindowWidth then h.(x := h.x + GridCellSize) else h
    ensures Moved(h, UpArrow, KeyPressed) ==
      if 0 <= h.y - GridCellSize < MazeWindowHeight then h.(y := h.y - GridCellSize) else h
    ensures Moved(h, DownArrow, KeyPressed) ==
      if 0 <= h.y + GridCellSize < MazeWindowHeight then h.(y := h.y + GridCellSize) else h
  {
    assert ToSizeT(h.x + GridCellSize) == h.x + GridCellSize;
    assert ToSizeT(h.y + GridCellSize) == h.y + GridCellSize;
  }

  /** A hider inside the window and aligned in its cell stands in a cell of the maze grid. */
  lemma HiderCell(h: Rect)
    requires InWindow(h) && InCell(h)
    ensures InGrid(Pos(h.x / GridCellSize, h.y / GridCellSize))
  {
    assert h.x == GridCellSize * (h.x / GridCellSize) + GridCellSize / 4;
    assert h.y == GridCellSize * (h.y / GridCellSize) + GridCellSize / 4;
  }

  /** The global hider. */
  class HiderState {
    var hider: Rect

    /** The static initialiser of hider. */
    constructor ()
      ensures hider == InitialHider && InWindow(hider) && InCell(hider)
    {
      hider := InitialHider;
    }

    /** on_key: held_time and the game state are not used. */
    method OnKey(key: Key, kind: KeyEventType)
      modifies this
      ensures hider == Moved(old(hider), key, kind)
      ensures InWindow(old(hider)) && InCell(old(hider)) ==> InWindow(hider) && InCell(hider)
    {
      if InWindow(hider) && InCell(hider) {
        MovedStaysInCell(hider, key, kind);
      }
      if kind == KeyPressed {
        match key
        case LeftArrow =>
          if hider.x - GridCellSize >= 0 {
            hider := hider.(x := hider.x - GridCellSize);
          }
        case RightArrow =>
          if ToSizeT(hider.x + GridCellSize) < MazeWindowWidth {
            hider := hider.(x := hider.x + GridCellSize);
          }
        case UpArrow =>
          if hider.y - GridCellSize >= 0 {
            hider := hider.(y := hider.y - GridCellSize);
          }
        case DownArrow =>
          if ToSizeT(hider.y + GridCellSize) < MazeWindowHeight {
            hider := hider.(y := hider.y + GridCellSize);
          }
        case Other(_) =>
      }
    }
  }
}
