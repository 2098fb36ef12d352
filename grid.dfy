/** The playing field of the snake game: screen constants, pixel positions,
    the four movement directions and the toroidal one-step move.

    The game works in pixel coordinates: every position is a multiple of
    GRID_SIZE inside the SCREEN_WIDTH x SCREEN_HEIGHT window.  A cell-level
    view (column, row) is given beside it as an independent reference for the
    wrap-around move. */
module Grid {

  const SCREEN_WIDTH: int := 640
  const SCREEN_HEIGHT: int := 480
  const GRID_SIZE: int := 20
  const GRID_WIDTH: int := SCREEN_WIDTH / GRID_SIZE    // 32 columns
  const GRID_HEIGHT: int := SCREEN_HEIGHT / GRID_SIZE  // 24 rows

  /** A pixel position `[x, y]`. */
  datatype Pos = Pos(x: int, y: int)

  /** The four movement vectors UP = (0, -1), DOWN = (0, 1),
      LEFT = (-1, 0) and RIGHT = (1, 0). */
  datatype Direction = Up | Down | Left | Right {
    function Dx(): int {
      match this
      case Left => -1
      case Right => 1
      case _ => 0
    }

    function Dy(): int {
      match this
      case Up => -1
      case Down => 1
      case _ => 0
    }
  }

  /** The direction that exactly reverses `d`. */
  function Opposite(d: Direction): (r: Direction)
    ensures r.Dx() == -d.Dx() && r.Dy() == -d.Dy()
    ensures r != d
  {
    match d
    case Up => Down
    case Down => Up
    case Left => Right
    case Right => Left
  }

  /** A position the game can reach: grid-aligned and inside the window. */
  predicate OnGrid(p: Pos) {
    && 0 <= p.x < SCREEN_WIDTH && p.x % GRID_SIZE == 0
    && 0 <= p.y < SCREEN_HEIGHT && p.y % GRID_SIZE == 0
  }

  /** The head after one step in direction `d`, wrapping at the window
      edges (Python's `%` with a positive divisor is Dafny's `%`). */
  function NextHead(head: Pos, d: Direction): (r: Pos)
    ensures OnGrid(head) ==> OnGrid(r)
  {
    Pos((head.x + d.Dx() * GRID_SIZE) % SCREEN_WIDTH,
        (head.y + d.Dy() * GRID_SIZE) % SCREEN_HEIGHT)
  }

  // ---------------------------------------------------------------------
  // Cell-level reference view

  /** A cell of the 32 x 24 board, by column and row. */
  datatype Cell = Cell(col: int, row: int)

  predicate InGrid(c: Cell) {
    0 <= c.col < GRID_WIDTH && 0 <= c.row < GRID_HEIGHT
  }

  /** The pixel position of the top-left corner of cell `c`. */
  function ToPixel(c: Cell): Pos {
    Pos(c.col * GRID_SIZE, c.row * GRID_SIZE)
  }

  function ToCell(p: Pos): Cell {
    Cell(p.x / GRID_SIZE, p.y / GRID_SIZE)
  }

  /** One step on the board as a torus, counted in cells. */
  function CellStep(c: Cell, d: Direction): Cell {
    Cell((c.col + d.Dx()) % GRID_WIDTH, (c.row + d.Dy()) % GRID_HEIGHT)
  }

  /** Pixel positions on the grid and cells of the board are the same
      thing: `ToPixel` and `ToCell` are inverse bijections between them. */
  lemma PixelCellCorrespondence(p: Pos, c: Cell)
    ensures OnGrid(p) ==> InGrid(ToCell(p)) && ToPixel(ToCell(p)) == p
    ensures InGrid(c) ==> OnGrid(ToPixel(c)) && ToCell(ToPixel(c)) == c
  {
  }

  /** One coordinate of the wrap: for cell index `k` of an axis of `cells`
      cells, stepping `dv` cells in pixels and wrapping at the axis length in
      pixels is the same as stepping in cells and wrapping at `cells`. */
  lemma WrapAxis(k: int, dv: int, cells: int)
    requires cells == GRID_WIDTH || cells == GRID_HEIGHT
    requires 0 <= k < cells && -1 <= dv <= 1
    ensures (k * GRID_SIZE + dv * GRID_SIZE) % (cells * GRID_SIZE)
            == ((k + dv) % cells) * GRID_SIZE
  {
    var v := k * GRID_SIZE + dv * GRID_SIZE;
    assert v == (k + dv) * GRID_SIZE;
    if cells == GRID_WIDTH {
      assert cells * GRID_SIZE == 640;
      if k + dv == -1 {
        assert v % 640 == 620;
      } else if k + dv == 32 {
        assert v % 640 == 0;
      } else {
        assert 0 <= v < 640;
      }
    } else {
      assert cells * GRID_SIZE == 480;
      if k + dv == -1 {
        assert v % 480 == 460;
      } else if k + dv == 24 {
        assert v % 480 == 0;
      } else {
        assert 0 <= v < 480;
      }
    }
  }

  /** The pixel move agrees with the cell move: from the pixel of any board
      cell, `NextHead` lands on the pixel of `CellStep`, which is again a
      board cell.  In particular the move never leaves the grid. */
  lemma NextHeadIsCellStep(c: Cell, d: Direction)
    requires InGrid(c)
    ensures InGrid(CellStep(c, d))
    ensures NextHead(ToPixel(c), d) == ToPixel(CellStep(c, d))
  {
    WrapAxis(c.col, d.Dx(), GRID_WIDTH);
    WrapAxis(c.row, d.Dy(), GRID_HEIGHT);
  }

  /** One coordinate of the cell step, undone: wrapping `k + dv` at `cells`
      and then stepping back by `dv` returns to `k`. */
  lemma UnwrapAxis(k: int, dv: int, cells: int)
    requires cells == GRID_WIDTH || cells == GRID_HEIGHT
    requires 0 <= k < cells && -1 <= dv <= 1
    ensures ((k + dv) % cells - dv) % cells == k
  {
    if cells == GRID_WIDTH {
      var w := (k + dv) % 32;
      if k + dv == -1 {
        assert w == 31;
      } else if k + dv == 32 {
        assert w == 0;
      } else {
        assert w == k + dv;
      }
      assert (w - dv) % 32 == k;
    } else {
      var w := (k + dv) % 24;
      if k + dv == -1 {
        assert w == 23;
      } else if k + dv == 24 {
        assert w == 0;
      } else {
        assert w == k + dv;
      }
      assert (w - dv) % 24 == k;
    }
  }

  /** Stepping back in the opposite direction undoes a step. */
  lemma NextHeadUndo(p: Pos, d: Direction)
    requires OnGrid(p)
    ensures NextHead(NextHead(p, d), Opposite(d)) == p
  {
    var c := ToCell(p);
    PixelCellCorrespondence(p, c);
    NextHeadIsCellStep(c, d);
    var c2 := CellStep(c, d);
    NextHeadIsCellStep(c2, Opposite(d));
    UnwrapAxis(c.col, d.Dx(), GRID_WIDTH);
    UnwrapAxis(c.row, d.Dy(), GRID_HEIGHT);
    assert CellStep(c2, Opposite(d)) == c;
  }

  /** Leaving through any edge re-enters at the opposite edge, same row or
      column: e.g. moving right from x = 620 gives x = 0. */
  lemma EdgesWrap(p: Pos)
    requires OnGrid(p)
    ensures p.x == SCREEN_WIDTH - GRID_SIZE ==> NextHead(p, Right) == Pos(0, p.y)
    ensures p.x == 0 ==> NextHead(p, Left) == Pos(SCREEN_WIDTH - GRID_SIZE, p.y)
    ensures p.y == SCREEN_HEIGHT - GRID_SIZE ==> NextHead(p, Down) == Pos(p.x, 0)
    ensures p.y == 0 ==> NextHead(p, Up) == Pos(p.x, SCREEN_HEIGHT - GRID_SIZE)
  {
  }
}
