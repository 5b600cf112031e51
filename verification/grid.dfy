/**
 * The playing field: a 20 x 15 grid of cells that wraps around at every edge
 * (a torus), and the four directions the snake can travel in.
 */
module Grid {

  /** Number of columns (GRID_WIDTH). */
  const Width: int := 20
  /** Number of rows (GRID_HEIGHT). */
  const Height: int := 15

  /** A grid cell; the program stores it as the tuple (x, y). */
  datatype Cell = Cell(x: int, y: int)

  predicate InBounds(c: Cell) {
    0 <= c.x < Width && 0 <= c.y < Height
  }

  /** Every cell of a sequence lies on the grid. */
  predicate AllInBounds(cs: seq<Cell>) {
    forall i :: 0 <= i < |cs| ==> InBounds(cs[i])
  }

  /** The four headings; y grows downwards, as on the screen. */
  datatype Direction = Up | Down | Left | Right

  /** The unit vector a direction stands for: the enum's tuple value. */
  function Delta(d: Direction): (v: (int, int))
    ensures -1 <= v.0 <= 1 && -1 <= v.1 <= 1
    ensures (v.0 == 0) != (v.1 == 0)
    ensures d == Up || d == Down <==> v.0 == 0
    ensures d == Down || d == Right <==> v.0 + v.1 == 1
  {
    match d
    case Up => (0, -1)
    case Down => (0, 1)
    case Left => (-1, 0)
    case Right => (1, 0)
  }

  /** The direction pointing the other way. */
  function Opposite(d: Direction): (r: Direction)
    ensures r != d
    ensures Delta(r).0 == -Delta(d).0 && Delta(r).1 == -Delta(d).1
  {
    match d
    case Up => Down
    case Down => Up
    case Left => Right
    case Right => Left
  }

  /**
   * One step from `c` in direction `d`, wrapping at the edges. The program
   * uses Python's `%`, whose result takes the sign of the (positive) divisor;
   * Dafny's Euclidean `%` agrees with it for the divisors 20 and 15, so a step
   * up from row 0 lands on row 14.
   */
  function Step(c: Cell, d: Direction): (r: Cell)
    ensures InBounds(r)
    ensures (c.x + Delta(d).0 - r.x) % Width == 0
    ensures (c.y + Delta(d).1 - r.y) % Height == 0
  {
    Cell((c.x + Delta(d).0) % Width, (c.y + Delta(d).1) % Height)
  }

  /** Turning round twice faces the original way. */
  lemma OppositeInvolutive(d: Direction)
    ensures Opposite(Opposite(d)) == d
  {
  }

  /** Away from the edge a step is plain vector addition. */
  lemma StepInterior(c: Cell, d: Direction)
    requires InBounds(c)
    requires InBounds(Cell(c.x + Delta(d).0, c.y + Delta(d).1))
    ensures Step(c, d) == Cell(c.x + Delta(d).0, c.y + Delta(d).1)
  {
  }

  /** Leaving through one edge re-enters through the opposite one. */
  lemma StepWrapsAtEdges(x: int, y: int)
    requires 0 <= x < Width && 0 <= y < Height
    ensures Step(Cell(Width - 1, y), Right) == Cell(0, y)
    ensures Step(Cell(0, y), Left) == Cell(Width - 1, y)
    ensures Step(Cell(x, 0), Up) == Cell(x, Height - 1)
    ensures Step(Cell(x, Height - 1), Down) == Cell(x, 0)
  {
  }

  /** Stepping back the opposite way returns to the cell one started from. */
  lemma StepUndo(c: Cell, d: Direction)
    requires InBounds(c)
    ensures Step(Step(c, d), Opposite(d)) == c
  {
  }

  /**
   * From one cell, two different directions lead to two different cells:
   * the grid is more than two cells wide and high, so no two steps meet.
   */
  lemma StepDirectionsDiffer(c: Cell, d1: Direction, d2: Direction)
    requires InBounds(c)
    requires d1 != d2
    ensures Step(c, d1) != Step(c, d2)
  {
  }
}
