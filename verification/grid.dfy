/** Board geometry of the snake game: pixel constants, the four movement
    directions and the toroidal step that moves a cell one grid square. */
module Grid {

  const ScreenWidth: int := 640
  const ScreenHeight: int := 480
  const GridSize: int := 20
  const GridWidth: int := ScreenWidth / GridSize
  const GridHeight: int := ScreenHeight / GridSize

  /** A position in pixels: (x, y), x growing rightwards and y downwards. */
  type Cell = (int, int)

  /** Centre of the screen, where a fresh or reset snake starts. */
  const Centre: Cell := (ScreenWidth / 2, ScreenHeight / 2)

  /** The four movement directions; each is a unit vector in `Delta`. */
  datatype Dir = Up | Down | Left | Right

  /** The unit vector of a direction (y grows downwards, so Up is (0, -1)). */
  function Delta(d: Dir): (int, int)
  {
    match d
    case Up => (0, -1)
    case Down => (0, 1)
    case Left => (-1, 0)
    case Right => (1, 0)
  }

  /** The opposite direction: the one whose vector is the negation of `d`'s. */
  function Reverse(d: Dir): (r: Dir)
    ensures Delta(r).0 == -Delta(d).0 && Delta(r).1 == -Delta(d).1
  {
    match d
    case Up => Down
    case Down => Up
    case Left => Right
    case Right => Left
  }

  /** Reversing twice gives back the original direction. */
  lemma ReverseInvolutive(d: Dir)
    ensures Reverse(Reverse(d)) == d
  {
  }

  /** The cell lies on the visible screen. */
  predicate InBounds(c: Cell)
  {
    0 <= c.0 < ScreenWidth && 0 <= c.1 < ScreenHeight
  }

  /** Both coordinates are whole multiples of the grid square size. */
  predicate Aligned(c: Cell)
  {
    c.0 % GridSize == 0 && c.1 % GridSize == 0
  }

  /** The cell is the top-left corner of one of the 32 x 24 grid squares. */
  predicate OnGrid(c: Cell)
  {
    InBounds(c) && Aligned(c)
  }

  /** Reducing modulo a multiple of the grid size keeps the remainder
      modulo the grid size. */
  lemma ModScreenKeepsAlignment(a: int, screen: int)
    requires screen > 0 && screen % GridSize == 0
    ensures (a % screen) % GridSize == a % GridSize
  {
    var k := screen / GridSize;
    assert screen == GridSize * k;
    var q := a / screen;
    assert a == screen * q + a % screen;
    assert a == GridSize * (k * q) + a % screen;
    assert (GridSize * (k * q) + a % screen) % GridSize == (a % screen) % GridSize;
  }

  /** The head of a snake moving one square in direction `d` from `c`,
      wrapping round the edges of the screen. The result is the unique
      on-screen cell congruent to the unwrapped neighbour on each axis. */
  function NextCell(c: Cell, d: Dir): (r: Cell)
    ensures InBounds(r)
    ensures (r.0 - (c.0 + Delta(d).0 * GridSize)) % ScreenWidth == 0
    ensures (r.1 - (c.1 + Delta(d).1 * GridSize)) % ScreenHeight == 0
    ensures Aligned(c) ==> Aligned(r)
  {
    var x := c.0 + Delta(d).0 * GridSize;
    var y := c.1 + Delta(d).1 * GridSize;
    ModScreenKeepsAlignment(x, ScreenWidth);
    ModScreenKeepsAlignment(y, ScreenHeight);
    (x % ScreenWidth, y % ScreenHeight)
  }

  /** Away from the edges a step is the plain vector addition. */
  lemma NextCellInterior(c: Cell, d: Dir)
    requires InBounds((c.0 + Delta(d).0 * GridSize, c.1 + Delta(d).1 * GridSize))
    ensures NextCell(c, d) == (c.0 + Delta(d).0 * GridSize, c.1 + Delta(d).1 * GridSize)
  {
  }

  /** Leaving the screen through one edge re-enters at the opposite edge. */
  lemma NextCellWraps(x: int, y: int)
    requires 0 <= x < ScreenWidth && 0 <= y < ScreenHeight
    ensures NextCell((0, y), Left) == (ScreenWidth - GridSize, y)
    ensures NextCell((ScreenWidth - GridSize, y), Right) == (0, y)
    ensures NextCell((x, 0), Up) == (x, ScreenHeight - GridSize)
    ensures NextCell((x, ScreenHeight - GridSize), Down) == (x, 0)
  {
  }

  /** Stepping back in the reverse direction undoes a step. */
  lemma NextCellReverse(c: Cell, d: Dir)
    requires InBounds(c)
    ensures NextCell(NextCell(c, d), Reverse(d)) == c
  {
  }

  /** A step always leaves the cell it starts from. */
  lemma NextCellMoves(c: Cell, d: Dir)
    requires InBounds(c)
    ensures NextCell(c, d) != c
  {
  }
}
