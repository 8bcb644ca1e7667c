/** The apple: its random placement and the membership test that the game
    uses to decide whether the snake has reached it. */
module Apple {
  import opened Grid

  /** The apple's new position after the random generator picked grid
      column `col` and grid row `row` (each drawn inclusively from
      0 .. GridWidth - 1 and 0 .. GridHeight - 1). Nothing excludes the
      cells the snake occupies. */
  function RandomizePosition(col: int, row: int): (r: Cell)
    requires 0 <= col < GridWidth && 0 <= row < GridHeight
    ensures OnGrid(r)
    ensures r.0 / GridSize == col && r.1 / GridSize == row
  {
    (col * GridSize, row * GridSize)
  }

  /** Every grid square can be chosen: the placement is onto the grid. */
  lemma RandomizeCoversGrid(c: Cell)
    requires OnGrid(c)
    ensures 0 <= c.0 / GridSize < GridWidth && 0 <= c.1 / GridSize < GridHeight
    ensures RandomizePosition(c.0 / GridSize, c.1 / GridSize) == c
  {
  }

  /** Distinct random draws give distinct cells. */
  lemma RandomizeInjective(col: int, row: int, col': int, row': int)
    requires 0 <= col < GridWidth && 0 <= row < GridHeight
    requires 0 <= col' < GridWidth && 0 <= row' < GridHeight
    requires RandomizePosition(col, row) == RandomizePosition(col', row')
    ensures col == col' && row == row'
  {
  }

  /** The collision test between a position and a list of cells: a linear
      scan that stops at the first equal element, as a membership test on
      a list does. */
  function Accident(position: Cell, cells: seq<Cell>): (hit: bool)
    ensures hit <==> position in cells
  {
    if |cells| == 0 then false
    else if cells[0] == position then true
    else Accident(position, cells[1..])
  }
}
