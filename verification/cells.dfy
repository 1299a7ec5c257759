/** Grid cells of the 9x9 level canvas. */
module Cells {

  /** The canvas shows a GridSize x GridSize matrix of selectable cells. */
  const GridSize: nat := 9

  /** A grid coordinate; the editor stores it as `{ x, y }` or `[x, y]`. */
  datatype Cell = Cell(x: nat, y: nat)

  /** Coordinates the canvas can produce: both in 0..8. */
  predicate InGrid(c: Cell) {
    c.x < GridSize && c.y < GridSize
  }
}
