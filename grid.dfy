/**
 * The playing field of public/snake/script.js: a square of GRID_SIZE x GRID_SIZE cells,
 * each BOX_SIZE pixels wide. Positions are pixel coordinates; the engine only ever
 * uses multiples of BOX_SIZE.
 */
module Grid {
  /** BOX_SIZE (also called `box`): the side of one cell in pixels. */
  const Box: int := 20
  /** GRID_SIZE: cells per side. */
  const GridSize: int := 30
  /** canvas.width == canvas.height == BOX_SIZE * GRID_SIZE. */
  const CanvasSize: int := Box * GridSize

  /** A snake segment or the food: the pixel position `{x, y}` of a cell's top-left corner. */
  datatype Cell = Cell(x: int, y: int)

  /** The cell where every game begins: `{ x: box * 5, y: box * 5 }`. */
  const Start: Cell := Cell(Box * 5, Box * 5)

  /** Grid-aligned: both coordinates are multiples of the box size. */
  predicate Aligned(c: Cell) {
    c.x % Box == 0 && c.y % Box == 0
  }

  /** Inside the canvas: 0 <= x < width and 0 <= y < height. */
  predicate InCanvas(c: Cell) {
    0 <= c.x < CanvasSize && 0 <= c.y < CanvasSize
  }

  /** Every segment of a body is grid-aligned. */
  predicate AllAligned(cells: seq<Cell>) {
    forall i :: 0 <= i < |cells| ==> Aligned(cells[i])
  }
}
