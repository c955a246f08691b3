/** The board: a canvas of `width` by `height` pixels divided into square cells
    of `GridSize` pixels. A cell is named by the pixel coordinates of its
    top-left corner, so the cells of the board are the points whose
    coordinates are multiples of `GridSize` inside the canvas. */
module Grid {

  /** Side of one cell, in canvas pixels. */
  const GridSize: int := 20

  /** A position on the canvas, in pixels. */
  datatype Cell = Cell(x: int, y: int)

  /** The canvas dimensions, in pixels. */
  datatype Board = Board(width: int, height: int)

  /** An admissible canvas extent: a whole number of cells, and wide enough
      that the starting cell at pixel 200 lies inside it. */
  predicate ValidExtent(e: int) {
    e > 200 && e % GridSize == 0
  }

  predicate ValidBoard(b: Board) {
    ValidExtent(b.width) && ValidExtent(b.height)
  }

  /** Number of cell columns and rows of the board. */
  function Columns(b: Board): nat
    requires ValidBoard(b)
  {
    b.width / GridSize
  }

  function Rows(b: Board): nat
    requires ValidBoard(b)
  {
    b.height / GridSize
  }

  predicate InBounds(b: Board, c: Cell) {
    0 <= c.x < b.width && 0 <= c.y < b.height
  }

  /** `c` is one of the board's cells: inside the canvas and grid-aligned. */
  predicate OnGrid(b: Board, c: Cell) {
    InBounds(b, c) && c.x % GridSize == 0 && c.y % GridSize == 0
  }

  /** Toroidal wrap of one coordinate after a move: a coordinate that left
      the canvas on the low side re-enters at the last cell, one that left it
      on the high side re-enters at 0. The two tests are applied one after the
      other, as the game does. */
  function Wrap(v: int, extent: int): (r: int)
    requires ValidExtent(extent)
    ensures 0 <= r < extent
    ensures 0 <= v < extent ==> r == v
  {
    var low := if v < 0 then extent - GridSize else v;
    if low >= extent then 0 else low
  }

  /** For a grid-aligned coordinate that has moved at most one cell out of
      the canvas, wrapping is reduction modulo the extent: the board is a
      torus. */
  lemma WrapIsModulo(v: int, extent: int)
    requires ValidExtent(extent)
    requires v % GridSize == 0
    requires -GridSize <= v <= extent
    ensures Wrap(v, extent) == v % extent
    ensures v < 0 ==> Wrap(v, extent) == extent - GridSize
    ensures v >= extent ==> Wrap(v, extent) == 0
    ensures Wrap(v, extent) % GridSize == 0
  {
    if v < 0 {
      assert v == -GridSize;
      assert v == -1 * extent + (extent - GridSize);
      assert (extent - GridSize) % GridSize == 0;
    } else if v == extent {
      assert v == 1 * extent + 0;
    }
  }

  /** No two positions of `s` hold the same element. */
  predicate Distinct<T(==)>(s: seq<T>) {
    forall i, j :: 0 <= i < j < |s| ==> s[i] != s[j]
  }
}
