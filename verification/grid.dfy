/**
 The structured MODFLOW 6 grid of the first tutorial: `nlay` layers, each a
 square of `n` rows by `n` columns, cells addressed by zero-based
 (layer, row, column) triples as flopy expects them in stress-period data.
 */
module Grid {

  /** A zero-based cell index (layer, row, column). */
  datatype Cell = Cell(layer: int, row: int, col: int)

  /** True iff `c` addresses a cell of an `nlay` x `n` x `n` grid. */
  predicate InGrid(nlay: int, n: int, c: Cell) {
    0 <= c.layer < nlay && 0 <= c.row < n && 0 <= c.col < n
  }

  /** True iff `c` is a cell of the outer ring of the top layer of an
      `n` x `n` grid: first or last row, or first or last column. */
  predicate OnRing(n: int, c: Cell) {
    && c.layer == 0
    && 0 <= c.row < n
    && 0 <= c.col < n
    && (c.row == 0 || c.row == n - 1 || c.col == 0 || c.col == n - 1)
  }

  /** True iff row and column of `c` are strictly inside an `n` x `n` layer,
      i.e. away from every edge. */
  predicate StrictlyInterior(n: int, c: Cell) {
    0 < c.row < n - 1 && 0 < c.col < n - 1
  }
}
