/**
 The well (WEL) record of the first tutorial: one extraction or injection
 point in the bottom layer, at row and column `int(N/4)`.
 */
module Well {
  import opened Grid
  import opened ConstantHead

  /** One WEL stress-period entry: a cell and its pumping rate; a negative
      rate withdraws water. */
  datatype WelRecord = WelRecord(cell: Cell, rate: real)

  /** Python's `int(n / 4)`: true division followed by truncation toward
      zero (not Dafny's Euclidean `/`, which differs for negative `n`). */
  function TruncQuarter(n: int): (r: int)
    ensures 0 <= n ==> 0 <= 4 * r <= n < 4 * r + 4
    ensures n < 0 ==> 4 * r - 4 < n <= 4 * r <= 0
  {
    if n >= 0 then n / 4 else -((-n) / 4)
  }

  /** The list `wel_rec`: a single record in layer `nlay - 1`, at row and
      column `int(n / 4)` (a quarter of `n`, truncated toward zero), with
      rate `q`. The script writes the record as one flat tuple
      (layer, row, col, q); here the cell is nested. */
  function WelRecords(nlay: int, n: int, q: real): (r: seq<WelRecord>)
    ensures |r| == 1
    ensures r[0].rate == q
    ensures r[0].cell.layer == nlay - 1
    ensures r[0].cell.row == r[0].cell.col
    ensures 0 <= n ==> 0 <= 4 * r[0].cell.row <= n < 4 * r[0].cell.row + 4
    ensures n < 0 ==> 4 * r[0].cell.row - 4 < n <= 4 * r[0].cell.row <= 0
  {
    [WelRecord(Cell(nlay - 1, TruncQuarter(n), TruncQuarter(n)), q)]
  }

  /** The well cell lies inside the grid whenever it has a layer and a row;
      the script does no bounds check of its own. */
  lemma WellInGrid(nlay: int, n: int, q: real)
    requires nlay >= 1 && n >= 1
    ensures InGrid(nlay, n, WelRecords(nlay, n, q)[0].cell)
  {
  }

  /** The well sits strictly away from the side boundaries exactly when the
      grid has at least four rows; for smaller grids `int(N/4)` is 0, the
      first row and column. */
  lemma WellInteriorIff(nlay: int, n: int, q: real)
    requires n >= 1
    ensures StrictlyInterior(n, WelRecords(nlay, n, q)[0].cell) <==> n >= 4
  {
  }

  /** For N >= 4 the well never coincides with a constant-head cell, whatever
      the number of layers. */
  lemma WellOffChd(nlay: int, n: int, q: real, h: int)
    requires n >= 4
    ensures forall x :: x in ChdRecords(n, h) ==> x.cell != WelRecords(nlay, n, q)[0].cell
  {
    ChdOnRing(n, h);
    WellInteriorIff(nlay, n, q);
  }

  /** Exactly when the well shares its cell with a constant-head record: only
      in a single-layer model (so that the bottom layer is the top layer) with
      at most three rows, where `int(N/4)` is 0 and the well lands on the
      corner (0, 0, 0). */
  lemma WellOnChdIff(nlay: int, n: int, q: real, h: int)
    ensures (exists x :: x in ChdRecords(n, h) && x.cell == WelRecords(nlay, n, q)[0].cell)
      <==> nlay == 1 && 1 <= n <= 3
  {
    var w := WelRecords(nlay, n, q)[0].cell;
    ChdOnRing(n, h);
    if nlay == 1 && 1 <= n <= 3 {
      assert OnRing(n, w);
      ChdComplete(n, h);
      assert ChdRecord(w, h) in ChdRecords(n, h);
    } else if n >= 1 {
      WellInteriorIff(nlay, n, q);
    }
  }
}
