/**
 The concrete instance built by the first tutorial: 10 layers of a
 101 x 101 grid, boundary head 100 and a well pumping 1000 out.
 */
module Tutorial01 {
  import opened Grid
  import opened ConstantHead
  import opened Well
  import opened InitialHeads

  const H1: int := 100
  const NLAY: int := 10
  const N: int := 101
  const Q: real := -1000.0

  /** The script's CHD list: 400 records, no cell twice, each ring cell of the
      101 x 101 top layer exactly once, all at head 100. */
  lemma Tutorial01Chd()
    ensures |ChdRecords(N, H1)| == 400
    ensures DistinctCells(ChdRecords(N, H1))
    ensures forall x :: x in ChdRecords(N, H1) ==> OnRing(N, x.cell) && x.head == 100
    ensures forall c :: multiset(ChdRecords(N, H1))[ChdRecord(c, H1)] == if OnRing(N, c) then 1 else 0
  {
    ChdLength(N, H1);
    ChdDistinctIff(N, H1);
    ChdOnRing(N, H1);
    ChdExactlyOnce(N, H1);
  }

  /** The script's well: cell (9, 25, 25), rate -1000, inside the grid and
      off the constant-head ring. */
  lemma Tutorial01Well()
    ensures WelRecords(NLAY, N, Q) == [WelRecord(Cell(9, 25, 25), -1000.0)]
    ensures InGrid(NLAY, N, WelRecords(NLAY, N, Q)[0].cell)
    ensures forall x :: x in ChdRecords(N, H1) ==> x.cell != WelRecords(NLAY, N, Q)[0].cell
  {
    WellOffChd(NLAY, N, Q, H1);
  }

  /** The script's starting heads: a 10 x 101 x 101 array of 100.0. */
  lemma Tutorial01Start()
    ensures StartHeads(NLAY, N, H1).Some?
    ensures HasShape(StartHeads(NLAY, N, H1).value, 10, 101, 101)
    ensures StartHeads(NLAY, N, H1).value[9][25][25] == 100.0
  {
  }
}
