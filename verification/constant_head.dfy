/**
 The constant-head (CHD) boundary records of the first tutorial.

 The script walks `row_col` from 0 to N-1. Each pass appends the two cells
 of that row on the first and last column, and, when `row_col` is neither
 0 nor N-1, the two cells of that column on the first and last row, every
 one of them with the same head. The result is meant to list the outer ring
 of the top layer once per cell.
 */
module ConstantHead {
  import opened Grid

  /** One CHD stress-period entry: a cell and the head held fixed there. */
  datatype ChdRecord = ChdRecord(cell: Cell, head: int)

  /** The records that one pass of the loop, with loop variable `i`, appends
      (all in layer 0). */
  function PassRecords(n: int, i: int, h: int): seq<ChdRecord> {
    [ChdRecord(Cell(0, i, 0), h), ChdRecord(Cell(0, i, n - 1), h)]
    + (if i != 0 && i != n - 1
       then [ChdRecord(Cell(0, 0, i), h), ChdRecord(Cell(0, n - 1, i), h)]
       else [])
  }

  /** The list after the first `k` passes of the loop. */
  function ChdPrefix(n: int, k: nat, h: int): seq<ChdRecord> {
    if k == 0 then [] else ChdPrefix(n, k - 1, h) + PassRecords(n, k - 1, h)
  }

  /** The complete list `chd_rec`; `range(0, N)` is empty when N <= 0. */
  function ChdRecords(n: int, h: int): seq<ChdRecord> {
    if n <= 0 then [] else ChdPrefix(n, n, h)
  }

  /** The loop pass that emits cell `c`: a cell on the first or last column
      comes from the pass of its row, any other ring cell from the pass of
      its column. */
  function EmittingPass(n: int, c: Cell): int {
    if c.col == 0 || c.col == n - 1 then c.row else c.col
  }

  /** Position in the list of the first record of pass `i` (for n >= 2 and
      i < n): pass 0 appends 2 records and every later pass before the last
      appends 4. */
  function PassOffset(i: nat): nat {
    if i == 0 then 0 else 4 * i - 2
  }

  /** No cell index appears twice in `rs`. */
  predicate DistinctCells(rs: seq<ChdRecord>) {
    forall j, l :: 0 <= j < l < |rs| ==> rs[j].cell != rs[l].cell
  }

  /** The loop itself: appends record by record, exactly as the script does. */
  method BuildChd(n: int, h: int) returns (chd: seq<ChdRecord>)
    ensures chd == ChdRecords(n, h)
  {
    chd := [];
    var layer := 0;
    var rowCol := 0;
    while rowCol < n
      invariant 0 <= rowCol
      invariant rowCol <= if n < 0 then 0 else n
      invariant chd == ChdPrefix(n, rowCol, h)
    {
      ghost var before := chd;
      chd := chd + [ChdRecord(Cell(layer, rowCol, 0), h)];
      chd := chd + [ChdRecord(Cell(layer, rowCol, n - 1), h)];
      if rowCol != 0 && rowCol != n - 1 {
        chd := chd + [ChdRecord(Cell(layer, 0, rowCol), h)];
        chd := chd + [ChdRecord(Cell(layer, n - 1, rowCol), h)];
      }
      assert chd == before + PassRecords(n, rowCol, h);
      rowCol := rowCol + 1;
    }
  }

  /** What a single pass appends: 2 records at the first and last pass,
      4 in between, all on the ring, all with head `h`, all emitted by pass
      `i`, and pairwise distinct once the grid has two rows. */
  lemma PassFacts(n: int, i: int, h: int)
    requires 0 <= i < n
    ensures |PassRecords(n, i, h)| == if 0 < i < n - 1 then 4 else 2
    ensures forall x :: x in PassRecords(n, i, h) ==>
      OnRing(n, x.cell) && x.head == h && EmittingPass(n, x.cell) == i
    ensures n >= 2 ==> DistinctCells(PassRecords(n, i, h))
  {
  }

  /** Every record of the first `k` passes is a ring cell with head `h`
      emitted by a pass before `k`. */
  lemma {:induction false} PrefixFacts(n: int, k: nat, h: int)
    requires k <= n
    ensures forall x :: x in ChdPrefix(n, k, h) ==>
      OnRing(n, x.cell) && x.head == h && 0 <= EmittingPass(n, x.cell) < k
  {
    if k > 0 {
      PrefixFacts(n, k - 1, h);
      PassFacts(n, k - 1, h);
    }
  }

  /** The list after `k` passes is a prefix of the list after `m >= k`. */
  lemma {:induction false} PrefixExtends(n: int, k: nat, m: nat, h: int)
    requires k <= m
    ensures ChdPrefix(n, k, h) <= ChdPrefix(n, m, h)
    decreases m
  {
    if k < m {
      PrefixExtends(n, k, m - 1, h);
    }
  }

  /** Length after `k` passes for a grid of at least two rows. */
  lemma {:induction false} PrefixLength(n: int, k: nat, h: int)
    requires 2 <= n && k <= n
    ensures |ChdPrefix(n, k, h)| == if k < n then PassOffset(k) else 4 * (n - 1)
  {
    if k > 0 {
      PrefixLength(n, k - 1, h);
      PassFacts(n, k - 1, h);
    }
  }

  /** Record count: 4(N-1) for N >= 2 (the ring of an N x N square), 2 for
      N = 1 (the lone cell twice) and none for N <= 0. */
  lemma ChdLength(n: int, h: int)
    ensures |ChdRecords(n, h)| == if n <= 0 then 0 else if n == 1 then 2 else 4 * (n - 1)
  {
    if n >= 2 {
      PrefixLength(n, n, h);
    } else if n == 1 {
      SingleCellGridRepeats(h);
    }
  }

  /** Every record is a top-layer ring cell carrying the head `h`. */
  lemma ChdOnRing(n: int, h: int)
    ensures forall x :: x in ChdRecords(n, h) ==> OnRing(n, x.cell) && x.head == h
  {
    if n > 0 {
      PrefixFacts(n, n, h);
    }
  }

  /** Records are grouped by pass, passes in increasing order: the pass that
      emitted a record never decreases along the list. */
  lemma {:induction false} PrefixOrdered(n: int, k: nat, h: int)
    requires k <= n
    ensures forall j, l :: 0 <= j <= l < |ChdPrefix(n, k, h)| ==>
      EmittingPass(n, ChdPrefix(n, k, h)[j].cell) <= EmittingPass(n, ChdPrefix(n, k, h)[l].cell)
  {
    if k > 0 {
      PrefixOrdered(n, k - 1, h);
      PrefixFacts(n, k - 1, h);
      PassFacts(n, k - 1, h);
      var a: seq<ChdRecord>, b: seq<ChdRecord> := ChdPrefix(n, k - 1, h), PassRecords(n, k - 1, h);
      assert ChdPrefix(n, k, h) == a + b;
      forall j, l | 0 <= j <= l < |a + b|
        ensures EmittingPass(n, (a + b)[j].cell) <= EmittingPass(n, (a + b)[l].cell)
      {
        if l < |a| {
          assert (a + b)[j] == a[j] && (a + b)[l] == a[l];
        } else if j < |a| {
          assert (a + b)[j] == a[j] && a[j] in a;
          assert (a + b)[l] == b[l - |a|] && b[l - |a|] in b;
        } else {
          assert (a + b)[j] == b[j - |a|] && b[j - |a|] in b;
          assert (a + b)[l] == b[l - |a|] && b[l - |a|] in b;
        }
      }
    }
  }

  /** Ordering of the whole list: all records of pass i come before those of
      pass i+1. */
  lemma ChdOrdered(n: int, h: int)
    ensures forall j, l :: 0 <= j <= l < |ChdRecords(n, h)| ==>
      EmittingPass(n, ChdRecords(n, h)[j].cell) <= EmittingPass(n, ChdRecords(n, h)[l].cell)
  {
    if n > 0 {
      PrefixOrdered(n, n, h);
    }
  }

  /** Order within a pass, at its exact position: pass `i` starts at
      `PassOffset(i)` and appends (i, 0), (i, N-1), then for an interior `i`
      (0, i) and (N-1, i). */
  lemma ChdPassLayout(n: int, i: nat, h: int)
    requires 2 <= n && i < n
    ensures PassOffset(i) + |PassRecords(n, i, h)| <= |ChdRecords(n, h)|
    ensures ChdRecords(n, h)[PassOffset(i)] == ChdRecord(Cell(0, i, 0), h)
    ensures ChdRecords(n, h)[PassOffset(i) + 1] == ChdRecord(Cell(0, i, n - 1), h)
    ensures 0 < i < n - 1 ==>
      && ChdRecords(n, h)[PassOffset(i) + 2] == ChdRecord(Cell(0, 0, i), h)
      && ChdRecords(n, h)[PassOffset(i) + 3] == ChdRecord(Cell(0, n - 1, i), h)
  {
    PrefixLength(n, i, h);
    PrefixExtends(n, i + 1, n, h);
    var a: seq<ChdRecord>, b: seq<ChdRecord> := ChdPrefix(n, i, h), PassRecords(n, i, h);
    assert ChdPrefix(n, i + 1, h) == a + b;
    var s := PassOffset(i);
    assert |a| == s;
    assert ChdRecords(n, h)[s..s + |b|] == b by {
      assert (a + b)[s..s + |b|] == b;
    }
  }

  /** The first `k` passes list no cell twice, for a grid of two rows or more. */
  lemma {:induction false} PrefixDistinct(n: int, k: nat, h: int)
    requires 2 <= n && k <= n
    ensures DistinctCells(ChdPrefix(n, k, h))
  {
    if k > 0 {
      PrefixDistinct(n, k - 1, h);
      PrefixFacts(n, k - 1, h);
      PassFacts(n, k - 1, h);
      var a: seq<ChdRecord>, b: seq<ChdRecord> := ChdPrefix(n, k - 1, h), PassRecords(n, k - 1, h);
      assert ChdPrefix(n, k, h) == a + b;
      forall j, l | 0 <= j < l < |a + b|
        ensures (a + b)[j].cell != (a + b)[l].cell
      {
        if l < |a| {
          assert (a + b)[j] == a[j] && (a + b)[l] == a[l];
        } else if j < |a| {
          assert (a + b)[j] == a[j] && a[j] in a;
          assert (a + b)[l] == b[l - |a|] && b[l - |a|] in b;
        } else {
          assert (a + b)[j] == b[j - |a|] && (a + b)[l] == b[l - |a|];
        }
      }
    }
  }

  /** Distinctness holds exactly when N is not 1: the corner guard keeps the
      four corners from being emitted twice, but for N = 1 column 0 is also
      column N-1, so the first pass emits (0, 0, 0) twice before the guard
      is reached. */
  lemma ChdDistinctIff(n: int, h: int)
    ensures DistinctCells(ChdRecords(n, h)) <==> n != 1
  {
    if n >= 2 {
      PrefixDistinct(n, n, h);
    } else if n == 1 {
      SingleCellGridRepeats(h);
    }
  }

  /** The N = 1 edge case in full: the list is the lone cell twice. */
  lemma SingleCellGridRepeats(h: int)
    ensures ChdRecords(1, h) == [ChdRecord(Cell(0, 0, 0), h), ChdRecord(Cell(0, 0, 0), h)]
    ensures !DistinctCells(ChdRecords(1, h))
  {
    assert ChdRecords(1, h) == ChdPrefix(1, 0, h) + PassRecords(1, 0, h);
    assert ChdRecords(1, h)[0].cell == ChdRecords(1, h)[1].cell;
  }

  /** Completeness: every ring cell of the top layer is listed with head `h`. */
  lemma ChdComplete(n: int, h: int)
    ensures forall c :: OnRing(n, c) ==> ChdRecord(c, h) in ChdRecords(n, h)
  {
    forall c | OnRing(n, c)
      ensures ChdRecord(c, h) in ChdRecords(n, h)
    {
      var i := EmittingPass(n, c);
      assert 0 <= i < n;
      var a: seq<ChdRecord>, b: seq<ChdRecord> := ChdPrefix(n, i, h), PassRecords(n, i, h);
      assert ChdRecord(c, h) in b;
      assert ChdPrefix(n, i + 1, h) == a + b;
      assert ChdRecord(c, h) in ChdPrefix(n, i + 1, h);
      PrefixExtends(n, i + 1, n, h);
    }
  }

  /** Pairwise distinct cells make every record occur at most once. */
  lemma {:induction false} DistinctAtMostOnce(rs: seq<ChdRecord>)
    requires DistinctCells(rs)
    ensures forall x :: multiset(rs)[x] <= 1
  {
    if rs != [] {
      var init, last := rs[..|rs| - 1], rs[|rs| - 1];
      assert rs == init + [last];
      assert DistinctCells(init) by {
        forall j, l | 0 <= j < l < |init| ensures init[j].cell != init[l].cell {
          assert init[j] == rs[j] && init[l] == rs[l];
        }
      }
      DistinctAtMostOnce(init);
      assert last !in init by {
        forall j | 0 <= j < |init| ensures init[j] != last {
          assert init[j] == rs[j];
        }
      }
      assert multiset(rs) == multiset(init) + multiset{last};
    }
  }

  /** The ring exactly once: for N >= 2 a top-layer cell is listed with head
      `h` once if it lies on the ring and not at all otherwise. */
  lemma ChdExactlyOnce(n: int, h: int)
    requires n >= 2
    ensures forall c :: multiset(ChdRecords(n, h))[ChdRecord(c, h)] == if OnRing(n, c) then 1 else 0
  {
    ChdDistinctIff(n, h);
    DistinctAtMostOnce(ChdRecords(n, h));
    ChdOnRing(n, h);
    ChdComplete(n, h);
  }
}
