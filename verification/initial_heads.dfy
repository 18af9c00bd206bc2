/**
 The starting heads of the first tutorial: `h1 * np.ones((Nlay, N, N))`,
 a layer-by-row-by-column array of floats all equal to `h1`.
 */
module InitialHeads {
  import opened Grid
  import opened ConstantHead

  datatype Option<T> = None | Some(value: T)

  /** A three-dimensional array, indexed [layer][row][column]. */
  type Array3 = seq<seq<seq<real>>>

  /** True iff `a` has shape `nlay` x `nrow` x `ncol`. */
  predicate HasShape(a: Array3, nlay: nat, nrow: nat, ncol: nat) {
    && |a| == nlay
    && (forall l :: 0 <= l < nlay ==> |a[l]| == nrow)
    && (forall l, i :: 0 <= l < nlay && 0 <= i < nrow ==> |a[l][i]| == ncol)
  }

  /** `h * np.ones((nlay, n, n))`; numpy refuses a negative dimension, which
      is `None` here. The integer `h` becomes a float entry. */
  function StartHeads(nlay: int, n: int, h: int): (r: Option<Array3>)
    ensures r.Some? <==> nlay >= 0 && n >= 0
    ensures r.Some? ==> HasShape(r.value, nlay, n, n)
    ensures r.Some? ==> forall l, i, j :: 0 <= l < nlay && 0 <= i < n && 0 <= j < n ==>
      r.value[l][i][j] == h as real
  {
    if nlay < 0 || n < 0 then None
    else Some(seq(nlay, _ => seq(n, _ => seq(n, _ => h as real))))
  }

  /** The starting heads agree with the constant-head records: every CHD cell
      starts at the head it is held at. */
  lemma StartMatchesChd(nlay: int, n: int, h: int)
    requires nlay >= 1 && n >= 0
    ensures StartHeads(nlay, n, h).Some?
    ensures forall x :: x in ChdRecords(n, h) ==>
      && InGrid(nlay, n, x.cell)
      && StartHeads(nlay, n, h).value[x.cell.layer][x.cell.row][x.cell.col] == x.head as real
  {
    ChdOnRing(n, h);
  }
}
