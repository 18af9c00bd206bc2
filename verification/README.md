# Boundary and source records of the MODFLOW 6 tutorial, in Dafny

The first tutorial script (`tutorial01_mf6/mf6_tutorial01.py`) sets up a
steady groundwater-flow model on a grid of `Nlay = 10` layers of
`N x N = 101 x 101` cells. Almost all of it hands configuration to flopy
and runs the external `mf6` solver. The only logic of its own is index
arithmetic that builds three inputs:

- the constant-head (CHD) list `chd_rec`, which holds the head `h1` on the
  outer ring of the top layer;
- the well (WEL) list `wel_rec`, one pumping cell in the bottom layer at
  row and column `int(N/4)`;
- the starting-head array `h1 * np.ones((Nlay, N, N))`.

This project models those three as pure functions and proves what the
script relies on. The grid size, head and rate are parameters. The script's
own values are checked as a concrete instance.

Files (one module each):

- `grid.dfy` (`Grid`): cell triples, grid bounds, the outer ring of the top layer.
- `constant_head.dfy` (`ConstantHead`): the CHD loop, pass by pass. It has a
  functional reference (`ChdRecords`) and a method that appends record by
  record like the script (`BuildChd`), plus the lemmas.
- `well.dfy` (`Well`): the WEL record and Python's `int(N/4)`.
- `initial_heads.dfy` (`InitialHeads`): the starting-head array.
- `tutorial01.dfy` (`Tutorial01`): the instance N = 101, Nlay = 10, h1 = 100, q = -1000.

The N = 1 edge case: the corner guard `row_col != 0 and row_col != N - 1`
keeps the four corners from being listed twice. But when N = 1, column 0 is
also column N-1, so the single pass lists `(0, 0, 0)` twice. Distinctness
therefore holds exactly when N is not 1 (`ChdDistinctIff`). The script uses
N = 101, so this case never arises there. It is a precondition of the
distinctness and exactly-once results, not a defect of the script.

The well's row and column are `int(N / 4)`, which truncates toward zero
rather than rounding down; the two differ for a negative N not divisible
by 4. `TruncQuarter` models
the truncation.

## Model

| member | source | states |
|---|---|---|
| `ConstantHead.BuildChd` | tutorial01_mf6/mf6_tutorial01.py:70-77 | Appending record by record over `row_col` in 0..N-1, as the script does, yields exactly the pass-by-pass reference list `ChdRecords`. For N <= 0 the list is empty. |
| `ConstantHead.PassFacts` | tutorial01_mf6/mf6_tutorial01.py:73-77 | One pass appends 2 records when `row_col` is 0 or N-1 and 4 otherwise. All of them are top-layer ring cells with head `h1`, all are attributed to that pass, and for N >= 2 they are pairwise distinct. |
| `ConstantHead.PrefixFacts` | tutorial01_mf6/mf6_tutorial01.py:72-77 | After k passes, every record listed so far is a ring cell with head `h1` that was emitted by one of the passes 0..k-1. |
| `ConstantHead.PrefixLength` | tutorial01_mf6/mf6_tutorial01.py:72-77 | For N >= 2, the list holds 4k-2 records after k passes (0 < k < N) and 4(N-1) after all N passes. |
| `ConstantHead.ChdLength` | tutorial01_mf6/mf6_tutorial01.py:72-77 | The CHD list has 4(N-1) records for N >= 2, 2 records for N = 1 and none for N <= 0. |
| `ConstantHead.ChdOnRing` | tutorial01_mf6/mf6_tutorial01.py:71-77 | Every record has layer 0, row and column in [0, N), row or column equal to 0 or N-1, and head `h1`. |
| `ConstantHead.PrefixOrdered` | tutorial01_mf6/mf6_tutorial01.py:72-77 | After k passes, the pass that emitted each record never decreases along the list. |
| `ConstantHead.ChdOrdered` | tutorial01_mf6/mf6_tutorial01.py:72-77 | In the whole list, every record of pass i comes before every record of pass i+1. |
| `ConstantHead.ChdPassLayout` | tutorial01_mf6/mf6_tutorial01.py:72-77 | For N >= 2, pass i starts at position 0 (i = 0) or 4i-2. It lists (i, 0), then (i, N-1), then, for an interior i, (0, i) and (N-1, i). All these positions lie within the list. |
| `ConstantHead.PrefixDistinct` | tutorial01_mf6/mf6_tutorial01.py:73-75 | For N >= 2, no cell index repeats among the records of the first k passes. |
| `ConstantHead.ChdDistinctIff` | tutorial01_mf6/mf6_tutorial01.py:73-75 | No cell index appears twice in the CHD list if and only if N is not 1. |
| `ConstantHead.SingleCellGridRepeats` | tutorial01_mf6/mf6_tutorial01.py:72-75 | For N = 1 the list is exactly `[((0,0,0), h1), ((0,0,0), h1)]`, so its cells are not distinct. |
| `ConstantHead.ChdComplete` | tutorial01_mf6/mf6_tutorial01.py:72-77 | Every top-layer cell with row or column equal to 0 or N-1 is listed with head `h1`. |
| `ConstantHead.ChdExactlyOnce` | tutorial01_mf6/mf6_tutorial01.py:70-77 | For N >= 2, a cell occurs with head `h1` exactly once if it lies on the outer ring of the top layer, and never otherwise. |
| `Well.TruncQuarter` | tutorial01_mf6/mf6_tutorial01.py:89 | `int(N/4)` truncates toward zero. For N >= 0 the result r satisfies 4r <= N < 4r+4 with r >= 0. For N < 0 it satisfies 4r-4 < N <= 4r <= 0. |
| `Well.WelRecords` | tutorial01_mf6/mf6_tutorial01.py:89 | The well list has exactly one record. It has rate `q`, layer `Nlay-1`, and row = column = `int(N/4)`: for N >= 0 the row r satisfies 4r <= N < 4r+4 with r >= 0, and for N < 0 it satisfies 4r-4 < N <= 4r <= 0. |
| `Well.WellInGrid` | tutorial01_mf6/mf6_tutorial01.py:89 | When Nlay >= 1 and N >= 1, the well cell lies inside the Nlay x N x N grid. |
| `Well.WellInteriorIff` | tutorial01_mf6/mf6_tutorial01.py:89 | For N >= 1, the well's row and column are strictly inside the layer (away from every edge) if and only if N >= 4. |
| `Well.WellOffChd` | tutorial01_mf6/mf6_tutorial01.py:70-89 | For N >= 4, no constant-head record lies on the well cell. |
| `Well.WellOnChdIff` | tutorial01_mf6/mf6_tutorial01.py:70-89 | The well cell coincides with some constant-head cell if and only if Nlay = 1 and 1 <= N <= 3. With more layers the well is never in the top layer, and for N >= 4 it is away from the ring. |
| `InitialHeads.StartHeads` | tutorial01_mf6/mf6_tutorial01.py:59 | The array exists if and only if both dimensions are non-negative (numpy rejects negative ones). It then has shape Nlay x N x N, and every entry equals `h1` as a float. |
| `InitialHeads.StartMatchesChd` | tutorial01_mf6/mf6_tutorial01.py:59-77 | For Nlay >= 1, every constant-head cell is inside the starting array, and its starting value equals the head the cell is held at. |
| `Tutorial01.Tutorial01Chd` | tutorial01_mf6/mf6_tutorial01.py:70-77 | With the script's N = 101 and h1 = 100 (lines 7 and 9) the CHD list has 400 records and no repeated cell. Every record is a ring cell with head 100, and each ring cell occurs exactly once. |
| `Tutorial01.Tutorial01Well` | tutorial01_mf6/mf6_tutorial01.py:86-89 | With the script's Nlay = 10, N = 101 and q = -1000 (lines 8, 9 and 13) the well list holds the single record (9, 25, 25, -1000.0). That cell is inside the grid and is not a constant-head cell. |
| `Tutorial01.Tutorial01Start` | tutorial01_mf6/mf6_tutorial01.py:59 | With the script's sizes (lines 7-9), the starting heads form a 10 x 101 x 101 array. Its entry at the well cell (9, 25, 25) is 100.0. |

## Left out

- All flopy object construction: simulation, TDIS, IMS, GWF, DIS, NPF, IC, CHD and WEL package wrappers, OC. These only pass values to the library.
- `tutorial02_mf6_simulation_settings_models_packages.py`: it only sets library options and calls accessors on library objects.
- Writing the input files and running the `mf6` solver. That is file I/O and an external process.
- Reading the head and budget output, and the residual computation through `flopy.mf6.utils.get_residuals`. These use external binary formats and a foreign helper.
- All plotting.
- Floating-point geometry: the layer bottoms from `np.linspace`, the cell spacing `L/(N-1)` and the contour levels. They do not affect the record indices.
- `Well.TruncQuarter`: models `int(N / 4)` as exact truncation. Python computes `N / 4` as a float first, so the two agree only while N is exactly representable as a float (|N| <= 2^53).
- The well record is nested as `WelRecord(Cell(layer, row, col), q)`, where the script writes one flat tuple `(layer, row, col, q)`. The contents and their order are the same.
- The rate `q` and the starting heads are carried as mathematical reals, not IEEE doubles. The values the script uses (-1000.0 and 100.0) are exact in both.
