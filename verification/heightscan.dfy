/**
 * The global extremum of a height grid, as the memoised scan computes it:
 * start from sample (0,0), then visit every cell of `[0, size.x) x
 * [0, size.y)` column by column, keeping the running min (or max). No-data
 * samples are not skipped.
 */
module HeightScan {
  import opened Rasters
  import opened Extremes

  /** Sample (0,0), the scan's starting value, exists. */
  predicate HasFirstSample(r: Raster)
  {
    |r.cells| > 0 && |r.cells[0]| > 0
  }

  /** Heights of cells `(x, 0)`, ..., `(x, y - 1)`. */
  function ColumnHeights(r: Raster, x: int, y: int): seq<real>
    requires r.WellFormed() && 0 <= x < r.size.x && 0 <= y <= r.size.y
    decreases y
  {
    if y == 0 then [] else ColumnHeights(r, x, y - 1) + [r.cells[x][y - 1]]
  }

  /** Heights of the cells in columns `0`, ..., `x - 1`, in scan order. */
  function HeightsBefore(r: Raster, x: int): seq<real>
    requires r.WellFormed() && 0 <= x <= r.size.x
    decreases x
  {
    if x == 0 then [] else HeightsBefore(r, x - 1) + ColumnHeights(r, x - 1, r.size.y)
  }

  function ScanHeights(r: Raster): seq<real>
    requires r.WellFormed()
  {
    HeightsBefore(r, r.size.x)
  }

  /** What the scan returns: the running extremum over all cells, seeded with sample (0,0). */
  function ExtremeHeight(r: Raster, kind: Extremum): real
    requires r.WellFormed() && HasFirstSample(r)
  {
    Best(kind, Id, r.cells[0][0], ScanHeights(r))
  }

  /** Folds the samples of column `i` into `m0`, the running minimum over the samples `before`. */
  method ColumnLowest(r: Raster, i: int, ghost before: seq<real>, m0: real) returns (m: real)
    requires r.WellFormed() && HasFirstSample(r) && 0 <= i < r.size.x
    requires m0 == Best(Lowest, Id, r.cells[0][0], before)
    ensures m == Best(Lowest, Id, r.cells[0][0], before + ColumnHeights(r, i, r.size.y))
  {
    m := m0;
    var j := 0;
    assert before + ColumnHeights(r, i, 0) == before;
    while j < r.size.y
      invariant 0 <= j <= r.size.y
      invariant m == Best(Lowest, Id, r.cells[0][0], before + ColumnHeights(r, i, j))
    {
      BestSnoc(Lowest, Id, r.cells[0][0], before + ColumnHeights(r, i, j), r.cells[i][j]);
      assert before + ColumnHeights(r, i, j + 1) == before + ColumnHeights(r, i, j) + [r.cells[i][j]];
      m := if r.cells[i][j] < m then r.cells[i][j] else m;
      j := j + 1;
    }
  }

  /** Folds the samples of column `i` into `m0`, the running maximum over the samples `before`. */
  method ColumnHighest(r: Raster, i: int, ghost before: seq<real>, m0: real) returns (m: real)
    requires r.WellFormed() && HasFirstSample(r) && 0 <= i < r.size.x
    requires m0 == Best(Highest, Id, r.cells[0][0], before)
    ensures m == Best(Highest, Id, r.cells[0][0], before + ColumnHeights(r, i, r.size.y))
  {
    m := m0;
    var j := 0;
    assert before + ColumnHeights(r, i, 0) == before;
    while j < r.size.y
      invariant 0 <= j <= r.size.y
      invariant m == Best(Highest, Id, r.cells[0][0], before + ColumnHeights(r, i, j))
    {
      BestSnoc(Highest, Id, r.cells[0][0], before + ColumnHeights(r, i, j), r.cells[i][j]);
      assert before + ColumnHeights(r, i, j + 1) == before + ColumnHeights(r, i, j) + [r.cells[i][j]];
      m := if m < r.cells[i][j] then r.cells[i][j] else m;
      j := j + 1;
    }
  }

  lemma {:induction false} ColumnHeightsContains(r: Raster, x: int, y: int, y': int)
    requires r.WellFormed() && 0 <= x < r.size.x && 0 <= y < y' <= r.size.y
    ensures r.cells[x][y] in ColumnHeights(r, x, y')
    decreases y'
  {
    if y < y' - 1 {
      ColumnHeightsContains(r, x, y, y' - 1);
    }
  }

  lemma {:induction false} HeightsBeforeContains(r: Raster, x: int, y: int, x': int)
    requires r.WellFormed() && r.Has(x, y) && x < x' <= r.size.x
    ensures r.cells[x][y] in HeightsBefore(r, x')
    decreases x'
  {
    if x < x' - 1 {
      HeightsBeforeContains(r, x, y, x' - 1);
    } else {
      ColumnHeightsContains(r, x, y, r.size.y);
    }
  }

  lemma {:induction false} ColumnHeightsSource(r: Raster, x: int, y: int, k: int) returns (y': int)
    requires r.WellFormed() && 0 <= x < r.size.x && 0 <= y <= r.size.y
    requires 0 <= k < |ColumnHeights(r, x, y)|
    ensures 0 <= y' < y && ColumnHeights(r, x, y)[k] == r.cells[x][y']
    decreases y
  {
    if k < |ColumnHeights(r, x, y - 1)| {
      y' := ColumnHeightsSource(r, x, y - 1, k);
    } else {
      y' := y - 1;
    }
  }

  lemma {:induction false} HeightsBeforeSource(r: Raster, x: int, k: int) returns (x': int, y': int)
    requires r.WellFormed() && 0 <= x <= r.size.x
    requires 0 <= k < |HeightsBefore(r, x)|
    ensures 0 <= x' < x && r.Has(x', y') && HeightsBefore(r, x)[k] == r.cells[x'][y']
    decreases x
  {
    var prev := HeightsBefore(r, x - 1);
    if k < |prev| {
      x', y' := HeightsBeforeSource(r, x - 1, k);
    } else {
      x' := x - 1;
      y' := ColumnHeightsSource(r, x - 1, r.size.y, k - |prev|);
    }
  }

  /**
   * The scanned minimum is at most every sample of the grid (and the
   * maximum at least every sample), no-data samples included.
   */
  lemma ExtremeHeightBound(r: Raster, kind: Extremum)
    requires r.WellFormed() && HasFirstSample(r)
    ensures NoWorse(kind, ExtremeHeight(r, kind), r.cells[0][0])
    ensures forall x, y :: r.Has(x, y) ==> NoWorse(kind, ExtremeHeight(r, kind), r.cells[x][y])
  {
    var s := ScanHeights(r);
    BestBound(kind, Id, r.cells[0][0], s);
    forall x, y | r.Has(x, y) ensures NoWorse(kind, ExtremeHeight(r, kind), r.cells[x][y]) {
      HeightsBeforeContains(r, x, y, r.size.x);
      var k :| 0 <= k < |s| && s[k] == r.cells[x][y];
    }
  }

  /** The scanned extremum is an actual sample: (0,0) or a cell of the grid. */
  lemma ExtremeHeightAttained(r: Raster, kind: Extremum) returns (x: int, y: int)
    requires r.WellFormed() && HasFirstSample(r)
    ensures (x == 0 && y == 0) || r.Has(x, y)
    ensures 0 <= x < |r.cells| && 0 <= y < |r.cells[x]|
    ensures r.cells[x][y] == ExtremeHeight(r, kind)
  {
    var k := BestWitness(kind, Id, r.cells[0][0], ScanHeights(r));
    if k == -1 {
      x, y := 0, 0;
    } else {
      x, y := HeightsBeforeSource(r, r.size.x, k);
    }
  }
}
