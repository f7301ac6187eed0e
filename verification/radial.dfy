/**
 * Radial statistics around a point: the samples that the statistics loop
 * accumulates, in the order it visits them.
 *
 * The loop scans an index window clamped to the grid. Its row index starts
 * at the window's lower COLUMN bound (`ijMin.x`), as the loop is written, so
 * the set of rows visited is `[lo.x, hi.y)`, not `[lo.y, hi.y)`. A sample is
 * kept when its cell centre lies within the radius and its height is `>= 0`
 * (the no-data sentinel is not consulted).
 */
module Radial {
  import opened Geometry
  import opened Rasters
  import opened Extremes
  import opened Sequences

  /** The clamped index window: columns `[lo.x, hi.x)`, rows up to `hi.y`. */
  datatype Window = Window(lo: IVec2, hi: IVec2)

  /**
   * Window of cells within `ceil(rad / res)` cells of the point's cell,
   * clamped below by 0 and above by the grid size: every index the scan
   * touches is inside the grid.
   */
  function StatsWindow(r: Raster, p: Vec2, rad: real): (w: Window)
    requires r.WellFormed()
    ensures 0 <= w.lo.x && 0 <= w.lo.y && w.hi.x <= r.size.x && w.hi.y <= r.size.y
    ensures WindowInGrid(r, w)
  {
    var pc := r.CellOf(p);
    var off := IVec2(Ceil(rad / r.res.x), Ceil(rad / r.res.y));
    Window(IVec2(MaxInt(pc.x - off.x, 0), MaxInt(pc.y - off.y, 0)),
           IVec2(MinInt(pc.x + off.x, r.size.x), MinInt(pc.y + off.y, r.size.y)))
  }

  /** Every index the scan of `w` touches lies inside the grid. */
  predicate WindowInGrid(r: Raster, w: Window)
  {
    0 <= w.lo.x && w.hi.x <= r.size.x && w.hi.y <= r.size.y
  }

  /**
   * `sqrt(d2) <= rad`, stated without the square root: a distance is never
   * negative, so the test fails for a negative radius.
   */
  predicate InRadius(d2: real, rad: real)
  {
    rad >= 0.0 && d2 <= rad * rad
  }

  /** The squared form agrees with comparing the distance itself. */
  lemma InRadiusIsDistanceTest(d: real, rad: real)
    requires d >= 0.0
    ensures InRadius(d * d, rad) <==> d <= rad
  {
    if d <= rad {
      assert d * d <= d * rad <= rad * rad;
    } else if rad >= 0.0 {
      assert rad * rad <= rad * d < d * d;
    }
  }

  /** Sample `(i, j)` is accumulated: centre within the radius, height `>= 0`. */
  predicate Counted(r: Raster, p: Vec2, rad: real, i: int, j: int)
    requires r.WellFormed() && r.Has(i, j)
  {
    InRadius(DistSq(r.Centre(i, j), p), rad) && r.cells[i][j] >= 0.0
  }

  /** The point recorded for a sample: the cell's corner and its height. */
  function SamplePoint(r: Raster, i: int, j: int): Vec3
    requires r.WellFormed() && r.Has(i, j)
  {
    Vec3(r.Corner(i, j).x, r.Corner(i, j).y, r.cells[i][j])
  }

  function Height(v: Vec3): real { v.z }
  function HeightSq(v: Vec3): real { v.z * v.z }

  /** The accumulators of the statistics loop. */
  datatype Stats = Stats(hmin: Vec3, hmax: Vec3, hsum: real, ssum: real, n: nat)

  /**
   * The accumulators after the samples `s`, starting from the query point:
   * running min and max by height, sum of heights, sum of squares, count.
   */
  function StatsOf(p: Vec3, s: seq<Vec3>): Stats
  {
    Stats(Best(Lowest, Height, p, s), Best(Highest, Height, p, s), SumOf(Height, s), SumOf(HeightSq, s), |s|)
  }

  /** One accumulated sample: strict min/max replacement, sums and count grown. */
  function Accumulate(st: Stats, v: Vec3): Stats
  {
    Stats(if v.z < st.hmin.z then v else st.hmin, if v.z > st.hmax.z then v else st.hmax,
          st.hsum + v.z, st.ssum + v.z * v.z, st.n + 1)
  }

  /** Accumulating one more sample is one step of the accumulators. */
  lemma StatsOfSnoc(p: Vec3, s: seq<Vec3>, v: Vec3)
    ensures StatsOf(p, s + [v]) == Accumulate(StatsOf(p, s), v)
  {
    BestSnoc(Lowest, Height, p, s, v);
    BestSnoc(Highest, Height, p, s, v);
    SumOfSnoc(Height, s, v);
    SumOfSnoc(HeightSq, s, v);
  }

  /** Samples of column `i`, rows `j0`, ..., `j - 1`. */
  function RowSamples(r: Raster, p: Vec2, rad: real, i: int, j0: int, j: int): seq<Vec3>
    requires r.WellFormed() && 0 <= i < r.size.x
    requires j <= j0 || (0 <= j0 && j <= r.size.y)
    decreases j - j0
  {
    if j <= j0 then []
    else RowSamples(r, p, rad, i, j0, j - 1) +
         (if Counted(r, p, rad, i, j - 1) then [SamplePoint(r, i, j - 1)] else [])
  }

  /** Samples of columns `i0`, ..., `i - 1`, each over rows `[j0, j1)`. */
  function BlockSamples(r: Raster, p: Vec2, rad: real, i0: int, i: int, j0: int, j1: int): seq<Vec3>
    requires r.WellFormed()
    requires i <= i0 || (0 <= i0 && i <= r.size.x)
    requires j1 <= j0 || (0 <= j0 && j1 <= r.size.y)
    decreases i - i0
  {
    if i <= i0 then []
    else BlockSamples(r, p, rad, i0, i - 1, j0, j1) + RowSamples(r, p, rad, i - 1, j0, j1)
  }

  /**
   * Everything the statistics loop accumulates over window `w`, in visiting
   * order; the loop runs it over `StatsWindow(r, p, rad)`.
   */
  function Samples(r: Raster, p: Vec2, rad: real, w: Window): seq<Vec3>
    requires r.WellFormed() && WindowInGrid(r, w)
  {
    BlockSamples(r, p, rad, w.lo.x, w.hi.x, w.lo.x, w.hi.y)
  }

  /** One more row adds the sample of that row when it is counted, and nothing otherwise. */
  lemma RowSamplesNext(r: Raster, p: Vec2, rad: real, i: int, j0: int, j: int)
    requires r.WellFormed() && 0 <= i < r.size.x && 0 <= j0 <= j < r.size.y
    ensures RowSamples(r, p, rad, i, j0, j + 1)
         == RowSamples(r, p, rad, i, j0, j) + (if Counted(r, p, rad, i, j) then [SamplePoint(r, i, j)] else [])
  {
  }

  /**
   * One column of the statistics loop: visits rows `w.lo.x`, ...,
   * `w.hi.y - 1` of column `i` and accumulates every counted sample.
   */
  method AccumulateColumn(r: Raster, p: Vec3, rad: real, w: Window, i: int, st0: Stats, ghost s0: seq<Vec3>) returns (st: Stats)
    requires r.WellFormed() && WindowInGrid(r, w) && w.lo.x <= i < w.hi.x
    requires st0 == StatsOf(p, s0)
    ensures st == StatsOf(p, s0 + RowSamples(r, XY(p), rad, i, w.lo.x, w.hi.y))
  {
    var pxy := XY(p);
    st := st0;
    ghost var s := s0;
    var j := w.lo.x;
    assert s0 + RowSamples(r, pxy, rad, i, w.lo.x, j) == s0;
    while j < w.hi.y
      invariant w.lo.x <= j && (j <= w.hi.y || j == w.lo.x)
      invariant s == s0 + RowSamples(r, pxy, rad, i, w.lo.x, j)
      invariant st == StatsOf(p, s)
    {
      var pij := r.Centre(i, j);
      RowSamplesNext(r, pxy, rad, i, w.lo.x, j);
      if InRadius(DistSq(pij, pxy), rad) && r.cells[i][j] >= 0.0 {
        var h := r.cells[i][j];
        ghost var v := SamplePoint(r, i, j);
        var hmin, hmax := st.hmin, st.hmax;
        if h < hmin.z {
          hmin := Vec3(r.Corner(i, j).x, r.Corner(i, j).y, h);
        }
        if h > hmax.z {
          hmax := Vec3(r.Corner(i, j).x, r.Corner(i, j).y, h);
        }
        assert Stats(hmin, hmax, st.hsum + h, st.ssum + h * h, st.n + 1) == Accumulate(st, v);
        st := Stats(hmin, hmax, st.hsum + h, st.ssum + h * h, st.n + 1);
        StatsOfSnoc(p, s, v);
        AppendAssoc(s0, RowSamples(r, pxy, rad, i, w.lo.x, j), [v]);
        s := s + [v];
      }
      j := j + 1;
    }
  }

  /** Cell `(i, j)` is one the loop visits (rows starting at `lo.x`). */
  predicate Visited(w: Window, i: int, j: int)
  {
    w.lo.x <= i < w.hi.x && w.lo.x <= j < w.hi.y
  }

  lemma {:induction false} RowSamplesContain(r: Raster, p: Vec2, rad: real, i: int, j0: int, j: int, j1: int)
    requires r.WellFormed() && 0 <= i < r.size.x && 0 <= j0 <= j < j1 <= r.size.y
    requires Counted(r, p, rad, i, j)
    ensures SamplePoint(r, i, j) in RowSamples(r, p, rad, i, j0, j1)
    decreases j1
  {
    var last := if Counted(r, p, rad, i, j1 - 1) then [SamplePoint(r, i, j1 - 1)] else [];
    if j < j1 - 1 {
      RowSamplesContain(r, p, rad, i, j0, j, j1 - 1);
      InAppend(SamplePoint(r, i, j), RowSamples(r, p, rad, i, j0, j1 - 1), last);
    } else {
      InAppend(SamplePoint(r, i, j), RowSamples(r, p, rad, i, j0, j1 - 1), last);
    }
  }

  lemma {:induction false} BlockSamplesContain(r: Raster, p: Vec2, rad: real,
                                               i0: int, i: int, i1: int, j0: int, j: int, j1: int)
    requires r.WellFormed() && 0 <= i0 <= i < i1 <= r.size.x && 0 <= j0 <= j < j1 <= r.size.y
    requires Counted(r, p, rad, i, j)
    ensures SamplePoint(r, i, j) in BlockSamples(r, p, rad, i0, i1, j0, j1)
    decreases i1
  {
    var prev := BlockSamples(r, p, rad, i0, i1 - 1, j0, j1);
    var last := RowSamples(r, p, rad, i1 - 1, j0, j1);
    if i < i1 - 1 {
      BlockSamplesContain(r, p, rad, i0, i, i1 - 1, j0, j, j1);
    } else {
      RowSamplesContain(r, p, rad, i, j0, j, j1);
    }
    InAppend(SamplePoint(r, i, j), prev, last);
  }

  /** Every visited cell that passes the radius and height tests is accumulated. */
  lemma SampleIncluded(r: Raster, p: Vec2, rad: real, w: Window, i: int, j: int)
    requires r.WellFormed() && WindowInGrid(r, w) && Visited(w, i, j)
    requires r.Has(i, j) && Counted(r, p, rad, i, j)
    ensures SamplePoint(r, i, j) in Samples(r, p, rad, w)
  {
    BlockSamplesContain(r, p, rad, w.lo.x, i, w.hi.x, w.lo.x, j, w.hi.y);
  }

  lemma {:induction false} RowSamplesSource(r: Raster, p: Vec2, rad: real, i: int, j0: int, j: int, k: int)
    returns (j': int)
    requires r.WellFormed() && 0 <= i < r.size.x && (j <= j0 || (0 <= j0 && j <= r.size.y))
    requires 0 <= k < |RowSamples(r, p, rad, i, j0, j)|
    ensures j0 <= j' < j && r.Has(i, j') && Counted(r, p, rad, i, j')
    ensures RowSamples(r, p, rad, i, j0, j)[k] == SamplePoint(r, i, j')
    decreases j - j0
  {
    var prev := RowSamples(r, p, rad, i, j0, j - 1);
    if k < |prev| {
      j' := RowSamplesSource(r, p, rad, i, j0, j - 1, k);
    } else {
      j' := j - 1;
    }
  }

  lemma {:induction false} BlockSamplesSource(r: Raster, p: Vec2, rad: real, i0: int, i: int, j0: int, j1: int, k: int)
    returns (i': int, j': int)
    requires r.WellFormed()
    requires i <= i0 || (0 <= i0 && i <= r.size.x)
    requires j1 <= j0 || (0 <= j0 && j1 <= r.size.y)
    requires 0 <= k < |BlockSamples(r, p, rad, i0, i, j0, j1)|
    ensures i0 <= i' < i && j0 <= j' < j1 && r.Has(i', j') && Counted(r, p, rad, i', j')
    ensures BlockSamples(r, p, rad, i0, i, j0, j1)[k] == SamplePoint(r, i', j')
    decreases i - i0
  {
    var prev := BlockSamples(r, p, rad, i0, i - 1, j0, j1);
    if k < |prev| {
      i', j' := BlockSamplesSource(r, p, rad, i0, i - 1, j0, j1, k);
    } else {
      i' := i - 1;
      j' := RowSamplesSource(r, p, rad, i - 1, j0, j1, k - |prev|);
    }
  }

  /** Every accumulated sample comes from a visited cell that passes both tests. */
  lemma SampleSource(r: Raster, p: Vec2, rad: real, w: Window, k: int) returns (i: int, j: int)
    requires r.WellFormed() && WindowInGrid(r, w) && 0 <= k < |Samples(r, p, rad, w)|
    ensures Visited(w, i, j) && r.Has(i, j) && Counted(r, p, rad, i, j)
    ensures Samples(r, p, rad, w)[k] == SamplePoint(r, i, j)
  {
    i, j := BlockSamplesSource(r, p, rad, w.lo.x, w.hi.x, w.lo.x, w.hi.y, k);
  }

  /** The cells of column `i`, rows `j0 .. j - 1`, whose samples are accumulated, in visiting order. */
  function RowCells(r: Raster, p: Vec2, rad: real, i: int, j0: int, j: int): (cs: seq<IVec2>)
    requires r.WellFormed() && 0 <= i < r.size.x
    requires j <= j0 || (0 <= j0 && j <= r.size.y)
    ensures forall k :: 0 <= k < |cs| ==>
              cs[k].x == i && j0 <= cs[k].y < j && r.Has(i, cs[k].y) && Counted(r, p, rad, i, cs[k].y)
    ensures forall a, b :: 0 <= a < b < |cs| ==> cs[a].y < cs[b].y
    decreases j - j0
  {
    if j <= j0 then []
    else RowCells(r, p, rad, i, j0, j - 1) + (if Counted(r, p, rad, i, j - 1) then [IVec2(i, j - 1)] else [])
  }

  /** The cells of columns `i0 .. i - 1`, rows `[j0, j1)`, whose samples are accumulated, in visiting order. */
  function BlockCells(r: Raster, p: Vec2, rad: real, i0: int, i: int, j0: int, j1: int): (cs: seq<IVec2>)
    requires r.WellFormed()
    requires i <= i0 || (0 <= i0 && i <= r.size.x)
    requires j1 <= j0 || (0 <= j0 && j1 <= r.size.y)
    ensures forall k :: 0 <= k < |cs| ==>
              i0 <= cs[k].x < i && j0 <= cs[k].y < j1 && r.Has(cs[k].x, cs[k].y) && Counted(r, p, rad, cs[k].x, cs[k].y)
    ensures forall a, b :: 0 <= a < b < |cs| ==> ScanBefore(cs[a], cs[b])
    decreases i - i0
  {
    if i <= i0 then []
    else
      var prev := BlockCells(r, p, rad, i0, i - 1, j0, j1);
      var row := RowCells(r, p, rad, i - 1, j0, j1);
      prev + row
  }

  /** The cells whose samples the loop over `w` accumulates, in visiting order. */
  function SampleCells(r: Raster, p: Vec2, rad: real, w: Window): seq<IVec2>
    requires r.WellFormed() && WindowInGrid(r, w)
  {
    BlockCells(r, p, rad, w.lo.x, w.hi.x, w.lo.x, w.hi.y)
  }

  /** The visited cells that pass the radius and height tests, as a set. */
  function CountedCells(r: Raster, p: Vec2, rad: real, w: Window): set<IVec2>
    requires r.WellFormed()
  {
    set i, j | w.lo.x <= i < w.hi.x && w.lo.x <= j < w.hi.y && r.Has(i, j) && Counted(r, p, rad, i, j) :: IVec2(i, j)
  }

  lemma {:induction false} RowCellsMatch(r: Raster, p: Vec2, rad: real, i: int, j0: int, j: int)
    requires r.WellFormed() && 0 <= i < r.size.x && (j <= j0 || (0 <= j0 && j <= r.size.y))
    ensures |RowSamples(r, p, rad, i, j0, j)| == |RowCells(r, p, rad, i, j0, j)|
    ensures forall k :: 0 <= k < |RowCells(r, p, rad, i, j0, j)| ==>
              RowSamples(r, p, rad, i, j0, j)[k] == SamplePoint(r, i, RowCells(r, p, rad, i, j0, j)[k].y)
    decreases j - j0
  {
    if j > j0 {
      RowCellsMatch(r, p, rad, i, j0, j - 1);
    }
  }

  lemma {:induction false} BlockCellsMatch(r: Raster, p: Vec2, rad: real, i0: int, i: int, j0: int, j1: int)
    requires r.WellFormed()
    requires i <= i0 || (0 <= i0 && i <= r.size.x)
    requires j1 <= j0 || (0 <= j0 && j1 <= r.size.y)
    ensures |BlockSamples(r, p, rad, i0, i, j0, j1)| == |BlockCells(r, p, rad, i0, i, j0, j1)|
    ensures forall k :: 0 <= k < |BlockCells(r, p, rad, i0, i, j0, j1)| ==>
              var c := BlockCells(r, p, rad, i0, i, j0, j1)[k];
              BlockSamples(r, p, rad, i0, i, j0, j1)[k] == SamplePoint(r, c.x, c.y)
    decreases i - i0
  {
    if i > i0 {
      BlockCellsMatch(r, p, rad, i0, i - 1, j0, j1);
      RowCellsMatch(r, p, rad, i - 1, j0, j1);
      var ps := BlockSamples(r, p, rad, i0, i - 1, j0, j1);
      var pc: seq<IVec2> := BlockCells(r, p, rad, i0, i - 1, j0, j1);
      var rs := RowSamples(r, p, rad, i - 1, j0, j1);
      var rc: seq<IVec2> := RowCells(r, p, rad, i - 1, j0, j1);
      forall k | 0 <= k < |pc| + |rc|
        ensures (ps + rs)[k] == SamplePoint(r, (pc + rc)[k].x, (pc + rc)[k].y)
      {
        if k < |pc| {
          assert (ps + rs)[k] == ps[k] && (pc + rc)[k] == pc[k];
        } else {
          assert (ps + rs)[k] == rs[k - |pc|] && (pc + rc)[k] == rc[k - |pc|];
        }
      }
    }
  }

  lemma {:induction false} RowCellsContain(r: Raster, p: Vec2, rad: real, i: int, j0: int, j: int, j1: int)
    requires r.WellFormed() && 0 <= i < r.size.x && 0 <= j0 <= j < j1 <= r.size.y
    requires Counted(r, p, rad, i, j)
    ensures IVec2(i, j) in RowCells(r, p, rad, i, j0, j1)
    decreases j1
  {
    if j < j1 - 1 {
      RowCellsContain(r, p, rad, i, j0, j, j1 - 1);
    }
  }

  lemma {:induction false} BlockCellsContain(r: Raster, p: Vec2, rad: real,
                                             i0: int, i: int, i1: int, j0: int, j: int, j1: int)
    requires r.WellFormed() && 0 <= i0 <= i < i1 <= r.size.x && 0 <= j0 <= j < j1 <= r.size.y
    requires Counted(r, p, rad, i, j)
    ensures IVec2(i, j) in BlockCells(r, p, rad, i0, i1, j0, j1)
    decreases i1
  {
    if i < i1 - 1 {
      BlockCellsContain(r, p, rad, i0, i, i1 - 1, j0, j, j1);
    } else {
      RowCellsContain(r, p, rad, i, j0, j, j1);
    }
  }

  /**
   * The accumulated samples are exactly the visited cells that pass both
   * tests, each taken once, in column-major visiting order.
   */
  lemma SamplesEnumerate(r: Raster, p: Vec2, rad: real, w: Window)
    requires r.WellFormed() && WindowInGrid(r, w)
    ensures var s, cs := Samples(r, p, rad, w), SampleCells(r, p, rad, w);
            && |s| == |cs|
            && (forall k :: 0 <= k < |cs| ==>
                  Visited(w, cs[k].x, cs[k].y) && r.Has(cs[k].x, cs[k].y) && Counted(r, p, rad, cs[k].x, cs[k].y) &&
                  s[k] == SamplePoint(r, cs[k].x, cs[k].y))
            && (forall a, b :: 0 <= a < b < |cs| ==> ScanBefore(cs[a], cs[b]))
            && (forall i, j :: Visited(w, i, j) && r.Has(i, j) && Counted(r, p, rad, i, j) ==> IVec2(i, j) in cs)
  {
    BlockCellsMatch(r, p, rad, w.lo.x, w.hi.x, w.lo.x, w.hi.y);
    forall i, j | Visited(w, i, j) && r.Has(i, j) && Counted(r, p, rad, i, j)
      ensures IVec2(i, j) in SampleCells(r, p, rad, w)
    {
      BlockCellsContain(r, p, rad, w.lo.x, i, w.hi.x, w.lo.x, j, w.hi.y);
    }
  }

  /** The count `N` of the statistics is the number of visited cells that pass both tests. */
  lemma SampleCount(r: Raster, p: Vec3, rad: real, w: Window)
    requires r.WellFormed() && WindowInGrid(r, w)
    ensures StatsOf(p, Samples(r, XY(p), rad, w)).n == |CountedCells(r, XY(p), rad, w)|
  {
    var cs := SampleCells(r, XY(p), rad, w);
    SamplesEnumerate(r, XY(p), rad, w);
    assert forall a, b :: 0 <= a < b < |cs| ==> cs[a] != cs[b] by {
      forall a, b | 0 <= a < b < |cs| ensures cs[a] != cs[b] {
        assert ScanBefore(cs[a], cs[b]);
      }
    }
    DistinctCardinality(cs);
    assert (set c | c in cs) == CountedCells(r, XY(p), rad, w);
  }

  /**
   * The recorded extremum starts at the query point and moves only to a
   * counted sample strictly more extreme than the query height.
   */
  lemma ExtremumSource(r: Raster, p: Vec3, rad: real, w: Window, kind: Extremum) returns (i: int, j: int)
    requires r.WellFormed() && WindowInGrid(r, w)
    ensures Best(kind, Height, p, Samples(r, XY(p), rad, w)) != p ==>
              && Visited(w, i, j) && r.Has(i, j) && Counted(r, XY(p), rad, i, j)
              && Best(kind, Height, p, Samples(r, XY(p), rad, w)) == SamplePoint(r, i, j)
              && Beats(kind, r.cells[i][j], p.z)
  {
    var s := Samples(r, XY(p), rad, w);
    var k := BestWitness(kind, Height, p, s);
    i, j := 0, 0;
    if k >= 0 {
      i, j := SampleSource(r, XY(p), rad, w, k);
    }
  }

  /**
   * The recorded min and max bracket the query height and every accumulated
   * sample; hence, when there is a sample, they bracket the mean.
   */
  lemma StatisticsBounds(r: Raster, p: Vec3, rad: real, w: Window)
    requires r.WellFormed() && WindowInGrid(r, w)
    ensures var s := Samples(r, XY(p), rad, w);
            var lo := Best(Lowest, Height, p, s).z;
            var hi := Best(Highest, Height, p, s).z;
            && lo <= p.z <= hi
            && (forall k :: 0 <= k < |s| ==> lo <= s[k].z <= hi)
            && (|s| > 0 ==> lo <= SumOf(Height, s) / (|s| as real) <= hi)
  {
    var s := Samples(r, XY(p), rad, w);
    var lo := Best(Lowest, Height, p, s).z;
    var hi := Best(Highest, Height, p, s).z;
    BestBound(Lowest, Height, p, s);
    BestBound(Highest, Height, p, s);
    if |s| > 0 {
      MeanWithin(Height, s, lo, hi);
    }
  }
}
