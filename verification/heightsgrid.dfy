/**
 * A height grid: samples indexed `[column][row]`, the world rectangle they
 * cover, the cell size, the number of cells per axis, the no-data sentinel,
 * and the two memoised extrema. Only the memo fields change after
 * construction; every other field is fixed, and the sample array is exposed
 * read-only.
 *
 * Every query scans cells `[0, gridSize)`, so it requires a well-formed
 * grid: a positive cell size and samples for every such cell.
 */
module HeightsGrids {
  import opened Geometry
  import opened Rasters
  import opened Extremes
  import opened Mesh
  import opened HeightScan
  import opened Radial
  import opened Isolation

  /** The sentinel used when the caller supplies none. */
  const DefaultNoValue: real := -9999.0

  class HeightsGrid {
    const grid: seq<seq<real>>
    const gridMin: Vec2
    const gridMax: Vec2
    const gridRes: Vec2
    const gridSize: IVec2
    const gridNoValue: real
    var heightMin: real
    var heightMax: real

    /** The fixed part of the grid as a value. */
    function AsRaster(): Raster
    {
      Raster(grid, gridMin, gridRes, gridSize, gridNoValue)
    }

    predicate WellFormed()
    {
      AsRaster().WellFormed()
    }

    /** The cell counts are the truncated extent over the cell size. */
    predicate SizeFromExtent()
    {
      gridRes.x != 0.0 && gridRes.y != 0.0 &&
      gridSize == IVec2(Trunc((gridMax.x - gridMin.x) / gridRes.x), Trunc((gridMax.y - gridMin.y) / gridRes.y))
    }

    /**
     * A memo at or below the sentinel means "not computed yet"; any other
     * value is the extremum the scan computes.
     */
    ghost predicate Valid()
      reads this
    {
      SizeFromExtent() &&
      (heightMin <= gridNoValue ||
       (WellFormed() && HasFirstSample(AsRaster()) && heightMin == ExtremeHeight(AsRaster(), Lowest))) &&
      (heightMax <= gridNoValue ||
       (WellFormed() && HasFirstSample(AsRaster()) && heightMax == ExtremeHeight(AsRaster(), Highest)))
    }

    /** Stores the samples and the geometry; the sentinel defaults to `DefaultNoValue`. */
    constructor(grid: seq<seq<real>>, gmin: Vec2, gmax: Vec2, gres: Vec2, gridNoVal: real := DefaultNoValue)
      requires gres.x != 0.0 && gres.y != 0.0
      ensures this.grid == grid && gridMin == gmin && gridMax == gmax && gridRes == gres
      ensures gridSize == IVec2(Trunc((gmax.x - gmin.x) / gres.x), Trunc((gmax.y - gmin.y) / gres.y))
      ensures gridNoValue == gridNoVal
      ensures heightMin == gridNoVal && heightMax == gridNoVal
      ensures Valid()
    {
      this.grid := grid;
      gridMin := gmin;
      gridMax := gmax;
      gridRes := gres;
      gridSize := IVec2(Trunc((gmax.x - gmin.x) / gres.x), Trunc((gmax.y - gmin.y) / gres.y));
      gridNoValue := gridNoVal;
      heightMin := gridNoVal;
      heightMax := gridNoVal;
    }

    function GetGridMin(): (v: Vec2)
      ensures v == gridMin
    {
      gridMin
    }

    function GetGridMax(): (v: Vec2)
      ensures v == gridMax
    {
      gridMax
    }

    function GetGridRes(): (v: Vec2)
      ensures v == gridRes
    {
      gridRes
    }

    /** The extent `gridMax - gridMin`; truncated by the cell size it gives the cell counts. */
    function GetGridExtension(): (e: Vec2)
      requires SizeFromExtent()
      ensures e.x == gridMax.x - gridMin.x && e.y == gridMax.y - gridMin.y
      ensures gridSize == IVec2(Trunc(e.x / gridRes.x), Trunc(e.y / gridRes.y))
    {
      Vec2(gridMax.x - gridMin.x, gridMax.y - gridMin.y)
    }

    function GetGridSize(): (v: IVec2)
      ensures v == gridSize
    {
      gridSize
    }

    function GetGridNoValue(): (v: real)
      ensures v == gridNoValue
    {
      gridNoValue
    }

    /** The samples, read-only: `grid` is immutable after construction. */
    function Data(): (g: seq<seq<real>>)
      ensures g == grid
    {
      grid
    }

    /**
     * Appends one vertex per data cell, in column-major order, and the
     * triangles of every 2x2 block; vertex ids continue from the number of
     * vertices the list already held.
     */
    method BuildTriangleModel(verts0: seq<Vec3>, tris0: seq<Tri>) returns (verts: seq<Vec3>, tris: seq<Tri>)
      requires WellFormed()
      ensures verts == verts0 + MeshVertices(AsRaster())
      ensures tris == tris0 + MeshTriangles(AsRaster(), |verts0|)
    {
      var vtxId;
      verts, vtxId := BuildVertices(verts0);
      tris := BuildTriangles(AsRaster(), vtxId, |verts0|, tris0);
    }

    /**
     * The vertex pass: pushes the vertex of every data cell and records its
     * id (the list length before the push); a no-data cell keeps id -1.
     */
    method BuildVertices(verts0: seq<Vec3>) returns (verts: seq<Vec3>, vtxId: array2<int>)
      requires WellFormed()
      ensures fresh(vtxId) && vtxId.Length0 == gridSize.x && vtxId.Length1 == gridSize.y
      ensures verts == verts0 + MeshVertices(AsRaster())
      ensures forall i, j :: 0 <= i < gridSize.x && 0 <= j < gridSize.y ==>
                vtxId[i, j] == VertexId(AsRaster(), |verts0|, i, j)
    {
      var r := AsRaster();
      var base := |verts0|;
      verts := verts0;
      vtxId := new int[gridSize.x, gridSize.y]((i, j) => -1);
      var x := 0;
      while x < gridSize.x
        invariant 0 <= x <= gridSize.x
        invariant verts == verts0 + VertsBefore(r, x)
        invariant forall i, j :: 0 <= i < gridSize.x && 0 <= j < gridSize.y ==>
                    vtxId[i, j] == (if i < x then VertexId(r, base, i, j) else -1)
      {
        var y := 0;
        assert verts0 + VertsBefore(r, x) + ColumnVerts(r, x, 0) == verts0 + VertsBefore(r, x);
        while y < gridSize.y
          invariant 0 <= y <= gridSize.y
          invariant verts == verts0 + VertsBefore(r, x) + ColumnVerts(r, x, y)
          invariant forall i, j :: 0 <= i < gridSize.x && 0 <= j < gridSize.y ==>
                      vtxId[i, j] == (if i < x || (i == x && j < y) then VertexId(r, base, i, j) else -1)
        {
          ghost var done := verts;
          ghost var cv := ColumnVerts(r, x, y);
          if grid[x][y] > gridNoValue {
            var p := Vec3((x as real) * gridRes.x + gridMin.x, (y as real) * gridRes.y + gridMin.y, grid[x][y]);
            vtxId[x, y] := |verts|;
            verts := verts + [p];
            assert r.IsData(x, y) && p == VertexOf(r, x, y);
            assert ColumnVerts(r, x, y + 1) == cv + [p];
            assert verts0 + VertsBefore(r, x) + (cv + [p]) == done + [p];
          } else {
            assert ColumnVerts(r, x, y + 1) == cv;
          }
          y := y + 1;
        }
        x := x + 1;
      }
    }

    /**
     * The lowest sample, memoised: a stored value above the sentinel is
     * returned as is; otherwise the grid is scanned from sample (0,0).
     */
    method GetHeightMin() returns (h: real)
      requires Valid() && WellFormed() && HasFirstSample(AsRaster())
      modifies this
      ensures Valid()
      ensures h == ExtremeHeight(AsRaster(), Lowest) && heightMin == h
      ensures old(heightMin) > gridNoValue ==> heightMin == old(heightMin)
      ensures heightMax == old(heightMax)
    {
      if heightMin <= gridNoValue {
        var r := AsRaster();
        heightMin := grid[0][0];
        var i := 0;
        while i < gridSize.x
          invariant 0 <= i <= gridSize.x
          invariant heightMin == Best(Lowest, Id, grid[0][0], HeightsBefore(r, i))
          invariant heightMax == old(heightMax)
        {
          heightMin := ColumnLowest(r, i, HeightsBefore(r, i), heightMin);
          i := i + 1;
        }
      }
      h := heightMin;
    }

    /**
     * The highest sample, memoised: a stored value above the sentinel is
     * returned as is; otherwise the grid is scanned from sample (0,0).
     */
    method GetHeightMax() returns (h: real)
      requires Valid() && WellFormed() && HasFirstSample(AsRaster())
      modifies this
      ensures Valid()
      ensures h == ExtremeHeight(AsRaster(), Highest) && heightMax == h
      ensures old(heightMax) > gridNoValue ==> heightMax == old(heightMax)
      ensures heightMin == old(heightMin)
    {
      if heightMax <= gridNoValue {
        var r := AsRaster();
        heightMax := grid[0][0];
        var i := 0;
        while i < gridSize.x
          invariant 0 <= i <= gridSize.x
          invariant heightMax == Best(Highest, Id, grid[0][0], HeightsBefore(r, i))
          invariant heightMin == old(heightMin)
        {
          heightMax := ColumnHighest(r, i, HeightsBefore(r, i), heightMax);
          i := i + 1;
        }
      }
      h := heightMax;
    }

    /**
     * Statistics of the samples around `p`: the lowest and highest counted
     * sample (or `p` itself when none is more extreme), the sum of heights,
     * the sum of squared heights, and the number of samples.
     */
    method GetRadialStatistics(p: Vec3, rad: real) returns (st: Stats)
      requires WellFormed()
      ensures st == StatsOf(p, Samples(AsRaster(), XY(p), rad, StatsWindow(AsRaster(), XY(p), rad)))
      ensures st.hmin.z <= p.z <= st.hmax.z
      ensures st.n > 0 ==> st.hmin.z <= st.hsum / (st.n as real) <= st.hmax.z
      ensures st.hmin != p ==>
                exists i, j :: Visited(StatsWindow(AsRaster(), XY(p), rad), i, j) && AsRaster().Has(i, j) &&
                  Counted(AsRaster(), XY(p), rad, i, j) && st.hmin == SamplePoint(AsRaster(), i, j) && grid[i][j] < p.z
      ensures st.hmax != p ==>
                exists i, j :: Visited(StatsWindow(AsRaster(), XY(p), rad), i, j) && AsRaster().Has(i, j) &&
                  Counted(AsRaster(), XY(p), rad, i, j) && st.hmax == SamplePoint(AsRaster(), i, j) && grid[i][j] > p.z
    {
      var r := AsRaster();
      var pxy := XY(p);
      var w := StatsWindow(r, pxy, rad);
      st := Stats(p, p, 0.0, 0.0, 0);
      ghost var s: seq<Vec3> := [];

      var i := w.lo.x;
      while i < w.hi.x
        invariant w.lo.x <= i && (i <= w.hi.x || i == w.lo.x)
        invariant s == BlockSamples(r, pxy, rad, w.lo.x, i, w.lo.x, w.hi.y)
        invariant st == StatsOf(p, s)
      {
        st := AccumulateColumn(r, p, rad, w, i, st, s);
        s := s + RowSamples(r, pxy, rad, i, w.lo.x, w.hi.y);
        i := i + 1;
      }

      StatisticsBounds(r, p, rad, w);
      var i0, j0 := ExtremumSource(r, p, rad, w, Lowest);
      var i1, j1 := ExtremumSource(r, p, rad, w, Highest);
    }

    /** The statistics around a planar point, taking its height from the cell it falls in. */
    method GetRadialStatisticsXY(p: Vec2, rad: real) returns (st: Stats)
      requires WellFormed()
      requires var c := AsRaster().CellOf(p); 0 <= c.x < |grid| && 0 <= c.y < |grid[c.x]|
      ensures var c := AsRaster().CellOf(p);
              var p3 := Vec3(p.x, p.y, grid[c.x][c.y]);
              && st == StatsOf(p3, Samples(AsRaster(), p, rad, StatsWindow(AsRaster(), p, rad)))
              && st.hmin.z <= p3.z <= st.hmax.z
    {
      var pc := AsRaster().CellOf(p);
      var ph := grid[pc.x][pc.y];
      st := GetRadialStatistics(Vec3(p.x, p.y, ph), rad);
    }

    /**
     * Isolation of `q.p`: a best-first flood from the point's cell that
     * records the last qualifying cell and stops once the qualifying area
     * exceeds `q.minIsoArea`. Returns the distance to the recorded point
     * when it exceeds `q.minDist`, and -1 otherwise; `order` lists the cells
     * marked visited, in marking order.
     */
    method GetIsolation(q: Query) returns (dist: real, pIso: Vec3, ghost order: seq<IVec2>)
      requires WellFormed()
      ensures FloodOutcome(AsRaster(), q, StartCell(AsRaster(), q), order, pIso)
      ensures dist == IsoResult(q, pIso) && (dist == -1.0 || dist > q.minDist)
    {
      var r := AsRaster();
      var pxy := XY(q.p);
      var start := r.CellOf(pxy);
      pIso := q.p;
      var isoArea := 0.0;

      var queue := [Entry(0.0, start)];
      var visited := new bool[gridSize.x, gridSize.y]((i, j) => false);
      ghost var unvisited := set i, j | 0 <= i < gridSize.x && 0 <= j < gridSize.y :: IVec2(i, j);
      ghost var stopped := false;
      order := [];
      FloodStart(r, q, start);

      while queue != []
        invariant visited.Length0 == gridSize.x && visited.Length1 == gridSize.y
        invariant forall i, j :: 0 <= i < gridSize.x && 0 <= j < gridSize.y ==>
                    (visited[i, j] <==> IVec2(i, j) in order)
        invariant forall c :: c in unvisited <==> r.InGrid(c) && c !in order
        invariant FloodInvariant(r, q, start, order, queue, pIso, isoArea)
        decreases |unvisited|, |queue|
      {
        var stop;
        queue, pIso, isoArea, stop, order, unvisited := FloodStep(q, start, visited, queue, pIso, isoArea, order, unvisited);
        if stop {
          stopped := true;
          break;
        }
      }

      if !stopped {
        ExhaustedOutcome(r, q, start, order, pIso, isoArea);
      }
      var dres := q.sqrt(DistSq(pxy, XY(pIso)));
      if dres > q.minDist {
        dist := dres;
      } else {
        dist := -1.0;
      }
    }

    /**
     * One iteration of the isolation loop: pops the top entry and discards
     * it when its cell is outside the grid or already visited; otherwise
     * marks the cell, records it when it qualifies, stops when the qualifying
     * area exceeds the threshold, and pushes the eight neighbours.
     */
    method FloodStep(q: Query, ghost start: IVec2, visited: array2<bool>, queue0: seq<Entry>, iso0: Vec3, area0: real,
                     ghost order0: seq<IVec2>, ghost unvisited0: set<IVec2>)
      returns (queue: seq<Entry>, iso: Vec3, area: real, stop: bool, ghost order: seq<IVec2>, ghost unvisited: set<IVec2>)
      requires WellFormed() && start == StartCell(AsRaster(), q) && queue0 != []
      requires visited.Length0 == gridSize.x && visited.Length1 == gridSize.y
      requires forall i, j :: 0 <= i < gridSize.x && 0 <= j < gridSize.y ==>
                 (visited[i, j] <==> IVec2(i, j) in order0)
      requires forall c :: c in unvisited0 <==> AsRaster().InGrid(c) && c !in order0
      requires FloodInvariant(AsRaster(), q, start, order0, queue0, iso0, area0)
      modifies visited
      ensures forall i, j :: 0 <= i < gridSize.x && 0 <= j < gridSize.y ==>
                (visited[i, j] <==> IVec2(i, j) in order)
      ensures forall c :: c in unvisited <==> AsRaster().InGrid(c) && c !in order
      ensures stop ==> FloodOutcome(AsRaster(), q, start, order, iso)
      ensures !stop ==> FloodInvariant(AsRaster(), q, start, order, queue, iso, area)
      ensures |unvisited| < |unvisited0| || (unvisited == unvisited0 && |queue| < |queue0|)
    {
      var r := AsRaster();
      var pxy := XY(q.p);
      var ph := q.p.z + q.hOffset;
      iso, area, stop, order, unvisited := iso0, area0, false, order0, unvisited0;
      var k := TopIndex(queue0);
      var top := queue0[k];
      var c := top.cell;
      queue := Remove(queue0, k);
      if 0 <= c.x && 0 <= c.y && c.x < gridSize.x && c.y < gridSize.y && !visited[c.x, c.y] {
        visited[c.x, c.y] := true;
        order := order0 + [c];
        unvisited := unvisited0 - {c};
        CountSnoc(r, q, order0, c);
        QualifyingAreaSnoc(r, q, order0, c);
        var h := grid[c.x][c.y];
        var pij := r.Centre(c.x, c.y);
        var d := q.sqrt(DistSq(pij, pxy));
        if h > ph && d >= q.minDist {
          iso := Vec3(pij.x, pij.y, h);
          area := area + r.CellArea();
          if area > q.minIsoArea {
            StopOutcome(r, q, start, order0, queue0, iso0, area0, k);
            stop := true;
            return;
          }
        }
        MarkStep(r, q, start, order0, queue0, iso0, area0, k, d, q.sqrt(2.0));
        queue := queue + Pushes(c, d, q.sqrt(2.0));
      } else {
        DiscardStep(r, q, start, order0, queue0, iso0, area0, k);
      }
    }

    /**
     * The isolation of a planar point, taking its height from the cell it
     * falls in; the area threshold and the height offset default to 0.
     */
    method GetIsolationXY(sqrt: real -> real, p: Vec2, minDist: real, minIsoArea: real := 0.0, hOffset: real := 0.0)
      returns (dist: real, pIso: Vec3, ghost order: seq<IVec2>)
      requires WellFormed()
      requires var c := AsRaster().CellOf(p); 0 <= c.x < |grid| && 0 <= c.y < |grid[c.x]|
      ensures var c := AsRaster().CellOf(p);
              var q := Query(Vec3(p.x, p.y, grid[c.x][c.y]), minDist, minIsoArea, hOffset, sqrt);
              FloodOutcome(AsRaster(), q, StartCell(AsRaster(), q), order, pIso)
      ensures var c := AsRaster().CellOf(p);
              var q := Query(Vec3(p.x, p.y, grid[c.x][c.y]), minDist, minIsoArea, hOffset, sqrt);
              dist == IsoResult(q, pIso)
      ensures dist == -1.0 || dist > minDist
    {
      var pc := AsRaster().CellOf(p);
      var ph := grid[pc.x][pc.y];
      dist, pIso, order := GetIsolation(Query(Vec3(p.x, p.y, ph), minDist, minIsoArea, hOffset, sqrt));
    }
  }
}
