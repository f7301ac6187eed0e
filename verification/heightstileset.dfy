/**
 * A tileset of height tiles on disk and the two operations on it: reading
 * one tile, downsampled, through a scratch buffer of one tile's samples,
 * and stitching a rectangular region at a chosen cell size into a new
 * height grid.
 *
 * The descriptor file is given already parsed, as a `Descriptor`, and the
 * tile files as a map from path to contents.
 */
module HeightsTilesets {
  import opened Geometry
  import opened Extremes
  import opened TileNaming
  import opened Downsampling
  import opened Tiles
  import opened Regions
  import opened Rasters
  import opened HeightsGrids

  class HeightsTileset {
    const tilesFolder: string
    const tsetMin: Vec2
    const tsetMax: Vec2
    const tsetExtension: Vec2
    const tileRes: Vec2
    const tileExtension: Vec2
    const hNoValue: real
    const hSeaValue: real
    const hSeaLevel: real
    const ppTile: IVec2
    const numTiles: IVec2
    /** Scratch storage a tile file is read into. */
    const loadBuffer: array<real>

    /** The descriptor values the tileset was built from. */
    function AsDescriptor(): Descriptor
    {
      Descriptor(tilesFolder, tsetMin, tsetMax, tileRes, ppTile, Levels(hNoValue, hSeaValue, hSeaLevel))
    }

    /**
     * The derived fields agree with the descriptor, and the buffer holds
     * exactly one tile of samples.
     */
    predicate Valid()
    {
      var d := AsDescriptor();
      && Ready()
      && tsetExtension == d.TilesetExtension()
      && numTiles == d.NumTiles()
    }

    /** What reading a tile relies on: a valid descriptor, the tile extension, and the buffer size. */
    predicate Ready()
    {
      var d := AsDescriptor();
      && d.Valid()
      && tileExtension == d.TileExtension()
      && loadBuffer.Length == d.BufferSize()
    }

    /** Builds the tileset from its parsed descriptor. */
    constructor(d: Descriptor)
      requires d.Valid()
      ensures AsDescriptor() == d && Valid()
      ensures fresh(loadBuffer)
    {
      tilesFolder := d.folder;
      tsetMin := d.tsetMin;
      tsetMax := d.tsetMax;
      tileRes := d.tileRes;
      ppTile := d.ppTile;
      hNoValue := d.levels.noValue;
      hSeaValue := d.levels.seaValue;
      hSeaLevel := d.levels.seaLevel;
      tsetExtension := Vec2(d.tsetMax.x - d.tsetMin.x, d.tsetMax.y - d.tsetMin.y);
      tileExtension := Vec2(d.ppTile.x as real * d.tileRes.x, d.ppTile.y as real * d.tileRes.y);
      numTiles := d.NumTiles();
      loadBuffer := new real[d.ppTile.x * d.ppTile.y];
    }

    function GetTilesetMin(): (v: Vec2)
      ensures v == tsetMin
    {
      tsetMin
    }

    function GetTilesetMax(): (v: Vec2)
      ensures v == tsetMax
    {
      tsetMax
    }

    function GetTileRes(): (v: Vec2)
      ensures v == tileRes
    {
      tileRes
    }

    /** The world size of one tile: samples per tile times the cell size. */
    function GetTileExtension(): (v: Vec2)
      requires Valid()
      ensures v.x == ppTile.x as real * tileRes.x && v.y == ppTile.y as real * tileRes.y
      ensures v.x != 0.0 && v.y != 0.0
    {
      TileExtensionNonZero(AsDescriptor());
      tileExtension
    }

    /**
     * The world size of the tileset, `tsetMax - tsetMin`; it spans
     * `numTiles` tiles, rounded up.
     */
    function GetTilesetExtension(): (v: Vec2)
      requires Valid()
      ensures v.x == tsetMax.x - tsetMin.x && v.y == tsetMax.y - tsetMin.y
      ensures numTiles == IVec2(Ceil(v.x / tileExtension.x), Ceil(v.y / tileExtension.y))
    {
      tsetExtension
    }

    /**
     * Block `(i, j)` of the tile in the buffer: the sum and the number of
     * its present samples, sea samples counted at the sea level.
     */
    method BlockSum(ghost t: RawTile, sx: int, sy: int, f: IVec2, i: nat, j: nat) returns (sumH: real, numH: int)
      requires t.WellFormed() && sx == t.sx && sy == t.sy && Factor(f)
      requires sx * sy <= loadBuffer.Length && loadBuffer[..sx * sy] == t.samples
      ensures numH == |BlockValues(t, AsDescriptor().levels, f, i, j)|
      ensures sumH == SumOf(Id, BlockValues(t, AsDescriptor().levels, f, i, j))
    {
      ghost var lv := AsDescriptor().levels;
      sumH, numH := 0.0, 0;
      var ii := 0;
      while ii < f.x
        invariant 0 <= ii <= f.x
        invariant numH == |BlockRows(t, lv, f, i, j, ii)| && sumH == SumOf(Id, BlockRows(t, lv, f, i, j, ii))
      {
        sumH, numH := RowSum(t, sx, sy, f, i, j, ii, sumH, numH);
        ii := ii + 1;
      }
    }

    /** Adds row `ii` of block `(i, j)` to a running sum and count. */
    method RowSum(ghost t: RawTile, sx: int, sy: int, f: IVec2, i: nat, j: nat, ii: nat, sum0: real, num0: int)
      returns (sumH: real, numH: int)
      requires t.WellFormed() && sx == t.sx && sy == t.sy && Factor(f)
      requires sx * sy <= loadBuffer.Length && loadBuffer[..sx * sy] == t.samples
      requires ii < f.x
      requires num0 == |BlockRows(t, AsDescriptor().levels, f, i, j, ii)|
      requires sum0 == SumOf(Id, BlockRows(t, AsDescriptor().levels, f, i, j, ii))
      ensures numH == |BlockRows(t, AsDescriptor().levels, f, i, j, ii + 1)|
      ensures sumH == SumOf(Id, BlockRows(t, AsDescriptor().levels, f, i, j, ii + 1))
    {
      ghost var lv := AsDescriptor().levels;
      ghost var before := BlockRows(t, lv, f, i, j, ii);
      ProductNonNegative(i, f.x);
      ProductNonNegative(j, f.y);
      var a, b0 := i * f.x + ii, j * f.y;
      sumH, numH := sum0, num0;
      assert before + RowValues(t, lv, f, i, j, ii, 0) == before;
      var jj := 0;
      while jj < f.y
        invariant 0 <= jj <= f.y
        invariant numH == |before + RowValues(t, lv, f, i, j, ii, jj)|
        invariant sumH == SumOf(Id, before + RowValues(t, lv, f, i, j, ii, jj))
      {
        ghost var row := RowValues(t, lv, f, i, j, ii, jj);
        if a < sx && b0 + jj < sy {
          FlatIndexBound(sx, sy, a, b0 + jj);
          var val := loadBuffer[a * sy + b0 + jj];
          assert val == Sample(t, a, b0 + jj);
          if val > hNoValue {
            if val <= hSeaValue {
              val := hSeaLevel;
            }
            assert before + (row + [val]) == (before + row) + [val];
            SumOfSnoc(Id, before + row, val);
            sumH := sumH + val;
            numH := numH + 1;
          }
        }
        jj := jj + 1;
      }
      assert BlockRows(t, lv, f, i, j, ii + 1) == before + RowValues(t, lv, f, i, j, ii, f.y);
    }

    /**
     * Reads tile `(ti, tj)` downsampled by `f`: the file at the tile's path
     * goes into the buffer and each output cell becomes the mean of its
     * block; a missing file yields a tile of no-data cells of the nominal
     * size. The result is the tile `TileData` describes.
     */
    method ReadTile(fs: FileSystem, ti: int, tj: int, f: IVec2) returns (H: seq<seq<real>>)
      requires Ready() && Factor(f)
      requires TileName(tilesFolder, ti, tj) in fs ==> AsDescriptor().Fits(fs[TileName(tilesFolder, ti, tj)])
      modifies loadBuffer
      ensures H == TileData(AsDescriptor(), fs, ti, tj, f)
      ensures var path := TileName(tilesFolder, ti, tj);
              path in fs ==> var n := fs[path].sx * fs[path].sy;
                             loadBuffer[..n] == fs[path].samples && loadBuffer[n..] == old(loadBuffer[n..])
      ensures TileName(tilesFolder, ti, tj) !in fs ==> unchanged(loadBuffer)
    {
      var tilePath := TileName(tilesFolder, ti, tj);
      if tilePath !in fs {
        var sx := Round(tileExtension.x / tileRes.x);
        var sy := Round(tileExtension.y / tileRes.y);
        assert sx == ppTile.x && sy == ppTile.y by {
          assert IVec2(sx, sy) == AsDescriptor().MissingTileSize();
        }
        H := Filled(sx / f.x, sy / f.y, hNoValue);
        return;
      }
      var t := fs[tilePath];
      var sx, sy := t.sx, t.sy;
      forall k | 0 <= k < sx * sy {
        loadBuffer[k] := t.samples[k];
      }
      assert loadBuffer[..sx * sy] == t.samples;
      assert loadBuffer[sx * sy..] == old(loadBuffer[sx * sy..]);
      H := Downsample(t, sx, sy, f);
    }

    /** Downsamples the tile `t` held in the buffer, cell by cell. */
    method Downsample(ghost t: RawTile, sx: nat, sy: nat, f: IVec2) returns (H: seq<seq<real>>)
      requires t.WellFormed() && sx == t.sx && sy == t.sy && Factor(f)
      requires sx * sy <= loadBuffer.Length && loadBuffer[..sx * sy] == t.samples
      ensures H == Downsampled(t, AsDescriptor().levels, f)
    {
      ghost var lv := AsDescriptor().levels;
      var nx, ny := sx / f.x, sy / f.y;
      H := Filled(nx, ny, hNoValue);
      var i := 0;
      while i < nx
        invariant 0 <= i <= nx
        invariant Rect(H, nx, ny)
        invariant forall a, b :: 0 <= a < i && 0 <= b < ny ==> H[a][b] == CellValue(t, lv, f, a, b)
      {
        var j := 0;
        while j < ny
          invariant 0 <= j <= ny
          invariant Rect(H, nx, ny)
          invariant forall a, b :: 0 <= a < i && 0 <= b < ny ==> H[a][b] == CellValue(t, lv, f, a, b)
          invariant forall b :: 0 <= b < j ==> H[i][b] == CellValue(t, lv, f, i, b)
        {
          var sumH, numH := BlockSum(t, sx, sy, f, i, j);
          var v := if numH > 0 then sumH / (numH as real) else hSeaLevel;
          H := H[i := H[i][j := v]];
          j := j + 1;
        }
        i := i + 1;
      }
      ghost var D := Downsampled(t, lv, f);
      forall a | 0 <= a < nx
        ensures H[a] == D[a]
      {
        assert forall b :: 0 <= b < ny ==> H[a][b] == D[a][b];
      }
    }

    /**
     * Stitches the region `[dtmMin, dtmMax)` at cell size `outRes` into a
     * new height grid: every tile of the range is read downsampled, and
     * every sample whose position falls in the box is stored in the cell
     * containing it. The grid holds `Stitched`, starts with no memoised
     * extrema, and is well formed.
     */
    method LoadRegion(fs: FileSystem, dtmMin: Vec2, dtmMax: Vec2, outRes: Vec2) returns (grid: HeightsGrid)
      requires Valid() && Loadable(AsDescriptor(), fs, Request(dtmMin, dtmMax, outRes))
      modifies loadBuffer
      ensures fresh(grid)
      ensures grid.grid == Stitched(AsDescriptor(), fs, Request(dtmMin, dtmMax, outRes))
      ensures grid.gridMin == dtmMin && grid.gridMax == dtmMax && grid.gridRes == outRes
      ensures grid.gridNoValue == hNoValue && grid.heightMin == hNoValue && grid.heightMax == hNoValue
      ensures grid.WellFormed() && grid.Valid()
    {
      var d := AsDescriptor();
      var regionMin, regionMax := dtmMin, dtmMax;
      var q := Request(regionMin, regionMax, outRes);
      var tiles := TileRange(d, q);
      var reduceFactor := ReduceFactor(d, q);
      var numPoints := q.NumPoints();
      var outPPtile := OutPP(d, q);
      var H := Filled(numPoints.x, numPoints.y, hNoValue);
      H := LoadTiles(fs, q, tiles, reduceFactor, outPPtile, H);
      LoadedIsStitched(d, fs, q);
      grid := NewGrid(q, H);
    }

    /**
     * The state a region load works in: a usable reader, a valid request,
     * the tiles of span `s` usable, and the factor and tile size computed.
     */
    ghost predicate Prepared(fs: FileSystem, q: Request, s: Span, reduceFactor: IVec2, outPPtile: IVec2)
    {
      && Ready() && Setting(AsDescriptor(), q) && s.Ordered() && TilesUsable(AsDescriptor(), fs, q, s)
      && reduceFactor == ReduceFactor(AsDescriptor(), q) && outPPtile == OutPP(AsDescriptor(), q)
    }

    /** Reads and stores every tile of the span, column by column. */
    method LoadTiles(fs: FileSystem, q: Request, tiles: Span, reduceFactor: IVec2, outPPtile: IVec2, H0: seq<seq<real>>)
      returns (H: seq<seq<real>>)
      requires Prepared(fs, q, tiles, reduceFactor, outPPtile) && Rect(H0, q.NumPoints().x, q.NumPoints().y)
      modifies loadBuffer
      ensures H == Loaded(AsDescriptor(), fs, q, tiles, H0, tiles.hi.x + 1)
    {
      ghost var d := AsDescriptor();
      H := H0;
      var ti := tiles.lo.x;
      while ti <= tiles.hi.x
        invariant tiles.lo.x <= ti <= tiles.hi.x + 1
        invariant H == Loaded(d, fs, q, tiles, H0, ti) && Rect(H, q.NumPoints().x, q.NumPoints().y)
      {
        H := LoadColumn(fs, q, tiles, ti, reduceFactor, outPPtile, H);
        ti := ti + 1;
      }
    }

    /** The grid returned for request `q`, holding `H`. */
    method NewGrid(q: Request, H: seq<seq<real>>) returns (grid: HeightsGrid)
      requires q.Valid() && Rect(H, q.NumPoints().x, q.NumPoints().y)
      ensures fresh(grid)
      ensures grid.grid == H && grid.gridMin == q.rmin && grid.gridMax == q.rmax && grid.gridRes == q.outRes
      ensures grid.gridNoValue == hNoValue && grid.heightMin == hNoValue && grid.heightMax == hNoValue
      ensures grid.WellFormed() && grid.Valid()
    {
      grid := new HeightsGrid(H, q.rmin, q.rmax, q.outRes, hNoValue);
      GridShape(q, grid);
    }

    /**
     * The new grid is well formed: it holds `NumPoints` columns and rows,
     * and its truncated cell counts never exceed the rounded-up ones.
     */
    lemma GridShape(q: Request, g: HeightsGrid)
      requires q.Valid() && Rect(g.grid, q.NumPoints().x, q.NumPoints().y)
      requires g.gridMin == q.rmin && g.gridMax == q.rmax && g.gridRes == q.outRes
      requires g.gridSize == IVec2(Trunc((q.rmax.x - q.rmin.x) / q.outRes.x), Trunc((q.rmax.y - q.rmin.y) / q.outRes.y))
      ensures g.WellFormed()
    {
      OffsetOrdered(0.0, q.rmax.x - q.rmin.x, q.outRes.x);
      OffsetOrdered(0.0, q.rmax.y - q.rmin.y, q.outRes.y);
      TruncAtMostCeil((q.rmax.x - q.rmin.x) / q.outRes.x);
      TruncAtMostCeil((q.rmax.y - q.rmin.y) / q.outRes.y);
    }

    /** Reads and stores the tiles `(ti, s.lo.y) .. (ti, s.hi.y)`, in order. */
    method LoadColumn(fs: FileSystem, q: Request, s: Span, ti: int, reduceFactor: IVec2, outPPtile: IVec2, H0: seq<seq<real>>)
      returns (H: seq<seq<real>>)
      requires Prepared(fs, q, s, reduceFactor, outPPtile) && s.lo.x <= ti <= s.hi.x
      requires Rect(H0, q.NumPoints().x, q.NumPoints().y)
      modifies loadBuffer
      ensures H == ColumnLoaded(AsDescriptor(), fs, q, s, H0, ti, s.hi.y + 1)
      ensures Rect(H, q.NumPoints().x, q.NumPoints().y)
    {
      ghost var d := AsDescriptor();
      H := H0;
      var tj := s.lo.y;
      while tj <= s.hi.y
        invariant s.lo.y <= tj <= s.hi.y + 1
        invariant H == ColumnLoaded(d, fs, q, s, H0, ti, tj) && Rect(H, q.NumPoints().x, q.NumPoints().y)
      {
        TileBlockIs(d, fs, q, s, IVec2(ti, tj));
        H := LoadTile(fs, q, s, ti, tj, reduceFactor, outPPtile, H);
        tj := tj + 1;
      }
    }

    /** Reads tile `(ti, tj)` and stores its in-box samples. */
    method LoadTile(fs: FileSystem, q: Request, s: Span, ti: int, tj: int,
                    reduceFactor: IVec2, outPPtile: IVec2, H0: seq<seq<real>>)
      returns (H: seq<seq<real>>)
      requires Prepared(fs, q, s, reduceFactor, outPPtile) && s.Has(ti, tj)
      requires Rect(H0, q.NumPoints().x, q.NumPoints().y)
      modifies loadBuffer
      ensures H == Apply(H0, TileWrites(AsDescriptor(), q, ti, tj, Tile(AsDescriptor(), fs, q, s, ti, tj), outPPtile.x))
      ensures Rect(H, q.NumPoints().x, q.NumPoints().y)
    {
      var tmin := TileMin(AsDescriptor(), ti, tj);
      var T := ReadTile(fs, ti, tj, reduceFactor);
      H := StoreTile(q, ti, tj, tmin, outPPtile, T, H0);
      ApplyRect(H0, TileWrites(AsDescriptor(), q, ti, tj, T, outPPtile.x), q.NumPoints().x, q.NumPoints().y);
    }

    /** Stores every in-box sample of the tile `T` read for `(ti, tj)`. */
    method StoreTile(q: Request, ti: int, tj: int, tmin: Vec2, outPPtile: IVec2, T: seq<seq<real>>, H0: seq<seq<real>>)
      returns (H: seq<seq<real>>)
      requires Setting(AsDescriptor(), q) && outPPtile == OutPP(AsDescriptor(), q) && Shaped(T, outPPtile)
      requires tmin == TileMin(AsDescriptor(), ti, tj) && Rect(H0, q.NumPoints().x, q.NumPoints().y)
      ensures H == Apply(H0, TileWrites(AsDescriptor(), q, ti, tj, T, outPPtile.x))
    {
      H := H0;
      var ii := 0;
      while ii < outPPtile.x
        invariant 0 <= ii <= outPPtile.x
        invariant H == Apply(H0, TileWrites(AsDescriptor(), q, ti, tj, T, ii))
      {
        H := StoreRow(q, ti, tj, tmin, outPPtile, T, ii, H0, H);
        ii := ii + 1;
      }
    }

    /**
     * Stores the in-box samples of row `ii` of the tile `T`. Each goes to
     * the cell containing its position; that cell is always inside the
     * grid, which is why the source's clamp, whose result it discards,
     * is never needed.
     */
    method StoreRow(q: Request, ti: int, tj: int, tmin: Vec2, outPPtile: IVec2, T: seq<seq<real>>, ii: int,
                    ghost H0: seq<seq<real>>, H1: seq<seq<real>>)
      returns (H: seq<seq<real>>)
      requires Setting(AsDescriptor(), q) && outPPtile == OutPP(AsDescriptor(), q) && Shaped(T, outPPtile)
      requires tmin == TileMin(AsDescriptor(), ti, tj) && Rect(H0, q.NumPoints().x, q.NumPoints().y)
      requires 0 <= ii < outPPtile.x && H1 == Apply(H0, TileWrites(AsDescriptor(), q, ti, tj, T, ii))
      ensures H == Apply(H0, TileWrites(AsDescriptor(), q, ti, tj, T, ii + 1))
    {
      ghost var d := AsDescriptor();
      ghost var before := TileWrites(d, q, ti, tj, T, ii);
      H := H1;
      assert before + RowWrites(d, q, ti, tj, T, ii, 0) == before;
      var jj := 0;
      while jj < outPPtile.y
        invariant 0 <= jj <= outPPtile.y
        invariant H == Apply(H0, before + RowWrites(d, q, ti, tj, T, ii, jj))
      {
        H := StoreSample(q, ti, tj, tmin, outPPtile, T, ii, jj, H0, before, H);
        jj := jj + 1;
      }
      assert TileWrites(d, q, ti, tj, T, ii + 1) == before + RowWrites(d, q, ti, tj, T, ii, outPPtile.y);
    }

    /** Stores sample `(ii, jj)` of the tile `T` when its position is inside the box. */
    method StoreSample(q: Request, ti: int, tj: int, tmin: Vec2, outPPtile: IVec2, T: seq<seq<real>>, ii: int, jj: int,
                       ghost H0: seq<seq<real>>, ghost before: seq<Write>, H1: seq<seq<real>>)
      returns (H: seq<seq<real>>)
      requires Setting(AsDescriptor(), q) && outPPtile == OutPP(AsDescriptor(), q) && Shaped(T, outPPtile)
      requires tmin == TileMin(AsDescriptor(), ti, tj) && Rect(H0, q.NumPoints().x, q.NumPoints().y)
      requires 0 <= ii < outPPtile.x && 0 <= jj < outPPtile.y
      requires H1 == Apply(H0, before + RowWrites(AsDescriptor(), q, ti, tj, T, ii, jj))
      ensures H == Apply(H0, before + RowWrites(AsDescriptor(), q, ti, tj, T, ii, jj + 1))
    {
      ghost var d := AsDescriptor();
      ghost var row := RowWrites(d, q, ti, tj, T, ii, jj);
      H := H1;
      var p := SampleAt(tmin, q.outRes, outPPtile.x, ii, jj);
      if p.x >= q.rmin.x && p.x < q.rmax.x && p.y >= q.rmin.y && p.y < q.rmax.y {
        var coords := IVec2(Floor((p.x - q.rmin.x) / q.outRes.x), Floor((p.y - q.rmin.y) / q.outRes.y));
        CoordsInRange(q, p);
        ghost var w := Write(coords, T[ii][jj]);
        assert before + (row + [w]) == (before + row) + [w];
        ApplySnoc(H0, before + row, w);
        H := H[coords.x := H[coords.x][coords.y := T[ii][jj]]];
      }
    }
  }
}
