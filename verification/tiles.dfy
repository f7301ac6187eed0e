/**
 * A tileset as its descriptor file describes it, and the tile a read of
 * `(ti, tj)` yields: the downsampled file contents when the file exists, and
 * a tile of no-data cells of the nominal size when it does not.
 */
module Tiles {
  import opened Geometry
  import opened TileNaming
  import opened Downsampling

  /** The file system as seen by the reader: a path maps to the tile stored there. */
  type FileSystem = map<string, RawTile>

  /**
   * The descriptor values: the tiles folder, the tileset corners, the cell
   * size inside a tile, the samples per tile and the height codes.
   */
  datatype Descriptor = Descriptor(folder: string, tsetMin: Vec2, tsetMax: Vec2, tileRes: Vec2, ppTile: IVec2, levels: Levels)
  {
    /** A positive number of samples per tile and a non-zero cell size. */
    predicate Valid()
    {
      ppTile.x > 0 && ppTile.y > 0 && tileRes.x != 0.0 && tileRes.y != 0.0
    }

    function TilesetExtension(): Vec2
    {
      Vec2(tsetMax.x - tsetMin.x, tsetMax.y - tsetMin.y)
    }

    /** The world size of one tile: samples per tile times the cell size. */
    function TileExtension(): Vec2
    {
      Vec2(ppTile.x as real * tileRes.x, ppTile.y as real * tileRes.y)
    }

    function NumTiles(): IVec2
      requires Valid()
    {
      IVec2(Ceil(TilesetExtension().x / TileExtension().x), Ceil(TilesetExtension().y / TileExtension().y))
    }

    /** Samples the scratch buffer holds: one full tile. */
    function BufferSize(): int
    {
      ppTile.x * ppTile.y
    }

    /**
     * The size assumed for a missing tile: the tile extension over the cell
     * size, rounded. It is exactly the number of samples per tile.
     */
    function MissingTileSize(): (n: IVec2)
      requires Valid()
      ensures n == ppTile
    {
      var e := TileExtension();
      assert e.x / tileRes.x == ppTile.x as real;
      assert e.y / tileRes.y == ppTile.y as real;
      RoundOfInteger(ppTile.x);
      RoundOfInteger(ppTile.y);
      IVec2(Round(e.x / tileRes.x), Round(e.y / tileRes.y))
    }

    /** A tile file the reader can load: complete, and no larger than the buffer. */
    predicate Fits(t: RawTile)
    {
      t.WellFormed() && t.sx * t.sy <= BufferSize()
    }
  }

  /**
   * The tile read for `(ti, tj)` downsampled by `f`: `sx / f.x` columns of
   * `sy / f.y` cells for a file of `sx * sy` samples; for a missing file
   * `ppTile / f` columns and rows of no-data cells.
   */
  function TileData(d: Descriptor, fs: FileSystem, ti: int, tj: int, f: IVec2): (h: seq<seq<real>>)
    requires d.Valid() && Factor(f)
    requires TileName(d.folder, ti, tj) in fs ==> d.Fits(fs[TileName(d.folder, ti, tj)])
    ensures TileName(d.folder, ti, tj) in fs ==>
              Rect(h, fs[TileName(d.folder, ti, tj)].sx / f.x, fs[TileName(d.folder, ti, tj)].sy / f.y)
    ensures TileName(d.folder, ti, tj) !in fs ==>
              && Rect(h, d.ppTile.x / f.x, d.ppTile.y / f.y)
              && forall i, j :: 0 <= i < |h| && 0 <= j < |h[i]| ==> h[i][j] == d.levels.noValue
  {
    var name := TileName(d.folder, ti, tj);
    if name in fs then
      var h := Downsampled(fs[name], d.levels, f);
      assert forall i :: 0 <= i < |h| ==> |h[i]| == fs[name].sy / f.y;
      h
    else
      var n := d.MissingTileSize();
      Filled(n.x / f.x, n.y / f.y, d.levels.noValue)
  }
}
