/**
 * Stitching a region out of tiles, as `loadRegion` does it. The output
 * starts as `ceil((regionMax - regionMin) / outRes)` columns and rows of
 * no-data cells. Every tile in the inclusive index range covering the
 * region is read, downsampled so its cells match the output cell size, and
 * each of its samples whose mirrored world position falls inside the
 * half-open region box is written to the output cell containing that
 * position. Writes happen in loop order; a later write to a cell replaces
 * an earlier one.
 */
module Regions {
  import opened Geometry
  import opened TileNaming
  import opened Downsampling
  import opened Tiles
  import opened Sequences

  /** A region request: the corners of the region and the output cell size. */
  datatype Request = Request(rmin: Vec2, rmax: Vec2, outRes: Vec2)
  {
    /** A positive cell size and a box that is not inverted. */
    predicate Valid()
    {
      outRes.x > 0.0 && outRes.y > 0.0 && rmin.x <= rmax.x && rmin.y <= rmax.y
    }

    /** Output columns and rows: the box size over the cell size, rounded up. */
    function NumPoints(): (n: IVec2)
      requires Valid()
      ensures n.x >= 0 && n.y >= 0
    {
      IVec2(Ceil((rmax.x - rmin.x) / outRes.x), Ceil((rmax.y - rmin.y) / outRes.y))
    }

    /** The half-open box `[rmin, rmax)`. */
    predicate InBox(p: Vec2)
    {
      rmin.x <= p.x < rmax.x && rmin.y <= p.y < rmax.y
    }

    /** The output cell containing `p`: `floor((p - rmin) / outRes)`. */
    function CoordsOf(p: Vec2): IVec2
      requires Valid()
    {
      IVec2(Floor((p.x - rmin.x) / outRes.x), Floor((p.y - rmin.y) / outRes.y))
    }

    /** A cell of the output. */
    predicate InTarget(c: IVec2)
      requires Valid()
    {
      0 <= c.x < NumPoints().x && 0 <= c.y < NumPoints().y
    }
  }

  /**
   * A position inside the box lands in a cell of the output: the floor of
   * its offset is below the rounded-up size. This is the only bound on the
   * written index, the clamp that follows being discarded.
   */
  lemma CoordsInRange(q: Request, p: Vec2)
    requires q.Valid() && q.InBox(p)
    ensures q.InTarget(q.CoordsOf(p))
  {
    OffsetBelowSize(p.x - q.rmin.x, q.rmax.x - q.rmin.x, q.outRes.x);
    OffsetBelowSize(p.y - q.rmin.y, q.rmax.y - q.rmin.y, q.outRes.y);
    FloorBelowCeil((p.x - q.rmin.x) / q.outRes.x, (q.rmax.x - q.rmin.x) / q.outRes.x);
    FloorBelowCeil((p.y - q.rmin.y) / q.outRes.y, (q.rmax.y - q.rmin.y) / q.outRes.y);
  }

  lemma OffsetBelowSize(a: real, b: real, r: real)
    requires 0.0 <= a < b && r > 0.0
    ensures 0.0 <= a / r < b / r
  {
    assert (a / r) * r == a && (b / r) * r == b;
  }

  /** The world size of a tile is positive when the cell size is. */
  lemma TileExtensionPositive(d: Descriptor)
    requires d.Valid() && d.tileRes.x > 0.0 && d.tileRes.y > 0.0
    ensures d.TileExtension().x > 0.0 && d.TileExtension().y > 0.0
  {
  }

  lemma TileExtensionNonZero(d: Descriptor)
    requires d.Valid()
    ensures d.TileExtension().x != 0.0 && d.TileExtension().y != 0.0
  {
    var e := d.TileExtension();
    assert e.x / d.tileRes.x == d.ppTile.x as real;
    assert e.y / d.tileRes.y == d.ppTile.y as real;
  }

  /** An inclusive rectangle of tile indices, `lo` to `hi` on each axis. */
  datatype Span = Span(lo: IVec2, hi: IVec2)
  {
    predicate Has(ti: int, tj: int)
    {
      lo.x <= ti <= hi.x && lo.y <= tj <= hi.y
    }

    predicate Ordered()
    {
      lo.x <= hi.x && lo.y <= hi.y
    }
  }

  /**
   * The tiles `loadRegion` reads: from the truncated offset of `regionMin`
   * to the truncated offset of `regionMax`, in tiles, inclusive. Under a
   * valid request the span is never empty. The tile extension `loadRegion`
   * computes locally is `TileExtension()` by definition.
   */
  function TileRange(d: Descriptor, q: Request): (s: Span)
    requires Setting(d, q)
    ensures s.Ordered()
  {
    TileExtensionNonZero(d);
    TileRangeOrdered(d, q);
    var e := d.TileExtension();
    Span(IVec2(Trunc((q.rmin.x - d.tsetMin.x) / e.x), Trunc((q.rmin.y - d.tsetMin.y) / e.y)),
         IVec2(Trunc((q.rmax.x - d.tsetMin.x) / e.x), Trunc((q.rmax.y - d.tsetMin.y) / e.y)))
  }

  /** Raw tile samples per output cell: the output cell size over the tile cell size, rounded. */
  function ReduceFactor(d: Descriptor, q: Request): IVec2
    requires d.Valid()
  {
    IVec2(Round(q.outRes.x / d.tileRes.x), Round(q.outRes.y / d.tileRes.y))
  }

  /** Output samples per tile. */
  function OutPP(d: Descriptor, q: Request): (n: IVec2)
    requires d.Valid() && Factor(ReduceFactor(d, q))
    ensures 0 <= n.x <= d.ppTile.x && 0 <= n.y <= d.ppTile.y
  {
    var f := ReduceFactor(d, q);
    QuotientBounds(d.ppTile.x, f.x);
    QuotientBounds(d.ppTile.y, f.y);
    IVec2(d.ppTile.x / f.x, d.ppTile.y / f.y)
  }

  lemma QuotientBounds(a: int, b: int)
    requires a >= 0 && b >= 1
    ensures 0 <= a / b <= a
  {
  }

  /** World position of the corner of tile `(ti, tj)`. */
  function TileMin(d: Descriptor, ti: int, tj: int): Vec2
  {
    Vec2(d.tsetMin.x + (ti as real) * d.TileExtension().x, d.tsetMin.y + (tj as real) * d.TileExtension().y)
  }

  /**
   * World position of sample `(ii, jj)` of a tile with corner `tmin` and
   * `opx` output rows: the column index moves along x, and the row index
   * along y, mirrored.
   */
  function SampleAt(tmin: Vec2, outRes: Vec2, opx: int, ii: int, jj: int): Vec2
  {
    Vec2(tmin.x + (jj as real) * outRes.x, tmin.y + ((opx - 1 - ii) as real) * outRes.y)
  }

  /** World position given to sample `(ii, jj)` of tile `(ti, tj)`. */
  function SamplePos(d: Descriptor, q: Request, ti: int, tj: int, ii: int, jj: int): Vec2
    requires d.Valid() && Factor(ReduceFactor(d, q))
  {
    SampleAt(TileMin(d, ti, tj), q.outRes, OutPP(d, q).x, ii, jj)
  }

  /**
   * A tile file the stitching can use: loadable into the buffer, and with
   * at least the output samples per tile once downsampled.
   */
  predicate Covers(d: Descriptor, q: Request, t: RawTile)
    requires d.Valid() && Factor(ReduceFactor(d, q))
  {
    d.Fits(t) && OutPP(d, q).x <= t.sx / ReduceFactor(d, q).x && OutPP(d, q).y <= t.sy / ReduceFactor(d, q).y
  }

  /** A valid tileset and request, and a downsampling factor of at least one. */
  predicate Setting(d: Descriptor, q: Request)
  {
    d.Valid() && q.Valid() && Factor(ReduceFactor(d, q))
  }

  /** At least `n.x` columns of at least `n.y` cells. */
  predicate Shaped(t: seq<seq<real>>, n: IVec2)
  {
    n.x <= |t| && forall i :: 0 <= i < |t| ==> n.y <= |t[i]|
  }

  /** Usable files for the tiles of span `s` that exist. */
  ghost predicate TilesUsable(d: Descriptor, fs: FileSystem, q: Request, s: Span)
    requires Setting(d, q)
  {
    forall ti, tj {:trigger TileName(d.folder, ti, tj)} :: s.Has(ti, tj) && TileName(d.folder, ti, tj) in fs ==>
      Covers(d, q, fs[TileName(d.folder, ti, tj)])
  }

  /**
   * What `loadRegion` needs to stay in bounds: a valid tileset and request,
   * a downsampling factor of at least one (the integer divisions by it),
   * and usable files for the tiles of the range that exist.
   */
  ghost predicate Loadable(d: Descriptor, fs: FileSystem, q: Request)
  {
    Setting(d, q) && TilesUsable(d, fs, q, TileRange(d, q))
  }

  /** The tile stitched for `(ti, tj)`: at least `OutPP` columns and rows. */
  function Tile(d: Descriptor, fs: FileSystem, q: Request, s: Span, ti: int, tj: int): (h: seq<seq<real>>)
    requires Setting(d, q) && TilesUsable(d, fs, q, s) && s.Has(ti, tj)
    ensures Shaped(h, OutPP(d, q))
  {
    TileData(d, fs, ti, tj, ReduceFactor(d, q))
  }

  lemma TileRangeOrdered(d: Descriptor, q: Request)
    requires Setting(d, q)
    ensures var e := d.TileExtension();
            && e.x != 0.0 && e.y != 0.0
            && Trunc((q.rmin.x - d.tsetMin.x) / e.x) <= Trunc((q.rmax.x - d.tsetMin.x) / e.x)
            && Trunc((q.rmin.y - d.tsetMin.y) / e.y) <= Trunc((q.rmax.y - d.tsetMin.y) / e.y)
  {
    ResolutionPositive(q.outRes.x, d.tileRes.x);
    ResolutionPositive(q.outRes.y, d.tileRes.y);
    TileExtensionPositive(d);
    var e := d.TileExtension();
    OffsetOrdered(q.rmin.x - d.tsetMin.x, q.rmax.x - d.tsetMin.x, e.x);
    OffsetOrdered(q.rmin.y - d.tsetMin.y, q.rmax.y - d.tsetMin.y, e.y);
    TruncMonotone((q.rmin.x - d.tsetMin.x) / e.x, (q.rmax.x - d.tsetMin.x) / e.x);
    TruncMonotone((q.rmin.y - d.tsetMin.y) / e.y, (q.rmax.y - d.tsetMin.y) / e.y);
  }

  /** A factor that rounds to at least one, from a positive output cell size, needs a positive tile cell size. */
  lemma ResolutionPositive(outRes: real, tileRes: real)
    requires outRes > 0.0 && tileRes != 0.0 && Round(outRes / tileRes) >= 1
    ensures tileRes > 0.0
  {
  }

  lemma OffsetOrdered(a: real, b: real, e: real)
    requires a <= b && e > 0.0
    ensures a / e <= b / e
  {
    assert (a / e) * e == a && (b / e) * e == b;
  }

  lemma TruncMonotone(a: real, b: real)
    requires a <= b
    ensures Trunc(a) <= Trunc(b)
  {
  }

  /** One write of the stitching: value `value` into output cell `at`. */
  datatype Write = Write(at: IVec2, value: real)

  /**
   * The writes of tile `(ti, tj)`, holding `t`, for sample row `ii`,
   * columns `0 .. jj - 1`: one per sample whose position is inside the box.
   */
  function RowWrites(d: Descriptor, q: Request, ti: int, tj: int, t: seq<seq<real>>, ii: nat, jj: nat): seq<Write>
    requires Setting(d, q) && Shaped(t, OutPP(d, q)) && ii < OutPP(d, q).x && jj <= OutPP(d, q).y
    decreases jj
  {
    if jj == 0 then []
    else
      var prev := RowWrites(d, q, ti, tj, t, ii, jj - 1);
      var p := SamplePos(d, q, ti, tj, ii, jj - 1);
      if q.InBox(p) then prev + [Write(q.CoordsOf(p), t[ii][jj - 1])] else prev
  }

  /** The writes of tile `(ti, tj)`, holding `t`, for sample rows `0 .. ii - 1`. */
  function TileWrites(d: Descriptor, q: Request, ti: int, tj: int, t: seq<seq<real>>, ii: nat): seq<Write>
    requires Setting(d, q) && Shaped(t, OutPP(d, q)) && ii <= OutPP(d, q).x
    decreases ii
  {
    if ii == 0 then [] else TileWrites(d, q, ti, tj, t, ii - 1) + RowWrites(d, q, ti, tj, t, ii - 1, OutPP(d, q).y)
  }

  /** Tiles `(ti, s.lo.y) .. (ti, tj - 1)`, in loop order. */
  function ColumnTiles(s: Span, ti: int, tj: int): seq<IVec2>
    requires s.lo.y <= tj
    decreases tj - s.lo.y
  {
    if tj == s.lo.y then [] else ColumnTiles(s, ti, tj - 1) + [IVec2(ti, tj - 1)]
  }

  /** Those are tiles of column `ti` and rows `s.lo.y .. tj - 1` only. */
  lemma {:induction false} ColumnTilesIn(s: Span, ti: int, tj: int)
    requires s.lo.y <= tj
    ensures forall n :: 0 <= n < |ColumnTiles(s, ti, tj)| ==>
              ColumnTiles(s, ti, tj)[n].x == ti && s.lo.y <= ColumnTiles(s, ti, tj)[n].y < tj
    decreases tj - s.lo.y
  {
    if tj > s.lo.y {
      ColumnTilesIn(s, ti, tj - 1);
    }
  }

  /** Every tile of the columns `s.lo.x .. ti - 1` of the span, in loop order. */
  function TilesBefore(s: Span, ti: int): seq<IVec2>
    requires s.Ordered() && s.lo.x <= ti <= s.hi.x + 1
    decreases ti - s.lo.x
  {
    if ti == s.lo.x then [] else TilesBefore(s, ti - 1) + ColumnTiles(s, ti - 1, s.hi.y + 1)
  }

  /** Those are tiles of the span, of the columns before `ti` only. */
  lemma {:induction false} TilesBeforeIn(s: Span, ti: int)
    requires s.Ordered() && s.lo.x <= ti <= s.hi.x + 1
    ensures forall n :: 0 <= n < |TilesBefore(s, ti)| ==>
              TilesBefore(s, ti)[n].x < ti && s.Has(TilesBefore(s, ti)[n].x, TilesBefore(s, ti)[n].y)
    decreases ti - s.lo.x
  {
    if ti > s.lo.x {
      var prev := TilesBefore(s, ti - 1);
      var col := ColumnTiles(s, ti - 1, s.hi.y + 1);
      TilesBeforeIn(s, ti - 1);
      ColumnTilesIn(s, ti - 1, s.hi.y + 1);
      assert forall n :: |prev| <= n < |prev| + |col| ==> (prev + col)[n] == col[n - |prev|];
    }
  }

  /** The tiles of the span in the order `loadRegion` reads them: column by column. */
  function TileOrder(s: Span): (ts: seq<IVec2>)
    requires s.Ordered()
    ensures forall n :: 0 <= n < |ts| ==> s.Has(ts[n].x, ts[n].y)
  {
    TilesBeforeIn(s, s.hi.x + 1);
    TilesBefore(s, s.hi.x + 1)
  }

  lemma {:induction false} ColumnTilesContain(s: Span, ti: int, tj: int, tj': int)
    requires s.lo.y <= tj' < tj
    ensures IVec2(ti, tj') in ColumnTiles(s, ti, tj)
    decreases tj - s.lo.y
  {
    if tj' < tj - 1 {
      ColumnTilesContain(s, ti, tj - 1, tj');
    }
  }

  lemma {:induction false} TilesBeforeContain(s: Span, ti: int, ti': int, tj': int)
    requires s.Ordered() && s.lo.x <= ti' < ti <= s.hi.x + 1 && s.lo.y <= tj' <= s.hi.y
    ensures IVec2(ti', tj') in TilesBefore(s, ti)
    decreases ti - s.lo.x
  {
    if ti' < ti - 1 {
      TilesBeforeContain(s, ti - 1, ti', tj');
    } else {
      ColumnTilesContain(s, ti', s.hi.y + 1, tj');
    }
  }

  /** Every tile of the span is read. */
  lemma TileOrderComplete(s: Span, ti: int, tj: int)
    requires s.Ordered() && s.Has(ti, tj)
    ensures IVec2(ti, tj) in TileOrder(s)
  {
    TilesBeforeContain(s, s.hi.x + 1, ti, tj);
  }

  predicate AllIn(s: Span, ts: seq<IVec2>)
  {
    forall n :: 0 <= n < |ts| ==> s.Has(ts[n].x, ts[n].y)
  }

  /**
   * The writes of tile `c` of span `s`: those of the tile read for it. Only
   * tiles of the span are read, so a tile outside it, or a setting the
   * stitching cannot use, contributes no write.
   */
  ghost function TileBlock(d: Descriptor, fs: FileSystem, q: Request, s: Span, c: IVec2): seq<Write>
  {
    if Setting(d, q) && TilesUsable(d, fs, q, s) && s.Has(c.x, c.y) then
      TileWrites(d, q, c.x, c.y, Tile(d, fs, q, s, c.x, c.y), OutPP(d, q).x)
    else []
  }

  lemma TileBlockIs(d: Descriptor, fs: FileSystem, q: Request, s: Span, c: IVec2)
    requires Setting(d, q) && TilesUsable(d, fs, q, s) && s.Has(c.x, c.y)
    ensures TileBlock(d, fs, q, s, c) == TileWrites(d, q, c.x, c.y, Tile(d, fs, q, s, c.x, c.y), OutPP(d, q).x)
  {
  }

  /** Tile `c` of span `s` as its block of writes. */
  ghost function Blocks(d: Descriptor, fs: FileSystem, q: Request, s: Span): IVec2 -> seq<Write>
  {
    c => TileBlock(d, fs, q, s, c)
  }

  /** The writes of the tiles `ts`, one tile after the other. */
  ghost function WritesOf(d: Descriptor, fs: FileSystem, q: Request, s: Span, ts: seq<IVec2>): seq<Write>
    decreases |ts|
  {
    if ts == [] then [] else WritesOf(d, fs, q, s, ts[..|ts| - 1]) + TileBlock(d, fs, q, s, ts[|ts| - 1])
  }

  /** The writes of a list of tiles are their blocks laid end to end. */
  lemma {:induction false} WritesOfFlat(d: Descriptor, fs: FileSystem, q: Request, s: Span, ts: seq<IVec2>)
    ensures WritesOf(d, fs, q, s, ts) == Flatten(Blocks(d, fs, q, s), ts)
    decreases |ts|
  {
    if ts != [] {
      WritesOfFlat(d, fs, q, s, ts[..|ts| - 1]);
    }
  }

  /** All writes of `loadRegion`, in order; each targets a cell of the output. */
  ghost function RegionWrites(d: Descriptor, fs: FileSystem, q: Request): (ws: seq<Write>)
    requires Loadable(d, fs, q)
    ensures Targets(q, ws)
  {
    var s := TileRange(d, q);
    WritesOfInTarget(d, fs, q, s, TileOrder(s));
    WritesOf(d, fs, q, s, TileOrder(s))
  }

  /** Every write of `ws` goes to a cell of the output. */
  ghost predicate Targets(q: Request, ws: seq<Write>)
    requires q.Valid()
  {
    forall k :: 0 <= k < |ws| ==> q.InTarget(ws[k].at)
  }

  /** Each write of tiles of the span lands in a cell of the output. */
  lemma WritesOfInTarget(d: Descriptor, fs: FileSystem, q: Request, s: Span, ts: seq<IVec2>)
    requires Setting(d, q) && TilesUsable(d, fs, q, s) && AllIn(s, ts)
    ensures Targets(q, WritesOf(d, fs, q, s, ts))
  {
    var ws := WritesOf(d, fs, q, s, ts);
    forall k | 0 <= k < |ws|
      ensures q.InTarget(ws[k].at)
    {
      var n, ii, jj := WritesOfSource(d, fs, q, s, ts, k);
      CoordsInRange(q, SamplePos(d, q, ts[n].x, ts[n].y, ii, jj));
    }
  }

  /** Stores one write; a write outside the grid would change nothing. */
  function Put(h: seq<seq<real>>, w: Write): seq<seq<real>>
  {
    if 0 <= w.at.x < |h| && 0 <= w.at.y < |h[w.at.x]| then h[w.at.x := h[w.at.x][w.at.y := w.value]] else h
  }

  /** The grid after the writes `ws`, in order. */
  function Apply(h: seq<seq<real>>, ws: seq<Write>): (r: seq<seq<real>>)
    ensures |r| == |h| && forall i :: 0 <= i < |h| ==> |r[i]| == |h[i]|
    decreases |ws|
  {
    if ws == [] then h else Put(Apply(h, ws[..|ws| - 1]), ws[|ws| - 1])
  }

  lemma ApplySnoc(h: seq<seq<real>>, ws: seq<Write>, w: Write)
    ensures Apply(h, ws + [w]) == Put(Apply(h, ws), w)
  {
    assert (ws + [w])[..|ws|] == ws;
  }

  /** Applying two lists of writes one after the other is applying their concatenation. */
  lemma {:induction false} ApplyAppend(h: seq<seq<real>>, a: seq<Write>, b: seq<Write>)
    ensures Apply(h, a + b) == Apply(Apply(h, a), b)
    decreases |b|
  {
    if b == [] {
      assert a + b == a;
    } else {
      var b' := b[..|b| - 1];
      ApplyAppend(h, a, b');
      assert (a + b)[..|a + b| - 1] == a + b';
    }
  }

  /** Writes keep the shape of the grid. */
  lemma ApplyRect(h: seq<seq<real>>, ws: seq<Write>, nx: int, ny: int)
    requires Rect(h, nx, ny)
    ensures Rect(Apply(h, ws), nx, ny)
  {
  }

  /** The output before any write: every cell no-data. */
  function Blank(d: Descriptor, q: Request): seq<seq<real>>
    requires q.Valid()
  {
    Filled(q.NumPoints().x, q.NumPoints().y, d.levels.noValue)
  }

  /** The stitched region: `NumPoints` columns and rows. */
  ghost function Stitched(d: Descriptor, fs: FileSystem, q: Request): (h: seq<seq<real>>)
    requires Loadable(d, fs, q)
    ensures Rect(h, q.NumPoints().x, q.NumPoints().y)
  {
    Apply(Blank(d, q), RegionWrites(d, fs, q))
  }

  /** The writes of two lists of tiles, one after the other, are those of their concatenation. */
  lemma WritesOfAppend(d: Descriptor, fs: FileSystem, q: Request, s: Span, a: seq<IVec2>, b: seq<IVec2>)
    ensures WritesOf(d, fs, q, s, a + b) == WritesOf(d, fs, q, s, a) + WritesOf(d, fs, q, s, b)
  {
    WritesOfFlat(d, fs, q, s, a);
    WritesOfFlat(d, fs, q, s, b);
    WritesOfFlat(d, fs, q, s, a + b);
    FlattenAppend(Blocks(d, fs, q, s), a, b);
  }

  /** The grid `h` after reading tiles `(ti, s.lo.y) .. (ti, tj - 1)` one at a time. */
  ghost function ColumnLoaded(d: Descriptor, fs: FileSystem, q: Request, s: Span, h: seq<seq<real>>, ti: int, tj: int)
    : seq<seq<real>>
    decreases tj - s.lo.y
  {
    if tj <= s.lo.y then h
    else Apply(ColumnLoaded(d, fs, q, s, h, ti, tj - 1), TileBlock(d, fs, q, s, IVec2(ti, tj - 1)))
  }

  /** The grid `h` after reading the columns `s.lo.x .. ti - 1` of the span, each one whole. */
  ghost function Loaded(d: Descriptor, fs: FileSystem, q: Request, s: Span, h: seq<seq<real>>, ti: int): seq<seq<real>>
    decreases ti - s.lo.x
  {
    if ti <= s.lo.x then h
    else ColumnLoaded(d, fs, q, s, Loaded(d, fs, q, s, h, ti - 1), ti - 1, s.hi.y + 1)
  }

  /** Reading the first tiles of a column one at a time applies their writes in order. */
  lemma {:induction false} ColumnLoadedIs(d: Descriptor, fs: FileSystem, q: Request, s: Span, h: seq<seq<real>>, ti: int, tj: int)
    requires s.lo.y <= tj
    ensures ColumnLoaded(d, fs, q, s, h, ti, tj) == Apply(h, WritesOf(d, fs, q, s, ColumnTiles(s, ti, tj)))
    decreases tj - s.lo.y
  {
    if tj > s.lo.y {
      var column := ColumnTiles(s, ti, tj - 1);
      var c := IVec2(ti, tj - 1);
      ColumnLoadedIs(d, fs, q, s, h, ti, tj - 1);
      assert (column + [c])[..|column|] == column;
      ApplyAppend(h, WritesOf(d, fs, q, s, column), TileBlock(d, fs, q, s, c));
    }
  }

  /** Reading one more column whole applies the writes of its tiles. */
  lemma LoadedNext(d: Descriptor, fs: FileSystem, q: Request, s: Span, h: seq<seq<real>>, ti: int)
    requires s.Ordered() && s.lo.x < ti
    ensures Loaded(d, fs, q, s, h, ti)
         == Apply(Loaded(d, fs, q, s, h, ti - 1), WritesOf(d, fs, q, s, ColumnTiles(s, ti - 1, s.hi.y + 1)))
  {
    ColumnLoadedIs(d, fs, q, s, Loaded(d, fs, q, s, h, ti - 1), ti - 1, s.hi.y + 1);
  }

  /** The writes of the first columns are those of all columns but the last, then those of the last. */
  lemma TilesBeforeNext(d: Descriptor, fs: FileSystem, q: Request, s: Span, h: seq<seq<real>>, ti: int)
    requires s.Ordered() && s.lo.x < ti <= s.hi.x + 1
    ensures Apply(h, WritesOf(d, fs, q, s, TilesBefore(s, ti)))
         == Apply(Apply(h, WritesOf(d, fs, q, s, TilesBefore(s, ti - 1))), WritesOf(d, fs, q, s, ColumnTiles(s, ti - 1, s.hi.y + 1)))
  {
    var before := TilesBefore(s, ti - 1);
    var column := ColumnTiles(s, ti - 1, s.hi.y + 1);
    WritesOfAppend(d, fs, q, s, before, column);
    ApplyAppend(h, WritesOf(d, fs, q, s, before), WritesOf(d, fs, q, s, column));
  }

  /** Reading the first columns whole applies the writes of their tiles in loop order. */
  lemma {:induction false} LoadedIs(d: Descriptor, fs: FileSystem, q: Request, s: Span, h: seq<seq<real>>, ti: int)
    requires s.Ordered() && s.lo.x <= ti <= s.hi.x + 1
    ensures Loaded(d, fs, q, s, h, ti) == Apply(h, WritesOf(d, fs, q, s, TilesBefore(s, ti)))
    decreases ti - s.lo.x
  {
    if ti > s.lo.x {
      LoadedIs(d, fs, q, s, h, ti - 1);
      LoadedNext(d, fs, q, s, h, ti);
      TilesBeforeNext(d, fs, q, s, h, ti);
    }
  }

  /**
   * Reading every column of the tile range whole, from the all-no-data
   * grid, gives the stitched region.
   */
  lemma LoadedIsStitched(d: Descriptor, fs: FileSystem, q: Request)
    requires Loadable(d, fs, q)
    ensures Loaded(d, fs, q, TileRange(d, q), Blank(d, q), TileRange(d, q).hi.x + 1) == Stitched(d, fs, q)
  {
    var s := TileRange(d, q);
    LoadedIs(d, fs, q, s, Blank(d, q), s.hi.x + 1);
    assert RegionWrites(d, fs, q) == WritesOf(d, fs, q, s, TilesBefore(s, s.hi.x + 1));
  }

  /**
   * A cell after the writes holds the value of the LAST write to it, or,
   * when no write targets it, its value before.
   */
  lemma {:induction false} ApplyLastWrite(h: seq<seq<real>>, ws: seq<Write>, x: int, y: int) returns (k: int)
    requires 0 <= x < |h| && 0 <= y < |h[x]|
    ensures -1 <= k < |ws|
    ensures forall m :: k < m < |ws| ==> ws[m].at != IVec2(x, y)
    ensures k == -1 ==> Apply(h, ws)[x][y] == h[x][y]
    ensures 0 <= k ==> ws[k].at == IVec2(x, y) && Apply(h, ws)[x][y] == ws[k].value
    decreases |ws|
  {
    if ws == [] {
      k := -1;
    } else {
      var ws' := ws[..|ws| - 1];
      var w := ws[|ws| - 1];
      if w.at == IVec2(x, y) {
        k := |ws| - 1;
      } else {
        k := ApplyLastWrite(h, ws', x, y);
        forall m | k < m < |ws| ensures ws[m].at != IVec2(x, y) {
          if m < |ws| - 1 {
            assert ws[m] == ws'[m];
          }
        }
      }
    }
  }

  /**
   * Write `w` stores sample `(ii, jj)` of tile `(ti, tj)`, holding `t`: a
   * sample of the output part of the tile whose position is inside the box,
   * into the cell containing that position.
   */
  predicate SampleWrite(d: Descriptor, q: Request, ti: int, tj: int, t: seq<seq<real>>, ii: int, jj: int, w: Write)
    requires Setting(d, q) && Shaped(t, OutPP(d, q))
  {
    && 0 <= ii < OutPP(d, q).x && 0 <= jj < OutPP(d, q).y
    && q.InBox(SamplePos(d, q, ti, tj, ii, jj))
    && w == Write(q.CoordsOf(SamplePos(d, q, ti, tj, ii, jj)), t[ii][jj])
  }

  /** The same for a tile of span `s`, holding what is read for it. */
  ghost predicate WrittenFrom(d: Descriptor, fs: FileSystem, q: Request, s: Span, w: Write, ti: int, tj: int, ii: int, jj: int)
    requires Setting(d, q) && TilesUsable(d, fs, q, s)
  {
    s.Has(ti, tj) && SampleWrite(d, q, ti, tj, Tile(d, fs, q, s, ti, tj), ii, jj, w)
  }

  lemma {:induction false} RowWritesSource(d: Descriptor, q: Request, ti: int, tj: int, t: seq<seq<real>>, ii: nat, jj: nat, k: int)
    returns (jj': int)
    requires Setting(d, q) && Shaped(t, OutPP(d, q)) && ii < OutPP(d, q).x && jj <= OutPP(d, q).y
    requires 0 <= k < |RowWrites(d, q, ti, tj, t, ii, jj)|
    ensures 0 <= jj' < jj && SampleWrite(d, q, ti, tj, t, ii, jj', RowWrites(d, q, ti, tj, t, ii, jj)[k])
    decreases jj
  {
    if k < |RowWrites(d, q, ti, tj, t, ii, jj - 1)| {
      jj' := RowWritesSource(d, q, ti, tj, t, ii, jj - 1, k);
    } else {
      jj' := jj - 1;
    }
  }

  lemma {:induction false} TileWritesSource(d: Descriptor, q: Request, ti: int, tj: int, t: seq<seq<real>>, ii: nat, k: int)
    returns (ii': int, jj': int)
    requires Setting(d, q) && Shaped(t, OutPP(d, q)) && ii <= OutPP(d, q).x
    requires 0 <= k < |TileWrites(d, q, ti, tj, t, ii)|
    ensures SampleWrite(d, q, ti, tj, t, ii', jj', TileWrites(d, q, ti, tj, t, ii)[k])
    decreases ii
  {
    var prev := TileWrites(d, q, ti, tj, t, ii - 1);
    if k < |prev| {
      ii', jj' := TileWritesSource(d, q, ti, tj, t, ii - 1, k);
    } else {
      ii' := ii - 1;
      jj' := RowWritesSource(d, q, ti, tj, t, ii - 1, OutPP(d, q).y, k - |prev|);
    }
  }

  /** Each write of a list of tiles of the span stores an in-box sample of one of them. */
  lemma WritesOfSource(d: Descriptor, fs: FileSystem, q: Request, s: Span, ts: seq<IVec2>, k: int)
    returns (n: int, ii: int, jj: int)
    requires Setting(d, q) && TilesUsable(d, fs, q, s) && AllIn(s, ts)
    requires 0 <= k < |WritesOf(d, fs, q, s, ts)|
    ensures 0 <= n < |ts| && WrittenFrom(d, fs, q, s, WritesOf(d, fs, q, s, ts)[k], ts[n].x, ts[n].y, ii, jj)
  {
    var m;
    WritesOfFlat(d, fs, q, s, ts);
    n, m := FlattenSource(Blocks(d, fs, q, s), ts, k);
    var c := ts[n];
    TileBlockIs(d, fs, q, s, c);
    ii, jj := TileWritesSource(d, q, c.x, c.y, Tile(d, fs, q, s, c.x, c.y), OutPP(d, q).x, m);
  }

  /**
   * Every cell of the stitched region is either still no-data, with no
   * write targeting it, or a sample of a tile in the range, taken from the
   * last write to that cell.
   */
  lemma StitchedCell(d: Descriptor, fs: FileSystem, q: Request, x: int, y: int)
    returns (written: bool, ti: int, tj: int, ii: int, jj: int)
    requires Loadable(d, fs, q) && q.InTarget(IVec2(x, y))
    ensures !written ==>
              && Stitched(d, fs, q)[x][y] == d.levels.noValue
              && forall k :: 0 <= k < |RegionWrites(d, fs, q)| ==> RegionWrites(d, fs, q)[k].at != IVec2(x, y)
    ensures written ==>
              && WrittenFrom(d, fs, q, TileRange(d, q), Write(IVec2(x, y), Stitched(d, fs, q)[x][y]), ti, tj, ii, jj)
  {
    var s := TileRange(d, q);
    var ws := RegionWrites(d, fs, q);
    var k := ApplyLastWrite(Blank(d, q), ws, x, y);
    written, ti, tj, ii, jj := k >= 0, 0, 0, 0, 0;
    if written {
      var n;
      n, ii, jj := WritesOfSource(d, fs, q, s, TileOrder(s), k);
      ti, tj := TileOrder(s)[n].x, TileOrder(s)[n].y;
    }
  }

  lemma {:induction false} RowWritesHit(d: Descriptor, q: Request, ti: int, tj: int, t: seq<seq<real>>, ii: nat, jj: nat, jj0: int)
    returns (k: int)
    requires Setting(d, q) && Shaped(t, OutPP(d, q)) && ii < OutPP(d, q).x && jj <= OutPP(d, q).y
    requires 0 <= jj0 < jj && q.InBox(SamplePos(d, q, ti, tj, ii, jj0))
    ensures 0 <= k < |RowWrites(d, q, ti, tj, t, ii, jj)|
    ensures RowWrites(d, q, ti, tj, t, ii, jj)[k] == Write(q.CoordsOf(SamplePos(d, q, ti, tj, ii, jj0)), t[ii][jj0])
    decreases jj
  {
    var prev := RowWrites(d, q, ti, tj, t, ii, jj - 1);
    if jj0 < jj - 1 {
      k := RowWritesHit(d, q, ti, tj, t, ii, jj - 1, jj0);
      assert RowWrites(d, q, ti, tj, t, ii, jj)[k] == prev[k];
    } else {
      k := |prev|;
    }
  }

  lemma {:induction false} TileWritesHit(d: Descriptor, q: Request, ti: int, tj: int, t: seq<seq<real>>, ii: nat, ii0: int, jj0: int)
    returns (k: int)
    requires Setting(d, q) && Shaped(t, OutPP(d, q)) && ii <= OutPP(d, q).x
    requires 0 <= ii0 < ii && 0 <= jj0 < OutPP(d, q).y && q.InBox(SamplePos(d, q, ti, tj, ii0, jj0))
    ensures 0 <= k < |TileWrites(d, q, ti, tj, t, ii)|
    ensures TileWrites(d, q, ti, tj, t, ii)[k] == Write(q.CoordsOf(SamplePos(d, q, ti, tj, ii0, jj0)), t[ii0][jj0])
    decreases ii
  {
    var prev := TileWrites(d, q, ti, tj, t, ii - 1);
    var row := RowWrites(d, q, ti, tj, t, ii - 1, OutPP(d, q).y);
    if ii0 < ii - 1 {
      k := TileWritesHit(d, q, ti, tj, t, ii - 1, ii0, jj0);
      assert (prev + row)[k] == prev[k];
    } else {
      var m := RowWritesHit(d, q, ti, tj, t, ii - 1, OutPP(d, q).y, jj0);
      k := |prev| + m;
      assert (prev + row)[k] == row[m];
    }
  }

  /**
   * Every in-box sample of every tile of a list is among the writes of the
   * list.
   */
  lemma WritesOfHit(d: Descriptor, fs: FileSystem, q: Request, s: Span, ts: seq<IVec2>, n: int, ii0: int, jj0: int)
    returns (k: int)
    requires Setting(d, q) && TilesUsable(d, fs, q, s) && AllIn(s, ts) && 0 <= n < |ts|
    requires 0 <= ii0 < OutPP(d, q).x && 0 <= jj0 < OutPP(d, q).y && q.InBox(SamplePos(d, q, ts[n].x, ts[n].y, ii0, jj0))
    ensures 0 <= k < |WritesOf(d, fs, q, s, ts)|
    ensures WritesOf(d, fs, q, s, ts)[k]
         == Write(q.CoordsOf(SamplePos(d, q, ts[n].x, ts[n].y, ii0, jj0)), Tile(d, fs, q, s, ts[n].x, ts[n].y)[ii0][jj0])
  {
    var c := ts[n];
    var m := TileWritesHit(d, q, c.x, c.y, Tile(d, fs, q, s, c.x, c.y), OutPP(d, q).x, ii0, jj0);
    TileBlockIs(d, fs, q, s, c);
    WritesOfFlat(d, fs, q, s, ts);
    k := FlattenHit(Blocks(d, fs, q, s), ts, n, m);
  }

  /**
   * Conversely, a cell that an in-box sample of a tile of the range falls
   * into is written: the region holds a tile sample there, not no-data
   * by default.
   */
  lemma SampleIsWritten(d: Descriptor, fs: FileSystem, q: Request, ti: int, tj: int, ii: int, jj: int)
    returns (k: int)
    requires Loadable(d, fs, q) && TileRange(d, q).Has(ti, tj)
    requires 0 <= ii < OutPP(d, q).x && 0 <= jj < OutPP(d, q).y && q.InBox(SamplePos(d, q, ti, tj, ii, jj))
    ensures 0 <= k < |RegionWrites(d, fs, q)|
    ensures RegionWrites(d, fs, q)[k].at == q.CoordsOf(SamplePos(d, q, ti, tj, ii, jj))
  {
    var s := TileRange(d, q);
    var ts := TileOrder(s);
    TileOrderComplete(s, ti, tj);
    var n :| 0 <= n < |ts| && ts[n] == IVec2(ti, tj);
    k := WritesOfHit(d, fs, q, s, ts, n, ii, jj);
  }

  /**
   * Hence a cell that no in-box sample position of any tile of the range
   * falls into keeps the no-data value.
   */
  lemma UnwrittenStaysNoValue(d: Descriptor, fs: FileSystem, q: Request, x: int, y: int)
    requires Loadable(d, fs, q) && q.InTarget(IVec2(x, y))
    requires forall ti, tj, ii, jj ::
               TileRange(d, q).Has(ti, tj) && 0 <= ii < OutPP(d, q).x && 0 <= jj < OutPP(d, q).y &&
               q.InBox(SamplePos(d, q, ti, tj, ii, jj)) ==>
                 q.CoordsOf(SamplePos(d, q, ti, tj, ii, jj)) != IVec2(x, y)
    ensures Stitched(d, fs, q)[x][y] == d.levels.noValue
  {
    var written, ti, tj, ii, jj := StitchedCell(d, fs, q, x, y);
  }
}
