# DEM-Measures height grids and tilesets, in Dafny

This project models the two classes that hold the terrain logic of
DEM-Measures, and proves what they compute.

**`HeightsGrid`** is a dense grid of height samples indexed `[column][row]`. It also holds:
- the world rectangle it covers;
- the cell size;
- the number of cells per axis, which is the truncated extent over the cell size;
- a no-data sentinel;
- two memoised extrema.

Its operations are:
- extraction of a triangle mesh;
- the memoised lowest and highest sample;
- radial statistics in a window around a point;
- topographic isolation, a best-first flood over 8-connected cells.

**`HeightsTileset`** reads square tiles of heights from a folder. Its operations are:
- **Tile naming.** It names tile `(ti, tj)` `tile_TT_UU.bin`, each index zero-filled to two characters.
- **Reading.** It reads a tile through a scratch buffer of one tile's samples and block-averages it down to a coarser cell size. No-data samples are skipped, sea samples count at the sea level, and an empty block becomes the sea level.
- **Stitching.** It stitches a region out of tiles. It reads every tile of an inclusive index range and mirrors the row axis. It writes each sample whose position lies in the half-open region box into the output cell containing it. The output starts as all no-data.

Modules, one concept each:

| module | file | contents |
|---|---|---|
| `Geometry` | geometry.dfy | vectors; the C++ float-to-int cast (`Trunc`), `Floor`, `Ceil` and `Round` on reals |
| `Rasters` | raster.dfy | the immutable part of a grid as a value |
| `Extremes` | extremes.dfy | running extrema with strict replacement, and running sums |
| `Mesh` | mesh.dfy | the vertex and triangle lists as functions, and the triangle pass |
| `HeightScan` | heightscan.dfy | the global min/max scan |
| `Radial` | radial.dfy | the samples the statistics loop accumulates |
| `Isolation` | isolation.dfy | the flood's queue discipline, its invariant and its outcome |
| `HeightsGrids` | heightsgrid.dfy | the `HeightsGrid` class |
| `TileNaming` | tilenaming.dfy | tile paths, and parsing them back |
| `Downsampling` | downsample.dfy | block averaging of one raw tile |
| `Tiles` | tiles.dfy | the tileset descriptor, and what a tile read yields |
| `Regions` | region.dfy | the writes of a region load, and the stitched region |
| `HeightsTilesets` | heightstileset.dfy | the `HeightsTileset` class |
| `Sequences` | sequences.dfy | generic facts on concatenations |
| `Wrappers` | wrappers.dfy | the `Option` type |

Each loop of the source is a `while` loop of a method, specified by a function. Where the loop's order matters, the function recurses in loop order:
- `MeshVertices` and `MeshTriangles` for the mesh passes;
- `ExtremeHeight` for the min/max scan;
- `Samples`/`StatsOf` for the statistics;
- `Downsampled` for the averaging;
- `Loaded`, `ColumnLoaded` and `Stitched` for the region load.

Properties of the source are then proved about those functions.

Three quirks of the source are kept as written:
- The statistics loop starts its row index at the window's lower *column* bound.
- A statistics sample is valid when its height is `>= 0`; the sentinel is not consulted.
- `loadRegion` discards the result of its `glm::clamp`. The model proves the clamp unneeded: a position inside the box always floors to a cell of the output.

## Model

| member | source | states |
|---|---|---|
| `HeightsGrids.HeightsGrid.constructor` | heightsgrid.cpp:7-20 | stores the samples, corners, cell size and sentinel (by default -9999); the cell counts are the truncated extent over the cell size; both memos start at the sentinel, meaning "not computed" |
| `HeightsGrids.HeightsGrid.GetGridMin` | heightsgrid.h:42-44 | returns the stored lower corner |
| `HeightsGrids.HeightsGrid.GetGridMax` | heightsgrid.h:46-48 | returns the stored upper corner |
| `HeightsGrids.HeightsGrid.GetGridRes` | heightsgrid.h:50-52 | returns the stored cell size |
| `HeightsGrids.HeightsGrid.GetGridExtension` | heightsgrid.h:54-56 | returns `gridMax - gridMin`, whose truncated quotient by the cell size is the grid size |
| `HeightsGrids.HeightsGrid.GetGridSize` | heightsgrid.h:58-60 | returns the stored cell counts |
| `HeightsGrids.HeightsGrid.GetGridNoValue` | heightsgrid.h:62-64 | returns the stored sentinel |
| `HeightsGrids.HeightsGrid.Data` | heightsgrid.h:66-68 | returns the samples, which are immutable after construction |
| `HeightsGrids.HeightsGrid.BuildTriangleModel` | heightsgrid.cpp:22-63 | appends exactly the mesh vertices and the mesh triangles to the given lists, with ids continuing from the list's length |
| `HeightsGrids.HeightsGrid.BuildVertices` | heightsgrid.cpp:24-35 | pushes one vertex per data cell in column-major order; each data cell's id is the vertex count when it was pushed, and a no-data cell's id is -1 |
| `Mesh.BuildTriangles` | heightsgrid.cpp:37-62 | appends the triangles of every 2x2 block, block column by block column |
| `Mesh.BuildColumnTriangles` | heightsgrid.cpp:40-61 | appends the triangles of the blocks of one block column, in row order |
| `Mesh.BlockTris` | heightsgrid.cpp:41-60 | a block with four data corners gives exactly `(v00,v10,v01)` and `(v01,v10,v11)`; three give exactly the triangle of those corners (`(v00,v10,v11)`, `(v00,v11,v01)`, `(v00,v10,v01)` or `(v01,v10,v11)`); two or fewer give none; every index is a data corner of the block |
| `Mesh.VertexIdSound` | heightsgrid.cpp:29-32 | a data cell's id indexes the vertex list at its corner position and its height |
| `Mesh.VertexIdIncreasing` | heightsgrid.cpp:27-35 | ids grow strictly in column-major scan order |
| `Mesh.VertexIdInjective` | heightsgrid.cpp:27-35 | distinct data cells get distinct ids |
| `Mesh.VertexSource` | heightsgrid.cpp:27-35 | every emitted vertex belongs to a data cell carrying its id, so there is one vertex per data cell and nothing else |
| `Mesh.IdInRange` | heightsgrid.cpp:41-45 | a non-negative id indexes an emitted vertex |
| `Mesh.BlockTrisWinding` | heightsgrid.cpp:41-60 | every triangle of a block, whether the block has four or three data corners, runs counter-clockwise in cell coordinates, so the three-corner triangles keep the winding of the four-corner pair |
| `Mesh.BlockIndexesValid` | heightsgrid.cpp:41-60 | every triangle of a block refers to emitted vertices |
| `Mesh.TrianglesReferToVertices` | heightsgrid.cpp:39-62 | every index of every triangle is `>= base` and `< base + number of vertices` |
| `Mesh.TriangleCountBound` | heightsgrid.cpp:39-62 | at most `2 * (sx - 1) * (sy - 1)` triangles |
| `HeightsGrids.HeightsGrid.GetHeightMin` | heightsgrid.cpp:65-75 | returns the scanned minimum and stores it; a memo above the sentinel is kept; the other memo is unchanged; the class invariant is preserved |
| `HeightsGrids.HeightsGrid.GetHeightMax` | heightsgrid.cpp:77-87 | the same for the maximum |
| `HeightScan.ColumnLowest` | heightsgrid.cpp:69-71 | folds one column into the running minimum |
| `HeightScan.ColumnHighest` | heightsgrid.cpp:81-83 | folds one column into the running maximum |
| `HeightScan.ExtremeHeightBound` | heightsgrid.cpp:65-87 | the minimum is `<=` sample (0,0) and every sample of `[0,gridSize)`, no-data included; the maximum is `>=` them |
| `HeightScan.ExtremeHeightAttained` | heightsgrid.cpp:65-87 | the extremum equals an actual sample: (0,0) or a cell of the grid |
| `HeightsGrids.HeightsGrid.GetRadialStatistics` | heightsgrid.cpp:96-129 | the accumulators are the statistics of exactly the counted samples in visiting order; `hmin.z <= p.z <= hmax.z`; the mean lies in `[hmin.z, hmax.z]` when `N > 0`; `hmin`/`hmax` move only to a visited, counted sample strictly below/above `p.z` |
| `HeightsGrids.HeightsGrid.GetRadialStatisticsXY` | heightsgrid.cpp:89-94 | the statistics of the point raised to the height of the cell it falls in |
| `Radial.AccumulateColumn` | heightsgrid.cpp:110-124 | one column of the loop accumulates exactly that column's counted samples |
| `Radial.StatsWindow` | heightsgrid.cpp:103-106 | the clamped window reads only indices `0 <= i < gridSize.x`, `0 <= j < gridSize.y` |
| `Radial.InRadiusIsDistanceTest` | heightsgrid.cpp:112 | the squared-distance test agrees with `distance <= rad` |
| `Radial.StatsOfSnoc` | heightsgrid.cpp:113-122 | one counted sample updates min and max strictly, and grows both sums and the count |
| `Radial.SampleIncluded` | heightsgrid.cpp:109-125 | every visited cell within the radius with height `>= 0` is accumulated |
| `Radial.SampleSource` | heightsgrid.cpp:109-125 | every accumulated sample is a visited cell within the radius with height `>= 0` |
| `Radial.RowCells` | heightsgrid.cpp:110-122 | the cells of one column whose samples are accumulated: each is in that column, within the visited rows, passes both tests, and rows strictly increase |
| `Radial.BlockCells` | heightsgrid.cpp:109-123 | the cells of the visited columns whose samples are accumulated: each passes both tests, in strictly increasing column-major order |
| `Radial.SamplesEnumerate` | heightsgrid.cpp:109-123 | the accumulated samples correspond one to one, in visiting order, to the visited cells passing both tests: each such cell contributes its sample exactly once |
| `Radial.SampleCount` | heightsgrid.cpp:112-120 | `N` is the number of visited cells within the radius with height `>= 0` |
| `Radial.ExtremumSource` | heightsgrid.cpp:107-119 | a recorded extremum other than `p` is a counted sample strictly more extreme than `p.z` |
| `Radial.StatisticsBounds` | heightsgrid.cpp:107-127 | min and max bracket `p.z`, every sample and, when `N > 0`, the mean |
| `HeightsGrids.HeightsGrid.GetIsolation` | heightsgrid.cpp:138-180 | ends in the flood outcome: each marked cell is in the grid and marked once; `pIso` is the last qualifying cell or `p`; a start outside the grid marks nothing; a stop happens exactly at the cell that pushed the area over the threshold; otherwise the whole grid was marked; below one cell's threshold (e.g. the default 0) at most one cell qualifies; the result is -1 or a distance `> minDist` |
| `HeightsGrids.HeightsGrid.FloodStep` | heightsgrid.cpp:150-173 | pops the top entry; discards an out-of-grid or visited cell; otherwise marks it, records it when it qualifies, stops once the area exceeds the threshold, and pushes the eight neighbours; it keeps the flood invariant and decreases the measure (unvisited cells, queue length) |
| `HeightsGrids.HeightsGrid.GetIsolationXY` | heightsgrid.cpp:131-136 | the isolation of the point raised to its cell's height, with the full flood outcome of `GetIsolation`: the flood starts at the point's cell, stops exactly when the qualifying area first exceeds `minIsoArea` or else covers the grid, and with the default `minIsoArea` of 0 at most one cell qualifies; `hOffset` defaults to 0 |
| `Isolation.TopIndex` | heightsgrid.cpp:150 | the popped entry is one no other entry exceeds in `std::pair` order |
| `Isolation.Remove` | heightsgrid.cpp:150 | popping removes exactly that entry |
| `Isolation.Pushes` | heightsgrid.cpp:166-173 | eight pushes, exactly covering the eight neighbours |
| `Isolation.LastIso` | heightsgrid.cpp:158-160 | `pIso` tracks the last qualifying marked cell: none exactly when no marked cell qualifies |
| `Isolation.QualifyingAreaSnoc` | heightsgrid.cpp:161 | marking adds one cell's area exactly when the cell qualifies |
| `Isolation.QualifyingAreaBounds` | heightsgrid.cpp:161 | the area is non-negative, and at least one cell's area once a cell qualifies |
| `Isolation.CountBelowCellArea` | heightsgrid.cpp:161-163 | with a threshold below one cell's area, not having stopped means nothing qualified |
| `Isolation.CountSnoc` | heightsgrid.cpp:158-161 | the count and the last qualifying cell after one more marked cell |
| `Isolation.NothingQualifiesKeepsPoint` | heightsgrid.cpp:141-179 | when no grid cell qualifies, the recorded point stays the query point and the result is the square root of 0 tested against `minDist` |
| `Isolation.NothingQualifiesNotFound` | heightsgrid.cpp:175-179 | with `minDist >= 0` and an exact square root at 0, no qualifying cell means the result is -1 |
| `Isolation.NothingQualifiesNegativeMinDist` | heightsgrid.cpp:175-179 | with `minDist < 0`, no qualifying cell gives 0, not -1 |
| `Isolation.CountZero` | heightsgrid.cpp:158-161 | no qualifying cell exactly when the count is zero |
| `Isolation.FloodStart` | heightsgrid.cpp:143-148 | the initial queue, empty marking and `pIso = p` satisfy the invariant |
| `Isolation.DiscardStep` | heightsgrid.cpp:153 | discarding an out-of-grid or marked cell keeps the invariant |
| `Isolation.MarkStep` | heightsgrid.cpp:153-173 | marking a cell and pushing its neighbours keeps the invariant |
| `Isolation.StopOutcome` | heightsgrid.cpp:161-163 | the `break` ends in the flood outcome |
| `Isolation.ExhaustedOutcome` | heightsgrid.cpp:149-175 | an empty queue ends in the flood outcome, every grid cell marked |
| `Isolation.ClosedCoversGrid` | heightsgrid.cpp:149-175 | a closed marking containing the start, with nothing queued, contains every grid cell |
| `Isolation.ReachByDistance` | heightsgrid.cpp:166-173 | the step behind `ClosedCoversGrid`: closure reaches every cell at each Manhattan distance |
| `Isolation.DiscardKeepsClosed` | heightsgrid.cpp:153 | discarding keeps every neighbour of a marked cell covered |
| `Isolation.MarkKeepsClosed` | heightsgrid.cpp:154-173 | marking and pushing keeps every neighbour of a marked cell covered |
| `HeightsTilesets.HeightsTileset.constructor` | heightstileset.cpp:9-28 | takes the descriptor values; the tileset extension is `tsetMax - tsetMin`, the tile extension `ppTile * tileRes`, the tile counts the rounded-up quotient; the buffer holds one tile |
| `HeightsTilesets.HeightsTileset.GetTilesetMin` | heightstileset.h:40-42 | returns the descriptor's lower corner |
| `HeightsTilesets.HeightsTileset.GetTilesetMax` | heightstileset.h:44-46 | returns the descriptor's upper corner |
| `HeightsTilesets.HeightsTileset.GetTileRes` | heightstileset.h:48-50 | returns the cell size inside a tile |
| `HeightsTilesets.HeightsTileset.GetTileExtension` | heightstileset.h:52-54 | returns `ppTile * tileRes`, non-zero on each axis |
| `HeightsTilesets.HeightsTileset.GetTilesetExtension` | heightstileset.h:56-58 | returns `tsetMax - tsetMin`, and the tile counts are its rounded-up quotient by the tile extension |
| `TileNaming.TileNameRoundTrip` | heightstileset.cpp:38-42 | parsing the path built for `(ti, tj)` gives back `(ti, tj)` |
| `TileNaming.TileNameInjective` | heightstileset.cpp:38-42 | distinct tiles have distinct paths |
| `TileNaming.Pad2RoundTrip` | heightstileset.cpp:40-41 | a zero-filled index reads back as the index and holds no `_` |
| `TileNaming.Pad2Negative` | heightstileset.cpp:40-41 | a negative index is `-` and its digits, with no fill |
| `TileNaming.Pad2NonNegative` | heightstileset.cpp:40-41 | a non-negative index is its digits, zero-filled to two characters |
| `TileNaming.ZeroFillIs` | heightstileset.cpp:40-41 | `setw(2)` with fill `0`: only zeros are added, on the left, and a longer string is kept whole |
| `TileNaming.Digits` | heightstileset.cpp:40-41 | at least one digit, exactly one below 10 |
| `TileNaming.ValueOfDigits` | heightstileset.cpp:40-41 | the digits of `n` read back as `n` |
| `TileNaming.ValueOfLeadingZeros` | heightstileset.cpp:40-41 | leading zeros do not change the value |
| `TileNaming.ParseTileNameBody` | heightstileset.cpp:39-41 | the folder, `tile_` and `.bin` are stripped exactly |
| `HeightsTilesets.HeightsTileset.ReadTile` | heightstileset.cpp:36-94 | returns `TileData`: the downsampled file when it exists, otherwise a no-data tile of the nominal size; a present file leaves its samples at the head of the scratch buffer and the rest of the buffer untouched, and a missing file leaves the buffer unchanged |
| `Tiles.TileData` | heightstileset.cpp:53-65 | an existing file gives `sx/f.x` columns of `sy/f.y` cells; a missing file gives `ppTile/f` columns and rows, every cell `hNoValue` |
| `Tiles.Descriptor.MissingTileSize` | heightstileset.cpp:54-55 | the size assumed for a missing tile, `round(tileExtension/tileRes)`, is exactly `ppTile` |
| `HeightsTilesets.HeightsTileset.Downsample` | heightstileset.cpp:67-92 | fills every output cell with its block's mean, or the sea level for an empty block |
| `HeightsTilesets.HeightsTileset.BlockSum` | heightstileset.cpp:69-84 | the sum and count of the block's contributions |
| `HeightsTilesets.HeightsTileset.RowSum` | heightstileset.cpp:72-83 | adds one row of the block, reading the buffer at `(i*f.x+ii)*sy + j*f.y+jj` |
| `Downsampling.FlatIndexBound` | heightstileset.cpp:73-74 | a read sample's flat index is `< sx*sy` |
| `Downsampling.BlockInsideTile` | heightstileset.cpp:73 | for an output cell the bounds test never fails |
| `Downsampling.BlockValuesSource` | heightstileset.cpp:73-80 | each contribution is a read sample `> hNoValue`, replaced by the sea level when `<= hSeaValue` |
| `Downsampling.BlockValuesContain` | heightstileset.cpp:73-80 | every read sample `> hNoValue` of the block contributes |
| `Downsampling.RowOffsets` | heightstileset.cpp:71-81 | the contributing offsets of one block row: each is read and present, and columns strictly increase |
| `Downsampling.BlockOffsets` | heightstileset.cpp:70-82 | the contributing offsets of a block: each is read and present, in strictly increasing row-major order |
| `Downsampling.BlockValuesEnumerate` | heightstileset.cpp:68-82 | the contributions of a block correspond one to one, in reading order, to its read samples `> hNoValue`: each contributes its sea-adjusted value exactly once |
| `Downsampling.BlockValuesCount` | heightstileset.cpp:70-82 | `numH` is the number of read samples `> hNoValue` in the block |
| `Downsampling.CellValueIsMean` | heightstileset.cpp:84-89 | the cell is the sea-adjusted sum of the block's contributions over the number of read samples `> hNoValue`, or the sea level when that number is 0 |
| `Downsampling.IdentityFactor` | heightstileset.cpp:67-90 | with factor (1,1), a sample `> hNoValue` and `> hSeaValue` is reproduced exactly, and every other becomes the sea level |
| `Downsampling.DownsampledWithin` | heightstileset.cpp:85-90 | averaging never leaves the range of the adjusted data and the sea level |
| `HeightsTilesets.HeightsTileset.LoadRegion` | heightstileset.cpp:97-132 | returns a fresh grid holding `Stitched`, with the request's corners and cell size, the tileset's sentinel, memos not computed, and well formed |
| `HeightsTilesets.HeightsTileset.LoadTiles` | heightstileset.cpp:111-128 | reads every column of the tile span in order |
| `HeightsTilesets.HeightsTileset.LoadColumn` | heightstileset.cpp:112-127 | reads the tiles of one column in order, keeping the grid's shape |
| `HeightsTilesets.HeightsTileset.LoadTile` | heightstileset.cpp:114-126 | reads one tile and applies its writes |
| `HeightsTilesets.HeightsTileset.StoreTile` | heightstileset.cpp:117-126 | applies the writes of every sample row of the tile |
| `HeightsTilesets.HeightsTileset.StoreRow` | heightstileset.cpp:118-125 | applies the writes of one sample row |
| `HeightsTilesets.HeightsTileset.StoreSample` | heightstileset.cpp:119-124 | writes `T[ii][jj]` to the cell at `floor((p - regionMin)/outRes)` exactly when the mirrored position `p` is in the half-open box, and the write is in bounds |
| `HeightsTilesets.HeightsTileset.NewGrid` | heightstileset.cpp:130 | the grid built on the result has the request's geometry and is well formed |
| `HeightsTilesets.HeightsTileset.GridShape` | heightstileset.cpp:106 | the grid's truncated `gridSize` (heightsgrid.cpp line 17) never exceeds the allocated `ceil` cell counts |
| `Regions.Request.NumPoints` | heightstileset.cpp:106 | the output has `ceil((regionMax - regionMin)/outRes)` columns and rows, never negative |
| `Regions.TileRange` | heightstileset.cpp:102-103 | the inclusive span from the truncated tile offset of `regionMin` to that of `regionMax`, never empty |
| `Regions.OutPP` | heightstileset.cpp:107 | output samples per tile, `ppTile / reduceFactor`, between 0 and `ppTile` |
| `Regions.CoordsInRange` | heightstileset.cpp:120-123 | a position in the half-open box floors to a cell of the output: floor below ceil, so the discarded clamp is never needed |
| `Regions.TileOrder` | heightstileset.cpp:111-112 | the tiles read are tiles of the span |
| `Regions.TileOrderComplete` | heightstileset.cpp:111-112 | every tile of the span is read |
| `Regions.RegionWrites` | heightstileset.cpp:111-128 | every write of the region load targets a cell of the output |
| `Regions.WritesOfInTarget` | heightstileset.cpp:119-123 | each write of tiles of the span lands in the output |
| `Regions.WritesOfSource` | heightstileset.cpp:119-123 | each write stores an in-box sample of a tile of the list |
| `Regions.WritesOfHit` | heightstileset.cpp:119-123 | every in-box sample of every tile of the list is written |
| `Regions.Stitched` | heightstileset.cpp:109-128 | the stitched region has `NumPoints` columns and rows |
| `Regions.LoadedIsStitched` | heightstileset.cpp:109-128 | the column-by-column loads from the all-no-data grid give exactly the stitched region |
| `Regions.LoadedIs` | heightstileset.cpp:111-128 | loading the first columns applies their tiles' writes in loop order |
| `Regions.ColumnLoadedIs` | heightstileset.cpp:112-127 | loading the first tiles of a column applies their writes in order |
| `Regions.LoadedNext` | heightstileset.cpp:111 | one more column applies that column's writes |
| `Regions.TilesBeforeNext` | heightstileset.cpp:111-112 | the writes of the first columns split at the last column |
| `Regions.Apply` | heightstileset.cpp:123 | writes keep every row's length |
| `Regions.ApplyLastWrite` | heightstileset.cpp:123 | a cell holds the value of the last write to it, or its old value when none targets it |
| `Regions.ApplyAppend` | heightstileset.cpp:111-128 | applying two write lists in turn is applying their concatenation |
| `Regions.StitchedCell` | heightstileset.cpp:109-123 | every output cell is either still `hNoValue` with no write to it, or holds the sample of a tile of the range whose in-box position falls in it |
| `Regions.SampleIsWritten` | heightstileset.cpp:111-123 | a cell receiving an in-box sample of a tile of the range is written |
| `Regions.UnwrittenStaysNoValue` | heightstileset.cpp:109-123 | a cell that no in-box sample position falls into stays `hNoValue` |
| `Extremes.BestBound` | heightsgrid.cpp:65-87 | the running extremum is at least as extreme as its start and every element |
| `Extremes.BestWitness` | heightsgrid.cpp:65-87 | the running extremum is the start or the first element reaching it, strict replacement keeping the earliest |
| `Extremes.MeanWithin` | heightstileset.cpp:86 | the mean of values in `[lo, hi]` lies in `[lo, hi]` |
| `Geometry.Trunc` | heightsgrid.cpp:17 | the float-to-int cast truncates toward zero |
| `Geometry.Round` | heightstileset.cpp:105 | `glm::round` rounds halves away from zero |
| `Geometry.FloorBelowCeil` | heightstileset.cpp:106 | the floor of a point in `[0, b)` is below `ceil(b)`: the allocated size bounds the floored index of line 121 |
| `Geometry.TruncAtMostCeil` | heightsgrid.cpp:17 | for a non-negative extent, truncation is at most the ceiling |

## Left out

- `getORS` and `slopeNormalization` are not modelled. They compute `atan`, `log`, `pow` and `sqrt` on doubles, which is transcendental floating point.
- Floating point:
  - Heights and coordinates are reals, so rounding, overflow, infinities and NaN are not modelled.
  - The statistics sums, kept in `double` in the source, are reals too.
  - Integer products such as `sx*sy*sizeof(float)` are unbounded integers.
- `HeightsGrids.HeightsGrid.GetRadialStatistics`: returns the accumulators (`hmin`, `hmax`, the sum, the sum of squares, `N`) instead of `hmean` and `hdev`. The final division and square root are float operations: NaN for `N = 0`, and a division by zero in the deviation for `N = 1`. The mean is bounded only when `N > 0`.
- The isolation square root is a parameter. `Isolation.TopIndex` pops an entry that no other entry exceeds. Nearest-first visiting order is not proved, and nothing proved depends on the key values.
- The radial statistics test `distance <= rad` as `rad >= 0 && d^2 <= rad^2`, which `Radial.InRadiusIsDistanceTest` shows to be the same test.
- Descriptor parsing (`ifstream >>`) is I/O. The constructor takes the parsed values, and a descriptor that fails to open, leaving the fields unset, is not modelled. The descriptor must have a positive sample count and a non-zero cell size.
- The binary tile read is I/O, and the file system is a map from path to tile contents. A file whose header disagrees with its length, or whose samples overflow the buffer, is excluded by the `Fits` precondition; in C++ it reads garbage or writes past the buffer.
- The `std::cerr` message for a missing tile is not modelled.
- The destructor's `delete[]` is not modelled; Dafny memory is managed.
- `protected`/`public` visibility is not modelled. `ReadTile` is a method like the others, and the model has no access control.
- Several preconditions exclude inputs on which the C++ code has undefined behaviour:
  - `WellFormed` (samples for every cell of `gridSize`, and a positive cell size) and `HasFirstSample` (the scan reads `grid[0][0]`) exclude out-of-range vector reads.
  - The `XY` overloads require the point's cell to be in the grid.
  - `Loadable` requires a rounded reduce factor of at least 1; otherwise the integer divisions divide by zero. It also requires each existing tile file to hold at least `outPPtile` samples per axis after downsampling.
  - `Request.Valid` requires a positive output cell size and a non-inverted box.
  - The `HeightsGrid` constructor requires a non-zero cell size.
- `Rasters.Raster.WellFormed` asks for a positive cell size, which is more than the source needs: the mesh and the min/max scan are defined for any cell size, and the statistics and the isolation for any non-zero one. Every grid the program builds has a positive cell size, since `loadRegion` takes it from a request with a positive output cell size.
- `HeightsGrids.HeightsGrid.GetIsolation`: takes its arguments packed in a `Query`, so the defaults of the 3D overload (`minIsoArea = 0`, `hOffset = 0`, heightsgrid.h) are not carried by it; `GetIsolationXY` carries its own overload's defaults.
- When `minDist` is negative and no cell qualifies, the source returns 0 rather than -1, because the unmoved query point passes `dres > minDist`. The model keeps this, and `Isolation.NothingQualifiesNegativeMinDist` states it.
- `numTiles` is computed by the constructor and exposed through `GetTilesetExtension`'s contract; the source never reads it.
- loaderply, utils.h, mainwindow and terrainviewer are not part of this model. They hold file export, GUI and OpenGL code.
