/**
 * The triangulated surface of a height grid: one vertex per data cell, in
 * column-major scan order, and up to two triangles per 2x2 block of cells,
 * chosen by which of the block's corners carry data.
 *
 * `base` is the number of vertices the output list already held when the
 * mesh was appended to it: vertex ids continue from there.
 */
module Mesh {
  import opened Geometry
  import opened Rasters
  import opened Sequences

  /** Three vertex ids, in the winding the surface is emitted with. */
  datatype Tri = Tri(a: int, b: int, c: int)

  /** The vertex of cell `(x, y)`: its corner position and its height. */
  function VertexOf(r: Raster, x: int, y: int): Vec3
    requires r.WellFormed() && r.Has(x, y)
  {
    Vec3((x as real) * r.res.x + r.origin.x, (y as real) * r.res.y + r.origin.y, r.cells[x][y])
  }

  /** Vertices of the data cells `(x, 0)`, ..., `(x, y - 1)`. */
  function ColumnVerts(r: Raster, x: int, y: int): seq<Vec3>
    requires r.WellFormed() && 0 <= x < r.size.x && 0 <= y <= r.size.y
    decreases y
  {
    if y == 0 then []
    else ColumnVerts(r, x, y - 1) + (if r.IsData(x, y - 1) then [VertexOf(r, x, y - 1)] else [])
  }

  /** Vertices of the data cells in columns `0`, ..., `x - 1`. */
  function VertsBefore(r: Raster, x: int): seq<Vec3>
    requires r.WellFormed() && 0 <= x <= r.size.x
    decreases x
  {
    if x == 0 then [] else VertsBefore(r, x - 1) + ColumnVerts(r, x - 1, r.size.y)
  }

  /** All vertices the surface adds, in scan order. */
  function MeshVertices(r: Raster): seq<Vec3>
    requires r.WellFormed()
  {
    VertsBefore(r, r.size.x)
  }

  /**
   * The id given to cell `(x, y)`: the vertex count when it was pushed for a
   * data cell, and -1 for a no-data cell.
   */
  function VertexId(r: Raster, base: nat, x: int, y: int): int
    requires r.WellFormed() && r.Has(x, y)
  {
    if r.IsData(x, y) then base + |VertsBefore(r, x)| + |ColumnVerts(r, x, y)| else -1
  }

  /** Number of corners of a block that carry data (a non-negative id). */
  function NumValid(v00: int, v01: int, v10: int, v11: int): nat
  {
    (if v00 >= 0 then 1 else 0) + (if v01 >= 0 then 1 else 0) +
    (if v10 >= 0 then 1 else 0) + (if v11 >= 0 then 1 else 0)
  }

  /** `v` is the id of a corner of the block that carries data. */
  predicate IsValidCorner(v: int, v00: int, v01: int, v10: int, v11: int)
  {
    v >= 0 && (v == v00 || v == v01 || v == v10 || v == v11)
  }

  /**
   * The triangles of one 2x2 block with corner ids `v00 = (x, y)`,
   * `v01 = (x, y + 1)`, `v10 = (x + 1, y)` and `v11 = (x + 1, y + 1)`, a
   * negative id marking a corner without data.
   */
  function BlockTris(v00: int, v01: int, v10: int, v11: int): (ts: seq<Tri>)
    ensures NumValid(v00, v01, v10, v11) == 4 ==> ts == [Tri(v00, v10, v01), Tri(v01, v10, v11)]
    ensures NumValid(v00, v01, v10, v11) == 3 && v01 < 0 ==> ts == [Tri(v00, v10, v11)]
    ensures NumValid(v00, v01, v10, v11) == 3 && v10 < 0 ==> ts == [Tri(v00, v11, v01)]
    ensures NumValid(v00, v01, v10, v11) == 3 && v11 < 0 ==> ts == [Tri(v00, v10, v01)]
    ensures NumValid(v00, v01, v10, v11) == 3 && v00 < 0 ==> ts == [Tri(v01, v10, v11)]
    ensures NumValid(v00, v01, v10, v11) <= 2 ==> ts == []
    ensures forall t :: t in ts ==>
              && IsValidCorner(t.a, v00, v01, v10, v11)
              && IsValidCorner(t.b, v00, v01, v10, v11)
              && IsValidCorner(t.c, v00, v01, v10, v11)
  {
    if v00 >= 0 && v01 >= 0 && v10 >= 0 && v11 >= 0 then
      [Tri(v00, v10, v01), Tri(v01, v10, v11)]
    else if v00 >= 0 && v10 >= 0 && v11 >= 0 then
      [Tri(v00, v10, v11)]
    else if v00 >= 0 && v11 >= 0 && v01 >= 0 then
      [Tri(v00, v11, v01)]
    else if v00 >= 0 && v10 >= 0 && v01 >= 0 then
      [Tri(v00, v10, v01)]
    else if v01 >= 0 && v10 >= 0 && v11 >= 0 then
      [Tri(v01, v10, v11)]
    else
      []
  }

  /**
   * Offset within the block of the corner carrying id `v`: `(0, 0)` for
   * `v00`, `(1, 0)` for `v10`, `(0, 1)` for `v01` and `(1, 1)` for `v11`.
   */
  function CornerOffset(v: int, v00: int, v01: int, v10: int, v11: int): IVec2
  {
    if v == v00 then IVec2(0, 0)
    else if v == v10 then IVec2(1, 0)
    else if v == v01 then IVec2(0, 1)
    else IVec2(1, 1)
  }

  /** Twice the signed area of the triangle `a, b, c`: positive when counter-clockwise. */
  function Orientation(a: IVec2, b: IVec2, c: IVec2): int
  {
    (b.x - a.x) * (c.y - a.y) - (b.y - a.y) * (c.x - a.x)
  }

  /** Data corners of a block carry distinct ids, as the vertex pass assigns them. */
  predicate DistinctCorners(v00: int, v01: int, v10: int, v11: int)
  {
    (v00 >= 0 ==> v00 != v01 && v00 != v10 && v00 != v11) &&
    (v01 >= 0 ==> v01 != v10 && v01 != v11) &&
    (v10 >= 0 ==> v10 != v11)
  }

  /**
   * Every triangle of a block, two or one, has the same winding: its
   * corners run counter-clockwise in cell coordinates.
   */
  lemma BlockTrisWinding(v00: int, v01: int, v10: int, v11: int)
    requires DistinctCorners(v00, v01, v10, v11)
    ensures forall t :: t in BlockTris(v00, v01, v10, v11) ==>
              Orientation(CornerOffset(t.a, v00, v01, v10, v11),
                          CornerOffset(t.b, v00, v01, v10, v11),
                          CornerOffset(t.c, v00, v01, v10, v11)) > 0
  {
    forall t | t in BlockTris(v00, v01, v10, v11)
      ensures Orientation(CornerOffset(t.a, v00, v01, v10, v11),
                          CornerOffset(t.b, v00, v01, v10, v11),
                          CornerOffset(t.c, v00, v01, v10, v11)) > 0
    {
      var a := CornerOffset(t.a, v00, v01, v10, v11);
      var b := CornerOffset(t.b, v00, v01, v10, v11);
      var c := CornerOffset(t.c, v00, v01, v10, v11);
      if t == Tri(v00, v10, v01) {
        assert a == IVec2(0, 0) && b == IVec2(1, 0) && c == IVec2(0, 1);
      } else if t == Tri(v01, v10, v11) {
        assert a == IVec2(0, 1) && b == IVec2(1, 0) && c == IVec2(1, 1);
      } else if t == Tri(v00, v10, v11) {
        assert a == IVec2(0, 0) && b == IVec2(1, 0) && c == IVec2(1, 1);
      } else {
        assert t == Tri(v00, v11, v01);
        assert a == IVec2(0, 0) && b == IVec2(1, 1) && c == IVec2(0, 1);
      }
    }
  }

  /** Number of block columns (and rows) the triangle loops visit. */
  function BlocksX(r: Raster): nat { if r.size.x >= 1 then r.size.x - 1 else 0 }
  function BlocksY(r: Raster): nat { if r.size.y >= 1 then r.size.y - 1 else 0 }

  /** Triangles of the block whose lowest corner is `(x, y)`. */
  function BlockAt(r: Raster, base: nat, x: int, y: int): seq<Tri>
    requires r.WellFormed() && 0 <= x < BlocksX(r) && 0 <= y < BlocksY(r)
  {
    BlockTris(VertexId(r, base, x, y), VertexId(r, base, x, y + 1),
              VertexId(r, base, x + 1, y), VertexId(r, base, x + 1, y + 1))
  }

  /** Triangles of blocks `(x, 0)`, ..., `(x, y - 1)`. */
  function ColumnTris(r: Raster, base: nat, x: int, y: int): seq<Tri>
    requires r.WellFormed() && 0 <= x < BlocksX(r) && 0 <= y <= BlocksY(r)
    decreases y
  {
    if y == 0 then [] else ColumnTris(r, base, x, y - 1) + BlockAt(r, base, x, y - 1)
  }

  /** Triangles of the blocks in block columns `0`, ..., `x - 1`. */
  function TrisBefore(r: Raster, base: nat, x: int): seq<Tri>
    requires r.WellFormed() && 0 <= x <= BlocksX(r)
    decreases x
  {
    if x == 0 then [] else TrisBefore(r, base, x - 1) + ColumnTris(r, base, x - 1, BlocksY(r))
  }

  /** All triangles the surface adds, in scan order of the blocks. */
  function MeshTriangles(r: Raster, base: nat): seq<Tri>
    requires r.WellFormed()
  {
    TrisBefore(r, base, BlocksX(r))
  }

  /**
   * The triangle pass: for every 2x2 block, in column-major order, pushes
   * the triangles its corner ids call for.
   */
  method BuildTriangles(r: Raster, vtxId: array2<int>, base: nat, tris0: seq<Tri>) returns (tris: seq<Tri>)
    requires r.WellFormed()
    requires vtxId.Length0 == r.size.x && vtxId.Length1 == r.size.y
    requires forall i, j :: 0 <= i < r.size.x && 0 <= j < r.size.y ==>
               vtxId[i, j] == VertexId(r, base, i, j)
    ensures tris == tris0 + MeshTriangles(r, base)
  {
    tris := tris0;
    var x := 0;
    while x < r.size.x - 1
      invariant 0 <= x <= BlocksX(r)
      invariant tris == tris0 + TrisBefore(r, base, x)
    {
      AppendAssoc(tris0, TrisBefore(r, base, x), ColumnTris(r, base, x, BlocksY(r)));
      tris := BuildColumnTriangles(r, vtxId, base, x, tris);
      x := x + 1;
    }
  }

  /** The blocks `(x, 0)`, ..., `(x, r.size.y - 2)` of one block column. */
  method BuildColumnTriangles(r: Raster, vtxId: array2<int>, base: nat, x: int, tris0: seq<Tri>) returns (tris: seq<Tri>)
    requires r.WellFormed() && 0 <= x < BlocksX(r)
    requires vtxId.Length0 == r.size.x && vtxId.Length1 == r.size.y
    requires forall i, j :: 0 <= i < r.size.x && 0 <= j < r.size.y ==>
               vtxId[i, j] == VertexId(r, base, i, j)
    ensures tris == tris0 + ColumnTris(r, base, x, BlocksY(r))
  {
    tris := tris0;
    var y := 0;
    assert tris0 + ColumnTris(r, base, x, 0) == tris0;
    while y < r.size.y - 1
      invariant 0 <= y <= BlocksY(r)
      invariant tris == tris0 + ColumnTris(r, base, x, y)
    {
      var v00 := vtxId[x, y];
      var v01 := vtxId[x, y + 1];
      var v10 := vtxId[x + 1, y];
      var v11 := vtxId[x + 1, y + 1];
      AppendAssoc(tris0, ColumnTris(r, base, x, y), BlockAt(r, base, x, y));
      tris := tris + BlockTris(v00, v01, v10, v11);
      y := y + 1;
    }
  }

  // ---------------------------------------------------------------------
  // Vertices: one per data cell, at the position its id says.

  lemma {:induction false} ColumnVertsPrefix(r: Raster, x: int, y: int, y': int)
    requires r.WellFormed() && 0 <= x < r.size.x && 0 <= y <= y' <= r.size.y
    ensures ColumnVerts(r, x, y) <= ColumnVerts(r, x, y')
    decreases y' - y
  {
    if y < y' {
      ColumnVertsPrefix(r, x, y, y' - 1);
    }
  }

  lemma {:induction false} VertsBeforePrefix(r: Raster, x: int, x': int)
    requires r.WellFormed() && 0 <= x <= x' <= r.size.x
    ensures VertsBefore(r, x) <= VertsBefore(r, x')
    decreases x' - x
  {
    if x < x' {
      VertsBeforePrefix(r, x, x' - 1);
    }
  }

  /**
   * A data cell's id indexes the output vertex list at the vertex of that
   * cell: its position `origin + (x, y) * res` and its height.
   */
  lemma VertexIdSound(r: Raster, base: nat, x: int, y: int)
    requires r.WellFormed() && r.Has(x, y) && r.IsData(x, y)
    ensures base <= VertexId(r, base, x, y) < base + |MeshVertices(r)|
    ensures MeshVertices(r)[VertexId(r, base, x, y) - base] == VertexOf(r, x, y)
  {
    var k := |VertsBefore(r, x)| + |ColumnVerts(r, x, y)|;
    ColumnVertsPrefix(r, x, y + 1, r.size.y);
    assert ColumnVerts(r, x, y + 1) == ColumnVerts(r, x, y) + [VertexOf(r, x, y)];
    assert ColumnVerts(r, x, r.size.y)[|ColumnVerts(r, x, y)|] == VertexOf(r, x, y);
    assert VertsBefore(r, x + 1)[k] == VertexOf(r, x, y);
    VertsBeforePrefix(r, x + 1, r.size.x);
  }

  /** Ids grow strictly along the scan order, so distinct data cells get distinct ids. */
  lemma VertexIdIncreasing(r: Raster, base: nat, x: int, y: int, x': int, y': int)
    requires r.WellFormed() && r.Has(x, y) && r.Has(x', y')
    requires r.IsData(x, y) && r.IsData(x', y')
    requires x < x' || (x == x' && y < y')
    ensures VertexId(r, base, x, y) < VertexId(r, base, x', y')
  {
    assert ColumnVerts(r, x, y + 1) == ColumnVerts(r, x, y) + [VertexOf(r, x, y)];
    if x == x' {
      ColumnVertsPrefix(r, x, y + 1, y');
    } else {
      ColumnVertsPrefix(r, x, y + 1, r.size.y);
      VertsBeforePrefix(r, x + 1, x');
    }
  }

  lemma VertexIdInjective(r: Raster, base: nat, x: int, y: int, x': int, y': int)
    requires r.WellFormed() && r.Has(x, y) && r.Has(x', y')
    requires r.IsData(x, y) && r.IsData(x', y')
    requires VertexId(r, base, x, y) == VertexId(r, base, x', y')
    ensures x == x' && y == y'
  {
    if x < x' || (x == x' && y < y') {
      VertexIdIncreasing(r, base, x, y, x', y');
    } else if x' < x || (x == x' && y' < y) {
      VertexIdIncreasing(r, base, x', y', x, y);
    }
  }

  lemma {:induction false} ColumnVertsSource(r: Raster, x: int, y: int, k: int) returns (y': int)
    requires r.WellFormed() && 0 <= x < r.size.x && 0 <= y <= r.size.y
    requires 0 <= k < |ColumnVerts(r, x, y)|
    ensures 0 <= y' < y && r.IsData(x, y') && |ColumnVerts(r, x, y')| == k
    decreases y
  {
    if k < |ColumnVerts(r, x, y - 1)| {
      y' := ColumnVertsSource(r, x, y - 1, k);
    } else {
      y' := y - 1;
    }
  }

  lemma {:induction false} VertsBeforeSource(r: Raster, x: int, k: int) returns (x': int, y': int)
    requires r.WellFormed() && 0 <= x <= r.size.x
    requires 0 <= k < |VertsBefore(r, x)|
    ensures 0 <= x' < x && r.Has(x', y') && r.IsData(x', y')
    ensures |VertsBefore(r, x')| + |ColumnVerts(r, x', y')| == k
    decreases x
  {
    if k < |VertsBefore(r, x - 1)| {
      x', y' := VertsBeforeSource(r, x - 1, k);
    } else {
      x' := x - 1;
      y' := ColumnVertsSource(r, x - 1, r.size.y, k - |VertsBefore(r, x - 1)|);
    }
  }

  /** Every emitted vertex belongs to a data cell whose id it carries. */
  lemma VertexSource(r: Raster, base: nat, k: int) returns (x: int, y: int)
    requires r.WellFormed() && 0 <= k < |MeshVertices(r)|
    ensures r.Has(x, y) && r.IsData(x, y) && VertexId(r, base, x, y) == base + k
  {
    x, y := VertsBeforeSource(r, r.size.x, k);
  }

  // ---------------------------------------------------------------------
  // Triangles: every index refers to an emitted vertex; at most two per block.

  predicate IndexesIn(t: Tri, lo: int, hi: int)
  {
    lo <= t.a < hi && lo <= t.b < hi && lo <= t.c < hi
  }

  /** A non-negative id is the id of a data cell, hence an emitted vertex. */
  lemma IdInRange(r: Raster, base: nat, x: int, y: int)
    requires r.WellFormed() && r.Has(x, y) && VertexId(r, base, x, y) >= 0
    ensures base <= VertexId(r, base, x, y) < base + |MeshVertices(r)|
  {
    VertexIdSound(r, base, x, y);
  }

  lemma BlockIndexesValid(r: Raster, base: nat, x: int, y: int)
    requires r.WellFormed() && 0 <= x < BlocksX(r) && 0 <= y < BlocksY(r)
    ensures forall t :: t in BlockAt(r, base, x, y) ==> IndexesIn(t, base, base + |MeshVertices(r)|)
  {
    var v00, v01 := VertexId(r, base, x, y), VertexId(r, base, x, y + 1);
    var v10, v11 := VertexId(r, base, x + 1, y), VertexId(r, base, x + 1, y + 1);
    var hi := base + |MeshVertices(r)|;
    if v00 >= 0 { IdInRange(r, base, x, y); }
    if v01 >= 0 { IdInRange(r, base, x, y + 1); }
    if v10 >= 0 { IdInRange(r, base, x + 1, y); }
    if v11 >= 0 { IdInRange(r, base, x + 1, y + 1); }
  }

  lemma {:induction false} ColumnTrisValid(r: Raster, base: nat, x: int, y: int)
    requires r.WellFormed() && 0 <= x < BlocksX(r) && 0 <= y <= BlocksY(r)
    ensures forall t :: t in ColumnTris(r, base, x, y) ==> IndexesIn(t, base, base + |MeshVertices(r)|)
    decreases y
  {
    if y > 0 {
      ColumnTrisValid(r, base, x, y - 1);
      BlockIndexesValid(r, base, x, y - 1);
    }
  }

  lemma {:induction false} TrisBeforeValid(r: Raster, base: nat, x: int)
    requires r.WellFormed() && 0 <= x <= BlocksX(r)
    ensures forall t :: t in TrisBefore(r, base, x) ==> IndexesIn(t, base, base + |MeshVertices(r)|)
    decreases x
  {
    if x > 0 {
      var hi := base + |MeshVertices(r)|;
      var prev, col := TrisBefore(r, base, x - 1), ColumnTris(r, base, x - 1, BlocksY(r));
      assert TrisBefore(r, base, x) == prev + col;
      TrisBeforeValid(r, base, x - 1);
      ColumnTrisValid(r, base, x - 1, BlocksY(r));
      forall t | t in prev + col ensures IndexesIn(t, base, hi) {
        if t in prev { } else { assert t in col; }
      }
    }
  }

  /** Every triangle index refers to a vertex the surface emitted. */
  lemma TrianglesReferToVertices(r: Raster, base: nat)
    requires r.WellFormed()
    ensures forall t :: t in MeshTriangles(r, base) ==> IndexesIn(t, base, base + |MeshVertices(r)|)
  {
    TrisBeforeValid(r, base, BlocksX(r));
  }

  lemma {:induction false} ColumnTrisCount(r: Raster, base: nat, x: int, y: int)
    requires r.WellFormed() && 0 <= x < BlocksX(r) && 0 <= y <= BlocksY(r)
    ensures |ColumnTris(r, base, x, y)| <= 2 * y
    decreases y
  {
    if y > 0 {
      ColumnTrisCount(r, base, x, y - 1);
    }
  }

  lemma {:induction false} TrisBeforeCount(r: Raster, base: nat, x: int)
    requires r.WellFormed() && 0 <= x <= BlocksX(r)
    ensures |TrisBefore(r, base, x)| <= 2 * x * BlocksY(r)
    decreases x
  {
    if x > 0 {
      var b := BlocksY(r);
      var prev, col := TrisBefore(r, base, x - 1), ColumnTris(r, base, x - 1, b);
      assert TrisBefore(r, base, x) == prev + col;
      TrisBeforeCount(r, base, x - 1);
      ColumnTrisCount(r, base, x - 1, b);
      assert |prev + col| <= 2 * (x - 1) * b + 2 * b;
      MulStep(x, b);
    }
  }

  lemma MulStep(x: int, b: int)
    ensures 2 * (x - 1) * b + 2 * b == 2 * x * b
  {
  }

  /** At most two triangles per block: `2 * (sx - 1) * (sy - 1)` in all. */
  lemma TriangleCountBound(r: Raster, base: nat)
    requires r.WellFormed()
    ensures |MeshTriangles(r, base)| <= 2 * BlocksX(r) * BlocksY(r)
  {
    TrisBeforeCount(r, base, BlocksX(r));
  }
}
