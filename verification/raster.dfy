/**
 * The value a height grid holds once constructed: the samples, indexed
 * `[column][row]`, the world position of sample (0,0), the cell size, the
 * number of columns and rows the queries use, and the no-data sentinel.
 */
module Rasters {
  import opened Geometry

  datatype Raster = Raster(cells: seq<seq<real>>, origin: Vec2, res: Vec2, size: IVec2, noValue: real)
  {
    /**
     * Positive cell size, a non-negative size, and samples for every
     * `(i, j)` with `0 <= i < size.x`, `0 <= j < size.y`.
     */
    predicate WellFormed()
    {
      res.x > 0.0 && res.y > 0.0 &&
      0 <= size.x <= |cells| && 0 <= size.y &&
      forall i :: 0 <= i < size.x ==> size.y <= |cells[i]|
    }

    predicate Has(i: int, j: int)
    {
      0 <= i < size.x && 0 <= j < size.y
    }

    predicate InGrid(c: IVec2)
    {
      Has(c.x, c.y)
    }

    /** A sample is data when it lies strictly above the sentinel. */
    predicate IsData(i: int, j: int)
      requires WellFormed() && Has(i, j)
    {
      cells[i][j] > noValue
    }

    /** World position of the corner of cell `(i, j)`: `origin + (i, j) * res`. */
    function Corner(i: int, j: int): Vec2
    {
      Vec2(origin.x + (i as real) * res.x, origin.y + (j as real) * res.y)
    }

    /** World position of the centre of cell `(i, j)`. */
    function Centre(i: int, j: int): Vec2
    {
      Vec2(origin.x + (i as real + 0.5) * res.x, origin.y + (j as real + 0.5) * res.y)
    }

    /** The cell a world point falls in: `ivec2((p - origin) / res)`. */
    function CellOf(p: Vec2): IVec2
      requires res.x != 0.0 && res.y != 0.0
    {
      IVec2(Trunc((p.x - origin.x) / res.x), Trunc((p.y - origin.y) / res.y))
    }

    /** Area of one cell. */
    function CellArea(): real
    {
      res.x * res.y
    }
  }
}
