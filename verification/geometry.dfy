/**
 * Planar vectors and the scalar conversions the height-map code applies to
 * them. Coordinates and heights are modelled as reals; the integer casts of
 * glm (`glm::ivec2(v)`), `glm::floor`, `glm::ceil` and `glm::round` are given
 * their exact meaning on reals.
 */
module Geometry {

  datatype Vec2 = Vec2(x: real, y: real)
  datatype Vec3 = Vec3(x: real, y: real, z: real)
  datatype IVec2 = IVec2(x: int, y: int)

  /** `a` comes before `b` in a column-major scan: by column, then by row. */
  predicate ScanBefore(a: IVec2, b: IVec2)
  {
    a.x < b.x || (a.x == b.x && a.y < b.y)
  }

  /** The planar part of a point, as `glm::vec2(p)` takes it. */
  function XY(p: Vec3): Vec2 { Vec2(p.x, p.y) }

  /** Squared Euclidean distance between two planar points. */
  function DistSq(a: Vec2, b: Vec2): real
  {
    (a.x - b.x) * (a.x - b.x) + (a.y - b.y) * (a.y - b.y)
  }

  /** A float-to-int conversion in C++: truncation toward zero. */
  function Trunc(v: real): (n: int)
    ensures v >= 0.0 ==> n as real <= v < n as real + 1.0
    ensures v < 0.0 ==> n as real - 1.0 < v <= n as real
  {
    if v >= 0.0 then v.Floor else -((-v).Floor)
  }

  /** `floor`: the largest integer not above `v`. */
  function Floor(v: real): (n: int)
    ensures n as real <= v < n as real + 1.0
  {
    v.Floor
  }

  /** `ceil`: the smallest integer not below `v`. */
  function Ceil(v: real): (n: int)
    ensures n as real - 1.0 < v <= n as real
  {
    -((-v).Floor)
  }

  /** `round`: nearest integer, halves rounded away from zero. */
  function Round(v: real): (n: int)
    ensures v >= 0.0 ==> n as real - 0.5 <= v < n as real + 0.5
    ensures v < 0.0 ==> n as real - 0.5 < v <= n as real + 0.5
  {
    if v >= 0.0 then (v + 0.5).Floor else -((-v + 0.5).Floor)
  }

  function MaxInt(a: int, b: int): int { if a < b then b else a }
  function MinInt(a: int, b: int): int { if b < a then b else a }

  /** On a non-negative value the C++ cast and `floor` agree. */
  lemma TruncIsFloorWhenNonNegative(v: real)
    requires v >= 0.0
    ensures Trunc(v) == Floor(v)
  {
  }

  /**
   * For a non-negative extent, the truncated cell count never exceeds the
   * rounded-up one.
   */
  lemma TruncAtMostCeil(v: real)
    requires v >= 0.0
    ensures 0 <= Trunc(v) <= Ceil(v)
  {
  }

  /**
   * The floor of a point strictly inside `[0, b)` is a valid index into an
   * array of `ceil(b)` entries.
   */
  lemma FloorBelowCeil(a: real, b: real)
    requires 0.0 <= a < b
    ensures 0 <= Floor(a) < Ceil(b)
  {
  }

  /** Rounding an integral value gives that value back. */
  lemma RoundOfInteger(n: int)
    ensures Round(n as real) == n
  {
  }
}
