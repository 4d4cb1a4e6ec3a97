/**
 * Planar points and distances. Python compares Euclidean distances
 * `sqrt(dx**2 + dy**2)`; since the square root is strictly monotone on
 * non-negative reals, the model compares squared distances instead and
 * represents the `1e1000` / `np.inf` start value as `Infinite`.
 */
module Geometry {

  datatype Point = Point(x: real, y: real)

  /** Squared Euclidean distance between two points. */
  function SqDist(a: Point, b: Point): (d: real)
    ensures d >= 0.0
  {
    (a.x - b.x) * (a.x - b.x) + (a.y - b.y) * (a.y - b.y)
  }

  /** A squared distance, or the infinite distance a search starts from. */
  datatype Dist = Finite(sq: real) | Infinite

  /** Strict `<` on distances, with every finite distance below infinity. */
  predicate Less(a: Dist, b: Dist)
  {
    match (a, b)
    case (Finite(p), Finite(q)) => p < q
    case (Finite(_), Infinite) => true
    case (Infinite, _) => false
  }

  /** The smaller of two distances, as Python's `min(a, b)`. */
  function Min(a: Dist, b: Dist): (r: Dist)
    ensures r == a || r == b
    ensures !Less(a, r) && !Less(b, r)
  {
    if Less(a, b) then a else b
  }

  /**
   * `sqrt(d) <= radius` for a squared distance `d`: no point is within a negative
   * radius, and nothing is within a finite radius of infinity.
   */
  predicate Within(d: Dist, radius: real)
  {
    d.Finite? && radius >= 0.0 && d.sq <= radius * radius
  }
}
