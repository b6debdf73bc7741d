// Shared value types: an optional value (JavaScript's `undefined`) and a point
// of the town's coordinate space.
module Common {

  /** A value that may be absent, as an optional property of a record. */
  datatype Option<T> = None | Some(value: T)

  /** A position or vector in town coordinates (pixels). */
  datatype Point = Point(x: real, y: real)

  /** Squared Euclidean length of the vector (dx, dy). */
  function SquaredLength(dx: real, dy: real): (d: real)
    ensures d >= 0.0
  {
    dx * dx + dy * dy
  }

  /**
   * `Math.sqrt(dx*dx + dy*dy) < limit` for a non-negative limit, decided on
   * squares so that no square root is needed.
   */
  predicate Closer(from: Point, to: Point, limit: real)
    requires limit >= 0.0
  {
    SquaredLength(to.x - from.x, to.y - from.y) < limit * limit
  }
}
