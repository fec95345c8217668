/**
 * Points, the shared tolerance, and the parts of the C math library the
 * intersection engine calls.  Coordinates are exact reals: rounding is not
 * modelled.
 */
module Geometry {

  /** A point of the sketch plane; the solvers also use it as a 2D vector. */
  datatype Point2D = Point2D(x: real, y: real)

  /** The slack of every containment and degeneracy test (`epsilon`, 1e-9). */
  const Epsilon: real := 0.000000001

  function Abs(v: real): real {
    if v < 0.0 then -v else v
  }

  function Max(a: real, b: real): real {
    if a < b then b else a
  }

  /** p - q, as a vector. */
  function Sub(p: Point2D, q: Point2D): Point2D {
    Point2D(p.x - q.x, p.y - q.y)
  }

  /** The 2D cross product u.x*v.y - u.y*v.x. */
  function Cross(u: Point2D, v: Point2D): real {
    u.x * v.y - u.y * v.x
  }

  function Dot(u: Point2D, v: Point2D): real {
    u.x * v.x + u.y * v.y
  }

  /** Squared distance between two points. */
  function SqDist(p: Point2D, q: Point2D): real {
    Dot(Sub(p, q), Sub(p, q))
  }

  /** The point p1 + t*(p2 - p1) of the line through p1 and p2. */
  function PointAt(p1: Point2D, p2: Point2D, t: real): Point2D {
    Point2D(p1.x + t * (p2.x - p1.x), p1.y + t * (p2.y - p1.y))
  }

  /** A segment parameter within the tolerant range [-eps, 1 + eps]. */
  predicate InTolerantUnit(t: real) {
    0.0 - Epsilon <= t && t <= 1.0 + Epsilon
  }

  /**
   * The math library the engine calls: `std::sqrt`, `std::atan2` and the
   * constant `M_PI`.  Their implementations are not visible, so the model
   * takes them as a parameter and states what it relies on in `Lawful`.
   */
  datatype Libm = Libm(sqrt: real -> real, atan2: (real, real) -> real, pi: real)

  /**
   * The laws of the math library: sqrt is the non-negative square root on
   * non-negative arguments (zero only at zero) and unspecified on negative
   * ones, pi is positive and atan2 ranges over (-pi, pi].
   */
  ghost predicate Lawful(lib: Libm) {
    (forall v :: 0.0 <= v ==> 0.0 <= lib.sqrt(v) && lib.sqrt(v) * lib.sqrt(v) == v) &&
    (forall v :: 0.0 < v ==> 0.0 < lib.sqrt(v)) &&
    lib.sqrt(0.0) == 0.0 &&
    0.0 < lib.pi &&
    (forall y, x :: -lib.pi < lib.atan2(y, x) && lib.atan2(y, x) <= lib.pi)
  }

  /** `std::hypot(x, y)`, as the square root of x*x + y*y. */
  function Hypot(lib: Libm, x: real, y: real): real {
    lib.sqrt(x * x + y * y)
  }

  lemma HypotSquared(lib: Libm, x: real, y: real)
    requires Lawful(lib)
    ensures 0.0 <= Hypot(lib, x, y)
    ensures Hypot(lib, x, y) * Hypot(lib, x, y) == x * x + y * y
  {
    assert 0.0 <= x * x + y * y;
  }
}
