/**
 * The three primitive solvers of the intersection engine.  Each works on
 * raw coordinates and radii, ignores the bounds of arcs, and returns the
 * candidate intersection points in the order the source emits them.
 */
module Solvers {
  import opened Geometry
  import RealAlgebra

  // ---------------------------------------------------------------------
  // Segment against segment: Cramer's rule on the two parametric forms
  // p1 + t*(p2 - p1) and q1 + s*(q2 - q1).
  // ---------------------------------------------------------------------

  /** The determinant of the 2x2 system: the cross product of the two directions. */
  function Det(p1: Point2D, p2: Point2D, q1: Point2D, q2: Point2D): real {
    Cross(Sub(p2, p1), Sub(q2, q1))
  }

  /** The parameter of the crossing along p1 -> p2. */
  function CramerT(p1: Point2D, p2: Point2D, q1: Point2D, q2: Point2D): real
    requires Det(p1, p2, q1, q2) != 0.0
  {
    Cross(Sub(q1, p1), Sub(q2, q1)) / Det(p1, p2, q1, q2)
  }

  /** The parameter of the crossing along q1 -> q2. */
  function CramerS(p1: Point2D, p2: Point2D, q1: Point2D, q2: Point2D): real
    requires Det(p1, p2, q1, q2) != 0.0
  {
    Cross(Sub(q1, p1), Sub(p2, p1)) / Det(p1, p2, q1, q2)
  }

  /**
   * `computeLineLineIntersection`: no point for (nearly) parallel segments,
   * otherwise the crossing if both parameters lie in [-eps, 1 + eps].
   */
  function LineLine(p1: Point2D, p2: Point2D, q1: Point2D, q2: Point2D): (r: seq<Point2D>)
    ensures |r| <= 1
    ensures Abs(Det(p1, p2, q1, q2)) < Epsilon ==> r == []
  {
    if Abs(Det(p1, p2, q1, q2)) < Epsilon then []
    else
      var t := CramerT(p1, p2, q1, q2);
      var s := CramerS(p1, p2, q1, q2);
      if InTolerantUnit(t) && InTolerantUnit(s) then [PointAt(p1, p2, t)] else []
  }

  /** Over exact reals the Cramer solution lies on both lines. */
  lemma CramerPointOnBoth(p1: Point2D, p2: Point2D, q1: Point2D, q2: Point2D)
    requires Det(p1, p2, q1, q2) != 0.0
    ensures PointAt(p1, p2, CramerT(p1, p2, q1, q2)) == PointAt(q1, q2, CramerS(p1, p2, q1, q2))
  {
    var u, v, w := Sub(p2, p1), Sub(q2, q1), Sub(q1, p1);
    RealAlgebra.CramerSolves(u.x, u.y, v.x, v.y, w.x, w.y, Det(p1, p2, q1, q2),
      CramerT(p1, p2, q1, q2), CramerS(p1, p2, q1, q2));
  }

  /**
   * What `computeLineLineIntersection` returns: the segments are not
   * parallel, both parameters are in the tolerant range, and the point is on
   * both lines.
   */
  lemma LineLineMeetsBoth(p1: Point2D, p2: Point2D, q1: Point2D, q2: Point2D)
    requires LineLine(p1, p2, q1, q2) != []
    ensures Abs(Det(p1, p2, q1, q2)) >= Epsilon
    ensures InTolerantUnit(CramerT(p1, p2, q1, q2)) && InTolerantUnit(CramerS(p1, p2, q1, q2))
    ensures LineLine(p1, p2, q1, q2) == [PointAt(p1, p2, CramerT(p1, p2, q1, q2))]
    ensures LineLine(p1, p2, q1, q2) == [PointAt(q1, q2, CramerS(p1, p2, q1, q2))]
  {
    CramerPointOnBoth(p1, p2, q1, q2);
  }

  /**
   * Conversely, a common point of two non-parallel lines whose parameters
   * are both in the tolerant range is exactly what the solver returns.
   */
  lemma LineLineFindsCrossing(p1: Point2D, p2: Point2D, q1: Point2D, q2: Point2D, t: real, s: real)
    requires Abs(Det(p1, p2, q1, q2)) >= Epsilon
    requires InTolerantUnit(t) && InTolerantUnit(s)
    requires PointAt(p1, p2, t) == PointAt(q1, q2, s)
    ensures LineLine(p1, p2, q1, q2) == [PointAt(p1, p2, t)]
  {
    var u, v, w := Sub(p2, p1), Sub(q2, q1), Sub(q1, p1);
    var det := Det(p1, p2, q1, q2);
    assert w.x == t * u.x - s * v.x && w.y == t * u.y - s * v.y;
    RealAlgebra.CramerNumerators(u.x, u.y, v.x, v.y, t, s);
    RealAlgebra.MulThenDiv(t, det);
    RealAlgebra.MulThenDiv(s, det);
    assert CramerT(p1, p2, q1, q2) == t;
    assert CramerS(p1, p2, q1, q2) == s;
  }

  // ---------------------------------------------------------------------
  // Segment against full circle: the quadratic A*t^2 + B*t + C = 0 in the
  // segment parameter t.
  // ---------------------------------------------------------------------

  function QuadA(p1: Point2D, p2: Point2D): real {
    Dot(Sub(p2, p1), Sub(p2, p1))
  }

  function QuadB(p1: Point2D, p2: Point2D, center: Point2D): real {
    2.0 * Dot(Sub(p2, p1), Sub(p1, center))
  }

  function QuadC(p1: Point2D, center: Point2D, radius: real): real {
    Dot(Sub(p1, center), Sub(p1, center)) - radius * radius
  }

  function Discriminant(p1: Point2D, p2: Point2D, center: Point2D, radius: real): real {
    QuadB(p1, p2, center) * QuadB(p1, p2, center) - 4.0 * QuadA(p1, p2) * QuadC(p1, center, radius)
  }

  /** The root taken with +sqrt of the clamped discriminant (`t1`). */
  function Root1(lib: Libm, p1: Point2D, p2: Point2D, center: Point2D, radius: real): real
    requires QuadA(p1, p2) != 0.0
  {
    (-QuadB(p1, p2, center) + lib.sqrt(Max(Discriminant(p1, p2, center, radius), 0.0)))
      / (2.0 * QuadA(p1, p2))
  }

  /** The root taken with -sqrt of the clamped discriminant (`t2`). */
  function Root2(lib: Libm, p1: Point2D, p2: Point2D, center: Point2D, radius: real): real
    requires QuadA(p1, p2) != 0.0
  {
    (-QuadB(p1, p2, center) - lib.sqrt(Max(Discriminant(p1, p2, center, radius), 0.0)))
      / (2.0 * QuadA(p1, p2))
  }

  /**
   * The candidates of `computeLineCircleIntersection`: the t1 point if t1 is
   * in range, then the t2 point if the clamped discriminant exceeds eps and
   * t2 is in range.  A zero-length segment (A == 0) gives no point.
   */
  function LineCircleCandidates(lib: Libm, p1: Point2D, p2: Point2D, center: Point2D, radius: real): (r: seq<Point2D>)
    ensures |r| <= 2
    ensures Discriminant(p1, p2, center, radius) < -Epsilon ==> r == []
    ensures Discriminant(p1, p2, center, radius) <= Epsilon ==> |r| <= 1
  {
    var disc := Discriminant(p1, p2, center, radius);
    if disc < -Epsilon || QuadA(p1, p2) == 0.0 then []
    else
      var t1 := Root1(lib, p1, p2, center, radius);
      var t2 := Root2(lib, p1, p2, center, radius);
      (if InTolerantUnit(t1) then [PointAt(p1, p2, t1)] else []) +
      (if Max(disc, 0.0) > Epsilon && InTolerantUnit(t2) then [PointAt(p1, p2, t2)] else [])
  }

  /** Every line-circle candidate is a point of the segment's line at a parameter in [-eps, 1 + eps]. */
  lemma LineCircleWithinSegment(lib: Libm, p1: Point2D, p2: Point2D, center: Point2D, radius: real)
    ensures forall q :: q in LineCircleCandidates(lib, p1, p2, center, radius) ==>
      exists t :: InTolerantUnit(t) && q == PointAt(p1, p2, t)
  {
    var r := LineCircleCandidates(lib, p1, p2, center, radius);
    if r != [] {
      var t1 := Root1(lib, p1, p2, center, radius);
      var t2 := Root2(lib, p1, p2, center, radius);
      assert forall q :: q in r ==>
        (InTolerantUnit(t1) && q == PointAt(p1, p2, t1)) || (InTolerantUnit(t2) && q == PointAt(p1, p2, t2));
    }
  }

  /**
   * Two candidates come in the order t1 then t2, and t1 lies strictly
   * further along the segment than t2.
   */
  lemma LineCircleOrder(lib: Libm, p1: Point2D, p2: Point2D, center: Point2D, radius: real)
    requires Lawful(lib)
    requires |LineCircleCandidates(lib, p1, p2, center, radius)| == 2
    ensures QuadA(p1, p2) != 0.0
    ensures LineCircleCandidates(lib, p1, p2, center, radius) ==
      [PointAt(p1, p2, Root1(lib, p1, p2, center, radius)), PointAt(p1, p2, Root2(lib, p1, p2, center, radius))]
    ensures Root2(lib, p1, p2, center, radius) < Root1(lib, p1, p2, center, radius)
  {
    var a, b := QuadA(p1, p2), QuadB(p1, p2, center);
    var disc := Max(Discriminant(p1, p2, center, radius), 0.0);
    var sq := lib.sqrt(disc);
    assert 0.0 < sq;
    RealAlgebra.SumOfSquaresNonNegative(p2.x - p1.x, p2.y - p1.y);
    RealAlgebra.DivStrictMono(-b - sq, -b + sq, 2.0 * a);
  }

  /** The squared distance to the center along the line is the quadratic plus r^2. */
  lemma SqDistAlongLine(p1: Point2D, p2: Point2D, center: Point2D, radius: real, t: real)
    ensures SqDist(PointAt(p1, p2, t), center) ==
      QuadA(p1, p2) * t * t + QuadB(p1, p2, center) * t + QuadC(p1, center, radius) + radius * radius
  {
  }

  /** With an exactly non-negative discriminant both roots solve the quadratic. */
  lemma RootsSolveQuadratic(lib: Libm, p1: Point2D, p2: Point2D, center: Point2D, radius: real)
    requires Lawful(lib)
    requires QuadA(p1, p2) != 0.0 && Discriminant(p1, p2, center, radius) >= 0.0
    ensures var t := Root1(lib, p1, p2, center, radius);
      QuadA(p1, p2) * t * t + QuadB(p1, p2, center) * t + QuadC(p1, center, radius) == 0.0
    ensures var t := Root2(lib, p1, p2, center, radius);
      QuadA(p1, p2) * t * t + QuadB(p1, p2, center) * t + QuadC(p1, center, radius) == 0.0
  {
    var a, b, c := QuadA(p1, p2), QuadB(p1, p2, center), QuadC(p1, center, radius);
    var disc := Discriminant(p1, p2, center, radius);
    var sq := lib.sqrt(Max(disc, 0.0));
    assert sq * sq == b * b - 4.0 * a * c;
    RealAlgebra.QuadraticFormula(a, b, c, sq);
  }

  /**
   * When the discriminant is exactly non-negative (no clamping), every
   * candidate lies exactly on the circle.
   */
  lemma LineCircleOnCircle(lib: Libm, p1: Point2D, p2: Point2D, center: Point2D, radius: real)
    requires Lawful(lib)
    requires Discriminant(p1, p2, center, radius) >= 0.0
    ensures forall q :: q in LineCircleCandidates(lib, p1, p2, center, radius) ==>
      SqDist(q, center) == radius * radius
  {
    if QuadA(p1, p2) != 0.0 {
      var t1, t2 := Root1(lib, p1, p2, center, radius), Root2(lib, p1, p2, center, radius);
      RootsSolveQuadratic(lib, p1, p2, center, radius);
      SqDistAlongLine(p1, p2, center, radius, t1);
      SqDistAlongLine(p1, p2, center, radius, t2);
    }
  }

  /**
   * A parameter t whose point lies exactly on the circle is a root of the
   * quadratic, hence t1 or t2, matching the sign of 2At + B; the discriminant
   * is then non-negative.
   */
  lemma CrossingIsRoot(lib: Libm, p1: Point2D, p2: Point2D, center: Point2D, radius: real, t: real)
    requires Lawful(lib)
    requires QuadA(p1, p2) != 0.0
    requires SqDist(PointAt(p1, p2, t), center) == radius * radius
    ensures 0.0 <= Discriminant(p1, p2, center, radius)
    ensures 0.0 <= 2.0 * QuadA(p1, p2) * t + QuadB(p1, p2, center) ==> t == Root1(lib, p1, p2, center, radius)
    ensures 2.0 * QuadA(p1, p2) * t + QuadB(p1, p2, center) < 0.0 ==> t == Root2(lib, p1, p2, center, radius)
  {
    var a, b, c := QuadA(p1, p2), QuadB(p1, p2, center), QuadC(p1, center, radius);
    SqDistAlongLine(p1, p2, center, radius, t);
    RealAlgebra.CompletedSquare(a, b, c, t);
    var disc := Discriminant(p1, p2, center, radius);
    assert Max(disc, 0.0) == disc;
    RealAlgebra.RootIsFormulaRoot(a, b, c, t, lib.sqrt(disc));
  }

  /**
   * Conversely, a point of the segment's line at a parameter t in
   * [-eps, 1 + eps] that lies exactly on the circle is t1 or t2, and it is
   * returned, unless it is the t2 point of a discriminant in (0, eps] that
   * the tangency guard drops.
   */
  lemma LineCircleFindsCrossing(lib: Libm, p1: Point2D, p2: Point2D, center: Point2D, radius: real, t: real)
    requires Lawful(lib)
    requires QuadA(p1, p2) != 0.0
    requires InTolerantUnit(t)
    requires SqDist(PointAt(p1, p2, t), center) == radius * radius
    ensures t == Root1(lib, p1, p2, center, radius) || t == Root2(lib, p1, p2, center, radius)
    ensures PointAt(p1, p2, t) in LineCircleCandidates(lib, p1, p2, center, radius) ||
      (t == Root2(lib, p1, p2, center, radius) && t != Root1(lib, p1, p2, center, radius) &&
       Discriminant(p1, p2, center, radius) <= Epsilon)
  {
    CrossingIsRoot(lib, p1, p2, center, radius, t);
  }

  /** `computeLineCircleIntersection`, building its result by appends. */
  method ComputeLineCircleIntersection(lib: Libm, p1: Point2D, p2: Point2D, center: Point2D, radius: real)
    returns (points: seq<Point2D>)
    ensures points == LineCircleCandidates(lib, p1, p2, center, radius)
  {
    var A := QuadA(p1, p2);
    var B := QuadB(p1, p2, center);

    var discriminant := Discriminant(p1, p2, center, radius);
    if discriminant < -Epsilon {
      return [];
    }
    if A == 0.0 {
      return [];
    }
    discriminant := Max(discriminant, 0.0);

    var t1 := (-B + lib.sqrt(discriminant)) / (2.0 * A);
    var t2 := (-B - lib.sqrt(discriminant)) / (2.0 * A);

    points := [];
    if InTolerantUnit(t1) {
      points := points + [PointAt(p1, p2, t1)];
    }
    if discriminant > Epsilon && InTolerantUnit(t2) {
      points := points + [PointAt(p1, p2, t2)];
    }
  }

  // ---------------------------------------------------------------------
  // Full circle against full circle: the radical-line construction.
  // ---------------------------------------------------------------------

  /** `d`: the distance between the centers. */
  function CenterDistance(lib: Libm, c1: Point2D, c2: Point2D): real {
    Hypot(lib, c2.x - c1.x, c2.y - c1.y)
  }

  /** `a`: the distance from c1 to the radical line, along c1 -> c2. */
  function RadicalOffset(r1: real, r2: real, d: real): real
    requires d != 0.0
  {
    (r1 * r1 - r2 * r2 + d * d) / (2.0 * d)
  }

  /** `h`: the half-length of the common chord (the sqrt is not clamped). */
  function HalfChord(lib: Libm, r1: real, a: real): real {
    lib.sqrt(r1 * r1 - a * a)
  }

  /** `(cx, cy)`: the point a along the center line from c1. */
  function ChordMidpoint(c1: Point2D, c2: Point2D, a: real, d: real): Point2D
    requires d != 0.0
  {
    Point2D(c1.x + a * (c2.x - c1.x) / d, c1.y + a * (c2.y - c1.y) / d)
  }

  /**
   * The chord midpoint m displaced by sign*h along the perpendicular
   * (dy, -dx)/d of the center line: sign 1 gives `p1`, sign -1 gives `p2`.
   */
  function ChordEnd(c1: Point2D, c2: Point2D, m: Point2D, h: real, d: real, sign: real): Point2D
    requires d != 0.0
  {
    Point2D(m.x + sign * h * (c2.y - c1.y) / d, m.y - sign * h * (c2.x - c1.x) / d)
  }

  /** The guard of the circle-circle solver: the circles are too far apart or nested. */
  predicate CirclesApart(d: real, r1: real, r2: real) {
    d > r1 + r2 + Epsilon || d < Abs(r1 - r2) - Epsilon
  }

  /**
   * `computeCircleCircleIntersection`: nothing for separated or nested
   * circles, one point when the half chord is below eps, two otherwise.
   * Coincident centers (d == 0) give no point instead of dividing by zero.
   */
  function CircleCircleCandidates(lib: Libm, c1: Point2D, r1: real, c2: Point2D, r2: real): (r: seq<Point2D>)
    ensures |r| <= 2
    ensures CirclesApart(CenterDistance(lib, c1, c2), r1, r2) ==> r == []
    ensures !CirclesApart(CenterDistance(lib, c1, c2), r1, r2) && CenterDistance(lib, c1, c2) != 0.0 ==> r != []
  {
    var d := CenterDistance(lib, c1, c2);
    if CirclesApart(d, r1, r2) || d == 0.0 then []
    else
      var a := RadicalOffset(r1, r2, d);
      var h := HalfChord(lib, r1, a);
      var m := ChordMidpoint(c1, c2, a, d);
      var p1 := ChordEnd(c1, c2, m, h, d, 1.0);
      var p2 := ChordEnd(c1, c2, m, h, d, -1.0);
      if Abs(h) < Epsilon then [p1] else [p1, p2]
  }

  /** The chord midpoint lies on the center line, a/d of the way from c1 to c2. */
  lemma ChordMidpointOnCenterLine(c1: Point2D, c2: Point2D, a: real, d: real)
    requires d != 0.0
    ensures ChordMidpoint(c1, c2, a, d) == PointAt(c1, c2, a / d)
  {
    RealAlgebra.QuotientScale(a, c2.x - c1.x, d);
    RealAlgebra.QuotientScale(a, c2.y - c1.y, d);
  }

  /**
   * `p1` and `p2` are mirror images about the chord midpoint, and both are
   * displaced from it perpendicularly to the center line.
   */
  lemma ChordEndsMirror(c1: Point2D, c2: Point2D, m: Point2D, h: real, d: real)
    requires d != 0.0
    ensures var p1 := ChordEnd(c1, c2, m, h, d, 1.0);
      var p2 := ChordEnd(c1, c2, m, h, d, -1.0);
      p1.x + p2.x == 2.0 * m.x && p1.y + p2.y == 2.0 * m.y &&
      Dot(Sub(p1, m), Sub(c2, c1)) == 0.0 && Dot(Sub(p2, m), Sub(c2, c1)) == 0.0
  {
    var dx, dy := c2.x - c1.x, c2.y - c1.y;
    RealAlgebra.QuotientSum(1.0 * h * dy, -1.0 * h * dy, d);
    RealAlgebra.QuotientSum(1.0 * h * dx, -1.0 * h * dx, d);
    RealAlgebra.QuotientDot(1.0 * h * dy, -(1.0 * h * dx), dx, dy, d);
    RealAlgebra.QuotientDot(-1.0 * h * dy, -(-1.0 * h * dx), dx, dy, d);
  }

  /**
   * Over exact reals the half chord is a real number whenever the circles
   * meet: |r1 - r2| <= d <= r1 + r2 keeps r1^2 - a^2 non-negative, so `h`
   * is its true square root.
   */
  lemma HalfChordReal(lib: Libm, r1: real, r2: real, d: real)
    requires Lawful(lib)
    requires d != 0.0 && Abs(r1 - r2) <= d <= r1 + r2
    ensures var a := RadicalOffset(r1, r2, d);
      var h := HalfChord(lib, r1, a);
      0.0 <= r1 * r1 - a * a && 0.0 <= h && h * h == r1 * r1 - a * a
  {
    var a := RadicalOffset(r1, r2, d);
    RealAlgebra.DivThenMul(r1 * r1 - r2 * r2 + d * d, 2.0 * d);
    RealAlgebra.RadicalOffsetBound(r1, r2, d, a);
  }

  /** With d == r1 + r2 the radical line passes through c1 + r1 along the center line. */
  lemma TangentOffset(r1: real, r2: real, d: real)
    requires d == r1 + r2 && d != 0.0
    ensures RadicalOffset(r1, r2, d) == r1
  {
    assert r1 * r1 - r2 * r2 + d * d == r1 * (2.0 * d);
    RealAlgebra.MulThenDiv(r1, 2.0 * d);
  }

  /**
   * Externally tangent circles (d == r1 + r2 > 0) meet in exactly one
   * point: the half chord vanishes and the single result is the point r1
   * along the center line.
   */
  lemma ExternalTangency(lib: Libm, c1: Point2D, r1: real, c2: Point2D, r2: real)
    requires Lawful(lib)
    requires 0.0 <= r1 && 0.0 <= r2 && 0.0 < r1 + r2
    requires CenterDistance(lib, c1, c2) == r1 + r2
    ensures CircleCircleCandidates(lib, c1, r1, c2, r2) == [PointAt(c1, c2, r1 / (r1 + r2))]
  {
    var d := CenterDistance(lib, c1, c2);
    TangentOffset(r1, r2, d);
    assert HalfChord(lib, r1, r1) == 0.0;
    ChordMidpointOnCenterLine(c1, c2, r1, d);
  }

  /**
   * A chord end's offset from c1, scaled by d: a along the center line plus
   * sign*h along its perpendicular.
   */
  lemma ChordEndOffset(c1: Point2D, c2: Point2D, a: real, h: real, d: real, sign: real)
    requires d != 0.0
    ensures var p := ChordEnd(c1, c2, ChordMidpoint(c1, c2, a, d), h, d, sign);
      (p.x - c1.x) * d == a * (c2.x - c1.x) + sign * h * (c2.y - c1.y) &&
      (p.y - c1.y) * d == a * (c2.y - c1.y) - sign * h * (c2.x - c1.x)
  {
    var dx, dy := c2.x - c1.x, c2.y - c1.y;
    RealAlgebra.QuotientSum(a * dx, sign * h * dy, d);
    RealAlgebra.QuotientSum(a * dy, sign * h * dx, d);
    RealAlgebra.DivThenMul(a * dx + sign * h * dy, d);
    RealAlgebra.DivThenMul(a * dy - sign * h * dx, d);
  }

  /**
   * With the relations the solver's d, a and h satisfy over exact reals
   * (d^2 = |c2 - c1|^2, 2 d a = r1^2 - r2^2 + d^2, h^2 = r1^2 - a^2), a
   * chord end is at distance r1 from c1 and r2 from c2.
   */
  lemma ChordEndDistances(c1: Point2D, r1: real, c2: Point2D, r2: real, d: real, a: real, h: real, sign: real)
    requires d != 0.0 && d * d == SqDist(c2, c1)
    requires 2.0 * d * a == r1 * r1 - r2 * r2 + d * d
    requires h * h == r1 * r1 - a * a
    requires sign * sign == 1.0
    ensures var p := ChordEnd(c1, c2, ChordMidpoint(c1, c2, a, d), h, d, sign);
      SqDist(p, c1) == r1 * r1 && SqDist(p, c2) == r2 * r2
  {
    ChordEndOffset(c1, c2, a, h, d, sign);
    RealAlgebra.SignedSquare(sign, h);
    var p := ChordEnd(c1, c2, ChordMidpoint(c1, c2, a, d), h, d, sign);
    RealAlgebra.RadicalPointDistances(p.x - c1.x, p.y - c1.y, c2.x - c1.x, c2.y - c1.y, d, a, sign * h, r1, r2);
  }

  /** The relations among d, a and h that the chord-end distances rest on. */
  lemma RadicalRelations(lib: Libm, c1: Point2D, r1: real, c2: Point2D, r2: real)
    requires Lawful(lib)
    requires CenterDistance(lib, c1, c2) != 0.0
    requires Abs(r1 - r2) <= CenterDistance(lib, c1, c2) <= r1 + r2
    ensures var d := CenterDistance(lib, c1, c2);
      var a := RadicalOffset(r1, r2, d);
      d * d == SqDist(c2, c1) &&
      2.0 * d * a == r1 * r1 - r2 * r2 + d * d &&
      0.0 <= HalfChord(lib, r1, a) && HalfChord(lib, r1, a) * HalfChord(lib, r1, a) == r1 * r1 - a * a
  {
    var d := CenterDistance(lib, c1, c2);
    HypotSquared(lib, c2.x - c1.x, c2.y - c1.y);
    HalfChordReal(lib, r1, r2, d);
    RealAlgebra.DivThenMul(r1 * r1 - r2 * r2 + d * d, 2.0 * d);
  }

  /** The solver's d, a and h for circles that meet, with the relations of RadicalRelations. */
  lemma RadicalValues(lib: Libm, c1: Point2D, r1: real, c2: Point2D, r2: real) returns (d: real, a: real, h: real)
    requires Lawful(lib)
    requires CenterDistance(lib, c1, c2) != 0.0
    requires Abs(r1 - r2) <= CenterDistance(lib, c1, c2) <= r1 + r2
    ensures d == CenterDistance(lib, c1, c2) && d != 0.0
    ensures a == RadicalOffset(r1, r2, d) && h == HalfChord(lib, r1, a)
    ensures d * d == SqDist(c2, c1) && 2.0 * d * a == r1 * r1 - r2 * r2 + d * d
    ensures 0.0 <= h && h * h == r1 * r1 - a * a
  {
    d := CenterDistance(lib, c1, c2);
    a := RadicalOffset(r1, r2, d);
    h := HalfChord(lib, r1, a);
    RadicalRelations(lib, c1, r1, c2, r2);
  }

  /**
   * For circles that meet (abs(r1 - r2) <= d <= r1 + r2 exactly, d != 0),
   * either chord end is at distance r1 from c1 and r2 from c2.
   */
  lemma ChordEndOnBothCircles(lib: Libm, c1: Point2D, r1: real, c2: Point2D, r2: real, sign: real)
    requires Lawful(lib)
    requires CenterDistance(lib, c1, c2) != 0.0
    requires Abs(r1 - r2) <= CenterDistance(lib, c1, c2) <= r1 + r2
    requires sign * sign == 1.0
    ensures var d := CenterDistance(lib, c1, c2);
      var a := RadicalOffset(r1, r2, d);
      var p := ChordEnd(c1, c2, ChordMidpoint(c1, c2, a, d), HalfChord(lib, r1, a), d, sign);
      SqDist(p, c1) == r1 * r1 && SqDist(p, c2) == r2 * r2
  {
    var d := CenterDistance(lib, c1, c2);
    var a := RadicalOffset(r1, r2, d);
    RadicalRelations(lib, c1, r1, c2, r2);
    ChordEndDistances(c1, r1, c2, r2, d, a, HalfChord(lib, r1, a), sign);
  }

  /**
   * Every circle-circle candidate lies on both full circles, whenever the
   * circles meet over exact reals (abs(r1 - r2) <= d <= r1 + r2).
   */
  lemma CircleCircleOnBoth(lib: Libm, c1: Point2D, r1: real, c2: Point2D, r2: real)
    requires Lawful(lib)
    requires Abs(r1 - r2) <= CenterDistance(lib, c1, c2) <= r1 + r2
    ensures forall q :: q in CircleCircleCandidates(lib, c1, r1, c2, r2) ==>
      SqDist(q, c1) == r1 * r1 && SqDist(q, c2) == r2 * r2
  {
    if CenterDistance(lib, c1, c2) != 0.0 {
      ChordEndOnBothCircles(lib, c1, r1, c2, r2, 1.0);
      ChordEndOnBothCircles(lib, c1, r1, c2, r2, -1.0);
    }
  }

  /**
   * Conversely to ChordEndDistances: with the same relations among d, a and
   * h (and h non-negative), a point at distance r1 from c1 and r2 from c2 has,
   * for one of the two signs, the offset of a chord end.
   */
  lemma CommonPointOffset(c1: Point2D, r1: real, c2: Point2D, r2: real, d: real, a: real, h: real, q: Point2D)
    returns (sign: real)
    requires d != 0.0 && d * d == SqDist(c2, c1)
    requires 2.0 * d * a == r1 * r1 - r2 * r2 + d * d
    requires 0.0 <= h && h * h == r1 * r1 - a * a
    requires SqDist(q, c1) == r1 * r1 && SqDist(q, c2) == r2 * r2
    ensures sign == 1.0 || sign == -1.0
    ensures (q.x - c1.x) * d == a * (c2.x - c1.x) + sign * h * (c2.y - c1.y)
    ensures (q.y - c1.y) * d == a * (c2.y - c1.y) - sign * h * (c2.x - c1.x)
  {
    var x, y, u, v := q.x - c1.x, q.y - c1.y, c2.x - c1.x, c2.y - c1.y;
    assert x - u == q.x - c2.x && y - v == q.y - c2.y;
    sign := RealAlgebra.RadicalPointFromDistances(x, y, u, v, d, a, h, r1, r2);
  }

  /** A point with a chord end's offset from c1 is that chord end. */
  lemma ChordEndByOffset(c1: Point2D, c2: Point2D, a: real, h: real, d: real, sign: real, q: Point2D)
    requires d != 0.0
    requires (q.x - c1.x) * d == a * (c2.x - c1.x) + sign * h * (c2.y - c1.y)
    requires (q.y - c1.y) * d == a * (c2.y - c1.y) - sign * h * (c2.x - c1.x)
    ensures q == ChordEnd(c1, c2, ChordMidpoint(c1, c2, a, d), h, d, sign)
  {
    ChordEndOffset(c1, c2, a, h, d, sign);
    var p := ChordEnd(c1, c2, ChordMidpoint(c1, c2, a, d), h, d, sign);
    RealAlgebra.CancelFactor(p.x - c1.x, q.x - c1.x, d);
    RealAlgebra.CancelFactor(p.y - c1.y, q.y - c1.y, d);
  }

  /**
   * For circles that pass the separation test with distinct centers, `p1` is
   * returned, and so is `p2` unless the half chord is below eps.
   */
  lemma ChordEndsReturned(lib: Libm, c1: Point2D, r1: real, c2: Point2D, r2: real)
    requires CenterDistance(lib, c1, c2) != 0.0
    requires !CirclesApart(CenterDistance(lib, c1, c2), r1, r2)
    ensures var d := CenterDistance(lib, c1, c2);
      var a := RadicalOffset(r1, r2, d);
      var h := HalfChord(lib, r1, a);
      var m := ChordMidpoint(c1, c2, a, d);
      ChordEnd(c1, c2, m, h, d, 1.0) in CircleCircleCandidates(lib, c1, r1, c2, r2) &&
      (Abs(h) >= Epsilon ==> ChordEnd(c1, c2, m, h, d, -1.0) in CircleCircleCandidates(lib, c1, r1, c2, r2))
  {
  }

  /** CommonPointIsChordEnd over plain reals that satisfy the radical-line relations. */
  lemma CommonPointChordEnd(c1: Point2D, r1: real, c2: Point2D, r2: real, d: real, a: real, h: real, q: Point2D)
    returns (sign: real)
    requires d != 0.0 && d * d == SqDist(c2, c1)
    requires 2.0 * d * a == r1 * r1 - r2 * r2 + d * d
    requires 0.0 <= h && h * h == r1 * r1 - a * a
    requires SqDist(q, c1) == r1 * r1 && SqDist(q, c2) == r2 * r2
    ensures sign == 1.0 || sign == -1.0
    ensures q == ChordEnd(c1, c2, ChordMidpoint(c1, c2, a, d), h, d, sign)
  {
    sign := CommonPointOffset(c1, r1, c2, r2, d, a, h, q);
    ChordEndByOffset(c1, c2, a, h, d, sign, q);
  }

  /** A common point of circles that meet, with distinct centers, is one of the two chord ends. */
  lemma CommonPointIsChordEnd(lib: Libm, c1: Point2D, r1: real, c2: Point2D, r2: real, q: Point2D)
    returns (sign: real)
    requires Lawful(lib)
    requires CenterDistance(lib, c1, c2) != 0.0
    requires Abs(r1 - r2) <= CenterDistance(lib, c1, c2) <= r1 + r2
    requires SqDist(q, c1) == r1 * r1 && SqDist(q, c2) == r2 * r2
    ensures sign == 1.0 || sign == -1.0
    ensures var d := CenterDistance(lib, c1, c2);
      var a := RadicalOffset(r1, r2, d);
      q == ChordEnd(c1, c2, ChordMidpoint(c1, c2, a, d), HalfChord(lib, r1, a), d, sign)
  {
    var d, a, h := RadicalValues(lib, c1, r1, c2, r2);
    sign := CommonPointChordEnd(c1, r1, c2, r2, d, a, h, q);
  }

  /** A chord end of either sign is returned, or is the dropped `p2` of a half chord below eps. */
  lemma ChordEndReturned(lib: Libm, c1: Point2D, r1: real, c2: Point2D, r2: real, sign: real, q: Point2D)
    requires CenterDistance(lib, c1, c2) != 0.0
    requires !CirclesApart(CenterDistance(lib, c1, c2), r1, r2)
    requires sign == 1.0 || sign == -1.0
    requires var d := CenterDistance(lib, c1, c2);
      var a := RadicalOffset(r1, r2, d);
      q == ChordEnd(c1, c2, ChordMidpoint(c1, c2, a, d), HalfChord(lib, r1, a), d, sign)
    ensures var d := CenterDistance(lib, c1, c2);
      var a := RadicalOffset(r1, r2, d);
      var h := HalfChord(lib, r1, a);
      q in CircleCircleCandidates(lib, c1, r1, c2, r2) ||
      (q == ChordEnd(c1, c2, ChordMidpoint(c1, c2, a, d), h, d, -1.0) && Abs(h) < Epsilon)
  {
    ChordEndsReturned(lib, c1, r1, c2, r2);
  }

  /**
   * Conversely to CircleCircleOnBoth: for circles that meet over exact reals
   * with distinct centers, every common point is returned, except the `p2`
   * of a half chord below eps, which the tangency test drops as a duplicate
   * of `p1`.
   */
  lemma CircleCircleFindsCrossing(lib: Libm, c1: Point2D, r1: real, c2: Point2D, r2: real, q: Point2D)
    requires Lawful(lib)
    requires CenterDistance(lib, c1, c2) != 0.0
    requires Abs(r1 - r2) <= CenterDistance(lib, c1, c2) <= r1 + r2
    requires SqDist(q, c1) == r1 * r1 && SqDist(q, c2) == r2 * r2
    ensures var d := CenterDistance(lib, c1, c2);
      var a := RadicalOffset(r1, r2, d);
      var h := HalfChord(lib, r1, a);
      q in CircleCircleCandidates(lib, c1, r1, c2, r2) ||
      (q == ChordEnd(c1, c2, ChordMidpoint(c1, c2, a, d), h, d, -1.0) && Abs(h) < Epsilon)
  {
    var sign := CommonPointIsChordEnd(lib, c1, r1, c2, r2, q);
    ChordEndReturned(lib, c1, r1, c2, r2, sign, q);
  }

  /** With a non-zero half chord between distinct centers, the two chord ends differ. */
  lemma ChordEndsApart(c1: Point2D, c2: Point2D, m: Point2D, h: real, d: real)
    requires d != 0.0 && h != 0.0 && c1 != c2
    ensures ChordEnd(c1, c2, m, h, d, 1.0) != ChordEnd(c1, c2, m, h, d, -1.0)
  {
    var dx, dy := c2.x - c1.x, c2.y - c1.y;
    if ChordEnd(c1, c2, m, h, d, 1.0) == ChordEnd(c1, c2, m, h, d, -1.0) {
      RealAlgebra.MirroredOffset(m.x, h, dy, d);
      RealAlgebra.MirroredOffset(m.y, h, -dx, d);
      RealAlgebra.ZeroProduct(h, dy);
      RealAlgebra.ZeroProduct(h, -dx);
      assert false;
    }
  }

  /** The chord end of a given sign has cross product -sign h d with the center direction. */
  lemma ChordEndSide(c1: Point2D, c2: Point2D, a: real, h: real, d: real, sign: real)
    requires d != 0.0 && d * d == SqDist(c2, c1)
    ensures Cross(Sub(c2, c1), Sub(ChordEnd(c1, c2, ChordMidpoint(c1, c2, a, d), h, d, sign), c1)) == -(sign * h) * d
  {
    var p := ChordEnd(c1, c2, ChordMidpoint(c1, c2, a, d), h, d, sign);
    ChordEndOffset(c1, c2, a, h, d, sign);
    RealAlgebra.SideOfCenterLine(p.x - c1.x, p.y - c1.y, c2.x - c1.x, c2.y - c1.y, a, sign * h, d);
  }

  /**
   * The shape and order of a circle-circle result for circles that pass the
   * separation test with distinct centers: one point exactly when abs(h) < eps;
   * the first point `p1` lies on the clockwise side of c1 -> c2 (cross product
   * -h d) and a second point `p2` on the counter-clockwise side (h d).
   */
  lemma CircleCircleSides(lib: Libm, c1: Point2D, r1: real, c2: Point2D, r2: real)
    requires Lawful(lib)
    requires CenterDistance(lib, c1, c2) != 0.0
    requires !CirclesApart(CenterDistance(lib, c1, c2), r1, r2)
    ensures var d := CenterDistance(lib, c1, c2);
      var h := HalfChord(lib, r1, RadicalOffset(r1, r2, d));
      var r := CircleCircleCandidates(lib, c1, r1, c2, r2);
      (|r| == 1 <==> Abs(h) < Epsilon) &&
      Cross(Sub(c2, c1), Sub(r[0], c1)) == -h * d &&
      (|r| == 2 ==> Cross(Sub(c2, c1), Sub(r[1], c1)) == h * d)
  {
    var d := CenterDistance(lib, c1, c2);
    var a := RadicalOffset(r1, r2, d);
    var h := HalfChord(lib, r1, a);
    HypotSquared(lib, c2.x - c1.x, c2.y - c1.y);
    ChordEndSide(c1, c2, a, h, d, 1.0);
    ChordEndSide(c1, c2, a, h, d, -1.0);
  }

  /** Two circle-circle candidates are two distinct points. */
  lemma CircleCircleTwoDistinct(lib: Libm, c1: Point2D, r1: real, c2: Point2D, r2: real)
    requires Lawful(lib)
    requires |CircleCircleCandidates(lib, c1, r1, c2, r2)| == 2
    ensures CircleCircleCandidates(lib, c1, r1, c2, r2)[0] != CircleCircleCandidates(lib, c1, r1, c2, r2)[1]
  {
    var d := CenterDistance(lib, c1, c2);
    var a := RadicalOffset(r1, r2, d);
    ChordEndsApart(c1, c2, ChordMidpoint(c1, c2, a, d), HalfChord(lib, r1, a), d);
  }

  /**
   * The eps band beyond external tangency: for non-negative radii with
   * r1 + r2 < d <= r1 + r2 + eps the separation test lets the circles
   * through, a point is returned, and the half chord is the square root of
   * a negative number.
   */
  lemma NearMissTakesRootOfNegative(lib: Libm, c1: Point2D, r1: real, c2: Point2D, r2: real)
    requires 0.0 <= r1 && 0.0 <= r2
    requires r1 + r2 < CenterDistance(lib, c1, c2) <= r1 + r2 + Epsilon
    ensures CircleCircleCandidates(lib, c1, r1, c2, r2) != []
    ensures var d := CenterDistance(lib, c1, c2);
      var a := RadicalOffset(r1, r2, d);
      r1 * r1 - a * a < 0.0
  {
    var d := CenterDistance(lib, c1, c2);
    RealAlgebra.DivThenMul(r1 * r1 - r2 * r2 + d * d, 2.0 * d);
    RealAlgebra.RadicalOffsetBeyondTangency(r1, r2, d, RadicalOffset(r1, r2, d));
  }
}

