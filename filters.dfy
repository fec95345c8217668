/**
 * The bounded-domain predicates of the intersection engine, and the filter
 * that keeps the solver candidates lying on both bounded entities.
 */
module Filters {
  import opened Geometry
  import opened Sketches
  import RealAlgebra

  // ---------------------------------------------------------------------
  // Segment membership: `isPointOnLineSegment`.
  // ---------------------------------------------------------------------

  /**
   * p is on the segment start-end, up to eps: the cross product of p - start
   * with the direction is at most eps in size, and the projection of
   * p - start on the direction lies in [-eps, len2 + eps].  The checks run
   * in the source's order, each rejecting early.
   */
  function OnSegment(p: Point2D, start: Point2D, end: Point2D): (r: bool)
    ensures r <==>
      Abs(Cross(Sub(p, start), Sub(end, start))) <= Epsilon &&
      0.0 - Epsilon <= Dot(Sub(p, start), Sub(end, start)) &&
      Dot(Sub(p, start), Sub(end, start)) <= Dot(Sub(end, start), Sub(end, start)) + Epsilon
  {
    var cross := Cross(Sub(p, start), Sub(end, start));
    if Abs(cross) > Epsilon then false
    else
      var dot := Dot(Sub(p, start), Sub(end, start));
      if dot < 0.0 - Epsilon then false
      else
        var len2 := Dot(Sub(end, start), Sub(end, start));
        dot <= len2 + Epsilon
  }

  /** Along the segment, the offset from start is t times the direction. */
  lemma OffsetAlongSegment(start: Point2D, end: Point2D, t: real)
    ensures Cross(Sub(PointAt(start, end, t), start), Sub(end, start)) == 0.0
    ensures Dot(Sub(PointAt(start, end, t), start), Sub(end, start)) == t * Dot(Sub(end, start), Sub(end, start))
  {
  }

  /** Every point p1 + t*(p2 - p1) with t in [0, 1] is accepted. */
  lemma OnSegmentAcceptsSegment(start: Point2D, end: Point2D, t: real)
    requires 0.0 <= t <= 1.0
    ensures OnSegment(PointAt(start, end, t), start, end)
  {
    var len2 := Dot(Sub(end, start), Sub(end, start));
    OffsetAlongSegment(start, end, t);
    RealAlgebra.SumOfSquaresNonNegative(end.x - start.x, end.y - start.y);
    RealAlgebra.ProductNonNegative(t, len2);
    RealAlgebra.ProductNonNegative(1.0 - t, len2);
  }

  /** In particular a segment's own end points lie on it. */
  lemma OnSegmentAcceptsEnds(start: Point2D, end: Point2D)
    ensures OnSegment(start, start, end) && OnSegment(end, start, end)
  {
    OnSegmentAcceptsSegment(start, end, 0.0);
    OnSegmentAcceptsSegment(start, end, 1.0);
    assert PointAt(start, end, 0.0) == start;
    assert PointAt(start, end, 1.0) == end;
  }

  // ---------------------------------------------------------------------
  // Arc membership: `isPointOnArc`, a sweep test on polar angles in [0, 2pi).
  // ---------------------------------------------------------------------

  /** The polar angle of p around center, moved from (-pi, pi] to [0, 2pi). */
  function PolarAngle(lib: Libm, p: Point2D, center: Point2D): real {
    var theta := lib.atan2(p.y - center.y, p.x - center.x);
    if theta < 0.0 then theta + 2.0 * lib.pi else theta
  }

  lemma PolarAngleRange(lib: Libm, p: Point2D, center: Point2D)
    requires Lawful(lib)
    ensures 0.0 <= PolarAngle(lib, p, center) < 2.0 * lib.pi
  {
    assert -lib.pi < lib.atan2(p.y - center.y, p.x - center.x) <= lib.pi;
  }

  /**
   * p is on the arc that sweeps `angle` counter-clockwise from start: a sweep
   * above 2pi - eps is the full circle, otherwise the angle of p, or that
   * angle plus 2pi, must lie in [thetaStart - eps, thetaStart + angle + eps].
   * The angle of the end point is computed, as in the source, and never used.
   * A sweep below -2 eps (and below the full-circle threshold) accepts
   * nothing: both intervals are then empty.
   */
  function OnArc(lib: Libm, p: Point2D, center: Point2D, start: Point2D, end: Point2D, angle: real): (r: bool)
    ensures angle > 2.0 * lib.pi - Epsilon ==> r
    ensures angle < -2.0 * Epsilon && angle <= 2.0 * lib.pi - Epsilon ==> !r
  {
    var theta := PolarAngle(lib, p, center);
    var thetaStart := PolarAngle(lib, start, center);
    var thetaEnd := PolarAngle(lib, end, center);
    if angle > 2.0 * lib.pi - Epsilon then true
    else
      (theta >= thetaStart - Epsilon && theta <= thetaStart + angle + Epsilon) ||
      (theta + 2.0 * lib.pi >= thetaStart - Epsilon && theta + 2.0 * lib.pi <= thetaStart + angle + Epsilon)
  }

  /** A sweep above 2pi - eps accepts every point. */
  lemma OnArcFullCircle(lib: Libm, p: Point2D, center: Point2D, start: Point2D, end: Point2D, angle: real)
    requires angle > 2.0 * lib.pi - Epsilon
    ensures OnArc(lib, p, center, start, end, angle)
  {
  }

  /** The end point of an arc never influences the test. */
  lemma OnArcIgnoresEnd(lib: Libm, p: Point2D, center: Point2D, start: Point2D, end1: Point2D, end2: Point2D, angle: real)
    ensures OnArc(lib, p, center, start, end1, angle) == OnArc(lib, p, center, start, end2, angle)
  {
  }

  /** The start point is on its arc exactly when the sweep is at least -eps. */
  lemma OnArcAcceptsStart(lib: Libm, center: Point2D, start: Point2D, end: Point2D, angle: real)
    requires Lawful(lib)
    ensures OnArc(lib, start, center, start, end, angle) <==> -Epsilon <= angle
  {
    PolarAngleRange(lib, start, center);
  }

  /** The counter-clockwise turn from thetaStart to theta, in [0, 2pi). */
  function Sweep(lib: Libm, thetaStart: real, theta: real): real {
    if theta >= thetaStart then theta - thetaStart else theta + 2.0 * lib.pi - thetaStart
  }

  /**
   * Below the full-circle threshold, and for a sweep of at least -eps, the
   * test is the intended one: the counter-clockwise turn from the start
   * angle to p's angle is at most angle + eps, or p's angle lies at most
   * eps clockwise before the start angle.
   */
  lemma OnArcIsSweep(lib: Libm, p: Point2D, center: Point2D, start: Point2D, end: Point2D, angle: real)
    requires Lawful(lib)
    requires -Epsilon <= angle <= 2.0 * lib.pi - Epsilon
    ensures var theta := PolarAngle(lib, p, center);
      var thetaStart := PolarAngle(lib, start, center);
      0.0 <= Sweep(lib, thetaStart, theta) < 2.0 * lib.pi &&
      (OnArc(lib, p, center, start, end, angle) <==>
        Sweep(lib, thetaStart, theta) <= angle + Epsilon ||
        (thetaStart - Epsilon <= theta && theta < thetaStart))
  {
    PolarAngleRange(lib, p, center);
    PolarAngleRange(lib, start, center);
  }

  // ---------------------------------------------------------------------
  // Keeping the candidates that lie on both entities.
  // ---------------------------------------------------------------------

  /** The bounded entity a candidate must lie on: a segment or an arc. */
  datatype Bound = SegmentBound(seg: Segment) | ArcBound(arc: Arc)

  predicate Admits(lib: Libm, b: Bound, p: Point2D) {
    match b
    case SegmentBound(seg) => OnSegment(p, seg.start, seg.end)
    case ArcBound(arc) => OnArc(lib, p, arc.center, arc.start, arc.end, arc.angle)
  }

  /** a can be obtained from b by deleting elements, keeping the order of the rest. */
  predicate IsSubsequence<T(==)>(a: seq<T>, b: seq<T>) {
    if b == [] then a == []
    else
      (a != [] && a[|a| - 1] == b[|b| - 1] && IsSubsequence(a[..|a| - 1], b[..|b| - 1])) ||
      IsSubsequence(a, b[..|b| - 1])
  }

  /**
   * The candidates admitted by both bounds, in their original order: the
   * value the source's filtering loops build by appending.
   */
  function KeepAdmitted(lib: Libm, cands: seq<Point2D>, b1: Bound, b2: Bound): (r: seq<Point2D>)
    ensures |r| <= |cands|
    ensures forall q :: q in r ==> q in cands && Admits(lib, b1, q) && Admits(lib, b2, q)
    ensures forall i :: 0 <= i < |cands| && Admits(lib, b1, cands[i]) && Admits(lib, b2, cands[i]) ==>
      cands[i] in r
  {
    if cands == [] then []
    else
      var rest := KeepAdmitted(lib, cands[..|cands| - 1], b1, b2);
      var p := cands[|cands| - 1];
      if Admits(lib, b1, p) && Admits(lib, b2, p) then rest + [p] else rest
  }

  /** The kept candidates are a subsequence of all candidates. */
  lemma {:induction false} KeepAdmittedIsSubsequence(lib: Libm, cands: seq<Point2D>, b1: Bound, b2: Bound)
    ensures IsSubsequence(KeepAdmitted(lib, cands, b1, b2), cands)
  {
    if cands != [] {
      var front := cands[..|cands| - 1];
      KeepAdmittedIsSubsequence(lib, front, b1, b2);
      var rest := KeepAdmitted(lib, front, b1, b2);
      var p := cands[|cands| - 1];
      if Admits(lib, b1, p) && Admits(lib, b2, p) {
        assert (rest + [p])[..|rest + [p]| - 1] == rest;
      }
    }
  }

  /** One more candidate: the filter of a longer prefix extends the shorter one. */
  lemma KeepAdmittedSnoc(lib: Libm, cands: seq<Point2D>, i: nat, b1: Bound, b2: Bound)
    requires i < |cands|
    ensures KeepAdmitted(lib, cands[..i + 1], b1, b2) ==
      KeepAdmitted(lib, cands[..i], b1, b2) +
      (if Admits(lib, b1, cands[i]) && Admits(lib, b2, cands[i]) then [cands[i]] else [])
  {
    assert cands[..i + 1][..i] == cands[..i];
  }
}
