/**
 * The public queries of the intersection engine: resolve entity indices in
 * the sketch store, give up with no point on any failed lookup, run the
 * matching solver and keep the candidates lying on both bounded entities.
 * The store is a value, so no query can change it.
 */
module IntersectionComputer {
  import opened Wrappers
  import opened Geometry
  import opened Sketches
  import opened Filters
  import Solvers

  /**
   * `line_line_intersectionPoints`: no point unless both lines and their
   * four points resolve; otherwise the segment-segment solver's answer,
   * which already bounds both parameters and so needs no filtering.
   */
  function LineLineIntersectionPoints(sk: Sketch, index1: int, index2: int): (r: seq<Point2D>)
    ensures |r| <= 1
    ensures ResolveLine(sk, index1).None? || ResolveLine(sk, index2).None? ==> r == []
    ensures ResolveLine(sk, index1).Some? && ResolveLine(sk, index2).Some? ==>
      var s1 := ResolveLine(sk, index1).value;
      var s2 := ResolveLine(sk, index2).value;
      r == Solvers.LineLine(s1.start, s1.end, s2.start, s2.end)
  {
    match (ResolveLine(sk, index1), ResolveLine(sk, index2))
    case (Some(s1), Some(s2)) => Solvers.LineLine(s1.start, s1.end, s2.start, s2.end)
    case _ => []
  }

  /**
   * A point returned for two lines lies, up to the solver's tolerance, on
   * both: it is p1 + t*(p2 - p1) and q1 + s*(q2 - q1) with t and s in
   * [-eps, 1 + eps].
   */
  lemma LineLineResultOnBoth(sk: Sketch, index1: int, index2: int)
    requires LineLineIntersectionPoints(sk, index1, index2) != []
    ensures ResolveLine(sk, index1).Some? && ResolveLine(sk, index2).Some?
    ensures var s1 := ResolveLine(sk, index1).value;
      var s2 := ResolveLine(sk, index2).value;
      var q := LineLineIntersectionPoints(sk, index1, index2)[0];
      exists t, s :: InTolerantUnit(t) && InTolerantUnit(s) &&
        q == PointAt(s1.start, s1.end, t) && q == PointAt(s2.start, s2.end, s)
  {
    var s1 := ResolveLine(sk, index1).value;
    var s2 := ResolveLine(sk, index2).value;
    Solvers.LineLineMeetsBoth(s1.start, s1.end, s2.start, s2.end);
    var t := Solvers.CramerT(s1.start, s1.end, s2.start, s2.end);
    var s := Solvers.CramerS(s1.start, s1.end, s2.start, s2.end);
    assert InTolerantUnit(t) && InTolerantUnit(s);
  }

  /**
   * `line_circularArc_intersectionPoints`: the line-circle candidates of
   * the line and the arc's full circle, kept when they lie on the segment
   * and on the arc, appended in candidate order.
   */
  method LineCircularArcIntersectionPoints(lib: Libm, sk: Sketch, lineIndex: int, arcIndex: int)
    returns (validIntersections: seq<Point2D>)
    ensures ResolveLine(sk, lineIndex).None? || ResolveArc(sk, arcIndex).None? ==> validIntersections == []
    ensures ResolveLine(sk, lineIndex).Some? && ResolveArc(sk, arcIndex).Some? ==>
      var seg := ResolveLine(sk, lineIndex).value;
      var arc := ResolveArc(sk, arcIndex).value;
      var cands := Solvers.LineCircleCandidates(lib, seg.start, seg.end, arc.center, arc.radius);
      validIntersections == KeepAdmitted(lib, cands, SegmentBound(seg), ArcBound(arc)) &&
      IsSubsequence(validIntersections, cands)
    ensures |validIntersections| <= 2
  {
    var line := ResolveLine(sk, lineIndex);
    var arc := ResolveArc(sk, arcIndex);
    if line.None? || arc.None? {
      return [];
    }
    var seg, a := line.value, arc.value;
    var intersections := Solvers.ComputeLineCircleIntersection(lib, seg.start, seg.end, a.center, a.radius);
    validIntersections := [];
    var i := 0;
    while i < |intersections|
      invariant 0 <= i <= |intersections|
      invariant validIntersections == KeepAdmitted(lib, intersections[..i], SegmentBound(seg), ArcBound(a))
    {
      var p := intersections[i];
      KeepAdmittedSnoc(lib, intersections, i, SegmentBound(seg), ArcBound(a));
      if OnSegment(p, seg.start, seg.end) && OnArc(lib, p, a.center, a.start, a.end, a.angle) {
        validIntersections := validIntersections + [p];
      }
      i := i + 1;
    }
    assert intersections[..i] == intersections;
    KeepAdmittedIsSubsequence(lib, intersections, SegmentBound(seg), ArcBound(a));
  }

  /**
   * `circularArc_circularArc_intersectionPoints`: the circle-circle
   * candidates of the two full circles, kept when they lie on both arcs,
   * appended in candidate order.
   */
  method CircularArcCircularArcIntersectionPoints(lib: Libm, sk: Sketch, index1: int, index2: int)
    returns (validIntersections: seq<Point2D>)
    ensures ResolveArc(sk, index1).None? || ResolveArc(sk, index2).None? ==> validIntersections == []
    ensures ResolveArc(sk, index1).Some? && ResolveArc(sk, index2).Some? ==>
      var arc1 := ResolveArc(sk, index1).value;
      var arc2 := ResolveArc(sk, index2).value;
      var cands := Solvers.CircleCircleCandidates(lib, arc1.center, arc1.radius, arc2.center, arc2.radius);
      validIntersections == KeepAdmitted(lib, cands, ArcBound(arc1), ArcBound(arc2)) &&
      IsSubsequence(validIntersections, cands)
    ensures |validIntersections| <= 2
  {
    var r1 := ResolveArc(sk, index1);
    var r2 := ResolveArc(sk, index2);
    if r1.None? || r2.None? {
      return [];
    }
    var arc1, arc2 := r1.value, r2.value;
    var intersections := Solvers.CircleCircleCandidates(lib, arc1.center, arc1.radius, arc2.center, arc2.radius);
    validIntersections := [];
    var i := 0;
    while i < |intersections|
      invariant 0 <= i <= |intersections|
      invariant validIntersections == KeepAdmitted(lib, intersections[..i], ArcBound(arc1), ArcBound(arc2))
    {
      var p := intersections[i];
      KeepAdmittedSnoc(lib, intersections, i, ArcBound(arc1), ArcBound(arc2));
      if OnArc(lib, p, arc1.center, arc1.start, arc1.end, arc1.angle) &&
         OnArc(lib, p, arc2.center, arc2.start, arc2.end, arc2.angle) {
        validIntersections := validIntersections + [p];
      }
      i := i + 1;
    }
    assert intersections[..i] == intersections;
    KeepAdmittedIsSubsequence(lib, intersections, ArcBound(arc1), ArcBound(arc2));
  }

  /** The store of the test fixture: six points and the two crossing diagonals. */
  function DiagonalsSketch(): Sketch {
    Sketch(map[0 := Point2D(0.0, 0.0), 1 := Point2D(2.0, 2.0), 2 := Point2D(0.0, 2.0),
               3 := Point2D(2.0, 0.0), 4 := Point2D(1.0, 1.0), 5 := Point2D(3.0, 3.0)],
           map[0 := Lines.Line(0, 1), 1 := Lines.Line(2, 3)],
           map[])
  }

  lemma DiagonalsResolve()
    ensures ResolveLine(DiagonalsSketch(), 0) == Some(Segment(Point2D(0.0, 0.0), Point2D(2.0, 2.0)))
    ensures ResolveLine(DiagonalsSketch(), 1) == Some(Segment(Point2D(0.0, 2.0), Point2D(2.0, 0.0)))
    ensures ResolveLine(DiagonalsSketch(), 7) == None
  {
    var sk := DiagonalsSketch();
    assert sk.lines[0] == Lines.Line(0, 1) && sk.lines[1] == Lines.Line(2, 3);
    assert sk.points[0] == Point2D(0.0, 0.0) && sk.points[1] == Point2D(2.0, 2.0);
    assert sk.points[2] == Point2D(0.0, 2.0) && sk.points[3] == Point2D(2.0, 0.0);
    assert 7 !in sk.lines;
  }

  /** The diagonals (0,0)-(2,2) and (0,2)-(2,0) cross in exactly one point, (1,1). */
  lemma DiagonalsCrossAtCenter()
    ensures LineLineIntersectionPoints(DiagonalsSketch(), 0, 1) == [Point2D(1.0, 1.0)]
  {
    DiagonalsResolve();
    var p1, p2, q1, q2 := Point2D(0.0, 0.0), Point2D(2.0, 2.0), Point2D(0.0, 2.0), Point2D(2.0, 0.0);
    assert Solvers.Det(p1, p2, q1, q2) == -8.0;
    assert Solvers.CramerT(p1, p2, q1, q2) == 0.5;
    assert Solvers.CramerS(p1, p2, q1, q2) == 0.5;
    assert PointAt(p1, p2, 0.5) == Point2D(1.0, 1.0);
  }

  /** A missing line index gives no point. */
  lemma MissingLineGivesNothing()
    ensures LineLineIntersectionPoints(DiagonalsSketch(), 0, 7) == []
  {
    DiagonalsResolve();
  }

  /** The store with two horizontal segments, (0,0)-(2,0) and (0,1)-(2,1). */
  function ParallelSketch(): Sketch {
    Sketch(map[0 := Point2D(0.0, 0.0), 1 := Point2D(2.0, 0.0), 2 := Point2D(0.0, 1.0), 3 := Point2D(2.0, 1.0)],
           map[0 := Lines.Line(0, 1), 1 := Lines.Line(2, 3)],
           map[])
  }

  lemma ParallelResolve()
    ensures ResolveLine(ParallelSketch(), 0) == Some(Segment(Point2D(0.0, 0.0), Point2D(2.0, 0.0)))
    ensures ResolveLine(ParallelSketch(), 1) == Some(Segment(Point2D(0.0, 1.0), Point2D(2.0, 1.0)))
  {
    var sk := ParallelSketch();
    assert sk.lines[0] == Lines.Line(0, 1) && sk.lines[1] == Lines.Line(2, 3);
    assert sk.points[0] == Point2D(0.0, 0.0) && sk.points[1] == Point2D(2.0, 0.0);
    assert sk.points[2] == Point2D(0.0, 1.0) && sk.points[3] == Point2D(2.0, 1.0);
  }

  /** Parallel segments give no point: their determinant is zero. */
  lemma ParallelLinesDoNotMeet()
    ensures LineLineIntersectionPoints(ParallelSketch(), 0, 1) == []
  {
    ParallelResolve();
    assert Solvers.Det(Point2D(0.0, 0.0), Point2D(2.0, 0.0), Point2D(0.0, 1.0), Point2D(2.0, 1.0)) == 0.0;
  }
}
