/**
 * A read-only snapshot of the sketch store the engine queries: points,
 * lines and circular arcs keyed by their integer index.  An index with no
 * entry stands for a failed lookup (a null pointer in the store's API).
 */
module Sketches {
  import opened Wrappers
  import opened Geometry
  import opened Lines

  /** An arc as stored: point indices for its center and ends, its radius and sweep angle. */
  datatype CircularArc = CircularArc(center: int, startPoint: int, endPoint: int, radius: real, angle: real)

  datatype Sketch = Sketch(points: map<int, Point2D>, lines: map<int, Line>, arcs: map<int, CircularArc>)

  /** A line with both of its points resolved. */
  datatype Segment = Segment(start: Point2D, end: Point2D)

  /** A circular arc with its center, start and end points resolved. */
  datatype Arc = Arc(center: Point2D, start: Point2D, end: Point2D, radius: real, angle: real)

  function GetPoint(sk: Sketch, i: int): Option<Point2D> {
    if i in sk.points then Some(sk.points[i]) else None
  }

  function GetLine(sk: Sketch, i: int): Option<Line> {
    if i in sk.lines then Some(sk.lines[i]) else None
  }

  function GetArc(sk: Sketch, i: int): Option<CircularArc> {
    if i in sk.arcs then Some(sk.arcs[i]) else None
  }

  /** Looks up a line and then both of its points; fails if any lookup does. */
  function ResolveLine(sk: Sketch, i: int): (r: Option<Segment>)
    ensures r.Some? <==>
      i in sk.lines && sk.lines[i].startPointIndex in sk.points && sk.lines[i].endPointIndex in sk.points
    ensures r.Some? ==>
      r.value == Segment(sk.points[sk.lines[i].startPointIndex], sk.points[sk.lines[i].endPointIndex])
  {
    match GetLine(sk, i)
    case None => None
    case Some(line) =>
      match (GetPoint(sk, line.startPointIndex), GetPoint(sk, line.endPointIndex))
      case (Some(s), Some(e)) => Some(Segment(s, e))
      case _ => None
  }

  /** Looks up an arc and then its center, start and end points; fails if any lookup does. */
  function ResolveArc(sk: Sketch, i: int): (r: Option<Arc>)
    ensures r.Some? <==>
      i in sk.arcs && sk.arcs[i].center in sk.points &&
      sk.arcs[i].startPoint in sk.points && sk.arcs[i].endPoint in sk.points
    ensures r.Some? ==>
      r.value == Arc(sk.points[sk.arcs[i].center], sk.points[sk.arcs[i].startPoint],
                     sk.points[sk.arcs[i].endPoint], sk.arcs[i].radius, sk.arcs[i].angle)
  {
    match GetArc(sk, i)
    case None => None
    case Some(arc) =>
      match (GetPoint(sk, arc.center), GetPoint(sk, arc.startPoint), GetPoint(sk, arc.endPoint))
      case (Some(c), Some(s), Some(e)) => Some(Arc(c, s, e, arc.radius, arc.angle))
      case _ => None
  }
}
