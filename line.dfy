/** The `Line` value type: a segment given by the indices of its two points. */
module Lines {

  /** A straight segment of the sketch, as an ordered pair of point indices. */
  datatype Line = Line(startPointIndex: int, endPointIndex: int)

  /** `operator==`: the two lines name the same points, in the same order. */
  function Eq(lhs: Line, rhs: Line): (r: bool)
    ensures r <==> lhs == rhs
  {
    lhs.startPointIndex == rhs.startPointIndex && lhs.endPointIndex == rhs.endPointIndex
  }

  /** `operator!=`: the negation of `operator==`. */
  function NotEq(lhs: Line, rhs: Line): (r: bool)
    ensures r <==> lhs != rhs
    ensures r == !Eq(lhs, rhs)
  {
    !Eq(lhs, rhs)
  }

  /** Eq is an equivalence relation. */
  lemma EqIsEquivalence(a: Line, b: Line, c: Line)
    ensures Eq(a, a)
    ensures Eq(a, b) ==> Eq(b, a)
    ensures Eq(a, b) && Eq(b, c) ==> Eq(a, c)
  {
  }

  /** Orientation matters: a line equals its reversal only when both ends coincide. */
  lemma EqRespectsOrientation(i: int, j: int)
    ensures Eq(Line(i, j), Line(j, i)) <==> i == j
  {
  }
}
