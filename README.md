# Intersection engine of a 2D sketch modeller, in Dafny

This project models `IntersectionComputer`, the engine of a constraint-based sketch modeller that finds where two stored entities meet. An entity is a straight segment (`Line`) or a circular arc. The engine has three layers:

- **Primitive solvers.** Segment against segment uses Cramer's rule. Segment against full circle solves a quadratic in the segment parameter. Circle against circle uses the radical-line construction.
- **Two bounded-domain predicates.** "Lies on the segment" is a cross and dot product test. "Lies on the arc" is a polar-angle sweep test.
- **Three public queries.** Each resolves entity indices in the sketch store and gives the empty sequence on any failed lookup. Otherwise it runs the matching solver. The segment-segment query returns the solver's answer as it is, since the solver already bounds both parameters. The two arc queries keep, in order, the candidates accepted by the predicate of each operand.

The `Line` value type with its `==` and `!=` operators is modelled as well.

Modelling choices:

- **Numbers.** Numbers are exact `real`s and the shared tolerance `Epsilon` is 1e-9.
- **Math library.** `std::sqrt`, `std::atan2` and `M_PI` form a parameter `Libm`. The laws the proofs rely on are gathered in the predicate `Geometry.Lawful`. `std::hypot(x, y)` is the square root of x*x + y*y.
- **Sketch store.** The store is a read-only value holding maps from indices to points, lines and arcs, so no query can change it.

Files, one module each, in the order of their dependencies:

| file | module | contents |
|---|---|---|
| wrappers.dfy | Wrappers | `Option` |
| geometry.dfy | Geometry | points, vectors, `Epsilon`, the math-library parameter |
| line.dfy | Lines | the `Line` value type and its operators |
| sketches.dfy | Sketches | the store snapshot and index resolution |
| algebra.dfy | RealAlgebra | one-step facts of real arithmetic used by the proofs |
| solvers.dfy | Solvers | the three primitive solvers and their properties |
| filters.dfy | Filters | the segment and arc predicates, and the candidate filter |
| queries.dfy | IntersectionComputer | the three public queries and the line-line test case |

## Model

| member | source | states |
|---|---|---|
| Lines.Eq | l.cpp:9-11 | `==` holds exactly when the two lines are the same value |
| Lines.NotEq | l.cpp:13-15 | `!=` holds exactly when the lines differ, and is the negation of `==` |
| Lines.EqIsEquivalence | l.cpp:9-11 | `==` is reflexive, symmetric and transitive |
| Lines.EqRespectsOrientation | l.cpp:10 | `Line{i,j} == Line{j,i}` only when i == j |
| Geometry.HypotSquared | inter.cpp:106 | the center distance from `hypot` is non-negative, and its square is dx² + dy² |
| Sketches.ResolveLine | inter.cpp:14-22 | a line resolves exactly when the line and both of its point indices are in the store; the result is the two stored points |
| Sketches.ResolveArc | inter.cpp:28-37 | an arc resolves exactly when the arc and its center, start and end indices are in the store; the result carries those points with the arc's radius and angle |
| Solvers.LineLine | inter.cpp:71-81 | at most one point, and none when the determinant is below eps in size (parallel segments) |
| Solvers.CramerPointOnBoth | inter.cpp:75-79 | over exact reals, p1 + t(p2 - p1) equals q1 + s(q2 - q1) for the Cramer parameters t and s |
| Solvers.LineLineMeetsBoth | inter.cpp:72-80 | a returned point means a non-parallel pair with t and s in [-eps, 1+eps]; the point is p1 + t(p2 - p1) and also q1 + s(q2 - q1) |
| Solvers.LineLineFindsCrossing | inter.cpp:72-80 | conversely, a common point at parameters in [-eps, 1+eps] of two non-parallel segments is exactly the returned one |
| Solvers.LineCircleCandidates | inter.cpp:83-103 | at most two points; none when the discriminant is below -eps; at most one when it is at most eps (the tangency guard) |
| Solvers.LineCircleWithinSegment | inter.cpp:94-101 | every candidate is p1 + t(p2 - p1) for some t in [-eps, 1+eps] |
| Solvers.LineCircleOrder | inter.cpp:94-101 | two candidates are the t1 point followed by the t2 point, with t2 < t1 |
| Solvers.SqDistAlongLine | inter.cpp:84-88 | the squared distance from the center to p1 + t(p2 - p1) is A t² + B t + C + r² |
| Solvers.RootsSolveQuadratic | inter.cpp:90-95 | with a non-negative discriminant, t1 and t2 both solve A t² + B t + C = 0 |
| Solvers.LineCircleOnCircle | inter.cpp:83-103 | with a non-negative discriminant every candidate lies exactly on the circle |
| Solvers.CrossingIsRoot | inter.cpp:84-95 | a parameter whose point is exactly on the circle makes the discriminant non-negative and is t1 or t2, according to the sign of 2At + B |
| Solvers.LineCircleFindsCrossing | inter.cpp:90-101 | conversely to the above, a crossing of the line and the circle at a parameter in [-eps, 1+eps] is returned, except the t2 crossing of a discriminant in (0, eps] that the tangency guard drops |
| Solvers.ComputeLineCircleIntersection | inter.cpp:83-103 | the conditional appends build exactly the candidate sequence above |
| Solvers.CircleCircleCandidates | inter.cpp:105-119 | at most two points; none when d > r1+r2+eps or d < abs(r1-r2)-eps; at least one when the circles pass that test with distinct centers (the count and order are in `Solvers.CircleCircleSides`) |
| Solvers.ChordMidpointOnCenterLine | inter.cpp:111-112 | (cx, cy) is the point a/d of the way from c1 to c2 |
| Solvers.ChordEndsMirror | inter.cpp:114-115 | p1 and p2 are mirror images about (cx, cy), each displaced perpendicular to the center line |
| Solvers.HalfChordReal | inter.cpp:109-110 | when abs(r1-r2) <= d <= r1+r2 exactly, r1² - a² >= 0 and h is its true square root |
| Solvers.TangentOffset | inter.cpp:109 | at d == r1 + r2 the radical offset a equals r1 |
| Solvers.ExternalTangency | inter.cpp:105-119 | externally tangent circles give exactly one point, r1/(r1+r2) of the way from c1 to c2 |
| Solvers.ChordEndOffset | inter.cpp:111-115 | a chord end's offset from c1, times d, is a along the center direction plus sign*h along its perpendicular |
| Solvers.ChordEndDistances | inter.cpp:109-115 | given d² = dx² + dy², 2da = r1² - r2² + d² and h² = r1² - a², a chord end is at distance r1 from c1 and r2 from c2 |
| Solvers.RadicalRelations | inter.cpp:106-110 | for circles that meet exactly, the solver's d, a and h satisfy those three relations |
| Solvers.ChordEndOnBothCircles | inter.cpp:105-115 | for circles that meet exactly with distinct centers, `p1` and `p2` each lie on both circles |
| Solvers.CircleCircleOnBoth | inter.cpp:105-119 | when abs(r1-r2) <= d <= r1+r2 exactly, every returned point lies on both full circles |
| Solvers.RadicalValues | inter.cpp:106-110 | returns the solver's d, a and h for circles that meet exactly, together with the three relations above |
| Solvers.CommonPointOffset | inter.cpp:109-115 | a point at distance r1 from c1 and r2 from c2 has, times d, offset a along the center direction plus h or -h along its perpendicular |
| Solvers.ChordEndByOffset | inter.cpp:111-115 | a point with a chord end's offset from c1 is that chord end |
| Solvers.CommonPointChordEnd | inter.cpp:109-115 | given the three relations, every common point of the circles is `p1` or `p2` |
| Solvers.CommonPointIsChordEnd | inter.cpp:105-115 | for circles that meet exactly with distinct centers, every common point is `p1` or `p2` |
| Solvers.ChordEndsReturned | inter.cpp:117-118 | `p1` is always returned, and `p2` whenever abs(h) >= eps |
| Solvers.ChordEndReturned | inter.cpp:114-118 | a chord end of either sign is returned, unless it is the `p2` of a half chord below eps |
| Solvers.CircleCircleFindsCrossing | inter.cpp:105-119 | conversely to CircleCircleOnBoth: for circles that meet exactly with distinct centers, every common point is returned, except the `p2` of a half chord below eps, which the tangency test drops |
| Solvers.ChordEndSide | inter.cpp:111-115 | given d² = dx² + dy², the chord end of sign s has cross product -s·h·d with the center direction c2 - c1 |
| Solvers.CircleCircleSides | inter.cpp:105-119 | for circles that pass the separation test with distinct centers, the result has one point exactly when abs(h) < eps; its first point `p1` lies on the clockwise side of c1 -> c2 (cross product -h·d) and a second point `p2` on the other side (h·d), so a two-point result is [p1, p2] in that order |
| Solvers.ChordEndsApart | inter.cpp:114-115 | with h != 0 and distinct centers, `p1` and `p2` differ |
| Solvers.CircleCircleTwoDistinct | inter.cpp:117-118 | a two-point result holds two different points |
| Solvers.NearMissTakesRootOfNegative | inter.cpp:107-110 | for non-negative radii with r1+r2 < d <= r1+r2+eps a point is returned, although r1² - a² < 0 |
| Filters.OnSegment | inter.cpp:121-130 | true iff abs(cross) <= eps and -eps <= dot <= len2 + eps |
| Filters.OffsetAlongSegment | inter.cpp:122-125 | for p1 + t(p2 - p1) the cross product is 0 and the dot product is t * len2 |
| Filters.OnSegmentAcceptsSegment | inter.cpp:121-130 | every point p1 + t(p2 - p1) with t in [0, 1] is accepted |
| Filters.OnSegmentAcceptsEnds | inter.cpp:121-130 | `start` and `end` are always accepted |
| Filters.PolarAngleRange | inter.cpp:133-138 | a normalised polar angle lies in [0, 2π) |
| Filters.OnArc | inter.cpp:132-143 | a sweep above 2π - eps accepts every point; below that threshold, a sweep below -2 eps accepts no point, since both angle intervals of the test are then empty |
| Filters.OnArcFullCircle | inter.cpp:140 | a sweep above 2π - eps accepts every point |
| Filters.OnArcIgnoresEnd | inter.cpp:135-142 | the result never depends on the arc's end point |
| Filters.OnArcAcceptsStart | inter.cpp:132-143 | the start point is accepted exactly when the sweep is at least -eps |
| Filters.OnArcIsSweep | inter.cpp:140-142 | below the full-circle threshold, the two-interval test means: the counter-clockwise turn from the start angle to p is at most angle + eps, or p is at most eps before the start angle |
| Filters.KeepAdmitted | inter.cpp:40-67 | the kept points are no more than the candidates; each is a candidate accepted by both predicates, and every accepted candidate is kept; it serves both filtering loops, the line-arc one at lines 40-45 and the arc-arc one at lines 62-67 |
| Filters.KeepAdmittedIsSubsequence | inter.cpp:40-67 | the kept points are a subsequence of the candidates, in their original order; it serves both filtering loops, the line-arc one at lines 40-45 and the arc-arc one at lines 62-67 |
| Filters.KeepAdmittedSnoc | inter.cpp:41-44 | one more loop iteration appends the candidate exactly when both predicates accept it |
| IntersectionComputer.LineLineIntersectionPoints | inter.cpp:13-25 | at most one point; none if either line fails to resolve; otherwise the segment-segment solver's answer |
| IntersectionComputer.LineLineResultOnBoth | inter.cpp:13-25 | a returned point lies on both stored segments, at parameters in [-eps, 1+eps] |
| IntersectionComputer.LineCircularArcIntersectionPoints | inter.cpp:27-46 | empty on a failed lookup; otherwise the line-circle candidates accepted by the segment and the arc, in order, a subsequence of at most two points |
| IntersectionComputer.CircularArcCircularArcIntersectionPoints | inter.cpp:48-68 | empty on a failed lookup; otherwise the circle-circle candidates accepted by both arcs, in order, a subsequence of at most two points |
| IntersectionComputer.DiagonalsCrossAtCenter | inter.cpp:166-173 | the segments (0,0)-(2,2) and (0,2)-(2,0) meet in exactly one point, (1,1) |
| IntersectionComputer.MissingLineGivesNothing | inter.cpp:16 | a line index with no entry gives no point |
| IntersectionComputer.ParallelLinesDoNotMeet | inter.cpp:73 | two parallel horizontal segments give no point |

## Left out

- Floating-point behaviour: rounding, `hypot` accuracy, and NaNs from `sqrt` of a negative or from division by zero. The model computes over exact reals.
- Concrete values of `sqrt`, `atan2` and `M_PI`. These are the parameter `Libm`, constrained only by `Geometry.Lawful`. So the arc test cases at inter.cpp:175-187 are not stated as lemmas.
- Solvers.LineCircleCandidates: a zero-length segment (A == 0) gives no point. The source divides by zero there, and its NaN parameters fail every range test, so it emits nothing too.
- Solvers.CircleCircleCandidates: coincident centers (d == 0) that pass the separation test give no point. The source divides by zero and emits NaN points instead.
- Solvers.HalfChord: the square root of r1² - a² is not clamped, as in the source. Inside the eps band admitted at inter.cpp:107 its argument can be negative (`NearMissTakesRootOfNegative` exhibits the band beyond external tangency), and then the model's `h` is whatever `sqrt` returns there, where the source gets NaN.
- Solvers.CircleCircleOnBoth: stated only for circles that meet over exact reals (abs(r1-r2) <= d <= r1+r2). Inside the eps bands that inter.cpp:107 also admits, the half chord is the root of a negative number and nothing is promised about the points.
- Filters.OnArcIsSweep: stated only for sweeps in [-eps, 2π - eps]. Above that range `OnArcFullCircle` applies.
- The sketch store's implementation: `addPoint`, `addLine`, `addClosedConicSectionCurve` and the lookups behind `getPoint`, `getLine` and `getClosedConicSectionCurve`. `Sketches.hpp` and `Point2D.hpp` are not part of this model. A lookup is a map access whose missing key stands for a null pointer, and how indices are assigned is not modelled.
- The test fixture (inter.cpp:148-164) and the include guards. The line-line test case is the lemma `DiagonalsCrossAtCenter`, on a store holding the fixture's six points.
- s.cpp, a collection of user-interface and I/O fragments with no logic of the engine.

