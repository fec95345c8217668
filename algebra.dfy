/**
 * Small facts of real arithmetic that the geometric proofs combine.  Each
 * is kept to one non-linear step so that the solver treats it reliably.
 */
module RealAlgebra {

  lemma MulThenDiv(k: real, m: real)
    requires m != 0.0
    ensures (k * m) / m == k
  {
  }

  /** Two quotients over the same divisor combine into one. */
  lemma QuotientCombination(a: real, b: real, m: real, n: real, d: real)
    requires d != 0.0
    ensures (a / d) * m - (b / d) * n == (a * m - b * n) / d
  {
  }

  /**
   * Cramer's rule for 2x2 systems with columns u and v and right-hand side
   * w: the two numerators, recombined, give w scaled by the determinant.
   */
  lemma CramerRows(ux: real, uy: real, vx: real, vy: real, wx: real, wy: real)
    ensures (wx * vy - wy * vx) * ux - (wx * uy - wy * ux) * vx == wx * (ux * vy - uy * vx)
    ensures (wx * vy - wy * vx) * uy - (wx * uy - wy * ux) * vy == wy * (ux * vy - uy * vx)
  {
  }

  /**
   * Cramer's rule for the 2x2 system t*u - s*v = w: the quotients of the
   * numerators by the determinant solve it.
   */
  lemma CramerSolves(ux: real, uy: real, vx: real, vy: real, wx: real, wy: real, det: real, t: real, s: real)
    requires det == ux * vy - uy * vx && det != 0.0
    requires t == (wx * vy - wy * vx) / det && s == (wx * uy - wy * ux) / det
    ensures t * ux - s * vx == wx && t * uy - s * vy == wy
  {
    CramerRows(ux, uy, vx, vy, wx, wy);
    QuotientCombination(wx * vy - wy * vx, wx * uy - wy * ux, ux, vx, det);
    QuotientCombination(wx * vy - wy * vx, wx * uy - wy * ux, uy, vy, det);
    MulThenDiv(wx, det);
    MulThenDiv(wy, det);
  }

  /** If w = t*u - s*v then the Cramer numerators are t and s times the determinant. */
  lemma CramerNumerators(ux: real, uy: real, vx: real, vy: real, t: real, s: real)
    ensures (t * ux - s * vx) * vy - (t * uy - s * vy) * vx == t * (ux * vy - uy * vx)
    ensures (t * ux - s * vx) * uy - (t * uy - s * vy) * ux == s * (ux * vy - uy * vx)
  {
  }

  lemma DivThenMul(x: real, d: real)
    requires d != 0.0
    ensures (x / d) * d == x
  {
  }

  /** Division by a positive number keeps a strict order. */
  lemma DivStrictMono(x: real, y: real, d: real)
    requires 0.0 < d && x < y
    ensures x / d < y / d
  {
    DivThenMul(x, d);
    DivThenMul(y, d);
    var qx, qy := x / d, y / d;
    if qy <= qx {
      assert qy * d <= qx * d;
    }
  }

  lemma SumOfSquaresNonNegative(x: real, y: real)
    ensures 0.0 <= x * x + y * y
  {
  }

  /**
   * A root written as (-B +/- s)/(2A), with s*s the discriminant, solves the
   * quadratic A*t^2 + B*t + C = 0.
   */
  lemma QuadraticRoot(a: real, b: real, c: real, s: real, t: real)
    requires a != 0.0
    requires s * s == b * b - 4.0 * a * c
    requires 2.0 * a * t + b == s
    ensures a * t * t + b * t + c == 0.0
  {
    var e := a * t * t + b * t + c;
    assert (2.0 * a * t + b) * (2.0 * a * t + b) == 4.0 * a * e + b * b - 4.0 * a * c;
    assert 4.0 * a * e == 0.0;
    MulThenDiv(e, 4.0 * a);
  }

  /** The quadratic formula: (-B + s)/(2A) and (-B - s)/(2A) are roots when s*s = B*B - 4AC. */
  lemma QuadraticFormula(a: real, b: real, c: real, s: real)
    requires a != 0.0
    requires s * s == b * b - 4.0 * a * c
    ensures var t := (-b + s) / (2.0 * a); a * t * t + b * t + c == 0.0
    ensures var t := (-b - s) / (2.0 * a); a * t * t + b * t + c == 0.0
  {
    DivThenMul(-b + s, 2.0 * a);
    DivThenMul(-b - s, 2.0 * a);
    QuadraticRoot(a, b, c, s, (-b + s) / (2.0 * a));
    QuadraticRoot(a, b, c, -s, (-b - s) / (2.0 * a));
  }

  lemma ProductNonNegative(x: real, y: real)
    requires 0.0 <= x && 0.0 <= y
    ensures 0.0 <= x * y
  {
  }

  /** A positive factor does not change the sign of a product. */
  lemma PositiveFactor(d: real, x: real)
    requires 0.0 < d && 0.0 <= d * x
    ensures 0.0 <= x
  {
  }

  lemma QuotientSum(x: real, y: real, d: real)
    requires d != 0.0
    ensures x / d + y / d == (x + y) / d
    ensures x / d - y / d == (x - y) / d
  {
  }

  /**
   * For circles whose center distance d lies between |r1 - r2| and r1 + r2,
   * the radical offset a = (r1^2 - r2^2 + d^2)/(2d) satisfies a^2 <= r1^2.
   */
  lemma RadicalOffsetBound(r1: real, r2: real, d: real, a: real)
    requires 0.0 < d
    requires r1 - r2 <= d && r2 - r1 <= d && d <= r1 + r2
    requires 2.0 * d * a == r1 * r1 - r2 * r2 + d * d
    ensures a * a <= r1 * r1
  {
    ProductNonNegative(r2 - (d - r1), r2 + (d - r1));
    assert d * (2.0 * (r1 - a)) == (r2 - (d - r1)) * (r2 + (d - r1));
    PositiveFactor(d, 2.0 * (r1 - a));
    ProductNonNegative((d + r1) - r2, (d + r1) + r2);
    assert d * (2.0 * (r1 + a)) == ((d + r1) - r2) * ((d + r1) + r2);
    PositiveFactor(d, 2.0 * (r1 + a));
    ProductNonNegative(r1 - a, r1 + a);
  }

  lemma QuotientDot(u: real, v: real, m: real, n: real, d: real)
    requires d != 0.0
    ensures (u / d) * m + (v / d) * n == (u * m + v * n) / d
  {
  }

  lemma QuotientScale(a: real, x: real, d: real)
    requires d != 0.0
    ensures a * x / d == (a / d) * x
  {
  }

  lemma CancelFactor(x: real, y: real, k: real)
    requires k != 0.0 && x * k == y * k
    ensures x == y
  {
  }

  /** A non-zero square factor cancels: n d^2 = e = m d^2 gives n = m. */
  lemma CancelSquare(n: real, m: real, d: real, e: real)
    requires d != 0.0 && n * (d * d) == e && e == m * (d * d)
    ensures n == m
  {
    CancelFactor(n * d, m * d, d);
    CancelFactor(n, m, d);
  }

  /**
   * The side of the center line: an offset (X, Y) with X d = a dx + sh dy and
   * Y d = a dy - sh dx, where d^2 = dx^2 + dy^2, has cross product -sh d with (dx, dy).
   */
  lemma SideOfCenterLine(x: real, y: real, dx: real, dy: real, a: real, sh: real, d: real)
    requires d != 0.0 && d * d == dx * dx + dy * dy
    requires x * d == a * dx + sh * dy && y * d == a * dy - sh * dx
    ensures dx * y - dy * x == -sh * d
  {
    assert (dx * y - dy * x) * d == dx * (y * d) - dy * (x * d);
    assert (dx * y - dy * x) * d == (-sh * d) * d;
    CancelFactor(dx * y - dy * x, -sh * d, d);
  }

  /** Squares of scaled values: (X d)^2 + (Y d)^2 = (X^2 + Y^2) d^2. */
  lemma ScaledSquares(x: real, y: real, d: real, p: real, q: real)
    requires p == x * d && q == y * d
    ensures p * p + q * q == (x * x + y * y) * (d * d)
  {
  }

  /** A scaled dot product: (X d) u + (Y d) v = (X u + Y v) d. */
  lemma ScaledDot(x: real, y: real, d: real, u: real, v: real, p: real, q: real)
    requires p == x * d && q == y * d
    ensures p * u + q * v == (x * u + y * v) * d
  {
  }

  /**
   * The vector a*(u, v) + s*(v, -u), a rotation-free combination of a
   * direction and its perpendicular: its squared norm is (a^2 + s^2)|(u, v)|^2.
   */
  lemma PerpendicularNorm(a: real, s: real, u: real, v: real, p: real, q: real)
    requires p == a * u + s * v && q == a * v - s * u
    ensures p * p + q * q == (a * a + s * s) * (u * u + v * v)
  {
  }

  /** The same vector projected on (u, v) keeps only the a*(u, v) part. */
  lemma PerpendicularProjection(a: real, s: real, u: real, v: real, p: real, q: real)
    requires p == a * u + s * v && q == a * v - s * u
    ensures p * u + q * v == a * (u * u + v * v)
  {
  }

  /**
   * The radical-line point: an offset (x, y) from c1 with
   * (x d, y d) = a (u, v) + s (v, -u), where d^2 = u^2 + v^2,
   * s^2 = r1^2 - a^2 and 2 d a = r1^2 - r2^2 + d^2, is at distance r1 from
   * c1 and at distance r2 from c1 + (u, v).
   */
  lemma RadicalPointDistances(x: real, y: real, u: real, v: real, d: real, a: real, s: real, r1: real, r2: real)
    requires d != 0.0 && d * d == u * u + v * v
    requires x * d == a * u + s * v && y * d == a * v - s * u
    requires s * s == r1 * r1 - a * a
    requires 2.0 * d * a == r1 * r1 - r2 * r2 + d * d
    ensures x * x + y * y == r1 * r1
    ensures (x - u) * (x - u) + (y - v) * (y - v) == r2 * r2
  {
    var p, q := x * d, y * d;
    ScaledSquares(x, y, d, p, q);
    PerpendicularNorm(a, s, u, v, p, q);
    CancelSquare(x * x + y * y, r1 * r1, d, (a * a + s * s) * (u * u + v * v));
    ScaledDot(x, y, d, u, v, p, q);
    PerpendicularProjection(a, s, u, v, p, q);
    assert (x * u + y * v) * d == (a * d) * d;
    CancelFactor(x * u + y * v, a * d, d);
    ShiftedSquares(x, y, u, v, x * x + y * y, x * u + y * v);
  }

  /** |(x, y) - (u, v)|^2 = |(x, y)|^2 - 2 (x, y).(u, v) + |(u, v)|^2. */
  lemma ShiftedSquares(x: real, y: real, u: real, v: real, n: real, k: real)
    requires n == x * x + y * y && k == x * u + y * v
    ensures (x - u) * (x - u) + (y - v) * (y - v) == n - 2.0 * k + (u * u + v * v)
  {
  }

  /** m + h v / d and m - h v / d coincide only when h v = 0. */
  lemma MirroredOffset(m: real, h: real, v: real, d: real)
    requires d != 0.0 && m + 1.0 * h * v / d == m + -1.0 * h * v / d
    ensures h * v == 0.0
  {
    DivThenMul(1.0 * h * v, d);
    DivThenMul(-1.0 * h * v, d);
  }

  lemma ZeroProduct(x: real, y: real)
    requires x != 0.0 && x * y == 0.0
    ensures y == 0.0
  {
  }

  /** A sign of square one leaves a square unchanged. */
  lemma SignedSquare(sign: real, h: real)
    requires sign * sign == 1.0
    ensures (sign * h) * (sign * h) == h * h
  {
    assert (sign * h) * (sign * h) == (sign * sign) * (h * h);
  }

  lemma SquareStrictMono(x: real, y: real)
    requires 0.0 <= x < y
    ensures x * x < y * y
  {
    var g := y - x;
    ProductNonNegative(x, g);
    PositiveProduct(g, y);
    assert y * y - x * x == x * g + g * y;
  }

  lemma PositiveProduct(x: real, y: real)
    requires 0.0 < x && 0.0 < y
    ensures 0.0 < x * y
  {
  }

  /** A non-negative number whose square is e^2 is the absolute value of e. */
  lemma RootOfSquare(s: real, e: real)
    requires 0.0 <= s && s * s == e * e
    ensures s == (if e < 0.0 then -e else e)
  {
    var ae := if e < 0.0 then -e else e;
    assert ae * ae == e * e;
    if s < ae {
      SquareStrictMono(s, ae);
      assert false;
    } else if ae < s {
      SquareStrictMono(ae, s);
      assert false;
    }
  }

  /** A root t of A t^2 + B t + C makes the discriminant the square of 2 A t + B. */
  lemma CompletedSquare(a: real, b: real, c: real, t: real)
    requires a * t * t + b * t + c == 0.0
    ensures b * b - 4.0 * a * c == (2.0 * a * t + b) * (2.0 * a * t + b)
    ensures 0.0 <= b * b - 4.0 * a * c
  {
    assert (2.0 * a * t + b) * (2.0 * a * t + b) == 4.0 * a * (a * t * t + b * t + c) + (b * b - 4.0 * a * c);
    SumOfSquaresNonNegative(2.0 * a * t + b, 0.0);
  }

  /**
   * A root t of A t^2 + B t + C = 0 is the quadratic-formula root whose sign
   * of sqrt matches the sign of 2 A t + B.
   */
  lemma RootIsFormulaRoot(a: real, b: real, c: real, t: real, sq: real)
    requires a != 0.0 && a * t * t + b * t + c == 0.0
    requires 0.0 <= sq && sq * sq == b * b - 4.0 * a * c
    ensures 0.0 <= 2.0 * a * t + b ==> t == (-b + sq) / (2.0 * a)
    ensures 2.0 * a * t + b < 0.0 ==> t == (-b - sq) / (2.0 * a)
  {
    CompletedSquare(a, b, c, t);
    RootOfSquare(sq, 2.0 * a * t + b);
    MulThenDiv(t, 2.0 * a);
  }

  lemma NegativeFactor(d: real, x: real)
    requires 0.0 < d && d * x < 0.0
    ensures x < 0.0
  {
  }

  /**
   * For circles slightly too far apart (d > r1 + r2, non-negative radii)
   * the radical offset exceeds r1, so r1^2 - a^2 is negative.
   */
  lemma RadicalOffsetBeyondTangency(r1: real, r2: real, d: real, a: real)
    requires 0.0 <= r1 && 0.0 <= r2 && r1 + r2 < d
    requires 2.0 * d * a == r1 * r1 - r2 * r2 + d * d
    ensures r1 * r1 - a * a < 0.0
  {
    var g := d - r1;
    SquareStrictMono(r2, g);
    assert d * (2.0 * (r1 - a)) == r2 * r2 - g * g;
    NegativeFactor(d, 2.0 * (r1 - a));
    SquareStrictMono(r1, a);
  }

  /**
   * A point at distance r1 from the origin and r2 from (u, v), with
   * d^2 = u^2 + v^2 and 2 d a = r1^2 - r2^2 + d^2, projects onto (u, v) as a d.
   */
  lemma ProjectionFromDistances(x: real, y: real, u: real, v: real, d: real, a: real, r1: real, r2: real)
    requires x * x + y * y == r1 * r1 && (x - u) * (x - u) + (y - v) * (y - v) == r2 * r2
    requires d * d == u * u + v * v && 2.0 * d * a == r1 * r1 - r2 * r2 + d * d
    ensures x * u + y * v == a * d
  {
    ShiftedSquares(x, y, u, v, x * x + y * y, x * u + y * v);
  }

  /** Lagrange's identity in the plane: dot^2 + cross^2 = |X|^2 |U|^2. */
  lemma Lagrange(x: real, y: real, u: real, v: real)
    ensures (x * u + y * v) * (x * u + y * v) + (x * v - y * u) * (x * v - y * u) ==
      (x * x + y * y) * (u * u + v * v)
  {
  }

  /** A planar vector is recovered, scaled by |U|^2, from its dot and cross with U. */
  lemma FromDotAndCross(x: real, y: real, u: real, v: real)
    ensures (x * u + y * v) * u + (x * v - y * u) * v == x * (u * u + v * v)
    ensures (x * u + y * v) * v - (x * v - y * u) * u == y * (u * u + v * v)
  {
  }

  /**
   * With k = a d and w = c d, k^2 + w^2 = r1^2 d^2 forces c^2 = r1^2 - a^2.
   */
  lemma ScaledCross(k: real, w: real, a: real, c: real, d: real, r1: real)
    requires d != 0.0 && k == a * d && w == c * d
    requires k * k + w * w == (r1 * r1) * (d * d)
    ensures c * c == r1 * r1 - a * a
  {
    assert k * k + w * w == (a * a + c * c) * (d * d);
    CancelSquare(a * a + c * c, r1 * r1, d, k * k + w * w);
  }

  /** From x d^2 = k u + w v with k = a d and w = c d: x d = a u + c v. */
  lemma ScaledComponent(x: real, k: real, w: real, u: real, v: real, a: real, c: real, d: real, dd: real)
    requires d != 0.0 && dd == d * d && k == a * d && w == c * d
    requires k * u + w * v == x * dd
    ensures x * d == a * u + c * v
  {
    assert (x * d) * d == (a * u + c * v) * d;
    CancelFactor(x * d, a * u + c * v, d);
  }

  /**
   * The converse of RadicalPointDistances: a point (x, y) at distance r1 from
   * the origin and r2 from (u, v) is the radical-line point
   * (x d, y d) = a (u, v) + sign*h (v, -u) for a sign of square one, where h
   * is the non-negative root of r1^2 - a^2.
   */
  lemma RadicalPointFromDistances(x: real, y: real, u: real, v: real, d: real, a: real, h: real, r1: real, r2: real)
    returns (sign: real)
    requires d != 0.0 && d * d == u * u + v * v
    requires x * x + y * y == r1 * r1 && (x - u) * (x - u) + (y - v) * (y - v) == r2 * r2
    requires 2.0 * d * a == r1 * r1 - r2 * r2 + d * d
    requires 0.0 <= h && h * h == r1 * r1 - a * a
    ensures sign == 1.0 || sign == -1.0
    ensures x * d == a * u + sign * h * v && y * d == a * v - sign * h * u
  {
    ProjectionFromDistances(x, y, u, v, d, a, r1, r2);
    var k, w := x * u + y * v, x * v - y * u;
    Lagrange(x, y, u, v);
    var c := w / d;
    DivThenMul(w, d);
    ScaledCross(k, w, a, c, d, r1);
    RootOfSquare(h, c);
    sign := if c < 0.0 then -1.0 else 1.0;
    assert c == sign * h;
    FromDotAndCross(x, y, u, v);
    ScaledComponent(x, k, w, u, v, a, c, d, u * u + v * v);
    ScaledComponent(y, k, -w, v, u, a, -c, d, u * u + v * v);
  }
}

