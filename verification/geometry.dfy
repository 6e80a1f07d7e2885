/**
 * Planar geometry used by the morph: points, vectors and segments with real
 * coordinates, and the geometric kernel that measures distances.
 *
 * The original code is generic in a geometric kernel K and measures a segment
 * as the square root of its squared length.  A square root cannot be computed
 * exactly on reals here, so the kernel is a value that carries its distance
 * function, and `Kernel.Valid()` states everything the model relies on about
 * it: distances are non-negative, the distance from a point to itself is zero,
 * and a distance squared is the squared length of the segment.
 */
module Geometry {

  datatype Point = Point(x: real, y: real)

  /** A segment from `source` to `target`; also one correspondence of the morph. */
  datatype Segment = Segment(source: Point, target: Point)

  /**
   * The point at fraction `k` of the way from `p` to `q`: `p + (q - p) * k`,
   * written coordinate by coordinate.
   */
  function Lerp(p: Point, q: Point, k: real): (r: Point)
    ensures k == 0.0 ==> r == p
    ensures k == 1.0 ==> r == q
  {
    Point(p.x + (q.x - p.x) * k, p.y + (q.y - p.y) * k)
  }

  /** Squared length of the segment from `p` to `q`. */
  function SquaredDistance(p: Point, q: Point): (r: real)
    ensures r >= 0.0
  {
    var dx, dy := q.x - p.x, q.y - p.y;
    SquareNonNegative(dx);
    SquareNonNegative(dy);
    dx * dx + dy * dy
  }

  /** The geometric kernel: the distance it computes between two points. */
  datatype Kernel = Kernel(dist: (Point, Point) -> real) {

    /** What a square root of the squared segment length satisfies. */
    ghost predicate Valid() {
      && (forall p, q :: dist(p, q) >= 0.0)
      && (forall p :: dist(p, p) == 0.0)
      // instantiated only where a squared length is mentioned, so that the
      // solver sees products of distances only in proofs that need them
      && (forall p, q {:trigger SquaredDistance(p, q)} :: dist(p, q) * dist(p, q) == SquaredDistance(p, q))
    }
  }

  // Small facts of real arithmetic, each stated on its own so that the
  // solver never has to combine several products in one proof.

  lemma SquareNonNegative(a: real)
    ensures a * a >= 0.0
  {
  }

  lemma ProductPositive(u: real, v: real)
    requires u > 0.0 && v > 0.0
    ensures u * v > 0.0
  {
  }

  lemma ProductNonNegative(u: real, v: real)
    requires u >= 0.0 && v >= 0.0
    ensures u * v >= 0.0
  {
  }

  lemma DifferenceOfSquares(a: real, b: real)
    ensures (b - a) * (b + a) == b * b - a * a
  {
  }

  lemma SquareOfProduct(u: real, t: real)
    ensures (u * t) * (u * t) == (t * t) * (u * u)
  {
  }

  lemma Distribute(c: real, u: real, v: real)
    ensures c * u + c * v == c * (u + v)
  {
  }

  lemma SquareOfNegation(a: real)
    ensures (-a) * (-a) == a * a
  {
  }

  /** Two non-negative reals with the same square are equal. */
  lemma SquareRootUnique(a: real, b: real)
    requires a >= 0.0 && b >= 0.0 && a * a == b * b
    ensures a == b
  {
    if a < b {
      ProductPositive(b - a, b + a);
      DifferenceOfSquares(a, b);
    } else if b < a {
      ProductPositive(a - b, a + b);
      DifferenceOfSquares(b, a);
    }
  }

  /** Only zero squares to zero. */
  lemma SquareZero(a: real)
    requires a * a == 0.0
    ensures a == 0.0
  {
    if a < 0.0 {
      SquareOfNegation(a);
      SquareRootUnique(-a, 0.0);
    } else {
      SquareRootUnique(a, 0.0);
    }
  }

  /** The squared distance vanishes exactly between equal points, and does not depend on direction. */
  lemma SquaredDistanceProperties(p: Point, q: Point)
    ensures SquaredDistance(p, q) == 0.0 <==> p == q
    ensures SquaredDistance(p, q) == SquaredDistance(q, p)
  {
    var dx, dy := q.x - p.x, q.y - p.y;
    SquareNonNegative(dx);
    SquareNonNegative(dy);
    if SquaredDistance(p, q) == 0.0 {
      assert dx * dx == 0.0 && dy * dy == 0.0;
      SquareZero(dx);
      SquareZero(dy);
    }
    SquareOfNegation(dx);
    SquareOfNegation(dy);
  }

  /** A distance is determined by its square: the kernel measures a segment of squared length `s * s` as `s`. */
  lemma DistanceFromSquare(k: Kernel, p: Point, q: Point, s: real)
    requires k.Valid()
    requires s >= 0.0 && SquaredDistance(p, q) == s * s
    ensures k.dist(p, q) == s
  {
    SquareRootUnique(k.dist(p, q), s);
  }

  /** Distances vanish exactly between equal points, and do not depend on direction. */
  lemma DistanceProperties(k: Kernel, p: Point, q: Point)
    requires k.Valid()
    ensures k.dist(p, q) == 0.0 <==> p == q
    ensures k.dist(p, q) == k.dist(q, p)
  {
    var d := k.dist(p, q);
    SquaredDistanceProperties(p, q);
    if d == 0.0 {
      assert SquaredDistance(p, q) == d * d;
      assert SquaredDistance(p, q) == 0.0;
    }
    SquareRootUnique(d, k.dist(q, p));
  }

  /**
   * The point at fraction `t` (in [0, 1]) of a segment splits it into two
   * pieces measuring `t` and `1 - t` of its length.
   */
  lemma LerpDistances(k: Kernel, p: Point, q: Point, t: real)
    requires k.Valid()
    requires 0.0 <= t <= 1.0
    ensures k.dist(p, Lerp(p, q, t)) == t * k.dist(p, q)
    ensures k.dist(Lerp(p, q, t), q) == (1.0 - t) * k.dist(p, q)
  {
    ScaledDistance(k, p, q, p, Lerp(p, q, t), t);
    ScaledDistance(k, p, q, Lerp(p, q, t), q, 1.0 - t);
  }

  /** A segment whose sides are `u` times those of the segment from `p` to `q` measures `u` times its distance. */
  lemma ScaledDistance(k: Kernel, p: Point, q: Point, a: Point, b: Point, u: real)
    requires k.Valid() && u >= 0.0
    requires b.x - a.x == (q.x - p.x) * u && b.y - a.y == (q.y - p.y) * u
    ensures k.dist(a, b) == u * k.dist(p, q)
  {
    var d := k.dist(p, q);
    var dx, dy := q.x - p.x, q.y - p.y;
    assert d * d == SquaredDistance(p, q) == dx * dx + dy * dy;
    SquareOfProduct(d, u);
    ProductNonNegative(d, u);
    ScaledSquaredDistance(a, b, dx, dy, u);
    DistanceFromSquare(k, a, b, d * u);
  }

  /** A segment whose sides are `u` times `dx` and `dy` has `u * u` times their squared length. */
  lemma ScaledSquaredDistance(a: Point, b: Point, dx: real, dy: real, u: real)
    requires b.x - a.x == dx * u && b.y - a.y == dy * u
    ensures SquaredDistance(a, b) == (u * u) * (dx * dx + dy * dy)
  {
    SquareOfProduct(dx, u);
    SquareOfProduct(dy, u);
    Distribute(u * u, dx * dx, dy * dy);
  }

  /** A fraction of a positive length lies in [0, 1] when its numerator lies between 0 and the length. */
  lemma FractionBounds(x: real, l: real)
    requires l > 0.0 && 0.0 <= x <= l
    ensures 0.0 <= x / l <= 1.0
    ensures (x / l) * l == x
  {
  }

  /** The quotient `x / l` is the one `t` with `t * l == x`. */
  lemma QuotientUnique(x: real, l: real, t: real)
    requires l > 0.0 && t * l == x
    ensures x / l == t
  {
  }

  /** A fraction `t` in [0, 1] of a non-negative length lies between 0 and that length. */
  lemma ScaledWithin(t: real, l: real)
    requires 0.0 <= t <= 1.0 && l >= 0.0
    ensures 0.0 <= t * l <= l
  {
    ProductNonNegative(t, l);
    ProductNonNegative(1.0 - t, l);
    assert (1.0 - t) * l == l - t * l;
  }
}
