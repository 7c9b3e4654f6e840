/** Plane vectors over exact reals (nalgebra's `Vector2`), and the square root
    the engine borrows from the floating-point library (`f64::sqrt`, and the
    `norm` nalgebra builds on it). */
module Geometry {

  datatype Vec = Vec(x: real, y: real)

  const Zero: Vec := Vec(0.0, 0.0)

  function Plus(a: Vec, b: Vec): Vec { Vec(a.x + b.x, a.y + b.y) }

  function Minus(a: Vec, b: Vec): Vec { Vec(a.x - b.x, a.y - b.y) }

  function Scale(k: real, a: Vec): Vec { Vec(k * a.x, k * a.y) }

  function Dot(a: Vec, b: Vec): real { a.x * b.x + a.y * b.y }

  /** Componentwise minimum and maximum (nalgebra's `inf` and `sup`). */
  function Inf(a: Vec, b: Vec): (r: Vec)
    ensures r.x <= a.x && r.x <= b.x && (r.x == a.x || r.x == b.x)
    ensures r.y <= a.y && r.y <= b.y && (r.y == a.y || r.y == b.y)
  {
    Vec(if a.x <= b.x then a.x else b.x, if a.y <= b.y then a.y else b.y)
  }

  function Sup(a: Vec, b: Vec): (r: Vec)
    ensures r.x >= a.x && r.x >= b.x && (r.x == a.x || r.x == b.x)
    ensures r.y >= a.y && r.y >= b.y && (r.y == a.y || r.y == b.y)
  {
    Vec(if a.x >= b.x then a.x else b.x, if a.y >= b.y then a.y else b.y)
  }

  /** nalgebra's `add_scalar`: the same amount added to both coordinates. */
  function AddScalar(a: Vec, s: real): Vec { Vec(a.x + s, a.y + s) }

  // ---------------------------------------------------------------------
  // The dot product is bilinear and symmetric. These lemmas are stated for
  // distinct arguments, so that a use with equal arguments needs no
  // reasoning about squares.

  lemma DotSymmetric(a: Vec, b: Vec)
    ensures Dot(a, b) == Dot(b, a)
  {
  }

  lemma DotScaleLeft(k: real, a: Vec, b: Vec)
    ensures Dot(Scale(k, a), b) == k * Dot(a, b)
  {
    assert (k * a.x) * b.x + (k * a.y) * b.y == k * (a.x * b.x + a.y * b.y);
  }

  lemma DotPlusLeft(a: Vec, b: Vec, c: Vec)
    ensures Dot(Plus(a, b), c) == Dot(a, c) + Dot(b, c)
  {
  }

  lemma DotMinusLeft(a: Vec, b: Vec, c: Vec)
    ensures Dot(Minus(a, b), c) == Dot(a, c) - Dot(b, c)
  {
  }

  lemma DotZeroLeft(a: Vec)
    ensures Dot(Zero, a) == 0.0
  {
  }

  // ---------------------------------------------------------------------
  // Facts about products of plain reals. A square is written x * x2 with
  // x2 == x: stated that way the solver reasons about it as about any
  // other product.

  /** A sum of two squares is never negative, and is zero only at the origin. */
  lemma SumOfSquares(x: real, x2: real, y: real, y2: real, s: real)
    requires x2 == x && y2 == y && s == x * x2 + y * y2
    ensures s >= 0.0
    ensures s == 0.0 <==> x == 0.0 && y == 0.0
  {
    SquareSign(x, x2);
    SquareSign(y, y2);
  }

  lemma SquareSign(x: real, x2: real)
    requires x2 == x
    ensures x * x2 >= 0.0
    ensures x != 0.0 ==> x * x2 > 0.0
  {
    if x > 0.0 {
    } else if x < 0.0 {
    } else {
    }
  }

  /** Squaring is strictly increasing on the non-negative reals. */
  lemma SquareLess(u: real, w: real)
    requires 0.0 <= u < w
    ensures u * u < w * w
  {
    assert u * (w - u) >= 0.0;
    assert (w - u) * w > 0.0;
  }

  /** Both sides non-negative: comparing the values is comparing their squares. */
  lemma SquaresCompare(u: real, u2: real, w: real, w2: real)
    requires u2 == u && w2 == w && u >= 0.0 && w >= 0.0
    ensures u <= w <==> u * u2 <= w * w2
    ensures u < w <==> u * u2 < w * w2
  {
    if u < w {
      SquareLess(u, w);
    } else if u > w {
      SquareLess(w, u);
    }
  }

  lemma DotSelfNonNegative(a: Vec)
    ensures Dot(a, a) >= 0.0
    ensures Dot(a, a) == 0.0 <==> a == Zero
  {
    SumOfSquares(a.x, a.x, a.y, a.y, Dot(a, a));
  }

  // ---------------------------------------------------------------------
  // The square root routine, which is not part of this model

  /** What the model assumes of the library's square root over exact reals. */
  ghost predicate IsSqrt(sqrt: real -> real)
  {
    forall x :: x >= 0.0 ==> sqrt(x) >= 0.0 && sqrt(x) * sqrt(x) == x
  }

  /** nalgebra's `norm`: the square root of the vector's squared length. */
  function Norm(v: Vec, sqrt: real -> real): real
  {
    sqrt(Dot(v, v))
  }

  lemma NormFacts(v: Vec, sqrt: real -> real)
    requires IsSqrt(sqrt)
    ensures Norm(v, sqrt) >= 0.0
    ensures Norm(v, sqrt) * Norm(v, sqrt) == Dot(v, v)
  {
    DotSelfNonNegative(v);
  }

  /** A square root is determined by the two facts IsSqrt assumes. */
  lemma SqrtOfSquare(sqrt: real -> real, s: real)
    requires IsSqrt(sqrt)
    requires s >= 0.0
    ensures sqrt(s * s) == s
  {
    SquaresCompare(s, s, 0.0, 0.0);
    var r := sqrt(s * s);
    SquaresCompare(r, r, s, s);
  }

  /** The norm is at most a bound exactly when the squared length is at most
      the bound's square. */
  lemma NormAtMost(v: Vec, sqrt: real -> real, bound: real)
    requires IsSqrt(sqrt)
    requires bound >= 0.0
    ensures Norm(v, sqrt) <= bound <==> Dot(v, v) <= bound * bound
  {
    NormFacts(v, sqrt);
    var n := Norm(v, sqrt);
    SquaresCompare(n, n, bound, bound);
  }

  /** Scaling a vector by cap / |v| gives it length exactly cap. */
  lemma ScaledToLength(v: Vec, sqrt: real -> real, cap: real)
    requires IsSqrt(sqrt)
    requires Norm(v, sqrt) > 0.0
    ensures Dot(Scale(cap / Norm(v, sqrt), v), Scale(cap / Norm(v, sqrt), v)) == cap * cap
  {
    NormFacts(v, sqrt);
    var n := Norm(v, sqrt);
    var k := cap / n;
    var w := Scale(k, v);
    DotScaleLeft(k, v, w);
    DotSymmetric(v, w);
    DotScaleLeft(k, v, v);
    ScaledSquare(k, n, cap, Dot(v, v));
  }

  lemma ScaledSquare(k: real, n: real, cap: real, d: real)
    requires n > 0.0 && n * n == d && k == cap / n
    ensures k * (k * d) == cap * cap
  {
    assert k * n == cap;
    assert k * (k * d) == (k * n) * (k * n);
  }
}
