/** The narrow phase: closed-form contact times for a pair of bodies
    (src/collision/solvers.rs). */
module Solvers {
  import opened Geometry
  import opened Entities
  import opened Advance

  const EPSILON: real := 0.00001

  function Abs(x: real): real { if x >= 0.0 then x else -x }

  /** `solve_collision`: the contact interval of two bodies, if they approach. */
  function SolveCollision(c0: Collidable, c1: Collidable, lib: Library): Option<(real, real)>
  {
    match c0
    case Ball(b0) =>
      (match c1
       case Ball(b1) => SolveBallBall(b0, b1, lib.sqrt)
       case Wall(w) => SolveBallWall(b0, w, lib.normal(w)))
    case Wall(w) =>
      (match c1
       case Ball(b) => SolveBallWall(b, w, lib.normal(w))
       case Wall(_) => None)
  }

  /** Two walls never meet; the order of the two bodies does not matter. */
  lemma SolveCollisionSymmetric(c0: Collidable, c1: Collidable, lib: Library)
    ensures SolveCollision(c0, c1, lib) == SolveCollision(c1, c0, lib)
    ensures c0.Wall? && c1.Wall? ==> SolveCollision(c0, c1, lib).None?
  {
    if c0.Ball? && c1.Ball? {
      SolveBallBallSymmetric(c0.ball, c1.ball, lib.sqrt);
    }
  }

  /** No body has a contact with itself: a ball has no relative velocity to
      itself, and two walls never meet. */
  lemma NoSelfContact(c: Collidable, lib: Library)
    ensures SolveCollision(c, c, lib).None?
  {
    if c.Ball? {
      assert RelativeVelocity(c.ball, c.ball) == Zero;
      DotZeroLeft(Offset(c.ball, c.ball));
    }
  }

  // ---------------------------------------------------------------------
  // Ball against wall: the wall is the infinite line through p0 with normal n.

  /** Signed distance of the ball's centre from the wall's line at time t. */
  function SignedDistance(b: Ball, w: Wall, n: Vec, t: real): real
  {
    Dot(n, Minus(PositionAt(b, t), w.p0))
  }

  /** Rate at which the signed distance changes. */
  function NormalSpeed(b: Ball, n: Vec): real
  {
    Dot(n, b.velocity)
  }

  lemma SignedDistanceLinear(b: Ball, w: Wall, n: Vec, t: real)
    ensures SignedDistance(b, w, n, t)
         == SignedDistance(b, w, n, b.initialTime) + (t - b.initialTime) * NormalSpeed(b, n)
  {
    var p, v, s := b.position, b.velocity, t - b.initialTime;
    assert n.x * ((p.x + s * v.x) - w.p0.x) + n.y * ((p.y + s * v.y) - w.p0.y)
        == (n.x * (p.x - w.p0.x) + n.y * (p.y - w.p0.y)) + s * (n.x * v.x + n.y * v.y);
  }

  /** `solve_collision_ball_wall`: unless the ball is not getting closer to
      the wall's line, the times at which the signed distance is the radius
      and zero. */
  function SolveBallWall(b: Ball, w: Wall, n: Vec): Option<(real, real)>
  {
    var a := Dot(n, b.velocity);
    var d := Dot(n, Minus(b.position, w.p0));
    if d * a >= 0.0 then
      None
    else
      Some((-(d - b.radius) / a + b.initialTime, -d / a + b.initialTime))
  }

  /** The solver gives up exactly when, from the initial time on, the ball
      never gets closer to the line than it is. */
  lemma BallWallNoneIffReceding(b: Ball, w: Wall, n: Vec)
    ensures SolveBallWall(b, w, n).None? <==> forall t :: t >= b.initialTime ==>
      Abs(SignedDistance(b, w, n, t)) >= Abs(SignedDistance(b, w, n, b.initialTime))
  {
    var a, d := Dot(n, b.velocity), Dot(n, Minus(b.position, w.p0));
    if d * a >= 0.0 {
      BallWallReceding(b, w, n);
    } else {
      BallWallTimes(b, w, n);
    }
  }

  /** Otherwise the first time is when the signed distance equals the radius,
      the second when the centre is on the line. */
  lemma BallWallContactTimes(b: Ball, w: Wall, n: Vec)
    requires SolveBallWall(b, w, n).Some?
    ensures SignedDistance(b, w, n, SolveBallWall(b, w, n).value.0) == b.radius
    ensures SignedDistance(b, w, n, SolveBallWall(b, w, n).value.1) == 0.0
  {
    BallWallTimes(b, w, n);
  }

  lemma BallWallReceding(b: Ball, w: Wall, n: Vec)
    requires Dot(n, Minus(b.position, w.p0)) * Dot(n, b.velocity) >= 0.0
    ensures forall t :: t >= b.initialTime ==>
      Abs(SignedDistance(b, w, n, t)) >= Abs(SignedDistance(b, w, n, b.initialTime))
  {
    var a, d := Dot(n, b.velocity), Dot(n, Minus(b.position, w.p0));
    var ti := b.initialTime;
    SignedDistanceLinear(b, w, n, ti);
    forall t | t >= ti
      ensures Abs(SignedDistance(b, w, n, t)) >= Abs(SignedDistance(b, w, n, ti))
    {
      SignedDistanceLinear(b, w, n, t);
      SameSignSum(d, a, t - ti, (t - ti) * a);
    }
  }

  lemma BallWallTimes(b: Ball, w: Wall, n: Vec)
    requires Dot(n, Minus(b.position, w.p0)) * Dot(n, b.velocity) < 0.0
    ensures var a, d := Dot(n, b.velocity), Dot(n, Minus(b.position, w.p0));
      && SignedDistance(b, w, n, -(d - b.radius) / a + b.initialTime) == b.radius
      && SignedDistance(b, w, n, -d / a + b.initialTime) == 0.0
      && Abs(SignedDistance(b, w, n, -d / a + b.initialTime)) < Abs(SignedDistance(b, w, n, b.initialTime))
  {
    var a, d := Dot(n, b.velocity), Dot(n, Minus(b.position, w.p0));
    var ti := b.initialTime;
    var t0, t1 := -(d - b.radius) / a + ti, -d / a + ti;
    SignedDistanceLinear(b, w, n, ti);
    SignedDistanceLinear(b, w, n, t0);
    SignedDistanceLinear(b, w, n, t1);
    assert (t0 - ti) * a == -(d - b.radius);
    assert (t1 - ti) * a == -d;
  }

  /** Moving along a rate with the sign of the offset never brings the offset closer to zero. */
  lemma SameSignSum(d: real, a: real, s: real, sa: real)
    requires d * a >= 0.0 && s >= 0.0 && sa == s * a
    ensures Abs(d + sa) >= Abs(d)
  {
    if a > 0.0 {
      assert sa >= 0.0;
    } else if a < 0.0 {
      assert sa <= 0.0;
    } else {
      assert sa == 0.0;
    }
  }

  /** A ball on the normal side (d > 0) moving toward the wall (a < 0) reaches
      radius distance before its centre reaches the line. */
  lemma BallWallEntryBeforeTouch(b: Ball, w: Wall, n: Vec)
    requires SignedDistance(b, w, n, b.initialTime) > 0.0 && NormalSpeed(b, n) < 0.0
    requires b.radius >= 0.0
    ensures SolveBallWall(b, w, n).Some?
    ensures SolveBallWall(b, w, n).value.0 <= SolveBallWall(b, w, n).value.1
  {
    var a, d := NormalSpeed(b, n), Dot(n, Minus(b.position, w.p0));
    SignedDistanceLinear(b, w, n, b.initialTime);
    DivideByNegative(b.radius, a);
    assert -(d - b.radius) / a == -d / a + b.radius / a;
  }

  lemma DivideByNegative(r: real, a: real)
    requires r >= 0.0 && a < 0.0
    ensures r / a <= 0.0
  {
  }

  /** A ball behind the wall (d < 0) moving toward it (a > 0): the first time
      returned is the one at which the centre is r in front of the line, which
      comes after the centre has crossed it. */
  lemma BallWallFromBehind(b: Ball, w: Wall, n: Vec)
    requires SignedDistance(b, w, n, b.initialTime) < 0.0 && NormalSpeed(b, n) > 0.0
    requires b.radius > 0.0
    ensures SolveBallWall(b, w, n).Some?
    ensures SolveBallWall(b, w, n).value.0 > SolveBallWall(b, w, n).value.1
  {
    var a, d := NormalSpeed(b, n), Dot(n, Minus(b.position, w.p0));
    SignedDistanceLinear(b, w, n, b.initialTime);
    assert b.radius / a > 0.0;
    assert -(d - b.radius) / a == -d / a + b.radius / a;
  }

  lemma DivideExactly(x: real, a: real, q: real)
    requires a != 0.0 && x == q * a
    ensures x / a == q
  {
  }

  // ---------------------------------------------------------------------
  // Ball against ball.

  function RelativeVelocity(b0: Ball, b1: Ball): Vec { Minus(b0.velocity, b1.velocity) }

  /** The difference of the two recorded positions (`dx`). */
  function Offset(b0: Ball, b1: Ball): Vec { Minus(b0.position, b1.position) }

  /** The difference of the two positions extrapolated back to time 0 (`affine`). */
  function AffineOffset(b0: Ball, b1: Ball): Vec
  {
    Minus(Minus(b0.position, Scale(b0.initialTime, b0.velocity)),
          Minus(b1.position, Scale(b1.initialTime, b1.velocity)))
  }

  /** The vector between the two centres at time t. */
  function Separation(b0: Ball, b1: Ball, t: real): Vec
  {
    Minus(PositionAt(b0, t), PositionAt(b1, t))
  }

  function ContactDistance(b0: Ball, b1: Ball): real { b0.radius + b1.radius }

  /** The square of the contact distance (r0 + r1)^2. */
  function ContactSquared(b0: Ball, b1: Ball): real
  {
    ContactDistance(b0, b1) * ContactDistance(b0, b1)
  }

  /** The value of a t^2 + b t + c. */
  function Quadratic(a: real, b: real, c: real, t: real): real
  {
    a * (t * t) + b * t + c
  }

  /** The coefficients of |affine + t dv|^2 - (r0 + r1)^2 as a polynomial in t. */
  function CoefA(b0: Ball, b1: Ball): real
  {
    Dot(RelativeVelocity(b0, b1), RelativeVelocity(b0, b1))
  }

  function CoefB(b0: Ball, b1: Ball): real
  {
    Dot(RelativeVelocity(b0, b1), AffineOffset(b0, b1)) * 2.0
  }

  function CoefC(b0: Ball, b1: Ball): real
  {
    Dot(AffineOffset(b0, b1), AffineOffset(b0, b1)) - ContactSquared(b0, b1)
  }

  /** The discriminant b^2 - 4ac of a t^2 + b t + c. */
  function Disc(a: real, b: real, c: real): real
  {
    b * b - 4.0 * a * c
  }

  function Discriminant(b0: Ball, b1: Ball): real
  {
    Disc(CoefA(b0, b1), CoefB(b0, b1), CoefC(b0, b1))
  }

  /** `solve_collision_ball_ball`: the entry time and the time of closest
      approach, for balls that approach and come within contact distance. */
  function SolveBallBall(b0: Ball, b1: Ball, sqrt: real -> real): (r: Option<(real, real)>)
    ensures r.None? <==>
      Dot(RelativeVelocity(b0, b1), Offset(b0, b1)) > -EPSILON || Discriminant(b0, b1) < -EPSILON
    ensures r.Some? ==> CoefA(b0, b1) > 0.0
  {
    var dv := RelativeVelocity(b0, b1);
    var dx := Offset(b0, b1);
    var proj := Dot(dv, dx);
    if proj > -EPSILON then
      None
    else
      var a := CoefA(b0, b1);
      var b := CoefB(b0, b1);
      var disc := Discriminant(b0, b1);
      if disc < -EPSILON then
        None
      else
        var sqrtDisc := sqrt(if disc >= 0.0 then disc else 0.0);
        ApproachingMeansMoving(dv, dx);
        Some(((-b - sqrtDisc) / (2.0 * a), -b / (2.0 * a)))
  }

  /** Bodies whose relative velocity has a negative component along some
      vector are moving relative to each other. */
  lemma ApproachingMeansMoving(dv: Vec, dx: Vec)
    requires Dot(dv, dx) < 0.0
    ensures dv != Zero && Dot(dv, dv) > 0.0
  {
    if dv == Zero {
      DotZeroLeft(dx);
    }
    DotSelfNonNegative(dv);
  }

  lemma DotNegateBoth(a: Vec, b: Vec, c: Vec, d: Vec)
    ensures Dot(Minus(b, a), Minus(d, c)) == Dot(Minus(a, b), Minus(c, d))
  {
  }

  /** Swapping the two balls changes neither the guards nor the times. */
  lemma SolveBallBallSymmetric(b0: Ball, b1: Ball, sqrt: real -> real)
    ensures SolveBallBall(b0, b1, sqrt) == SolveBallBall(b1, b0, sqrt)
  {
    CoefficientsSymmetric(b0, b1);
    DotNegateBoth(b0.velocity, b1.velocity, b0.position, b1.position);
    assert Dot(RelativeVelocity(b1, b0), Offset(b1, b0)) == Dot(RelativeVelocity(b0, b1), Offset(b0, b1));
  }

  /** The polynomial of contact does not depend on which ball comes first. */
  lemma CoefficientsSymmetric(b0: Ball, b1: Ball)
    ensures CoefA(b1, b0) == CoefA(b0, b1) && CoefB(b1, b0) == CoefB(b0, b1)
    ensures CoefC(b1, b0) == CoefC(b0, b1) && Discriminant(b1, b0) == Discriminant(b0, b1)
  {
    var af0 := Minus(b0.position, Scale(b0.initialTime, b0.velocity));
    var af1 := Minus(b1.position, Scale(b1.initialTime, b1.velocity));
    DotNegateBoth(b0.velocity, b1.velocity, b0.velocity, b1.velocity);
    DotNegateBoth(b0.velocity, b1.velocity, af0, af1);
    DotNegateBoth(af0, af1, af0, af1);
    assert CoefA(b1, b0) == CoefA(b0, b1);
    assert CoefB(b1, b0) == CoefB(b0, b1);
    assert CoefC(b1, b0) == CoefC(b0, b1);
  }

  /** The separation moves along the relative velocity from the affine offset. */
  lemma SeparationAffine(b0: Ball, b1: Ball, t: real)
    ensures Separation(b0, b1, t) == Plus(AffineOffset(b0, b1), Scale(t, RelativeVelocity(b0, b1)))
  {
    ReAnchor(b0.position, b0.velocity, b0.initialTime, t);
    ReAnchor(b1.position, b1.velocity, b1.initialTime, t);
    MinusOfAffine(Minus(b0.position, Scale(b0.initialTime, b0.velocity)), b0.velocity,
                  Minus(b1.position, Scale(b1.initialTime, b1.velocity)), b1.velocity, t);
  }

  /** p + (t - t0) v == (p - t0 v) + t v. */
  lemma ReAnchor(p: Vec, v: Vec, t0: real, t: real)
    ensures Plus(p, Scale(t - t0, v)) == Plus(Minus(p, Scale(t0, v)), Scale(t, v))
  {
    assert (t - t0) * v.x == t * v.x - t0 * v.x;
    assert (t - t0) * v.y == t * v.y - t0 * v.y;
  }

  /** (a0 + t v0) - (a1 + t v1) == (a0 - a1) + t (v0 - v1). */
  lemma MinusOfAffine(a0: Vec, v0: Vec, a1: Vec, v1: Vec, t: real)
    ensures Minus(Plus(a0, Scale(t, v0)), Plus(a1, Scale(t, v1))) == Plus(Minus(a0, a1), Scale(t, Minus(v0, v1)))
  {
    assert t * (v0.x - v1.x) == t * v0.x - t * v1.x;
    assert t * (v0.y - v1.y) == t * v0.y - t * v1.y;
  }

  /** |u + t w|^2 = |u|^2 + 2t (w.u) + t^2 |w|^2. */
  lemma DotAffineSquare(u: Vec, w: Vec, t: real)
    ensures Dot(Plus(u, Scale(t, w)), Plus(u, Scale(t, w)))
         == Dot(u, u) + t * (Dot(w, u) * 2.0) + t * (t * Dot(w, w))
  {
    var tw := Scale(t, w);
    var p := Plus(u, tw);
    DotPlusLeft(u, tw, p);
    DotSymmetric(u, p);
    DotPlusLeft(u, tw, u);
    DotSymmetric(tw, p);
    DotPlusLeft(u, tw, tw);
    DotScaleLeft(t, w, u);
    DotSymmetric(u, tw);
    DotScaleLeft(t, w, tw);
    DotSymmetric(w, tw);
    DotScaleLeft(t, w, w);
  }

  /** The squared distance between the centres, less the squared contact
      distance, is the quadratic whose coefficients the solver computes. */
  lemma SeparationQuadratic(b0: Ball, b1: Ball, t: real)
    ensures Dot(Separation(b0, b1, t), Separation(b0, b1, t)) - ContactSquared(b0, b1)
         == Quadratic(CoefA(b0, b1), CoefB(b0, b1), CoefC(b0, b1), t)
  {
    var u, w := AffineOffset(b0, b1), RelativeVelocity(b0, b1);
    SeparationAffine(b0, b1, t);
    DotAffineSquare(u, w, t);
    QuadraticRearranged(Dot(w, w), Dot(w, u) * 2.0, Dot(u, u), ContactSquared(b0, b1), t);
  }

  lemma QuadraticRearranged(a: real, b: real, uu: real, cs: real, t: real)
    ensures uu + t * b + t * (t * a) - cs == Quadratic(a, b, uu - cs, t)
  {
  }

  // Facts about a quadratic a t^2 + b t + c with a > 0. The discriminant's
  // root is s, with s * s2 == b * b - 4ac (s2 == s).

  lemma QuadraticAtRoot(a: real, b: real, c: real, s: real, s2: real, t: real)
    requires a > 0.0 && s2 == s && s * s2 == Disc(a, b, c)
    requires t == (-b - s) / (2.0 * a)
    ensures Quadratic(a, b, c, t) == 0.0
  {
    var u := 2.0 * a * t;
    assert u == -b - s;
    ScaledQuadratic(a, b, c, t, u);
    assert u * u + 2.0 * b * u == s * s2 - b * b;
    FactorZero(4.0 * a, Quadratic(a, b, c, t));
  }

  /** 4a (a t^2 + b t + c) == u^2 + 2bu + 4ac for u == 2at. */
  lemma ScaledQuadratic(a: real, b: real, c: real, t: real, u: real)
    requires u == 2.0 * a * t
    ensures 4.0 * a * Quadratic(a, b, c, t) == u * u + 2.0 * b * u + 4.0 * a * c
  {
  }

  lemma FactorZero(x: real, y: real)
    requires x != 0.0 && x * y == 0.0
    ensures y == 0.0
  {
  }

  lemma QuadraticBeforeRoot(a: real, b: real, c: real, s: real, s2: real, t: real)
    requires a > 0.0 && s >= 0.0 && s2 == s && s * s2 == Disc(a, b, c)
    requires t < (-b - s) / (2.0 * a)
    ensures Quadratic(a, b, c, t) > 0.0
  {
    var u := -(2.0 * a * t + b);
    assert 2.0 * a * t < -b - s;
    assert u > s;
    SquaresCompare(s, s2, u, u);
    assert 4.0 * a * (a * (t * t) + b * t + c) == u * u - Disc(a, b, c);
  }

  lemma QuadraticVertex(a: real, b: real, c: real, t: real, m: real)
    requires a > 0.0 && m == -b / (2.0 * a)
    ensures Quadratic(a, b, c, t) >= Quadratic(a, b, c, m)
  {
    var e := t - m;
    SquareSign(e, e);
    assert b == -2.0 * a * m;
    assert a * (t * t) + b * t - (a * (m * m) + b * m) == a * (e * e);
    NonNegativeProduct(a, e * e, a * (e * e));
  }

  lemma NonNegativeProduct(x: real, y: real, p: real)
    requires x >= 0.0 && y >= 0.0 && p == x * y
    ensures p >= 0.0
  {
  }

  /** The solver's pair is ordered: entry no later than closest approach. */
  lemma BallBallEntryBeforeMid(b0: Ball, b1: Ball, sqrt: real -> real)
    requires IsSqrt(sqrt)
    requires SolveBallBall(b0, b1, sqrt).Some?
    ensures SolveBallBall(b0, b1, sqrt).value.0 <= SolveBallBall(b0, b1, sqrt).value.1
  {
    var a, b, disc := CoefA(b0, b1), CoefB(b0, b1), Discriminant(b0, b1);
    var s := sqrt(if disc >= 0.0 then disc else 0.0);
    assert s >= 0.0;
    DivideOrdered(-b - s, -b, 2.0 * a);
  }

  lemma DivideOrdered(x: real, y: real, d: real)
    requires x <= y && d > 0.0
    ensures x / d <= y / d
  {
  }

  /** At the entry time the centres are exactly the contact distance apart. */
  lemma BallBallEntryTouches(b0: Ball, b1: Ball, sqrt: real -> real)
    requires IsSqrt(sqrt)
    requires SolveBallBall(b0, b1, sqrt).Some? && Discriminant(b0, b1) >= 0.0
    ensures var t := SolveBallBall(b0, b1, sqrt).value.0;
      Dot(Separation(b0, b1, t), Separation(b0, b1, t)) == ContactSquared(b0, b1)
  {
    var t := SolveBallBall(b0, b1, sqrt).value.0;
    var s := sqrt(Discriminant(b0, b1));
    QuadraticAtRoot(CoefA(b0, b1), CoefB(b0, b1), CoefC(b0, b1), s, s, t);
    SeparationQuadratic(b0, b1, t);
  }

  /** Before the entry time the balls are strictly farther apart than contact. */
  lemma BallBallApartBeforeEntry(b0: Ball, b1: Ball, sqrt: real -> real, t: real)
    requires IsSqrt(sqrt)
    requires SolveBallBall(b0, b1, sqrt).Some? && Discriminant(b0, b1) >= 0.0
    requires t < SolveBallBall(b0, b1, sqrt).value.0
    ensures Dot(Separation(b0, b1, t), Separation(b0, b1, t)) > ContactSquared(b0, b1)
  {
    var s := sqrt(Discriminant(b0, b1));
    QuadraticBeforeRoot(CoefA(b0, b1), CoefB(b0, b1), CoefC(b0, b1), s, s, t);
    SeparationQuadratic(b0, b1, t);
  }

  /** The second time is the moment of closest approach. */
  lemma BallBallMidClosest(b0: Ball, b1: Ball, sqrt: real -> real, t: real)
    requires SolveBallBall(b0, b1, sqrt).Some?
    ensures var m := SolveBallBall(b0, b1, sqrt).value.1;
      Dot(Separation(b0, b1, t), Separation(b0, b1, t)) >= Dot(Separation(b0, b1, m), Separation(b0, b1, m))
  {
    var m := SolveBallBall(b0, b1, sqrt).value.1;
    assert m == -CoefB(b0, b1) / (2.0 * CoefA(b0, b1));
    QuadraticVertex(CoefA(b0, b1), CoefB(b0, b1), CoefC(b0, b1), t, m);
    SeparationQuadratic(b0, b1, t);
    SeparationQuadratic(b0, b1, m);
  }

  /** A slightly negative discriminant is clamped to zero: both times coincide. */
  lemma BallBallClamped(b0: Ball, b1: Ball, sqrt: real -> real)
    requires IsSqrt(sqrt)
    requires SolveBallBall(b0, b1, sqrt).Some? && Discriminant(b0, b1) < 0.0
    ensures Discriminant(b0, b1) >= -EPSILON
    ensures SolveBallBall(b0, b1, sqrt).value.0 == SolveBallBall(b0, b1, sqrt).value.1
  {
    SqrtOfSquare(sqrt, 0.0);
  }
}
