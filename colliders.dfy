/** Contact resolution: the new states of two bodies that touch at time t
    (src/collision/colliders.rs). */
module Colliders {
  import opened Geometry
  import opened Entities
  import opened Advance
  import opened Solvers

  /** The speed above which a ball's velocity is scaled back after a ball-ball impulse. */
  const SPEED_CAP: real := 1000.0

  /** A velocity whose norm exceeds cap, scaled back to norm cap. */
  function Capped(v: Vec, cap: real, sqrt: real -> real): Vec
    requires cap >= 0.0
  {
    if Norm(v, sqrt) > cap then Scale(cap / Norm(v, sqrt), v) else v
  }

  /** The cap step of `collide_ball_ball`: a velocity over the cap is scaled back to it. */
  method CapSpeed(v: Vec, cap: real, sqrt: real -> real) returns (r: Vec)
    requires cap >= 0.0
    ensures r == Capped(v, cap, sqrt)
  {
    r := v;
    if Norm(r, sqrt) > cap {
      r := Scale(cap / Norm(r, sqrt), r);
    }
  }

  /** The capped velocity has norm at most cap, points the same way, and is
      the velocity itself when that was within the cap. */
  lemma CappedBound(v: Vec, cap: real, sqrt: real -> real)
    requires IsSqrt(sqrt) && cap >= 0.0
    ensures Norm(Capped(v, cap, sqrt), sqrt) <= cap
    ensures Norm(v, sqrt) <= cap ==> Capped(v, cap, sqrt) == v
    ensures exists k :: k >= 0.0 && Capped(v, cap, sqrt) == Scale(k, v)
  {
    if Norm(v, sqrt) > cap {
      ScaledToLength(v, sqrt, cap);
      SqrtOfSquare(sqrt, cap);
      var k := cap / Norm(v, sqrt);
      assert Capped(v, cap, sqrt) == Scale(k, v);
    } else {
      assert Capped(v, cap, sqrt) == Scale(1.0, v);
    }
  }

  // ---------------------------------------------------------------------
  // Ball against wall

  /** The velocity mirrored in the wall's line when it points into the wall. */
  function Reflect(v: Vec, n: Vec): Vec
  {
    var proj := Dot(v, n);
    if proj < 0.0 then Minus(v, Scale(proj * 2.0, n)) else v
  }

  /** With a unit normal, reflection reverses the normal component, keeps the
      speed, and leaves a velocity that no longer points into the wall. */
  lemma ReflectProperties(v: Vec, n: Vec)
    requires Dot(n, n) == 1.0
    ensures Dot(v, n) < 0.0 ==> Dot(Reflect(v, n), n) == -Dot(v, n)
    ensures Dot(v, n) >= 0.0 ==> Reflect(v, n) == v
    ensures Dot(Reflect(v, n), n) >= 0.0
    ensures Dot(Reflect(v, n), Reflect(v, n)) == Dot(v, v)
  {
    var p := Dot(v, n);
    if p < 0.0 {
      var s := Scale(p * 2.0, n);
      var r := Minus(v, s);
      DotMinusLeft(v, s, n);
      DotScaleLeft(p * 2.0, n, n);
      assert Dot(r, n) == -p;
      DotMinusLeft(v, s, r);
      DotScaleLeft(p * 2.0, n, r);
      DotSymmetric(n, r);
      DotSymmetric(v, r);
      DotMinusLeft(v, s, v);
      DotScaleLeft(p * 2.0, n, v);
      DotSymmetric(n, v);
      assert Dot(r, r) == Dot(v, v) - p * 2.0 * p - p * 2.0 * (-p);
    }
  }

  /** What `collide_ball_wall` makes of the ball: moved to t, one generation
      on, its velocity reflected in the wall. */
  function BallWallResponse(b: Ball, n: Vec, t: real): Ball
  {
    Advanced(b, t).(generation := b.generation + 1, velocity := Reflect(b.velocity, n))
  }

  /** `collide_ball_wall`, step by step on a copy of the ball. */
  method CollideBallWall(ball: Ball, normal: Vec, t: real) returns (newBall: Ball)
    ensures newBall == BallWallResponse(ball, normal, t)
  {
    newBall := AdvanceSingleBall(ball, t);
    newBall := newBall.(generation := newBall.generation + 1);
    var proj := Dot(ball.velocity, normal);
    if proj < 0.0 {
      newBall := newBall.(velocity := Minus(newBall.velocity, Scale(proj * 2.0, normal)));
    }
  }

  /** The ball after a wall contact: at time t, on the same trajectory up to
      t, one generation on, radius unchanged, bouncing off a unit normal with
      its speed kept. */
  lemma BallWallResponseState(b: Ball, n: Vec, t: real)
    requires Dot(n, n) == 1.0
    ensures var r := BallWallResponse(b, n, t);
      && r.initialTime == t && r.position == PositionAt(b, t)
      && r.generation == b.generation + 1 && r.radius == b.radius
      && (Dot(b.velocity, n) < 0.0 ==> Dot(r.velocity, n) == -Dot(b.velocity, n))
      && (Dot(b.velocity, n) >= 0.0 ==> r.velocity == b.velocity)
      && Dot(r.velocity, r.velocity) == Dot(b.velocity, b.velocity)
  {
    ReflectProperties(b.velocity, n);
  }

  // ---------------------------------------------------------------------
  // Ball against ball

  /** A ball's mass is the square of its radius. */
  function Mass(b: Ball): real { b.radius * b.radius }

  /** At least one of the two balls has a radius, so the masses do not sum to zero. */
  predicate HasMass(b0: Ball, b1: Ball)
  {
    b0.radius != 0.0 || b1.radius != 0.0
  }

  lemma MassSumPositive(b0: Ball, b1: Ball)
    requires HasMass(b0, b1)
    ensures Mass(b0) + Mass(b1) > 0.0
  {
    SumOfSquares(b0.radius, b0.radius, b1.radius, b1.radius, Mass(b0) + Mass(b1));
  }

  /** `2 / (m0 + m1) * proj / d2`: the factor of the offset in the velocity
      `a` the two balls exchange, both revisions' formula. */
  function ExchangeFactor(m0: real, m1: real, proj: real, d2: real): real
    requires m0 + m1 != 0.0 && d2 != 0.0
  {
    2.0 / (m0 + m1) * proj / d2
  }

  /** The factor of this revision, which divides by the squared distance of
      the centres; `proj < 0` makes dx nonzero. */
  function ImpulseFactor(m0: real, m1: real, proj: real, dx: Vec): real
    requires m0 + m1 != 0.0 && Dot(dx, dx) != 0.0
  {
    ExchangeFactor(m0, m1, proj, Dot(dx, dx))
  }

  /** Opposite relative velocity and offset mean the offset is nonzero. */
  lemma ApproachingApart(dv: Vec, dx: Vec)
    requires Dot(dv, dx) < 0.0
    ensures Dot(dx, dx) > 0.0
  {
    DotSymmetric(dv, dx);
    ApproachingMeansMoving(dx, dv);
  }

  /** What `collide_ball_ball` makes of the two balls: both moved to t and one
      generation on; if they approach, an impulse along the line of centres
      followed by the speed cap on each. */
  function BallBallResponse(b0: Ball, b1: Ball, t: real, sqrt: real -> real): (Ball, Ball)
    requires HasMass(b0, b1)
  {
    var a0 := Advanced(b0, t).(generation := b0.generation + 1);
    var a1 := Advanced(b1, t).(generation := b1.generation + 1);
    var dx := Minus(a0.position, a1.position);
    var dv := Minus(a0.velocity, a1.velocity);
    var proj := Dot(dv, dx);
    if proj < 0.0 then
      MassSumPositive(b0, b1);
      ApproachingApart(dv, dx);
      var a := Scale(ImpulseFactor(Mass(b0), Mass(b1), proj, dx), dx);
      (a0.(velocity := Capped(Minus(a0.velocity, Scale(Mass(b1), a)), SPEED_CAP, sqrt)),
       a1.(velocity := Capped(Plus(a1.velocity, Scale(Mass(b0), a)), SPEED_CAP, sqrt)))
    else
      (a0, a1)
  }

  /** `collide_ball_ball`, step by step on copies of the two balls. */
  method CollideBallBall(ball: Ball, otherBall: Ball, t: real, sqrt: real -> real)
      returns (ball0: Ball, ball1: Ball)
    requires HasMass(ball, otherBall)
    ensures (ball0, ball1) == BallBallResponse(ball, otherBall, t, sqrt)
  {
    ball0 := AdvanceSingleBall(ball, t);
    ball1 := AdvanceSingleBall(otherBall, t);
    ball0 := ball0.(generation := ball0.generation + 1);
    ball1 := ball1.(generation := ball1.generation + 1);
    var mass0 := ball0.radius * ball0.radius;
    var mass1 := ball1.radius * ball1.radius;
    var dx := Minus(ball0.position, ball1.position);
    var dv := Minus(ball0.velocity, ball1.velocity);
    var proj := Dot(dv, dx);
    if proj < 0.0 {
      var d2 := Dot(dx, dx);
      ResponseImpulse(ball, otherBall, t, sqrt, ball0, ball1, mass0, mass1, dx, proj);
      var a := Scale(ExchangeFactor(mass0, mass1, proj, d2), dx);
      var v0 := CapSpeed(Minus(ball0.velocity, Scale(mass1, a)), SPEED_CAP, sqrt);
      ball0 := ball0.(velocity := v0);
      var v1 := CapSpeed(Plus(ball1.velocity, Scale(mass0, a)), SPEED_CAP, sqrt);
      ball1 := ball1.(velocity := v1);
    } else {
      ResponseNoImpulse(ball, otherBall, t, sqrt, ball0, ball1);
    }
  }

  /** BallBallResponse of two balls that do not approach, in terms of the
      two balls already moved to t and one generation on. */
  lemma ResponseNoImpulse(b0: Ball, b1: Ball, t: real, sqrt: real -> real, a0: Ball, a1: Ball)
    requires HasMass(b0, b1)
    requires a0 == Advanced(b0, t).(generation := b0.generation + 1)
    requires a1 == Advanced(b1, t).(generation := b1.generation + 1)
    requires Dot(Minus(a0.velocity, a1.velocity), Minus(a0.position, a1.position)) >= 0.0
    ensures BallBallResponse(b0, b1, t, sqrt) == (a0, a1)
  {
  }

  /** BallBallResponse of two balls that approach, in terms of the two balls
      already moved to t and one generation on, their masses and the offset
      of their centres. */
  lemma ResponseImpulse(b0: Ball, b1: Ball, t: real, sqrt: real -> real, a0: Ball, a1: Ball,
                        m0: real, m1: real, dx: Vec, proj: real)
    requires HasMass(b0, b1)
    requires a0 == Advanced(b0, t).(generation := b0.generation + 1)
    requires a1 == Advanced(b1, t).(generation := b1.generation + 1)
    requires m0 == a0.radius * a0.radius && m1 == a1.radius * a1.radius
    requires dx == Minus(a0.position, a1.position) && proj == Dot(Minus(a0.velocity, a1.velocity), dx)
    requires proj < 0.0
    ensures m0 + m1 > 0.0 && Dot(dx, dx) > 0.0
    ensures var a := Scale(ExchangeFactor(m0, m1, proj, Dot(dx, dx)), dx);
      BallBallResponse(b0, b1, t, sqrt)
      == (a0.(velocity := Capped(Minus(a0.velocity, Scale(m1, a)), SPEED_CAP, sqrt)),
          a1.(velocity := Capped(Plus(a1.velocity, Scale(m0, a)), SPEED_CAP, sqrt)))
  {
    assert m0 == Mass(b0) && m1 == Mass(b1);
    MassSumPositive(b0, b1);
    ApproachingApart(Minus(a0.velocity, a1.velocity), dx);
  }

  /** The offset between the two centres at the contact time t, and their relative velocity. */
  function ContactOffset(b0: Ball, b1: Ball, t: real): Vec
  {
    Minus(PositionAt(b0, t), PositionAt(b1, t))
  }

  function Approach(b0: Ball, b1: Ball, t: real): real
  {
    Dot(Minus(b0.velocity, b1.velocity), ContactOffset(b0, b1, t))
  }

  /** Both balls end up at time t on their old trajectories, one generation
      on, with their radii; balls that are not approaching keep their velocities. */
  lemma BallBallResponseState(b0: Ball, b1: Ball, t: real, sqrt: real -> real)
    requires HasMass(b0, b1)
    ensures var (r0, r1) := BallBallResponse(b0, b1, t, sqrt);
      && r0.initialTime == t && r0.position == PositionAt(b0, t)
      && r1.initialTime == t && r1.position == PositionAt(b1, t)
      && r0.generation == b0.generation + 1 && r1.generation == b1.generation + 1
      && r0.radius == b0.radius && r1.radius == b1.radius
      && (Approach(b0, b1, t) >= 0.0 ==> r0.velocity == b0.velocity && r1.velocity == b1.velocity)
  {
  }

  /** On the impulse branch neither resulting speed exceeds the cap. */
  lemma BallBallSpeedCapped(b0: Ball, b1: Ball, t: real, sqrt: real -> real)
    requires HasMass(b0, b1) && IsSqrt(sqrt)
    requires Approach(b0, b1, t) < 0.0
    ensures Norm(BallBallResponse(b0, b1, t, sqrt).0.velocity, sqrt) <= SPEED_CAP
    ensures Norm(BallBallResponse(b0, b1, t, sqrt).1.velocity, sqrt) <= SPEED_CAP
  {
    var dx := ContactOffset(b0, b1, t);
    var dv := Minus(b0.velocity, b1.velocity);
    MassSumPositive(b0, b1);
    ApproachingApart(dv, dx);
    BallBallImpulse(b0, b1, t, sqrt);
    CappedBound(Minus(b0.velocity, Kick0(b0, b1, t)), SPEED_CAP, sqrt);
    CappedBound(Plus(b1.velocity, Kick1(b0, b1, t)), SPEED_CAP, sqrt);
  }

  /** The velocity changes the impulse makes before any capping. */
  function Kick0(b0: Ball, b1: Ball, t: real): Vec
    requires HasMass(b0, b1) && Approach(b0, b1, t) < 0.0
  {
    MassSumPositive(b0, b1);
    ApproachingApart(Minus(b0.velocity, b1.velocity), ContactOffset(b0, b1, t));
    var dx := ContactOffset(b0, b1, t);
    Scale(Mass(b1), Scale(ImpulseFactor(Mass(b0), Mass(b1), Approach(b0, b1, t), dx), dx))
  }

  function Kick1(b0: Ball, b1: Ball, t: real): Vec
    requires HasMass(b0, b1) && Approach(b0, b1, t) < 0.0
  {
    MassSumPositive(b0, b1);
    ApproachingApart(Minus(b0.velocity, b1.velocity), ContactOffset(b0, b1, t));
    var dx := ContactOffset(b0, b1, t);
    Scale(Mass(b0), Scale(ImpulseFactor(Mass(b0), Mass(b1), Approach(b0, b1, t), dx), dx))
  }

  /** On the impulse branch each velocity is the capped result of its kick. */
  lemma BallBallImpulse(b0: Ball, b1: Ball, t: real, sqrt: real -> real)
    requires HasMass(b0, b1) && Approach(b0, b1, t) < 0.0
    ensures BallBallResponse(b0, b1, t, sqrt).0.velocity
         == Capped(Minus(b0.velocity, Kick0(b0, b1, t)), SPEED_CAP, sqrt)
    ensures BallBallResponse(b0, b1, t, sqrt).1.velocity
         == Capped(Plus(b1.velocity, Kick1(b0, b1, t)), SPEED_CAP, sqrt)
  {
    var a0 := Advanced(b0, t).(generation := b0.generation + 1);
    var a1 := Advanced(b1, t).(generation := b1.generation + 1);
    assert Minus(a0.position, a1.position) == ContactOffset(b0, b1, t);
    assert Minus(a0.velocity, a1.velocity) == Minus(b0.velocity, b1.velocity);
  }

  /** Neither uncapped velocity exceeds the cap. */
  predicate NoCap(b0: Ball, b1: Ball, t: real, sqrt: real -> real)
    requires HasMass(b0, b1) && Approach(b0, b1, t) < 0.0
  {
    Norm(Minus(b0.velocity, Kick0(b0, b1, t)), sqrt) <= SPEED_CAP
    && Norm(Plus(b1.velocity, Kick1(b0, b1, t)), sqrt) <= SPEED_CAP
  }

  /** When the balls approach and neither cap fires, momentum with masses r^2
      is conserved: m0 (v0' - v0) + m1 (v1' - v1) = 0. */
  lemma BallBallMomentum(b0: Ball, b1: Ball, t: real, sqrt: real -> real)
    requires HasMass(b0, b1) && IsSqrt(sqrt)
    requires Approach(b0, b1, t) < 0.0 && NoCap(b0, b1, t, sqrt)
    ensures var (r0, r1) := BallBallResponse(b0, b1, t, sqrt);
      Plus(Scale(Mass(b0), Minus(r0.velocity, b0.velocity)),
           Scale(Mass(b1), Minus(r1.velocity, b1.velocity))) == Zero
  {
    BallBallImpulse(b0, b1, t, sqrt);
    var m0, m1 := Mass(b0), Mass(b1);
    var dx := ContactOffset(b0, b1, t);
    MassSumPositive(b0, b1);
    ApproachingApart(Minus(b0.velocity, b1.velocity), dx);
    var k := ImpulseFactor(m0, m1, Approach(b0, b1, t), dx);
    assert m0 * -(m1 * (k * dx.x)) + m1 * (m0 * (k * dx.x)) == 0.0;
    assert m0 * -(m1 * (k * dx.y)) + m1 * (m0 * (k * dx.y)) == 0.0;
  }

  /** Two balls of equal radius meeting head on (the relative velocity along
      the line of centres) exchange velocities, unless a cap fires. */
  lemma BallBallHeadOnExchange(b0: Ball, b1: Ball, t: real, sqrt: real -> real, k: real)
    requires IsSqrt(sqrt) && b0.radius == b1.radius && b0.radius != 0.0
    requires Minus(b0.velocity, b1.velocity) == Scale(k, ContactOffset(b0, b1, t))
    requires Approach(b0, b1, t) < 0.0
    requires Norm(b0.velocity, sqrt) <= SPEED_CAP && Norm(b1.velocity, sqrt) <= SPEED_CAP
    ensures BallBallResponse(b0, b1, t, sqrt).0.velocity == b1.velocity
    ensures BallBallResponse(b0, b1, t, sqrt).1.velocity == b0.velocity
  {
    var m := Mass(b0);
    assert Mass(b1) == m;
    var dx := ContactOffset(b0, b1, t);
    var dv := Minus(b0.velocity, b1.velocity);
    MassSumPositive(b0, b1);
    ApproachingApart(dv, dx);
    var d2 := Dot(dx, dx);
    var proj := Approach(b0, b1, t);
    DotScaleLeft(k, dx, dx);
    var f := ImpulseFactor(m, m, proj, dx);
    HeadOnKick(m, d2, k, proj, f, dx, dv);
    assert Kick0(b0, b1, t) == dv;
    assert Kick1(b0, b1, t) == dv;
    KickedExchange(b0, b1, t, sqrt);
  }

  /** Kicks equal to the relative velocity swap the two velocities. */
  lemma KickedExchange(b0: Ball, b1: Ball, t: real, sqrt: real -> real)
    requires HasMass(b0, b1) && Approach(b0, b1, t) < 0.0
    requires Kick0(b0, b1, t) == Minus(b0.velocity, b1.velocity)
    requires Kick1(b0, b1, t) == Minus(b0.velocity, b1.velocity)
    requires Norm(b0.velocity, sqrt) <= SPEED_CAP && Norm(b1.velocity, sqrt) <= SPEED_CAP
    ensures BallBallResponse(b0, b1, t, sqrt).0.velocity == b1.velocity
    ensures BallBallResponse(b0, b1, t, sqrt).1.velocity == b0.velocity
  {
    BallBallImpulse(b0, b1, t, sqrt);
    assert Minus(b0.velocity, Kick0(b0, b1, t)) == b1.velocity;
    assert Plus(b1.velocity, Kick1(b0, b1, t)) == b0.velocity;
  }

  /** For equal masses m and dv == k dx, the kick m f dx is dv itself. */
  lemma HeadOnKick(m: real, d2: real, k: real, proj: real, f: real, dx: Vec, dv: Vec)
    requires m > 0.0 && d2 > 0.0 && d2 == Dot(dx, dx) && proj == k * d2
    requires dv == Scale(k, dx) && f == ExchangeFactor(m, m, proj, d2)
    ensures Scale(m, Scale(f, dx)) == dv
  {
    HeadOnFactor(m, d2, k, proj, f);
    assert m * (f * dx.x) == (m * f) * dx.x;
    assert m * (f * dx.y) == (m * f) * dx.y;
  }

  lemma HeadOnFactor(m: real, d2: real, k: real, proj: real, f: real)
    requires m > 0.0 && d2 > 0.0 && proj == k * d2
    requires f == ExchangeFactor(m, m, proj, d2)
    ensures m * f == k
  {
    assert 2.0 / (m + m) == 1.0 / m;
    assert proj / d2 == k;
    assert f == (1.0 / m) * k;
  }

  // ---------------------------------------------------------------------
  // Dispatch

  /** The new states of the two slots, if the contact still applies. */
  type Outcome = Option<(Option<Collidable>, Option<Collidable>)>

  /** Two balls can always be resolved when both have a radius; walls need nothing. */
  predicate Resolvable(c0: Collidable, c1: Collidable)
  {
    c0.Ball? && c1.Ball? ==> HasMass(c0.ball, c1.ball)
  }

  /** `collide`: refuses a ball whose generation is not the one the event was
      computed for, and two walls; a wall-first call answers in the order of
      its arguments. */
  function Collide(c0: Collidable, g0: int, c1: Collidable, g1: int, t: real, lib: Library): Outcome
    requires Resolvable(c0, c1)
  {
    match c0
    case Ball(b) =>
      if b.generation != g0 then None
      else
        (match c1
         case Ball(o) =>
           if o.generation != g1 then None
           else
             var (r0, r1) := BallBallResponse(b, o, t, lib.sqrt);
             Some((Some(Collidable.Ball(r0)), Some(Collidable.Ball(r1))))
         case Wall(w) =>
           Some((Some(Collidable.Ball(BallWallResponse(b, lib.normal(w), t))), None)))
    case Wall(w) =>
      match c1
      case Ball(b) =>
        if b.generation != g1 then None
        else
          var res := (Some(Collidable.Ball(BallWallResponse(b, lib.normal(w), t))), None);
          Some((res.1, res.0))
      case Wall(_) => None
  }

  /** `collide` refuses exactly two walls and stale balls. */
  lemma CollideNoneIff(c0: Collidable, g0: int, c1: Collidable, g1: int, t: real, lib: Library)
    requires Resolvable(c0, c1)
    ensures Collide(c0, g0, c1, g1, t, lib).None? <==>
      (c0.Wall? && c1.Wall?)
      || (c0.Ball? && c0.ball.generation != g0)
      || (c1.Ball? && c1.ball.generation != g1)
  {
  }

  /** A wall-first call gives the ball-first answer with its two slots swapped. */
  lemma CollideWallFirstSwapped(w: Wall, g0: int, b: Ball, g1: int, t: real, lib: Library)
    ensures var r := Collide(Collidable.Wall(w), g0, Collidable.Ball(b), g1, t, lib);
      var s := Collide(Collidable.Ball(b), g1, Collidable.Wall(w), g0, t, lib);
      r.None? == s.None? && (r.Some? ==> r.value == (s.value.1, s.value.0) && r.value.0.None?)
  {
  }

  /** Every body `collide` hands back is a ball one generation after the one
      it was given, moved to the contact time; a wall slot is empty. */
  lemma CollideBumpsGenerations(c0: Collidable, g0: int, c1: Collidable, g1: int, t: real, lib: Library)
    requires Resolvable(c0, c1)
    requires Collide(c0, g0, c1, g1, t, lib).Some?
    ensures var r := Collide(c0, g0, c1, g1, t, lib).value;
      && (c0.Ball? <==> r.0.Some?) && (c1.Ball? <==> r.1.Some?)
      && (r.0.Some? ==> r.0.value.Ball? && r.0.value.ball.generation == g0 + 1 && r.0.value.ball.initialTime == t
                        && r.0.value.ball.radius == c0.ball.radius)
      && (r.1.Some? ==> r.1.value.Ball? && r.1.value.ball.generation == g1 + 1 && r.1.value.ball.initialTime == t
                        && r.1.value.ball.radius == c1.ball.radius)
  {
  }
}
