/** The older revision of the engine (src/collision.rs): its keys carry the
    kind of body, its cell range sweeps over a fixed time step, its solver
    gives only the entry time and resolves ball pairs alone, and its impulse
    is applied whether or not the balls approach. */
module Legacy {
  import opened Geometry
  import opened Entities
  import opened Advance
  import opened Solvers
  import opened Colliders
  import opened Grid

  /** The speed cap of this revision. */
  const LEGACY_SPEED_CAP: real := 100.0

  // ---------------------------------------------------------------------
  // Keys

  datatype Kind = BallKind | WallKind

  /** `GenerationalCollisionEntity` of this revision. */
  datatype LegacyKey = LegacyKey(entity: Entity, kind: Kind, generation: int)

  function KindOf(c: Collidable): Kind
  {
    match c
    case Ball(_) => BallKind
    case Wall(_) => WallKind
  }

  /** The key `collision` registers a body under: a ball at its generation, a wall at 0. */
  function KeyOf(e: Entity, c: Collidable): LegacyKey
  {
    LegacyKey(e, KindOf(c), GenerationOf(c))
  }

  /** `next`: the key of a ball one generation on; a wall's key stays. */
  function Next(k: LegacyKey): (n: LegacyKey)
    ensures n.entity == k.entity && n.kind == k.kind
  {
    match k.kind
    case BallKind => k.(generation := k.generation + 1)
    case WallKind => k
  }

  /** `next` never merges two keys, moves every ball key off its generation and keeps a wall key. */
  lemma NextInjective(k0: LegacyKey, k1: LegacyKey)
    ensures Next(k0) == Next(k1) ==> k0 == k1
    ensures k0.kind == BallKind ==> Next(k0) != k0
    ensures k0.kind == WallKind ==> Next(k0) == k0
  {
  }

  // ---------------------------------------------------------------------
  // Cells

  /** `get_cell_range_for_movement` of this revision: the box swept over the
      time step, on the grid. */
  function LegacyCells(c: Collidable, timeDelta: real): CellRange
  {
    var (lo, hi) := MovementBox(c, timeDelta);
    CellRangeOfBox(lo, hi)
  }

  /** The range never leaves the grid, a wall's range does not depend on the
      step, and the current revision's range is this one over the time left
      to a ball before the end of the frame. */
  lemma LegacyCellsFacts(c: Collidable, timeDelta: real, nextTime: real)
    ensures var r := LegacyCells(c, timeDelta);
      r.0 >= 0 && r.1 <= LAST_CELL + 1 && r.2 >= 0 && r.3 <= LAST_CELL + 1
    ensures c.Wall? ==> LegacyCells(c, timeDelta) == MovementCells(c, nextTime)
    ensures c.Ball? ==> MovementCells(c, nextTime) == LegacyCells(c, nextTime - c.ball.initialTime)
  {
    var (lo, hi) := MovementBox(c, timeDelta);
    CellRangeBounds(lo, hi);
  }

  // ---------------------------------------------------------------------
  // Solvers

  /** The smaller root of a t^2 + b t + c, when a exceeds EPSILON and the
      discriminant is not negative. */
  function EntryTime(a: real, b: real, c: real, sqrt: real -> real): (r: Option<real>)
    ensures r.None? <==> a <= EPSILON || Disc(a, b, c) < 0.0
  {
    if a <= EPSILON then None
    else
      var disc := Disc(a, b, c);
      if disc < 0.0 then None
      else Some((-b - sqrt(disc)) / (2.0 * a))
  }

  /** With a true square root, the entry time is a root. */
  lemma EntryTimeIsRoot(a: real, b: real, c: real, sqrt: real -> real)
    requires IsSqrt(sqrt) && EntryTime(a, b, c, sqrt).Some?
    ensures Quadratic(a, b, c, EntryTime(a, b, c, sqrt).value) == 0.0
  {
    var s := sqrt(Disc(a, b, c));
    QuadraticAtRoot(a, b, c, s, s, EntryTime(a, b, c, sqrt).value);
  }

  /** With a true square root, the quadratic is still positive before the entry time. */
  lemma EntryTimeBeforeRoot(a: real, b: real, c: real, sqrt: real -> real, t: real)
    requires IsSqrt(sqrt) && EntryTime(a, b, c, sqrt).Some? && t < EntryTime(a, b, c, sqrt).value
    ensures Quadratic(a, b, c, t) > 0.0
  {
    var s := sqrt(Disc(a, b, c));
    QuadraticBeforeRoot(a, b, c, s, s, t);
  }

  /** `solve_collision_ball_ball` of this revision: no separation guard; no
      contact when the relative speed is too small or the discriminant is
      negative; otherwise the smaller root. */
  function LegacySolveBallBall(b0: Ball, b1: Ball, sqrt: real -> real): (r: Option<real>)
    ensures r.None? <==> CoefA(b0, b1) <= EPSILON || Discriminant(b0, b1) < 0.0
  {
    EntryTime(CoefA(b0, b1), CoefB(b0, b1), CoefC(b0, b1), sqrt)
  }

  /** `solve_collision` of this revision: walls never meet anything. */
  function LegacySolveCollision(c0: Collidable, c1: Collidable, sqrt: real -> real): (r: Option<real>)
    ensures r.Some? ==> c0.Ball? && c1.Ball?
  {
    match c0
    case Ball(b0) =>
      (match c1
       case Ball(b1) => LegacySolveBallBall(b0, b1, sqrt)
       case Wall(_) => None)
    case Wall(_) => None
  }

  /** The entry time is a time at which the two balls are exactly in contact. */
  lemma LegacyEntryTouches(b0: Ball, b1: Ball, sqrt: real -> real)
    requires IsSqrt(sqrt) && LegacySolveBallBall(b0, b1, sqrt).Some?
    ensures var t := LegacySolveBallBall(b0, b1, sqrt).value;
      Dot(Separation(b0, b1, t), Separation(b0, b1, t)) == ContactSquared(b0, b1)
  {
    EntryTimeIsRoot(CoefA(b0, b1), CoefB(b0, b1), CoefC(b0, b1), sqrt);
    SeparationQuadratic(b0, b1, LegacySolveBallBall(b0, b1, sqrt).value);
  }

  /** Before the entry time the two balls are strictly farther apart than
      contact, so the time found is the first contact. */
  lemma LegacyApartBeforeEntry(b0: Ball, b1: Ball, sqrt: real -> real, t: real)
    requires IsSqrt(sqrt) && LegacySolveBallBall(b0, b1, sqrt).Some?
    requires t < LegacySolveBallBall(b0, b1, sqrt).value
    ensures Dot(Separation(b0, b1, t), Separation(b0, b1, t)) > ContactSquared(b0, b1)
  {
    EntryTimeBeforeRoot(CoefA(b0, b1), CoefB(b0, b1), CoefC(b0, b1), sqrt, t);
    SeparationQuadratic(b0, b1, t);
  }

  /** Where both revisions find a contact of two balls that approach fast
      enough, they agree on its entry time. */
  lemma LegacyAgreesWithCurrent(b0: Ball, b1: Ball, sqrt: real -> real)
    requires SolveBallBall(b0, b1, sqrt).Some? && CoefA(b0, b1) > EPSILON && Discriminant(b0, b1) >= 0.0
    ensures LegacySolveBallBall(b0, b1, sqrt) == Some(SolveBallBall(b0, b1, sqrt).value.0)
  {
  }

  /** The order of the two balls does not matter. */
  lemma LegacySolveSymmetric(c0: Collidable, c1: Collidable, sqrt: real -> real)
    ensures LegacySolveCollision(c0, c1, sqrt) == LegacySolveCollision(c1, c0, sqrt)
  {
    if c0.Ball? && c1.Ball? {
      LegacyBallBallSymmetric(c0.ball, c1.ball, sqrt);
    }
  }

  lemma LegacyBallBallSymmetric(b0: Ball, b1: Ball, sqrt: real -> real)
    ensures LegacySolveBallBall(b0, b1, sqrt) == LegacySolveBallBall(b1, b0, sqrt)
  {
    CoefficientsSymmetric(b0, b1);
    var a, b, d := CoefA(b0, b1), CoefB(b0, b1), Discriminant(b0, b1);
    if a > EPSILON && d >= 0.0 {
      assert LegacySolveBallBall(b0, b1, sqrt) == Some((-b - sqrt(d)) / (2.0 * a));
      assert LegacySolveBallBall(b1, b0, sqrt) == Some((-b - sqrt(d)) / (2.0 * a));
    }
  }

  /** No body meets itself: a ball has no speed relative to itself. */
  lemma LegacyNoSelfContact(c: Collidable, sqrt: real -> real)
    ensures LegacySolveCollision(c, c, sqrt).None?
  {
    if c.Ball? {
      SelfSpeed(c.ball);
    }
  }

  lemma SelfSpeed(b: Ball)
    ensures CoefA(b, b) == 0.0
  {
    assert RelativeVelocity(b, b) == Zero;
    DotZeroLeft(Zero);
  }

  // ---------------------------------------------------------------------
  // Contact resolution

  /** Both balls have a positive radius, so neither the mass sum nor the
      squared contact distance is zero. */
  predicate Massive(b0: Ball, b1: Ball)
  {
    b0.radius > 0.0 && b1.radius > 0.0
  }

  lemma MassiveDenominators(b0: Ball, b1: Ball)
    requires Massive(b0, b1)
    ensures Mass(b0) + Mass(b1) > 0.0 && ContactSquared(b0, b1) > 0.0
  {
    MassSumPositive(b0, b1);
    var d := ContactDistance(b0, b1);
    assert d > 0.0;
    assert d * d > 0.0;
  }

  /** The impulse factor of this revision, which divides by the squared
      contact distance rather than by the squared distance of the centres. */
  function LegacyFactor(b0: Ball, b1: Ball, proj: real): real
    requires Massive(b0, b1)
  {
    MassiveDenominators(b0, b1);
    ExchangeFactor(Mass(b0), Mass(b1), proj, ContactSquared(b0, b1))
  }

  /** What `collide_ball_ball` of this revision makes of two balls: both
      moved to t and one generation on, then the impulse, whatever the sign
      of the relative velocity, then the cap of 100 on each speed. */
  function LegacyBallBallResponse(b0: Ball, b1: Ball, t: real, sqrt: real -> real): (Ball, Ball)
    requires Massive(b0, b1)
  {
    var a0 := Advanced(b0, t).(generation := b0.generation + 1);
    var a1 := Advanced(b1, t).(generation := b1.generation + 1);
    var dx := Minus(a0.position, a1.position);
    var dv := Minus(a0.velocity, a1.velocity);
    var a := Scale(LegacyFactor(b0, b1, Dot(dv, dx)), dx);
    (a0.(velocity := Capped(Minus(a0.velocity, Scale(Mass(b1), a)), LEGACY_SPEED_CAP, sqrt)),
     a1.(velocity := Capped(Plus(a1.velocity, Scale(Mass(b0), a)), LEGACY_SPEED_CAP, sqrt)))
  }

  /** `collide_ball_ball` of this revision, step by step on copies of the balls. */
  method LegacyCollideBallBall(ball: Ball, otherBall: Ball, t: real, sqrt: real -> real)
      returns (ball0: Ball, ball1: Ball)
    requires Massive(ball, otherBall)
    ensures (ball0, ball1) == LegacyBallBallResponse(ball, otherBall, t, sqrt)
  {
    ball0 := AdvanceSingleBall(ball, t);
    ball1 := AdvanceSingleBall(otherBall, t);
    ball0 := ball0.(generation := ball0.generation + 1);
    ball1 := ball1.(generation := ball1.generation + 1);
    var mass0 := ball0.radius * ball0.radius;
    var mass1 := ball1.radius * ball1.radius;
    var dx := Minus(ball0.position, ball1.position);
    var dv := Minus(ball0.velocity, ball1.velocity);
    var d2 := (ball0.radius + ball1.radius) * (ball0.radius + ball1.radius);
    LegacyResponseOf(ball, otherBall, t, sqrt, ball0, ball1, mass0, mass1, dx, Dot(dv, dx), d2);
    var a := Scale(ExchangeFactor(mass0, mass1, Dot(dv, dx), d2), dx);
    var v0 := CapSpeed(Minus(ball0.velocity, Scale(mass1, a)), LEGACY_SPEED_CAP, sqrt);
    ball0 := ball0.(velocity := v0);
    var v1 := CapSpeed(Plus(ball1.velocity, Scale(mass0, a)), LEGACY_SPEED_CAP, sqrt);
    ball1 := ball1.(velocity := v1);
  }

  /** LegacyBallBallResponse in terms of the two balls already moved to t and
      one generation on, their masses, the offset and the relative velocity
      of their centres, and the squared contact distance. */
  lemma LegacyResponseOf(b0: Ball, b1: Ball, t: real, sqrt: real -> real, a0: Ball, a1: Ball,
                         m0: real, m1: real, dx: Vec, proj: real, d2: real)
    requires Massive(b0, b1)
    requires a0 == Advanced(b0, t).(generation := b0.generation + 1)
    requires a1 == Advanced(b1, t).(generation := b1.generation + 1)
    requires m0 == a0.radius * a0.radius && m1 == a1.radius * a1.radius
    requires dx == Minus(a0.position, a1.position) && proj == Dot(Minus(a0.velocity, a1.velocity), dx)
    requires d2 == (a0.radius + a1.radius) * (a0.radius + a1.radius)
    ensures m0 + m1 > 0.0 && d2 > 0.0
    ensures var a := Scale(ExchangeFactor(m0, m1, proj, d2), dx);
      LegacyBallBallResponse(b0, b1, t, sqrt)
      == (a0.(velocity := Capped(Minus(a0.velocity, Scale(m1, a)), LEGACY_SPEED_CAP, sqrt)),
          a1.(velocity := Capped(Plus(a1.velocity, Scale(m0, a)), LEGACY_SPEED_CAP, sqrt)))
  {
    assert m0 == Mass(b0) && m1 == Mass(b1) && d2 == ContactSquared(b0, b1);
    MassiveDenominators(b0, b1);
  }

  /** Both balls end up at t on their trajectories, one generation on, with their radii. */
  lemma LegacyBallBallState(b0: Ball, b1: Ball, t: real, sqrt: real -> real)
    requires Massive(b0, b1)
    ensures var (r0, r1) := LegacyBallBallResponse(b0, b1, t, sqrt);
      r0.initialTime == t && r0.position == PositionAt(b0, t) && r0.generation == b0.generation + 1
      && r1.initialTime == t && r1.position == PositionAt(b1, t) && r1.generation == b1.generation + 1
      && r0.radius == b0.radius && r1.radius == b1.radius
  {
  }

  /** Neither ball leaves faster than 100, whatever it was given. */
  lemma LegacyBallBallSpeedCapped(b0: Ball, b1: Ball, t: real, sqrt: real -> real)
    requires Massive(b0, b1) && IsSqrt(sqrt)
    ensures var (r0, r1) := LegacyBallBallResponse(b0, b1, t, sqrt);
      Norm(r0.velocity, sqrt) <= LEGACY_SPEED_CAP && Norm(r1.velocity, sqrt) <= LEGACY_SPEED_CAP
  {
    LegacyImpulse(b0, b1, t, sqrt);
    var k := LegacyKick(b0, b1, t);
    CappedBound(Minus(b0.velocity, Scale(Mass(b1), k)), LEGACY_SPEED_CAP, sqrt);
    CappedBound(Plus(b1.velocity, Scale(Mass(b0), k)), LEGACY_SPEED_CAP, sqrt);
  }

  /** The kick of this revision on the first ball; the second gets the
      opposite kick scaled by the masses. */
  function LegacyKick(b0: Ball, b1: Ball, t: real): Vec
    requires Massive(b0, b1)
  {
    var dx := ContactOffset(b0, b1, t);
    Scale(LegacyFactor(b0, b1, Approach(b0, b1, t)), dx)
  }

  lemma LegacyImpulse(b0: Ball, b1: Ball, t: real, sqrt: real -> real)
    requires Massive(b0, b1)
    ensures LegacyBallBallResponse(b0, b1, t, sqrt).0.velocity
         == Capped(Minus(b0.velocity, Scale(Mass(b1), LegacyKick(b0, b1, t))), LEGACY_SPEED_CAP, sqrt)
    ensures LegacyBallBallResponse(b0, b1, t, sqrt).1.velocity
         == Capped(Plus(b1.velocity, Scale(Mass(b0), LegacyKick(b0, b1, t))), LEGACY_SPEED_CAP, sqrt)
  {
    var a0 := Advanced(b0, t).(generation := b0.generation + 1);
    var a1 := Advanced(b1, t).(generation := b1.generation + 1);
    assert Minus(a0.position, a1.position) == ContactOffset(b0, b1, t);
    assert Minus(a0.velocity, a1.velocity) == Minus(b0.velocity, b1.velocity);
  }

  /** When neither cap fires, momentum with masses r^2 is conserved, whether
      or not the balls approach. */
  lemma LegacyMomentum(b0: Ball, b1: Ball, t: real, sqrt: real -> real)
    requires Massive(b0, b1) && IsSqrt(sqrt)
    requires Norm(Minus(b0.velocity, Scale(Mass(b1), LegacyKick(b0, b1, t))), sqrt) <= LEGACY_SPEED_CAP
    requires Norm(Plus(b1.velocity, Scale(Mass(b0), LegacyKick(b0, b1, t))), sqrt) <= LEGACY_SPEED_CAP
    ensures var (r0, r1) := LegacyBallBallResponse(b0, b1, t, sqrt);
      Plus(Scale(Mass(b0), Minus(r0.velocity, b0.velocity)),
           Scale(Mass(b1), Minus(r1.velocity, b1.velocity))) == Zero
  {
    LegacyImpulse(b0, b1, t, sqrt);
    var k := LegacyKick(b0, b1, t);
    CappedBound(Minus(b0.velocity, Scale(Mass(b1), k)), LEGACY_SPEED_CAP, sqrt);
    CappedBound(Plus(b1.velocity, Scale(Mass(b0), k)), LEGACY_SPEED_CAP, sqrt);
    var m0, m1 := Mass(b0), Mass(b1);
    assert m0 * -(m1 * k.x) + m1 * (m0 * k.x) == 0.0;
    assert m0 * -(m1 * k.y) + m1 * (m0 * k.y) == 0.0;
  }

  /** Balls that touch and approach get from this revision what the current
      one gives them, as long as no cap fires. */
  lemma LegacyAgreesAtContact(b0: Ball, b1: Ball, t: real, sqrt: real -> real)
    requires Massive(b0, b1) && IsSqrt(sqrt) && Approach(b0, b1, t) < 0.0
    requires Dot(ContactOffset(b0, b1, t), ContactOffset(b0, b1, t)) == ContactSquared(b0, b1)
    requires Norm(Minus(b0.velocity, Scale(Mass(b1), LegacyKick(b0, b1, t))), sqrt) <= LEGACY_SPEED_CAP
    requires Norm(Plus(b1.velocity, Scale(Mass(b0), LegacyKick(b0, b1, t))), sqrt) <= LEGACY_SPEED_CAP
    ensures LegacyBallBallResponse(b0, b1, t, sqrt) == BallBallResponse(b0, b1, t, sqrt)
  {
    assert HasMass(b0, b1);
    LegacyImpulse(b0, b1, t, sqrt);
    BallBallImpulse(b0, b1, t, sqrt);
    MassiveDenominators(b0, b1);
    var k := LegacyKick(b0, b1, t);
    assert k == Scale(ImpulseFactor(Mass(b0), Mass(b1), Approach(b0, b1, t), ContactOffset(b0, b1, t)),
                      ContactOffset(b0, b1, t));
    assert Kick0(b0, b1, t) == Scale(Mass(b1), k) && Kick1(b0, b1, t) == Scale(Mass(b0), k);
    CappedBound(Minus(b0.velocity, Scale(Mass(b1), k)), LEGACY_SPEED_CAP, sqrt);
    CappedBound(Plus(b1.velocity, Scale(Mass(b0), k)), LEGACY_SPEED_CAP, sqrt);
    CappedBound(Minus(b0.velocity, Scale(Mass(b1), k)), SPEED_CAP, sqrt);
    CappedBound(Plus(b1.velocity, Scale(Mass(b0), k)), SPEED_CAP, sqrt);
    BallBallResponseState(b0, b1, t, sqrt);
    LegacyBallBallState(b0, b1, t, sqrt);
  }

  /** Two balls can be resolved by this revision when both have a radius. */
  predicate LegacyResolvable(c0: Collidable, c1: Collidable)
  {
    c0.Ball? && c1.Ball? ==> Massive(c0.ball, c1.ball)
  }

  /** `collide` of this revision: a stale ball refuses the event, and
      `collide_ball_wall` is not implemented, so only two balls are resolved. */
  function LegacyCollide(c0: Collidable, g0: int, c1: Collidable, g1: int, t: real, sqrt: real -> real)
    : Option<(Collidable, Collidable)>
    requires LegacyResolvable(c0, c1)
  {
    match c0
    case Ball(b) =>
      if b.generation != g0 then None
      else
        (match c1
         case Ball(o) =>
           if o.generation != g1 then None
           else
             var (r0, r1) := LegacyBallBallResponse(b, o, t, sqrt);
             Some((Collidable.Ball(r0), Collidable.Ball(r1)))
         case Wall(_) => None)
    case Wall(_) =>
      match c1
      case Ball(o) => if o.generation != g1 then None else None
      case Wall(_) => None
  }

  /** Exactly two live balls are resolved. */
  lemma LegacyCollideSomeIff(c0: Collidable, g0: int, c1: Collidable, g1: int, t: real, sqrt: real -> real)
    requires LegacyResolvable(c0, c1)
    ensures LegacyCollide(c0, g0, c1, g1, t, sqrt).Some? <==>
      c0.Ball? && c1.Ball? && c0.ball.generation == g0 && c1.ball.generation == g1
  {
  }

  /** The balls `collide` hands back are the two balls one generation on, at
      time t, with their radii; the keys they are registered under again are the `next` of
      their keys. */
  lemma LegacyCollideNext(e0: Entity, c0: Collidable, g0: int, e1: Entity, c1: Collidable, g1: int,
                          t: real, sqrt: real -> real)
    requires LegacyResolvable(c0, c1)
    requires LegacyCollide(c0, g0, c1, g1, t, sqrt).Some?
    ensures var (n0, n1) := LegacyCollide(c0, g0, c1, g1, t, sqrt).value;
      KeyOf(e0, n0) == Next(KeyOf(e0, c0)) && KeyOf(e1, n1) == Next(KeyOf(e1, c1))
      && n0.Ball? && n1.Ball? && n0.ball.radius == c0.ball.radius && n1.ball.radius == c1.ball.radius
      && n0.ball.initialTime == t && n1.ball.initialTime == t
  {
    LegacyCollideSomeIff(c0, g0, c1, g1, t, sqrt);
    var (r0, r1) := LegacyBallBallResponse(c0.ball, c1.ball, t, sqrt);
    LegacyBallBallState(c0.ball, c1.ball, t, sqrt);
    assert LegacyCollide(c0, g0, c1, g1, t, sqrt).value == (Collidable.Ball(r0), Collidable.Ball(r1));
  }

  /** The keys `collision` registers are live: `collide` on two bodies under
      their registered keys answers exactly when both are balls, and the
      balls it hands back are no longer filed under those keys. */
  lemma KeyOfLive(e0: Entity, c0: Collidable, e1: Entity, c1: Collidable, t: real, sqrt: real -> real)
    requires LegacyResolvable(c0, c1)
    ensures var r := LegacyCollide(c0, KeyOf(e0, c0).generation, c1, KeyOf(e1, c1).generation, t, sqrt);
      (r.Some? <==> c0.Ball? && c1.Ball?)
      && (r.Some? ==> KeyOf(e0, r.value.0) != KeyOf(e0, c0) && KeyOf(e1, r.value.1) != KeyOf(e1, c1))
  {
    var g0, g1 := KeyOf(e0, c0).generation, KeyOf(e1, c1).generation;
    LegacyCollideSomeIff(c0, g0, c1, g1, t, sqrt);
    if LegacyCollide(c0, g0, c1, g1, t, sqrt).Some? {
      LegacyCollideNext(e0, c0, g0, e1, c1, g1, t, sqrt);
      NextInjective(KeyOf(e0, c0), KeyOf(e0, c0));
      NextInjective(KeyOf(e1, c1), KeyOf(e1, c1));
    }
  }
}
