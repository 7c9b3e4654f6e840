/** Worked examples of the narrow-phase solver (src/collision/solvers.rs). */
module SolverExamples {
  import opened Geometry
  import opened Entities
  import opened Solvers

  /** 4 in front of the wall, closing at 2, radius 1: contact starts at 1.5
      and the centre reaches the line at 2. */
  lemma BallWallExample(b: Ball, w: Wall, n: Vec)
    requires b == Ball.Ball(Vec(4.0, 0.0), Vec(-2.0, 0.0), 1.0, 0.0, 0)
    requires w == Wall.Wall(Vec(0.0, 0.0), Vec(0.0, 10.0))
    requires n == Vec(1.0, 0.0)
    ensures SolveBallWall(b, w, n) == Some((1.5, 2.0))
  {
    var a, d := Dot(n, b.velocity), Dot(n, Minus(b.position, w.p0));
    assert a == -2.0 && d == 4.0;
    assert d * a == -8.0;
    DivideExactly(-(d - b.radius), a, 1.5);
    DivideExactly(-d, a, 2.0);
    assert SolveBallWall(b, w, n) == Some((-(d - b.radius) / a + b.initialTime, -d / a + b.initialTime));
  }

  /** The same ball moving away from the wall: no contact. */
  lemma BallWallRecedingExample(b: Ball, w: Wall, n: Vec)
    requires b == Ball.Ball(Vec(4.0, 0.0), Vec(2.0, 0.0), 1.0, 0.0, 0)
    requires w == Wall.Wall(Vec(0.0, 0.0), Vec(0.0, 10.0))
    requires n == Vec(1.0, 0.0)
    ensures SolveBallWall(b, w, n).None?
  {
    var a, d := Dot(n, b.velocity), Dot(n, Minus(b.position, w.p0));
    assert a == 2.0 && d == 4.0;
    assert d * a == 8.0;
  }

  /** Unit balls 10 apart closing at 10: contact at 0.8, closest approach at
      1.0. The facts below are computed one at a time. */
  lemma BallBallExample(b0: Ball, b1: Ball, sqrt: real -> real)
    requires IsSqrt(sqrt)
    requires b0 == Ball.Ball(Vec(0.0, 0.0), Vec(5.0, 0.0), 1.0, 0.0, 0)
    requires b1 == Ball.Ball(Vec(10.0, 0.0), Vec(-5.0, 0.0), 1.0, 0.0, 0)
    ensures SolveBallBall(b0, b1, sqrt) == Some((0.8, 1.0))
  {
    SqrtOfSquare(sqrt, 40.0);
    ExampleSqrt(sqrt);
    ExampleVelocity(b0, b1);
    ExampleOffset(b0, b1);
    ExampleAffine(b0, b1);
    ExampleContact(b0, b1);
    ExampleSolve(b0, b1, sqrt);
  }

  lemma ExampleSqrt(sqrt: real -> real)
    requires sqrt(40.0 * 40.0) == 40.0
    ensures sqrt(1600.0) == 40.0
  {
  }

  lemma ExampleVelocity(b0: Ball, b1: Ball)
    requires b0 == Ball.Ball(Vec(0.0, 0.0), Vec(5.0, 0.0), 1.0, 0.0, 0)
    requires b1 == Ball.Ball(Vec(10.0, 0.0), Vec(-5.0, 0.0), 1.0, 0.0, 0)
    ensures RelativeVelocity(b0, b1) == Vec(10.0, 0.0)
  {
  }

  lemma ExampleOffset(b0: Ball, b1: Ball)
    requires b0 == Ball.Ball(Vec(0.0, 0.0), Vec(5.0, 0.0), 1.0, 0.0, 0)
    requires b1 == Ball.Ball(Vec(10.0, 0.0), Vec(-5.0, 0.0), 1.0, 0.0, 0)
    ensures Offset(b0, b1) == Vec(-10.0, 0.0)
  {
  }

  lemma ExampleAffine(b0: Ball, b1: Ball)
    requires b0 == Ball.Ball(Vec(0.0, 0.0), Vec(5.0, 0.0), 1.0, 0.0, 0)
    requires b1 == Ball.Ball(Vec(10.0, 0.0), Vec(-5.0, 0.0), 1.0, 0.0, 0)
    ensures AffineOffset(b0, b1) == Vec(-10.0, 0.0)
  {
  }

  lemma ExampleContact(b0: Ball, b1: Ball)
    requires b0 == Ball.Ball(Vec(0.0, 0.0), Vec(5.0, 0.0), 1.0, 0.0, 0)
    requires b1 == Ball.Ball(Vec(10.0, 0.0), Vec(-5.0, 0.0), 1.0, 0.0, 0)
    ensures ContactSquared(b0, b1) == 4.0
  {
    assert ContactDistance(b0, b1) == 2.0;
  }

  lemma ExampleSolve(b0: Ball, b1: Ball, sqrt: real -> real)
    requires RelativeVelocity(b0, b1) == Vec(10.0, 0.0) && Offset(b0, b1) == Vec(-10.0, 0.0)
    requires AffineOffset(b0, b1) == Vec(-10.0, 0.0) && ContactSquared(b0, b1) == 4.0
    requires sqrt(1600.0) == 40.0
    ensures SolveBallBall(b0, b1, sqrt) == Some((0.8, 1.0))
  {
    assert CoefA(b0, b1) == 100.0;
    assert CoefB(b0, b1) == -200.0;
    assert CoefC(b0, b1) == 96.0;
    assert Discriminant(b0, b1) == 1600.0;
    DivideExactly(160.0, 200.0, 0.8);
    DivideExactly(200.0, 200.0, 1.0);
  }

  /** The same balls with their velocities swapped move apart: no contact. */
  lemma BallBallSeparatingExample(b0: Ball, b1: Ball, sqrt: real -> real)
    requires b0 == Ball.Ball(Vec(0.0, 0.0), Vec(-5.0, 0.0), 1.0, 0.0, 0)
    requires b1 == Ball.Ball(Vec(10.0, 0.0), Vec(5.0, 0.0), 1.0, 0.0, 0)
    ensures SolveBallBall(b0, b1, sqrt).None?
  {
    assert RelativeVelocity(b0, b1) == Vec(-10.0, 0.0);
    assert Offset(b0, b1) == Vec(-10.0, 0.0);
    assert Dot(RelativeVelocity(b0, b1), Offset(b0, b1)) == 100.0;
  }
}
