/** Constant-velocity extrapolation of balls (src/advance.rs). */
module Advance {
  import opened Geometry
  import opened Entities

  /** Where a ball moving at constant velocity is at time t. */
  function PositionAt(b: Ball, t: real): Vec
  {
    Plus(b.position, Scale(t - b.initialTime, b.velocity))
  }

  /** The ball re-anchored at time t: the same trajectory, now described from t. */
  function Advanced(b: Ball, t: real): (r: Ball)
    ensures r.initialTime == t && r.position == PositionAt(b, t)
    ensures r.velocity == b.velocity && r.radius == b.radius && r.generation == b.generation
    ensures forall s :: PositionAt(r, s) == PositionAt(b, s)
  {
    var r := b.(position := PositionAt(b, t), initialTime := t);
    assert forall s :: PositionAt(r, s) == PositionAt(b, s) by {
      forall s ensures PositionAt(r, s) == PositionAt(b, s) {
        SameTrajectory(b, t, s);
      }
    }
    r
  }

  lemma SameTrajectory(b: Ball, t: real, s: real)
    ensures Plus(PositionAt(b, t), Scale(s - t, b.velocity)) == PositionAt(b, s)
  {
    var v := b.velocity;
    assert (t - b.initialTime) * v.x + (s - t) * v.x == (s - b.initialTime) * v.x;
    assert (t - b.initialTime) * v.y + (s - t) * v.y == (s - b.initialTime) * v.y;
  }

  /** `advance_single_ball`: moves the position along the velocity by the time
      elapsed since `initial_time`, then records the new time. */
  method AdvanceSingleBall(ball: Ball, nextT: real) returns (updated: Ball)
    ensures updated == Advanced(ball, nextT)
  {
    updated := ball;
    updated := updated.(position := Plus(updated.position, Scale(nextT - updated.initialTime, updated.velocity)));
    updated := updated.(initialTime := nextT);
  }

  /** Advancing twice to the same time is advancing once. */
  lemma AdvanceIdempotent(b: Ball, t: real)
    ensures Advanced(Advanced(b, t), t) == Advanced(b, t)
  {
  }

  /** Advancing to t1 and then to t2 is advancing straight to t2. */
  lemma AdvanceCompose(b: Ball, t1: real, t2: real)
    ensures Advanced(Advanced(b, t1), t2) == Advanced(b, t2)
  {
    assert PositionAt(Advanced(b, t1), t2) == PositionAt(b, t2);
  }

  /** The body after its balls have been moved to time t; walls do not move. */
  function AdvancedBody(c: Collidable, t: real): Collidable
  {
    match c
    case Ball(b) => Collidable.Ball(Advanced(b, t))
    case Wall(_) => c
  }

  /** The loop body of `advance_balls`: a ball is advanced, a wall left alone. */
  method AdvanceBody(c: Collidable, nextTime: real) returns (d: Collidable)
    ensures d == AdvancedBody(c, nextTime)
  {
    d := c;
    match c {
      case Ball(b) =>
        var moved := AdvanceSingleBall(b, nextTime);
        d := Collidable.Ball(moved);
      case Wall(_) =>
    }
  }

  /** `advance_balls`: every ball of the world moved to `time + time_delta`. */
  method AdvanceBalls(world: World, time: real, timeDelta: real) returns (next: World)
    ensures next.Keys == world.Keys
    ensures forall e :: e in world ==> next[e] == AdvancedBody(world[e], time + timeDelta)
  {
    var nextTime := time + timeDelta;
    next := world;
    var todo := world.Keys;
    while todo != {}
      invariant todo <= world.Keys && next.Keys == world.Keys
      invariant forall e :: e in world && e !in todo ==> next[e] == AdvancedBody(world[e], nextTime)
      invariant forall e :: e in todo ==> next[e] == world[e]
      decreases |todo|
    {
      var e :| e in todo;
      var moved := AdvanceBody(world[e], nextTime);
      next := next[e := moved];
      todo := todo - {e};
    }
  }
}
