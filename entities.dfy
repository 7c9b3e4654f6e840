/** The bodies of the simulation and the keys under which the collision engine
    files them (src/ball.rs, src/wall.rs, src/collision/collidable.rs). */
module Entities {
  import opened Geometry

  datatype Option<T> = None | Some(value: T)

  /** A moving disc. `position` is where the ball is at `initialTime`; the
      generation counts the collisions the ball has taken part in. */
  datatype Ball = Ball(position: Vec, velocity: Vec, radius: real, initialTime: real, generation: int)

  /** A fixed segment from p0 to p1. */
  datatype Wall = Wall(p0: Vec, p1: Vec)

  /** The closed set of bodies the engine knows about. */
  datatype Collidable = Ball(ball: Ball) | Wall(wall: Wall)

  /** The ECS entity handle. */
  type Entity = nat

  /** The world, as far as the collision engine sees it: each entity's body. */
  type World = map<Entity, Collidable>

  /** `GenerationalCollisionEntity`: an entity together with the generation it
      had when it was registered. */
  datatype Key = Key(entity: Entity, generation: int)

  /** The generation the engine compares a key against: a ball's collision
      generation; a wall never collides with anything that changes it, so 0. */
  function GenerationOf(c: Collidable): int
  {
    match c
    case Ball(b) => b.generation
    case Wall(_) => 0
  }

  /** The key under which an entity is filed in its present state. */
  function CurrentKey(world: World, e: Entity): Key
    requires e in world
  {
    Key(e, GenerationOf(world[e]))
  }

  /** Every ball has a positive radius, so that its mass r*r is positive. */
  ghost predicate WellFormed(world: World)
  {
    forall e :: e in world && world[e].Ball? ==> world[e].ball.radius > 0.0
  }

  /** The numeric routines the engine calls but that are not part of this
      model: the square root, and `Wall::normal`. */
  datatype Library = Library(sqrt: real -> real, normal: Wall -> Vec)

  /** The square root is exact and every wall normal has length one. */
  ghost predicate Sound(lib: Library)
  {
    IsSqrt(lib.sqrt) && forall w :: Dot(lib.normal(w), lib.normal(w)) == 1.0
  }
}
