# A verified model of the `balls` continuous collision engine

`balls` is a 2D simulation of discs bouncing among fixed wall segments. Its
collision engine does not step time in fixed increments. It predicts when two
bodies will touch and handles those contacts in order. This project models
that engine in Dafny and proves properties of the model. The model covers:

- **Broad phase.** A spatial hash from grid cells (`CELL_SIZE` 20, indices
  clamped to the range 0..100) to the set of keys registered in each cell.
  A key is an entity plus the generation it had when it was registered.
  `add` files a body under every cell of the box it sweeps during the frame.
  The keys already in those cells become its candidates. `remove` undoes a
  registration through the `last_box` record.
- **Narrow phase.** Closed-form contact times. Ball against wall is a linear
  equation against the wall's infinite line. Ball against ball is a quadratic
  with two guards: one for separating bodies, one for a negative discriminant.
- **Event scheduler.** A priority queue of key pairs. `collision` fills it
  once per frame. `collision_handle` drains it. An event whose generation
  snapshot is stale is dropped. A live event is resolved by `collide`. The
  bodies `collide` changes are added again for the rest of the frame.
- **Contact resolution.** A ball hitting a wall has its velocity reflected.
  Two balls exchange an elastic impulse with masses r², followed by a speed
  cap. Every ball involved advances one generation.
- **Ball movement and the frame clock.** Constant-velocity extrapolation of a
  ball (`advance_single_ball`). The simulated window `[time, next_time]` and
  the sleep that paces frames.
- **The older revision of the engine** (`src/collision.rs`), modelled
  alongside. Its keys carry the kind of body, and `next()` moves a ball key
  to the next generation. Its cell range sweeps a fixed time step. Its solver
  returns only the entry time, with the strict window `time < t <= time +
  time_delta`. Its impulse is applied unconditionally, divides by the squared
  contact distance, and caps speeds at 100.

Modelling choices:

- **Numbers.** Coordinates, times and speeds are exact `real`s, not f32/f64.
- **Library functions passed in.** The square root and `Wall::normal` come
  from libraries that are not part of this model. They are passed in as the
  `Library` value (or as a `sqrt: real -> real` parameter). The lemmas that
  need them require `IsSqrt(sqrt)` (a non-negative root whose square is its
  argument), and for normals a unit length.
- **The world.** It is a map from entity to body: `Ball` or `Wall`, a closed
  datatype.
- **Generations.** A generation is read from the ball's own
  `collision_generation` field. Walls are at generation 0.
- **The queue.** It is a map from pair to priority. Pushing a pair that is
  already queued replaces its priority. A pop returns a pair of greatest
  priority.
- **Form of each operation.**
  - Operations that update state step by step are methods. These are `add`,
    `remove`, `collision`, `collision_handle`, the cell loops,
    `advance_single_ball`, `advance_balls`, `advance_time` and the velocity
    updates of the colliders. Each states its result or its new state: as a
    function of its inputs (`advance_single_ball`, the colliders, the cell
    loops), or as a predicate relating the state before to the state after
    (`Inserted`, `Removed` and `Queued` for `add` and `remove`, and the
    re-adds of `collision_handle`).
  - `CollisionDetectionData`, `SimulationData` and `SimulationConfig` are
    classes whose fields those methods update.
  - The solvers and the `collide` dispatch are functions.

Four details of the code that are easy to misread:

- The swept box is not widened by an ε. In both revisions it is the box of
  the start and end positions, widened by the radius alone.
- The current ball-ball solver has no guard for a near-zero leading
  coefficient. The separation guard `dv·dx > −EPSILON` implies `a > 0`
  anyway (`Solvers.SolveBallBall`).
- The window slack applies only at the start: `[time − EPSILON, next_time]`.
- The older revision handles the latest contact first (see Findings).

`src/collision/collision.rs:4` imports `get_movement_bounding_box` from
`solvers`, and `src/collision/solvers.rs` does not define it. The model uses the
box formula of `src/collision.rs:60-71`. A ball sweeps it over
`next_time − initial_time` and a wall over nothing (`Grid.MovementCells`). The
lemma `Legacy.LegacyCellsFacts` ties the two revisions' ranges together.
`EntityAndRef` and the world-level `collide(world, …)` are not part of this
model either. They become a read of the world map, the `Collidable`-level
`Colliders.Collide`, and a write-back of its answer (`Detection.Store`).

## Model

| member | source | states |
|---|---|---|
| Geometry.Inf | src/collision.rs:66 | Each coordinate of the componentwise minimum is at most both inputs' and equals one of them |
| Geometry.Sup | src/collision.rs:67 | Each coordinate of the componentwise maximum is at least both inputs' and equals one of them |
| Grid.AsI32Nearest | src/collision/collision.rs:41-44 | `as i32` gives the i32 nearest to its argument, keeps the order of its arguments, and changes nothing a second time |
| Grid.Ceil | src/collision/collision.rs:42 | The ceiling is the least integer not below x |
| Grid.CellRangeBounds | src/collision/collision.rs:40-45 | Whatever the box, lower cell indices are at least 0 and exclusive upper indices at most 101 |
| Grid.CellRangeCovers | src/collision/collision.rs:40-45 | Every point of the box whose cell is on the grid lies in a cell of the range |
| Grid.BallBoxContainsPath | src/collision.rs:62-68 | While a ball moves over the time span, the whole disc stays inside its swept box |
| Grid.WallBoxContainsWall | src/collision.rs:70 | Every point of a wall segment lies inside the wall's box |
| Grid.SegmentsIntersectSymmetric | src/collision/collision.rs:100-102 | `segments_intersect` does not depend on the order of its two intervals |
| Grid.SegmentsIntersectIsOverlap | src/collision/collision.rs:100-102 | For proper intervals, `segments_intersect` holds exactly when some instant lies in both closed intervals |
| Advance.Advanced | src/advance.rs:18-21 | The advanced ball is anchored at t, at the position p + v(t − initial_time), with velocity, radius and generation unchanged, and it follows the same trajectory at every time |
| Advance.AdvanceSingleBall | src/advance.rs:18-21 | The in-place update of position, then of initial time, yields the advanced ball |
| Advance.AdvanceIdempotent | src/advance.rs:19-20 | Advancing again to the same time changes nothing |
| Advance.AdvanceCompose | src/advance.rs:19-20 | Advancing to t1 and then to t2 is advancing straight to t2 |
| Advance.AdvanceBody | src/advance.rs:14-15 | A ball is advanced to the target time; a wall is left as it is |
| Advance.AdvanceBalls | src/advance.rs:9-16 | Every ball of the world is advanced to `time + time_delta`, walls are untouched and no entity appears or disappears |
| Simulation.MsToSleepBounds | src/simulation.rs:45-50 | The sleep is never negative, is at most `FRAME_TIME_CAP` when the clock has not gone back, is zero once a whole frame has elapsed, and the clock reading plus the sleep is the later of now and the end of the previous frame's budget |
| Simulation.SimulationConfig.constructor | src/simulation.rs:14-16 | The configuration holds the given time step |
| Simulation.SimulationConfig.AdjustSimulationSpeed | src/simulation.rs:53-56 | The time step is multiplied by the factor; nothing else changes |
| Simulation.SimulationData.Init | src/simulation.rs:18-28 | The first window is [0, time_delta] and `last_simulated` is the clock reading |
| Simulation.SimulationData.AdvanceTime | src/simulation.rs:31-51 | `time` becomes the old `next_time`, the window again spans one time step, time does not go back for a non-negative step, and the sleep and `last_simulated` are as the pacing rule gives them |
| Queue.TopExists | src/collision/collision.rs:146-150 | A queue that is not empty has a pair of greatest priority, so the `pop` inside the drain loop always succeeds |
| Solvers.SolveCollisionSymmetric | src/collision/solvers.rs:6-20 | The solution does not depend on the order of the two bodies, and two walls never meet |
| Solvers.NoSelfContact | src/collision/solvers.rs:43-54 | No body has a contact with itself |
| Solvers.SignedDistanceLinear | src/collision/solvers.rs:25-27 | The signed distance of the centre from the wall's line is d + a(t − initial_time) |
| Solvers.BallWallNoneIffReceding | src/collision/solvers.rs:26-32 | Ball-wall gives no contact exactly when d·a ≥ 0, that is, exactly when from its initial time on the ball never gets closer to the line |
| Solvers.BallWallContactTimes | src/collision/solvers.rs:33-36 | Otherwise the signed distance equals the radius at the first time returned and zero at the second |
| Solvers.BallWallEntryBeforeTouch | src/collision/solvers.rs:26-36 | A ball in front of the wall moving toward it, with r ≥ 0, gets a contact whose entry time is no later than its touch time |
| Solvers.BallWallFromBehind | src/collision/solvers.rs:26-36 | A ball behind the wall moving toward it gets an entry time after the touch time |
| Solvers.SolveBallBall | src/collision/solvers.rs:39-72 | Ball-ball gives no contact exactly when dv·dx > −EPSILON or the discriminant is below −EPSILON; on a contact the leading coefficient is positive, so nothing divides by zero |
| Solvers.ApproachingMeansMoving | src/collision/solvers.rs:50-57 | Past the separation guard the relative velocity is nonzero, so a = dv·dv > 0 |
| Solvers.SolveBallBallSymmetric | src/collision/solvers.rs:39-72 | Swapping the two balls changes neither the guards nor the times |
| Solvers.CoefficientsSymmetric | src/collision/solvers.rs:56-61 | The coefficients and the discriminant do not depend on the order of the balls |
| Solvers.SeparationQuadratic | src/collision/solvers.rs:46-59 | The squared distance of the centres at t, less (r0 + r1)², is a t² + b t + c with the solver's coefficients |
| Solvers.BallBallEntryBeforeMid | src/collision/solvers.rs:66-71 | On a contact, the entry time is no later than the time of closest approach |
| Solvers.BallBallEntryTouches | src/collision/solvers.rs:61-69 | When the discriminant is not negative, the balls are exactly the contact distance apart at the entry time |
| Solvers.BallBallApartBeforeEntry | src/collision/solvers.rs:61-69 | Before the entry time the balls are strictly farther apart than contact |
| Solvers.BallBallMidClosest | src/collision/solvers.rs:70 | The second time returned is when the centres are closest |
| Solvers.BallBallClamped | src/collision/solvers.rs:61-66 | A discriminant in [−EPSILON, 0) is clamped to zero, and both times returned coincide |
| SolverExamples.BallWallExample | src/collision/solvers.rs:22-37 | d = 4, a = −2, r = 1 from time 0 gives entry 1.5 and touch 2 |
| SolverExamples.BallWallRecedingExample | src/collision/solvers.rs:28-32 | The same ball moving away gives no contact |
| SolverExamples.BallBallExample | src/collision/solvers.rs:39-72 | Unit balls at (0,0) and (10,0) with velocities (5,0) and (−5,0) at time 0 give (0.8, 1.0) |
| SolverExamples.BallBallSeparatingExample | src/collision/solvers.rs:50-54 | With the velocities swapped they give no contact |
| Colliders.CapSpeed | src/collision/colliders.rs:103-105 | The cap step yields the capped velocity |
| Colliders.CappedBound | src/collision/colliders.rs:103-109 | A capped velocity has norm at most the cap, is a non-negative multiple of the velocity, and is the velocity itself when that was within the cap |
| Colliders.ReflectProperties | src/collision/colliders.rs:57-60 | With a unit normal, a velocity into the wall has its normal component reversed, any other is kept, speed is preserved, and the result never points into the wall |
| Colliders.CollideBallWall | src/collision/colliders.rs:46-62 | The step-by-step update of the cloned ball yields the ball-wall response |
| Colliders.BallWallResponseState | src/collision/colliders.rs:52-60 | After a wall contact the ball is at time t on its old trajectory, one generation on, with its radius, bouncing with its speed kept |
| Colliders.MassSumPositive | src/collision/colliders.rs:85-100 | When some ball has a radius, the sum of the masses r² is positive |
| Colliders.CollideBallBall | src/collision/colliders.rs:64-115 | The step-by-step update of the two cloned balls yields the ball-ball response |
| Colliders.BallBallResponseState | src/collision/colliders.rs:80-98 | Both balls end at time t on their old trajectories, one generation on, with their radii; balls that do not approach keep their velocities |
| Colliders.BallBallImpulse | src/collision/colliders.rs:98-109 | On the impulse branch each new velocity is the capped result of its kick along the line of centres |
| Colliders.BallBallSpeedCapped | src/collision/colliders.rs:103-109 | On the impulse branch neither resulting speed exceeds 1000 |
| Colliders.BallBallMomentum | src/collision/colliders.rs:85-108 | When the balls approach and no cap fires, momentum with masses r² is conserved |
| Colliders.BallBallHeadOnExchange | src/collision/colliders.rs:85-108 | Equal radii meeting head on along the line of centres, within the cap, exchange velocities |
| Colliders.CollideNoneIff | src/collision/colliders.rs:7-44 | `collide` refuses exactly two walls, and any ball whose generation is not the event's |
| Colliders.CollideWallFirstSwapped | src/collision/colliders.rs:38-39 | A wall-first call gives the ball-first answer with its slots swapped, so the wall's slot is empty |
| Colliders.CollideBumpsGenerations | src/collision/colliders.rs:7-44 | Each slot `collide` fills holds a ball one generation on, at time t, with its radius; a wall's slot stays empty |
| Buckets.InsertIntoCells | src/collision/collision.rs:60-72 | After the cell loops of `add`, the key is in every cell of the range, a bucket exists for each of them, every other bucket is as it was, and the candidates are exactly the keys those cells held before |
| Buckets.InsertIntoRow | src/collision/collision.rs:63-71 | One row of the loop extends the insertion and the candidates by the cells of that row |
| Buckets.InsertOne | src/collision/collision.rs:64-70 | One cell of the loop collects its occupants, then adds the key, creating the bucket when there is none |
| Buckets.RemoveFromCells | src/collision/collision.rs:89-95 | After the cell loops of `remove`, the key has left every existing bucket of the range; no bucket is created or dropped and others are untouched |
| Buckets.InsertedOccupants | src/collision/collision.rs:62-71 | After an insertion the key is in every cell of the range, no other key entered or left any cell, and cells outside the range are unchanged |
| Buckets.RemovedOccupants | src/collision/collision.rs:87-97 | After a removal the key is in no cell of the range, no other key entered or left any cell, and cells outside the range are unchanged |
| Buckets.InsertThenRemove | src/collision/collision.rs:87-97 | Removing a freshly inserted key over the same range restores every cell's occupants |
| Detection.EventPrioritySymmetric | src/collision/collision.rs:76-83 | Whether a pair is queued, and at what priority, does not depend on which key leads |
| Detection.EventPriorityMeaning | src/collision/collision.rs:76-83 | A pair is queued exactly when its solution (t0, t1) has t1 ≥ time − EPSILON and t0 ≤ next_time, and then at priority −t0 |
| Detection.QueueCandidates | src/collision/collision.rs:74-84 | The solve loop of `add` queues (key, c) for exactly the candidates c in the window, at their priority, and leaves every other queued pair alone |
| Detection.QueuedKeysIn | src/collision/collision.rs:75-84 | `add` keeps every queued pair made of two different entities of the world |
| Detection.QueuedOnly | src/collision/collision.rs:80-81 | `add` only ever queues pairs led by the key it registers |
| Detection.DetectedStart | src/collision/collision.rs:116-117 | With the buckets and the queue cleared, no entity is registered and no pair is queued |
| Detection.DetectStep | src/collision/collision.rs:120-130 | One `add` in `collision` extends the buckets, the `last_box` records and the sound, complete queue by one entity |
| Detection.Store | src/collision/collision.rs:178 | Writing back one slot of `collide`'s answer changes that entity at most |
| Detection.ResolveEffects | src/collision/collision.rs:178-181 | Resolving a live event changes only its two bodies: a ball moves to time t, one generation on, with its radius; a wall stays as it is |
| Detection.BumpedOlder | src/collision/collision.rs:178 | After a resolution no generation has gone down and no wall has changed |
| Detection.LiveIffCurrent | src/collision/collision.rs:159-176 | An event is live, and not skipped, exactly when it pairs the current keys of its two entities |
| Detection.ResolvedMakesStale | src/collision/collision.rs:159-181 | Once a live event is resolved, every event that still holds the earlier key of one of its balls is stale in the new world |
| Detection.CollisionDetectionData.constructor | src/collision/collision.rs:23-32 | The default detection data has empty buckets, records and queue |
| Detection.CollisionDetectionData.Add | src/collision/collision.rs:49-85 | `add` overwrites the key's `last_box` record with its range, inserts the key in every cell of it, and queues its in-window contacts with exactly the keys those cells held before |
| Detection.CollisionDetectionData.Remove | src/collision/collision.rs:87-97 | `remove` deletes the key's record and takes the key out of every bucket of the recorded range; an unrecorded key changes nothing; the queue is untouched |
| Detection.CollisionDetectionData.Pop | src/collision/collision.rs:146-151 | The pair popped has the smallest entry time t0 of all queued pairs and leaves the queue; nothing else changes |
| Detection.CollisionDetectionData.Collision | src/collision/collision.rs:110-131 | After `collision` each cell holds exactly the current keys of the bodies whose range covers it, every entity's record is its range, and the queue holds exactly the in-window pairs of distinct bodies that share a cell: every queued pair shares a cell and has priority −t0, and every such pair is queued in one order or the other |
| Detection.CollisionDetectionData.AddCurrent | src/collision/collision.rs:120-130 | One pass of the loop of `collision` adds one more entity under its current key |
| Detection.CollisionDetectionData.HandleOne | src/collision/collision.rs:146-181 | One drain iteration pops the earliest pair; a stale pair is dropped with the world and the engine otherwise unchanged; a live one is resolved, and each of its bodies that is a ball is added again, in turn, under its new current key over its new cells, queueing its in-window contacts with exactly the keys those cells held before; new pairs are led only by those keys; generations never go down |
| Detection.CollisionDetectionData.HandleLive | src/collision/collision.rs:178-181 | A live event is resolved by `collide` and written back; then the first body, and after it the second, is added again when it is a ball: its record becomes its new range, its current key enters every cell of it, and its in-window contacts with the keys those cells held are queued; a wall changes nothing |
| Detection.CollisionDetectionData.Register | src/collision/collision.rs:179-181 | A body `collide` handed back is added under its current key, with the record, cells and queued contacts of `add`; a body it did not hand back changes nothing |
| Detection.CollisionDetectionData.CollisionHandle | src/collision/collision.rs:140-183 | The drain loop stops early only when the queue is empty; an empty queue changes nothing; entities are kept, generations never go down and walls never change |
| Legacy.KeyOfLive | src/collision.rs:207-233 | `collide` on two bodies under the keys `collision` registers answers exactly when both are balls, and the balls it hands back are no longer filed under those keys |
| Legacy.Next | src/collision.rs:40-48 | `next()` keeps entity and kind |
| Legacy.NextInjective | src/collision.rs:40-48 | `next()` never merges two keys, moves every ball key to another generation, and returns a wall key unchanged |
| Legacy.LegacyCellsFacts | src/collision.rs:60-77 | This revision's range stays on the grid; for a wall it is the current revision's range, and for a ball the current range is this one over the time left to the end of the frame |
| Legacy.EntryTime | src/collision.rs:172-185 | Returns no time exactly when a ≤ EPSILON or the discriminant is negative |
| Legacy.EntryTimeIsRoot | src/collision.rs:176-185 | With a true square root, the entry time is a root of the contact quadratic |
| Legacy.EntryTimeBeforeRoot | src/collision.rs:183-184 | With a true square root, the contact quadratic is positive at every time before the entry time |
| Legacy.LegacySolveBallBall | src/collision.rs:158-186 | No contact exactly when a ≤ EPSILON or the discriminant is negative; there is no separation guard |
| Legacy.LegacySolveCollision | src/collision.rs:140-156 | Only two balls ever get a contact; ball-wall and wall-wall give none |
| Legacy.LegacyEntryTouches | src/collision.rs:158-186 | At the entry time the two balls are exactly the contact distance apart |
| Legacy.LegacyApartBeforeEntry | src/collision.rs:176-185 | Before the entry time the two balls are strictly farther apart than contact, so the time returned is the first contact |
| Legacy.LegacyAgreesWithCurrent | src/collision.rs:158-186 | Where the current revision finds a contact with a > EPSILON and a non-negative discriminant, this revision's entry time is the current one's |
| Legacy.LegacySolveSymmetric | src/collision.rs:140-151 | The solution does not depend on the order of the bodies |
| Legacy.LegacyNoSelfContact | src/collision.rs:162-174 | No body meets itself |
| Legacy.LegacyCollideBallBall | src/collision.rs:420-450 | The step-by-step update of the two cloned balls yields this revision's response |
| Legacy.LegacyBallBallState | src/collision.rs:427-430 | Both balls end at time t on their trajectories, one generation on, with their radii |
| Legacy.LegacyImpulse | src/collision.rs:436-445 | Each new velocity is the capped result of the kick computed with the squared contact distance, whatever the sign of dv·dx |
| Legacy.LegacyBallBallSpeedCapped | src/collision.rs:438-445 | Neither resulting speed exceeds 100 |
| Legacy.LegacyMomentum | src/collision.rs:432-445 | When no cap fires, momentum with masses r² is conserved whether or not the balls approach |
| Legacy.LegacyAgreesAtContact | src/collision.rs:436-437 | Balls that touch and approach get the current revision's response, as long as no cap fires |
| Legacy.LegacyCollideSomeIff | src/collision.rs:378-418 | `collide` answers exactly for two balls both at the event's generations |
| Legacy.LegacyCollideNext | src/collision.rs:275-291 | The balls `collide` hands back are at time t with their radii, and their keys are the `next()` of the event's keys |
| LegacyDetection.LegacyPriorityMeaning | src/collision.rs:108-117 | A pair is queued exactly when the entry time t satisfies time < t ≤ time + time_delta, then at priority t, only for two balls that touch at t |
| LegacyDetection.LegacyQueueCandidates | src/collision.rs:108-117 | The solve loop of `add` queues (key, k) for exactly the candidates k in the window, at their entry time, and leaves every other queued pair alone |
| LegacyDetection.LegacyQueuedOnly | src/collision.rs:113-114 | `add` only ever queues pairs led by the key it registers |
| LegacyDetection.LegacyPrioritySymmetric | src/collision.rs:140-151 | For two entities of the world, the queued priority does not depend on which of them leads the pair |
| LegacyDetection.LegacyDetectedStart | src/collision.rs:203-204 | With the buckets and the queue cleared, nothing is registered and nothing is queued |
| LegacyDetection.LegacyDetectStep | src/collision.rs:206-234 | One `add` in `collision` extends the buckets and the sound, complete queue by one entity |
| LegacyDetection.LegacyResolveEffects | src/collision.rs:268-277 | Resolving an event changes only its two bodies, and when `collide` answers both are balls at time t one generation on |
| LegacyDetection.LegacyResolveOlder | src/collision.rs:268-277 | Resolving an event keeps the world's entities and every radius positive, and no body gets younger |
| LegacyDetection.LegacyPopsLatest | src/collision.rs:113-114 | As written, of two queued contacts at times 1 and 2 the pop returns the later one |
| LegacyDetection.LegacyCollisionData.constructor | src/collision.rs:50-58 | The default detection data has empty buckets and queue |
| LegacyDetection.LegacyCollisionData.Add | src/collision.rs:81-118 | `add` inserts the key in every cell of its range and queues its in-window contacts with exactly the keys those cells held before, at their entry times |
| LegacyDetection.LegacyCollisionData.Pop | src/collision.rs:257-261 | The pair popped has the greatest priority, which is the latest entry time, and leaves the queue |
| LegacyDetection.LegacyCollisionData.Collision | src/collision.rs:192-241 | After `collision` each cell holds exactly the keys of the bodies whose range covers it, and the queue holds exactly the in-window pairs of bodies that share a cell: every queued pair shares a cell and has its entry time as priority, and every such pair is queued in one order or the other |
| LegacyDetection.LegacyCollisionData.AddEach | src/collision.rs:206-234 | One loop of `collision` adds every entity of its set |
| LegacyDetection.LegacyCollisionData.AddListed | src/collision.rs:207-233 | One pass of those loops adds a ball under its generation or a wall under 0 |
| LegacyDetection.LegacyCollisionData.HandleOne | src/collision.rs:256-292 | One drain iteration pops the pair of latest entry time and resolves it on the bodies the world holds; when `collide` refuses, everything is as it was but the pop; when it answers, the two bodies it hands back are added in turn under the `next()` of the event's keys, each inserted in the cells it sweeps over the rest of the frame and queueing its contacts in (t, time + time_delta] with exactly the keys those cells held; new pairs are led only by those keys, and generations never go down |
| LegacyDetection.LegacyCollisionData.HandleAnswer | src/collision.rs:265-292 | After the pop: the world becomes the resolution of the event, and the grid and queue change as the answer of `collide` says: not at all without one, by the two re-adds with one |
| LegacyDetection.LegacyCollisionData.WriteBack | src/collision.rs:273-291 | Both bodies of the answer are written to the world, then added in turn under the `next()` of the event's keys over the rest of the frame |
| LegacyDetection.LegacyCollisionData.Readd | src/collision.rs:275-291 | The first re-add, then the second, inserts its `next()` key in the cells its body sweeps and queues that body's in-window contacts with exactly the keys those cells held; only pairs led by the `next()` keys are queued |
| LegacyDetection.LegacyCollisionData.CollisionHandle | src/collision.rs:245-357 | The drain loop stops early only when the queue is empty; an empty queue changes nothing; generations never go down |

## Left out

- Floating point: the engine computes in f32 (balls) and f64 (times), and the two revisions mix them. The model uses exact reals, so no rounding, overflow or NaN is modelled.
- The square root, `norm` and `Wall::normal` are parameters. Their implementations are not part of this model, and only the properties `IsSqrt` and unit length are assumed where they are used.
- The ECS machinery (`SubWorld`, queries, `entry_ref().unwrap()`, component reads and writes) is an explicit map from entity to body. The iteration order of queries and hash sets is a nondeterministic choice in the loops.
- The `Generation` component, which the current revision reads beside `Ball.collision_generation`, is not modelled separately. A ball's generation is its own field, and a wall's is 0.
- The system clock and `thread::sleep` in `advance_time`: the clock reading is a parameter and the sleep is returned, not performed. Logging (`info!`, `debug!`) is left out.
- Generations are unbounded integers: the i32 overflow of a generation counter is not modelled.
- The parallel iteration of `advance_balls` is modelled as a sequential loop over the entities.
- `Trails`, rendering, world generation and the event loop are outside the engine.
- The priority queue crate's internals are not modelled. The queue is a map from pair to priority whose push replaces a pair's priority. The tie-break between equal priorities is a nondeterministic choice.
- The older revision reads a body by the kind stored in its key (`fetch_collidable_copy`). The model reads `world[entity]`, and the entity always holds a body of that kind. Its `write_collidable` is a map update.
- Detection.CollisionDetectionData.CollisionHandle: the drain loop need not terminate, because a resolution can queue new events. The method takes a `fuel` bound on its iterations and does not model a run past it.
- LegacyDetection.LegacyCollisionData.CollisionHandle: the same `fuel` bound, for the same reason.
- No call of `remove` appears in `src/collision/collision.rs` or `src/main.rs`, and `last_box` is not cleared at the start of a frame. The model keeps both as written: `Collision` keeps old records of keys it does not add again.

## Findings

| source | as written | input that shows it | evidently intended | confidence | as-written member | corrected member |
|---|---|---|---|---|---|---|
| src/collision.rs:113-114 | Pairs are pushed with priority equal to their entry time, and the priority queue pops the greatest priority first. So `collision_handle` handles the LATEST predicted contact of the frame first, and a later contact can be resolved before an earlier one that would have invalidated it. | Two queued pairs with entry times 1.0 and 2.0: the pop returns the pair at 2.0. | The earliest contact handled first. The current revision negates the time (`OrderedFloat(-t0)`, src/collision/collision.rs:81), so its pop returns the smallest entry time. | not executed | LegacyDetection.LegacyPopsLatest | Detection.CollisionDetectionData.Pop |
