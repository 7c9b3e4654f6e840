/** The broad phase and the event scheduler of the current engine
    (src/collision/collision.rs): the spatial hash, the record of each key's
    cells, and the queue of predicted contacts, which `collision` fills and
    `collision_handle` drains. */
module Detection {
  import opened Geometry
  import opened Entities
  import opened Advance
  import opened Solvers
  import opened Colliders
  import opened Grid
  import opened Buckets
  import opened Queue

  /** A contact is queued only if its interval of contact overlaps the frame's
      window [time - EPSILON, nextTime]; its priority is the negated entry
      time, so that the earliest contact is popped first. */
  function EventPriority(world: World, a: Key, b: Key, time: real, nextTime: real, lib: Library): Option<real>
    requires a.entity in world && b.entity in world
  {
    match SolveCollision(world[a.entity], world[b.entity], lib)
    case None => None
    case Some(times) =>
      if SegmentsIntersect(times, (time - EPSILON, nextTime)) then Some(-times.0) else None
  }

  /** The solver's answer does not depend on which of the two keys comes first. */
  lemma EventPrioritySymmetric(world: World, a: Key, b: Key, time: real, nextTime: real, lib: Library)
    requires a.entity in world && b.entity in world
    ensures EventPriority(world, a, b, time, nextTime, lib) == EventPriority(world, b, a, time, nextTime, lib)
  {
    SolveCollisionSymmetric(world[a.entity], world[b.entity], lib);
  }

  /** A queued event's priority is minus the entry time the solver gives, and
      that entry time falls no later than the end of the window. */
  lemma EventPriorityMeaning(world: World, a: Key, b: Key, time: real, nextTime: real, lib: Library)
    requires a.entity in world && b.entity in world
    ensures var p := EventPriority(world, a, b, time, nextTime, lib);
      var s := SolveCollision(world[a.entity], world[b.entity], lib);
      (p.Some? <==> (s.Some? && s.value.1 >= time - EPSILON && s.value.0 <= nextTime))
      && (p.Some? ==> p.value == -s.value.0)
  {
  }

  /** Whether `add`, registering key, queues a pair of key and other. */
  predicate Hits(world: World, key: Key, other: Key, time: real, nextTime: real, lib: Library)
  {
    key.entity in world && other.entity in world
    && EventPriority(world, key, other, time, nextTime, lib).Some?
  }

  /** `after` is `before` with (key, c) queued for every candidate c whose
      contact with key falls in the window, at its priority. */
  ghost predicate Queued(before: Events<Event>, after: Events<Event>, world: World, key: Key, candidates: set<Key>,
                         time: real, nextTime: real, lib: Library)
  {
    (forall e :: e in after <==>
       e in before || (e.0 == key && e.1 in candidates && Hits(world, key, e.1, time, nextTime, lib)))
    && (forall e :: e in after ==>
          after[e] == if e.0 == key && e.1 in candidates && Hits(world, key, e.1, time, nextTime, lib)
                      then EventPriority(world, key, e.1, time, nextTime, lib).value
                      else before[e])
  }

  /** The queue after `add` has considered one more candidate. */
  function QueueOne(events: Events<Event>, world: World, key: Key, candidate: Key,
                    time: real, nextTime: real, lib: Library): Events<Event>
    requires key.entity in world && candidate.entity in world
  {
    match EventPriority(world, key, candidate, time, nextTime, lib)
    case None => events
    case Some(p) => events[(key, candidate) := p]
  }

  /** Considering one more candidate extends the queue's state by that candidate. */
  lemma QueuedStep(before: Events<Event>, events: Events<Event>, world: World, key: Key, done: set<Key>, candidate: Key,
                   time: real, nextTime: real, lib: Library)
    requires key.entity in world && candidate.entity in world && candidate !in done
    requires Queued(before, events, world, key, done, time, nextTime, lib)
    ensures Queued(before, QueueOne(events, world, key, candidate, time, nextTime, lib),
                   world, key, done + {candidate}, time, nextTime, lib)
  {
  }

  /** Every key the engine holds names an entity of the world, and no queued
      pair pairs an entity with itself. */
  ghost predicate KeysIn(world: World, buckets: Buckets<Key>, events: Events<Event>)
  {
    (forall c, k :: c in buckets && k in buckets[c] ==> k.entity in world)
    && (forall e :: e in events ==> e.0.entity in world && e.1.entity in world && e.0.entity != e.1.entity)
  }

  /** The second loop of `add`: each candidate is solved against key, and the
      pair is queued when its contact falls in the window. */
  method QueueCandidates(events: Events<Event>, world: World, key: Key, candidates: set<Key>,
                         time: real, nextTime: real, lib: Library) returns (next: Events<Event>)
    requires key.entity in world && forall k :: k in candidates ==> k.entity in world
    ensures Queued(events, next, world, key, candidates, time, nextTime, lib)
  {
    next := events;
    var todo := candidates;
    while todo != {}
      invariant todo <= candidates
      invariant Queued(events, next, world, key, candidates - todo, time, nextTime, lib)
      decreases |todo|
    {
      var candidate :| candidate in todo;
      ghost var queued := next;
      QueuedStep(events, next, world, key, candidates - todo, candidate, time, nextTime, lib);
      var solution := SolveCollision(world[key.entity], world[candidate.entity], lib);
      if solution.Some? {
        var (t0, t1) := solution.value;
        if SegmentsIntersect((t0, t1), (time - EPSILON, nextTime)) {
          next := next[(key, candidate) := -t0];
        }
      }
      assert next == QueueOne(queued, world, key, candidate, time, nextTime, lib);
      assert candidates - (todo - {candidate}) == (candidates - todo) + {candidate};
      todo := todo - {candidate};
    }
  }

  lemma CandidatesInWorld(world: World, buckets: Buckets<Key>, events: Events<Event>, r: CellRange)
    requires KeysIn(world, buckets, events)
    ensures forall k :: k in Candidates(buckets, r) ==> k.entity in world
  {
  }

  lemma InsertedKeysIn(world: World, before: Buckets<Key>, after: Buckets<Key>, events: Events<Event>, r: CellRange, key: Key)
    requires key.entity in world && KeysIn(world, before, events) && Inserted(before, after, r, key)
    ensures KeysIn(world, after, events)
  {
  }

  lemma QueuedKeysIn(world: World, buckets: Buckets<Key>, before: Events<Event>, after: Events<Event>, key: Key,
                     candidates: set<Key>, time: real, nextTime: real, lib: Library)
    requires KeysIn(world, buckets, before) && Queued(before, after, world, key, candidates, time, nextTime, lib)
    ensures KeysIn(world, buckets, after)
  {
    forall e | e in after && e !in before
      ensures e.0.entity != e.1.entity
    {
      if e.0.entity == e.1.entity {
        NoSelfContact(world[e.0.entity], lib);
      }
    }
  }

  /** What KeysIn says depends on the world's entities only, not on their states. */
  lemma KeysInSameEntities(world: World, next: World, buckets: Buckets<Key>, events: Events<Event>)
    requires KeysIn(world, buckets, events) && next.Keys == world.Keys
    ensures KeysIn(next, buckets, events)
  {
    assert forall e :: e in world <==> e in next;
  }

  // ---------------------------------------------------------------------
  // The frame's detection pass (`collision`)

  /** k is the key, at its current generation, of an entity of `done`. */
  predicate Current(world: World, done: set<Entity>, k: Key)
  {
    k.entity in done && k.entity in world && k == CurrentKey(world, k.entity)
  }

  /** The keys a cell holds once every entity of `done` has been added. */
  function Registered(world: World, done: set<Entity>, c: Cell, nextTime: real): set<Key>
  {
    set e | e in done && e in world && InRange(c, MovementCells(world[e], nextTime)) :: CurrentKey(world, e)
  }

  /** Every current key of `done` is recorded with its cells; other records are kept. */
  ghost predicate Recorded(before: map<Key, CellRange>, after: map<Key, CellRange>, world: World,
                           done: set<Entity>, nextTime: real)
  {
    (forall k :: k in after <==> k in before || Current(world, done, k))
    && (forall k :: k in after ==>
          after[k] == if Current(world, done, k) then MovementCells(world[k.entity], nextTime) else before[k])
  }

  /** Every queued pair is a pair of distinct current keys whose cells meet, at
      the priority the solver and the window give it. */
  ghost predicate SoundEvents(world: World, done: set<Entity>, events: Events<Event>, time: real, nextTime: real, lib: Library)
  {
    forall e :: e in events ==>
      Current(world, done, e.0) && Current(world, done, e.1) && e.0.entity != e.1.entity
      && SharedCell(MovementCells(world[e.0.entity], nextTime), MovementCells(world[e.1.entity], nextTime))
      && EventPriority(world, e.0, e.1, time, nextTime, lib) == Some(events[e])
  }

  /** Two cell ranges have a cell in common. */
  ghost predicate SharedCell(r0: CellRange, r1: CellRange)
  {
    exists c :: InRange(c, r0) && InRange(c, r1)
  }

  /** Every two distinct entities of `done` whose cells meet and whose contact
      falls in the window are queued, in one order or the other. */
  ghost predicate CompleteEvents(world: World, done: set<Entity>, events: Events<Event>, time: real, nextTime: real, lib: Library)
  {
    forall a, b ::
      a in done && b in done && a in world && b in world && a != b
      && SharedCell(MovementCells(world[a], nextTime), MovementCells(world[b], nextTime))
      && EventPriority(world, CurrentKey(world, a), CurrentKey(world, b), time, nextTime, lib).Some?
      ==> (CurrentKey(world, a), CurrentKey(world, b)) in events
          || (CurrentKey(world, b), CurrentKey(world, a)) in events
  }

  lemma RegisteredStep(world: World, done: set<Entity>, e: Entity, before: Buckets<Key>, after: Buckets<Key>, nextTime: real)
    requires e in world && e !in done
    requires forall c :: Occupants(before, c) == Registered(world, done, c, nextTime)
    requires Inserted(before, after, MovementCells(world[e], nextTime), CurrentKey(world, e))
    ensures forall c :: Occupants(after, c) == Registered(world, done + {e}, c, nextTime)
  {
    var r, key := MovementCells(world[e], nextTime), CurrentKey(world, e);
    InsertedOccupants(before, after, r, key);
    forall c ensures Occupants(after, c) == Registered(world, done + {e}, c, nextTime) {
      if InRange(c, r) {
        assert Registered(world, done + {e}, c, nextTime) == Registered(world, done, c, nextTime) + {key};
      } else {
        assert Registered(world, done + {e}, c, nextTime) == Registered(world, done, c, nextTime);
      }
    }
  }

  lemma FrameKeysIn(world: World, done: set<Entity>, buckets: Buckets<Key>, events: Events<Event>,
                    time: real, nextTime: real, lib: Library)
    requires forall c :: Occupants(buckets, c) == Registered(world, done, c, nextTime)
    requires SoundEvents(world, done, events, time, nextTime, lib)
    ensures KeysIn(world, buckets, events)
  {
    forall c, k | c in buckets && k in buckets[c] ensures k.entity in world {
      assert k in Registered(world, done, c, nextTime);
    }
  }

  lemma RegisteredCandidates(world: World, done: set<Entity>, buckets: Buckets<Key>, r: CellRange, nextTime: real)
    requires forall c :: Occupants(buckets, c) == Registered(world, done, c, nextTime)
    ensures forall k :: k in Candidates(buckets, r) ==>
              Current(world, done, k) && SharedCell(r, MovementCells(world[k.entity], nextTime))
  {
    forall k | k in Candidates(buckets, r)
      ensures Current(world, done, k) && SharedCell(r, MovementCells(world[k.entity], nextTime))
    {
      var c :| c in buckets && InRange(c, r) && k in buckets[c];
      assert k in Registered(world, done, c, nextTime);
      assert InRange(c, MovementCells(world[k.entity], nextTime));
    }
  }

  lemma RecordedStep(old0: map<Key, CellRange>, before: map<Key, CellRange>, world: World,
                     done: set<Entity>, e: Entity, nextTime: real)
    requires e in world && e !in done
    requires Recorded(old0, before, world, done, nextTime)
    ensures Recorded(old0, before[CurrentKey(world, e) := MovementCells(world[e], nextTime)], world, done + {e}, nextTime)
  {
  }

  lemma SoundStep(world: World, done: set<Entity>, e: Entity, before: Events<Event>, after: Events<Event>,
                  candidates: set<Key>, time: real, nextTime: real, lib: Library)
    requires e in world && e !in done
    requires SoundEvents(world, done, before, time, nextTime, lib)
    requires forall k :: k in candidates ==>
               Current(world, done, k) && SharedCell(MovementCells(world[e], nextTime), MovementCells(world[k.entity], nextTime))
    requires Queued(before, after, world, CurrentKey(world, e), candidates, time, nextTime, lib)
    ensures SoundEvents(world, done + {e}, after, time, nextTime, lib)
  {
    var key := CurrentKey(world, e);
    forall ev | ev in after
      ensures Current(world, done + {e}, ev.0) && Current(world, done + {e}, ev.1) && ev.0.entity != ev.1.entity
      ensures SharedCell(MovementCells(world[ev.0.entity], nextTime), MovementCells(world[ev.1.entity], nextTime))
      ensures EventPriority(world, ev.0, ev.1, time, nextTime, lib) == Some(after[ev])
    {
      if ev !in before {
        assert ev.0 == key && ev.1 in candidates;
      }
    }
  }

  lemma CompleteStep(world: World, done: set<Entity>, e: Entity, buckets: Buckets<Key>, before: Events<Event>, after: Events<Event>,
                     time: real, nextTime: real, lib: Library)
    requires e in world && e !in done
    requires forall c :: Occupants(buckets, c) == Registered(world, done, c, nextTime)
    requires CompleteEvents(world, done, before, time, nextTime, lib)
    requires Queued(before, after, world, CurrentKey(world, e),
                    Candidates(buckets, MovementCells(world[e], nextTime)), time, nextTime, lib)
    ensures CompleteEvents(world, done + {e}, after, time, nextTime, lib)
  {
    var ke := CurrentKey(world, e);
    var re := MovementCells(world[e], nextTime);
    forall a, b |
      a in done + {e} && b in done + {e} && a in world && b in world && a != b
      && SharedCell(MovementCells(world[a], nextTime), MovementCells(world[b], nextTime))
      && EventPriority(world, CurrentKey(world, a), CurrentKey(world, b), time, nextTime, lib).Some?
      ensures (CurrentKey(world, a), CurrentKey(world, b)) in after
              || (CurrentKey(world, b), CurrentKey(world, a)) in after
    {
      if a == e || b == e {
        var o := if a == e then b else a;
        var ko := CurrentKey(world, o);
        var c :| InRange(c, MovementCells(world[a], nextTime)) && InRange(c, MovementCells(world[b], nextTime));
        assert ko in Registered(world, done, c, nextTime);
        assert c in buckets && ko in buckets[c];
        assert ko in Candidates(buckets, re);
        EventPrioritySymmetric(world, ke, ko, time, nextTime, lib);
        assert Hits(world, ke, ko, time, nextTime, lib);
        assert (ke, ko) in after;
      }
    }
  }

  /** The state of `collision` once every entity of `done` has been added. */
  ghost predicate Detected(world: World, done: set<Entity>, buckets: Buckets<Key>, lastBox0: map<Key, CellRange>,
                           lastBox: map<Key, CellRange>, events: Events<Event>, time: real, nextTime: real, lib: Library)
  {
    (forall c :: Occupants(buckets, c) == Registered(world, done, c, nextTime))
    && Recorded(lastBox0, lastBox, world, done, nextTime)
    && SoundEvents(world, done, events, time, nextTime, lib)
    && CompleteEvents(world, done, events, time, nextTime, lib)
  }

  /** Before any entity is added the buckets and the queue are empty. */
  lemma DetectedStart(world: World, lastBox: map<Key, CellRange>, time: real, nextTime: real, lib: Library)
    ensures Detected(world, {}, map[], lastBox, lastBox, map[], time, nextTime, lib)
  {
    forall c ensures Occupants(map[], c) == Registered(world, {}, c, nextTime) {
      assert Registered(world, {}, c, nextTime) == {};
    }
  }

  lemma DetectedKeysIn(world: World, done: set<Entity>, buckets: Buckets<Key>, lastBox0: map<Key, CellRange>,
                       lastBox: map<Key, CellRange>, events: Events<Event>, time: real, nextTime: real, lib: Library)
    requires Detected(world, done, buckets, lastBox0, lastBox, events, time, nextTime, lib)
    ensures KeysIn(world, buckets, events)
  {
    FrameKeysIn(world, done, buckets, events, time, nextTime, lib);
  }

  /** Adding one more entity, as `add` does it, extends the state of `collision` by that entity. */
  lemma DetectStep(world: World, done: set<Entity>, e: Entity, key: Key, cells: CellRange, b0: Buckets<Key>, b1: Buckets<Key>,
                   lastBox0: map<Key, CellRange>, l0: map<Key, CellRange>, l1: map<Key, CellRange>,
                   q0: Events<Event>, q1: Events<Event>, time: real, nextTime: real, lib: Library)
    requires e in world && e !in done && key == CurrentKey(world, e) && cells == MovementCells(world[e], nextTime)
    requires Detected(world, done, b0, lastBox0, l0, q0, time, nextTime, lib)
    requires l1 == l0[key := cells] && Inserted(b0, b1, cells, key)
    requires Queued(q0, q1, world, key, Candidates(b0, cells), time, nextTime, lib)
    ensures Detected(world, done + {e}, b1, lastBox0, l1, q1, time, nextTime, lib)
  {
    RegisteredStep(world, done, e, b0, b1, nextTime);
    RecordedStep(lastBox0, l0, world, done, e, nextTime);
    RegisteredCandidates(world, done, b0, cells, nextTime);
    SoundStep(world, done, e, q0, q1, Candidates(b0, cells), time, nextTime, lib);
    CompleteStep(world, done, e, b0, q0, q1, time, nextTime, lib);
  }

  // ---------------------------------------------------------------------
  // Draining the queue (`collision_handle`)

  /** The event was queued for a generation one of its bodies has since left. */
  predicate Stale(world: World, e: Event)
    requires e.0.entity in world && e.1.entity in world
  {
    e.0.generation != GenerationOf(world[e.0.entity]) || e.1.generation != GenerationOf(world[e.1.entity])
  }

  /** An event is live exactly when it pairs the current keys of its two entities. */
  lemma LiveIffCurrent(world: World, e: Event)
    requires e.0.entity in world && e.1.entity in world
    ensures !Stale(world, e) <==> e.0 == CurrentKey(world, e.0.entity) && e.1 == CurrentKey(world, e.1.entity)
  {
  }

  /** Writes one slot of `collide`'s answer back to the world; an empty slot writes nothing. */
  function Store(world: World, x: Entity, s: Option<Collidable>): (w: World)
    requires x in world
    ensures w.Keys == world.Keys
    ensures forall y :: y in world && y != x ==> w[y] == world[y]
  {
    if s.Some? then world[x := s.value] else world
  }

  /** The world after the two bodies of an event are resolved at time t. */
  function Resolve(world: World, e: Event, t: real, lib: Library): World
    requires e.0.entity in world && e.1.entity in world && WellFormed(world)
  {
    var c0, c1 := world[e.0.entity], world[e.1.entity];
    match Collide(c0, e.0.generation, c1, e.1.generation, t, lib)
    case None => world
    case Some(slots) => Store(Store(world, e.0.entity, slots.0), e.1.entity, slots.1)
  }

  lemma ResolveStores(world: World, e: Event, t: real, lib: Library, outcome: Outcome)
    requires e.0.entity in world && e.1.entity in world && WellFormed(world)
    requires outcome == Collide(world[e.0.entity], e.0.generation, world[e.1.entity], e.1.generation, t, lib)
    ensures Resolve(world, e, t, lib)
            == if outcome.Some? then Store(Store(world, e.0.entity, outcome.value.0), e.1.entity, outcome.value.1)
               else world
  {
  }

  /** What the handling of a live event does to the world: only its two bodies
      change; a ball among them moves to time t one generation on with its
      radius kept, a wall stays as it was. */
  lemma ResolveEffects(world: World, e: Event, t: real, lib: Library)
    requires e.0.entity in world && e.1.entity in world && WellFormed(world)
    requires e.0.entity != e.1.entity && !Stale(world, e)
    ensures var w := Resolve(world, e, t, lib);
      && w.Keys == world.Keys && WellFormed(w)
      && (forall x :: x in world && x != e.0.entity && x != e.1.entity ==> w[x] == world[x])
      && (forall x :: x == e.0.entity || x == e.1.entity ==> Bumped(world[x], w[x], t))
  {
    var c0, c1 := world[e.0.entity], world[e.1.entity];
    var outcome := Collide(c0, e.0.generation, c1, e.1.generation, t, lib);
    if outcome.Some? {
      CollideBumpsGenerations(c0, e.0.generation, c1, e.1.generation, t, lib);
    } else {
      CollideNoneIff(c0, e.0.generation, c1, e.1.generation, t, lib);
    }
  }

  /** Once a live event is handled, any event that still holds the key one
      of its balls had before is stale in the new world, so that popping it
      later does nothing. */
  lemma ResolvedMakesStale(world: World, e: Event, t: real, lib: Library, x: Entity, f: Event)
    requires e.0.entity in world && e.1.entity in world && WellFormed(world)
    requires e.0.entity != e.1.entity && !Stale(world, e)
    requires (x == e.0.entity || x == e.1.entity) && world[x].Ball?
    requires f.0.entity in world && f.1.entity in world
    requires f.0 == CurrentKey(world, x) || f.1 == CurrentKey(world, x)
    ensures var w := Resolve(world, e, t, lib);
      f.0.entity in w && f.1.entity in w && Stale(w, f)
  {
    ResolveEffects(world, e, t, lib);
    var w := Resolve(world, e, t, lib);
    assert Bumped(world[x], w[x], t);
  }

  /** A wall is left as it is; a ball moves to time t and on by one
      generation, keeping its radius. */
  predicate Bumped(before: Collidable, after: Collidable, t: real)
  {
    match before
    case Wall(_) => after == before
    case Ball(b) =>
      after.Ball? && after.ball.generation == b.generation + 1
      && after.ball.radius == b.radius && after.ball.initialTime == t
  }

  /** A body's generation never goes down, and a wall never changes. */
  predicate Older(before: Collidable, after: Collidable)
  {
    GenerationOf(after) >= GenerationOf(before) && (before.Wall? ==> after == before)
  }

  lemma BumpedOlder(world: World, w: World, e0: Entity, e1: Entity, t: real)
    requires w.Keys == world.Keys && e0 in world && e1 in world
    requires forall x :: x in world && x != e0 && x != e1 ==> w[x] == world[x]
    requires forall x :: x == e0 || x == e1 ==> Bumped(world[x], w[x], t)
    ensures forall x :: x in world ==> Older(world[x], w[x])
  {
    forall x | x in world ensures Older(world[x], w[x]) {
      if x == e0 || x == e1 {
        assert Bumped(world[x], w[x], t);
      }
    }
  }

  lemma OlderTransitive(w0: World, w1: World, w2: World)
    requires w1.Keys == w0.Keys && w2.Keys == w0.Keys
    requires forall x :: x in w0 ==> Older(w0[x], w1[x])
    requires forall x :: x in w1 ==> Older(w1[x], w2[x])
    ensures forall x :: x in w0 ==> Older(w0[x], w2[x])
  {
    forall x | x in w0 ensures Older(w0[x], w2[x]) {
      assert x in w1;
    }
  }

  /** `add` only ever queues pairs led by the key it registers. */
  lemma QueuedOnly(before: Events<Event>, after: Events<Event>, world: World, key: Key, candidates: set<Key>,
                   time: real, nextTime: real, lib: Library)
    requires Queued(before, after, world, key, candidates, time, nextTime, lib)
    ensures forall f :: f in after ==> (f in before && after[f] == before[f]) || f.0 == key
  {
  }

  /** The state after the loop of `collision_handle` has considered entity x:
      when `collide` handed x back (`added`), the state after `add` of the
      current key of x at `time`; otherwise the state as it was. */
  ghost predicate AddedAgain(b0: Buckets<Key>, l0: map<Key, CellRange>, q0: Events<Event>,
                             b1: Buckets<Key>, l1: map<Key, CellRange>, q1: Events<Event>,
                             world: World, x: Entity, added: bool, time: real, nextTime: real, lib: Library)
  {
    x in world &&
    var key, cells := CurrentKey(world, x), MovementCells(world[x], nextTime);
    if added then
      l1 == l0[key := cells] && Inserted(b0, b1, cells, key)
      && Queued(q0, q1, world, key, Candidates(b0, cells), time, nextTime, lib)
    else
      b1 == b0 && l1 == l0 && q1 == q0
  }

  class CollisionDetectionData {
    var buckets: Buckets<Key>
    var lastBox: map<Key, CellRange>
    var events: Events<Event>

    /** `CollisionDetectionData::default()`. */
    constructor ()
      ensures buckets == map[] && lastBox == map[] && events == map[]
    {
      buckets := map[];
      lastBox := map[];
      events := map[];
    }

    ghost predicate Valid(world: World)
      reads this
    {
      KeysIn(world, buckets, events)
    }

    /** `add`: records the key's cells, puts the key in each of them, and
        queues its contacts with every key those cells held before. */
    method Add(world: World, key: Key, time: real, nextTime: real, lib: Library)
      requires key.entity in world && Valid(world)
      modifies this
      ensures lastBox == old(lastBox)[key := MovementCells(world[key.entity], nextTime)]
      ensures Inserted(old(buckets), buckets, MovementCells(world[key.entity], nextTime), key)
      ensures Queued(old(events), events, world, key,
                     Candidates(old(buckets), MovementCells(world[key.entity], nextTime)), time, nextTime, lib)
      ensures Valid(world)
    {
      var r := MovementCells(world[key.entity], nextTime);
      lastBox := lastBox[key := r];
      ghost var before := buckets;
      var results;
      buckets, results := InsertIntoCells(buckets, r, key);
      CandidatesInWorld(world, before, events, r);
      InsertedKeysIn(world, before, buckets, events, r, key);
      ghost var queued := events;
      events := QueueCandidates(events, world, key, results, time, nextTime, lib);
      QueuedKeysIn(world, buckets, queued, events, key, results, time, nextTime, lib);
    }

    /** `remove`: forgets the key's recorded cells and takes it out of them;
        a key with no record changes nothing. */
    method Remove(key: Key)
      modifies this
      ensures lastBox == old(lastBox) - {key}
      ensures key !in old(lastBox) ==> buckets == old(buckets)
      ensures key in old(lastBox) ==> Removed(old(buckets), buckets, old(lastBox)[key], key)
      ensures events == old(events)
    {
      if key in lastBox {
        var r := lastBox[key];
        lastBox := lastBox - {key};
        buckets := RemoveFromCells(buckets, r, key);
      }
    }

    /** `pop` on the queue: a pair of greatest priority, that is, of earliest
        entry time, leaves the queue. */
    method Pop() returns (e: Event, t: real)
      requires events != map[]
      modifies this
      ensures IsTop(old(events), e) && t == -old(events)[e]
      ensures forall f :: f in old(events) ==> t <= -old(events)[f]
      ensures events == old(events) - {e}
      ensures buckets == old(buckets) && lastBox == old(lastBox)
    {
      TopExists(events);
      e :| IsTop(events, e);
      t := -events[e];
      events := events - {e};
    }

    /** `collision`: empties the buckets and the queue (the records of
        `lastBox` are kept) and adds every entity under its current key. */
    method Collision(world: World, time: real, nextTime: real, lib: Library)
      modifies this
      ensures forall c :: Occupants(buckets, c) == Registered(world, world.Keys, c, nextTime)
      ensures Recorded(old(lastBox), lastBox, world, world.Keys, nextTime)
      ensures SoundEvents(world, world.Keys, events, time, nextTime, lib)
      ensures CompleteEvents(world, world.Keys, events, time, nextTime, lib)
      ensures Valid(world)
    {
      buckets := map[];
      events := map[];
      var todo := world.Keys;
      ghost var done: set<Entity> := {};
      DetectedStart(world, lastBox, time, nextTime, lib);
      while todo != {}
        invariant todo <= world.Keys && done == world.Keys - todo
        invariant Detected(world, done, buckets, old(lastBox), lastBox, events, time, nextTime, lib)
        decreases |todo|
      {
        var e :| e in todo;
        AddCurrent(world, e, done, old(lastBox), time, nextTime, lib);
        todo := todo - {e};
        done := done + {e};
      }
      assert done == world.Keys;
      DetectedKeysIn(world, done, buckets, old(lastBox), lastBox, events, time, nextTime, lib);
    }

    /** One pass of the loop of `collision`: the entity is added under its current key. */
    method AddCurrent(world: World, e: Entity, ghost done: set<Entity>, ghost lastBox0: map<Key, CellRange>,
                      time: real, nextTime: real, lib: Library)
      requires e in world && e !in done
      requires Detected(world, done, buckets, lastBox0, lastBox, events, time, nextTime, lib)
      modifies this
      ensures Detected(world, done + {e}, buckets, lastBox0, lastBox, events, time, nextTime, lib)
    {
      var key := CurrentKey(world, e);
      ghost var cells := MovementCells(world[e], nextTime);
      ghost var b0, l0, q0 := buckets, lastBox, events;
      DetectedKeysIn(world, done, buckets, lastBox0, lastBox, events, time, nextTime, lib);
      Add(world, key, time, nextTime, lib);
      DetectStep(world, done, e, key, cells, b0, buckets, lastBox0, l0, lastBox, q0, events, time, nextTime, lib);
    }

    /** One iteration of the loop of `collision_handle`: the earliest event is
        popped; a stale one is dropped; a live one is resolved, written back,
        and each body `collide` hands back is added again under its new key,
        over the rest of the frame. The ghost results are the state between
        the two bodies' re-adds. */
    method HandleOne(world: World, nextTime: real, lib: Library)
        returns (w: World, e: Event, t: real,
                 ghost midBuckets: Buckets<Key>, ghost midBox: map<Key, CellRange>, ghost midEvents: Events<Event>)
      requires events != map[] && Valid(world) && WellFormed(world)
      modifies this
      ensures IsTop(old(events), e) && t == -old(events)[e]
      ensures e.0.entity in world && e.1.entity in world
      ensures Stale(world, e) ==>
        w == world && buckets == old(buckets) && lastBox == old(lastBox) && events == old(events) - {e}
      ensures !Stale(world, e) ==> w == Resolve(world, e, t, lib)
      ensures !Stale(world, e) ==>
        AddedAgain(old(buckets), old(lastBox), old(events) - {e}, midBuckets, midBox, midEvents,
                   w, e.0.entity, world[e.0.entity].Ball?, t, nextTime, lib)
        && AddedAgain(midBuckets, midBox, midEvents, buckets, lastBox, events,
                      w, e.1.entity, world[e.1.entity].Ball?, t, nextTime, lib)
      ensures forall f :: f in events ==>
        (f in old(events) && f != e && events[f] == old(events)[f])
        || ((f.0.entity == e.0.entity || f.0.entity == e.1.entity) && f.0 == CurrentKey(w, f.0.entity))
      ensures w.Keys == world.Keys && WellFormed(w) && Valid(w)
      ensures forall x :: x in world ==> Older(world[x], w[x])
    {
      e, t := Pop();
      w := world;
      midBuckets, midBox, midEvents := buckets, lastBox, events;
      if e.0.generation != GenerationOf(world[e.0.entity]) || e.1.generation != GenerationOf(world[e.1.entity]) {
        return;
      }
      w, midBuckets, midBox, midEvents := HandleLive(world, e, t, nextTime, lib);
    }

    /** The live branch of the loop of `collision_handle`: `collide` at time t,
        its answer written back, and the bodies it hands back, which are the
        balls among the two, added again. */
    method HandleLive(world: World, e: Event, t: real, nextTime: real, lib: Library)
        returns (w: World, ghost midBuckets: Buckets<Key>, ghost midBox: map<Key, CellRange>,
                 ghost midEvents: Events<Event>)
      requires e.0.entity in world && e.1.entity in world && e.0.entity != e.1.entity
      requires !Stale(world, e) && Valid(world) && WellFormed(world)
      modifies this
      ensures w == Resolve(world, e, t, lib)
      ensures AddedAgain(old(buckets), old(lastBox), old(events), midBuckets, midBox, midEvents,
                         w, e.0.entity, world[e.0.entity].Ball?, t, nextTime, lib)
      ensures AddedAgain(midBuckets, midBox, midEvents, buckets, lastBox, events,
                         w, e.1.entity, world[e.1.entity].Ball?, t, nextTime, lib)
      ensures forall f :: f in events ==>
        (f in old(events) && events[f] == old(events)[f])
        || ((f.0.entity == e.0.entity || f.0.entity == e.1.entity) && f.0 == CurrentKey(w, f.0.entity))
      ensures w.Keys == world.Keys && WellFormed(w) && Valid(w)
      ensures forall x :: x in world ==> Older(world[x], w[x])
    {
      var e0, e1 := e.0.entity, e.1.entity;
      ResolveEffects(world, e, t, lib);
      var outcome := Collide(world[e0], e.0.generation, world[e1], e.1.generation, t, lib);
      ResolveStores(world, e, t, lib, outcome);
      w := world;
      midBuckets, midBox, midEvents := buckets, lastBox, events;
      if outcome.Some? {
        CollideBumpsGenerations(world[e0], e.0.generation, world[e1], e.1.generation, t, lib);
        var (s0, s1) := outcome.value;
        w := Store(Store(world, e0, s0), e1, s1);
        KeysInSameEntities(world, w, buckets, events);
        Register(w, e0, s0.Some?, t, nextTime, lib);
        midBuckets, midBox, midEvents := buckets, lastBox, events;
        Register(w, e1, s1.Some?, t, nextTime, lib);
      } else {
        CollideNoneIff(world[e0], e.0.generation, world[e1], e.1.generation, t, lib);
      }
      BumpedOlder(world, w, e0, e1, t);
    }

    /** The loop of `collision_handle` over the bodies `collide` hands back:
        when x is one of them it is added under its current key. */
    method Register(world: World, x: Entity, changed: bool, time: real, nextTime: real, lib: Library)
      requires x in world && Valid(world)
      modifies this
      ensures AddedAgain(old(buckets), old(lastBox), old(events), buckets, lastBox, events,
                         world, x, changed, time, nextTime, lib)
      ensures !changed ==> buckets == old(buckets) && lastBox == old(lastBox) && events == old(events)
      ensures forall f :: f in events ==> (f in old(events) && events[f] == old(events)[f]) || f.0 == CurrentKey(world, x)
      ensures Valid(world)
    {
      if changed {
        ghost var q0, b0 := events, buckets;
        Add(world, CurrentKey(world, x), time, nextTime, lib);
        QueuedOnly(q0, events, world, CurrentKey(world, x), Candidates(b0, MovementCells(world[x], nextTime)),
                   time, nextTime, lib);
      }
    }

    /** `collision_handle`: the queue is drained, one event at a time; `fuel`
        bounds the number of iterations. */
    method CollisionHandle(world: World, nextTime: real, lib: Library, fuel: nat) returns (w: World, steps: nat)
      requires Valid(world) && WellFormed(world)
      modifies this
      ensures steps <= fuel && (steps < fuel ==> events == map[])
      ensures old(events) == map[] ==> steps == 0 && w == world
      ensures w.Keys == world.Keys && WellFormed(w) && Valid(w)
      ensures forall x :: x in world ==> Older(world[x], w[x])
    {
      w, steps := world, 0;
      while events != map[] && steps < fuel
        invariant steps <= fuel
        invariant w.Keys == world.Keys && WellFormed(w) && Valid(w)
        invariant forall x :: x in world ==> Older(world[x], w[x])
        invariant old(events) == map[] ==> steps == 0 && w == world
        invariant steps == 0 ==> events == old(events)
        decreases fuel - steps
      {
        ghost var before := w;
        var e, t;
        ghost var mb, ml, mq;
        w, e, t, mb, ml, mq := HandleOne(w, nextTime, lib);
        OlderTransitive(world, before, w);
        steps := steps + 1;
      }
    }
  }
}
