/** The broad phase and the event scheduler of the older revision
    (src/collision.rs): the spatial hash over keys that carry the kind of
    body, and the queue of predicted contacts, prioritised by their entry
    time itself. */
module LegacyDetection {
  import opened Geometry
  import opened Entities
  import opened Solvers
  import opened Grid
  import opened Buckets
  import opened Queue
  import opened Detection
  import opened Legacy

  type LegacyEvent = (LegacyKey, LegacyKey)

  /** A contact of the body c with a registered key is queued only if its
      entry time falls in the window (time, time + timeDelta]; its priority
      is that entry time. */
  function LegacyPriority(world: World, c: Collidable, other: LegacyKey, time: real, timeDelta: real,
                          sqrt: real -> real): Option<real>
    requires other.entity in world
  {
    match LegacySolveCollision(c, world[other.entity], sqrt)
    case None => None
    case Some(t) => if time < t && t <= time + timeDelta then Some(t) else None
  }

  /** A queued contact is the solver's entry time, inside the window, of two
      balls, and with a true square root the two balls touch at that time. */
  lemma LegacyPriorityMeaning(world: World, c: Collidable, other: LegacyKey, time: real, timeDelta: real,
                              sqrt: real -> real)
    requires other.entity in world
    ensures var p := LegacyPriority(world, c, other, time, timeDelta, sqrt);
      var s := LegacySolveCollision(c, world[other.entity], sqrt);
      (p.Some? <==> (s.Some? && time < s.value <= time + timeDelta))
      && (p.Some? ==> p == s && c.Ball? && world[other.entity].Ball?)
    ensures var p := LegacyPriority(world, c, other, time, timeDelta, sqrt);
      p.Some? && IsSqrt(sqrt) ==>
        var b0, b1 := c.ball, world[other.entity].ball;
        Dot(Separation(b0, b1, p.value), Separation(b0, b1, p.value)) == ContactSquared(b0, b1)
  {
    var p := LegacyPriority(world, c, other, time, timeDelta, sqrt);
    if p.Some? && IsSqrt(sqrt) {
      LegacyEntryTouches(c.ball, world[other.entity].ball, sqrt);
    }
  }

  /** Whether `add`, registering the body c, queues a pair with other. */
  predicate LegacyHits(world: World, c: Collidable, other: LegacyKey, time: real, timeDelta: real, sqrt: real -> real)
  {
    other.entity in world && LegacyPriority(world, c, other, time, timeDelta, sqrt).Some?
  }

  /** `after` is `before` with (key, k) queued for every candidate k whose
      contact with the body c falls in the window, at its entry time. */
  ghost predicate LegacyQueued(before: Events<LegacyEvent>, after: Events<LegacyEvent>, world: World, key: LegacyKey,
                               c: Collidable, candidates: set<LegacyKey>, time: real, timeDelta: real, sqrt: real -> real)
  {
    (forall e :: e in after <==>
       e in before || (e.0 == key && e.1 in candidates && LegacyHits(world, c, e.1, time, timeDelta, sqrt)))
    && (forall e :: e in after ==>
          after[e] == if e.0 == key && e.1 in candidates && LegacyHits(world, c, e.1, time, timeDelta, sqrt)
                      then LegacyPriority(world, c, e.1, time, timeDelta, sqrt).value
                      else before[e])
  }

  /** The queue after `add` has considered one more candidate. */
  function LegacyQueueOne(events: Events<LegacyEvent>, world: World, key: LegacyKey, c: Collidable, candidate: LegacyKey,
                          time: real, timeDelta: real, sqrt: real -> real): Events<LegacyEvent>
    requires candidate.entity in world
  {
    match LegacyPriority(world, c, candidate, time, timeDelta, sqrt)
    case None => events
    case Some(p) => events[(key, candidate) := p]
  }

  lemma LegacyQueuedStep(before: Events<LegacyEvent>, events: Events<LegacyEvent>, world: World, key: LegacyKey,
                         c: Collidable, done: set<LegacyKey>, candidate: LegacyKey,
                         time: real, timeDelta: real, sqrt: real -> real)
    requires candidate.entity in world && candidate !in done
    requires LegacyQueued(before, events, world, key, c, done, time, timeDelta, sqrt)
    ensures LegacyQueued(before, LegacyQueueOne(events, world, key, c, candidate, time, timeDelta, sqrt),
                         world, key, c, done + {candidate}, time, timeDelta, sqrt)
  {
  }

  /** Every key the engine holds names an entity of the world. */
  ghost predicate LegacyKeysIn(world: World, buckets: Buckets<LegacyKey>, events: Events<LegacyEvent>)
  {
    (forall c, k :: c in buckets && k in buckets[c] ==> k.entity in world)
    && (forall e :: e in events ==> e.0.entity in world && e.1.entity in world)
  }

  /** The second loop of `add`: each candidate's body is fetched from the
      world and solved against c, and the pair is queued when the entry time
      falls in the window. */
  method LegacyQueueCandidates(events: Events<LegacyEvent>, world: World, key: LegacyKey, c: Collidable,
                               candidates: set<LegacyKey>, time: real, timeDelta: real, sqrt: real -> real)
      returns (next: Events<LegacyEvent>)
    requires forall k :: k in candidates ==> k.entity in world
    ensures LegacyQueued(events, next, world, key, c, candidates, time, timeDelta, sqrt)
  {
    next := events;
    var todo := candidates;
    while todo != {}
      invariant todo <= candidates
      invariant LegacyQueued(events, next, world, key, c, candidates - todo, time, timeDelta, sqrt)
      decreases |todo|
    {
      var candidate :| candidate in todo;
      ghost var queued := next;
      LegacyQueuedStep(events, next, world, key, c, candidates - todo, candidate, time, timeDelta, sqrt);
      var solution := LegacySolveCollision(c, world[candidate.entity], sqrt);
      if solution.Some? {
        var collisionTime := solution.value;
        if collisionTime > time && collisionTime <= time + timeDelta {
          next := next[(key, candidate) := collisionTime];
        }
      }
      assert next == LegacyQueueOne(queued, world, key, c, candidate, time, timeDelta, sqrt);
      assert candidates - (todo - {candidate}) == (candidates - todo) + {candidate};
      todo := todo - {candidate};
    }
  }

  lemma LegacyCandidatesInWorld(world: World, buckets: Buckets<LegacyKey>, events: Events<LegacyEvent>, r: CellRange)
    requires LegacyKeysIn(world, buckets, events)
    ensures forall k :: k in Candidates(buckets, r) ==> k.entity in world
  {
  }

  lemma LegacyInsertedKeysIn(world: World, before: Buckets<LegacyKey>, after: Buckets<LegacyKey>,
                             events: Events<LegacyEvent>, r: CellRange, key: LegacyKey)
    requires key.entity in world && LegacyKeysIn(world, before, events) && Inserted(before, after, r, key)
    ensures LegacyKeysIn(world, after, events)
  {
  }

  lemma LegacyQueuedKeysIn(world: World, buckets: Buckets<LegacyKey>, before: Events<LegacyEvent>,
                           after: Events<LegacyEvent>, key: LegacyKey, c: Collidable, candidates: set<LegacyKey>,
                           time: real, timeDelta: real, sqrt: real -> real)
    requires key.entity in world && LegacyKeysIn(world, buckets, before)
    requires LegacyQueued(before, after, world, key, c, candidates, time, timeDelta, sqrt)
    ensures LegacyKeysIn(world, buckets, after)
  {
  }

  /** What LegacyKeysIn says depends on the world's entities only. */
  lemma LegacyKeysInSameEntities(world: World, next: World, buckets: Buckets<LegacyKey>, events: Events<LegacyEvent>)
    requires LegacyKeysIn(world, buckets, events) && next.Keys == world.Keys
    ensures LegacyKeysIn(next, buckets, events)
  {
    assert forall e :: e in world <==> e in next;
  }

  /** `add` only ever queues pairs led by the key it registers. */
  lemma LegacyQueuedOnly(before: Events<LegacyEvent>, after: Events<LegacyEvent>, world: World, key: LegacyKey,
                         c: Collidable, candidates: set<LegacyKey>, time: real, timeDelta: real, sqrt: real -> real)
    requires LegacyQueued(before, after, world, key, c, candidates, time, timeDelta, sqrt)
    ensures forall f :: f in after ==> (f in before && after[f] == before[f]) || f.0 == key
  {
  }

  // ---------------------------------------------------------------------
  // The frame's detection pass (`collision`)

  /** k is the key `collision` registers an entity of `done` under. */
  predicate Listed(world: World, done: set<Entity>, k: LegacyKey)
  {
    k.entity in done && k.entity in world && k == KeyOf(k.entity, world[k.entity])
  }

  /** The keys a cell holds once every entity of `done` has been added. */
  function LegacyRegistered(world: World, done: set<Entity>, c: Cell, timeDelta: real): set<LegacyKey>
  {
    set e | e in done && e in world && InRange(c, LegacyCells(world[e], timeDelta)) :: KeyOf(e, world[e])
  }

  /** Every queued pair is a pair of listed keys whose cells meet, at the entry
      time the solver and the window give it. */
  ghost predicate LegacySound(world: World, done: set<Entity>, events: Events<LegacyEvent>,
                              time: real, timeDelta: real, sqrt: real -> real)
  {
    forall e :: e in events ==>
      Listed(world, done, e.0) && Listed(world, done, e.1)
      && SharedCell(LegacyCells(world[e.0.entity], timeDelta), LegacyCells(world[e.1.entity], timeDelta))
      && LegacyPriority(world, world[e.0.entity], e.1, time, timeDelta, sqrt) == Some(events[e])
  }

  /** Every two distinct entities of `done` whose cells meet and whose contact
      falls in the window are queued, in one order or the other. */
  ghost predicate LegacyComplete(world: World, done: set<Entity>, events: Events<LegacyEvent>,
                                 time: real, timeDelta: real, sqrt: real -> real)
  {
    forall a, b ::
      a in done && b in done && a in world && b in world && a != b
      && SharedCell(LegacyCells(world[a], timeDelta), LegacyCells(world[b], timeDelta))
      && LegacyPriority(world, world[a], KeyOf(b, world[b]), time, timeDelta, sqrt).Some?
      ==> (KeyOf(a, world[a]), KeyOf(b, world[b])) in events
          || (KeyOf(b, world[b]), KeyOf(a, world[a])) in events
  }

  /** The priority of a pair of listed bodies does not depend on their order. */
  lemma LegacyPrioritySymmetric(world: World, a: Entity, b: Entity, time: real, timeDelta: real, sqrt: real -> real)
    requires a in world && b in world
    ensures LegacyPriority(world, world[a], KeyOf(b, world[b]), time, timeDelta, sqrt)
         == LegacyPriority(world, world[b], KeyOf(a, world[a]), time, timeDelta, sqrt)
  {
    LegacySolveSymmetric(world[a], world[b], sqrt);
  }

  lemma LegacyRegisteredStep(world: World, done: set<Entity>, e: Entity, before: Buckets<LegacyKey>,
                             after: Buckets<LegacyKey>, timeDelta: real)
    requires e in world && e !in done
    requires forall c :: Occupants(before, c) == LegacyRegistered(world, done, c, timeDelta)
    requires Inserted(before, after, LegacyCells(world[e], timeDelta), KeyOf(e, world[e]))
    ensures forall c :: Occupants(after, c) == LegacyRegistered(world, done + {e}, c, timeDelta)
  {
    var r, key := LegacyCells(world[e], timeDelta), KeyOf(e, world[e]);
    InsertedOccupants(before, after, r, key);
    forall c ensures Occupants(after, c) == LegacyRegistered(world, done + {e}, c, timeDelta) {
      if InRange(c, r) {
        assert LegacyRegistered(world, done + {e}, c, timeDelta) == LegacyRegistered(world, done, c, timeDelta) + {key};
      } else {
        assert LegacyRegistered(world, done + {e}, c, timeDelta) == LegacyRegistered(world, done, c, timeDelta);
      }
    }
  }

  lemma LegacyFrameKeysIn(world: World, done: set<Entity>, buckets: Buckets<LegacyKey>, events: Events<LegacyEvent>,
                          time: real, timeDelta: real, sqrt: real -> real)
    requires forall c :: Occupants(buckets, c) == LegacyRegistered(world, done, c, timeDelta)
    requires LegacySound(world, done, events, time, timeDelta, sqrt)
    ensures LegacyKeysIn(world, buckets, events)
  {
    forall c, k | c in buckets && k in buckets[c] ensures k.entity in world {
      assert k in LegacyRegistered(world, done, c, timeDelta);
    }
  }

  lemma LegacyRegisteredCandidates(world: World, done: set<Entity>, buckets: Buckets<LegacyKey>, r: CellRange,
                                   timeDelta: real)
    requires forall c :: Occupants(buckets, c) == LegacyRegistered(world, done, c, timeDelta)
    ensures forall k :: k in Candidates(buckets, r) ==>
              Listed(world, done, k) && SharedCell(r, LegacyCells(world[k.entity], timeDelta))
  {
    forall k | k in Candidates(buckets, r)
      ensures Listed(world, done, k) && SharedCell(r, LegacyCells(world[k.entity], timeDelta))
    {
      var c :| c in buckets && InRange(c, r) && k in buckets[c];
      assert k in LegacyRegistered(world, done, c, timeDelta);
      assert InRange(c, LegacyCells(world[k.entity], timeDelta));
    }
  }

  lemma LegacySoundStep(world: World, done: set<Entity>, e: Entity, before: Events<LegacyEvent>,
                        after: Events<LegacyEvent>, candidates: set<LegacyKey>,
                        time: real, timeDelta: real, sqrt: real -> real)
    requires e in world && e !in done
    requires LegacySound(world, done, before, time, timeDelta, sqrt)
    requires forall k :: k in candidates ==>
               Listed(world, done, k) && SharedCell(LegacyCells(world[e], timeDelta), LegacyCells(world[k.entity], timeDelta))
    requires LegacyQueued(before, after, world, KeyOf(e, world[e]), world[e], candidates, time, timeDelta, sqrt)
    ensures LegacySound(world, done + {e}, after, time, timeDelta, sqrt)
  {
    var key := KeyOf(e, world[e]);
    forall ev | ev in after
      ensures Listed(world, done + {e}, ev.0) && Listed(world, done + {e}, ev.1)
      ensures SharedCell(LegacyCells(world[ev.0.entity], timeDelta), LegacyCells(world[ev.1.entity], timeDelta))
      ensures LegacyPriority(world, world[ev.0.entity], ev.1, time, timeDelta, sqrt) == Some(after[ev])
    {
      if ev !in before {
        assert ev.0 == key && ev.1 in candidates;
      }
    }
  }

  lemma LegacyCompleteStep(world: World, done: set<Entity>, e: Entity, buckets: Buckets<LegacyKey>,
                           before: Events<LegacyEvent>, after: Events<LegacyEvent>,
                           time: real, timeDelta: real, sqrt: real -> real)
    requires e in world && e !in done
    requires forall c :: Occupants(buckets, c) == LegacyRegistered(world, done, c, timeDelta)
    requires LegacyComplete(world, done, before, time, timeDelta, sqrt)
    requires LegacyQueued(before, after, world, KeyOf(e, world[e]), world[e],
                          Candidates(buckets, LegacyCells(world[e], timeDelta)), time, timeDelta, sqrt)
    ensures LegacyComplete(world, done + {e}, after, time, timeDelta, sqrt)
  {
    forall a, b |
      a in done + {e} && b in done + {e} && a in world && b in world && a != b
      && SharedCell(LegacyCells(world[a], timeDelta), LegacyCells(world[b], timeDelta))
      && LegacyPriority(world, world[a], KeyOf(b, world[b]), time, timeDelta, sqrt).Some?
      ensures (KeyOf(a, world[a]), KeyOf(b, world[b])) in after
              || (KeyOf(b, world[b]), KeyOf(a, world[a])) in after
    {
      if a == e || b == e {
        var o := if a == e then b else a;
        LegacyPrioritySymmetric(world, a, b, time, timeDelta, sqrt);
        LegacyNewPair(world, done, e, o, buckets, before, after, time, timeDelta, sqrt);
      }
    }
  }

  /** The entity just added is queued with every entity of `done` whose cells
      it meets and whose contact falls in the window. */
  lemma LegacyNewPair(world: World, done: set<Entity>, e: Entity, o: Entity, buckets: Buckets<LegacyKey>,
                      before: Events<LegacyEvent>, after: Events<LegacyEvent>,
                      time: real, timeDelta: real, sqrt: real -> real)
    requires e in world && o in world && o in done
    requires forall c :: Occupants(buckets, c) == LegacyRegistered(world, done, c, timeDelta)
    requires SharedCell(LegacyCells(world[e], timeDelta), LegacyCells(world[o], timeDelta))
    requires LegacyPriority(world, world[e], KeyOf(o, world[o]), time, timeDelta, sqrt).Some?
    requires LegacyQueued(before, after, world, KeyOf(e, world[e]), world[e],
                          Candidates(buckets, LegacyCells(world[e], timeDelta)), time, timeDelta, sqrt)
    ensures (KeyOf(e, world[e]), KeyOf(o, world[o])) in after
  {
    var ko := KeyOf(o, world[o]);
    var c :| InRange(c, LegacyCells(world[e], timeDelta)) && InRange(c, LegacyCells(world[o], timeDelta));
    assert ko in LegacyRegistered(world, done, c, timeDelta);
    assert c in buckets && ko in buckets[c];
    assert ko in Candidates(buckets, LegacyCells(world[e], timeDelta));
    assert LegacyHits(world, world[e], ko, time, timeDelta, sqrt);
  }

  /** The state of `collision` once every entity of `done` has been added. */
  ghost predicate LegacyDetected(world: World, done: set<Entity>, buckets: Buckets<LegacyKey>,
                                 events: Events<LegacyEvent>, time: real, timeDelta: real, sqrt: real -> real)
  {
    (forall c :: Occupants(buckets, c) == LegacyRegistered(world, done, c, timeDelta))
    && LegacySound(world, done, events, time, timeDelta, sqrt)
    && LegacyComplete(world, done, events, time, timeDelta, sqrt)
  }

  lemma LegacyDetectedStart(world: World, time: real, timeDelta: real, sqrt: real -> real)
    ensures LegacyDetected(world, {}, map[], map[], time, timeDelta, sqrt)
  {
    forall c ensures Occupants(map[], c) == LegacyRegistered(world, {}, c, timeDelta) {
      assert LegacyRegistered(world, {}, c, timeDelta) == {};
    }
  }

  lemma LegacyDetectedKeysIn(world: World, done: set<Entity>, buckets: Buckets<LegacyKey>, events: Events<LegacyEvent>,
                             time: real, timeDelta: real, sqrt: real -> real)
    requires LegacyDetected(world, done, buckets, events, time, timeDelta, sqrt)
    ensures LegacyKeysIn(world, buckets, events)
  {
    LegacyFrameKeysIn(world, done, buckets, events, time, timeDelta, sqrt);
  }

  /** Adding one more entity, as `add` does it, extends the state of `collision` by that entity. */
  lemma LegacyDetectStep(world: World, done: set<Entity>, e: Entity, key: LegacyKey, cells: CellRange,
                         b0: Buckets<LegacyKey>, b1: Buckets<LegacyKey>, q0: Events<LegacyEvent>, q1: Events<LegacyEvent>,
                         time: real, timeDelta: real, sqrt: real -> real)
    requires e in world && e !in done && key == KeyOf(e, world[e]) && cells == LegacyCells(world[e], timeDelta)
    requires LegacyDetected(world, done, b0, q0, time, timeDelta, sqrt)
    requires Inserted(b0, b1, cells, key)
    requires LegacyQueued(q0, q1, world, key, world[e], Candidates(b0, cells), time, timeDelta, sqrt)
    ensures LegacyDetected(world, done + {e}, b1, q1, time, timeDelta, sqrt)
  {
    LegacyRegisteredStep(world, done, e, b0, b1, timeDelta);
    LegacyRegisteredCandidates(world, done, b0, cells, timeDelta);
    LegacySoundStep(world, done, e, q0, q1, Candidates(b0, cells), time, timeDelta, sqrt);
    LegacyCompleteStep(world, done, e, b0, q0, q1, time, timeDelta, sqrt);
  }

  // ---------------------------------------------------------------------
  // Draining the queue (`collision_handle`)

  /** The world after the two bodies of an event are resolved at time t:
      `collide` on the bodies the world holds, then both written back. */
  function LegacyResolve(world: World, e: LegacyEvent, t: real, sqrt: real -> real): World
    requires e.0.entity in world && e.1.entity in world && WellFormed(world)
  {
    var c0, c1 := world[e.0.entity], world[e.1.entity];
    match LegacyCollide(c0, e.0.generation, c1, e.1.generation, t, sqrt)
    case None => world
    case Some((n0, n1)) => world[e.0.entity := n0][e.1.entity := n1]
  }

  /** Only the two bodies of the event change; when `collide` answers, both
      are balls that move to time t one generation on, with their radii. */
  lemma LegacyResolveEffects(world: World, e: LegacyEvent, t: real, sqrt: real -> real)
    requires e.0.entity in world && e.1.entity in world && WellFormed(world)
    ensures var w := LegacyResolve(world, e, t, sqrt);
      && w.Keys == world.Keys && WellFormed(w)
      && (forall x :: x in world && x != e.0.entity && x != e.1.entity ==> w[x] == world[x])
      && (LegacyCollide(world[e.0.entity], e.0.generation, world[e.1.entity], e.1.generation, t, sqrt).None? ==> w == world)
      && (LegacyCollide(world[e.0.entity], e.0.generation, world[e.1.entity], e.1.generation, t, sqrt).Some? ==>
            forall x :: x == e.0.entity || x == e.1.entity ==> Bumped(world[x], w[x], t))
  {
    var c0, c1 := world[e.0.entity], world[e.1.entity];
    var outcome := LegacyCollide(c0, e.0.generation, c1, e.1.generation, t, sqrt);
    if outcome.Some? {
      LegacyCollideNext(e.0.entity, c0, e.0.generation, e.1.entity, c1, e.1.generation, t, sqrt);
    }
  }

  /** As written, the queue pops the pair of greatest priority, and the
      priority is the entry time: of a contact at time 1 and one at time 2,
      the later is handled first. */
  lemma LegacyPopsLatest(early: LegacyEvent, late: LegacyEvent)
    requires early != late
    ensures forall e :: IsTop(map[early := 1.0, late := 2.0], e) ==> e == late
  {
    var q := map[early := 1.0, late := 2.0];
    forall e | IsTop(q, e) ensures e == late {
      assert q[late] <= q[e];
    }
  }

  /** Resolving an event keeps the entities and the well-formedness of the
      world, and no body gets younger. */
  lemma LegacyResolveOlder(world: World, e: LegacyEvent, t: real, sqrt: real -> real)
    requires e.0.entity in world && e.1.entity in world && WellFormed(world)
    ensures var w := LegacyResolve(world, e, t, sqrt);
      w.Keys == world.Keys && WellFormed(w) && forall x :: x in world ==> Older(world[x], w[x])
  {
    LegacyResolveEffects(world, e, t, sqrt);
    var w := LegacyResolve(world, e, t, sqrt);
    if LegacyCollide(world[e.0.entity], e.0.generation, world[e.1.entity], e.1.generation, t, sqrt).Some? {
      BumpedOlder(world, w, e.0.entity, e.1.entity, t);
    }
  }

  /** The state after `add` of key for the body c at `time`, over timeDelta. */
  ghost predicate LegacyAddedAgain(b0: Buckets<LegacyKey>, q0: Events<LegacyEvent>,
                                   b1: Buckets<LegacyKey>, q1: Events<LegacyEvent>, world: World,
                                   key: LegacyKey, c: Collidable, time: real, timeDelta: real, sqrt: real -> real)
  {
    Inserted(b0, b1, LegacyCells(c, timeDelta), key)
    && LegacyQueued(q0, q1, world, key, c, Candidates(b0, LegacyCells(c, timeDelta)), time, timeDelta, sqrt)
  }

  /** The effect of `collision_handle` on the grid and the queue for one
      answer of `collide`: nothing without an answer; with one, the two
      bodies handed back are added, in turn, under the `next` of the event's
      keys, from time over rest. */
  ghost predicate LegacyAnswered(b0: Buckets<LegacyKey>, q0: Events<LegacyEvent>,
                                b1: Buckets<LegacyKey>, q1: Events<LegacyEvent>,
                                b2: Buckets<LegacyKey>, q2: Events<LegacyEvent>, world: World,
                                e: LegacyEvent, answer: Option<(Collidable, Collidable)>, time: real, rest: real,
                                sqrt: real -> real)
  {
    match answer
    case None => b2 == b0 && q2 == q0
    case Some((n0, n1)) =>
      LegacyAddedAgain(b0, q0, b1, q1, world, Next(e.0), n0, time, rest, sqrt)
      && LegacyAddedAgain(b1, q1, b2, q2, world, Next(e.1), n1, time, rest, sqrt)
  }

  class LegacyCollisionData {
    var buckets: Buckets<LegacyKey>
    var events: Events<LegacyEvent>

    /** `CollisionDetectionData::default()`. */
    constructor ()
      ensures buckets == map[] && events == map[]
    {
      buckets := map[];
      events := map[];
    }

    ghost predicate Valid(world: World)
      reads this
    {
      LegacyKeysIn(world, buckets, events)
    }

    /** `add`: puts the key in each cell the body c sweeps over timeDelta,
        and queues its contacts with every key those cells held before. */
    method Add(world: World, key: LegacyKey, c: Collidable, time: real, timeDelta: real, sqrt: real -> real)
      requires key.entity in world && Valid(world)
      modifies this
      ensures Inserted(old(buckets), buckets, LegacyCells(c, timeDelta), key)
      ensures LegacyQueued(old(events), events, world, key, c,
                           Candidates(old(buckets), LegacyCells(c, timeDelta)), time, timeDelta, sqrt)
      ensures Valid(world)
    {
      var r := LegacyCells(c, timeDelta);
      ghost var before := buckets;
      var results;
      buckets, results := InsertIntoCells(buckets, r, key);
      LegacyCandidatesInWorld(world, before, events, r);
      LegacyInsertedKeysIn(world, before, buckets, events, r, key);
      ghost var queued := events;
      events := LegacyQueueCandidates(events, world, key, c, results, time, timeDelta, sqrt);
      LegacyQueuedKeysIn(world, buckets, queued, events, key, c, results, time, timeDelta, sqrt);
    }

    /** `pop` on the queue, as written: the pair of greatest priority, that
        is, of LATEST entry time, leaves the queue. */
    method Pop() returns (e: LegacyEvent, t: real)
      requires events != map[]
      modifies this
      ensures IsTop(old(events), e) && t == old(events)[e]
      ensures forall f :: f in old(events) ==> old(events)[f] <= t
      ensures events == old(events) - {e}
      ensures buckets == old(buckets)
    {
      TopExists(events);
      e :| IsTop(events, e);
      t := events[e];
      events := events - {e};
    }

    /** `collision`: empties the buckets and the queue, then adds every ball
        and after them every wall, each under its key and its own body. */
    method Collision(world: World, time: real, timeDelta: real, sqrt: real -> real)
      modifies this
      ensures forall c :: Occupants(buckets, c) == LegacyRegistered(world, world.Keys, c, timeDelta)
      ensures LegacySound(world, world.Keys, events, time, timeDelta, sqrt)
      ensures LegacyComplete(world, world.Keys, events, time, timeDelta, sqrt)
      ensures Valid(world)
    {
      buckets := map[];
      events := map[];
      LegacyDetectedStart(world, time, timeDelta, sqrt);
      var balls := set e | e in world && world[e].Ball?;
      AddEach(world, balls, {}, time, timeDelta, sqrt);
      var walls := set e | e in world && world[e].Wall?;
      AddEach(world, walls, balls, time, timeDelta, sqrt);
      assert balls + walls == world.Keys;
      LegacyDetectedKeysIn(world, balls + walls, buckets, events, time, timeDelta, sqrt);
    }

    /** One loop of `collision`: every entity of `these` is added. */
    method AddEach(world: World, these: set<Entity>, ghost done: set<Entity>, time: real, timeDelta: real,
                   sqrt: real -> real)
      requires these <= world.Keys && these !! done
      requires LegacyDetected(world, done, buckets, events, time, timeDelta, sqrt)
      modifies this
      ensures LegacyDetected(world, done + these, buckets, events, time, timeDelta, sqrt)
    {
      var todo := these;
      ghost var added: set<Entity> := done;
      while todo != {}
        invariant todo <= these && todo !! added && added + todo == done + these
        invariant LegacyDetected(world, added, buckets, events, time, timeDelta, sqrt)
        decreases |todo|
      {
        var e :| e in todo;
        AddListed(world, e, added, time, timeDelta, sqrt);
        todo := todo - {e};
        added := added + {e};
      }
    }

    /** One pass of the loops of `collision`: a ball under its generation, a
        wall under generation 0. */
    method AddListed(world: World, e: Entity, ghost done: set<Entity>, time: real, timeDelta: real, sqrt: real -> real)
      requires e in world && e !in done
      requires LegacyDetected(world, done, buckets, events, time, timeDelta, sqrt)
      modifies this
      ensures LegacyDetected(world, done + {e}, buckets, events, time, timeDelta, sqrt)
    {
      var key := match world[e]
        case Ball(b) => LegacyKey(e, BallKind, b.generation)
        case Wall(_) => LegacyKey(e, WallKind, 0);
      ghost var cells := LegacyCells(world[e], timeDelta);
      ghost var b0, q0 := buckets, events;
      LegacyDetectedKeysIn(world, done, buckets, events, time, timeDelta, sqrt);
      Add(world, key, world[e], time, timeDelta, sqrt);
      LegacyDetectStep(world, done, e, key, cells, b0, buckets, q0, events, time, timeDelta, sqrt);
    }

    /** One iteration of the loop of `collision_handle`: the pair of greatest
        priority is popped, `collide` is asked about the bodies the world
        holds, and when it answers both are written back and added again
        under the `next` of their keys, over the rest of the frame. The ghost
        results are the state between the two re-adds. */
    method HandleOne(world: World, time: real, timeDelta: real, sqrt: real -> real)
        returns (w: World, e: LegacyEvent, t: real,
                 ghost midBuckets: Buckets<LegacyKey>, ghost midEvents: Events<LegacyEvent>)
      requires events != map[] && Valid(world) && WellFormed(world)
      modifies this
      ensures IsTop(old(events), e) && t == old(events)[e]
      ensures forall f :: f in old(events) ==> old(events)[f] <= t
      ensures e.0.entity in world && e.1.entity in world
      ensures w == LegacyResolve(world, e, t, sqrt)
      ensures LegacyCollide(world[e.0.entity], e.0.generation, world[e.1.entity], e.1.generation, t, sqrt).None? ==>
        w == world && buckets == old(buckets) && events == old(events) - {e}
      ensures LegacyAnswered(old(buckets), old(events) - {e}, midBuckets, midEvents, buckets, events, w, e,
                             LegacyCollide(world[e.0.entity], e.0.generation, world[e.1.entity], e.1.generation, t, sqrt),
                             t, time + timeDelta - t, sqrt)
      ensures forall f :: f in events ==>
        (f in old(events) && f != e && events[f] == old(events)[f]) || f.0 == Next(e.0) || f.0 == Next(e.1)
      ensures w.Keys == world.Keys && WellFormed(w) && Valid(w)
      ensures forall x :: x in world ==> Older(world[x], w[x])
    {
      e, t := Pop();
      w, midBuckets, midEvents := HandleAnswer(world, e, t, time, timeDelta, sqrt);
      LegacyResolveOlder(world, e, t, sqrt);
    }

    /** The rest of the iteration once the event is popped: `collide` on the
        bodies the world holds, and on an answer the write-back and the two
        re-adds. */
    method HandleAnswer(world: World, e: LegacyEvent, t: real, time: real, timeDelta: real, sqrt: real -> real)
        returns (w: World, ghost midBuckets: Buckets<LegacyKey>, ghost midEvents: Events<LegacyEvent>)
      requires e.0.entity in world && e.1.entity in world && Valid(world) && WellFormed(world)
      modifies this
      ensures w == LegacyResolve(world, e, t, sqrt)
      ensures LegacyCollide(world[e.0.entity], e.0.generation, world[e.1.entity], e.1.generation, t, sqrt).None? ==>
        w == world && buckets == old(buckets) && events == old(events)
      ensures LegacyAnswered(old(buckets), old(events), midBuckets, midEvents, buckets, events, w, e,
                             LegacyCollide(world[e.0.entity], e.0.generation, world[e.1.entity], e.1.generation, t, sqrt),
                             t, time + timeDelta - t, sqrt)
      ensures forall f :: f in events ==>
        (f in old(events) && events[f] == old(events)[f]) || f.0 == Next(e.0) || f.0 == Next(e.1)
      ensures Valid(w)
    {
      var e0, e1 := e.0.entity, e.1.entity;
      var result := LegacyCollide(world[e0], e.0.generation, world[e1], e.1.generation, t, sqrt);
      w := world;
      midBuckets, midEvents := buckets, events;
      if result.Some? {
        w, midBuckets, midEvents := WriteBack(world, e, result, t, time + timeDelta - t, sqrt);
      }
    }
    /** The answer of `collide` written back, and both bodies added again
        under the `next` of their keys, over `rest`. */
    method WriteBack(world: World, e: LegacyEvent, answer: Option<(Collidable, Collidable)>, t: real, rest: real,
                     sqrt: real -> real)
        returns (w: World, ghost midBuckets: Buckets<LegacyKey>, ghost midEvents: Events<LegacyEvent>)
      requires e.0.entity in world && e.1.entity in world && Valid(world) && answer.Some?
      modifies this
      ensures w == world[e.0.entity := answer.value.0][e.1.entity := answer.value.1]
      ensures LegacyAnswered(old(buckets), old(events), midBuckets, midEvents, buckets, events, w, e, answer, t, rest, sqrt)
      ensures forall f :: f in events ==>
        (f in old(events) && events[f] == old(events)[f]) || f.0 == Next(e.0) || f.0 == Next(e.1)
      ensures Valid(w)
    {
      var (n0, n1) := answer.value;
      w := world[e.0.entity := n0][e.1.entity := n1];
      LegacyKeysInSameEntities(world, w, buckets, events);
      midBuckets, midEvents := Readd(w, e, n0, n1, t, rest, sqrt);
    }

    /** The two `add` calls of `collision_handle`, which register the bodies
        `collide` handed back under the `next` of their keys. */
    method Readd(world: World, e: LegacyEvent, n0: Collidable, n1: Collidable, t: real, rest: real, sqrt: real -> real)
        returns (ghost midBuckets: Buckets<LegacyKey>, ghost midEvents: Events<LegacyEvent>)
      requires e.0.entity in world && e.1.entity in world && Valid(world)
      modifies this
      ensures LegacyAddedAgain(old(buckets), old(events), midBuckets, midEvents, world, Next(e.0), n0, t, rest, sqrt)
      ensures LegacyAddedAgain(midBuckets, midEvents, buckets, events, world, Next(e.1), n1, t, rest, sqrt)
      ensures forall f :: f in events ==>
        (f in old(events) && events[f] == old(events)[f]) || f.0 == Next(e.0) || f.0 == Next(e.1)
      ensures Valid(world)
    {
      ghost var q0, b0 := events, buckets;
      Add(world, Next(e.0), n0, t, rest, sqrt);
      LegacyQueuedOnly(q0, events, world, Next(e.0), n0, Candidates(b0, LegacyCells(n0, rest)), t, rest, sqrt);
      ghost var q1, b1 := events, buckets;
      midBuckets, midEvents := buckets, events;
      Add(world, Next(e.1), n1, t, rest, sqrt);
      LegacyQueuedOnly(q1, events, world, Next(e.1), n1, Candidates(b1, LegacyCells(n1, rest)), t, rest, sqrt);
    }

    /** `collision_handle`: the queue is drained one event at a time; `fuel`
        bounds the number of iterations. */
    method CollisionHandle(world: World, time: real, timeDelta: real, sqrt: real -> real, fuel: nat)
        returns (w: World, steps: nat)
      requires Valid(world) && WellFormed(world)
      modifies this
      ensures steps <= fuel && (steps < fuel ==> events == map[])
      ensures old(events) == map[] ==> steps == 0 && w == world
      ensures w.Keys == world.Keys && WellFormed(w) && Valid(w)
      ensures forall x :: x in world ==> Older(world[x], w[x])
    {
      w, steps := world, 0;
      while events != map[] && steps < fuel
        invariant steps <= fuel
        invariant w.Keys == world.Keys && WellFormed(w) && Valid(w)
        invariant forall x :: x in world ==> Older(world[x], w[x])
        invariant old(events) == map[] ==> steps == 0 && w == world
        invariant steps == 0 ==> events == old(events)
        decreases fuel - steps
      {
        ghost var before := w;
        var e, t;
        ghost var mb, mq;
        w, e, t, mb, mq := HandleOne(w, time, timeDelta, sqrt);
        OlderTransitive(world, before, w);
        steps := steps + 1;
      }
    }
  }
}
