/** The spatial hash: grid cell to the set of keys registered in it, and the
    two cell-range loops that `add` and `remove` run over it
    (src/collision/collision.rs, src/collision.rs). */
module Buckets {
  import opened Grid

  type Buckets<K> = map<Cell, set<K>>

  /** The keys in a cell; a cell with no bucket holds none. */
  function Occupants<K>(b: Buckets<K>, c: Cell): set<K>
  {
    if c in b then b[c] else {}
  }

  /** The cells of r that a row-by-row walk has visited when it is about to
      visit cell (i, j). */
  predicate Visited(c: Cell, r: CellRange, i: int, j: int)
  {
    InRange(c, r) && (c.0 < i || (c.0 == i && c.1 < j))
  }

  /** The keys held, before any insertion, by the cells of r: the candidates `add` collects. */
  function Candidates<K>(b: Buckets<K>, r: CellRange): set<K>
  {
    set c, k | c in b && InRange(c, r) && k in b[c] :: k
  }

  function VisitedCandidates<K>(b: Buckets<K>, r: CellRange, i: int, j: int): set<K>
  {
    set c, k | c in b && Visited(c, r, i, j) && k in b[c] :: k
  }

  /** `after` is `before` with key added to every cell of r, a bucket created
      for each cell of r that had none, and every other bucket as it was. */
  ghost predicate Inserted<K>(before: Buckets<K>, after: Buckets<K>, r: CellRange, key: K)
  {
    (forall c :: c in after <==> c in before || InRange(c, r))
    && (forall c :: c in after ==>
          after[c] == if InRange(c, r) then Occupants(before, c) + {key} else before[c])
  }

  /** `after` is `before` with key taken out of every existing bucket of r. */
  ghost predicate Removed<K>(before: Buckets<K>, after: Buckets<K>, r: CellRange, key: K)
  {
    (forall c :: c in after <==> c in before)
    && (forall c :: c in after ==>
          after[c] == if InRange(c, r) then before[c] - {key} else before[c])
  }

  lemma VisitStep<K>(b: Buckets<K>, r: CellRange, i: int, j: int)
    requires InRange((i, j), r)
    ensures VisitedCandidates(b, r, i, j + 1) == VisitedCandidates(b, r, i, j) + Occupants(b, (i, j))
  {
    var lhs, rhs := VisitedCandidates(b, r, i, j + 1), VisitedCandidates(b, r, i, j) + Occupants(b, (i, j));
    forall k | k in lhs ensures k in rhs {
      var c :| c in b && Visited(c, r, i, j + 1) && k in b[c];
      if c != (i, j) {
        assert Visited(c, r, i, j);
      }
    }
    forall k | k in rhs ensures k in lhs {
      if k in Occupants(b, (i, j)) {
        assert Visited((i, j), r, i, j + 1);
      } else {
        var c :| c in b && Visited(c, r, i, j) && k in b[c];
        assert Visited(c, r, i, j + 1);
      }
    }
  }

  lemma VisitRowDone<K>(b: Buckets<K>, r: CellRange, i: int, j: int)
    requires j >= r.3
    ensures VisitedCandidates(b, r, i, j) == VisitedCandidates(b, r, i + 1, r.2)
    ensures forall c :: Visited(c, r, i, j) <==> Visited(c, r, i + 1, r.2)
  {
    assert forall c :: Visited(c, r, i, j) <==> Visited(c, r, i + 1, r.2);
  }

  lemma VisitAllDone<K>(b: Buckets<K>, r: CellRange, i: int)
    requires i >= r.1
    ensures VisitedCandidates(b, r, i, r.2) == Candidates(b, r)
    ensures forall c :: Visited(c, r, i, r.2) <==> InRange(c, r)
  {
    assert forall c :: Visited(c, r, i, r.2) <==> InRange(c, r);
  }

  /** The loops of `add` over the cells of r: every key already in a cell is
      collected, then key is put in the cell, creating its bucket if need be. */
  method InsertIntoCells<K>(buckets: Buckets<K>, r: CellRange, key: K)
      returns (next: Buckets<K>, found: set<K>)
    ensures Inserted(buckets, next, r, key)
    ensures found == Candidates(buckets, r)
  {
    next := buckets;
    found := {};
    var i := r.0;
    while i < r.1
      invariant r.0 <= i
      invariant InsertedUpTo(buckets, next, r, key, i, r.2)
      invariant found == VisitedCandidates(buckets, r, i, r.2)
    {
      next, found := InsertIntoRow(buckets, next, found, r, key, i);
      i := i + 1;
    }
    VisitAllDone(buckets, r, i);
  }

  /** The state of the walk of `add` before it visits cell (i, j). */
  ghost predicate InsertedUpTo<K>(buckets: Buckets<K>, next: Buckets<K>, r: CellRange, key: K, i: int, j: int)
  {
    (forall c {:trigger c in next} :: c in next <==> c in buckets || Visited(c, r, i, j))
    && (forall c :: c in next ==>
          next[c] == if Visited(c, r, i, j) then Occupants(buckets, c) + {key} else buckets[c])
  }

  /** One row i of the walk of `add`. */
  method InsertIntoRow<K>(buckets: Buckets<K>, current: Buckets<K>, seen: set<K>, r: CellRange, key: K, i: int)
      returns (next: Buckets<K>, found: set<K>)
    requires r.0 <= i < r.1
    requires InsertedUpTo(buckets, current, r, key, i, r.2)
    requires seen == VisitedCandidates(buckets, r, i, r.2)
    ensures InsertedUpTo(buckets, next, r, key, i + 1, r.2)
    ensures found == VisitedCandidates(buckets, r, i + 1, r.2)
  {
    next, found := current, seen;
    var j := r.2;
    while j < r.3
      invariant r.2 <= j
      invariant InsertedUpTo(buckets, next, r, key, i, j)
      invariant found == VisitedCandidates(buckets, r, i, j)
    {
      next, found := InsertOne(buckets, next, found, r, key, i, j);
      j := j + 1;
    }
    VisitRowDone(buckets, r, i, j);
    InsertRowDone(buckets, next, r, key, i, j);
  }

  /** The walk of `add` at cell (i, j): collect the cell's keys, then add key to it. */
  method InsertOne<K>(buckets: Buckets<K>, current: Buckets<K>, seen: set<K>, r: CellRange, key: K, i: int, j: int)
      returns (next: Buckets<K>, found: set<K>)
    requires InRange((i, j), r)
    requires InsertedUpTo(buckets, current, r, key, i, j)
    requires seen == VisitedCandidates(buckets, r, i, j)
    ensures InsertedUpTo(buckets, next, r, key, i, j + 1)
    ensures found == VisitedCandidates(buckets, r, i, j + 1)
  {
    VisitStep(buckets, r, i, j);
    InsertStep(buckets, current, r, key, i, j);
    found := seen + Occupants(current, (i, j));
    next := InsertCell(current, (i, j), key);
  }

  lemma InsertRowDone<K>(buckets: Buckets<K>, next: Buckets<K>, r: CellRange, key: K, i: int, j: int)
    requires j >= r.3 && InsertedUpTo(buckets, next, r, key, i, j)
    ensures InsertedUpTo(buckets, next, r, key, i + 1, r.2)
  {
    VisitRowDone(buckets, r, i, j);
  }

  /** The body of the walk of `add` at one cell: key joins the cell's bucket,
      which is created if there is none. */
  function InsertCell<K>(b: Buckets<K>, c: Cell, key: K): Buckets<K>
  {
    if c in b then b[c := b[c] + {key}] else b[c := {key}]
  }

  /** Visiting cell (i, j) extends the walk's state by that one cell. */
  lemma InsertStep<K>(buckets: Buckets<K>, before: Buckets<K>, r: CellRange, key: K, i: int, j: int)
    requires InRange((i, j), r)
    requires InsertedUpTo(buckets, before, r, key, i, j)
    ensures InsertedUpTo(buckets, InsertCell(before, (i, j), key), r, key, i, j + 1)
    ensures Occupants(before, (i, j)) == Occupants(buckets, (i, j))
  {
    assert !Visited((i, j), r, i, j);
    forall c ensures Visited(c, r, i, j + 1) <==> Visited(c, r, i, j) || c == (i, j) {
    }
  }

  /** The loops of `remove` over the cells of r: key leaves every bucket that exists. */
  method RemoveFromCells<K>(buckets: Buckets<K>, r: CellRange, key: K) returns (next: Buckets<K>)
    ensures Removed(buckets, next, r, key)
  {
    next := buckets;
    var i := r.0;
    while i < r.1
      invariant forall c :: c in next <==> c in buckets
      invariant forall c :: c in next ==>
        next[c] == if Visited(c, r, i, r.2) then buckets[c] - {key} else buckets[c]
    {
      var j := r.2;
      while j < r.3
        invariant forall c :: c in next <==> c in buckets
        invariant forall c :: c in next ==>
          next[c] == if Visited(c, r, i, j) then buckets[c] - {key} else buckets[c]
      {
        if (i, j) in next {
          next := next[(i, j) := next[(i, j)] - {key}];
        }
        j := j + 1;
      }
      VisitRowDone(buckets, r, i, j);
      i := i + 1;
    }
    VisitAllDone(buckets, r, i);
  }

  /** After an insertion the key is in every cell of the range, and no other
      key has entered or left any cell. */
  lemma InsertedOccupants<K>(before: Buckets<K>, after: Buckets<K>, r: CellRange, key: K)
    requires Inserted(before, after, r, key)
    ensures forall c :: InRange(c, r) ==> key in Occupants(after, c)
    ensures forall c, k :: k != key ==> (k in Occupants(after, c) <==> k in Occupants(before, c))
    ensures forall c :: !InRange(c, r) ==> Occupants(after, c) == Occupants(before, c)
  {
  }

  /** After a removal the key is in no cell of the range, and no other key has
      entered or left any cell. */
  lemma RemovedOccupants<K>(before: Buckets<K>, after: Buckets<K>, r: CellRange, key: K)
    requires Removed(before, after, r, key)
    ensures forall c :: InRange(c, r) ==> key !in Occupants(after, c)
    ensures forall c, k :: k != key ==> (k in Occupants(after, c) <==> k in Occupants(before, c))
    ensures forall c :: !InRange(c, r) ==> Occupants(after, c) == Occupants(before, c)
  {
  }

  /** Removing over the same range undoes an insertion of a key that was in
      no cell before: every cell holds what it held. */
  lemma InsertThenRemove<K>(b0: Buckets<K>, b1: Buckets<K>, b2: Buckets<K>, r: CellRange, key: K)
    requires forall c :: key !in Occupants(b0, c)
    requires Inserted(b0, b1, r, key) && Removed(b1, b2, r, key)
    ensures forall c :: Occupants(b2, c) == Occupants(b0, c)
  {
    forall c ensures Occupants(b2, c) == Occupants(b0, c) {
      if InRange(c, r) {
        assert Occupants(b2, c) == Occupants(b0, c) + {key} - {key};
      }
    }
  }
}
