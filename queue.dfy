/** The collision event queue: a priority queue of key pairs, in which a
    push on a pair already queued replaces its priority and a pop returns a
    pair of greatest priority. */
module Queue {
  import opened Entities

  type Event = (Key, Key)

  /** A queue of items of type E, each with its priority. */
  type Events<E> = map<E, real>

  /** e is a pair the queue may pop: no queued pair has a greater priority. */
  predicate IsTop<E>(q: Events<E>, e: E)
  {
    e in q && forall f :: f in q ==> q[f] <= q[e]
  }

  /** A queue that is not empty has a pair to pop. */
  lemma {:induction false} TopExists<E>(q: Events<E>)
    requires q != map[]
    ensures exists e :: IsTop(q, e)
    decreases |q|
  {
    var e0 :| e0 in q;
    var rest := q - {e0};
    assert forall f :: f in q ==> f == e0 || (f in rest && rest[f] == q[f]);
    if rest == map[] {
      assert forall f :: f !in rest;
      assert IsTop(q, e0);
    } else {
      assert rest.Keys == q.Keys - {e0};
      assert |rest.Keys| < |q.Keys|;
      TopExists(rest);
      var t :| IsTop(rest, t);
      if q[e0] >= q[t] {
        assert IsTop(q, e0);
      } else {
        assert IsTop(q, t);
      }
    }
  }
}
