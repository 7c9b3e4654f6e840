/** The spatial grid of the broad phase: bounding boxes of movement, the
    cells they cover, and the overlap test on time windows
    (src/collision/collision.rs, src/collision.rs). */
module Grid {
  import opened Geometry
  import opened Entities
  import opened Advance

  /** Side of one grid cell. */
  const CELL_SIZE: real := 20.0

  /** The largest cell index a range may start its last cell at. */
  const LAST_CELL: int := 100

  const I32_MIN: int := -0x8000_0000
  const I32_MAX: int := 0x7fff_ffff

  /** Rust's `as i32` on an integral float: saturating at the ends of the i32 range. */
  function AsI32(x: int): (r: int)
    ensures I32_MIN <= r <= I32_MAX
  {
    if x < I32_MIN then I32_MIN else if x > I32_MAX then I32_MAX else x
  }

  /** The saturated value is the i32 nearest to x, and saturating keeps the order. */
  lemma AsI32Nearest(x: int, y: int)
    requires I32_MIN <= y <= I32_MAX
    ensures (if AsI32(x) >= x then AsI32(x) - x else x - AsI32(x)) <= (if y >= x then y - x else x - y)
    ensures x <= y ==> AsI32(x) <= AsI32(y)
    ensures AsI32(AsI32(x)) == AsI32(x)
  {
  }

  function Floor(x: real): int { x.Floor }

  function Ceil(x: real): (r: int)
    ensures r as real >= x && r as real - 1.0 < x
  {
    -((-x).Floor)
  }

  function Max(a: int, b: int): int { if a >= b then a else b }

  function Min(a: int, b: int): int { if a <= b then a else b }

  /** A half-open rectangle of cells: i0 <= i < i1, j0 <= j < j1. */
  type CellRange = (int, int, int, int)

  type Cell = (int, int)

  predicate InRange(c: Cell, r: CellRange)
  {
    r.0 <= c.0 < r.1 && r.2 <= c.1 < r.3
  }

  /** `get_cell_range_for_movement` given the box: floor of the lower corner,
      ceiling of the upper corner plus one, clamped to the grid. */
  function CellRangeOfBox(lo: Vec, hi: Vec): CellRange
  {
    (Max(0, AsI32(Floor(lo.x / CELL_SIZE))),
     Min(LAST_CELL, AsI32(Ceil(hi.x / CELL_SIZE))) + 1,
     Max(0, AsI32(Floor(lo.y / CELL_SIZE))),
     Min(LAST_CELL, AsI32(Ceil(hi.y / CELL_SIZE))) + 1)
  }

  /** Lower indices are never negative and upper (exclusive) indices never
      exceed 101, whatever the box. */
  lemma CellRangeBounds(lo: Vec, hi: Vec)
    ensures var r := CellRangeOfBox(lo, hi);
      r.0 >= 0 && r.1 <= LAST_CELL + 1 && r.2 >= 0 && r.3 <= LAST_CELL + 1
  {
  }

  /** The cell a coordinate falls in. */
  function CellIndex(x: real): int { Floor(x / CELL_SIZE) }

  lemma FloorMonotone(a: real, b: real)
    requires a <= b
    ensures Floor(a) <= Floor(b)
  {
  }

  /** One axis of the covering: a coordinate between the box's ends whose
      cell lies on the grid has its cell inside the range. */
  lemma AxisCovered(lo: real, x: real, hi: real)
    requires lo <= x <= hi
    requires 0 <= CellIndex(x) <= LAST_CELL
    ensures Max(0, AsI32(Floor(lo / CELL_SIZE))) <= CellIndex(x)
    ensures CellIndex(x) < Min(LAST_CELL, AsI32(Ceil(hi / CELL_SIZE))) + 1
  {
    FloorMonotone(lo / CELL_SIZE, x / CELL_SIZE);
    assert CellIndex(x) as real <= x / CELL_SIZE <= hi / CELL_SIZE;
    assert CellIndex(x) <= Ceil(hi / CELL_SIZE);
  }

  /** Every point of the box whose cell is on the grid lies in a cell of the range. */
  lemma CellRangeCovers(lo: Vec, hi: Vec, p: Vec)
    requires lo.x <= p.x <= hi.x && lo.y <= p.y <= hi.y
    requires 0 <= CellIndex(p.x) <= LAST_CELL && 0 <= CellIndex(p.y) <= LAST_CELL
    ensures InRange((CellIndex(p.x), CellIndex(p.y)), CellRangeOfBox(lo, hi))
  {
    AxisCovered(lo.x, p.x, hi.x);
    AxisCovered(lo.y, p.y, hi.y);
  }

  // ---------------------------------------------------------------------
  // Bounding boxes of movement

  /** The box a body sweeps over a time span dt: for a ball, the box of its
      start and end positions widened by its radius; for a wall, the box of
      its end points. */
  function MovementBox(c: Collidable, dt: real): (Vec, Vec)
  {
    match c
    case Ball(b) =>
      var newPosition := Plus(b.position, Scale(dt, b.velocity));
      (AddScalar(Inf(b.position, newPosition), -b.radius),
       AddScalar(Sup(b.position, newPosition), b.radius))
    case Wall(w) => (Inf(w.p0, w.p1), Sup(w.p0, w.p1))
  }

  /** A move of s along a rate lies between no move and the move of dt. */
  lemma PartialMove(p: real, v: real, s: real, dt: real, sv: real, dtv: real)
    requires 0.0 <= s <= dt && sv == s * v && dtv == dt * v
    ensures (p <= p + sv <= p + dtv) || (p + dtv <= p + sv <= p)
  {
    if v >= 0.0 {
      assert s * v <= dt * v;
    } else {
      assert s * v >= dt * v;
    }
  }

  /** While the ball moves from its initial time over dt, the whole disc stays
      in its movement box. */
  lemma BallBoxContainsPath(b: Ball, dt: real, s: real)
    requires 0.0 <= s <= dt
    ensures var (lo, hi) := MovementBox(Collidable.Ball(b), dt);
      var q := PositionAt(b, b.initialTime + s);
      lo.x <= q.x - b.radius && q.x + b.radius <= hi.x
      && lo.y <= q.y - b.radius && q.y + b.radius <= hi.y
  {
    var p, v := b.position, b.velocity;
    PartialMove(p.x, v.x, s, dt, Scale(s, v).x, Scale(dt, v).x);
    PartialMove(p.y, v.y, s, dt, Scale(s, v).y, Scale(dt, v).y);
    MoveBy(b, s);
    BetweenCorners(p, Plus(p, Scale(dt, v)), Plus(p, Scale(s, v)));
  }

  lemma MoveBy(b: Ball, s: real)
    ensures PositionAt(b, b.initialTime + s) == Plus(b.position, Scale(s, b.velocity))
  {
    assert b.initialTime + s - b.initialTime == s;
  }

  lemma BetweenCorners(a: Vec, b: Vec, q: Vec)
    requires (a.x <= q.x <= b.x) || (b.x <= q.x <= a.x)
    requires (a.y <= q.y <= b.y) || (b.y <= q.y <= a.y)
    ensures Inf(a, b).x <= q.x <= Sup(a, b).x && Inf(a, b).y <= q.y <= Sup(a, b).y
  {
  }

  /** Every point of a wall lies in its box. */
  lemma WallBoxContainsWall(w: Wall, lambda: real)
    requires 0.0 <= lambda <= 1.0
    ensures var (lo, hi) := MovementBox(Collidable.Wall(w), 0.0);
      var q := Plus(w.p0, Scale(lambda, Minus(w.p1, w.p0)));
      lo.x <= q.x <= hi.x && lo.y <= q.y <= hi.y
  {
    var d := Minus(w.p1, w.p0);
    PartialMove(w.p0.x, d.x, lambda, 1.0, Scale(lambda, d).x, d.x);
    PartialMove(w.p0.y, d.y, lambda, 1.0, Scale(lambda, d).y, d.y);
    BetweenCorners(w.p0, w.p1, Plus(w.p0, Scale(lambda, Minus(w.p1, w.p0))));
  }

  /** The cells a body may touch before `nextTime`: a ball sweeps from its
      own initial time, a wall stays where it is. */
  function MovementCells(c: Collidable, nextTime: real): CellRange
  {
    var dt := match c case Ball(b) => nextTime - b.initialTime case Wall(_) => 0.0;
    var (lo, hi) := MovementBox(c, dt);
    CellRangeOfBox(lo, hi)
  }

  // ---------------------------------------------------------------------
  // Time windows

  /** `segments_intersect`: the closed intervals [x0, x1] and [y0, y1] overlap. */
  function SegmentsIntersect(x: (real, real), y: (real, real)): bool
  {
    x.1 >= y.0 && y.1 >= x.0
  }

  lemma SegmentsIntersectSymmetric(x: (real, real), y: (real, real))
    ensures SegmentsIntersect(x, y) == SegmentsIntersect(y, x)
  {
  }

  predicate Within(t: real, x: (real, real)) { x.0 <= t <= x.1 }

  /** For proper intervals the test is exactly "some instant lies in both". */
  lemma SegmentsIntersectIsOverlap(x: (real, real), y: (real, real))
    requires x.0 <= x.1 && y.0 <= y.1
    ensures SegmentsIntersect(x, y) <==> exists t :: Within(t, x) && Within(t, y)
  {
    if SegmentsIntersect(x, y) {
      var t := if x.0 >= y.0 then x.0 else y.0;
      assert Within(t, x) && Within(t, y);
    }
  }
}
