/**
 * Topographic isolation: a best-first flood over the 8-connected cells of
 * the grid, starting from the query point's cell. Each popped cell is
 * discarded when it lies outside the grid or was already visited; otherwise
 * it is marked, tested, and its eight neighbours are pushed. A cell
 * qualifies when it is higher than the query height plus the offset and its
 * centre lies at least `minDist` away. The search remembers the LAST
 * qualifying cell and stops once the qualifying area exceeds `minIsoArea`.
 *
 * The square root is a parameter: it fixes the priority keys and the
 * distances compared, and nothing proved here depends on its values.
 */
module Isolation {
  import opened Geometry
  import opened Rasters
  import opened Wrappers

  /** The arguments of one isolation query. */
  datatype Query = Query(p: Vec3, minDist: real, minIsoArea: real, hOffset: real, sqrt: real -> real)

  /** A priority-queue entry `(key, (x, y))`. */
  datatype Entry = Entry(key: real, cell: IVec2)

  /** The order of `std::pair<float, std::pair<int,int>>`: lexicographic. */
  predicate EntryLess(a: Entry, b: Entry)
  {
    a.key < b.key ||
    (a.key == b.key && (a.cell.x < b.cell.x || (a.cell.x == b.cell.x && a.cell.y < b.cell.y)))
  }

  /** Index of the entry the queue pops: one no other entry exceeds. */
  function TopIndex(q: seq<Entry>): (k: nat)
    requires |q| > 0
    ensures k < |q|
    ensures forall m :: 0 <= m < |q| ==> !EntryLess(q[k], q[m])
    decreases |q|
  {
    if |q| == 1 then 0
    else
      var k := TopIndex(q[..|q| - 1]);
      if EntryLess(q[k], q[|q| - 1]) then |q| - 1 else k
  }

  /** The queue without entry `k`. */
  function Remove(q: seq<Entry>, k: nat): (q': seq<Entry>)
    requires k < |q|
    ensures |q'| == |q| - 1
    ensures multiset(q') + multiset{q[k]} == multiset(q)
  {
    assert q == q[..k] + [q[k]] + q[k + 1..];
    q[..k] + q[k + 1..]
  }

  /** Some entry of the queue refers to cell `n`. */
  predicate Queued(q: seq<Entry>, n: IVec2)
  {
    exists k :: 0 <= k < |q| && q[k].cell == n
  }

  /** `a` and `b` are distinct and touch by a side or a corner. */
  predicate Adjacent(a: IVec2, b: IVec2)
  {
    a != b && -1 <= a.x - b.x <= 1 && -1 <= a.y - b.y <= 1
  }

  /**
   * The eight entries pushed after visiting `c` at distance `d`, in the
   * order they are pushed: diagonal neighbours get key `-d - sqrt(2)`,
   * side neighbours `-d - 1`.
   */
  function Pushes(c: IVec2, d: real, sqrt2: real): (es: seq<Entry>)
    ensures |es| == 8
    ensures forall k :: 0 <= k < |es| ==> Adjacent(c, es[k].cell)
    ensures forall n :: Adjacent(c, n) ==> Queued(es, n)
  {
    var es := [Entry(-d - sqrt2, IVec2(c.x - 1, c.y - 1)),
               Entry(-d - 1.0,   IVec2(c.x - 1, c.y)),
               Entry(-d - sqrt2, IVec2(c.x - 1, c.y + 1)),
               Entry(-d - 1.0,   IVec2(c.x,     c.y - 1)),
               Entry(-d - 1.0,   IVec2(c.x,     c.y + 1)),
               Entry(-d - sqrt2, IVec2(c.x + 1, c.y - 1)),
               Entry(-d - 1.0,   IVec2(c.x + 1, c.y)),
               Entry(-d - sqrt2, IVec2(c.x + 1, c.y + 1))];
    assert forall n :: Adjacent(c, n) ==>
      (n == es[0].cell || n == es[1].cell || n == es[2].cell || n == es[3].cell ||
       n == es[4].cell || n == es[5].cell || n == es[6].cell || n == es[7].cell);
    es
  }

  /** The cell the query point falls in: where the flood starts. */
  function StartCell(r: Raster, q: Query): IVec2
    requires r.WellFormed()
  {
    r.CellOf(XY(q.p))
  }

  /** Distance from the query point to the centre of cell `c`. */
  function CentreDistance(r: Raster, q: Query, c: IVec2): real
  {
    q.sqrt(DistSq(r.Centre(c.x, c.y), XY(q.p)))
  }

  /** Cell `c` is in the grid, higher than `p.z + hOffset`, and at least `minDist` away. */
  predicate Qualifies(r: Raster, q: Query, c: IVec2)
    requires r.WellFormed()
  {
    r.InGrid(c) && r.cells[c.x][c.y] > q.p.z + q.hOffset && CentreDistance(r, q, c) >= q.minDist
  }

  /** The last qualifying cell of the marking order, if there is one. */
  function LastIso(r: Raster, q: Query, order: seq<IVec2>): (c: Option<IVec2>)
    requires r.WellFormed()
    ensures c.None? <==> forall k :: 0 <= k < |order| ==> !Qualifies(r, q, order[k])
    ensures c.Some? ==> Qualifies(r, q, c.value) && c.value in order
    decreases |order|
  {
    if order == [] then None
    else if Qualifies(r, q, order[|order| - 1]) then Some(order[|order| - 1])
    else LastIso(r, q, order[..|order| - 1])
  }

  /** The recorded isolation point: the query point, or a qualifying centre at its height. */
  function IsoPoint(r: Raster, q: Query, c: Option<IVec2>): Vec3
    requires r.WellFormed()
    requires c.Some? ==> r.InGrid(c.value)
  {
    match c
    case None => q.p
    case Some(c) => Vec3(r.Centre(c.x, c.y).x, r.Centre(c.x, c.y).y, r.cells[c.x][c.y])
  }

  /** Number of qualifying cells in the marking order. */
  function Count(r: Raster, q: Query, order: seq<IVec2>): nat
    requires r.WellFormed()
    decreases |order|
  {
    if order == [] then 0
    else Count(r, q, order[..|order| - 1]) + (if Qualifies(r, q, order[|order| - 1]) then 1 else 0)
  }

  /** Area of the qualifying cells marked so far, one cell's area per qualifying cell. */
  function QualifyingArea(r: Raster, q: Query, order: seq<IVec2>): real
    requires r.WellFormed()
    decreases |order|
  {
    if order == [] then 0.0
    else QualifyingArea(r, q, order[..|order| - 1]) +
         (if Qualifies(r, q, order[|order| - 1]) then r.CellArea() else 0.0)
  }

  /** The qualifying area marked so far exceeds the threshold. */
  predicate AreaExceeded(r: Raster, q: Query, order: seq<IVec2>)
    requires r.WellFormed()
  {
    Count(r, q, order) > 0 && QualifyingArea(r, q, order) > q.minIsoArea
  }

  /** Marking a cell adds one cell's area exactly when the cell qualifies. */
  lemma QualifyingAreaSnoc(r: Raster, q: Query, order: seq<IVec2>, c: IVec2)
    requires r.WellFormed()
    ensures QualifyingArea(r, q, order + [c])
         == QualifyingArea(r, q, order) + (if Qualifies(r, q, c) then r.CellArea() else 0.0)
  {
    assert (order + [c])[..|order + [c]| - 1] == order;
  }

  /** The area is never negative, and is at least one cell once a cell qualifies. */
  lemma {:induction false} QualifyingAreaBounds(r: Raster, q: Query, order: seq<IVec2>)
    requires r.WellFormed()
    ensures QualifyingArea(r, q, order) >= 0.0
    ensures Count(r, q, order) > 0 ==> QualifyingArea(r, q, order) >= r.CellArea()
    decreases |order|
  {
    if order != [] {
      QualifyingAreaBounds(r, q, order[..|order| - 1]);
      assert r.CellArea() > 0.0 by {
        assert r.res.x > 0.0 && r.res.y > 0.0;
      }
    }
  }

  /**
   * When the threshold is below one cell's area, a single qualifying cell
   * exceeds it: a marking that has not exceeded it has no qualifying cell.
   */
  lemma CountBelowCellArea(r: Raster, q: Query, order: seq<IVec2>)
    requires r.WellFormed() && q.minIsoArea < r.CellArea() && !AreaExceeded(r, q, order)
    ensures Count(r, q, order) == 0
  {
    QualifyingAreaBounds(r, q, order);
  }

  /** What the function returns for isolation point `iso`: its distance, or -1. */
  function IsoResult(q: Query, iso: Vec3): real
  {
    var dres := q.sqrt(DistSq(XY(q.p), XY(iso)));
    if dres > q.minDist then dres else -1.0
  }

  /** Every marked cell is in the grid and is marked exactly once. */
  predicate MarkedOnce(r: Raster, order: seq<IVec2>)
  {
    (forall k :: 0 <= k < |order| ==> r.InGrid(order[k])) &&
    (forall a, b :: 0 <= a < b < |order| ==> order[a] != order[b])
  }

  /** Cell `n` is outside the grid, marked, or still in the queue. */
  predicate Covered(r: Raster, order: seq<IVec2>, q: seq<Entry>, n: IVec2)
  {
    !r.InGrid(n) || n in order || Queued(q, n)
  }

  /** Every neighbour of a marked cell is covered. */
  ghost predicate Closed(r: Raster, order: seq<IVec2>, q: seq<Entry>)
  {
    forall c, n :: c in order && Adjacent(c, n) ==> Covered(r, order, q, n)
  }

  /** The queue after dropping the top entry still holds every other cell it held. */
  lemma RemoveKeepsQueued(q: seq<Entry>, k: nat, n: IVec2)
    requires k < |q| && Queued(q, n) && n != q[k].cell
    ensures Queued(Remove(q, k), n)
  {
    var m :| 0 <= m < |q| && q[m].cell == n;
    if m < k {
      assert Remove(q, k)[m] == q[m];
    } else {
      assert Remove(q, k)[m - 1] == q[m];
    }
  }

  lemma QueuedAppend(a: seq<Entry>, b: seq<Entry>, n: IVec2)
    requires Queued(a, n) || Queued(b, n)
    ensures Queued(a + b, n)
  {
    if Queued(a, n) {
      var m :| 0 <= m < |a| && a[m].cell == n;
      assert (a + b)[m] == a[m];
    } else {
      var m :| 0 <= m < |b| && b[m].cell == n;
      assert (a + b)[|a| + m] == b[m];
    }
  }

  /** Popping an entry whose cell is already covered without it keeps coverage. */
  lemma PopKeepsCovered(r: Raster, order: seq<IVec2>, q: seq<Entry>, k: nat, n: IVec2)
    requires k < |q| && Covered(r, order, q, n)
    requires !r.InGrid(q[k].cell) || q[k].cell in order
    ensures Covered(r, order, Remove(q, k), n)
  {
    if r.InGrid(n) && n !in order {
      RemoveKeepsQueued(q, k, n);
    }
  }

  /** Dropping an entry whose cell is outside the grid or already marked keeps the closure. */
  lemma DiscardKeepsClosed(r: Raster, order: seq<IVec2>, q: seq<Entry>, k: nat)
    requires k < |q| && Closed(r, order, q)
    requires !r.InGrid(q[k].cell) || q[k].cell in order
    ensures Closed(r, order, Remove(q, k))
  {
    forall c, n | c in order && Adjacent(c, n)
      ensures Covered(r, order, Remove(q, k), n)
    {
      PopKeepsCovered(r, order, q, k, n);
    }
  }

  /** A covered cell stays covered once the popped cell is marked and its neighbours pushed. */
  lemma MarkKeepsCovered(r: Raster, order: seq<IVec2>, q: seq<Entry>, k: nat, ps: seq<Entry>, n: IVec2)
    requires k < |q| && Covered(r, order, q, n)
    ensures Covered(r, order + [q[k].cell], Remove(q, k) + ps, n)
  {
    if r.InGrid(n) && n !in order + [q[k].cell] {
      RemoveKeepsQueued(q, k, n);
      QueuedAppend(Remove(q, k), ps, n);
    }
  }

  /** Marking the popped cell and pushing all its neighbours keeps the closure. */
  lemma MarkKeepsClosed(r: Raster, order: seq<IVec2>, q: seq<Entry>, k: nat, d: real, sqrt2: real)
    requires k < |q| && Closed(r, order, q)
    ensures Closed(r, order + [q[k].cell], Remove(q, k) + Pushes(q[k].cell, d, sqrt2))
  {
    var c0 := q[k].cell;
    var order', q' := order + [c0], Remove(q, k) + Pushes(c0, d, sqrt2);
    forall c, n | c in order' && Adjacent(c, n)
      ensures Covered(r, order', q', n)
    {
      if c in order {
        MarkKeepsCovered(r, order, q, k, Pushes(c0, d, sqrt2), n);
      } else {
        QueuedAppend(Remove(q, k), Pushes(c0, d, sqrt2), n);
      }
    }
  }

  function Abs(v: int): nat { if v < 0 then -v else v }

  /**
   * In a closed marking with an empty queue, every grid cell at Manhattan
   * distance `dist` from a marked start cell is marked: step one unit
   * toward the start, staying inside the grid.
   */
  lemma {:induction false} ReachByDistance(r: Raster, order: seq<IVec2>, s: IVec2, c: IVec2, dist: nat)
    requires Closed(r, order, []) && s in order && r.InGrid(s) && r.InGrid(c)
    requires Abs(c.x - s.x) + Abs(c.y - s.y) == dist
    ensures c in order
    decreases dist
  {
    if dist == 0 {
      assert c == s;
    } else {
      var c' := if c.x < s.x then IVec2(c.x + 1, c.y)
                else if c.x > s.x then IVec2(c.x - 1, c.y)
                else if c.y < s.y then IVec2(c.x, c.y + 1)
                else IVec2(c.x, c.y - 1);
      ReachByDistance(r, order, s, c', dist - 1);
      assert Adjacent(c', c);
      assert !Queued([], c);
    }
  }

  /** A closed marking with an empty queue that contains the start contains the whole grid. */
  lemma ClosedCoversGrid(r: Raster, order: seq<IVec2>, s: IVec2)
    requires Closed(r, order, []) && s in order && r.InGrid(s)
    ensures forall c :: r.InGrid(c) ==> c in order
  {
    forall c | r.InGrid(c) ensures c in order {
      ReachByDistance(r, order, s, c, Abs(c.x - s.x) + Abs(c.y - s.y));
    }
  }

  /** The qualifying count grows by one exactly when the appended cell qualifies. */
  lemma CountSnoc(r: Raster, q: Query, order: seq<IVec2>, c: IVec2)
    requires r.WellFormed()
    ensures Count(r, q, order + [c]) == Count(r, q, order) + (if Qualifies(r, q, c) then 1 else 0)
    ensures LastIso(r, q, order + [c]) == (if Qualifies(r, q, c) then Some(c) else LastIso(r, q, order))
  {
    assert (order + [c])[..|order + [c]| - 1] == order;
  }

  /** A marking with no qualifying cell has count zero, and conversely. */
  lemma {:induction false} CountZero(r: Raster, q: Query, order: seq<IVec2>)
    requires r.WellFormed()
    ensures Count(r, q, order) == 0 <==> LastIso(r, q, order).None?
    decreases |order|
  {
    if order != [] {
      CountZero(r, q, order[..|order| - 1]);
    }
  }

  /** What holds of the flood each time the queue is about to be popped. */
  ghost predicate FloodInvariant(r: Raster, q: Query, start: IVec2, order: seq<IVec2>, queue: seq<Entry>,
                                 iso: Vec3, area: real)
    requires r.WellFormed()
  {
    && MarkedOnce(r, order)
    && Closed(r, order, queue) && Covered(r, order, queue, start)
    && (!r.InGrid(start) ==> order == [] && forall k :: 0 <= k < |queue| ==> queue[k].cell == start)
    && iso == IsoPoint(r, q, LastIso(r, q, order))
    && area == QualifyingArea(r, q, order)
    && !AreaExceeded(r, q, order)
  }

  /**
   * What the flood guarantees when it ends with marking order `order` and
   * isolation point `iso`:
   *  - every marked cell is in the grid and marked once, and `iso` is the
   *    last qualifying one (or the query point);
   *  - a start outside the grid marks nothing;
   *  - when the qualifying area exceeds the threshold, the search stopped at
   *    the very cell that made it exceed;
   *  - otherwise, from a start inside the grid, every grid cell was marked,
   *    so a qualifying cell is found whenever one exists;
   *  - with a threshold below one cell's area, at most one cell qualifies
   *    before the search stops.
   */
  ghost predicate FloodOutcome(r: Raster, q: Query, start: IVec2, order: seq<IVec2>, iso: Vec3)
    requires r.WellFormed()
  {
    && MarkedOnce(r, order)
    && iso == IsoPoint(r, q, LastIso(r, q, order))
    && (!r.InGrid(start) ==> order == [])
    && (AreaExceeded(r, q, order) ==>
          order != [] && Qualifies(r, q, order[|order| - 1]) && !AreaExceeded(r, q, order[..|order| - 1]))
    && (!AreaExceeded(r, q, order) && r.InGrid(start) ==> forall c :: r.InGrid(c) ==> c in order)
    && (r.InGrid(start) && (exists c :: Qualifies(r, q, c)) ==> LastIso(r, q, order).Some?)
    && (q.minIsoArea < r.CellArea() ==> Count(r, q, order) <= 1)
  }

  /** The flood starts with the start cell queued and nothing marked. */
  lemma FloodStart(r: Raster, q: Query, start: IVec2)
    requires r.WellFormed()
    ensures FloodInvariant(r, q, start, [], [Entry(0.0, start)], q.p, 0.0)
  {
    assert [Entry(0.0, start)][0].cell == start;
  }

  /** Popping a cell outside the grid or already marked changes nothing else. */
  lemma DiscardStep(r: Raster, q: Query, start: IVec2, order: seq<IVec2>, queue: seq<Entry>,
                    iso: Vec3, area: real, k: nat)
    requires r.WellFormed() && k < |queue| && FloodInvariant(r, q, start, order, queue, iso, area)
    requires !r.InGrid(queue[k].cell) || queue[k].cell in order
    ensures FloodInvariant(r, q, start, order, Remove(queue, k), iso, area)
  {
    DiscardKeepsClosed(r, order, queue, k);
    PopKeepsCovered(r, order, queue, k, start);
  }

  /**
   * Marking an unmarked grid cell that does not push the area over the
   * threshold, and pushing its neighbours, keeps the invariant.
   */
  lemma MarkStep(r: Raster, q: Query, start: IVec2, order: seq<IVec2>, queue: seq<Entry>,
                 iso: Vec3, area: real, k: nat, d: real, sqrt2: real)
    requires r.WellFormed() && k < |queue| && FloodInvariant(r, q, start, order, queue, iso, area)
    requires r.InGrid(queue[k].cell) && queue[k].cell !in order
    requires !AreaExceeded(r, q, order + [queue[k].cell])
    ensures var order' := order + [queue[k].cell];
            FloodInvariant(r, q, start, order', Remove(queue, k) + Pushes(queue[k].cell, d, sqrt2),
                           IsoPoint(r, q, LastIso(r, q, order')), QualifyingArea(r, q, order'))
  {
    var c := queue[k].cell;
    MarkKeepsClosed(r, order, queue, k, d, sqrt2);
    MarkKeepsCovered(r, order, queue, k, Pushes(c, d, sqrt2), start);
  }

  /** Stopping right after the marking that pushed the area over the threshold. */
  lemma StopOutcome(r: Raster, q: Query, start: IVec2, order: seq<IVec2>, queue: seq<Entry>,
                    iso: Vec3, area: real, k: nat)
    requires r.WellFormed() && k < |queue| && FloodInvariant(r, q, start, order, queue, iso, area)
    requires r.InGrid(queue[k].cell) && queue[k].cell !in order
    requires AreaExceeded(r, q, order + [queue[k].cell])
    ensures var order' := order + [queue[k].cell];
            FloodOutcome(r, q, start, order', IsoPoint(r, q, LastIso(r, q, order')))
  {
    var c := queue[k].cell;
    var order' := order + [c];
    CountSnoc(r, q, order, c);
    QualifyingAreaSnoc(r, q, order, c);
    assert order'[..|order'| - 1] == order;
    if q.minIsoArea < r.CellArea() {
      CountBelowCellArea(r, q, order);
    }
  }

  /** Ending with an empty queue. */
  lemma ExhaustedOutcome(r: Raster, q: Query, start: IVec2, order: seq<IVec2>, iso: Vec3, area: real)
    requires r.WellFormed() && FloodInvariant(r, q, start, order, [], iso, area)
    ensures FloodOutcome(r, q, start, order, iso)
  {
    if r.InGrid(start) {
      assert !Queued([], start);
      ClosedCoversGrid(r, order, start);
    }
    if q.minIsoArea < r.CellArea() {
      CountBelowCellArea(r, q, order);
    }
  }

  /**
   * When no cell of the grid qualifies, the recorded point stays the query
   * point, so the distance returned is the square root of zero.
   */
  lemma NothingQualifiesKeepsPoint(r: Raster, q: Query, start: IVec2, order: seq<IVec2>, iso: Vec3)
    requires r.WellFormed() && FloodOutcome(r, q, start, order, iso)
    requires forall c :: r.InGrid(c) ==> !Qualifies(r, q, c)
    ensures iso == q.p && IsoResult(q, iso) == (if q.sqrt(0.0) > q.minDist then q.sqrt(0.0) else -1.0)
  {
    assert LastIso(r, q, order).None?;
    assert DistSq(XY(q.p), XY(q.p)) == 0.0;
  }

  /**
   * Not found: with a non-negative `minDist` and an exact square root at 0,
   * a flood in which no cell qualifies returns -1.
   */
  lemma NothingQualifiesNotFound(r: Raster, q: Query, start: IVec2, order: seq<IVec2>, iso: Vec3)
    requires r.WellFormed() && FloodOutcome(r, q, start, order, iso)
    requires q.sqrt(0.0) == 0.0 && q.minDist >= 0.0
    requires forall c :: r.InGrid(c) ==> !Qualifies(r, q, c)
    ensures IsoResult(q, iso) == -1.0
  {
    NothingQualifiesKeepsPoint(r, q, start, order, iso);
  }

  /**
   * With a negative `minDist` the final test `dres > minDist` accepts the
   * unmoved query point: a flood in which no cell qualifies returns 0, not -1.
   */
  lemma NothingQualifiesNegativeMinDist(r: Raster, q: Query, start: IVec2, order: seq<IVec2>, iso: Vec3)
    requires r.WellFormed() && FloodOutcome(r, q, start, order, iso)
    requires q.sqrt(0.0) == 0.0 && q.minDist < 0.0
    requires forall c :: r.InGrid(c) ==> !Qualifies(r, q, c)
    ensures IsoResult(q, iso) == 0.0
  {
    NothingQualifiesKeepsPoint(r, q, start, order, iso);
  }
}
