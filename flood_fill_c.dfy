/**
 * The C flood-fill solver (`C-Codes/FloodFill/solver.c`). Its state lives
 * in static variables and fixed-size arrays: a 16 by 16 distance grid, a
 * 16 by 16 by 4 wall grid indexed `[y][x][d]`, the four goal coordinates
 * and a 256-entry array queue. The simulator calls `floodFill` once per
 * step; each call scans the walls around the mouse, refloods when the
 * distances no longer fit the walls, and moves one cell toward the goal.
 */
module FloodFillC {
  import opened Grid
  import opened Search
  import opened Flooding

  /** The arrays hold a maze of at most `MAX_SIZE` by `MAX_SIZE` cells. */
  const MAX_SIZE: int := 16
  /** The queue has one entry per cell of the largest maze. */
  const MAX_QUEUE: int := 256

  /** An entry of the flood's array queue. */
  datatype QueueNode = QueueNode(x: int, y: int)

  /** The shapes of the three static arrays. */
  predicate Shaped(distance: array2<int>, walls: array3<bool>, queue: array<QueueNode>) {
    && distance.Length0 == MAX_SIZE && distance.Length1 == MAX_SIZE
    && walls.Length0 == MAX_SIZE && walls.Length1 == MAX_SIZE && walls.Length2 == 4
    && queue.Length == MAX_QUEUE
  }

  /**
   * A maze the arrays can hold whose centre block lies inside it. For a
   * smaller or larger maze the C code writes outside its arrays.
   */
  predicate Fits(width: int, height: int) {
    2 <= width <= MAX_SIZE && 2 <= height <= MAX_SIZE
  }

  lemma FitsQueue(width: int, height: int)
    requires Fits(width, height)
    ensures width * height <= MAX_QUEUE
  {
    assert width * height <= MAX_SIZE * height;
  }

  /** The distance grid of a `width` by `height` maze, read as a map from cells. */
  ghost function DistOf(distance: array2<int>, width: int, height: int): (r: map<Cell, int>)
    reads distance
    requires 0 <= width <= distance.Length1 && 0 <= height <= distance.Length0
    ensures forall c :: c in r <==> InBounds(width, height, c)
    ensures forall c :: InBounds(width, height, c) ==> r[c] == distance[c.1, c.0]
  {
    map c | c in Cells(width, height) :: distance[c.1, c.0]
  }

  /** The wall grid of a `width` by `height` maze, read as the set of walled sides `(x, y, d)`. */
  ghost function WallsOf(walls: array3<bool>, width: int, height: int): (r: set<WallKey>)
    reads walls
    requires 0 <= width <= walls.Length1 && 0 <= height <= walls.Length0 && walls.Length2 == 4
    ensures forall x, y, d {:trigger (x, y, d) in r} :: (x, y, d) in r <==> 0 <= x < width && 0 <= y < height && 0 <= d < 4 && walls[y, x, d]
  {
    set x, y, d {:trigger walls[y, x, d]} | 0 <= x < width && 0 <= y < height && 0 <= d < 4 && walls[y, x, d] :: (x, y, d)
  }

  /** `ws` holds exactly the walled sides of the wall grid of a `width` by `height` maze: `WallsOf` stated cell by cell. */
  ghost predicate WallsMatch(walls: array3<bool>, width: int, height: int, ws: set<WallKey>)
    reads walls
    requires 0 <= width <= walls.Length1 && 0 <= height <= walls.Length0 && walls.Length2 == 4
  {
    && (forall k {:trigger k in ws} :: k in ws ==> 0 <= k.0 < width && 0 <= k.1 < height && 0 <= k.2 < 4)
    && (forall x, y, d {:trigger (x, y, d) in ws, walls[y, x, d]} :: (x, y, d) in ws <==> 0 <= x < width && 0 <= y < height && 0 <= d < 4 && walls[y, x, d])
  }

  lemma MatchWalls(walls: array3<bool>, width: int, height: int, ws: set<WallKey>)
    requires 0 <= width <= walls.Length1 && 0 <= height <= walls.Length0 && walls.Length2 == 4
    requires WallsMatch(walls, width, height, ws)
    ensures ws == WallsOf(walls, width, height)
  {
    ghost var r := WallsOf(walls, width, height);
    forall k | k in ws ensures k in r {
      var (a, b, e) := k;
      assert (a, b, e) in ws && walls[b, a, e];
    }
    forall k | k in r ensures k in ws {
      var (a, b, e) := k;
      assert (a, b, e) in r;
      assert walls[b, a, e];
    }
  }

  /** The wall grid read through `WallsOf` matches itself. */
  lemma OfMatch(walls: array3<bool>, width: int, height: int)
    requires 0 <= width <= walls.Length1 && 0 <= height <= walls.Length0 && walls.Length2 == 4
    ensures WallsMatch(walls, width, height, WallsOf(walls, width, height))
  {
  }

  /** `dist` maps exactly the cells of a `width` by `height` maze to their entries of the distance grid: `DistOf` stated cell by cell. */
  ghost predicate DistMatch(distance: array2<int>, width: int, height: int, dist: map<Cell, int>)
    reads distance
    requires 0 <= width <= distance.Length1 && 0 <= height <= distance.Length0
  {
    && (forall c {:trigger c in dist} :: c in dist <==> InBounds(width, height, c))
    && (forall c {:trigger dist[c]} :: InBounds(width, height, c) ==> dist[c] == distance[c.1, c.0])
  }

  lemma MatchDist(distance: array2<int>, width: int, height: int, dist: map<Cell, int>)
    requires 0 <= width <= distance.Length1 && 0 <= height <= distance.Length0
    requires DistMatch(distance, width, height, dist)
    ensures dist == DistOf(distance, width, height)
  {
  }

  /** Four distinct goal cells inside the maze. */
  predicate GoalsInside(width: int, height: int, goals: seq<Cell>) {
    && |goals| == 4
    && (forall i :: 0 <= i < 4 ==> InBounds(width, height, goals[i]))
    && (forall i, j :: 0 <= i < j < 4 ==> goals[i] != goals[j])
  }

  /**
   * The ghost account of the array queue as a breadth-first queue: the
   * queued cells are those below `INF` (so each cell is queued at most
   * once and the queue never overflows), the entries still pending are in
   * order of distance, none below `base` (the distance of the cell last
   * taken), and no queued cell is further than `base + 1`.
   */
  ghost predicate Layered(width: int, height: int, dist: map<Cell, int>, pending: seq<Cell>, enq: set<Cell>,
                          base: int, tail: int)
  {
    && enq <= Cells(width, height) && |enq| == tail
    && (forall c :: c in dist <==> InBounds(width, height, c))
    && (forall c :: InBounds(width, height, c) ==> (c in enq <==> dist[c] < INF))
    && (forall c :: c in enq ==> c in dist && dist[c] <= base + 1)
    && (forall i :: 0 <= i < |pending| ==> pending[i] in enq && pending[i] in dist && base <= dist[pending[i]])
    && (forall i, j :: 0 <= i <= j < |pending| ==>
          pending[i] in dist && pending[j] in dist && dist[pending[i]] <= dist[pending[j]])
  }

  /** The arrays hold the ghost map `dist` and, from `head` on, the ghost queue `pending`. */
  ghost predicate Mirrors(width: int, height: int, distance: array2<int>, queue: array<QueueNode>,
                          dist: map<Cell, int>, pending: seq<Cell>, head: int)
    reads distance, queue
  {
    && 0 <= width <= distance.Length1 && 0 <= height <= distance.Length0
    && (forall c :: InBounds(width, height, c) ==> c in dist && distance[c.1, c.0] == dist[c])
    && 0 <= head && head + |pending| <= queue.Length
    && (forall i :: 0 <= i < |pending| ==> queue[head + i] == QueueNode(pending[i].0, pending[i].1))
  }

  /** Everything the flood's loops keep, `skip` being the cell whose sides are being relaxed. */
  ghost predicate BfsState(width: int, height: int, walls: array3<bool>, goals: seq<Cell>,
                           distance: array2<int>, queue: array<QueueNode>, head: int, tail: int,
                           dist: map<Cell, int>, pending: seq<Cell>, enq: set<Cell>, base: int, skip: Option<Cell>)
    reads walls, distance, queue
  {
    && Shaped(distance, walls, queue) && Fits(width, height)
    && 0 <= head <= tail <= MAX_QUEUE && |pending| == tail - head
    && Mirrors(width, height, distance, queue, dist, pending, head)
    && FloodInv(width, height, WallsOf(walls, width, height), goals, dist, pending, skip)
    && Layered(width, height, dist, pending, enq, base, tail)
  }

  /** Taking the front of the queue raises `base` to its distance. */
  lemma LayerPop(width: int, height: int, dist: map<Cell, int>, pending: seq<Cell>, enq: set<Cell>, base: int, tail: int)
    requires Layered(width, height, dist, pending, enq, base, tail) && pending != []
    ensures Layered(width, height, dist, pending[1..], enq, dist[pending[0]], tail)
  {
  }

  /**
   * Lowering a cell to `base + 1` can only happen to a cell not yet
   * queued; queuing it keeps the account, and it still fits in the maze.
   */
  lemma LayerLower(width: int, height: int, dist: map<Cell, int>, pending: seq<Cell>, enq: set<Cell>,
                   base: int, tail: int, n: Cell, v: int)
    requires Layered(width, height, dist, pending, enq, base, tail)
    requires InBounds(width, height, n) && v == base + 1 && v < dist[n] <= INF
    ensures n !in enq && tail + 1 <= width * height
    ensures Layered(width, height, dist[n := v], pending + [n], enq + {n}, base, tail + 1)
  {
    assert n in Cells(width, height);
    CellsCard(width, height);
    SubsetCard(enq + {n}, Cells(width, height));
  }

  /** Every cell of the maze at `INF`, as the first loop of `floodFillDistances` leaves it. */
  method FillInf(distance: array2<int>, width: int, height: int)
    requires 0 <= width <= distance.Length1 && 0 <= height <= distance.Length0
    modifies distance
    ensures forall i, j :: 0 <= i < height && 0 <= j < width ==> distance[i, j] == INF
    ensures forall i, j :: 0 <= i < distance.Length0 && 0 <= j < distance.Length1 && !(i < height && j < width) ==>
      distance[i, j] == old(distance[i, j])
  {
    for i := 0 to height
      invariant forall i', j :: 0 <= i' < i && 0 <= j < width ==> distance[i', j] == INF
      invariant forall i', j :: 0 <= i' < distance.Length0 && 0 <= j < distance.Length1 && !(i' < i && j < width) ==>
        distance[i', j] == old(distance[i', j])
    {
      for j := 0 to width
        invariant forall i', j' :: 0 <= i' < i && 0 <= j' < width ==> distance[i', j'] == INF
        invariant forall j' :: 0 <= j' < j ==> distance[i, j'] == INF
        invariant forall i', j' ::
          0 <= i' < distance.Length0 && 0 <= j' < distance.Length1 && !(i' < i && j' < width) && !(i' == i && j' < j)
          ==> distance[i', j'] == old(distance[i', j'])
      {
        distance[i, j] := INF;
      }
    }
  }

  /** The reset and the seeding of `floodFillDistances`: goals at 0 and queued, every other cell at `INF`. */
  method SeedGoals(width: int, height: int, goals: seq<Cell>, distance: array2<int>, queue: array<QueueNode>)
    returns (tail: int)
    requires distance.Length0 == MAX_SIZE && distance.Length1 == MAX_SIZE && queue.Length == MAX_QUEUE
    requires Fits(width, height) && GoalsInside(width, height, goals)
    modifies distance, queue
    ensures tail == |goals|
    ensures forall i :: 0 <= i < |goals| ==> queue[i] == QueueNode(goals[i].0, goals[i].1)
    ensures forall c :: InBounds(width, height, c) ==> distance[c.1, c.0] == if c in goals then 0 else INF
  {
    FillInf(distance, width, height);
    tail := 0;
    for i := 0 to 4
      invariant tail == i
      invariant forall k :: 0 <= k < i ==> queue[k] == QueueNode(goals[k].0, goals[k].1)
      invariant forall c :: InBounds(width, height, c) ==> distance[c.1, c.0] == if c in goals[..i] then 0 else INF
    {
      distance[goals[i].1, goals[i].0] := 0;
      queue[tail] := QueueNode(goals[i].0, goals[i].1);
      tail := tail + 1;
    }
    assert goals[..4] == goals;
  }

  lemma SeedLayered(width: int, height: int, goals: seq<Cell>, dist: map<Cell, int>)
    requires GoalsInside(width, height, goals)
    requires forall c :: c in dist <==> InBounds(width, height, c)
    requires forall c :: InBounds(width, height, c) ==> dist[c] == if c in goals then 0 else INF
    ensures Layered(width, height, dist, goals, set i | 0 <= i < 4 :: goals[i], 0, 4)
  {
    var enq := set i | 0 <= i < 4 :: goals[i];
    assert enq == {goals[0], goals[1], goals[2], goals[3]};
    forall i | 0 <= i < 4 ensures goals[i] in enq && dist[goals[i]] == 0 {
      assert goals[i] in goals;
    }
    forall c | c in enq ensures c in Cells(width, height) {
      var i :| 0 <= i < 4 && goals[i] == c;
    }
    forall c | InBounds(width, height, c) ensures c in enq <==> dist[c] < INF {
      if c in goals {
        var i :| 0 <= i < 4 && goals[i] == c;
      }
    }
  }

  /** One lowering of the flood: neighbour `(nx, ny)` across side `d` gets `newDist` and joins the queue. */
  method LowerAt(width: int, height: int, walls: array3<bool>, goals: seq<Cell>, distance: array2<int>,
                 queue: array<QueueNode>, head: int, tail0: int, cx: int, cy: int, d: Dir, nx: int, ny: int, newDist: int,
                 ghost dist0: map<Cell, int>, ghost pending0: seq<Cell>, ghost enq0: set<Cell>, ghost base: int)
    returns (tail: int, ghost dist: map<Cell, int>, ghost pending: seq<Cell>, ghost enq: set<Cell>)
    requires GoalsInside(width, height, goals) && InBounds(width, height, (cx, cy))
    requires BfsState(width, height, walls, goals, distance, queue, head, tail0, dist0, pending0, enq0, base, Some((cx, cy)))
    requires dist0[(cx, cy)] == base && RelaxedUpTo(width, height, WallsOf(walls, width, height), dist0, (cx, cy), d)
    requires !walls[cy, cx, d] && (nx, ny) == Neighbor((cx, cy), d) && InBounds(width, height, (nx, ny))
    requires newDist == base + 1 && newDist < distance[ny, nx]
    modifies distance, queue
    ensures BfsState(width, height, walls, goals, distance, queue, head, tail, dist, pending, enq, base, Some((cx, cy)))
    ensures dist[(cx, cy)] == base && RelaxedUpTo(width, height, WallsOf(walls, width, height), dist, (cx, cy), d + 1)
  {
    ghost var ws := WallsOf(walls, width, height);
    ghost var n := (nx, ny);
    FloodLower(width, height, ws, goals, dist0, pending0, (cx, cy), d, n, newDist);
    LayerLower(width, height, dist0, pending0, enq0, base, tail0, n, newDist);
    FitsQueue(width, height);
    distance[ny, nx] := newDist;
    queue[tail0] := QueueNode(nx, ny);
    tail := tail0 + 1;
    dist, pending, enq := dist0[n := newDist], pending0 + [n], enq0 + {n};
  }

  /**
   * One pass of the inner loop of `floodFillDistances` for the cell
   * `(cx, cy)` just taken from the queue: a side with a wall, or one that
   * leads out of the maze, is skipped; otherwise the neighbour is lowered
   * to one more than the cell when that is smaller, and queued.
   */
  method RelaxSide(width: int, height: int, walls: array3<bool>, goals: seq<Cell>, distance: array2<int>,
                   queue: array<QueueNode>, head: int, tail0: int, cx: int, cy: int, currentDist: int, d: Dir,
                   ghost dist0: map<Cell, int>, ghost pending0: seq<Cell>, ghost enq0: set<Cell>)
    returns (tail: int, ghost dist: map<Cell, int>, ghost pending: seq<Cell>, ghost enq: set<Cell>)
    requires GoalsInside(width, height, goals) && InBounds(width, height, (cx, cy))
    requires BfsState(width, height, walls, goals, distance, queue, head, tail0, dist0, pending0, enq0, currentDist,
                      Some((cx, cy)))
    requires dist0[(cx, cy)] == currentDist && RelaxedUpTo(width, height, WallsOf(walls, width, height), dist0, (cx, cy), d)
    modifies distance, queue
    ensures BfsState(width, height, walls, goals, distance, queue, head, tail, dist, pending, enq, currentDist,
                     Some((cx, cy)))
    ensures dist[(cx, cy)] == currentDist && RelaxedUpTo(width, height, WallsOf(walls, width, height), dist, (cx, cy), d + 1)
  {
    ghost var ws := WallsOf(walls, width, height);
    ghost var n := Neighbor((cx, cy), d);
    tail, dist, pending, enq := tail0, dist0, pending0, enq0;
    if walls[cy, cx, d] {
      assert (cx, cy, d) in ws;
      FloodSkip(width, height, ws, dist, (cx, cy), d, n);
      return;
    }
    var nx := cx + DX(d);
    var ny := cy + DY(d);
    if nx < 0 || nx >= width || ny < 0 || ny >= height {
      FloodSkip(width, height, ws, dist, (cx, cy), d, n);
      return;
    }
    var newDist := currentDist + 1;
    if newDist < distance[ny, nx] {
      tail, dist, pending, enq := LowerAt(width, height, walls, goals, distance, queue, head, tail, cx, cy, d,
                                          nx, ny, newDist, dist, pending, enq, currentDist);
    } else {
      assert dist[n] <= dist[(cx, cy)] + 1;
      FloodSkip(width, height, ws, dist, (cx, cy), d, n);
    }
  }

  /** The inner loop of `floodFillDistances`: all four sides of `(cx, cy)` in turn. */
  method RelaxFrom(width: int, height: int, walls: array3<bool>, goals: seq<Cell>, distance: array2<int>,
                   queue: array<QueueNode>, head: int, tail0: int, cx: int, cy: int,
                   ghost dist0: map<Cell, int>, ghost pending0: seq<Cell>, ghost enq0: set<Cell>, ghost base: int)
    returns (tail: int, ghost dist: map<Cell, int>, ghost pending: seq<Cell>, ghost enq: set<Cell>)
    requires GoalsInside(width, height, goals) && InBounds(width, height, (cx, cy))
    requires BfsState(width, height, walls, goals, distance, queue, head, tail0, dist0, pending0, enq0, base, Some((cx, cy)))
    requires dist0[(cx, cy)] == base
    modifies distance, queue
    ensures BfsState(width, height, walls, goals, distance, queue, head, tail, dist, pending, enq, base, None)
  {
    tail, dist, pending, enq := tail0, dist0, pending0, enq0;
    var currentDist := distance[cy, cx];
    for d := 0 to 4
      invariant BfsState(width, height, walls, goals, distance, queue, head, tail, dist, pending, enq, base, Some((cx, cy)))
      invariant dist[(cx, cy)] == base == currentDist
      invariant RelaxedUpTo(width, height, WallsOf(walls, width, height), dist, (cx, cy), d)
    {
      tail, dist, pending, enq := RelaxSide(width, height, walls, goals, distance, queue, head, tail, cx, cy,
                                            currentDist, d, dist, pending, enq);
    }
    FloodFinish(width, height, WallsOf(walls, width, height), goals, dist, pending, (cx, cy));
  }

  /** Taking the front entry of the queue: it is the ghost queue's front cell, inside the maze. */
  lemma BfsPop(width: int, height: int, walls: array3<bool>, goals: seq<Cell>, distance: array2<int>,
               queue: array<QueueNode>, head: int, tail: int,
               dist: map<Cell, int>, pending: seq<Cell>, enq: set<Cell>, base: int)
    requires GoalsInside(width, height, goals)
    requires BfsState(width, height, walls, goals, distance, queue, head, tail, dist, pending, enq, base, None)
    requires head < tail
    ensures pending != [] && queue[head] == QueueNode(pending[0].0, pending[0].1)
    ensures InBounds(width, height, pending[0]) && pending[0] in dist
    ensures BfsState(width, height, walls, goals, distance, queue, head + 1, tail, dist, pending[1..], enq,
                     dist[pending[0]], Some(pending[0]))
  {
    FloodPop(width, height, WallsOf(walls, width, height), goals, dist, pending);
    LayerPop(width, height, dist, pending, enq, base, tail);
    assert FloodKeys(width, height, goals) == Cells(width, height);
  }

  /** An empty queue leaves the grid flooded, and the queue never held more entries than the maze has cells. */
  lemma BfsDone(width: int, height: int, walls: array3<bool>, goals: seq<Cell>, distance: array2<int>,
                queue: array<QueueNode>, head: int, tail: int,
                dist: map<Cell, int>, pending: seq<Cell>, enq: set<Cell>, base: int)
    requires GoalsInside(width, height, goals)
    requires BfsState(width, height, walls, goals, distance, queue, head, tail, dist, pending, enq, base, None)
    requires head == tail
    ensures tail <= width * height
    ensures Flooded(width, height, WallsOf(walls, width, height), DistOf(distance, width, height), goals)
  {
    assert pending == [];
    FloodedAtEnd(width, height, WallsOf(walls, width, height), goals, dist);
    assert DistOf(distance, width, height) == dist;
    CellsCard(width, height);
    SubsetCard(enq, Cells(width, height));
  }

  /**
   * `floodFillDistances` without its display loop: the breadth-first
   * flood from the four goal cells over the recorded walls. The array
   * queue never overflows, and the distance grid ends flooded.
   */
  method FloodArrays(width: int, height: int, walls: array3<bool>, goals: seq<Cell>,
                     distance: array2<int>, queue: array<QueueNode>)
    returns (head: int, tail: int)
    requires Shaped(distance, walls, queue) && Fits(width, height) && GoalsInside(width, height, goals)
    modifies distance, queue
    ensures head == tail <= width * height
    ensures Flooded(width, height, WallsOf(walls, width, height), DistOf(distance, width, height), goals)
  {
    tail := SeedGoals(width, height, goals, distance, queue);
    head := 0;
    ghost var dist := DistOf(distance, width, height);
    ghost var pending := goals;
    ghost var enq := set i | 0 <= i < 4 :: goals[i];
    ghost var base := 0;
    FloodStart(width, height, WallsOf(walls, width, height), goals, dist);
    SeedLayered(width, height, goals, dist);
    while head < tail
      invariant BfsState(width, height, walls, goals, distance, queue, head, tail, dist, pending, enq, base, None)
      decreases MAX_QUEUE - head
    {
      BfsPop(width, height, walls, goals, distance, queue, head, tail, dist, pending, enq, base);
      var cx := queue[head].x;
      var cy := queue[head].y;
      head := head + 1;
      base := dist[pending[0]];
      pending := pending[1..];
      tail, dist, pending, enq := RelaxFrom(width, height, walls, goals, distance, queue, head, tail, cx, cy,
                                            dist, pending, enq, base);
    }
    BfsDone(width, height, walls, goals, distance, queue, head, tail, dist, pending, enq, base);
  }

  /** The walls `addWall(px, py, dir)` records inside the maze: the side itself and its mirror on the neighbour. */
  function AddedBy(width: int, height: int, c: Cell, d: Dir): (r: set<WallKey>)
    ensures forall k :: k in r ==> InBounds(width, height, (k.0, k.1))
  {
    (if InBounds(width, height, c) then {(c.0, c.1, d)} else {})
    + (if InBounds(width, height, Neighbor(c, d)) then {(c.0 + DX(d), c.1 + DY(d), Back(d))} else {})
  }

  lemma AddedMirror(width: int, height: int, c: Cell, d: Dir, p: Cell, e: Dir)
    requires InBounds(width, height, p) && InBounds(width, height, Neighbor(p, e))
    ensures (p.0, p.1, e) in AddedBy(width, height, c, d) <==>
            (p.0 + DX(e), p.1 + DY(e), Back(e)) in AddedBy(width, height, c, d)
  {
    var q := Neighbor(p, e);
    NeighborBack(p, e);
    NeighborBack(c, d);
    if (q.0, q.1, Back(e)) in AddedBy(width, height, c, d) {
      if (q.0, q.1, Back(e)) == (c.0, c.1, d) {
        assert e == Back(d) && p == Neighbor(c, d);
      } else {
        assert e == d && p == c;
      }
    }
  }

  /** Adding a wall together with its mirror keeps the recorded walls symmetric. */
  lemma AddedBySymmetric(width: int, height: int, walls: set<WallKey>, c: Cell, d: Dir)
    requires SymmetricWalls(width, height, walls)
    ensures SymmetricWalls(width, height, walls + AddedBy(width, height, c, d))
  {
    var w' := walls + AddedBy(width, height, c, d);
    forall x, y, e: Dir | InBounds(width, height, (x, y)) && InBounds(width, height, Neighbor((x, y), e))
      ensures (x, y, e) in w' <==> (x + DX(e), y + DY(e), Back(e)) in w'
    {
      assert (x, y, e) in walls <==> (x + DX(e), y + DY(e), Back(e)) in walls;
      AddedMirror(width, height, c, d, (x, y), e);
      MirrorUnion(walls, AddedBy(width, height, c, d), (x, y, e), (x + DX(e), y + DY(e), Back(e)));
    }
  }

  /** Two sides that are recorded together in each of two wall sets are recorded together in their union. */
  lemma MirrorUnion(a: set<WallKey>, b: set<WallKey>, p: WallKey, q: WallKey)
    requires (p in a <==> q in a) && (p in b <==> q in b)
    ensures p in a + b <==> q in a + b
  {
  }

  /** The walls `scanWalls` records for the front, right and left sensor readings at `c` facing `direction`. */
  function ScanAdded(width: int, height: int, c: Cell, direction: Dir, front: bool, right: bool, left: bool): set<WallKey> {
    (if front then AddedBy(width, height, c, direction) else {})
    + (if right then AddedBy(width, height, c, Right(direction)) else {})
    + (if left then AddedBy(width, height, c, Left(direction)) else {})
  }

  /**
   * `m` is what the scan for `minNeighborDist` holds after the first `k`
   * sides of `c`: `INF` lowered to the smallest distance of an open
   * neighbour among them.
   */
  ghost predicate MinOpenUpTo(width: int, height: int, walls: set<WallKey>, dist: map<Cell, int>, c: Cell, m: int, k: int) {
    && m <= INF
    && (forall d: Dir :: d < k && OpenSide(width, height, walls, c, d) && Neighbor(c, d) in dist ==> m <= dist[Neighbor(c, d)])
    && (m == INF || exists d: Dir :: d < k && OpenSide(width, height, walls, c, d) && Neighbor(c, d) in dist
                                     && dist[Neighbor(c, d)] == m)
  }

  ghost predicate MinOpen(width: int, height: int, walls: set<WallKey>, dist: map<Cell, int>, c: Cell, m: int) {
    MinOpenUpTo(width, height, walls, dist, c, m, 4)
  }

  /** The array dimensions and the cell `(x, y)` the decision loops read. */
  predicate ReadsAt(width: int, height: int, walls: array3<bool>, distance: array2<int>, x: int, y: int) {
    && Fits(width, height) && InBounds(width, height, (x, y))
    && walls.Length0 == MAX_SIZE && walls.Length1 == MAX_SIZE && walls.Length2 == 4
    && distance.Length0 == MAX_SIZE && distance.Length1 == MAX_SIZE
  }

  /**
   * The scan of `floodFill` for `minNeighborDist`: the smallest distance
   * of a neighbour behind a side without a wall, or `INF` when there is
   * none smaller.
   */
  method MinOpenDistance(width: int, height: int, walls: array3<bool>, distance: array2<int>, x: int, y: int)
    returns (m: int)
    requires ReadsAt(width, height, walls, distance, x, y)
    ensures MinOpen(width, height, WallsOf(walls, width, height), DistOf(distance, width, height), (x, y), m)
  {
    ghost var ws, dist := WallsOf(walls, width, height), DistOf(distance, width, height);
    m := INF;
    for d := 0 to 4
      invariant MinOpenUpTo(width, height, ws, dist, (x, y), m, d)
    {
      if walls[y, x, d] {
        assert !OpenSide(width, height, ws, (x, y), d);
        continue;
      }
      var nx := x + DX(d);
      var ny := y + DY(d);
      if nx >= 0 && nx < width && ny >= 0 && ny < height {
        assert OpenSide(width, height, ws, (x, y), d) && dist[Neighbor((x, y), d)] == distance[ny, nx];
        if distance[ny, nx] < m {
          m := distance[ny, nx];
        }
      }
    }
  }

  /**
   * `best` is the answer of `getBestDirection` at `c`: the first side
   * whose open neighbour has the strictly smallest distance below `INF`,
   * or -1 when every open neighbour is at `INF` or above.
   */
  ghost predicate BestChoice(width: int, height: int, walls: set<WallKey>, dist: map<Cell, int>, c: Cell, best: int) {
    || (best == -1 && forall d: Dir :: OpenSide(width, height, walls, c, d) && Neighbor(c, d) in dist ==> dist[Neighbor(c, d)] >= INF)
    || (&& 0 <= best < 4 && OpenSide(width, height, walls, c, best) && Neighbor(c, best) in dist
        && dist[Neighbor(c, best)] < INF
        && (forall d: Dir :: OpenSide(width, height, walls, c, d) && Neighbor(c, d) in dist ==>
              dist[Neighbor(c, best)] <= dist[Neighbor(c, d)])
        && (forall d: Dir :: d < best && OpenSide(width, height, walls, c, d) && Neighbor(c, d) in dist ==>
              dist[Neighbor(c, best)] < dist[Neighbor(c, d)]))
  }

  /**
   * What one decision of `floodFill` at `c` leaves behind, from the walls
   * `walls0` and distances `dist0` it starts with: the scan adds its walls;
   * `minNeighborDist` is the smallest distance of an open neighbour under
   * the old distances; the grid is reflooded exactly when `c` is not one
   * more than it, and then the distances are flooded from the goals, and
   * otherwise unchanged; `best` is the choice of `getBestDirection`, and at
   * a reached cell it leads one step closer.
   */
  ghost predicate Decision(width: int, height: int, walls0: set<WallKey>, walls: set<WallKey>,
                           dist0: map<Cell, int>, dist: map<Cell, int>, goals: seq<Cell>, c: Cell, direction: Dir,
                           front: bool, right: bool, left: bool, minNeighborDist: int, best: int, reflooded: bool)
  {
    && c in dist0 && c in dist
    && walls == walls0 + ScanAdded(width, height, c, direction, front, right, left)
    && MinOpen(width, height, walls, dist0, c, minNeighborDist)
    && (reflooded <==> minNeighborDist != INF && dist0[c] != minNeighborDist + 1)
    && (reflooded ==> Flooded(width, height, walls, dist, goals))
    && (!reflooded ==> dist == dist0)
    && BestChoice(width, height, walls, dist, c, best)
    && (0 <= best < 4 && dist[c] < INF ==> dist[Neighbor(c, best)] == dist[c] - 1)
  }

  ghost predicate BestUpTo(width: int, height: int, walls: set<WallKey>, dist: map<Cell, int>, c: Cell,
                           best: int, minDist: int, k: int)
  {
    && MinOpenUpTo(width, height, walls, dist, c, minDist, k)
    && (best == -1 ==> minDist == INF)
    && (best != -1 ==>
          && 0 <= best < 4 && best < k && OpenSide(width, height, walls, c, best) && Neighbor(c, best) in dist
          && dist[Neighbor(c, best)] == minDist < INF
          && (forall d: Dir :: d < best && OpenSide(width, height, walls, c, d) && Neighbor(c, d) in dist ==>
                minDist < dist[Neighbor(c, d)]))
  }

  /** `getBestDirection` at `(x, y)`. */
  method BestDirection(width: int, height: int, walls: array3<bool>, distance: array2<int>, x: int, y: int)
    returns (best: int)
    requires ReadsAt(width, height, walls, distance, x, y)
    ensures BestChoice(width, height, WallsOf(walls, width, height), DistOf(distance, width, height), (x, y), best)
  {
    ghost var ws, dist := WallsOf(walls, width, height), DistOf(distance, width, height);
    var minDist := INF;
    best := -1;
    for d := 0 to 4
      invariant -1 <= best < 4 && BestUpTo(width, height, ws, dist, (x, y), best, minDist, d)
    {
      ghost var best0, min0 := best, minDist;
      var nx := x + DX(d);
      var ny := y + DY(d);
      if !walls[y, x, d] && 0 <= nx < width && 0 <= ny < height {
        assert OpenSide(width, height, ws, (x, y), d) && dist[Neighbor((x, y), d)] == distance[ny, nx];
        if distance[ny, nx] < minDist {
          minDist := distance[ny, nx];
          best := d;
        }
      } else {
        assert !OpenSide(width, height, ws, (x, y), d);
      }
      BestStep(width, height, ws, dist, (x, y), d, best0, min0, best, minDist);
    }
  }

  /** One side of the scan of `getBestDirection`: an open neighbour strictly below the minimum so far becomes the best. */
  lemma BestStep(width: int, height: int, walls: set<WallKey>, dist: map<Cell, int>, c: Cell, d: Dir,
                 best0: int, min0: int, best: int, minDist: int)
    requires -1 <= best0 < 4 && BestUpTo(width, height, walls, dist, c, best0, min0, d)
    requires if OpenSide(width, height, walls, c, d) && Neighbor(c, d) in dist && dist[Neighbor(c, d)] < min0
             then best == d && minDist == dist[Neighbor(c, d)]
             else best == best0 && minDist == min0
    ensures -1 <= best < 4 && BestUpTo(width, height, walls, dist, c, best, minDist, d + 1)
  {
  }

  /** The two scans agree: `getBestDirection` gives -1 exactly when `minNeighborDist` stays `INF`, and otherwise points at that minimum. */
  lemma MinAndBest(width: int, height: int, walls: set<WallKey>, dist: map<Cell, int>, c: Cell, m: int, best: int)
    requires MinOpen(width, height, walls, dist, c, m) && BestChoice(width, height, walls, dist, c, best)
    ensures best == -1 <==> m == INF
    ensures best != -1 ==> dist[Neighbor(c, best)] == m
  {
  }

  /**
   * The distance at `c` is one more than its smallest open neighbour:
   * every open neighbour is at least one less, and one is exactly one less.
   */
  ghost predicate Settled(width: int, height: int, walls: set<WallKey>, dist: map<Cell, int>, c: Cell) {
    && c in dist
    && (forall d: Dir :: OpenSide(width, height, walls, c, d) && Neighbor(c, d) in dist ==> dist[c] - 1 <= dist[Neighbor(c, d)])
    && (exists d: Dir :: OpenSide(width, height, walls, c, d) && Neighbor(c, d) in dist && dist[Neighbor(c, d)] == dist[c] - 1)
  }

  /**
   * The inconsistency test of `floodFill` (`minNeighborDist != INF &&
   * currentDist != minNeighborDist + 1`) fires exactly when `c` has an
   * open neighbour below `INF` and its distance is not settled.
   */
  lemma RefloodTest(width: int, height: int, walls: set<WallKey>, dist: map<Cell, int>, c: Cell, m: int)
    requires c in dist && (forall n :: InBounds(width, height, n) ==> n in dist)
    requires MinOpen(width, height, walls, dist, c, m)
    ensures (m != INF && dist[c] != m + 1) <==>
      (exists d: Dir :: OpenSide(width, height, walls, c, d) && dist[Neighbor(c, d)] < INF)
      && !Settled(width, height, walls, dist, c)
  {
    if m != INF {
      var e: Dir :| OpenSide(width, height, walls, c, e) && Neighbor(c, e) in dist && dist[Neighbor(c, e)] == m;
      if Settled(width, height, walls, dist, c) {
        var f: Dir :| OpenSide(width, height, walls, c, f) && Neighbor(c, f) in dist && dist[Neighbor(c, f)] == dist[c] - 1;
        assert m <= dist[c] - 1 <= m;
      }
      if dist[c] == m + 1 {
        assert OpenSide(width, height, walls, c, e) && Neighbor(c, e) in dist && dist[Neighbor(c, e)] == dist[c] - 1;
      }
    } else {
      forall d: Dir | OpenSide(width, height, walls, c, d) ensures dist[Neighbor(c, d)] >= INF {
        assert Neighbor(c, d) in dist;
      }
    }
  }

  /**
   * Right after a flood over symmetric walls, every cell of the maze that
   * is not a goal and has a distance below `INF` is settled.
   */
  lemma FloodedSettled(width: int, height: int, walls: set<WallKey>, dist: map<Cell, int>, goals: seq<Cell>, c: Cell)
    requires Flooded(width, height, walls, dist, goals) && SymmetricWalls(width, height, walls)
    requires InBounds(width, height, c) && c !in goals && dist[c] < INF
    ensures Settled(width, height, walls, dist, c)
  {
    DescentCanBeWalked(width, height, walls, Cells(width, height), dist, c);
    var e: Dir :| OpenSide(width, height, walls, c, e) && Neighbor(c, e) in dist && dist[Neighbor(c, e)] < dist[c];
    forall d: Dir | OpenSide(width, height, walls, c, d) && Neighbor(c, d) in dist
      ensures dist[c] - 1 <= dist[Neighbor(c, d)]
    {
      var n := Neighbor(c, d);
      NeighborBack(c, d);
      assert OpenSide(width, height, walls, n, Back(d));
      assert Relaxed(width, height, walls, dist, n);
    }
    assert dist[Neighbor(c, e)] == dist[c] - 1;
  }

  /** From a settled cell, the best direction leads one step down the distances. */
  lemma SettledBest(width: int, height: int, walls: set<WallKey>, dist: map<Cell, int>, c: Cell, best: int)
    requires Settled(width, height, walls, dist, c) && BestChoice(width, height, walls, dist, c, best) && best != -1
    ensures dist[Neighbor(c, best)] == dist[c] - 1
  {
    var f: Dir :| OpenSide(width, height, walls, c, f) && Neighbor(c, f) in dist && dist[Neighbor(c, f)] == dist[c] - 1;
  }

  /** The goal block of `initMaze`: the 2x2 cells around the centre, with C's truncating `/ 2`. */
  function CentreGoals(width: int, height: int): (r: seq<Cell>)
    ensures Fits(width, height) ==> GoalsInside(width, height, r)
  {
    var cx, cy := CDiv2(width), CDiv2(height);
    [(cx - 1, cy - 1), (cx, cy - 1), (cx - 1, cy), (cx, cy)]
  }

  /** The grids of a freshly initialised `width` by `height` maze, read as the walled sides `ws` and the distances `dist`. */
  ghost predicate Prepared(width: int, height: int, walls: array3<bool>, distance: array2<int>, queue: array<QueueNode>,
                           ws: set<WallKey>, dist: map<Cell, int>)
    reads walls, distance
  {
    && Shaped(distance, walls, queue) && Fits(width, height)
    && WallsMatch(walls, width, height, ws) && DistMatch(distance, width, height, dist)
    && SymmetricWalls(width, height, ws)
  }

  /** The goal placement of `initMaze`: the four cells around the centre `(width / 2, height / 2)`, rounded as C rounds. */
  method PlaceGoals(width: int, height: int, goalX: array<int>, goalY: array<int>)
    requires goalX.Length == 4 && goalY.Length == 4 && goalX != goalY
    modifies goalX, goalY
    ensures forall i :: 0 <= i < 4 ==> (goalX[i], goalY[i]) == CentreGoals(width, height)[i]
  {
    var centerX := CDiv2(width);
    var centerY := CDiv2(height);
    goalX[0] := centerX - 1;
    goalY[0] := centerY - 1;
    goalX[1] := centerX;
    goalY[1] := centerY - 1;
    goalX[2] := centerX - 1;
    goalY[2] := centerY;
    goalX[3] := centerX;
    goalY[3] := centerY;
  }

  /** The array work of `initMaze`'s first call: the wall grid holds exactly the boundary and the goals are the centre block. */
  method PrepareGrids(width: int, height: int, walls: array3<bool>, distance: array2<int>, queue: array<QueueNode>,
                      goalX: array<int>, goalY: array<int>)
    returns (ghost ws: set<WallKey>, ghost dist: map<Cell, int>)
    requires Shaped(distance, walls, queue) && Fits(width, height) && goalX.Length == 4 && goalY.Length == 4 && goalX != goalY
    modifies walls, goalX, goalY
    ensures Prepared(width, height, walls, distance, queue, ws, dist)
    ensures forall i :: 0 <= i < 4 ==> (goalX[i], goalY[i]) == CentreGoals(width, height)[i]
    ensures forall x, y, d: Dir :: InBounds(width, height, (x, y)) ==> ((x, y, d) in ws <==> OnBoundary(width, height, (x, y), d))
  {
    ws := ClearMaze(width, height, walls);
    PlaceGoals(width, height, goalX, goalY);
    dist := DistOf(distance, width, height);
  }

  /**
   * The wall grid once the boundary loops of `initMaze` have marked the
   * west and east sides of the first `rows` rows and the south and north
   * sides of the first `cols` columns of a cleared grid.
   */
  ghost predicate MarkedUpTo(width: int, height: int, walls: array3<bool>, rows: int, cols: int)
    reads walls
    requires walls.Length0 == MAX_SIZE && walls.Length1 == MAX_SIZE && walls.Length2 == 4
  {
    forall i, j, d: Dir :: 0 <= i < MAX_SIZE && 0 <= j < MAX_SIZE ==>
      walls[i, j, d] == (i < height && j < width && SidesUpTo(width, height, (j, i), rows, cols)[d])
  }

  /** The first boundary loop of `initMaze`: west and east sides of every row. */
  method MarkWestEast(width: int, height: int, walls: array3<bool>)
    requires walls.Length0 == MAX_SIZE && walls.Length1 == MAX_SIZE && walls.Length2 == 4 && Fits(width, height)
    requires MarkedUpTo(width, height, walls, 0, 0)
    modifies walls
    ensures MarkedUpTo(width, height, walls, height, 0)
  {
    for y := 0 to height
      invariant MarkedUpTo(width, height, walls, y, 0)
    {
      walls[y, 0, 3] := true;
      walls[y, width - 1, 1] := true;
    }
  }

  /** The second boundary loop of `initMaze`: south and north sides of every column. */
  method MarkSouthNorth(width: int, height: int, walls: array3<bool>)
    requires walls.Length0 == MAX_SIZE && walls.Length1 == MAX_SIZE && walls.Length2 == 4 && Fits(width, height)
    requires MarkedUpTo(width, height, walls, height, 0)
    modifies walls
    ensures MarkedUpTo(width, height, walls, height, width)
  {
    for x := 0 to width
      invariant MarkedUpTo(width, height, walls, height, x)
    {
      walls[0, x, 2] := true;
      walls[height - 1, x, 0] := true;
    }
  }

  /** The wall set-up of `initMaze`: the whole grid cleared, then the boundary sides of the maze walled. */
  method ClearAndMark(width: int, height: int, walls: array3<bool>)
    requires walls.Length0 == MAX_SIZE && walls.Length1 == MAX_SIZE && walls.Length2 == 4 && Fits(width, height)
    modifies walls
    ensures forall i, j, d: Dir :: 0 <= i < MAX_SIZE && 0 <= j < MAX_SIZE ==>
      walls[i, j, d] == (InBounds(width, height, (j, i)) && OnBoundary(width, height, (j, i), d))
    ensures SymmetricWalls(width, height, WallsOf(walls, width, height))
  {
    forall i, j, d | 0 <= i < MAX_SIZE && 0 <= j < MAX_SIZE && 0 <= d < 4 {
      walls[i, j, d] := false;
    }
    MarkWestEast(width, height, walls);
    MarkSouthNorth(width, height, walls);
    forall i, j, d: Dir | 0 <= i < MAX_SIZE && 0 <= j < MAX_SIZE
      ensures walls[i, j, d] == (InBounds(width, height, (j, i)) && OnBoundary(width, height, (j, i), d))
    {
      assert walls[i, j, d] == (i < height && j < width && SidesUpTo(width, height, (j, i), height, width)[d]);
    }
    BoundarySymmetric(width, height, WallsOf(walls, width, height));
  }

  /** `ClearAndMark` seen through the recorded walls `ws`: exactly the boundary sides of the maze, which are symmetric. */
  method ClearMaze(width: int, height: int, walls: array3<bool>) returns (ghost ws: set<WallKey>)
    requires walls.Length0 == MAX_SIZE && walls.Length1 == MAX_SIZE && walls.Length2 == 4 && Fits(width, height)
    modifies walls
    ensures WallsMatch(walls, width, height, ws) && SymmetricWalls(width, height, ws)
    ensures forall x, y, d: Dir :: InBounds(width, height, (x, y)) ==> ((x, y, d) in ws <==> OnBoundary(width, height, (x, y), d))
  {
    ClearAndMark(width, height, walls);
    ws := WallsOf(walls, width, height);
    OfMatch(walls, width, height);
  }

  /** Walls on exactly the boundary sides are symmetric: no inner side is walled. */
  lemma BoundarySymmetric(width: int, height: int, walls: set<WallKey>)
    requires forall x, y, d: Dir :: InBounds(width, height, (x, y)) ==>
      ((x, y, d) in walls <==> OnBoundary(width, height, (x, y), d))
    ensures SymmetricWalls(width, height, walls)
  {
    forall x, y, d: Dir | InBounds(width, height, (x, y)) && InBounds(width, height, Neighbor((x, y), d))
      ensures (x, y, d) !in walls && (x + DX(d), y + DY(d), Back(d)) !in walls
    {
      var n := Neighbor((x, y), d);
      OnBoundaryOutside(width, height, (x, y), d);
      OnBoundaryOutside(width, height, n, Back(d));
      NeighborBack((x, y), d);
    }
  }

  /** `addWall`: the side `dir` of `(px, py)` and, when the neighbour is inside the maze, its mirror. */
  method AddWallAt(width: int, height: int, walls: array3<bool>, px: int, py: int, dir: Dir)
    requires walls.Length0 == MAX_SIZE && walls.Length1 == MAX_SIZE && walls.Length2 == 4
    requires 0 <= width <= MAX_SIZE && 0 <= height <= MAX_SIZE && 0 <= px < MAX_SIZE && 0 <= py < MAX_SIZE
    modifies walls
    ensures forall i, j, d :: 0 <= i < MAX_SIZE && 0 <= j < MAX_SIZE && 0 <= d < 4 ==>
      walls[i, j, d] == (old(walls[i, j, d]) || (j, i, d) == (px, py, dir)
                         || (InBounds(width, height, Neighbor((px, py), dir)) && (j, i, d) == (px + DX(dir), py + DY(dir), Back(dir))))
    ensures WallsOf(walls, width, height) == old(WallsOf(walls, width, height)) + AddedBy(width, height, (px, py), dir)
  {
    walls[py, px, dir] := true;
    var nx := px + DX(dir);
    var ny := py + DY(dir);
    if nx >= 0 && nx < width && ny >= 0 && ny < height {
      var oppositeDir := (dir + 2) % 4;
      walls[ny, nx, oppositeDir] := true;
    }
    DirTables(dir);
    forall k | k in WallsOf(walls, width, height) ensures k in old(WallsOf(walls, width, height)) + AddedBy(width, height, (px, py), dir) {
      assert k == (k.0, k.1, k.2);
    }
    forall k | k in old(WallsOf(walls, width, height)) + AddedBy(width, height, (px, py), dir)
      ensures k in WallsOf(walls, width, height)
    {
      assert k == (k.0, k.1, k.2);
    }
  }

  /**
   * A move of `floodFill` goes one step down the distances: whether the
   * grid was reflooded (over symmetric walls) or found settled, the
   * chosen neighbour is one less than the mouse's cell, unless that cell
   * is at `INF`.
   */
  lemma Downhill(width: int, height: int, walls: set<WallKey>, goals: seq<Cell>, before: map<Cell, int>,
                 after: map<Cell, int>, c: Cell, m: int, reflooded: bool, best: int)
    requires (forall n :: n in before <==> InBounds(width, height, n)) && (forall n :: n in after <==> InBounds(width, height, n))
    requires InBounds(width, height, c) && c !in goals && SymmetricWalls(width, height, walls)
    requires MinOpen(width, height, walls, before, c, m)
    requires reflooded <==> m != INF && before[c] != m + 1
    requires reflooded ==> Flooded(width, height, walls, after, goals)
    requires !reflooded ==> after == before
    requires BestChoice(width, height, walls, after, c, best) && best != -1
    ensures after[c] < INF ==> after[Neighbor(c, best)] == after[c] - 1
  {
    if reflooded {
      if after[c] < INF {
        FloodedSettled(width, height, walls, after, goals, c);
        SettledBest(width, height, walls, after, c, best);
      }
    } else {
      RefloodTest(width, height, walls, before, c, m);
      assert OpenSide(width, height, walls, c, best) && before[Neighbor(c, best)] < INF;
      SettledBest(width, height, walls, after, c, best);
    }
  }

  /** One sensor of `scanWalls`: when it reports a wall, `addWall` on side `side` of `(x, y)`. */
  method ScanSide(width: int, height: int, walls: array3<bool>, x: int, y: int, side: Dir, present: bool)
    requires walls.Length0 == MAX_SIZE && walls.Length1 == MAX_SIZE && walls.Length2 == 4
    requires 0 <= width <= MAX_SIZE && 0 <= height <= MAX_SIZE && 0 <= x < MAX_SIZE && 0 <= y < MAX_SIZE
    modifies walls
    ensures WallsOf(walls, width, height) ==
      old(WallsOf(walls, width, height)) + (if present then AddedBy(width, height, (x, y), side) else {})
  {
    if present {
      AddWallAt(width, height, walls, x, y, side);
    }
  }

  /** The three sensors of `scanWalls` at `(x, y)` facing `direction`: front, right `(direction + 1) % 4`, left `(direction + 3) % 4`. */
  method ScanAt(width: int, height: int, walls: array3<bool>, x: int, y: int, direction: Dir,
                front: bool, right: bool, left: bool)
    requires walls.Length0 == MAX_SIZE && walls.Length1 == MAX_SIZE && walls.Length2 == 4
    requires 0 <= width <= MAX_SIZE && 0 <= height <= MAX_SIZE && 0 <= x < MAX_SIZE && 0 <= y < MAX_SIZE
    modifies walls
    ensures WallsOf(walls, width, height) == old(WallsOf(walls, width, height)) + ScanAdded(width, height, (x, y), direction, front, right, left)
  {
    DirTables(direction);
    ghost var w0 := WallsOf(walls, width, height);
    ghost var a := if front then AddedBy(width, height, (x, y), direction) else {};
    ghost var b := if right then AddedBy(width, height, (x, y), Right(direction)) else {};
    ghost var l := if left then AddedBy(width, height, (x, y), Left(direction)) else {};
    var rightSide, leftSide := (direction + 1) % 4, (direction + 3) % 4;
    assert rightSide == Right(direction) && leftSide == Left(direction);
    ScanSide(width, height, walls, x, y, direction, front);
    ghost var w1 := WallsOf(walls, width, height);
    assert w1 == w0 + a;
    ScanSide(width, height, walls, x, y, rightSide, right);
    ghost var w2 := WallsOf(walls, width, height);
    assert w2 == w1 + b;
    ScanSide(width, height, walls, x, y, leftSide, left);
    ghost var w3 := WallsOf(walls, width, height);
    assert w3 == w2 + l;
    UnionOfThree(w0, a, b, l, w1, w2, w3);
  }

  /** Three additions made one after another add their union. */
  lemma UnionOfThree(w0: set<WallKey>, a: set<WallKey>, b: set<WallKey>, l: set<WallKey>,
                     w1: set<WallKey>, w2: set<WallKey>, w3: set<WallKey>)
    requires w1 == w0 + a && w2 == w1 + b && w3 == w2 + l
    ensures w3 == w0 + (a + b + l)
  {
  }

  lemma ScanAddedSymmetric(width: int, height: int, walls: set<WallKey>, c: Cell, direction: Dir,
                           front: bool, right: bool, left: bool)
    requires SymmetricWalls(width, height, walls)
    ensures SymmetricWalls(width, height, walls + ScanAdded(width, height, c, direction, front, right, left))
  {
    var a := if front then AddedBy(width, height, c, direction) else {};
    var b := if right then AddedBy(width, height, c, Right(direction)) else {};
    var l := if left then AddedBy(width, height, c, Left(direction)) else {};
    if front {
      AddedBySymmetric(width, height, walls, c, direction);
    }
    if right {
      AddedBySymmetric(width, height, walls + a, c, Right(direction));
    }
    if left {
      AddedBySymmetric(width, height, walls + a + b, c, Left(direction));
    }
    assert walls + ScanAdded(width, height, c, direction, front, right, left) == walls + a + b + l;
  }

  /**
   * `turnTo(best)` followed by `API_moveForward` from heading
   * `direction`: the mouse ends facing `best` and the commands issued
   * hold exactly one move, last.
   */
  method TurnThenForward(direction: Dir, best: Dir) returns (d: Dir, issued: seq<Command>)
    ensures d == best && Rotate(direction, issued) == best
    ensures Forwards(issued) == 1 && |issued| >= 1 && issued[|issued| - 1] == MoveForward
  {
    var turns;
    d, turns := TurnToward(direction, best);
    issued := turns + [MoveForward];
    RotateAppend(direction, turns, [MoveForward]);
    ForwardsAppend(turns, [MoveForward]);
    ForwardsWithout(turns);
  }

  /**
   * What the end of `floodFill` does to the mouse, from cell `(x0, y0)`,
   * heading `d0` and step count `s0` to `(x1, y1)`, `d1` and `s1`: with
   * `best == -1` nothing moves and nothing is sent; otherwise the mouse
   * ends facing `best` after the turns and the single move in `issued`,
   * one cell further along `best` with the step counted when the move
   * succeeded (`moveOk`).
   */
  predicate MoveEffect(best: int, moveOk: bool, issued: seq<Command>,
                       x0: int, y0: int, d0: Dir, s0: int, x1: int, y1: int, d1: Dir, s1: int)
  {
    && (best == -1 ==> x1 == x0 && y1 == y0 && d1 == d0 && s1 == s0 && issued == [])
    && (best != -1 ==>
          && d1 == best && Rotate(d0, issued) == best
          && Forwards(issued) == 1 && issued[|issued| - 1] == MoveForward
          && (if moveOk then x1 == x0 + DX(best) && y1 == y0 + DY(best) && s1 == s0 + 1
              else x1 == x0 && y1 == y0 && s1 == s0))
  }

  /**
   * The effect of one call of `floodFill` once the maze is set up, from
   * the goal flag `reached0`, cell `(x0, y0)`, heading `d0`, step count
   * `s0`, walls `walls0` and distances `dist0` to the state after it. Once
   * the goal was reported, or on a goal cell, the goal is reported and
   * nothing moves, turns or changes. Elsewhere the goal stays unreported,
   * the mouse decides as in `Decision` and moves as in `MoveEffect`.
   */
  ghost predicate Called(width: int, height: int, goals: seq<Cell>, front: bool, right: bool, left: bool, moveOk: bool,
                         reached0: bool, x0: int, y0: int, d0: Dir, s0: int, walls0: set<WallKey>, dist0: map<Cell, int>,
                         reached: bool, x: int, y: int, d: Dir, s: int, walls: set<WallKey>, dist: map<Cell, int>,
                         issued: seq<Command>, minNeighborDist: int, best: int, reflooded: bool)
  {
    && (reached0 || (x0, y0) in goals ==>
          && reached && x == x0 && y == y0 && d == d0 && s == s0
          && issued == [] && walls == walls0 && dist == dist0)
    && (!reached0 && (x0, y0) !in goals ==>
          && !reached
          && Decision(width, height, walls0, walls, dist0, dist, goals, (x0, y0), d0,
                      front, right, left, minNeighborDist, best, reflooded)
          && MoveEffect(best, moveOk, issued, x0, y0, d0, s0, x, y, d, s))
  }

  /** A move made on the best choice goes through an open side to the neighbour in the new heading, one step further. */
  lemma MoveThroughOpen(width: int, height: int, walls: set<WallKey>, dist: map<Cell, int>, best: int, moveOk: bool,
                        issued: seq<Command>, x0: int, y0: int, d0: Dir, s0: int, x1: int, y1: int, d1: Dir, s1: int)
    requires BestChoice(width, height, walls, dist, (x0, y0), best)
    requires MoveEffect(best, moveOk, issued, x0, y0, d0, s0, x1, y1, d1, s1)
    ensures || (x1 == x0 && y1 == y0 && s1 == s0)
            || ((x1, y1) == Neighbor((x0, y0), d1) && s1 == s0 + 1 && OpenSide(width, height, walls, (x0, y0), d1))
  {
  }

  /**
   * The static state of `solver.c`: the mouse's cell and heading, the
   * maze size, the distance and wall grids, the goal coordinates, the
   * flood's queue, the two `initialized` flags (`mazeReady` for
   * `initMaze`, `started` for `floodFill`) and `floodFill`'s step count
   * and goal flag. The ghost fields `wallSet` and `dist` are the wall and
   * distance grids read as a set and a map.
   */
  class Solver {
    var x: int
    var y: int
    var direction: Dir
    var mazeWidth: int
    var mazeHeight: int
    const distance: array2<int>
    const walls: array3<bool>
    const goalX: array<int>
    const goalY: array<int>
    const queue: array<QueueNode>
    var mazeReady: bool
    var started: bool
    var steps: int
    var goalReached: bool
    ghost var wallSet: set<WallKey>
    ghost var dist: map<Cell, int>

    /** The goal cells `(goalX[i], goalY[i])`. */
    function Goals(): (r: seq<Cell>)
      reads goalX, goalY
      requires goalX.Length == 4 && goalY.Length == 4
      ensures |r| == 4 && forall i :: 0 <= i < 4 ==> r[i] == (goalX[i], goalY[i])
    {
      [(goalX[0], goalY[0]), (goalX[1], goalY[1]), (goalX[2], goalY[2]), (goalX[3], goalY[3])]
    }

    /** The mouse's cell, heading, step count and flags are as they were. */
    twostate predicate MouseKept()
      reads this`x, this`y, this`direction, this`steps, this`started, this`goalReached
    {
      && x == old(x) && y == old(y) && direction == old(direction) && steps == old(steps)
      && started == old(started) && goalReached == old(goalReached)
    }

    /** The grids have their fixed shapes and `wallSet` and `dist` are what they hold for the current maze size. */
    ghost predicate Views()
      reads this`mazeWidth, this`mazeHeight, this`wallSet, this`dist, walls, distance
    {
      && Shaped(distance, walls, queue)
      && 0 <= mazeWidth <= MAX_SIZE && 0 <= mazeHeight <= MAX_SIZE
      && WallsMatch(walls, mazeWidth, mazeHeight, wallSet)
      && DistMatch(distance, mazeWidth, mazeHeight, dist)
    }

    /**
     * The mouse stays at `(0, 0)` until the first call, the goal flag is
     * only raised on a goal cell, and once the maze is initialised the
     * goals are the centre block, the recorded walls are symmetric and
     * the mouse is inside the maze.
     */
    ghost predicate Valid()
      reads this`x, this`y, this`mazeWidth, this`mazeHeight, this`mazeReady, this`started, this`goalReached,
            this`wallSet, this`dist, walls, distance, goalX, goalY
    {
      && Views() && goalX.Length == 4 && goalY.Length == 4 && goalX != goalY
      && (started ==> mazeReady)
      && (!started ==> x == 0 && y == 0 && !goalReached)
      && (goalReached ==> (x, y) in Goals())
      && (mazeReady ==>
            && Fits(mazeWidth, mazeHeight) && Goals() == CentreGoals(mazeWidth, mazeHeight)
            && SymmetricWalls(mazeWidth, mazeHeight, wallSet) && InBounds(mazeWidth, mazeHeight, (x, y)))
    }

    /** The static variables before the first call: every one zero. */
    constructor ()
      ensures Valid() && !mazeReady && !started && !goalReached
      ensures x == 0 && y == 0 && direction == 0 && mazeWidth == 0 && mazeHeight == 0
      ensures steps == 0
    {
      x, y, direction := 0, 0, 0;
      mazeWidth, mazeHeight := 0, 0;
      distance := new int[MAX_SIZE, MAX_SIZE]((i, j) => 0);
      walls := new bool[MAX_SIZE, MAX_SIZE, 4]((i, j, k) => false);
      goalX := new int[4](i => 0);
      goalY := new int[4](i => 0);
      queue := new QueueNode[MAX_QUEUE](i => QueueNode(0, 0));
      mazeReady, started := false, false;
      steps, goalReached := 0, false;
      new;
      wallSet := WallsOf(walls, mazeWidth, mazeHeight);
      dist := DistOf(distance, mazeWidth, mazeHeight);
    }

    /**
     * `initMaze`: on its first call, takes the maze size from the
     * simulator, clears the wall grid, walls the boundary and places the
     * goal block at the centre; later calls do nothing.
     */
    method InitMaze(apiWidth: int, apiHeight: int)
      requires Valid() && (!mazeReady ==> Fits(apiWidth, apiHeight))
      modifies this`mazeWidth, this`mazeHeight, this`mazeReady, this`wallSet, this`dist, walls, goalX, goalY
      ensures Valid() && mazeReady
      ensures old(mazeReady) ==>
        && mazeWidth == old(mazeWidth) && mazeHeight == old(mazeHeight) && wallSet == old(wallSet) && dist == old(dist)
        && unchanged(walls) && unchanged(goalX) && unchanged(goalY)
      ensures !old(mazeReady) ==>
        mazeWidth == apiWidth && mazeHeight == apiHeight && Goals() == CentreGoals(apiWidth, apiHeight)
      ensures !old(mazeReady) ==> forall x, y, d: Dir :: InBounds(apiWidth, apiHeight, (x, y)) ==>
        ((x, y, d) in wallSet <==> OnBoundary(apiWidth, apiHeight, (x, y), d))
    {
      if !mazeReady {
        SetUp(apiWidth, apiHeight);
      }
    }

    /** The first call of `initMaze`: the grids are prepared, then the size and the views are recorded. */
    method SetUp(apiWidth: int, apiHeight: int)
      requires Valid() && !mazeReady && Fits(apiWidth, apiHeight)
      modifies this`mazeWidth, this`mazeHeight, this`mazeReady, this`wallSet, this`dist, walls, goalX, goalY
      ensures Valid() && mazeReady
      ensures mazeWidth == apiWidth && mazeHeight == apiHeight && Goals() == CentreGoals(apiWidth, apiHeight)
      ensures forall x, y, d: Dir :: InBounds(apiWidth, apiHeight, (x, y)) ==>
        ((x, y, d) in wallSet <==> OnBoundary(apiWidth, apiHeight, (x, y), d))
    {
      var ws, d := PrepareGrids(apiWidth, apiHeight, walls, distance, queue, goalX, goalY);
      mazeWidth, mazeHeight, wallSet, dist, mazeReady := apiWidth, apiHeight, ws, d, true;
    }

    /** `isGoal`: whether `(px, py)` is one of the four goal cells. */
    method IsGoal(px: int, py: int) returns (r: bool)
      requires Valid()
      ensures r <==> (px, py) in Goals()
    {
      for i := 0 to 4
        invariant forall k :: 0 <= k < i ==> (px, py) != (goalX[k], goalY[k])
      {
        if px == goalX[i] && py == goalY[i] {
          return true;
        }
      }
      return false;
    }

    /** `addWall` on the solver's grid; the recorded walls stay symmetric. */
    method AddWall(px: int, py: int, dir: Dir)
      requires Valid() && 0 <= px < MAX_SIZE && 0 <= py < MAX_SIZE
      modifies walls, this`wallSet
      ensures Valid()
      ensures wallSet == old(wallSet) + AddedBy(mazeWidth, mazeHeight, (px, py), dir)
    {
      MatchWalls(walls, mazeWidth, mazeHeight, wallSet);
      AddWallAt(mazeWidth, mazeHeight, walls, px, py, dir);
      if mazeReady {
        AddedBySymmetric(mazeWidth, mazeHeight, wallSet, (px, py), dir);
      }
      wallSet := wallSet + AddedBy(mazeWidth, mazeHeight, (px, py), dir);
    }

    /**
     * `scanWalls`: records a wall in front, to the right and to the left
     * of the mouse for each sensor that reports one. The readings are
     * parameters.
     */
    method ScanWalls(front: bool, right: bool, left: bool)
      requires Valid() && mazeReady
      modifies walls, this`wallSet
      ensures Valid()
      ensures wallSet == old(wallSet) + ScanAdded(mazeWidth, mazeHeight, (x, y), direction, front, right, left)
      ensures MouseKept()
    {
      MatchWalls(walls, mazeWidth, mazeHeight, wallSet);
      ScanAt(mazeWidth, mazeHeight, walls, x, y, direction, front, right, left);
      ScanAddedSymmetric(mazeWidth, mazeHeight, wallSet, (x, y), direction, front, right, left);
      wallSet := wallSet + ScanAdded(mazeWidth, mazeHeight, (x, y), direction, front, right, left);
      OfMatch(walls, mazeWidth, mazeHeight);
    }

    /**
     * `floodFillDistances` on the solver's arrays: the grid ends flooded
     * from the goals over the recorded walls, with the queue drained
     * after at most one entry per cell.
     */
    method FloodFillDistances() returns (queueHead: int, queueTail: int)
      requires Valid() && mazeReady
      modifies distance, queue, this`dist
      ensures Valid()
      ensures queueHead == queueTail <= mazeWidth * mazeHeight
      ensures Flooded(mazeWidth, mazeHeight, wallSet, dist, Goals())
    {
      MatchWalls(walls, mazeWidth, mazeHeight, wallSet);
      queueHead, queueTail := FloodArrays(mazeWidth, mazeHeight, walls, Goals(), distance, queue);
      dist := DistOf(distance, mazeWidth, mazeHeight);
    }

    /** The mouse's own distance and the smallest distance `minNeighborDist` behind one of its open sides. */
    method ReadDistances() returns (currentDist: int, minNeighborDist: int)
      requires Valid() && mazeReady
      ensures currentDist == dist[(x, y)]
      ensures MinOpen(mazeWidth, mazeHeight, wallSet, dist, (x, y), minNeighborDist)
    {
      MatchWalls(walls, mazeWidth, mazeHeight, wallSet);
      MatchDist(distance, mazeWidth, mazeHeight, dist);
      currentDist := distance[y, x];
      minNeighborDist := MinOpenDistance(mazeWidth, mazeHeight, walls, distance, x, y);
    }

    /**
     * The part of `floodFill` after the scan that refloods the grid when
     * the mouse's distance is not one more than the smallest distance
     * `minNeighborDist` behind an open side.
     */
    method Reflood() returns (minNeighborDist: int, ghost reflooded: bool)
      requires Valid() && mazeReady
      modifies distance, queue, this`dist
      ensures Valid()
      ensures MinOpen(mazeWidth, mazeHeight, wallSet, old(dist), (x, y), minNeighborDist)
      ensures reflooded <==> minNeighborDist != INF && old(dist)[(x, y)] != minNeighborDist + 1
      ensures reflooded ==> Flooded(mazeWidth, mazeHeight, wallSet, dist, Goals())
      ensures !reflooded ==> dist == old(dist)
      ensures MouseKept()
    {
      var currentDist;
      currentDist, minNeighborDist := ReadDistances();
      reflooded := false;
      if minNeighborDist != INF && currentDist != minNeighborDist + 1 {
        var queueHead, queueTail := FloodFillDistances();
        reflooded := true;
      }
    }

    /** `getBestDirection` at the mouse's cell. */
    method GetBestDirection() returns (best: int)
      requires Valid() && mazeReady
      ensures BestChoice(mazeWidth, mazeHeight, wallSet, dist, (x, y), best)
    {
      MatchWalls(walls, mazeWidth, mazeHeight, wallSet);
      MatchDist(distance, mazeWidth, mazeHeight, dist);
      best := BestDirection(mazeWidth, mazeHeight, walls, distance, x, y);
    }

    /**
     * The decision part of `floodFill` at a cell that is not a goal: the
     * walls around the mouse are recorded, the grid is reflooded when the
     * mouse's distance is not one more than `minNeighborDist` (see
     * `RefloodTest` for what that test means), and `best` is the open
     * side with the smallest distance (or -1 when every open side is
     * unreachable). A reflooded grid, or a settled one, makes `best` lead
     * one step downhill.
     */
    method Decide(front: bool, right: bool, left: bool) returns (minNeighborDist: int, best: int, ghost reflooded: bool)
      requires Valid() && mazeReady && (x, y) !in Goals()
      modifies walls, distance, queue, this`wallSet, this`dist
      ensures Valid()
      ensures wallSet == old(wallSet) + ScanAdded(mazeWidth, mazeHeight, (x, y), direction, front, right, left)
      ensures MinOpen(mazeWidth, mazeHeight, wallSet, old(dist), (x, y), minNeighborDist)
      ensures reflooded <==> minNeighborDist != INF && old(dist)[(x, y)] != minNeighborDist + 1
      ensures reflooded ==> Flooded(mazeWidth, mazeHeight, wallSet, dist, Goals())
      ensures !reflooded ==> dist == old(dist)
      ensures BestChoice(mazeWidth, mazeHeight, wallSet, dist, (x, y), best)
      ensures 0 <= best < 4 && dist[(x, y)] < INF ==> dist[Neighbor((x, y), best)] == dist[(x, y)] - 1
      ensures MouseKept()
    {
      ghost var before := dist;
      ScanWalls(front, right, left);
      minNeighborDist, reflooded := Reflood();
      best := GetBestDirection();
      if best != -1 {
        Downhill(mazeWidth, mazeHeight, wallSet, Goals(), before, dist, (x, y), minNeighborDist, reflooded, best);
      }
    }

    /** `turnTo(best)` and the `API_moveForward` call after it: the mouse ends facing `best`. */
    method TurnTo(best: Dir) returns (issued: seq<Command>)
      modifies this`direction
      ensures direction == best && Rotate(old(direction), issued) == best
      ensures Forwards(issued) == 1 && |issued| >= 1 && issued[|issued| - 1] == MoveForward
    {
      direction, issued := TurnThenForward(direction, best);
    }

    /** The answer `moveOk` of `API_moveForward`: when it succeeds, the mouse is one cell further along its heading and the step is counted. */
    method Forward(moveOk: bool)
      requires Valid() && started && !goalReached
      requires OpenSide(mazeWidth, mazeHeight, wallSet, (x, y), direction)
      modifies this`x, this`y, this`steps
      ensures Valid()
      ensures if moveOk then x == old(x) + DX(direction) && y == old(y) + DY(direction) && steps == old(steps) + 1
              else x == old(x) && y == old(y) && steps == old(steps)
    {
      if moveOk {
        steps := steps + 1;
        x := x + DX(direction);
        y := y + DY(direction);
      }
    }

    /**
     * The end of `floodFill` once `best` is known: when some open side is
     * reachable (`best != -1`) the mouse turns toward it and moves as in
     * `TurnTo` and `Forward`; otherwise it stays where it is, facing as
     * before, and nothing is sent to the simulator.
     */
    method Move(best: int, moveOk: bool) returns (issued: seq<Command>)
      requires Valid() && started && !goalReached
      requires best == -1 || (0 <= best < 4 && OpenSide(mazeWidth, mazeHeight, wallSet, (x, y), best))
      modifies this`x, this`y, this`direction, this`steps
      ensures Valid()
      ensures MoveEffect(best, moveOk, issued, old(x), old(y), old(direction), old(steps), x, y, direction, steps)
      ensures wallSet == old(wallSet) && dist == old(dist) && goalReached == old(goalReached)
    {
      issued := [];
      if best != -1 {
        issued := TurnTo(best);
        Forward(moveOk);
      }
    }

    /**
     * `floodFill` at a cell that is not a goal: the mouse decides as in
     * `Decide` (walls recorded, smallest open neighbour `minNeighborDist`
     * under the old distances, a reflood exactly when the cell disagrees
     * with it) and moves as in `Move`.
     */
    method Explore(front: bool, right: bool, left: bool, moveOk: bool)
      returns (issued: seq<Command>, minNeighborDist: int, best: int, ghost reflooded: bool)
      requires Valid() && started && !goalReached && (x, y) !in Goals()
      modifies this`x, this`y, this`direction, this`steps, this`wallSet, this`dist, walls, distance, queue
      ensures Valid() && started && !goalReached
      ensures Decision(mazeWidth, mazeHeight, old(wallSet), wallSet, old(dist), dist, Goals(), old((x, y)), old(direction),
                       front, right, left, minNeighborDist, best, reflooded)
      ensures MoveEffect(best, moveOk, issued, old(x), old(y), old(direction), old(steps), x, y, direction, steps)
    {
      minNeighborDist, best, reflooded := Decide(front, right, left);
      issued := Move(best, moveOk);
    }

    /** `goalReached = 1` on a goal cell: the flag is raised and nothing else changes. */
    method ReachGoal()
      requires Valid() && started && (x, y) in Goals()
      modifies this`goalReached
      ensures Valid() && goalReached
    {
      goalReached := true;
    }

    /**
     * The body of `floodFill` after its first-call set-up. Once the goal
     * was reported nothing happens; on a goal cell the goal is reported
     * and nothing moves. Otherwise the mouse explores as in `Explore`.
     */
    method Advance(front: bool, right: bool, left: bool, moveOk: bool)
      returns (action: Action, issued: seq<Command>, minNeighborDist: int, best: int, ghost reflooded: bool)
      requires Valid() && started
      modifies this`x, this`y, this`direction, this`steps, this`goalReached, this`wallSet, this`dist, walls, distance, queue
      ensures Valid() && started && action == IDLE
      ensures InBounds(mazeWidth, mazeHeight, old((x, y))) && old((x, y)) in dist
      ensures Called(mazeWidth, mazeHeight, Goals(), front, right, left, moveOk,
                     old(goalReached), old(x), old(y), old(direction), old(steps), old(wallSet), old(dist),
                     goalReached, x, y, direction, steps, wallSet, dist, issued, minNeighborDist, best, reflooded)
      ensures old(goalReached) || old((x, y) in Goals()) ==> unchanged(walls) && unchanged(distance)
      ensures || (x == old(x) && y == old(y) && steps == old(steps))
              || (&& (x, y) == Neighbor(old((x, y)), direction) && steps == old(steps) + 1
                  && OpenSide(mazeWidth, mazeHeight, wallSet, old((x, y)), direction))
    {
      action, issued, minNeighborDist, best, reflooded := IDLE, [], INF, -1, false;
      if goalReached {
        return;
      }
      var atGoal := IsGoal(x, y);
      if atGoal {
        ReachGoal();
        return;
      }
      ghost var x0, y0, d0, s0 := x, y, direction, steps;
      issued, minNeighborDist, best, reflooded := Explore(front, right, left, moveOk);
      MoveThroughOpen(mazeWidth, mazeHeight, wallSet, dist, best, moveOk, issued, x0, y0, d0, s0, x, y, direction, steps);
    }

    /** The `!initialized` block of `floodFill`: `initMaze` then the first flood. */
    method Start(apiWidth: int, apiHeight: int)
      requires Valid() && !started && (!mazeReady ==> Fits(apiWidth, apiHeight))
      modifies this`mazeWidth, this`mazeHeight, this`mazeReady, this`started, this`wallSet, this`dist,
        walls, distance, queue, goalX, goalY
      ensures Valid() && started && mazeReady
      ensures !old(mazeReady) ==> mazeWidth == apiWidth && mazeHeight == apiHeight
      ensures Flooded(mazeWidth, mazeHeight, wallSet, dist, Goals())
    {
      InitMaze(apiWidth, apiHeight);
      var queueHead, queueTail := FloodFillDistances();
      started := true;
    }

    /** The first-call part of `floodFill`: set up and flood unless that was done before; the mouse does not move. */
    method Begin(apiWidth: int, apiHeight: int)
      requires Valid() && (!mazeReady ==> Fits(apiWidth, apiHeight))
      modifies this`mazeWidth, this`mazeHeight, this`mazeReady, this`started, this`wallSet, this`dist,
        walls, distance, queue, goalX, goalY
      ensures Valid() && started
      ensures !old(mazeReady) ==> mazeWidth == apiWidth && mazeHeight == apiHeight
      ensures x == old(x) && y == old(y) && steps == old(steps) && goalReached == old(goalReached)
      ensures !old(started) ==> Flooded(mazeWidth, mazeHeight, wallSet, dist, Goals())
      ensures old(started) ==>
        && mazeWidth == old(mazeWidth) && mazeHeight == old(mazeHeight) && wallSet == old(wallSet) && dist == old(dist)
        && unchanged(walls) && unchanged(distance) && unchanged(goalX) && unchanged(goalY)
    {
      if !started {
        Start(apiWidth, apiHeight);
      }
    }

    /**
     * `floodFill`, one call from the simulator. The first call sets up the
     * maze and floods it (`walls0` and `dist0` are the walls and distances
     * the call decides from: the stored ones on later calls, the flooded
     * set-up on the first). It always answers `IDLE`. At or after the goal
     * nothing moves or turns; elsewhere the mouse decides as in `Decision`
     * and moves as `MoveEffect` says, so it either stays or moves one cell
     * through a side with no recorded wall, counting the step.
     */
    method Step(apiWidth: int, apiHeight: int, front: bool, right: bool, left: bool, moveOk: bool)
      returns (action: Action, issued: seq<Command>, minNeighborDist: int, best: int,
               ghost reflooded: bool, ghost walls0: set<WallKey>, ghost dist0: map<Cell, int>)
      requires Valid() && (!mazeReady ==> Fits(apiWidth, apiHeight))
      modifies this`x, this`y, this`direction, this`steps, this`goalReached, this`mazeWidth, this`mazeHeight,
        this`mazeReady, this`started, this`wallSet, this`dist, walls, distance, queue, goalX, goalY
      ensures Valid() && started && action == IDLE
      ensures !old(mazeReady) ==> mazeWidth == apiWidth && mazeHeight == apiHeight
      ensures old(started) ==> walls0 == old(wallSet) && dist0 == old(dist)
      ensures !old(started) ==> Flooded(mazeWidth, mazeHeight, walls0, dist0, Goals())
      ensures Called(mazeWidth, mazeHeight, Goals(), front, right, left, moveOk,
                     old(goalReached), old(x), old(y), old(direction), old(steps), walls0, dist0,
                     goalReached, x, y, direction, steps, wallSet, dist, issued, minNeighborDist, best, reflooded)
      ensures old(started) && (old(goalReached) || old((x, y)) in Goals()) ==> unchanged(walls) && unchanged(distance)
      ensures || (x == old(x) && y == old(y) && steps == old(steps))
              || (&& (x, y) == Neighbor(old((x, y)), direction) && steps == old(steps) + 1
                  && OpenSide(mazeWidth, mazeHeight, wallSet, old((x, y)), direction))
    {
      Begin(apiWidth, apiHeight);
      walls0, dist0 := wallSet, dist;
      ghost var goals := Goals();
      assert (x, y) == old((x, y));
      action, issued, minNeighborDist, best, reflooded := Advance(front, right, left, moveOk);
      assert Goals() == goals;
    }

    /** `leftWallFollower` of this file is a stub: it answers `IDLE` and touches no state. */
    method LeftWallFollower() returns (action: Action)
      ensures action == IDLE
    {
      action := IDLE;
    }

    /** `rightWallFollower` of this file is a stub as well. */
    method RightWallFollower() returns (action: Action)
      ensures action == IDLE
    {
      action := IDLE;
    }
  }
}
