/**
 * The breadth-first flood of distances that the flood-fill solvers share:
 * goal cells start at 0, every other cell at the sentinel `INF`, and each
 * cell taken from the front of the queue lowers every open neighbour to
 * one more than its own distance. Walls are the set of recorded sides
 * `(x, y, d)`.
 */
module Flooding {
  import opened Grid
  import opened Search

  /** The distance the flood gives a cell before it is reached. */
  const INF: int := 9999

  /** Side `d` of `c` has no recorded wall and leads to a cell inside the maze. */
  predicate OpenSide(width: int, height: int, walls: set<WallKey>, c: Cell, d: Dir) {
    (c.0, c.1, d) !in walls && InBounds(width, height, Neighbor(c, d))
  }

  /** The first `k` open sides of `c` satisfy the flood's triangle inequality `dist[n] <= dist[c] + 1`. */
  predicate RelaxedUpTo(width: int, height: int, walls: set<WallKey>, dist: map<Cell, int>, c: Cell, k: int) {
    c in dist &&
    forall d: Dir :: d < k && OpenSide(width, height, walls, c, d) && Neighbor(c, d) in dist ==>
      dist[Neighbor(c, d)] <= dist[c] + 1
  }

  predicate Relaxed(width: int, height: int, walls: set<WallKey>, dist: map<Cell, int>, c: Cell) {
    RelaxedUpTo(width, height, walls, dist, c, 4)
  }

  lemma RelaxedAfterUpdate(width: int, height: int, walls: set<WallKey>, dist: map<Cell, int>,
                           c: Cell, k: int, m: Cell, v: int)
    requires m in dist && v <= dist[m] && c != m
    requires RelaxedUpTo(width, height, walls, dist, c, k)
    ensures RelaxedUpTo(width, height, walls, dist[m := v], c, k)
  {
  }

  /**
   * `c` was reached by the flood from a cell of `keys` with a smaller
   * distance, across a side of that cell with no recorded wall.
   */
  predicate HasDescent(keys: set<Cell>, walls: set<WallKey>, dist: map<Cell, int>, c: Cell) {
    c in dist &&
    exists e: Dir :: Neighbor(c, e) in keys && Neighbor(c, e) in dist
      && (Neighbor(c, e).0, Neighbor(c, e).1, Back(e)) !in walls && dist[Neighbor(c, e)] < dist[c]
  }

  lemma DescentAfterUpdate(keys: set<Cell>, walls: set<WallKey>, dist: map<Cell, int>, c: Cell, m: Cell, v: int)
    requires m in dist && v <= dist[m] && c != m
    requires HasDescent(keys, walls, dist, c)
    ensures HasDescent(keys, walls, dist[m := v], c)
  {
    var e: Dir :| Neighbor(c, e) in keys && Neighbor(c, e) in dist
      && (Neighbor(c, e).0, Neighbor(c, e).1, Back(e)) !in walls && dist[Neighbor(c, e)] < dist[c];
    assert dist[m := v][Neighbor(c, e)] < dist[m := v][c];
  }

  /** From `c` a run down the distances can move to an open neighbour with a smaller distance. */
  predicate OutDescent(width: int, height: int, walls: set<WallKey>, dist: map<Cell, int>, c: Cell) {
    c in dist &&
    exists e: Dir :: OpenSide(width, height, walls, c, e) && Neighbor(c, e) in dist && dist[Neighbor(c, e)] < dist[c]
  }

  /** The recorded walls agree on both sides of every inner side of the maze. */
  ghost predicate SymmetricWalls(width: int, height: int, walls: set<WallKey>) {
    forall x, y, d: Dir {:trigger (x, y, d) in walls, Neighbor((x, y), d)} ::
      InBounds(width, height, (x, y)) && InBounds(width, height, Neighbor((x, y), d)) ==>
      ((x, y, d) in walls <==> (x + DX(d), y + DY(d), Back(d)) in walls)
  }

  /**
   * When the recorded walls are symmetric and the goal block lies inside
   * the maze, the flood's descent through a neighbour can be walked the
   * other way: every non-goal cell the flood reached has a strictly
   * smaller open neighbour, so a run down the distances never gets stuck.
   */
  lemma DescentCanBeWalked(width: int, height: int, walls: set<WallKey>, keys: set<Cell>,
                           dist: map<Cell, int>, c: Cell)
    requires keys <= Cells(width, height)
    requires SymmetricWalls(width, height, walls)
    requires InBounds(width, height, c) && HasDescent(keys, walls, dist, c)
    ensures OutDescent(width, height, walls, dist, c)
  {
    var e: Dir :| Neighbor(c, e) in keys && Neighbor(c, e) in dist
      && (Neighbor(c, e).0, Neighbor(c, e).1, Back(e)) !in walls && dist[Neighbor(c, e)] < dist[c];
    var n := Neighbor(c, e);
    assert InBounds(width, height, n);
    NeighborBack(c, e);
    assert (c.0, c.1, e) !in walls;
    assert OpenSide(width, height, walls, c, e);
  }

  /** The cells the flood assigns: every cell of the maze and every goal cell. */
  function FloodKeys(width: int, height: int, goals: seq<Cell>): set<Cell> {
    Cells(width, height) + set g | g in goals
  }

  /** The loop invariant of the flood; `skip` is the cell whose sides are being relaxed. */
  ghost predicate FloodInv(width: int, height: int, walls: set<WallKey>, goals: seq<Cell>,
                           dist: map<Cell, int>, queue: seq<Cell>, skip: Option<Cell>)
  {
    var keys := FloodKeys(width, height, goals);
    && (forall c :: c in keys ==> c in dist && 0 <= dist[c] <= INF)
    && (forall i :: 0 <= i < |goals| ==> goals[i] in dist && dist[goals[i]] == 0)
    && (forall i :: 0 <= i < |queue| ==> queue[i] in keys)
    && (forall c {:trigger Relaxed(width, height, walls, dist, c)} ::
          c in keys && c !in queue && Some(c) != skip ==> Relaxed(width, height, walls, dist, c))
    && (forall c {:trigger HasDescent(keys, walls, dist, c)} ::
          c in Cells(width, height) && c !in goals && c in dist && dist[c] < INF ==> HasDescent(keys, walls, dist, c))
  }

  /** `a` and `b` have the same entries outside `keys`. */
  ghost predicate AgreeOutside(keys: set<Cell>, a: map<Cell, int>, b: map<Cell, int>) {
    forall c :: c !in keys ==> (c in a <==> c in b) && (c in a ==> a[c] == b[c])
  }

  lemma AgreeOutsideUpdate(keys: set<Cell>, a: map<Cell, int>, b: map<Cell, int>, n: Cell, v: int)
    requires AgreeOutside(keys, a, b) && n in keys
    ensures AgreeOutside(keys, a, b[n := v])
  {
  }

  /** After seeding: maze cells at `INF`, goal cells at 0 and queued. */
  lemma FloodStart(width: int, height: int, walls: set<WallKey>, goals: seq<Cell>, dist: map<Cell, int>)
    requires forall i :: 0 <= i < |goals| ==> goals[i] in dist && dist[goals[i]] == 0
    requires forall c :: InBounds(width, height, c) && c !in goals ==> c in dist && dist[c] == INF
    ensures FloodInv(width, height, walls, goals, dist, goals, None)
  {
    var keys := FloodKeys(width, height, goals);
    forall c | c in keys ensures c in dist && 0 <= dist[c] <= INF {
      if c !in goals {
        assert InBounds(width, height, c);
      } else {
        var i :| 0 <= i < |goals| && goals[i] == c;
      }
    }
  }

  lemma FloodPop(width: int, height: int, walls: set<WallKey>, goals: seq<Cell>, dist: map<Cell, int>, queue: seq<Cell>)
    requires FloodInv(width, height, walls, goals, dist, queue, None) && queue != []
    ensures FloodInv(width, height, walls, goals, dist, queue[1..], Some(queue[0]))
    ensures queue[0] in FloodKeys(width, height, goals) && queue[0] in dist && 0 <= dist[queue[0]]
  {
    assert forall c :: c in queue[1..] ==> c in queue;
    assert queue[0] in FloodKeys(width, height, goals);
  }

  lemma FloodFinish(width: int, height: int, walls: set<WallKey>, goals: seq<Cell>, dist: map<Cell, int>,
                    queue: seq<Cell>, cur: Cell)
    requires FloodInv(width, height, walls, goals, dist, queue, Some(cur))
    requires RelaxedUpTo(width, height, walls, dist, cur, 4)
    ensures FloodInv(width, height, walls, goals, dist, queue, None)
  {
  }

  /** Side `d` of `cur` is walled, leads outside, or already satisfies the triangle inequality. */
  lemma FloodSkip(width: int, height: int, walls: set<WallKey>, dist: map<Cell, int>, cur: Cell, d: Dir, n: Cell)
    requires RelaxedUpTo(width, height, walls, dist, cur, d)
    requires n == (cur.0 + DX(d), cur.1 + DY(d))
    requires !((cur.0, cur.1, d) !in walls && 0 <= n.0 < width && 0 <= n.1 < height && n in dist && dist[n] > dist[cur] + 1)
    ensures RelaxedUpTo(width, height, walls, dist, cur, d + 1)
  {
  }

  /** Side `d` of `cur` lowers its neighbour to `dist[cur] + 1`; the neighbour joins the queue. */
  lemma FloodLower(width: int, height: int, walls: set<WallKey>, goals: seq<Cell>, dist: map<Cell, int>,
                   queue: seq<Cell>, cur: Cell, d: Dir, n: Cell, v: int)
    requires FloodInv(width, height, walls, goals, dist, queue, Some(cur))
    requires cur in FloodKeys(width, height, goals)
    requires RelaxedUpTo(width, height, walls, dist, cur, d)
    requires n == (cur.0 + DX(d), cur.1 + DY(d)) && v == dist[cur] + 1
    requires (cur.0, cur.1, d) !in walls && 0 <= n.0 < width && 0 <= n.1 < height && n in dist && dist[n] > v
    ensures FloodInv(width, height, walls, goals, dist[n := v], queue + [n], Some(cur))
    ensures RelaxedUpTo(width, height, walls, dist[n := v], cur, d + 1)
    ensures dist[n := v][cur] == dist[cur]
    ensures Potential(Cells(width, height), dist[n := v], 0) < Potential(Cells(width, height), dist, 0)
  {
    var keys := FloodKeys(width, height, goals);
    var dist' := dist[n := v];
    var queue' := queue + [n];
    assert n == Neighbor(cur, d);
    NeighborsDistinct(cur, d, d);
    assert n in Cells(width, height);
    forall i | 0 <= i < |goals| ensures goals[i] != n {
      assert goals[i] in keys;
    }
    forall c | c in keys && c !in queue' && Some(c) != Some(cur)
      ensures Relaxed(width, height, walls, dist', c)
    {
      assert Relaxed(width, height, walls, dist, c);
      RelaxedAfterUpdate(width, height, walls, dist, c, 4, n, v);
    }
    RelaxedAfterUpdate(width, height, walls, dist, cur, d, n, v);
    LowerKeepsDescent(width, height, walls, goals, dist, queue, cur, d, n, v);
    forall i | 0 <= i < |queue'| ensures queue'[i] in keys {
      if i < |queue| {
        assert queue'[i] == queue[i];
      }
    }
    PotentialShrinks(Cells(width, height), dist, 0, n, v);
  }

  /** Lowering the neighbour `n` of `cur` to `dist[cur] + 1` keeps a descent from every reachable cell. */
  lemma LowerKeepsDescent(width: int, height: int, walls: set<WallKey>, goals: seq<Cell>, dist: map<Cell, int>,
                          queue: seq<Cell>, cur: Cell, d: Dir, n: Cell, v: int)
    requires FloodInv(width, height, walls, goals, dist, queue, Some(cur))
    requires cur in FloodKeys(width, height, goals)
    requires n == Neighbor(cur, d) && cur in dist && v == dist[cur] + 1
    requires (cur.0, cur.1, d) !in walls && InBounds(width, height, n) && n in dist && dist[n] > v
    ensures forall c {:trigger HasDescent(FloodKeys(width, height, goals), walls, dist[n := v], c)} ::
      c in Cells(width, height) && c !in goals && c in dist[n := v] && dist[n := v][c] < INF
      ==> HasDescent(FloodKeys(width, height, goals), walls, dist[n := v], c)
  {
    var keys := FloodKeys(width, height, goals);
    var dist' := dist[n := v];
    NeighborsDistinct(cur, d, d);
    NeighborBack(cur, d);
    forall c | c in Cells(width, height) && c !in goals && c in dist' && dist'[c] < INF
      ensures HasDescent(keys, walls, dist', c)
    {
      if c == n {
        assert Neighbor(n, Back(d)) == cur && Back(Back(d)) == d;
        assert dist'[Neighbor(n, Back(d))] < dist'[n];
      } else {
        assert HasDescent(keys, walls, dist, c);
        DescentAfterUpdate(keys, walls, dist, c, n, v);
      }
    }
  }

  /**
   * The breadth-first loop of `calculate_manhattan_distances` and of
   * `flood_fill_from_goals`: pop the front of the queue and lower every
   * open, in-bounds neighbour whose distance exceeds the popped cell's by
   * more than one, queueing it.
   */
  method Flood(width: int, height: int, walls: set<WallKey>, goals: seq<Cell>, dist0: map<Cell, int>, queue0: seq<Cell>)
    returns (dist: map<Cell, int>)
    requires FloodInv(width, height, walls, goals, dist0, queue0, None)
    ensures FloodInv(width, height, walls, goals, dist, [], None)
    ensures AgreeOutside(FloodKeys(width, height, goals), dist0, dist)
  {
    ghost var keys := FloodKeys(width, height, goals);
    dist := dist0;
    var queue := queue0;
    while queue != []
      invariant FloodInv(width, height, walls, goals, dist, queue, None)
      invariant AgreeOutside(keys, dist0, dist)
      decreases Potential(Cells(width, height), dist, 0), |queue|
    {
      FloodPop(width, height, walls, goals, dist, queue);
      var cur := queue[0];
      dist, queue := LowerNeighbors(width, height, walls, goals, dist0, dist, queue[1..], cur);
    }
  }

  /**
   * The inner loop of the flood fill: every open side of `cur` whose
   * neighbour is more than one step further away than `cur` gets that
   * neighbour lowered to one more than `cur` and queued. Afterwards `cur`
   * satisfies the triangle inequality on all four sides, and either nothing
   * changed or the potential of the distance map dropped.
   */
  method LowerNeighbors(width: int, height: int, walls: set<WallKey>, goals: seq<Cell>, ghost base: map<Cell, int>,
                        dist0: map<Cell, int>, queue0: seq<Cell>, cur: Cell)
    returns (dist: map<Cell, int>, queue: seq<Cell>)
    requires FloodInv(width, height, walls, goals, dist0, queue0, Some(cur))
    requires cur in FloodKeys(width, height, goals) && cur in dist0
    requires AgreeOutside(FloodKeys(width, height, goals), base, dist0)
    ensures FloodInv(width, height, walls, goals, dist, queue, None)
    ensures AgreeOutside(FloodKeys(width, height, goals), base, dist)
    ensures (dist == dist0 && queue == queue0)
      || Potential(Cells(width, height), dist, 0) < Potential(Cells(width, height), dist0, 0)
  {
    ghost var keys := FloodKeys(width, height, goals);
    dist, queue := dist0, queue0;
    var cd := dist[cur];
    for d := 0 to 4
      invariant FloodInv(width, height, walls, goals, dist, queue, Some(cur))
      invariant AgreeOutside(keys, base, dist)
      invariant cur in dist && dist[cur] == cd
      invariant RelaxedUpTo(width, height, walls, dist, cur, d)
      invariant (dist == dist0 && queue == queue0)
        || Potential(Cells(width, height), dist, 0) < Potential(Cells(width, height), dist0, 0)
    {
      var n := (cur.0 + DX(d), cur.1 + DY(d));
      if (cur.0, cur.1, d) !in walls && 0 <= n.0 < width && 0 <= n.1 < height && dist[n] > cd + 1 {
        FloodLower(width, height, walls, goals, dist, queue, cur, d, n, cd + 1);
        AgreeOutsideUpdate(keys, base, dist, n, cd + 1);
        dist := dist[n := cd + 1];
        queue := queue + [n];
      } else {
        FloodSkip(width, height, walls, dist, cur, d, n);
      }
    }
    FloodFinish(width, height, walls, goals, dist, queue, cur);
  }

  /**
   * The distance grid right after a flood from `goals` over `walls`: every
   * cell of the maze holds a value in `0..INF`, the goals inside the maze
   * hold 0, no open side joins two cells whose distances differ by more
   * than one, and every other cell the flood reached has a neighbour with
   * a smaller distance whose side toward it is open.
   */
  ghost predicate Flooded(width: int, height: int, walls: set<WallKey>, dist: map<Cell, int>, goals: seq<Cell>) {
    && (forall c :: c in dist <==> InBounds(width, height, c))
    && (forall c :: InBounds(width, height, c) ==> 0 <= dist[c] <= INF)
    && (forall i :: 0 <= i < |goals| && InBounds(width, height, goals[i]) ==> dist[goals[i]] == 0)
    && (forall c :: InBounds(width, height, c) ==> Relaxed(width, height, walls, dist, c))
    && (forall c :: InBounds(width, height, c) && c !in goals && dist[c] < INF ==>
          HasDescent(Cells(width, height), walls, dist, c))
  }

  /**
   * A flood whose goals all lie inside the maze and whose map covers
   * exactly the maze's cells, run until its queue is empty, leaves a
   * flooded map.
   */
  lemma FloodedAtEnd(width: int, height: int, walls: set<WallKey>, goals: seq<Cell>, dist: map<Cell, int>)
    requires forall i :: 0 <= i < |goals| ==> InBounds(width, height, goals[i])
    requires forall c :: c in dist <==> InBounds(width, height, c)
    requires FloodInv(width, height, walls, goals, dist, [], None)
    ensures Flooded(width, height, walls, dist, goals)
  {
    assert FloodKeys(width, height, goals) == Cells(width, height);
    forall c | InBounds(width, height, c) ensures Relaxed(width, height, walls, dist, c) {
      assert c in Cells(width, height);
    }
    forall c | InBounds(width, height, c) && c !in goals && dist[c] < INF
      ensures HasDescent(Cells(width, height), walls, dist, c)
    {
      assert c in Cells(width, height);
    }
  }

  /**
   * One half of the uniqueness of the flood: a cell that one flooded map
   * reaches at distance `v` has distance at most `v` in any other map
   * flooded from the same goals over the same walls.
   */
  lemma {:induction false} FloodBelow(width: int, height: int, walls: set<WallKey>, goals: seq<Cell>,
                                      d1: map<Cell, int>, d2: map<Cell, int>, c: Cell)
    requires Flooded(width, height, walls, d1, goals) && Flooded(width, height, walls, d2, goals)
    requires InBounds(width, height, c) && d1[c] < INF
    ensures d2[c] <= d1[c]
    decreases d1[c]
  {
    if c in goals {
      var i :| 0 <= i < |goals| && goals[i] == c;
      assert d2[goals[i]] == 0 && d1[goals[i]] >= 0;
    } else {
      assert HasDescent(Cells(width, height), walls, d1, c);
      var e: Dir :| Neighbor(c, e) in Cells(width, height) && Neighbor(c, e) in d1
        && (Neighbor(c, e).0, Neighbor(c, e).1, Back(e)) !in walls && d1[Neighbor(c, e)] < d1[c];
      var n := Neighbor(c, e);
      assert InBounds(width, height, n);
      FloodBelow(width, height, walls, goals, d1, d2, n);
      NeighborBack(c, e);
      assert OpenSide(width, height, walls, n, Back(e));
      assert Relaxed(width, height, walls, d2, n);
    }
  }

  /**
   * The flood is determined by the walls and the goals: two maps flooded
   * from the same goals over the same walls are equal, so flooding again
   * without a new wall changes nothing.
   */
  lemma FloodUnique(width: int, height: int, walls: set<WallKey>, goals: seq<Cell>, d1: map<Cell, int>, d2: map<Cell, int>)
    requires Flooded(width, height, walls, d1, goals) && Flooded(width, height, walls, d2, goals)
    ensures d1 == d2
  {
    forall c | InBounds(width, height, c) ensures d1[c] == d2[c] {
      if d1[c] < INF {
        FloodBelow(width, height, walls, goals, d1, d2, c);
      }
      if d2[c] < INF {
        FloodBelow(width, height, walls, goals, d2, d1, c);
      }
    }
    assert d1.Keys == d2.Keys;
  }
}
