/**
 * The flood-fill solver of `FloodFill.py`: a wall list `[N, E, S, W]` per
 * cell with the maze boundary pre-installed and every sensed wall mirrored
 * onto the neighbouring cell, a distance grid flooded from the goals, a
 * greedy exploration run toward the centre that refloods when the
 * distances around the robot are inconsistent, and a return run that
 * follows distances from the start cell back down to it.
 */
module FloodFillPy {
  import opened Grid
  import opened Search
  import opened Flooding

  /** The solver's `walls` dictionary: cell to its wall list `[N, E, S, W]`. */
  type WallMap = map<Cell, seq<bool>>

  /** Side `d` of `c` is marked as a wall. */
  predicate Walled(walls: WallMap, c: Cell, d: Dir) {
    c in walls && d < |walls[c]| && walls[c][d]
  }

  /** A wall list for every cell of the maze, four entries each, and no other key. */
  ghost predicate WellFormed(width: int, height: int, walls: WallMap) {
    && (forall c :: c in walls <==> InBounds(width, height, c))
    && (forall c :: c in walls ==> |walls[c]| == 4)
  }

  /**
   * The wall map as the set of walled sides `(x, y, d)`, the form in which
   * the shared flood reads it.
   */
  function WallSet(walls: WallMap): (r: set<WallKey>)
    ensures forall x, y, d: Dir :: (x, y, d) in r <==> Walled(walls, (x, y), d)
    ensures forall k :: k in r ==> 0 <= k.2 < 4
  {
    set c, d | c in walls && 0 <= d < 4 && d < |walls[c]| && walls[c][d] :: (c.0, c.1, d)
  }

  /**
   * The invariant the wall map keeps: every side facing out of the maze is
   * walled, and an inner side is marked from both of its cells or from
   * neither.
   */
  ghost predicate Consistent(width: int, height: int, walls: WallMap) {
    && WellFormed(width, height, walls)
    && (forall c, d: Dir {:trigger Walled(walls, c, d), Neighbor(c, d)} ::
          InBounds(width, height, c) && !InBounds(width, height, Neighbor(c, d)) ==> Walled(walls, c, d))
    && (forall c, d: Dir {:trigger Walled(walls, c, d), Neighbor(c, d)} ::
          InBounds(width, height, c) && InBounds(width, height, Neighbor(c, d)) ==>
            (Walled(walls, c, d) <==> Walled(walls, Neighbor(c, d), Back(d))))
  }

  /** A consistent wall map gives the shared flood symmetric walls. */
  lemma ConsistentSymmetric(width: int, height: int, walls: WallMap)
    requires Consistent(width, height, walls)
    ensures SymmetricWalls(width, height, WallSet(walls))
  {
    forall x, y, d: Dir | InBounds(width, height, (x, y)) && InBounds(width, height, Neighbor((x, y), d))
      ensures (x, y, d) in WallSet(walls) <==> (x + DX(d), y + DY(d), Back(d)) in WallSet(walls)
    {
      MirrorInSet(width, height, walls, x, y, d);
    }
  }

  lemma MirrorInSet(width: int, height: int, walls: WallMap, x: int, y: int, d: Dir)
    requires Consistent(width, height, walls)
    requires InBounds(width, height, (x, y)) && InBounds(width, height, Neighbor((x, y), d))
    ensures (x, y, d) in WallSet(walls) <==> (x + DX(d), y + DY(d), Back(d)) in WallSet(walls)
  {
    var n := Neighbor((x, y), d);
    assert Walled(walls, (x, y), d) <==> Walled(walls, n, Back(d));
  }

  /** An open side of a consistent map leads to a cell inside the maze. */
  lemma ConsistentOpenSide(width: int, height: int, walls: WallMap, c: Cell, d: Dir)
    requires Consistent(width, height, walls) && InBounds(width, height, c)
    ensures OpenSide(width, height, WallSet(walls), c, d) <==> !Walled(walls, c, d)
  {
    if !InBounds(width, height, Neighbor(c, d)) {
      assert Walled(walls, c, d);
    }
  }

  /**
   * `add_wall(x, y, d)`: nothing for a cell outside the maze; otherwise side
   * `d` of `(x, y)` is marked and, when the neighbour across it is inside
   * the maze, the neighbour's opposite side too.
   */
  function WithWall(width: int, height: int, walls: WallMap, x: int, y: int, d: Dir): (r: WallMap)
    requires WellFormed(width, height, walls)
    ensures WellFormed(width, height, r)
    ensures !InBounds(width, height, (x, y)) ==> r == walls
    ensures InBounds(width, height, (x, y)) ==> Walled(r, (x, y), d)
    ensures InBounds(width, height, (x, y)) && InBounds(width, height, Neighbor((x, y), d)) ==>
      Walled(r, Neighbor((x, y), d), Back(d))
    ensures forall c, e: Dir :: Walled(walls, c, e) ==> Walled(r, c, e)
    ensures forall c, e: Dir :: Walled(r, c, e) && !Walled(walls, c, e) ==>
      (c == (x, y) && e == d) || (c == Neighbor((x, y), d) && e == Back(d))
  {
    if !(0 <= x < width && 0 <= y < height) then walls
    else
      var marked := walls[(x, y) := walls[(x, y)][d := true]];
      var n := (x + DX(d), y + DY(d));
      if 0 <= n.0 < width && 0 <= n.1 < height then marked[n := marked[n][Back(d) := true]] else marked
  }

  /** Marking a wall twice is the same as marking it once. */
  lemma WithWallIdempotent(width: int, height: int, walls: WallMap, x: int, y: int, d: Dir)
    requires WellFormed(width, height, walls)
    ensures WithWall(width, height, WithWall(width, height, walls, x, y, d), x, y, d)
      == WithWall(width, height, walls, x, y, d)
  {
    var once := WithWall(width, height, walls, x, y, d);
    var twice := WithWall(width, height, once, x, y, d);
    if InBounds(width, height, (x, y)) {
      assert twice[(x, y)] == once[(x, y)];
      var n := Neighbor((x, y), d);
      if InBounds(width, height, n) {
        NeighborsDistinct((x, y), d, d);
        assert twice[n] == once[n];
      }
      assert twice.Keys == once.Keys;
    }
  }

  /** Marking a wall keeps the boundary walled and both sides of every inner side in agreement. */
  lemma WithWallConsistent(width: int, height: int, walls: WallMap, x: int, y: int, d: Dir)
    requires Consistent(width, height, walls)
    ensures Consistent(width, height, WithWall(width, height, walls, x, y, d))
  {
    var r := WithWall(width, height, walls, x, y, d);
    forall c, e: Dir | InBounds(width, height, c) && InBounds(width, height, Neighbor(c, e))
      ensures Walled(r, c, e) <==> Walled(r, Neighbor(c, e), Back(e))
    {
      NeighborBack(c, e);
      assert Walled(walls, c, e) <==> Walled(walls, Neighbor(c, e), Back(e));
      if Walled(r, c, e) && !Walled(walls, c, e) {
        if c != (x, y) {
          NeighborBack((x, y), d);
        }
      }
      if Walled(r, Neighbor(c, e), Back(e)) && !Walled(walls, Neighbor(c, e), Back(e)) {
        if Neighbor(c, e) == (x, y) {
          assert Back(e) == d;
          assert Neighbor((x, y), d) == c;
        } else {
          assert Back(e) == Back(d);
          assert e == d;
        }
      }
    }
  }

  /**
   * `scan_walls` with the three sensor readings: a wall ahead marks side
   * `direction`, one to the right side `(direction + 1) % 4` and one to the
   * left side `(direction - 1) % 4`, each through `add_wall`.
   */
  function ScanWith(width: int, height: int, walls: WallMap, x: int, y: int, direction: Dir,
                    front: bool, right: bool, left: bool): (r: WallMap)
    requires WellFormed(width, height, walls)
    ensures WellFormed(width, height, r)
    ensures forall c, e: Dir :: Walled(walls, c, e) ==> Walled(r, c, e)
  {
    var afterFront := if front then WithWall(width, height, walls, x, y, direction) else walls;
    var afterRight := if right then WithWall(width, height, afterFront, x, y, Right(direction)) else afterFront;
    if left then WithWall(width, height, afterRight, x, y, Left(direction)) else afterRight
  }

  /**
   * A scan changes only the sides ahead, to the right and to the left of
   * the robot's cell and their mirrors on the neighbouring cells.
   */
  lemma ScanTouches(width: int, height: int, walls: WallMap, x: int, y: int, direction: Dir,
                    front: bool, right: bool, left: bool, c: Cell, e: Dir)
    requires WellFormed(width, height, walls)
    requires Walled(ScanWith(width, height, walls, x, y, direction, front, right, left), c, e)
    requires !Walled(walls, c, e)
    ensures exists s: Dir ::
      && (s == direction || s == Right(direction) || s == Left(direction))
      && ((c == (x, y) && e == s) || (c == Neighbor((x, y), s) && e == Back(s)))
  {
    var afterFront := if front then WithWall(width, height, walls, x, y, direction) else walls;
    var afterRight := if right then WithWall(width, height, afterFront, x, y, Right(direction)) else afterFront;
    if Walled(afterFront, c, e) {
      assert direction == direction;
    } else if Walled(afterRight, c, e) {
      assert Right(direction) == Right(direction);
    } else {
      assert Left(direction) == Left(direction);
    }
  }

  lemma ScanConsistent(width: int, height: int, walls: WallMap, x: int, y: int, direction: Dir,
                       front: bool, right: bool, left: bool)
    requires Consistent(width, height, walls)
    ensures Consistent(width, height, ScanWith(width, height, walls, x, y, direction, front, right, left))
  {
    var afterFront := if front then WithWall(width, height, walls, x, y, direction) else walls;
    if front {
      WithWallConsistent(width, height, walls, x, y, direction);
    }
    var afterRight := if right then WithWall(width, height, afterFront, x, y, Right(direction)) else afterFront;
    if right {
      WithWallConsistent(width, height, afterFront, x, y, Right(direction));
    }
    if left {
      WithWallConsistent(width, height, afterRight, x, y, Left(direction));
    }
  }

  /**
   * A side of the robot's cell that is already marked stays as it is: on a
   * consistent map its mirror is marked too, so the scan adds nothing.
   */
  lemma WithWallMarked(width: int, height: int, walls: WallMap, x: int, y: int, d: Dir)
    requires Consistent(width, height, walls) && Walled(walls, (x, y), d)
    ensures WithWall(width, height, walls, x, y, d) == walls
  {
    var r := WithWall(width, height, walls, x, y, d);
    assert InBounds(width, height, (x, y));
    assert walls[(x, y)][d := true] == walls[(x, y)];
    var n := Neighbor((x, y), d);
    if InBounds(width, height, n) {
      assert Walled(walls, n, Back(d));
      assert walls[n][Back(d) := true] == walls[n];
    }
  }

  /**
   * When a scan leaves the wall list of the robot's cell as it was, it
   * leaves the whole map as it was: the snapshot comparison of
   * `return_to_start_via_floodfill` misses no change.
   */
  lemma ScanUnchangedHere(width: int, height: int, walls: WallMap, x: int, y: int, direction: Dir,
                          front: bool, right: bool, left: bool)
    requires Consistent(width, height, walls) && InBounds(width, height, (x, y))
    requires ScanWith(width, height, walls, x, y, direction, front, right, left)[(x, y)] == walls[(x, y)]
    ensures ScanWith(width, height, walls, x, y, direction, front, right, left) == walls
  {
    var r := ScanWith(width, height, walls, x, y, direction, front, right, left);
    if front {
      assert Walled(r, (x, y), direction);
      WithWallMarked(width, height, walls, x, y, direction);
    }
    if right {
      var afterFront := if front then WithWall(width, height, walls, x, y, direction) else walls;
      assert afterFront == walls;
      WithWallMarked(width, height, walls, x, y, Right(direction));
    }
    if left {
      WithWallMarked(width, height, walls, x, y, Left(direction));
    }
  }

  /** A wall map whose marked sides are exactly the boundary is consistent. */
  lemma BoundaryConsistent(width: int, height: int, walls: WallMap)
    requires WellFormed(width, height, walls)
    requires forall c, d: Dir :: InBounds(width, height, c) ==> (Walled(walls, c, d) <==> OnBoundary(width, height, c, d))
    ensures Consistent(width, height, walls)
  {
    forall c, d: Dir | InBounds(width, height, c)
      ensures !InBounds(width, height, Neighbor(c, d)) ==> Walled(walls, c, d)
      ensures InBounds(width, height, Neighbor(c, d)) ==> (Walled(walls, c, d) <==> Walled(walls, Neighbor(c, d), Back(d)))
    {
      OnBoundaryOutside(width, height, c, d);
      if InBounds(width, height, Neighbor(c, d)) {
        OnBoundaryOutside(width, height, Neighbor(c, d), Back(d));
        NeighborBack(c, d);
      }
    }
  }

  /**
   * The wall lists of `__init__`: every cell of the maze starts with four
   * unmarked sides, then the west side of column 0, the east side of the
   * last column, the south side of row 0 and the north side of the last
   * row are marked. A maze with rows but no columns, or the reverse, would
   * index a missing cell.
   */
  method InitialWalls(width: int, height: int) returns (walls: WallMap)
    requires (width > 0) == (height > 0)
    ensures Consistent(width, height, walls)
    ensures forall c, d: Dir :: InBounds(width, height, c) ==>
      (Walled(walls, c, d) <==> OnBoundary(width, height, c, d))
  {
    walls := map[];
    var yy := 0;
    while yy < height
      invariant 0 <= yy && (height > 0 ==> yy <= height)
      invariant forall c :: c in walls <==> InBounds(width, yy, c)
      invariant forall c :: c in walls ==> walls[c] == [false, false, false, false]
    {
      var xx := 0;
      while xx < width
        invariant 0 <= xx && (width > 0 ==> xx <= width)
        invariant forall c :: c in walls <==> InBounds(width, yy, c) || (c.1 == yy && 0 <= c.0 < xx)
        invariant forall c :: c in walls ==> walls[c] == [false, false, false, false]
      {
        walls := walls[(xx, yy) := [false, false, false, false]];
        xx := xx + 1;
      }
      yy := yy + 1;
    }
    walls := MarkSides(width, height, walls);
    BoundaryConsistent(width, height, walls);
  }

  /** The boundary loops of `__init__`, on wall lists that are all unmarked. */
  method MarkSides(width: int, height: int, walls0: WallMap) returns (walls: WallMap)
    requires (width > 0) == (height > 0)
    requires forall c :: c in walls0 <==> InBounds(width, height, c)
    requires forall c :: c in walls0 ==> walls0[c] == [false, false, false, false]
    ensures WellFormed(width, height, walls)
    ensures forall c, d: Dir :: InBounds(width, height, c) ==>
      (Walled(walls, c, d) <==> OnBoundary(width, height, c, d))
  {
    walls := MarkWestEast(width, height, walls0);
    walls := MarkSouthNorth(width, height, walls);
    forall c, d: Dir | InBounds(width, height, c)
      ensures Walled(walls, c, d) <==> OnBoundary(width, height, c, d)
    {
      assert walls[c] == SidesUpTo(width, height, c, height, width);
    }
  }

  /** The first boundary loop: the west side of column 0 and the east side of the last column, row by row. */
  method MarkWestEast(width: int, height: int, walls0: WallMap) returns (walls: WallMap)
    requires (width > 0) == (height > 0)
    requires forall c :: c in walls0 <==> InBounds(width, height, c)
    requires forall c :: c in walls0 ==> walls0[c] == [false, false, false, false]
    ensures forall c :: c in walls <==> InBounds(width, height, c)
    ensures forall c :: c in walls ==> walls[c] == SidesUpTo(width, height, c, height, 0)
  {
    walls := walls0;
    var yy := 0;
    while yy < height
      invariant 0 <= yy && (yy <= height || yy == 0)
      invariant forall c :: c in walls <==> InBounds(width, height, c)
      invariant forall c :: c in walls ==> walls[c] == SidesUpTo(width, height, c, yy, 0)
    {
      walls := walls[(0, yy) := walls[(0, yy)][3 := true]];
      walls := walls[(width - 1, yy) := walls[(width - 1, yy)][1 := true]];
      yy := yy + 1;
    }
  }

  /** The second boundary loop: the south side of row 0 and the north side of the last row, column by column. */
  method MarkSouthNorth(width: int, height: int, walls0: WallMap) returns (walls: WallMap)
    requires (width > 0) == (height > 0)
    requires forall c :: c in walls0 <==> InBounds(width, height, c)
    requires forall c :: c in walls0 ==> walls0[c] == SidesUpTo(width, height, c, height, 0)
    ensures forall c :: c in walls <==> InBounds(width, height, c)
    ensures forall c :: c in walls ==> walls[c] == SidesUpTo(width, height, c, height, width)
  {
    walls := walls0;
    var xx := 0;
    while xx < width
      invariant 0 <= xx && (xx <= width || xx == 0)
      invariant forall c :: c in walls <==> InBounds(width, height, c)
      invariant forall c :: c in walls ==> walls[c] == SidesUpTo(width, height, c, height, xx)
    {
      walls := walls[(xx, 0) := walls[(xx, 0)][2 := true]];
      walls := walls[(xx, height - 1) := walls[(xx, height - 1)][0 := true]];
      xx := xx + 1;
    }
  }

  /**
   * The goal cells of `__init__`, `(cx + i, cy + j)` for `i` and then `j`
   * in `[0, -1]`, with `cx = width // 2` and `cy = height // 2`.
   */
  function GoalCells(width: int, height: int): (r: seq<Cell>)
    ensures |r| == 4
    ensures forall c :: c in r <==> c in CentreBlock(width / 2, height / 2)
    ensures r[0] == (width / 2, height / 2)
  {
    var cx, cy := width / 2, height / 2;
    [(cx, cy), (cx, cy - 1), (cx - 1, cy), (cx - 1, cy - 1)]
  }

  /** Python's floor division `//` by 2 is Dafny's `/`, both rounding down. */
  lemma FloorHalf(n: int)
    ensures 2 * (n / 2) <= n < 2 * (n / 2) + 2
  {
  }

  /** The distance grid of `__init__`: `INF` at every cell of the maze. */
  function Unreached(width: int, height: int): (r: map<Cell, int>)
    ensures forall c :: c in r <==> InBounds(width, height, c)
    ensures forall c :: c in r ==> r[c] == INF
  {
    map c | c in Cells(width, height) :: INF
  }

  /**
   * The set-up of `flood_fill_from_goals`: every cell to `INF`, then every
   * goal inside the maze to 0 and queued in order; goals outside the maze
   * are skipped.
   */
  method ResetAndSeed(width: int, height: int, goals: seq<Cell>, dist0: map<Cell, int>)
    returns (dist: map<Cell, int>, queue: seq<Cell>)
    requires forall c :: c in dist0 <==> InBounds(width, height, c)
    ensures forall c :: c in dist <==> InBounds(width, height, c)
    ensures forall i :: 0 <= i < |queue| ==> InBounds(width, height, queue[i]) && queue[i] in goals && dist[queue[i]] == 0
    ensures forall i :: 0 <= i < |goals| && InBounds(width, height, goals[i]) ==> goals[i] in queue
    ensures forall c :: InBounds(width, height, c) && c !in queue ==> dist[c] == INF
  {
    dist := dist0;
    var yy := 0;
    while yy < height
      invariant 0 <= yy && (yy <= height || yy == 0)
      invariant forall c :: c in dist <==> InBounds(width, height, c)
      invariant forall c :: InBounds(width, yy, c) ==> dist[c] == INF
    {
      var xx := 0;
      while xx < width
        invariant 0 <= xx && (xx <= width || xx == 0)
        invariant forall c :: c in dist <==> InBounds(width, height, c)
        invariant forall c :: InBounds(width, yy, c) ==> dist[c] == INF
        invariant forall c: Cell :: c.1 == yy && 0 <= c.0 < xx ==> dist[c] == INF
      {
        dist := dist[(xx, yy) := INF];
        xx := xx + 1;
      }
      yy := yy + 1;
    }
    queue := [];
    for i := 0 to |goals|
      invariant forall c :: c in dist <==> InBounds(width, height, c)
      invariant forall j :: 0 <= j < |queue| ==> InBounds(width, height, queue[j]) && queue[j] in goals && dist[queue[j]] == 0
      invariant forall j :: 0 <= j < i && InBounds(width, height, goals[j]) ==> goals[j] in queue
      invariant forall c :: InBounds(width, height, c) && c !in queue ==> dist[c] == INF
    {
      var g := goals[i];
      if 0 <= g.0 < width && 0 <= g.1 < height {
        dist := dist[g := 0];
        queue := queue + [g];
      }
    }
  }

  /**
   * `flood_fill_from_goals` on the values it reads: the breadth-first
   * flood over the marked sides, from the goals inside the maze.
   */
  method FloodFrom(width: int, height: int, walls: WallMap, goals: seq<Cell>, dist0: map<Cell, int>)
    returns (dist: map<Cell, int>)
    requires forall c :: c in dist0 <==> InBounds(width, height, c)
    ensures Flooded(width, height, WallSet(walls), dist, goals)
  {
    var queue;
    dist, queue := ResetAndSeed(width, height, goals, dist0);
    var blocked := WallSet(walls);
    assert FloodKeys(width, height, queue) == Cells(width, height);
    FloodStart(width, height, blocked, queue, dist);
    ghost var seeded := dist;
    dist := Flood(width, height, blocked, queue, dist, queue);
    FloodedFromInv(width, height, walls, goals, queue, seeded, dist);
  }

  lemma FloodedFromInv(width: int, height: int, walls: WallMap, goals: seq<Cell>, queue: seq<Cell>,
                       seeded: map<Cell, int>, dist: map<Cell, int>)
    requires forall i :: 0 <= i < |queue| ==> InBounds(width, height, queue[i]) && queue[i] in goals
    requires forall i :: 0 <= i < |goals| && InBounds(width, height, goals[i]) ==> goals[i] in queue
    requires forall c :: c in seeded <==> InBounds(width, height, c)
    requires FloodInv(width, height, WallSet(walls), queue, dist, [], None)
    requires AgreeOutside(FloodKeys(width, height, queue), seeded, dist)
    ensures Flooded(width, height, WallSet(walls), dist, goals)
  {
    var blocked := WallSet(walls);
    assert FloodKeys(width, height, queue) == Cells(width, height);
    forall i | 0 <= i < |goals| && InBounds(width, height, goals[i]) ensures dist[goals[i]] == 0 {
      var j :| 0 <= j < |queue| && queue[j] == goals[i];
    }
    forall c | InBounds(width, height, c) ensures Relaxed(width, height, blocked, dist, c) {
      assert c in Cells(width, height);
    }
    forall c | InBounds(width, height, c) && c !in goals && dist[c] < INF
      ensures HasDescent(Cells(width, height), blocked, dist, c)
    {
      assert c in Cells(width, height) && c !in queue;
    }
  }

  /** Side `d` of `c` has no marked wall and leads to a cell of the maze. */
  predicate Open(width: int, height: int, walls: WallMap, c: Cell, d: Dir) {
    !Walled(walls, c, d) && InBounds(width, height, Neighbor(c, d))
  }

  lemma OpenIsOpenSide(width: int, height: int, walls: WallMap, c: Cell, d: Dir)
    ensures Open(width, height, walls, c, d) <==> OpenSide(width, height, WallSet(walls), c, d)
  {
    assert (c.0, c.1) == c;
  }

  /** On a consistent map, the flooded distances of two cells joined by an open side differ by at most one. */
  lemma FloodedAdjacent(width: int, height: int, walls: WallMap, goals: seq<Cell>, dist: map<Cell, int>, c: Cell, d: Dir)
    requires Consistent(width, height, walls) && Flooded(width, height, WallSet(walls), dist, goals)
    requires InBounds(width, height, c) && Open(width, height, walls, c, d)
    ensures dist[c] - 1 <= dist[Neighbor(c, d)] <= dist[c] + 1
  {
    var n := Neighbor(c, d);
    OpenIsOpenSide(width, height, walls, c, d);
    assert Relaxed(width, height, WallSet(walls), dist, c);
    NeighborBack(c, d);
    assert Walled(walls, c, d) <==> Walled(walls, n, Back(d));
    OpenIsOpenSide(width, height, walls, n, Back(d));
    assert Relaxed(width, height, WallSet(walls), dist, n);
  }

  /**
   * On a consistent map, a cell the flood reached that is not a goal has
   * an open side to a neighbour exactly one closer.
   */
  lemma DescentIsOneLess(width: int, height: int, walls: WallMap, goals: seq<Cell>, dist: map<Cell, int>, c: Cell)
    returns (d: Dir)
    requires Consistent(width, height, walls) && Flooded(width, height, WallSet(walls), dist, goals)
    requires InBounds(width, height, c) && c !in goals && dist[c] < INF
    ensures Open(width, height, walls, c, d) && dist[Neighbor(c, d)] == dist[c] - 1
  {
    assert HasDescent(Cells(width, height), WallSet(walls), dist, c);
    var e: Dir :| Neighbor(c, e) in Cells(width, height) && Neighbor(c, e) in dist
      && (Neighbor(c, e).0, Neighbor(c, e).1, Back(e)) !in WallSet(walls) && dist[Neighbor(c, e)] < dist[c];
    var n := Neighbor(c, e);
    assert InBounds(width, height, n);
    assert !Walled(walls, n, Back(e));
    assert Walled(walls, c, e) <==> Walled(walls, n, Back(e));
    FloodedAdjacent(width, height, walls, goals, dist, c, e);
    d := e;
  }

  /** Python's `min` of a non-empty list. */
  function MinOf(s: seq<int>): (r: int)
    requires |s| > 0
    ensures r in s && forall v :: v in s ==> r <= v
  {
    if |s| == 1 then s[0]
    else
      var m := MinOf(s[1..]);
      assert forall v :: v in s[1..] ==> v in s;
      assert forall v :: v in s ==> v == s[0] || v in s[1..];
      if s[0] <= m then s[0] else m
  }

  /**
   * The `accessible` list of `explore_to_goal`: the distances of the
   * neighbours behind the open sides of `(x, y)`, in the order N, E, S, W.
   */
  method Accessible(width: int, height: int, walls: WallMap, dist: map<Cell, int>, x: int, y: int)
    returns (acc: seq<int>)
    requires (x, y) in walls && |walls[(x, y)]| == 4
    requires forall c :: InBounds(width, height, c) ==> c in dist
    ensures forall v :: v in acc <==>
      exists d: Dir :: Open(width, height, walls, (x, y), d) && dist[Neighbor((x, y), d)] == v
  {
    acc := [];
    for i := 0 to 4
      invariant forall v :: v in acc <==>
        exists d: Dir :: d < i && Open(width, height, walls, (x, y), d) && dist[Neighbor((x, y), d)] == v
    {
      var d: Dir := i;
      ghost var before := acc;
      if !walls[(x, y)][d] {
        var nx, ny := x + DX(d), y + DY(d);
        assert (nx, ny) == Neighbor((x, y), d);
        if 0 <= nx < width && 0 <= ny < height {
          acc := acc + [dist[(nx, ny)]];
        }
      }
      assert Open(width, height, walls, (x, y), d) ==> acc == before + [dist[Neighbor((x, y), d)]];
      assert !Open(width, height, walls, (x, y), d) ==> acc == before;
    }
  }

  /** The reflood test of `explore_to_goal`: some side is open and the cell is not one more than its nearest open neighbour. */
  predicate NeedsReflood(acc: seq<int>, cur: int) {
    |acc| > 0 && cur != MinOf(acc) + 1
  }

  /**
   * The distances around `c` are as a flood leaves them: no open
   * neighbour is more than one closer, and one is exactly one closer.
   */
  predicate Settled(width: int, height: int, walls: WallMap, dist: map<Cell, int>, c: Cell) {
    && c in dist
    && (forall d: Dir :: Open(width, height, walls, c, d) && Neighbor(c, d) in dist ==> dist[c] - 1 <= dist[Neighbor(c, d)])
    && (exists d: Dir :: Open(width, height, walls, c, d) && Neighbor(c, d) in dist && dist[Neighbor(c, d)] == dist[c] - 1)
  }

  /** The reflood test fires exactly when `c` has an open side and its distances are not settled. */
  lemma RefloodTest(width: int, height: int, walls: WallMap, dist: map<Cell, int>, c: Cell, acc: seq<int>)
    requires c in dist && forall n :: InBounds(width, height, n) ==> n in dist
    requires forall v :: v in acc <==>
      exists d: Dir :: Open(width, height, walls, c, d) && dist[Neighbor(c, d)] == v
    ensures NeedsReflood(acc, dist[c]) <==>
      (exists d: Dir :: Open(width, height, walls, c, d)) && !Settled(width, height, walls, dist, c)
  {
    if exists d: Dir :: Open(width, height, walls, c, d) {
      var d: Dir :| Open(width, height, walls, c, d);
      assert exists e: Dir :: Open(width, height, walls, c, e) && dist[Neighbor(c, e)] == dist[Neighbor(c, d)];
      assert dist[Neighbor(c, d)] in acc;
      var m := MinOf(acc);
      var e: Dir :| Open(width, height, walls, c, e) && dist[Neighbor(c, e)] == m;
      if Settled(width, height, walls, dist, c) {
        var f: Dir :| Open(width, height, walls, c, f) && Neighbor(c, f) in dist && dist[Neighbor(c, f)] == dist[c] - 1;
        assert dist[Neighbor(c, f)] in acc;
      }
      if dist[c] == m + 1 {
        forall f: Dir | Open(width, height, walls, c, f) ensures dist[c] - 1 <= dist[Neighbor(c, f)] {
          assert dist[Neighbor(c, f)] in acc;
        }
        assert Open(width, height, walls, c, e) && Neighbor(c, e) in dist && dist[Neighbor(c, e)] == dist[c] - 1;
      }
    } else {
      if |acc| > 0 {
        assert acc[0] in acc;
      }
    }
  }

  /**
   * Right after a flood on a consistent map, every reached cell that is
   * not a goal is settled, so the reflood test stays quiet there.
   */
  lemma FreshFloodSettled(width: int, height: int, walls: WallMap, goals: seq<Cell>, dist: map<Cell, int>, c: Cell)
    requires Consistent(width, height, walls) && Flooded(width, height, WallSet(walls), dist, goals)
    requires InBounds(width, height, c) && c !in goals && dist[c] < INF
    ensures Settled(width, height, walls, dist, c)
  {
    var d := DescentIsOneLess(width, height, walls, goals, dist, c);
    forall e: Dir | Open(width, height, walls, c, e) ensures dist[c] - 1 <= dist[Neighbor(c, e)] {
      FloodedAdjacent(width, height, walls, goals, dist, c, e);
    }
  }

  /**
   * The choice of `best_dir` in `explore_to_goal`: the first open side, in
   * the order N, E, S, W, whose neighbour has the strictly smallest
   * distance below `INF`; `None` when every open neighbour is at `INF` or
   * beyond.
   */
  method BestOpen(width: int, height: int, walls: WallMap, dist: map<Cell, int>, x: int, y: int)
    returns (best: Option<Dir>)
    requires (x, y) in walls && |walls[(x, y)]| == 4
    requires forall c :: InBounds(width, height, c) ==> c in dist
    ensures best.None? <==>
      forall d: Dir :: Open(width, height, walls, (x, y), d) ==> dist[Neighbor((x, y), d)] >= INF
    ensures best.Some? ==>
      && Open(width, height, walls, (x, y), best.value)
      && dist[Neighbor((x, y), best.value)] < INF
      && (forall d: Dir :: Open(width, height, walls, (x, y), d) ==>
            dist[Neighbor((x, y), best.value)] <= dist[Neighbor((x, y), d)])
      && (forall d: Dir :: d < best.value && Open(width, height, walls, (x, y), d) ==>
            dist[Neighbor((x, y), best.value)] < dist[Neighbor((x, y), d)])
  {
    best := None;
    var bestDist := INF;
    for i := 0 to 4
      invariant best.None? ==> bestDist == INF
      invariant best.None? ==>
        forall d: Dir :: d < i && Open(width, height, walls, (x, y), d) ==> dist[Neighbor((x, y), d)] >= INF
      invariant best.Some? ==>
        && best.value < i && Open(width, height, walls, (x, y), best.value)
        && bestDist == dist[Neighbor((x, y), best.value)] < INF
        && (forall d: Dir :: d < i && Open(width, height, walls, (x, y), d) ==> bestDist <= dist[Neighbor((x, y), d)])
        && (forall d: Dir :: d < best.value && Open(width, height, walls, (x, y), d) ==> bestDist < dist[Neighbor((x, y), d)])
    {
      var d: Dir := i;
      if !walls[(x, y)][d] {
        var nx, ny := x + DX(d), y + DY(d);
        assert (nx, ny) == Neighbor((x, y), d);
        if 0 <= nx < width && 0 <= ny < height && dist[(nx, ny)] < bestDist {
          bestDist := dist[(nx, ny)];
          best := Some(d);
        }
      }
    }
  }

  /**
   * The choice of `next_dir` in `return_to_start_via_floodfill`: the first
   * open side, in the order N, E, S, W, whose neighbour has distance
   * `target`; `None` when there is none.
   */
  method StepBack(width: int, height: int, walls: WallMap, dist: map<Cell, int>, x: int, y: int, target: int)
    returns (next: Option<Dir>)
    requires (x, y) in walls && |walls[(x, y)]| == 4
    requires forall c :: InBounds(width, height, c) ==> c in dist
    ensures next.None? <==>
      forall d: Dir :: Open(width, height, walls, (x, y), d) ==> dist[Neighbor((x, y), d)] != target
    ensures next.Some? ==>
      && Open(width, height, walls, (x, y), next.value)
      && dist[Neighbor((x, y), next.value)] == target
      && (forall d: Dir :: d < next.value && Open(width, height, walls, (x, y), d) ==>
            dist[Neighbor((x, y), d)] != target)
  {
    next := None;
    var i := 0;
    while i < 4
      invariant 0 <= i <= 4
      invariant forall d: Dir :: d < i && Open(width, height, walls, (x, y), d) ==> dist[Neighbor((x, y), d)] != target
    {
      var d: Dir := i;
      if !walls[(x, y)][d] {
        var nx, ny := x + DX(d), y + DY(d);
        assert (nx, ny) == Neighbor((x, y), d);
        if 0 <= nx < width && 0 <= ny < height && dist[(nx, ny)] == target {
          next := Some(d);
          break;
        }
      }
      i := i + 1;
    }
  }

  /** The distance grid covers exactly the maze and holds values in `0..INF`. */
  ghost predicate DistGrid(width: int, height: int, dist: map<Cell, int>) {
    && (forall c :: c in dist <==> InBounds(width, height, c))
    && (forall c :: InBounds(width, height, c) ==> 0 <= dist[c] <= INF)
  }

  /** The solver's invariant: a consistent wall map and a distance grid over exactly the maze. */
  ghost predicate Mapped(width: int, height: int, walls: WallMap, dist: map<Cell, int>) {
    Consistent(width, height, walls) && (forall c :: c in dist <==> InBounds(width, height, c))
  }

  /** Every side marked in `walls` is still marked in `walls'`. */
  ghost predicate Grows(walls: WallMap, walls': WallMap) {
    forall c, d: Dir :: Walled(walls, c, d) ==> Walled(walls', c, d)
  }

  /** `move_forward` on the coordinates: one cell along heading `d`. */
  method Forward(x: int, y: int, d: Dir) returns (x': int, y': int)
    ensures (x', y') == Neighbor((x, y), d)
  {
    x', y' := x + DX(d), y + DY(d);
  }

  /** `scan_walls` on the readings of the physical `maze` at the robot's pose. */
  method ScanHere(width: int, height: int, maze: Maze, x: int, y: int, direction: Dir, walls: WallMap)
    returns (walls': WallMap)
    requires Consistent(width, height, walls)
    ensures Consistent(width, height, walls') && Grows(walls, walls')
    ensures walls' == ScanWith(width, height, walls, x, y, direction,
      WallAt(maze, x, y, direction), WallAt(maze, x, y, Right(direction)), WallAt(maze, x, y, Left(direction)))
  {
    var front, right, left := WallAt(maze, x, y, direction), WallAt(maze, x, y, Right(direction)), WallAt(maze, x, y, Left(direction));
    walls' := ScanWith(width, height, walls, x, y, direction, front, right, left);
    ScanConsistent(width, height, walls, x, y, direction, front, right, left);
  }

  /**
   * The consistency check of `explore_to_goal`: build `accessible` and
   * reflood from the goals when the test fires. Afterwards a cell with an
   * open side is settled unless the flood does not reach it.
   */
  method CheckAndReflood(width: int, height: int, goals: seq<Cell>, walls: WallMap, dist: map<Cell, int>, x: int, y: int)
    returns (dist': map<Cell, int>, reflooded: bool)
    requires Consistent(width, height, walls) && DistGrid(width, height, dist)
    requires InBounds(width, height, (x, y)) && (x, y) !in goals
    ensures DistGrid(width, height, dist')
    ensures reflooded <==>
      (exists d: Dir :: Open(width, height, walls, (x, y), d)) && !Settled(width, height, walls, dist, (x, y))
    ensures reflooded ==> Flooded(width, height, WallSet(walls), dist', goals)
    ensures !reflooded ==> dist' == dist
    ensures (exists d: Dir :: Open(width, height, walls, (x, y), d)) && dist'[(x, y)] < INF ==>
      Settled(width, height, walls, dist', (x, y))
  {
    var acc := Accessible(width, height, walls, dist, x, y);
    RefloodTest(width, height, walls, dist, (x, y), acc);
    reflooded := NeedsReflood(acc, dist[(x, y)]);
    dist' := dist;
    if reflooded {
      dist' := FloodFrom(width, height, walls, goals, dist');
      if dist'[(x, y)] < INF {
        FreshFloodSettled(width, height, walls, goals, dist', (x, y));
      }
    }
  }

  /**
   * One pass of the loop of `explore_to_goal` after the step count: scan
   * the three sensors of the physical `maze`, reflood from the goals when
   * the distances around the robot are not settled, then turn to
   * `best_dir` and move one cell, or report that no side leads on.
   */
  method ExploreRound(width: int, height: int, goals: seq<Cell>, maze: Maze,
                      x: int, y: int, direction: Dir, walls: WallMap, dist: map<Cell, int>)
    returns (x': int, y': int, direction': Dir, walls': WallMap, dist': map<Cell, int>, blocked: bool)
    requires Consistent(width, height, walls) && DistGrid(width, height, dist)
    requires InBounds(width, height, (x, y)) && (x, y) !in goals
    ensures Consistent(width, height, walls') && DistGrid(width, height, dist') && Grows(walls, walls')
    ensures blocked ==> x' == x && y' == y && direction' == direction
    ensures blocked ==> (forall d: Dir :: !Open(width, height, walls', (x, y), d)) || dist'[(x, y)] == INF
    ensures !blocked ==>
      && Open(width, height, walls', (x, y), direction')
      && (x', y') == Neighbor((x, y), direction')
      && dist'[(x', y')] < INF
      && (forall d: Dir :: Open(width, height, walls', (x, y), d) ==> dist'[(x', y')] <= dist'[Neighbor((x, y), d)])
      && (forall d: Dir :: d < direction' && Open(width, height, walls', (x, y), d) ==>
            dist'[(x', y')] < dist'[Neighbor((x, y), d)])
  {
    walls' := ScanHere(width, height, maze, x, y, direction, walls);
    var reflooded;
    dist', reflooded := CheckAndReflood(width, height, goals, walls', dist, x, y);
    var best := BestOpen(width, height, walls', dist', x, y);
    if best.None? {
      x', y', direction', blocked := x, y, direction, true;
      if dist'[(x, y)] < INF && exists d: Dir :: Open(width, height, walls', (x, y), d) {
        assert false;
      }
      return;
    }
    var turns;
    direction', turns := TurnToward(direction, best.value);
    x', y' := Forward(x, y, direction');
    blocked := false;
  }

  /**
   * `explore_to_goal` on the values it reads and writes: flood from the
   * goals, then repeat rounds until the robot stands on a goal, the
   * 5000-step budget is spent, or no side leads on.
   */
  method ExploreRun(width: int, height: int, goals: seq<Cell>, maze: Maze,
                    x0: int, y0: int, direction0: Dir, walls0: WallMap, dist0: map<Cell, int>)
    returns (x: int, y: int, direction: Dir, walls: WallMap, dist: map<Cell, int>, steps: int)
    requires Mapped(width, height, walls0, dist0) && InBounds(width, height, (x0, y0))
    ensures Mapped(width, height, walls, dist) && DistGrid(width, height, dist) && Grows(walls0, walls)
    ensures InBounds(width, height, (x, y)) && 0 <= steps <= 5001
    ensures (x, y) in goals || steps == 5001
      || (forall d: Dir :: !Open(width, height, walls, (x, y), d)) || dist[(x, y)] == INF
  {
    dist := FloodFrom(width, height, walls0, goals, dist0);
    x, y, direction, walls := x0, y0, direction0, walls0;
    steps := 0;
    while (x, y) !in goals
      invariant Consistent(width, height, walls) && DistGrid(width, height, dist) && Grows(walls0, walls)
      invariant InBounds(width, height, (x, y)) && 0 <= steps <= 5000
      decreases 5000 - steps
    {
      steps := steps + 1;
      if steps > 5000 {
        break;
      }
      var blocked;
      x, y, direction, walls, dist, blocked := ExploreRound(width, height, goals, maze, x, y, direction, walls, dist);
      if blocked {
        break;
      }
    }
  }

  /**
   * The scan of `return_to_start_via_floodfill`: scan, and reflood from the
   * start when the wall list of the robot's cell is not the snapshot taken
   * before; an unchanged list means an unchanged map, so the distances
   * stay flooded either way.
   */
  method ScanAndReflood(width: int, height: int, maze: Maze,
                        x: int, y: int, direction: Dir, walls: WallMap, dist: map<Cell, int>)
    returns (walls': WallMap, dist': map<Cell, int>)
    requires Consistent(width, height, walls) && Flooded(width, height, WallSet(walls), dist, [(0, 0)])
    requires InBounds(width, height, (x, y))
    ensures Consistent(width, height, walls') && Flooded(width, height, WallSet(walls'), dist', [(0, 0)]) && Grows(walls, walls')
    ensures walls' == ScanWith(width, height, walls, x, y, direction,
      WallAt(maze, x, y, direction), WallAt(maze, x, y, Right(direction)), WallAt(maze, x, y, Left(direction)))
    ensures walls'[(x, y)] == walls[(x, y)] ==> walls' == walls && dist' == dist
  {
    var snapshot := walls[(x, y)];
    walls' := ScanHere(width, height, maze, x, y, direction, walls);
    dist' := dist;
    if walls'[(x, y)] != snapshot {
      dist' := FloodFrom(width, height, walls', [(0, 0)], dist');
    } else {
      ScanUnchangedHere(width, height, walls, x, y, direction,
        WallAt(maze, x, y, direction), WallAt(maze, x, y, Right(direction)), WallAt(maze, x, y, Left(direction)));
    }
  }

  /**
   * The choice of `next_dir` with its retry: when no open neighbour is one
   * closer, reflood from the start and look again for the distance read
   * before. The retry only runs at a cell the flood does not reach, and
   * since the flood is unique it finds the same map.
   */
  method ChooseBack(width: int, height: int, walls: WallMap, dist: map<Cell, int>, x: int, y: int)
    returns (dist': map<Cell, int>, next: Option<Dir>)
    requires Consistent(width, height, walls) && Flooded(width, height, WallSet(walls), dist, [(0, 0)])
    requires InBounds(width, height, (x, y)) && (x, y) != (0, 0)
    ensures dist' == dist
    ensures next.None? ==> dist[(x, y)] == INF
    ensures next.Some? ==>
      && Open(width, height, walls, (x, y), next.value)
      && dist[Neighbor((x, y), next.value)] == dist[(x, y)] - 1
      && (forall d: Dir :: d < next.value && Open(width, height, walls, (x, y), d) ==>
            dist[Neighbor((x, y), d)] != dist[(x, y)] - 1)
  {
    dist' := dist;
    var cur := dist'[(x, y)];
    next := StepBack(width, height, walls, dist', x, y, cur - 1);
    if next.None? {
      assert (x, y) !in [(0, 0)];
      if cur < INF {
        var d := DescentIsOneLess(width, height, walls, [(0, 0)], dist, (x, y));
        assert false;
      }
      dist' := FloodFrom(width, height, walls, [(0, 0)], dist');
      FloodUnique(width, height, WallSet(walls), [(0, 0)], dist, dist');
      next := StepBack(width, height, walls, dist', x, y, cur - 1);
    }
  }

  /**
   * One pass of the loop of `return_to_start_via_floodfill` after the step
   * count: scan and reflood if needed, choose `next_dir`, then turn and
   * move one cell, or report that the robot is stuck.
   */
  method ReturnRound(width: int, height: int, maze: Maze,
                     x: int, y: int, direction: Dir, walls: WallMap, dist: map<Cell, int>)
    returns (x': int, y': int, direction': Dir, walls': WallMap, dist': map<Cell, int>, stuck: bool)
    requires Consistent(width, height, walls) && Flooded(width, height, WallSet(walls), dist, [(0, 0)])
    requires InBounds(width, height, (x, y)) && (x, y) != (0, 0)
    ensures Consistent(width, height, walls') && Flooded(width, height, WallSet(walls'), dist', [(0, 0)]) && Grows(walls, walls')
    ensures stuck ==> x' == x && y' == y && direction' == direction && dist'[(x, y)] == INF
    ensures !stuck ==>
      && Open(width, height, walls', (x, y), direction')
      && (x', y') == Neighbor((x, y), direction')
      && dist'[(x', y')] == dist'[(x, y)] - 1
      && (forall d: Dir :: d < direction' && Open(width, height, walls', (x, y), d) ==>
            dist'[Neighbor((x, y), d)] != dist'[(x, y)] - 1)
  {
    walls', dist' := ScanAndReflood(width, height, maze, x, y, direction, walls, dist);
    var next;
    dist', next := ChooseBack(width, height, walls', dist', x, y);
    if next.None? {
      x', y', direction', stuck := x, y, direction, true;
      return;
    }
    var turns;
    direction', turns := TurnToward(direction, next.value);
    x', y' := Forward(x, y, direction');
    stuck := false;
  }

  /**
   * `return_to_start_via_floodfill` on the values it reads and writes:
   * flood from the start, then repeat rounds until the robot is back at
   * `(0, 0)`, 5000 steps are taken, or it stands on a cell the flood from
   * the start does not reach.
   */
  method ReturnRun(width: int, height: int, maze: Maze,
                   x0: int, y0: int, direction0: Dir, walls0: WallMap, dist0: map<Cell, int>)
    returns (x: int, y: int, direction: Dir, walls: WallMap, dist: map<Cell, int>, steps: int)
    requires Mapped(width, height, walls0, dist0) && InBounds(width, height, (x0, y0))
    ensures Mapped(width, height, walls, dist) && Flooded(width, height, WallSet(walls), dist, [(0, 0)]) && Grows(walls0, walls)
    ensures InBounds(width, height, (x, y)) && 0 <= steps <= 5000
    ensures (x, y) == (0, 0) || steps == 5000 || dist[(x, y)] == INF
  {
    dist := FloodFrom(width, height, walls0, [(0, 0)], dist0);
    x, y, direction, walls := x0, y0, direction0, walls0;
    steps := 0;
    while (x, y) != (0, 0) && steps < 5000
      invariant Consistent(width, height, walls) && Flooded(width, height, WallSet(walls), dist, [(0, 0)]) && Grows(walls0, walls)
      invariant InBounds(width, height, (x, y)) && 0 <= steps <= 5000
      decreases 5000 - steps
    {
      steps := steps + 1;
      var stuck;
      x, y, direction, walls, dist, stuck := ReturnRound(width, height, maze, x, y, direction, walls, dist);
      if stuck {
        break;
      }
    }
  }

  class FloodFillSolver {
    const width: int
    const height: int
    var x: int
    var y: int
    var direction: Dir
    const goalCells: seq<Cell> := GoalCells(width, height)
    /** The `distance` grid, `distance[(x, y)]` for the source's `distance[y][x]`. */
    var distance: map<Cell, int>
    var walls: WallMap

    /** The wall map stays consistent and the distance grid covers exactly the maze. */
    ghost predicate Valid()
      reads this
    {
      Mapped(width, height, walls, distance)
    }

    /** `__init__`, given the maze size the simulator reports. */
    constructor (mazeWidth: int, mazeHeight: int)
      requires (mazeWidth > 0) == (mazeHeight > 0)
      ensures Valid()
      ensures width == mazeWidth && height == mazeHeight
      ensures x == 0 && y == 0 && direction == 0
      ensures goalCells == GoalCells(mazeWidth, mazeHeight)
      ensures forall c :: InBounds(width, height, c) ==> distance[c] == INF
      ensures forall c, d: Dir :: InBounds(width, height, c) ==>
        (Walled(walls, c, d) <==> OnBoundary(width, height, c, d))
    {
      var initial := InitialWalls(mazeWidth, mazeHeight);
      width, height := mazeWidth, mazeHeight;
      x, y, direction := 0, 0, 0;
      distance := Unreached(mazeWidth, mazeHeight);
      walls := initial;
    }

    /** `is_goal`. */
    function IsGoal(px: int, py: int): (r: bool)
      ensures r <==> (px, py) in CentreBlock(width / 2, height / 2)
      ensures r ==> px == width / 2 - 1 || px == width / 2
    {
      (px, py) in goalCells
    }

    /** `add_wall`. */
    method AddWall(px: int, py: int, d: Dir)
      requires Valid()
      modifies this`walls
      ensures Valid()
      ensures walls == WithWall(width, height, old(walls), px, py, d)
    {
      WithWallConsistent(width, height, walls, px, py, d);
      if !(0 <= px < width && 0 <= py < height) {
        return;
      }
      walls := walls[(px, py) := walls[(px, py)][d := true]];
      var nx, ny := px + DX(d), py + DY(d);
      if 0 <= nx < width && 0 <= ny < height {
        var opposite := Back(d);
        walls := walls[(nx, ny) := walls[(nx, ny)][opposite := true]];
      }
    }

    /** `scan_walls`, given the readings of the front, right and left sensors. */
    method ScanWalls(front: bool, right: bool, left: bool)
      requires Valid()
      modifies this`walls
      ensures Valid()
      ensures walls == ScanWith(width, height, old(walls), x, y, direction, front, right, left)
    {
      if front {
        AddWall(x, y, direction);
      }
      if right {
        AddWall(x, y, Right(direction));
      }
      if left {
        AddWall(x, y, Left(direction));
      }
    }

    /** `turn_to`: returns the turn calls issued. */
    method TurnTo(target: Dir) returns (turns: seq<Command>)
      modifies this`direction
      ensures direction == target && Rotate(old(direction), turns) == target
      ensures old(direction) == target ==> turns == []
    {
      direction, turns := TurnToward(direction, target);
    }

    /** `move_forward`: one cell along the heading, whatever the walls. */
    method MoveForward()
      modifies this`x, this`y
      ensures (x, y) == Neighbor(old((x, y)), direction)
    {
      x := x + DX(direction);
      y := y + DY(direction);
    }

    /**
     * `explore_to_goal`, with the sensors reading the physical `maze`:
     * returns the step count. The run ends on a goal cell, after the
     * 5000-step budget, or at a cell with no open side or one the flood
     * from the goals does not reach over the walls mapped so far.
     */
    method ExploreToGoal(maze: Maze) returns (steps: int)
      requires Valid() && InBounds(width, height, (x, y))
      modifies this`x, this`y, this`direction, this`walls, this`distance
      ensures Valid() && InBounds(width, height, (x, y)) && Grows(old(walls), walls)
      ensures 0 <= steps <= 5001
      ensures IsGoal(x, y) || steps == 5001
        || (forall d: Dir :: !Open(width, height, walls, (x, y), d)) || distance[(x, y)] == INF
    {
      var x', y', direction', walls', distance';
      x', y', direction', walls', distance', steps := ExploreRun(width, height, goalCells, maze, x, y, direction, walls, distance);
      x, y, direction, walls, distance := x', y', direction', walls', distance';
    }

    /**
     * `return_to_start_via_floodfill`, with the sensors reading the
     * physical `maze`: returns the step count. The distances end flooded
     * from the start over the final walls, and the run ends at `(0, 0)`,
     * after 5000 steps, or at a cell that flood does not reach.
     */
    method ReturnToStart(maze: Maze) returns (steps: int)
      requires Valid() && InBounds(width, height, (x, y))
      modifies this`x, this`y, this`direction, this`walls, this`distance
      ensures Valid() && InBounds(width, height, (x, y)) && Grows(old(walls), walls)
      ensures Flooded(width, height, WallSet(walls), distance, [(0, 0)])
      ensures 0 <= steps <= 5000
      ensures (x, y) == (0, 0) || steps == 5000 || distance[(x, y)] == INF
    {
      var x', y', direction', walls', distance';
      x', y', direction', walls', distance', steps := ReturnRun(width, height, maze, x, y, direction, walls, distance);
      x, y, direction, walls, distance := x', y', direction', walls', distance';
    }

    /** `flood_fill_from_goals`. */
    method FloodFillFromGoals(goals: seq<Cell>)
      requires Valid()
      modifies this`distance
      ensures Valid()
      ensures Flooded(width, height, WallSet(walls), distance, goals)
    {
      distance := FloodFrom(width, height, walls, goals, distance);
    }
  }
}
