/**
 * Grid geometry shared by every solver of the micromouse repository:
 * headings, cells, bounds, the Manhattan metric and the turning loop that
 * each solver writes out for itself (`turn_to_direction`, `turn_to`,
 * `turnTo`).
 */
module Grid {

  /** Headings: 0 = North, 1 = East, 2 = South, 3 = West. */
  type Dir = d: int | 0 <= d < 4

  /** A maze cell `(x, y)`; `y` grows towards the North. */
  type Cell = (int, int)

  /** One side of one cell, `(x, y, d)`, as the Python solvers key their wall sets. */
  type WallKey = (int, int, int)

  datatype Option<T> = None | Some(value: T)

  /** The simulator calls that change the robot's pose. */
  datatype Command = TurnRight | TurnLeft | MoveForward

  /**
   * The value a C solver hands back to the simulator after each call. The
   * C solvers return only `IDLE` and `FORWARD`; the two turn actions
   * complete the simulator's set.
   */
  datatype Action = IDLE | FORWARD | LEFT | RIGHT

  /**
   * The repository's direction tables `dx = [0, 1, 0, -1]` and
   * `dy = [1, 0, -1, 0]`, written by cases (`DirTables` checks them
   * against the tables).
   */
  function DX(d: Dir): int { if d == 1 then 1 else if d == 3 then -1 else 0 }
  function DY(d: Dir): int { if d == 0 then 1 else if d == 2 then -1 else 0 }

  /** A quarter turn clockwise, `(d + 1) % 4` in the source (see `TurnsModFour`). */
  function Right(d: Dir): Dir { if d == 3 then 0 else d + 1 }

  /** A quarter turn anticlockwise, `(d + 3) % 4` in the C solvers and `(d - 1) % 4` in the Python ones. */
  function Left(d: Dir): Dir { if d == 0 then 3 else d - 1 }

  /** A half turn, `(d + 2) % 4`: also the side opposite `d`. */
  function Back(d: Dir): Dir { if d < 2 then d + 2 else d - 2 }

  lemma DirTables(d: Dir)
    ensures DX(d) == [0, 1, 0, -1][d] && DY(d) == [1, 0, -1, 0][d]
  {
  }

  /**
   * The turns agree with the source's modular arithmetic. The Python
   * solvers' `(d - 1) % 4` equals the C solvers' `(d + 3) % 4` because
   * Python's `%` never returns a negative result for a positive modulus,
   * which is also how Dafny's `%` behaves.
   */
  lemma TurnsModFour(d: Dir)
    ensures Right(d) == (d + 1) % 4
    ensures Left(d) == (d + 3) % 4 && Left(d) == (d - 1) % 4
    ensures Back(d) == (d + 2) % 4
  {
  }

  function Neighbor(c: Cell, d: Dir): Cell { (c.0 + DX(d), c.1 + DY(d)) }

  predicate InBounds(width: int, height: int, c: Cell) {
    0 <= c.0 < width && 0 <= c.1 < height
  }

  /** All cells of a `width` by `height` maze. */
  function Cells(width: int, height: int): set<Cell> {
    set x, y | 0 <= x < width && 0 <= y < height :: (x, y)
  }

  /** Row `y` of a maze `width` cells wide. */
  function Row(width: int, y: int): set<Cell> {
    set x | 0 <= x < width :: (x, y)
  }

  lemma {:induction false} RowCard(width: nat, y: int)
    ensures |Row(width, y)| == width
  {
    if width > 0 {
      RowCard(width - 1, y);
      assert Row(width, y) == Row(width - 1, y) + {(width - 1, y)};
    } else {
      assert Row(width, y) == {};
    }
  }

  /** A `width` by `height` maze has `width * height` cells. */
  lemma {:induction false} CellsCard(width: nat, height: nat)
    ensures |Cells(width, height)| == width * height
  {
    if height > 0 {
      CellsCard(width, height - 1);
      RowCard(width, height - 1);
      CellsSplit(width, height);
      assert width * (height - 1) + width == width * height;
    } else {
      assert Cells(width, height) == {};
    }
  }

  /** The cells of a maze are those of its lower rows and, apart from them, those of its top row. */
  lemma CellsSplit(width: nat, height: nat)
    requires height > 0
    ensures Cells(width, height) == Cells(width, height - 1) + Row(width, height - 1)
    ensures Cells(width, height - 1) * Row(width, height - 1) == {}
  {
    var below, top := Cells(width, height - 1), Row(width, height - 1);
    forall c | c in Cells(width, height) ensures c in below + top {
      if c.1 < height - 1 {
        assert c in below;
      } else {
        assert c in top;
      }
    }
  }

  /** The side `d` of cell `c` faces out of the maze (the boundary walls of `__init__`). */
  predicate OnBoundary(width: int, height: int, c: Cell, d: Dir) {
    (d == 3 && c.0 == 0) || (d == 1 && c.0 == width - 1) || (d == 2 && c.1 == 0) || (d == 0 && c.1 == height - 1)
  }

  lemma OnBoundaryOutside(width: int, height: int, c: Cell, d: Dir)
    requires InBounds(width, height, c)
    ensures OnBoundary(width, height, c, d) <==> !InBounds(width, height, Neighbor(c, d))
  {
  }

  /**
   * The wall list of cell `c` once the boundary loops have marked the west
   * and east sides of the first `rows` rows and the south and north sides
   * of the first `cols` columns.
   */
  function SidesUpTo(width: int, height: int, c: Cell, rows: int, cols: int): seq<bool> {
    [c.1 == height - 1 && c.0 < cols, c.0 == width - 1 && c.1 < rows, c.1 == 0 && c.0 < cols, c.0 == 0 && c.1 < rows]
  }


  /** Stepping forward and then back across the same side returns to the start cell. */
  lemma NeighborBack(c: Cell, d: Dir)
    ensures Neighbor(Neighbor(c, d), Back(d)) == c
    ensures Back(Back(d)) == d
  {
  }

  /** The four neighbours of a cell are pairwise distinct and differ from the cell. */
  lemma NeighborsDistinct(c: Cell, d: Dir, e: Dir)
    ensures Neighbor(c, d) != c
    ensures Neighbor(c, d) == Neighbor(c, e) <==> d == e
  {
  }

  function Abs(n: int): (r: int)
    ensures r >= 0 && (r == n || r == -n)
  {
    if n < 0 then -n else n
  }

  /** `manhattan_distance(x1, y1, x2, y2)`: the grid distance ignoring walls. */
  function Manhattan(x1: int, y1: int, x2: int, y2: int): (r: int)
    ensures r >= 0
    ensures r >= Abs(x1 - x2) && r >= Abs(y1 - y2)
  {
    Abs(x1 - x2) + Abs(y1 - y2)
  }

  /** The distance is 0 exactly when the two cells coincide. */
  lemma ManhattanZero(x1: int, y1: int, x2: int, y2: int)
    ensures Manhattan(x1, y1, x2, y2) == 0 <==> x1 == x2 && y1 == y2
  {
  }

  lemma ManhattanSymmetric(x1: int, y1: int, x2: int, y2: int)
    ensures Manhattan(x1, y1, x2, y2) == Manhattan(x2, y2, x1, y1)
  {
  }

  lemma ManhattanTriangle(x1: int, y1: int, x2: int, y2: int, x3: int, y3: int)
    ensures Manhattan(x1, y1, x3, y3) <= Manhattan(x1, y1, x2, y2) + Manhattan(x2, y2, x3, y3)
  {
  }

  /**
   * One step changes the heuristic by exactly one, so the Manhattan
   * heuristic is consistent (monotone) for unit-cost moves.
   */
  lemma ManhattanStep(c: Cell, d: Dir, g: Cell)
    ensures var n := Neighbor(c, d);
      Manhattan(n.0, n.1, g.0, g.1) == Manhattan(c.0, c.1, g.0, g.1) + 1
      || Manhattan(n.0, n.1, g.0, g.1) == Manhattan(c.0, c.1, g.0, g.1) - 1
  {
  }

  /**
   * The heading that leads from `a` to `b`, or -1 when `b` is not one of
   * `a`'s four neighbours.
   */
  function DirBetween(a: Cell, b: Cell): (r: int)
    ensures -1 <= r < 4
    ensures r != -1 ==> Neighbor(a, r) == b
    ensures r == -1 <==> forall d: Dir :: Neighbor(a, d) != b
  {
    if Neighbor(a, 0) == b then 0
    else if Neighbor(a, 1) == b then 1
    else if Neighbor(a, 2) == b then 2
    else if Neighbor(a, 3) == b then 3
    else -1
  }

  lemma DirBetweenNeighbor(c: Cell, d: Dir)
    ensures DirBetween(c, Neighbor(c, d)) == d
  {
  }

  /**
   * The physical maze, which the solvers only see through their sensors:
   * `WallAt(maze, x, y, d)` is what a sensor facing side `d` of cell `(x, y)`
   * reports. The maze does not change while the robot runs.
   */
  type Maze = set<WallKey>

  /** The reading of a sensor facing side `d` of cell `(x, y)`. */
  predicate WallAt(maze: Maze, x: int, y: int, d: int) {
    (x, y, d) in maze
  }

  /** `b` is a neighbour of `a` and the physical maze has no wall between them on `a`'s side. */
  predicate MazeStep(maze: Maze, a: Cell, b: Cell) {
    var d := DirBetween(a, b);
    d != -1 && !WallAt(maze, a.0, a.1, d)
  }

  /**
   * The wall keys that the four-sensor reading of the two set-based
   * Python solvers adds at cell `(x, y)` facing `direction`: front is
   * `direction`, left `(direction - 1) % 4`, right `(direction + 1) % 4`
   * and back `(direction + 2) % 4`. Nothing is mirrored onto a neighbour.
   */
  function Sensed(x: int, y: int, direction: Dir, front: bool, left: bool, right: bool, back: bool): (r: set<WallKey>)
    ensures forall k :: k in r ==>
      k.0 == x && k.1 == y && (k.2 == direction || k.2 == Left(direction) || k.2 == Right(direction) || k.2 == Back(direction))
    ensures (x, y, direction) in r <==> front
    ensures (x, y, Left(direction)) in r <==> left
    ensures (x, y, Right(direction)) in r <==> right
    ensures (x, y, Back(direction)) in r <==> back
  {
    (if front then {(x, y, direction)} else {}) + (if left then {(x, y, Left(direction))} else {})
    + (if right then {(x, y, Right(direction))} else {}) + (if back then {(x, y, Back(direction))} else {})
  }

  /** A reading of all four sensors records exactly the physical walls around the cell. */
  lemma SensedAll(maze: Maze, x: int, y: int, direction: Dir)
    ensures var r := Sensed(x, y, direction, WallAt(maze, x, y, direction), WallAt(maze, x, y, Left(direction)),
                            WallAt(maze, x, y, Right(direction)), WallAt(maze, x, y, Back(direction)));
      (forall k :: k in r ==> k.0 == x && k.1 == y && 0 <= k.2 < 4 && WallAt(maze, k.0, k.1, k.2))
      && forall d: Dir :: WallAt(maze, x, y, d) ==> (x, y, d) in r
  {
    var r := Sensed(x, y, direction, WallAt(maze, x, y, direction), WallAt(maze, x, y, Left(direction)),
                    WallAt(maze, x, y, Right(direction)), WallAt(maze, x, y, Back(direction)));
    forall d: Dir | WallAt(maze, x, y, d) ensures (x, y, d) in r {
      assert d == direction || d == Left(direction) || d == Right(direction) || d == Back(direction);
    }
  }

  /** The physical walls at `c` are all recorded in `walls`. */
  predicate FullySensed(maze: Maze, walls: set<WallKey>, c: Cell) {
    forall d: Dir :: WallAt(maze, c.0, c.1, d) ==> (c.0, c.1, d) in walls
  }

  /** The 2x2 goal block whose upper-right cell is `(cx, cy)`. */
  function CentreBlock(cx: int, cy: int): set<Cell> {
    {(cx - 1, cy - 1), (cx, cy - 1), (cx - 1, cy), (cx, cy)}
  }

  /** C's `/` truncates toward zero; Dafny's `/` is Euclidean. */
  function CDiv2(n: int): (r: int)
    ensures n >= 0 ==> r == n / 2
    ensures n < 0 ==> r == -((-n) / 2)
    ensures Abs(n - 2 * r) <= 1
  {
    if n >= 0 then n / 2 else -((-n) / 2)
  }

  /** The heading after one command: moving forward keeps the heading. */
  function Turn(d: Dir, c: Command): Dir {
    match c
    case TurnRight => Right(d)
    case TurnLeft => Left(d)
    case MoveForward => d
  }

  /** The heading reached by executing `cmds` from heading `d`. */
  function Rotate(d: Dir, cmds: seq<Command>): Dir
    decreases |cmds|
  {
    if cmds == [] then d else Rotate(Turn(d, cmds[0]), cmds[1..])
  }

  lemma {:induction false} RotateAppend(d: Dir, a: seq<Command>, b: seq<Command>)
    ensures Rotate(d, a + b) == Rotate(Rotate(d, a), b)
    decreases |a|
  {
    if a == [] {
      assert a + b == b;
    } else {
      assert (a + b)[0] == a[0] && (a + b)[1..] == a[1..] + b;
      RotateAppend(Turn(d, a[0]), a[1..], b);
    }
  }

  /** The number of forward moves among `cmds`. */
  function Forwards(cmds: seq<Command>): (r: nat)
    ensures r <= |cmds|
    decreases |cmds|
  {
    if cmds == [] then 0 else (if cmds[0] == MoveForward then 1 else 0) + Forwards(cmds[1..])
  }

  lemma {:induction false} ForwardsAppend(a: seq<Command>, b: seq<Command>)
    ensures Forwards(a + b) == Forwards(a) + Forwards(b)
    decreases |a|
  {
    if a == [] {
      assert a + b == b;
    } else {
      assert (a + b)[0] == a[0] && (a + b)[1..] == a[1..] + b;
      ForwardsAppend(a[1..], b);
    }
  }

  lemma {:induction false} ForwardsWithout(a: seq<Command>)
    requires MoveForward !in a
    ensures Forwards(a) == 0
    decreases |a|
  {
    if a != [] {
      assert a[0] in a;
      assert forall c :: c in a[1..] ==> c in a;
      ForwardsWithout(a[1..]);
    }
  }

  /**
   * The turning loop of all three flood-fill solvers
   * (`turn_to_direction`, `turn_to`, `turnTo`): while the heading is not
   * the target, a difference of 1 turns right, 3 turns left and 2 turns
   * right twice. Returns the final heading and the turn calls issued.
   */
  method TurnToward(direction: Dir, target: Dir) returns (d: Dir, turns: seq<Command>)
    ensures d == target
    ensures Rotate(direction, turns) == target
    ensures MoveForward !in turns
    ensures direction == target ==> turns == []
    ensures (target - direction) % 4 == 1 ==> turns == [TurnRight]
    ensures (target - direction) % 4 == 3 ==> turns == [TurnLeft]
    ensures (target - direction) % 4 == 2 ==> turns == [TurnRight, TurnRight]
  {
    d := direction;
    turns := [];
    while d != target
      invariant Rotate(direction, turns) == d
      invariant turns == [] ==> d == direction
      invariant turns != [] ==> d == target && direction != target
      invariant (target - direction) % 4 == 1 && turns != [] ==> turns == [TurnRight]
      invariant (target - direction) % 4 == 3 && turns != [] ==> turns == [TurnLeft]
      invariant (target - direction) % 4 == 2 && turns != [] ==> turns == [TurnRight, TurnRight]
      decreases (target - d) % 4
    {
      var diff := (target - d) % 4;
      var step: seq<Command>;
      if diff == 1 {
        step := [TurnRight];
        d := Right(d);
      } else if diff == 3 {
        step := [TurnLeft];
        d := Left(d);
      } else {
        step := [TurnRight, TurnRight];
        d := Back(d);
      }
      RotateAppend(direction, turns, step);
      turns := turns + step;
    }
  }

  /**
   * The search the solvers run to find the heading toward an adjacent
   * cell: the first direction whose step from `from` lands on `to`, or
   * none when `to` is not adjacent.
   */
  method FindDirection(from: Cell, to: Cell) returns (r: Option<Dir>)
    ensures r.Some? ==> Neighbor(from, r.value) == to
    ensures r.None? <==> forall d: Dir :: Neighbor(from, d) != to
  {
    for d := 0 to 4
      invariant forall e: Dir :: e < d ==> Neighbor(from, e) != to
    {
      if from.0 + DX(d) == to.0 && from.1 + DY(d) == to.1 {
        return Some(d);
      }
    }
    return None;
  }
}
