/**
 * The decision of the two wall-following solvers (`RightHandRule/solver.c`
 * and `LeftHandRule/solver.c`), on values. Each call of a follower first
 * reports the goal once when the mouse stands in the centre block, and
 * otherwise turns toward the first open side in its hand's order and tries
 * to move forward. The classes of the two solver modules keep the static
 * state and are specified by `Follow`.
 */
module WallFollowing {
  import opened Grid

  /** Which wall the follower keeps at its side. */
  datatype Hand = RightHand | LeftHand

  /** The static variables `x`, `y`, `direction`, `steps` and `goalReached`. */
  datatype Mouse = Mouse(x: int, y: int, direction: Dir, steps: int, goalReached: bool)

  /** The answers of `API_wallRight`, `API_wallFront` and `API_wallLeft` during one call. */
  datatype Sensors = Sensors(wallRight: bool, wallFront: bool, wallLeft: bool)

  /**
   * `isGoal`: the mouse stands in the 2x2 centre block whose upper-right
   * cell is `(mazeWidth / 2, mazeHeight / 2)`, with C's truncating division.
   */
  function IsGoal(mazeWidth: int, mazeHeight: int, x: int, y: int): (r: bool)
    ensures r <==> (x, y) in CentreBlock(CDiv2(mazeWidth), CDiv2(mazeHeight))
  {
    var centerX := CDiv2(mazeWidth);
    var centerY := CDiv2(mazeHeight);
    (x == centerX - 1 || x == centerX) && (y == centerY - 1 || y == centerY)
  }

  /** In a maze at least two cells wide and high, every goal cell lies inside the maze. */
  lemma CentreInside(mazeWidth: int, mazeHeight: int, x: int, y: int)
    requires mazeWidth >= 2 && mazeHeight >= 2
    requires IsGoal(mazeWidth, mazeHeight, x, y)
    ensures InBounds(mazeWidth, mazeHeight, (x, y))
  {
  }

  /**
   * Whether the relative side `rel` (0 front, 1 right, 3 left) was
   * reported open. The back of the mouse is never sensed.
   */
  predicate Opens(s: Sensors, rel: int) {
    (rel == 0 && !s.wallFront) || (rel == 1 && !s.wallRight) || (rel == 3 && !s.wallLeft)
  }

  /** The side, relative to the heading before the call, that the mouse faces after `cmds`. */
  function Faced(cmds: seq<Command>): Dir {
    Rotate(0, cmds)
  }

  /**
   * The simulator calls of one wall-following decision. The right
   * follower prefers right, then front, then left, and otherwise turns
   * right; the left follower prefers left, then front, then right, and
   * otherwise also turns right. A turn toward the preferred side is
   * followed by a forward move; a turn toward the third side is not.
   */
  function Plan(hand: Hand, s: Sensors): (cmds: seq<Command>)
    ensures 1 <= |cmds| <= 2 && Forwards(cmds) <= 1
    ensures MoveForward in cmds <==>
      (if hand == RightHand then !s.wallRight || !s.wallFront else !s.wallLeft || !s.wallFront)
    ensures MoveForward in cmds ==> cmds[|cmds| - 1] == MoveForward && Opens(s, Faced(cmds))
    ensures MoveForward !in cmds ==> |cmds| == 1 && cmds[0] != MoveForward
    ensures hand == RightHand && Opens(s, 1) ==> Faced(cmds) == 1
    ensures hand == LeftHand && Opens(s, 3) ==> Faced(cmds) == 3
  {
    match hand
    case RightHand =>
      if !s.wallRight then [TurnRight, MoveForward]
      else if !s.wallFront then [MoveForward]
      else if !s.wallLeft then [TurnLeft]
      else [TurnRight]
    case LeftHand =>
      if !s.wallLeft then [TurnLeft, MoveForward]
      else if !s.wallFront then [MoveForward]
      else if !s.wallRight then [TurnRight]
      else [TurnRight]
  }

  /**
   * One call of `rightWallFollower` or `leftWallFollower` on maze size
   * `(mazeWidth, mazeHeight)`: the pose after the call and the simulator
   * calls it made.
   */
  function Follow(hand: Hand, mazeWidth: int, mazeHeight: int, m: Mouse, s: Sensors, moveOk: bool): (r: (Mouse, seq<Command>))
    ensures !m.goalReached && IsGoal(mazeWidth, mazeHeight, m.x, m.y) ==> r.0 == m.(goalReached := true) && r.1 == []
    ensures m.goalReached || !IsGoal(mazeWidth, mazeHeight, m.x, m.y) ==>
      && r.1 == Plan(hand, s) && r.0.goalReached == m.goalReached
      && r.0.direction == Rotate(m.direction, r.1)
      && (if MoveForward in r.1 && moveOk
          then r.0.x == m.x + DX(r.0.direction) && r.0.y == m.y + DY(r.0.direction) && r.0.steps == m.steps + 1
          else r.0.x == m.x && r.0.y == m.y && r.0.steps == m.steps)
  {
    if !m.goalReached && IsGoal(mazeWidth, mazeHeight, m.x, m.y) then
      (m.(goalReached := true), [])
    else
      var cmds := Plan(hand, s);
      var d := Rotate(m.direction, cmds);
      if MoveForward in cmds && moveOk then
        (Mouse(m.x + DX(d), m.y + DY(d), d, m.steps + 1, m.goalReached), cmds)
      else
        (m.(direction := d), cmds)
  }

  /** The readings the mouse gets at pose `m` in the physical maze. */
  function Sense(maze: Maze, m: Mouse): (s: Sensors)
    ensures s.wallFront == WallAt(maze, m.x, m.y, m.direction)
    ensures s.wallRight == WallAt(maze, m.x, m.y, Right(m.direction))
    ensures s.wallLeft == WallAt(maze, m.x, m.y, Left(m.direction))
  {
    Sensors(WallAt(maze, m.x, m.y, Right(m.direction)), WallAt(maze, m.x, m.y, m.direction),
            WallAt(maze, m.x, m.y, Left(m.direction)))
  }

  /**
   * With readings from the physical maze, a follower only ever tries to
   * move through a side that has no wall: the move the simulator is asked
   * for succeeds.
   */
  lemma PlanIntoOpen(maze: Maze, hand: Hand, m: Mouse)
    requires MoveForward in Plan(hand, Sense(maze, m))
    ensures !WallAt(maze, m.x, m.y, Rotate(m.direction, Plan(hand, Sense(maze, m))))
  {
    var s, d := Sense(maze, m), m.direction;
    if hand == RightHand && !s.wallRight {
      assert Rotate(d, [TurnRight, MoveForward]) == Right(d);
    } else if hand == LeftHand && !s.wallLeft {
      assert Rotate(d, [TurnLeft, MoveForward]) == Left(d);
    } else {
      assert Plan(hand, s) == [MoveForward] && Rotate(d, [MoveForward]) == d;
    }
  }

  /** One call in the physical maze: the simulator's `API_moveForward` succeeds exactly when there is no wall ahead. */
  function Call(hand: Hand, mazeWidth: int, mazeHeight: int, maze: Maze, m: Mouse): Mouse {
    var s := Sense(maze, m);
    var ahead := Rotate(m.direction, Plan(hand, s));
    Follow(hand, mazeWidth, mazeHeight, m, s, !WallAt(maze, m.x, m.y, ahead)).0
  }

  /**
   * A call in the physical maze leaves the mouse where it was or takes it
   * to the neighbour across a side with no wall, counting that step; the
   * goal flag is never lowered.
   */
  lemma CallStep(hand: Hand, mazeWidth: int, mazeHeight: int, maze: Maze, m: Mouse)
    ensures var n := Call(hand, mazeWidth, mazeHeight, maze, m);
      && (m.goalReached ==> n.goalReached)
      && (((n.x, n.y) == (m.x, m.y) && n.steps == m.steps)
          || (MazeStep(maze, (m.x, m.y), (n.x, n.y)) && n.steps == m.steps + 1))
  {
    var s := Sense(maze, m);
    var cmds := Plan(hand, s);
    var n := Call(hand, mazeWidth, mazeHeight, maze, m);
    if (n.x, n.y) != (m.x, m.y) {
      PlanIntoOpen(maze, hand, m);
      DirBetweenNeighbor((m.x, m.y), n.direction);
    }
  }

  /** The poses of `count` calls in the physical maze, starting at `m`. */
  function Drive(hand: Hand, mazeWidth: int, mazeHeight: int, maze: Maze, m: Mouse, count: nat): (trail: seq<Mouse>)
    ensures |trail| == count + 1 && trail[0] == m
    decreases count
  {
    if count == 0 then [m] else [m] + Drive(hand, mazeWidth, mazeHeight, maze, Call(hand, mazeWidth, mazeHeight, maze, m), count - 1)
  }

  /** Consecutive poses of a drive are produced by one call. */
  lemma {:induction false} DriveCalls(hand: Hand, mazeWidth: int, mazeHeight: int, maze: Maze, m: Mouse, count: nat, i: nat)
    requires i < count
    ensures var trail := Drive(hand, mazeWidth, mazeHeight, maze, m, count);
      trail[i + 1] == Call(hand, mazeWidth, mazeHeight, maze, trail[i])
    decreases count
  {
    if i > 0 {
      DriveCalls(hand, mazeWidth, mazeHeight, maze, Call(hand, mazeWidth, mazeHeight, maze, m), count - 1, i - 1);
    }
  }

  /**
   * Every drive in the physical maze is a walk through open sides whose
   * step count grows by one per move, and the goal is reported at most
   * once: after the flag is raised it stays raised.
   */
  lemma DriveWalk(hand: Hand, mazeWidth: int, mazeHeight: int, maze: Maze, m: Mouse, count: nat)
    ensures var trail := Drive(hand, mazeWidth, mazeHeight, maze, m, count);
      forall i :: 0 <= i < count ==>
        && (trail[i].goalReached ==> trail[i + 1].goalReached)
        && (((trail[i + 1].x, trail[i + 1].y) == (trail[i].x, trail[i].y) && trail[i + 1].steps == trail[i].steps)
            || (MazeStep(maze, (trail[i].x, trail[i].y), (trail[i + 1].x, trail[i + 1].y))
                && trail[i + 1].steps == trail[i].steps + 1))
  {
    var trail := Drive(hand, mazeWidth, mazeHeight, maze, m, count);
    forall i | 0 <= i < count
      ensures && (trail[i].goalReached ==> trail[i + 1].goalReached)
              && (((trail[i + 1].x, trail[i + 1].y) == (trail[i].x, trail[i].y) && trail[i + 1].steps == trail[i].steps)
                  || (MazeStep(maze, (trail[i].x, trail[i].y), (trail[i + 1].x, trail[i + 1].y))
                      && trail[i + 1].steps == trail[i].steps + 1))
    {
      DriveCalls(hand, mazeWidth, mazeHeight, maze, m, count, i);
      CallStep(hand, mazeWidth, mazeHeight, maze, trail[i]);
    }
  }

  /**
   * The mouse never strays further from its start than the moves it has
   * counted: `|x - x0| + |y - y0| <= steps - steps0` along any drive.
   */
  lemma {:induction false} DriveNoFurtherThanSteps(hand: Hand, mazeWidth: int, mazeHeight: int, maze: Maze, m: Mouse, count: nat)
    ensures var last := Drive(hand, mazeWidth, mazeHeight, maze, m, count)[count];
      Manhattan(last.x, last.y, m.x, m.y) <= last.steps - m.steps
    decreases count
  {
    if count > 0 {
      var n := Call(hand, mazeWidth, mazeHeight, maze, m);
      CallStep(hand, mazeWidth, mazeHeight, maze, m);
      DriveNoFurtherThanSteps(hand, mazeWidth, mazeHeight, maze, n, count - 1);
      var last := Drive(hand, mazeWidth, mazeHeight, maze, n, count - 1)[count - 1];
      assert Drive(hand, mazeWidth, mazeHeight, maze, m, count)[count] == last;
      if (n.x, n.y) != (m.x, m.y) {
        ManhattanTriangle(last.x, last.y, n.x, n.y, m.x, m.y);
      }
    }
  }

  /**
   * The goal is reported at most once along a drive: the call that
   * raises the flag is the only call that leaves the mouse's heading and
   * position untouched while issuing nothing, and later calls keep
   * following the wall.
   */
  lemma DriveReportsOnce(hand: Hand, mazeWidth: int, mazeHeight: int, maze: Maze, m: Mouse, count: nat, i: nat, j: nat)
    requires i < j < count
    ensures var trail := Drive(hand, mazeWidth, mazeHeight, maze, m, count);
      !(!trail[i].goalReached && trail[i + 1].goalReached && !trail[j].goalReached && trail[j + 1].goalReached)
  {
    var trail := Drive(hand, mazeWidth, mazeHeight, maze, m, count);
    forall k | 0 <= k < |trail| - 1 ensures trail[k].goalReached ==> trail[k + 1].goalReached {
      DriveCalls(hand, mazeWidth, mazeHeight, maze, m, count, k);
      CallStep(hand, mazeWidth, mazeHeight, maze, trail[k]);
    }
    GoalKept(trail, i + 1, j);
  }

  /** A flag that each element passes on to the next is kept from `i` to `j`. */
  lemma {:induction false} GoalKept(trail: seq<Mouse>, i: nat, j: nat)
    requires i <= j < |trail|
    requires forall k :: 0 <= k < |trail| - 1 ==> (trail[k].goalReached ==> trail[k + 1].goalReached)
    ensures trail[i].goalReached ==> trail[j].goalReached
    decreases j - i
  {
    if i < j {
      GoalKept(trail, i + 1, j);
    }
  }

  /** The heading seen in a mirror that swaps East and West. */
  function Mirror(d: Dir): Dir { if d == 0 then 0 else 4 - d }

  function MirrorCommand(c: Command): Command {
    match c
    case TurnRight => TurnLeft
    case TurnLeft => TurnRight
    case MoveForward => MoveForward
  }

  /**
   * The left follower is the mirror image of the right follower: reading
   * left for right, it issues the mirrored calls, except at a dead end,
   * where both of them turn right.
   */
  lemma MirrorPlans(s: Sensors)
    ensures var m := Sensors(s.wallLeft, s.wallFront, s.wallRight);
      var l, r := Plan(LeftHand, m), Plan(RightHand, s);
      if s.wallRight && s.wallFront && s.wallLeft then l == r == [TurnRight]
      else |l| == |r| && forall k :: 0 <= k < |r| ==> l[k] == MirrorCommand(r[k])
  {
  }
}
