/**
 * `RightHandRule/solver.c`: the right-hand wall follower, with the
 * left-hand follower and an idle `floodFill` beside it. The static
 * variables of the file are the fields of `Solver`; each follower call
 * reads the wall sensors and the answer of `API_moveForward`, which are
 * parameters here, and changes the pose as `WallFollowing.Follow` says.
 */
module RightHandRule {
  import opened Grid
  import opened WallFollowing

  class Solver {
    var x: int
    var y: int
    var direction: Dir
    var steps: int
    var goalReached: bool

    /** The static state as a value. */
    function State(): Mouse
      reads this
    {
      Mouse(x, y, direction, steps, goalReached)
    }

    /** The statics before the first call: at `(0, 0)` facing North, no steps, no goal. */
    constructor ()
      ensures State() == Mouse(0, 0, 0, 0, false)
    {
      x, y, direction, steps, goalReached := 0, 0, 0, 0, false;
    }

    /** `isGoal` on the mouse's cell, with the maze size the simulator reports. */
    method IsGoal(mazeWidth: int, mazeHeight: int) returns (r: bool)
      ensures r == WallFollowing.IsGoal(mazeWidth, mazeHeight, x, y)
    {
      var centerX := CDiv2(mazeWidth);
      var centerY := CDiv2(mazeHeight);
      r := (x == centerX - 1 || x == centerX) && (y == centerY - 1 || y == centerY);
    }

    /** The answer `moveOk` of `API_moveForward`: when it succeeds, the mouse is one cell further along its heading. */
    method Forward(moveOk: bool)
      modifies this`x, this`y, this`steps
      ensures if moveOk then x == old(x) + DX(direction) && y == old(y) + DY(direction) && steps == old(steps) + 1
              else x == old(x) && y == old(y) && steps == old(steps)
    {
      if moveOk {
        steps := steps + 1;
        x := x + DX(direction);
        y := y + DY(direction);
      }
    }

    /**
     * `rightWallFollower`: reports the goal on the first call that finds
     * the mouse in the centre block and does nothing else in that call;
     * otherwise right open turns right and moves, front open moves, left
     * open turns left only, and a dead end turns right only. The goal flag
     * does not stop later calls: they keep following the wall.
     */
    method RightWallFollower(mazeWidth: int, mazeHeight: int, wallRight: bool, wallFront: bool, wallLeft: bool,
                             moveOk: bool) returns (action: Action, issued: seq<Command>)
      modifies this
      ensures action == IDLE
      ensures (State(), issued) == Follow(RightHand, mazeWidth, mazeHeight, old(State()),
                                          Sensors(wallRight, wallFront, wallLeft), moveOk)
      ensures !old(goalReached) && WallFollowing.IsGoal(mazeWidth, mazeHeight, old(x), old(y)) ==>
        State() == old(State()).(goalReached := true) && issued == []
      ensures direction == old(direction) || direction == (old(direction) + 1) % 4 || direction == (old(direction) + 3) % 4
      ensures ((x, y) == (old(x), old(y)) && steps == old(steps))
              || (moveOk && x == old(x) + DX(direction) && y == old(y) + DY(direction) && steps == old(steps) + 1)
    {
      action, issued := IDLE, [];
      var atGoal := IsGoal(mazeWidth, mazeHeight);
      if !goalReached && atGoal {
        goalReached := true;
        return;
      }
      TurnsModFour(direction);
      if !wallRight {
        direction := (direction + 1) % 4;
        Forward(moveOk);
        issued := [TurnRight, MoveForward];
      } else if !wallFront {
        Forward(moveOk);
        issued := [MoveForward];
      } else if !wallLeft {
        direction := (direction + 3) % 4;
        issued := [TurnLeft];
      } else {
        direction := (direction + 1) % 4;
        issued := [TurnRight];
      }
    }

    /**
     * `leftWallFollower` of this file: the mirror order, left open turns
     * left and moves, front open moves, right open turns right only, and a
     * dead end also turns right only.
     */
    method LeftWallFollower(mazeWidth: int, mazeHeight: int, wallRight: bool, wallFront: bool, wallLeft: bool,
                            moveOk: bool) returns (action: Action, issued: seq<Command>)
      modifies this
      ensures action == IDLE
      ensures (State(), issued) == Follow(LeftHand, mazeWidth, mazeHeight, old(State()),
                                          Sensors(wallRight, wallFront, wallLeft), moveOk)
      ensures !old(goalReached) && WallFollowing.IsGoal(mazeWidth, mazeHeight, old(x), old(y)) ==>
        State() == old(State()).(goalReached := true) && issued == []
      ensures direction == old(direction) || direction == (old(direction) + 1) % 4 || direction == (old(direction) + 3) % 4
      ensures ((x, y) == (old(x), old(y)) && steps == old(steps))
              || (moveOk && x == old(x) + DX(direction) && y == old(y) + DY(direction) && steps == old(steps) + 1)
    {
      action, issued := IDLE, [];
      var atGoal := IsGoal(mazeWidth, mazeHeight);
      if !goalReached && atGoal {
        goalReached := true;
        return;
      }
      TurnsModFour(direction);
      if !wallLeft {
        direction := (direction + 3) % 4;
        Forward(moveOk);
        issued := [TurnLeft, MoveForward];
      } else if !wallFront {
        Forward(moveOk);
        issued := [MoveForward];
      } else if !wallRight {
        direction := (direction + 1) % 4;
        issued := [TurnRight];
      } else {
        direction := (direction + 1) % 4;
        issued := [TurnRight];
      }
    }

    /** `floodFill` of this file is a stub: it answers `IDLE` and touches no state. */
    method FloodFill() returns (action: Action)
      ensures action == IDLE
    {
      action := IDLE;
    }
  }
}
