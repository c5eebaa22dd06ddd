/**
 * `LeftHandRule/solver.c`: the left-hand wall follower on its own static
 * variables, the fields of `Solver`. The sensor readings and the answer of
 * `API_moveForward` are parameters; each call changes the pose as
 * `WallFollowing.Follow` says for the left hand.
 */
module LeftHandRule {
  import opened Grid
  import opened WallFollowing

  class Solver {
    var x: int
    var y: int
    var direction: Dir
    var steps: int
    var goalReached: bool

    /** The static state as a value. */
    function State(): Mouse
      reads this
    {
      Mouse(x, y, direction, steps, goalReached)
    }

    /** The statics before the first call: at `(0, 0)` facing North, no steps, no goal. */
    constructor ()
      ensures State() == Mouse(0, 0, 0, 0, false)
    {
      x, y, direction, steps, goalReached := 0, 0, 0, 0, false;
    }

    /** `isGoal` on the mouse's cell, with the maze size the simulator reports. */
    method IsGoal(mazeWidth: int, mazeHeight: int) returns (r: bool)
      ensures r == WallFollowing.IsGoal(mazeWidth, mazeHeight, x, y)
    {
      var centerX := CDiv2(mazeWidth);
      var centerY := CDiv2(mazeHeight);
      r := (x == centerX - 1 || x == centerX) && (y == centerY - 1 || y == centerY);
    }

    /** The answer `moveOk` of `API_moveForward`: when it succeeds, the mouse is one cell further along its heading. */
    method Forward(moveOk: bool)
      modifies this`x, this`y, this`steps
      ensures if moveOk then x == old(x) + DX(direction) && y == old(y) + DY(direction) && steps == old(steps) + 1
              else x == old(x) && y == old(y) && steps == old(steps)
    {
      if moveOk {
        steps := steps + 1;
        x := x + DX(direction);
        y := y + DY(direction);
      }
    }

    /**
     * `leftWallFollower`: reports the goal on the first call that finds
     * the mouse in the centre block and does nothing else in that call;
     * otherwise left open turns left and moves, front open moves, right
     * open turns right only, and a dead end also turns right only. The
     * goal flag does not stop later calls.
     */
    method LeftWallFollower(mazeWidth: int, mazeHeight: int, wallRight: bool, wallFront: bool, wallLeft: bool,
                            moveOk: bool) returns (action: Action, issued: seq<Command>)
      modifies this
      ensures action == IDLE
      ensures (State(), issued) == Follow(LeftHand, mazeWidth, mazeHeight, old(State()),
                                          Sensors(wallRight, wallFront, wallLeft), moveOk)
      ensures !old(goalReached) && WallFollowing.IsGoal(mazeWidth, mazeHeight, old(x), old(y)) ==>
        State() == old(State()).(goalReached := true) && issued == []
      ensures direction == old(direction) || direction == (old(direction) + 1) % 4 || direction == (old(direction) + 3) % 4
      ensures ((x, y) == (old(x), old(y)) && steps == old(steps))
              || (moveOk && x == old(x) + DX(direction) && y == old(y) + DY(direction) && steps == old(steps) + 1)
    {
      action, issued := IDLE, [];
      var atGoal := IsGoal(mazeWidth, mazeHeight);
      if !goalReached && atGoal {
        goalReached := true;
        return;
      }
      TurnsModFour(direction);
      if !wallLeft {
        direction := (direction + 3) % 4;
        Forward(moveOk);
        issued := [TurnLeft, MoveForward];
      } else if !wallFront {
        Forward(moveOk);
        issued := [MoveForward];
      } else if !wallRight {
        direction := (direction + 1) % 4;
        issued := [TurnRight];
      } else {
        direction := (direction + 1) % 4;
        issued := [TurnRight];
      }
    }
  }
}
