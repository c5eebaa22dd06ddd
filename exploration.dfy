/**
 * The depth-first exploration shared by the two Python solvers
 * (`explore_all_cells` in `FloodfillxAstar.py` and `explore_and_map` in
 * `Astar.py`): walks through open sides, the backtrack stack and the
 * invariant that ends with every reachable cell visited and sensed.
 */
module Exploration {
  import opened Grid
  import opened Flooding

  /** A move from `a` to the adjacent cell `b` that the recorded walls allow. */
  predicate OpenMove(width: int, height: int, walls: set<WallKey>, a: Cell, b: Cell) {
    var d := DirBetween(a, b);
    d != -1 && OpenSide(width, height, walls, a, d)
  }

  /** The cell the `i`-th move of a walk starting next to `from` leaves. */
  function Prev(from: Cell, path: seq<Cell>, i: int): Cell
    requires 0 <= i <= |path|
  {
    if i == 0 then from else path[i - 1]
  }

  /** `path` is a walk of allowed moves that starts next to `from`. */
  predicate OpenPath(width: int, height: int, walls: set<WallKey>, from: Cell, path: seq<Cell>) {
    forall i {:trigger Prev(from, path, i)} :: 0 <= i < |path| ==> OpenMove(width, height, walls, Prev(from, path, i), path[i])
  }

  /** The open sides of `c` among the first `k` headings all lead into `known`. */
  predicate ClosedUpTo(width: int, height: int, walls: set<WallKey>, known: set<Cell>, c: Cell, k: int) {
    forall d: Dir :: d < k && OpenSide(width, height, walls, c, d) ==> Neighbor(c, d) in known
  }

  /** Every open neighbour of `c` is in `known`: the search has nothing left to do at `c`. */
  predicate Closed(width: int, height: int, walls: set<WallKey>, known: set<Cell>, c: Cell) {
    ClosedUpTo(width, height, walls, known, c, 4)
  }

  lemma ClosedStep(width: int, height: int, walls: set<WallKey>, known: set<Cell>, a: Cell, b: Cell)
    requires Closed(width, height, walls, known, a)
    requires OpenMove(width, height, walls, a, b)
    ensures b in known
  {
    var d: Dir := DirBetween(a, b);
    assert OpenSide(width, height, walls, a, d) && b == Neighbor(a, d);
  }

  lemma {:induction false} ClosedContainsStep(width: int, height: int, walls: set<WallKey>, known: set<Cell>,
                                             from: Cell, path: seq<Cell>, i: int)
    requires from in known
    requires forall c {:trigger Closed(width, height, walls, known, c)} :: c in known ==> Closed(width, height, walls, known, c)
    requires OpenPath(width, height, walls, from, path)
    requires 0 <= i < |path|
    ensures path[i] in known
    decreases i
  {
    if i > 0 {
      ClosedContainsStep(width, height, walls, known, from, path, i - 1);
    }
    ClosedStep(width, height, walls, known, Prev(from, path, i), path[i]);
  }

  /**
   * A set that contains `from` and is closed at each of its cells contains
   * every walk of allowed moves out of `from`.
   */
  lemma ClosedContainsPath(width: int, height: int, walls: set<WallKey>, known: set<Cell>,
                           from: Cell, path: seq<Cell>)
    requires from in known
    requires forall c {:trigger Closed(width, height, walls, known, c)} :: c in known ==> Closed(width, height, walls, known, c)
    requires OpenPath(width, height, walls, from, path)
    ensures forall i :: 0 <= i < |path| ==> path[i] in known
  {
    forall i | 0 <= i < |path| ensures path[i] in known {
      ClosedContainsStep(width, height, walls, known, from, path, i);
    }
  }

  lemma ClosedUpToGrows(width: int, height: int, walls: set<WallKey>, walls2: set<WallKey>,
                        known: set<Cell>, known2: set<Cell>, c: Cell, k: int)
    requires walls <= walls2 && known <= known2
    requires ClosedUpTo(width, height, walls, known, c, k)
    ensures ClosedUpTo(width, height, walls2, known2, c, k)
  {
  }

  /** A walk through the physical maze: every move crosses an unwalled side into a cell inside the maze. */
  predicate MazePath(width: int, height: int, maze: Maze, from: Cell, path: seq<Cell>) {
    forall i {:trigger Prev(from, path, i)} :: 0 <= i < |path| ==>
      MazeStep(maze, Prev(from, path, i), path[i]) && InBounds(width, height, path[i])
  }

  /**
   * Coverage of the exploration: when every recorded wall is a physical
   * wall and every visited cell has all its open neighbours visited,
   * every cell reachable from a visited cell through the physical maze
   * is visited.
   */
  lemma ExplorationCoversReachable(width: int, height: int, maze: Maze, walls: set<WallKey>,
                                   visited: set<Cell>, from: Cell, path: seq<Cell>)
    requires from in visited
    requires forall c {:trigger Closed(width, height, walls, visited, c)} :: c in visited ==> Closed(width, height, walls, visited, c)
    requires forall k :: k in walls ==> WallAt(maze, k.0, k.1, k.2)
    requires MazePath(width, height, maze, from, path)
    ensures forall i :: 0 <= i < |path| ==> path[i] in visited
  {
    forall i | 0 <= i < |path|
      ensures OpenMove(width, height, walls, Prev(from, path, i), path[i])
    {
      var a := Prev(from, path, i);
      var d: Dir := DirBetween(a, path[i]);
      assert !WallAt(maze, a.0, a.1, d);
      assert path[i] == Neighbor(a, d);
    }
    ClosedContainsPath(width, height, walls, visited, from, path);
  }

  /**
   * A maze whose walls are the same seen from either side, sensed at every
   * cell with nothing else recorded, gives symmetric recorded walls.
   */
  lemma SensedWallsSymmetric(width: int, height: int, maze: Maze, walls: set<WallKey>)
    requires forall x, y, d: Dir :: InBounds(width, height, (x, y)) && InBounds(width, height, Neighbor((x, y), d)) ==>
      WallAt(maze, x, y, d) == WallAt(maze, x + DX(d), y + DY(d), Back(d))
    requires forall c :: c in Cells(width, height) ==> FullySensed(maze, walls, c)
    requires forall k :: k in walls ==> WallAt(maze, k.0, k.1, k.2)
    ensures SymmetricWalls(width, height, walls)
  {
    forall x, y, d: Dir | InBounds(width, height, (x, y)) && InBounds(width, height, Neighbor((x, y), d))
      ensures (x, y, d) in walls <==> (x + DX(d), y + DY(d), Back(d)) in walls
    {
      assert (x, y) in Cells(width, height);
      assert (x + DX(d), y + DY(d)) in Cells(width, height);
      assert FullySensed(maze, walls, (x, y));
      assert FullySensed(maze, walls, (x + DX(d), y + DY(d)));
    }
  }
  lemma MazePathAppend(width: int, height: int, maze: Maze, from: Cell, path: seq<Cell>, n: Cell)
    requires MazePath(width, height, maze, from, path)
    requires MazeStep(maze, Prev(from, path, |path|), n) && InBounds(width, height, n)
    ensures MazePath(width, height, maze, from, path + [n])
  {
    var path' := path + [n];
    forall i | 0 <= i < |path'|
      ensures MazeStep(maze, Prev(from, path', i), path'[i]) && InBounds(width, height, path'[i])
    {
      if i < |path| {
        assert Prev(from, path', i) == Prev(from, path, i) && path'[i] == path[i];
      } else {
        assert Prev(from, path', i) == Prev(from, path, |path|);
      }
    }
  }

  lemma MazePathPrefix(width: int, height: int, maze: Maze, from: Cell, path: seq<Cell>)
    requires MazePath(width, height, maze, from, path) && |path| > 0
    ensures MazePath(width, height, maze, from, path[..|path| - 1])
    ensures MazeStep(maze, Prev(from, path, |path| - 1), path[|path| - 1])
  {
    var path' := path[..|path| - 1];
    forall i | 0 <= i < |path'|
      ensures MazeStep(maze, Prev(from, path', i), path'[i]) && InBounds(width, height, path'[i])
    {
      assert Prev(from, path', i) == Prev(from, path, i) && path'[i] == path[i];
    }
  }

  /** The robot stands on the cell at the top of the exploration stack. */
  predicate OnTop(stack: seq<Cell>, pos: Cell) {
    stack != [] && stack[|stack| - 1] == pos
  }

  /**
   * The loop invariant of `explore_all_cells`, on the exploration's
   * values: `seen` holds the cells entered so far, `finished` those
   * backtracked from.
   */
  ghost predicate ExploreInv(width: int, height: int, goals: seq<Cell>, maze: Maze, origin: Cell,
                             walls0: set<WallKey>, visited0: set<Cell>, walls: set<WallKey>, visited: set<Cell>,
                             stack: seq<Cell>, seen: set<Cell>, finished: set<Cell>, goal: Option<Cell>)
  {
    && |stack| >= 1 && stack[0] == origin
    && MazePath(width, height, maze, origin, stack[1..])
    && (forall i :: 0 <= i < |stack| - 1 ==> stack[i] in seen)
    && visited == visited0 + seen && walls0 <= walls && walls - walls0 <= maze
    && finished <= seen
    && (forall c {:trigger EnteredCell(goals, maze, walls, stack, finished, goal, c)} ::
          c in seen ==> EnteredCell(goals, maze, walls, stack, finished, goal, c))
    && (forall c {:trigger Closed(width, height, walls, visited, c)} :: c in finished ==> Closed(width, height, walls, visited, c))
    && (goal.Some? ==> goal.value in goals && goal.value in seen)
  }

  /**
   * What the exploration knows about a cell it has entered: all its walls
   * are recorded, it is finished or still on the stack, and it is not a
   * goal cell while no goal has been found.
   */
  ghost predicate EnteredCell(goals: seq<Cell>, maze: Maze, walls: set<WallKey>, stack: seq<Cell>,
                              finished: set<Cell>, goal: Option<Cell>, c: Cell)
  {
    FullySensed(maze, walls, c) && (c in finished || c in stack) && (goal.None? ==> c !in goals)
  }

  /**
   * Entering the top cell `c` of the stack: it is marked visited, the
   * walls `sensed` on its four sides are recorded and it is checked for the
   * goal.
   */
  lemma ExploreSense(width: int, height: int, goals: seq<Cell>, maze: Maze, origin: Cell,
                     walls0: set<WallKey>, visited0: set<Cell>, walls: set<WallKey>, visited: set<Cell>,
                     stack: seq<Cell>, seen: set<Cell>, finished: set<Cell>, goal: Option<Cell>,
                     c: Cell, direction: Dir, sensed: set<WallKey>, goal': Option<Cell>)
    requires ExploreInv(width, height, goals, maze, origin, walls0, visited0, walls, visited, stack, seen, finished, goal)
    requires OnTop(stack, c)
    requires sensed == Sensed(c.0, c.1, direction, WallAt(maze, c.0, c.1, direction), WallAt(maze, c.0, c.1, Left(direction)),
                              WallAt(maze, c.0, c.1, Right(direction)), WallAt(maze, c.0, c.1, Back(direction)))
    requires goal' == if c in goals && goal.None? then Some(c) else goal
    ensures ExploreInv(width, height, goals, maze, origin, walls0, visited0, walls + sensed, visited + {c},
                       stack, seen + {c}, finished, goal')
    ensures FullySensed(maze, walls + sensed, c)
  {
    SensedAll(maze, c.0, c.1, direction);
    forall e | e in finished ensures Closed(width, height, walls + sensed, visited + {c}, e) {
      assert Closed(width, height, walls, visited, e);
      ClosedUpToGrows(width, height, walls, walls + sensed, visited, visited + {c}, e, 4);
    }
    forall e | e in seen + {c} ensures EnteredCell(goals, maze, walls + sensed, stack, finished, goal', e) {
      if e in seen {
        assert EnteredCell(goals, maze, walls, stack, finished, goal, e);
      }
    }
  }

  /** Moving forward into an open, unvisited neighbour `n` pushes it on the stack. */
  lemma ExplorePush(width: int, height: int, goals: seq<Cell>, maze: Maze, origin: Cell,
                    walls0: set<WallKey>, visited0: set<Cell>, walls: set<WallKey>, visited: set<Cell>,
                    stack: seq<Cell>, seen: set<Cell>, finished: set<Cell>, goal: Option<Cell>, d: Dir, n: Cell)
    requires ExploreInv(width, height, goals, maze, origin, walls0, visited0, walls, visited, stack, seen, finished, goal)
    requires stack[|stack| - 1] in seen && FullySensed(maze, walls, stack[|stack| - 1])
    requires OpenSide(width, height, walls, stack[|stack| - 1], d) && n == Neighbor(stack[|stack| - 1], d)
    ensures ExploreInv(width, height, goals, maze, origin, walls0, visited0, walls, visited,
                       stack + [n], seen, finished, goal)
  {
    var c := stack[|stack| - 1];
    var stack' := stack + [n];
    DirBetweenNeighbor(c, d);
    assert MazeStep(maze, c, n);
    assert Prev(origin, stack[1..], |stack[1..]|) == c;
    MazePathAppend(width, height, maze, origin, stack[1..], n);
    assert stack'[1..] == stack[1..] + [n];
    forall i | 0 <= i < |stack'| - 1 ensures stack'[i] in seen {
      assert stack'[i] == stack[i];
    }
    forall e | e in seen ensures EnteredCell(goals, maze, walls, stack', finished, goal, e) {
      assert EnteredCell(goals, maze, walls, stack, finished, goal, e);
      if e in stack {
        var i :| 0 <= i < |stack| && stack[i] == e;
        assert stack'[i] == e;
      }
    }
  }

  /** Backtracking from a closed cell: it is finished and its predecessor on the stack is next to it. */
  lemma ExplorePop(width: int, height: int, goals: seq<Cell>, maze: Maze, origin: Cell,
                   walls0: set<WallKey>, visited0: set<Cell>, walls: set<WallKey>, visited: set<Cell>,
                   stack: seq<Cell>, seen: set<Cell>, finished: set<Cell>, goal: Option<Cell>, c: Cell)
    requires ExploreInv(width, height, goals, maze, origin, walls0, visited0, walls, visited, stack, seen, finished, goal)
    requires |stack| > 1 && OnTop(stack, c) && c in seen
    requires Closed(width, height, walls, visited, c)
    ensures ExploreInv(width, height, goals, maze, origin, walls0, visited0, walls, visited,
                       stack[..|stack| - 1], seen, finished + {c}, goal)
    ensures var rest := stack[..|stack| - 1]; rest[|rest| - 1] in visited && DirBetween(c, rest[|rest| - 1]) != -1
  {
    var prev := stack[|stack| - 2];
    var stack' := stack[..|stack| - 1];
    MazePathPrefix(width, height, maze, origin, stack[1..]);
    assert Prev(origin, stack[1..], |stack[1..]| - 1) == prev;
    assert stack'[1..] == stack[1..][..|stack[1..]| - 1];
    assert MazeStep(maze, prev, c);
    NeighborBack(prev, DirBetween(prev, c));
    assert Neighbor(c, Back(DirBetween(prev, c))) == prev;
    forall e | e in seen ensures EnteredCell(goals, maze, walls, stack', finished + {c}, goal, e) {
      assert EnteredCell(goals, maze, walls, stack, finished, goal, e);
      if e in stack && e != c {
        var i :| 0 <= i < |stack| && stack[i] == e;
        assert i < |stack| - 1 && stack'[i] == e;
      }
    }
    forall e | e in finished + {c} ensures Closed(width, height, walls, visited, e) {
      if e != c {
        assert e in finished;
      }
    }
  }

  /**
   * What the exploration has left to do: every unvisited cell is entered
   * once and left once, and the top of the stack, when already visited, is
   * either left by a push or popped.
   */
  ghost function ExploreMeasure(width: int, height: int, visited: set<Cell>, stack: seq<Cell>): int {
    var unvisited := Cells(width, height) - visited;
    2 * |unvisited| + |stack| + (if stack != [] && stack[|stack| - 1] in unvisited then 0 else 2)
  }

  lemma UnvisitedCard(width: int, height: int, visited: set<Cell>, c: Cell)
    ensures var u := Cells(width, height) - visited;
      |Cells(width, height) - (visited + {c})| == if c in u then |u| - 1 else |u|
  {
    var u := Cells(width, height) - visited;
    if c in u {
      assert Cells(width, height) - (visited + {c}) == u - {c};
    } else {
      assert Cells(width, height) - (visited + {c}) == u;
    }
  }

  /** Entering the top cell and pushing an unvisited neighbour lowers the measure. */
  lemma ExploreMeasurePush(width: int, height: int, visited: set<Cell>, stack: seq<Cell>, n: Cell)
    requires stack != [] && n in Cells(width, height) && n !in visited && n != stack[|stack| - 1]
    ensures ExploreMeasure(width, height, visited + {stack[|stack| - 1]}, stack + [n])
      < ExploreMeasure(width, height, visited, stack)
  {
    UnvisitedCard(width, height, visited, stack[|stack| - 1]);
  }

  /** Entering the top cell and popping it, leaving a visited cell on top, lowers the measure. */
  lemma ExploreMeasurePop(width: int, height: int, visited: set<Cell>, stack: seq<Cell>)
    requires |stack| > 1 && stack[|stack| - 2] in visited + {stack[|stack| - 1]}
    ensures ExploreMeasure(width, height, visited + {stack[|stack| - 1]}, stack[..|stack| - 1])
      < ExploreMeasure(width, height, visited, stack)
  {
    UnvisitedCard(width, height, visited, stack[|stack| - 1]);
  }

  /** Backtracking has emptied the stack down to the start cell, which is closed: the exploration is complete. */
  lemma ExploreEnd(width: int, height: int, goals: seq<Cell>, maze: Maze, origin: Cell,
                   walls0: set<WallKey>, visited0: set<Cell>, walls: set<WallKey>, visited: set<Cell>,
                   stack: seq<Cell>, seen: set<Cell>, finished: set<Cell>, goal: Option<Cell>)
    requires ExploreInv(width, height, goals, maze, origin, walls0, visited0, walls, visited, stack, seen, finished, goal)
    requires |stack| == 1 && origin in seen
    requires Closed(width, height, walls, visited, origin)
    ensures visited0 <= visited && origin in visited && walls0 <= walls
    ensures forall k :: k in walls && k !in walls0 ==> WallAt(maze, k.0, k.1, k.2)
    ensures forall c :: c in visited && (c !in visited0 || c == origin) ==>
      FullySensed(maze, walls, c) && Closed(width, height, walls, visited, c)
    ensures goal.Some? ==> goal.value in goals && goal.value in visited
    ensures goal.None? ==> forall c :: c in visited && (c !in visited0 || c == origin) ==> c !in goals
  {
    forall k | k in walls && k !in walls0 ensures WallAt(maze, k.0, k.1, k.2) {
      assert k in walls - walls0;
    }
    forall c | c in visited && (c !in visited0 || c == origin)
      ensures FullySensed(maze, walls, c) && Closed(width, height, walls, visited, c) && (goal.None? ==> c !in goals)
    {
      assert c in seen;
      assert EnteredCell(goals, maze, walls, stack, finished, goal, c);
      if c != origin {
        assert c !in stack;
        assert c in finished;
      }
    }
  }
  /**
   * What `explore_all_cells` leaves behind: it only adds walls and visited
   * cells, every new wall is a physical wall, every cell it entered is
   * sensed on all four sides with all its open neighbours visited, and
   * `goal` is the first goal cell entered, if any.
   */
  ghost predicate ExploreResult(width: int, height: int, goals: seq<Cell>, maze: Maze, origin: Cell,
                                walls0: set<WallKey>, visited0: set<Cell>, walls: set<WallKey>, visited: set<Cell>,
                                goal: Option<Cell>)
  {
    && visited0 <= visited && origin in visited && walls0 <= walls
    && (forall k :: k in walls && k !in walls0 ==> WallAt(maze, k.0, k.1, k.2))
    && (forall e :: e in visited && (e !in visited0 || e == origin) ==>
          FullySensed(maze, walls, e) && Closed(width, height, walls, visited, e))
    && (goal.Some? ==> goal.value in goals && goal.value in visited)
    && (goal.None? ==> forall e :: e in visited && (e !in visited0 || e == origin) ==> e !in goals)
  }

  /**
   * One round of `explore_all_cells` that moves forward: the top cell `c`
   * is entered and sensed, and the open unvisited neighbour `n` across side
   * `d` is pushed.
   */
  lemma ExploreAdvance(width: int, height: int, goals: seq<Cell>, maze: Maze, origin: Cell,
                       walls0: set<WallKey>, visited0: set<Cell>, walls: set<WallKey>, visited: set<Cell>,
                       stack: seq<Cell>, seen: set<Cell>, finished: set<Cell>, goal: Option<Cell>,
                       c: Cell, direction: Dir, sensed: set<WallKey>, goal': Option<Cell>, d: Dir, n: Cell)
    requires ExploreInv(width, height, goals, maze, origin, walls0, visited0, walls, visited, stack, seen, finished, goal)
    requires OnTop(stack, c)
    requires sensed == Sensed(c.0, c.1, direction, WallAt(maze, c.0, c.1, direction), WallAt(maze, c.0, c.1, Left(direction)),
                              WallAt(maze, c.0, c.1, Right(direction)), WallAt(maze, c.0, c.1, Back(direction)))
    requires goal' == if c in goals && goal.None? then Some(c) else goal
    requires OpenSide(width, height, walls + sensed, c, d) && n == Neighbor(c, d) && n !in visited + {c}
    ensures ExploreInv(width, height, goals, maze, origin, walls0, visited0, walls + sensed, visited + {c},
                       stack + [n], seen + {c}, finished, goal')
    ensures ExploreMeasure(width, height, visited + {c}, stack + [n]) < ExploreMeasure(width, height, visited, stack)
  {
    ExploreSense(width, height, goals, maze, origin, walls0, visited0, walls, visited, stack, seen, finished, goal,
                 c, direction, sensed, goal');
    ExplorePush(width, height, goals, maze, origin, walls0, visited0, walls + sensed, visited + {c},
                stack, seen + {c}, finished, goal', d, n);
    ExploreMeasurePush(width, height, visited, stack, n);
  }

  /**
   * One round of `explore_all_cells` that backtracks: the top cell `c` is
   * entered and sensed, has no open unvisited neighbour, and is popped; the
   * new top is a visited neighbour of `c`.
   */
  lemma ExploreRetreat(width: int, height: int, goals: seq<Cell>, maze: Maze, origin: Cell,
                       walls0: set<WallKey>, visited0: set<Cell>, walls: set<WallKey>, visited: set<Cell>,
                       stack: seq<Cell>, seen: set<Cell>, finished: set<Cell>, goal: Option<Cell>,
                       c: Cell, direction: Dir, sensed: set<WallKey>, goal': Option<Cell>)
    requires ExploreInv(width, height, goals, maze, origin, walls0, visited0, walls, visited, stack, seen, finished, goal)
    requires OnTop(stack, c) && |stack| > 1
    requires sensed == Sensed(c.0, c.1, direction, WallAt(maze, c.0, c.1, direction), WallAt(maze, c.0, c.1, Left(direction)),
                              WallAt(maze, c.0, c.1, Right(direction)), WallAt(maze, c.0, c.1, Back(direction)))
    requires goal' == if c in goals && goal.None? then Some(c) else goal
    requires Closed(width, height, walls + sensed, visited + {c}, c)
    ensures ExploreInv(width, height, goals, maze, origin, walls0, visited0, walls + sensed, visited + {c},
                       stack[..|stack| - 1], seen + {c}, finished + {c}, goal')
    ensures ExploreMeasure(width, height, visited + {c}, stack[..|stack| - 1]) < ExploreMeasure(width, height, visited, stack)
    ensures var rest := stack[..|stack| - 1]; DirBetween(c, rest[|rest| - 1]) != -1
  {
    ExploreSense(width, height, goals, maze, origin, walls0, visited0, walls, visited, stack, seen, finished, goal,
                 c, direction, sensed, goal');
    ExplorePop(width, height, goals, maze, origin, walls0, visited0, walls + sensed, visited + {c},
               stack, seen + {c}, finished, goal', c);
    ExploreMeasurePop(width, height, visited, stack);
  }

  /**
   * The last round of `explore_all_cells`: the start cell, alone on the
   * stack, is entered and sensed and has no open unvisited neighbour.
   */
  lemma ExploreFinish(width: int, height: int, goals: seq<Cell>, maze: Maze, origin: Cell,
                      walls0: set<WallKey>, visited0: set<Cell>, walls: set<WallKey>, visited: set<Cell>,
                      stack: seq<Cell>, seen: set<Cell>, finished: set<Cell>, goal: Option<Cell>,
                      c: Cell, direction: Dir, sensed: set<WallKey>, goal': Option<Cell>)
    requires ExploreInv(width, height, goals, maze, origin, walls0, visited0, walls, visited, stack, seen, finished, goal)
    requires OnTop(stack, c) && |stack| == 1
    requires sensed == Sensed(c.0, c.1, direction, WallAt(maze, c.0, c.1, direction), WallAt(maze, c.0, c.1, Left(direction)),
                              WallAt(maze, c.0, c.1, Right(direction)), WallAt(maze, c.0, c.1, Back(direction)))
    requires goal' == if c in goals && goal.None? then Some(c) else goal
    requires Closed(width, height, walls + sensed, visited + {c}, c)
    ensures c == origin
    ensures ExploreResult(width, height, goals, maze, origin, walls0, visited0, walls + sensed, visited + {c}, goal')
  {
    ExploreSense(width, height, goals, maze, origin, walls0, visited0, walls, visited, stack, seen, finished, goal,
                 c, direction, sensed, goal');
    ExploreEnd(width, height, goals, maze, origin, walls0, visited0, walls + sensed, visited + {c},
               stack, seen + {c}, finished, goal');
  }
  /** A walk of open moves extended by one more open move is still one. */
  lemma OpenPathAppend(width: int, height: int, walls: set<WallKey>, from: Cell, path: seq<Cell>,
                       pos: Cell, d: Dir, next: Cell)
    requires OpenPath(width, height, walls, from, path) && pos == Prev(from, path, |path|)
    requires OpenSide(width, height, walls, pos, d) && next == (pos.0 + DX(d), pos.1 + DY(d))
    ensures OpenPath(width, height, walls, from, path + [next])
    ensures Prev(from, path + [next], |path|) == pos && Prev(from, path + [next], |path| + 1) == next
  {
    var path' := path + [next];
    DirBetweenNeighbor(pos, d);
    forall i | 0 <= i < |path'| ensures OpenMove(width, height, walls, Prev(from, path', i), path'[i]) {
      if i < |path| {
        assert Prev(from, path', i) == Prev(from, path, i) && path'[i] == path[i];
      }
    }
  }

  /** Consecutive cells of `path`, taken from `from`, are neighbours. */
  predicate AdjacentWalk(from: Cell, path: seq<Cell>) {
    forall i {:trigger Prev(from, path, i)} :: 0 <= i < |path| ==> DirBetween(Prev(from, path, i), path[i]) != -1
  }

  /**
   * Along a walk of neighbouring cells the Manhattan distance between two
   * of its cells is at most the number of moves between them: the
   * heuristic of both A* searches never overestimates.
   */
  lemma {:induction false} WalkManhattan(from: Cell, path: seq<Cell>, i: int, k: int)
    requires AdjacentWalk(from, path) && 0 <= i <= k <= |path|
    ensures var a, b := Prev(from, path, i), Prev(from, path, k); Manhattan(a.0, a.1, b.0, b.1) <= k - i
    decreases k - i
  {
    if i < k {
      WalkManhattan(from, path, i + 1, k);
      var a, b := Prev(from, path, i), Prev(from, path, k);
      var d: Dir := DirBetween(a, path[i]);
      assert Prev(from, path, i + 1) == path[i] == Neighbor(a, d);
      ManhattanStep(a, d, b);
    }
  }

  /**
   * A flooded distance is at most the number of moves of any open walk
   * from a goal inside the maze: `dist[n] <= dist[c] + 1` across every
   * open side, one move at a time.
   */
  lemma {:induction false} FloodedWithinWalk(width: int, height: int, walls: set<WallKey>, goals: seq<Cell>,
                                             dist: map<Cell, int>, i: int, path: seq<Cell>, k: int)
    requires Flooded(width, height, walls, dist, goals)
    requires 0 <= i < |goals| && InBounds(width, height, goals[i])
    requires OpenPath(width, height, walls, goals[i], path) && 0 <= k <= |path|
    ensures InBounds(width, height, Prev(goals[i], path, k))
    ensures dist[Prev(goals[i], path, k)] <= k
    decreases k
  {
    if k > 0 {
      FloodedWithinWalk(width, height, walls, goals, dist, i, path, k - 1);
      var a := Prev(goals[i], path, k - 1);
      assert OpenMove(width, height, walls, a, path[k - 1]);
      var d: Dir := DirBetween(a, path[k - 1]);
      assert Relaxed(width, height, walls, dist, a);
      assert Prev(goals[i], path, k) == path[k - 1] == Neighbor(a, d);
    }
  }

  /**
   * A reached cell that is not a goal has a neighbour exactly one closer
   * whose side toward it is open: the descent's side is open, so the
   * neighbour's `Relaxed` bound makes the drop exactly one.
   */
  lemma FloodedDescent(width: int, height: int, walls: set<WallKey>, goals: seq<Cell>, dist: map<Cell, int>, c: Cell)
    returns (e: Dir)
    requires Flooded(width, height, walls, dist, goals)
    requires InBounds(width, height, c) && c !in goals && dist[c] < INF
    ensures InBounds(width, height, Neighbor(c, e)) && dist[Neighbor(c, e)] == dist[c] - 1
    ensures OpenSide(width, height, walls, Neighbor(c, e), Back(e))
    ensures c == (Neighbor(c, e).0 + DX(Back(e)), Neighbor(c, e).1 + DY(Back(e)))
  {
    assert HasDescent(Cells(width, height), walls, dist, c);
    e :| Neighbor(c, e) in Cells(width, height) && Neighbor(c, e) in dist
      && (Neighbor(c, e).0, Neighbor(c, e).1, Back(e)) !in walls && dist[Neighbor(c, e)] < dist[c];
    var n := Neighbor(c, e);
    assert InBounds(width, height, n);
    NeighborBack(c, e);
    assert OpenSide(width, height, walls, n, Back(e));
    assert Relaxed(width, height, walls, dist, n);
  }

  /** The walk of `FloodedWalkExists`, built by following descents back to a goal. */
  lemma {:induction false} FloodedWalk(width: int, height: int, walls: set<WallKey>, goals: seq<Cell>,
                                       dist: map<Cell, int>, c: Cell)
    returns (i: int, path: seq<Cell>)
    requires Flooded(width, height, walls, dist, goals)
    requires InBounds(width, height, c) && dist[c] < INF
    ensures 0 <= i < |goals| && InBounds(width, height, goals[i])
    ensures OpenPath(width, height, walls, goals[i], path) && |path| == dist[c] && Prev(goals[i], path, |path|) == c
    decreases dist[c]
  {
    if c in goals {
      i :| 0 <= i < |goals| && goals[i] == c;
      path := [];
    } else {
      var e := FloodedDescent(width, height, walls, goals, dist, c);
      var n := Neighbor(c, e);
      var p;
      i, p := FloodedWalk(width, height, walls, goals, dist, n);
      OpenPathAppend(width, height, walls, goals[i], p, n, Back(e), c);
      path := p + [c];
    }
  }

  /**
   * Conversely, a cell the flood reached is the end of an open walk from
   * a goal inside the maze with exactly `dist[c]` moves. With
   * `FloodedWithinWalk`, the flooded distance is the length of a shortest
   * open walk from the goals.
   */
  lemma FloodedWalkExists(width: int, height: int, walls: set<WallKey>, goals: seq<Cell>,
                          dist: map<Cell, int>, c: Cell)
    requires Flooded(width, height, walls, dist, goals)
    requires InBounds(width, height, c) && dist[c] < INF
    ensures exists i, path ::
              && 0 <= i < |goals| && InBounds(width, height, goals[i])
              && OpenPath(width, height, walls, goals[i], path) && |path| == dist[c] && Prev(goals[i], path, |path|) == c
  {
    var i, path := FloodedWalk(width, height, walls, goals, dist, c);
  }
}
