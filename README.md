# Micromouse solvers, modelled in Dafny

This project models the maze-solving core of a micromouse repository. That
core is six solvers. Each one drives a simulated mouse through a grid maze
of `width` by `height` cells, with headings 0 = North, 1 = East, 2 = South,
3 = West.

- `FloodfillxAstar.py` (module `FloodfillAstar`, class `MazeSolver`):
  - a depth-first exploration of the whole maze that records the walls it senses;
  - a breadth-first flood of distances from the 2x2 goal block;
  - an A* search back to `(0, 0)` with the Manhattan heuristic;
  - a final run down the distance gradient.
- `FloodFill.py` (module `FloodFillPy`, class `FloodFillSolver`):
  - a wall list `[N, E, S, W]` per cell, with the boundary pre-walled and every sensed wall mirrored onto the neighbour;
  - a greedy exploration run toward the centre that refloods when the distances around the robot are inconsistent;
  - a return run that follows distances down to `(0, 0)`.
- `C-Codes/FloodFill/solver.c` (module `FloodFillC`, class `Solver`): the same flood-fill idea, in C.
  - The static arrays are Dafny arrays, and the BFS queue is a fixed array of 256 nodes.
  - Each simulator call is one `Step`.
- `Astar.py` (module `Astar`):
  - a depth-first exploration from `(0, 0)`;
  - a goal check by movement pattern;
  - an A* search without bounds checks;
  - a path follower.
- `C-Codes/RightHandRule/solver.c` and `C-Codes/LeftHandRule/solver.c` (modules `RightHandRule` and `LeftHandRule`, one class `Solver` each): wall followers that keep one hand on the wall.
  - Their shared decision is stated once, on values, in `WallFollowing`.

Shared modules:

| module | contents |
|---|---|
| `Grid` | headings, the `dx`/`dy` tables, the Manhattan metric, the four-sensor wall reading, the turning loop |
| `Search` | the open set as a multiset with Python's tuple order, and the walk back along `came_from` |
| `Flooding` | the breadth-first flood of both Python flood-fill solvers, with its uniqueness theorem |
| `Exploration` | the depth-first exploration invariant of both Python explorers |

Sensors, `API.moveForward` results and the maze itself are inputs.

- A wall reading is a method parameter, or is read from a fixed physical maze `Maze` (a set of walled sides `(x, y, d)`).
- The simulator calls a solver makes are returned as a sequence of `Command`s.

Main results proved:

- **Floods.** Every flood ends in a `Flooded` distance map:
  - open neighbours differ by at most one;
  - every reached non-goal cell has a strictly smaller open neighbour.

  Such a map is unique, so re-flooding without a new wall changes nothing.
- **A\* searches.** Both A\* searches return an open walk to the target, and no walk is shorter. An empty heap means no open walk reaches the target.
- **Explorations.** Both explorations end back at the start cell. Every cell reachable through the physical maze is then visited and fully sensed.
- **Wall followers.** The followers move only through open sides, and they report the goal at most once.

## Model

| member | source | states |
|---|---|---|
| Grid.DirTables | src/PythonCodes/FloodfillxAstar.py:6-8 | `DX`/`DY` agree with the tables `dx = [0, 1, 0, -1]`, `dy = [1, 0, -1, 0]` |
| Grid.TurnsModFour | src/PythonCodes/FloodfillxAstar.py:61-74 | a right, left and half turn are `(d + 1) % 4`, `(d + 3) % 4` = `(d - 1) % 4` and `(d + 2) % 4` |
| Grid.Manhattan | src/PythonCodes/FloodfillxAstar.py:14-15 | the Manhattan distance is non-negative and at least the difference in each coordinate |
| Grid.ManhattanStep | src/PythonCodes/Astar.py:14-15 | one grid step changes the Manhattan distance to a fixed cell by exactly one, so the heuristic is consistent |
| Grid.ManhattanTriangle | src/PythonCodes/Astar.py:14-15 | the Manhattan distance satisfies the triangle inequality |
| Grid.ManhattanSymmetric | src/PythonCodes/FloodfillxAstar.py:14-15 | the Manhattan distance is the same in both directions |
| Grid.ManhattanZero | src/PythonCodes/FloodfillxAstar.py:14-15 | the Manhattan distance is zero exactly between a cell and itself |
| Grid.NeighborBack | src/PythonCodes/FloodFill.py:64-68 | crossing side `d` and then side `(d + 2) % 4` returns to the start cell |
| Grid.OnBoundaryOutside | src/PythonCodes/FloodFill.py:38-44 | for a cell inside the maze, a side is a boundary side exactly when its neighbour lies outside |
| Grid.DirBetween | src/PythonCodes/FloodfillxAstar.py:128-133 | the heading from `a` to `b`, which leads to `b`; -1 exactly when `b` is none of `a`'s four neighbours |
| Grid.FindDirection | src/PythonCodes/FloodfillxAstar.py:128-133 | the search over `range(4)` finds a heading whose step reaches the target, and finds none exactly when the target is not adjacent |
| Grid.Sensed | src/PythonCodes/FloodfillxAstar.py:46-55 | the wall keys added are exactly `(x, y, side)` for each sensor that reported a wall: front, `(d - 1) % 4`, `(d + 1) % 4`, `(d + 2) % 4` |
| Grid.SensedAll | src/PythonCodes/FloodfillxAstar.py:46-55 | a four-sensor reading of the physical maze records exactly the physical walls around the cell |
| Grid.TurnToward | src/PythonCodes/FloodfillxAstar.py:61-74 | the turning loop ends facing the target; a difference of 1 issues one right turn, 3 one left turn, 2 two right turns, 0 nothing |
| Grid.CDiv2 | src/C-Codes/RightHandRule/solver.c:25-26 | C's `/ 2` truncates toward zero: it equals Euclidean division for non-negative values, and `n - 2 * r` is at most one in size |
| Search.PopMin | src/PythonCodes/FloodfillxAstar.py:203 | `heappop` returns an entry no greater than any other in `(priority, x, y)` order and removes exactly one copy of it |
| Search.Reverse | src/PythonCodes/FloodfillxAstar.py:211 | `path.reverse()` keeps the length and mirrors the indices |
| Search.ReconstructPath | src/PythonCodes/FloodfillxAstar.py:205-214 | the path is empty iff goal = start, ends at the goal, each cell's parent is the previous cell, the first cell's parent is the start, and its length is at most `g[goal] - g[start]` |
| Search.PotentialShrinks | src/PythonCodes/FloodfillxAstar.py:228-232 | a strict improvement of a score inside the finite region strictly shrinks the search's termination measure |
| Flooding.FloodStart | src/PythonCodes/FloodfillxAstar.py:147-156 | after seeding (maze cells at 9999, goal cells at 0 and queued) the flood invariant holds |
| Flooding.FloodPop | src/PythonCodes/FloodfillxAstar.py:158-160 | the cell taken from the front of the queue has a non-negative distance and the invariant holds with it set apart |
| Flooding.FloodLower | src/PythonCodes/FloodfillxAstar.py:174-177 | lowering an open neighbour to `dist + 1` and queueing it keeps the invariant and strictly lowers the termination measure |
| Flooding.LowerKeepsDescent | src/PythonCodes/FloodfillxAstar.py:174-177 | after the lowering, every reached non-goal cell still has a descent from a smaller neighbour |
| Flooding.Flood | src/PythonCodes/FloodfillxAstar.py:158-177 | the BFS loop ends with an empty queue and the flood invariant, and changes no entry outside the maze and the goals |
| Flooding.LowerNeighbors | src/PythonCodes/FloodfillxAstar.py:162-177 | after the inner loop the popped cell satisfies `dist[n] <= dist[c] + 1` on every open side, and either nothing changed or the measure dropped |
| Flooding.FloodedAtEnd | src/PythonCodes/FloodFill.py:106-138 | a flood run to an empty queue is `Flooded`: values in `0..9999`, goals at 0, `dist[n] <= dist[c] + 1` across every open side, and every reached non-goal cell has a smaller neighbour whose side toward it is open |
| Flooding.FloodBelow | src/PythonCodes/FloodFill.py:124-138 | a cell one flooded map reaches at distance `v` has distance at most `v` in every map flooded from the same goals over the same walls |
| Flooding.FloodUnique | src/PythonCodes/FloodFill.py:106-138 | two maps flooded from the same goals over the same walls are equal |
| Flooding.DescentCanBeWalked | src/PythonCodes/FloodfillxAstar.py:274-296 | with symmetric walls, every reached non-goal cell has an open neighbour with a strictly smaller distance |
| Exploration.ClosedContainsPath | src/PythonCodes/FloodfillxAstar.py:86-141 | a set that holds the start and is closed at each of its cells contains every cell of every open walk from the start |
| Exploration.ExplorationCoversReachable | src/PythonCodes/FloodfillxAstar.py:86-141 | if the recorded walls are physical and every visited cell is closed, every cell reachable through the physical maze is visited |
| Exploration.SensedWallsSymmetric | src/PythonCodes/FloodfillxAstar.py:46-55 | a maze whose walls agree on both sides, sensed at every cell, yields symmetric recorded walls |
| Exploration.ExploreSense | src/PythonCodes/FloodfillxAstar.py:95-107 | entering the top cell (mark visited, sense, note the first goal) keeps the exploration invariant and leaves the cell fully sensed |
| Exploration.ExplorePush | src/PythonCodes/FloodfillxAstar.py:110-120 | moving through an open side and pushing the neighbour keeps the invariant |
| Exploration.ExplorePop | src/PythonCodes/FloodfillxAstar.py:121-133 | popping a closed cell keeps the invariant, and the new top is visited and adjacent to it |
| Exploration.ExploreMeasurePush | src/PythonCodes/FloodfillxAstar.py:110-120 | pushing an unvisited neighbour lowers the exploration's measure |
| Exploration.ExploreEnd | src/PythonCodes/FloodfillxAstar.py:134-141 | when only the start cell is left, the walls and visited cells only grew, new walls are physical, and every cell entered is fully sensed and closed; a goal found is a visited goal cell, and none means no goal cell was entered |
| Exploration.ExploreAdvance | src/PythonCodes/FloodfillxAstar.py:94-120 | a round that moves forward keeps the invariant and lowers the measure |
| Exploration.ExploreRetreat | src/PythonCodes/FloodfillxAstar.py:121-133 | a round that backtracks keeps the invariant, lowers the measure, and the new top is adjacent |
| Exploration.ExploreFinish | src/PythonCodes/FloodfillxAstar.py:134-141 | the last round happens at the start cell and establishes the exploration's result |
| Exploration.WalkManhattan | src/PythonCodes/Astar.py:14-15 | along a walk of adjacent cells the Manhattan distance between two of its cells is at most the number of moves between them |
| Exploration.FloodedWithinWalk | src/PythonCodes/FloodFill.py:108 | in a flooded map, a cell reached from an in-bounds goal by an open walk of k moves has distance at most k |
| Exploration.FloodedDescent | src/PythonCodes/FloodFill.py:126-138 | a reached non-goal cell of a flooded map has a neighbour, open toward it, exactly one closer |
| Exploration.FloodedWalk | src/PythonCodes/FloodFill.py:108 | a reached cell of a flooded map is the end of an open walk from an in-bounds goal of exactly its distance in moves |
| Exploration.FloodedWalkExists | src/PythonCodes/FloodFill.py:108 | the same, stated as existence: a flooded distance below INF is the length of a shortest open walk from some goal |
| FloodfillAstar.GoalBlock | src/PythonCodes/FloodfillxAstar.py:32-38 | four cells, exactly the 2x2 block whose upper-right cell is `(width // 2, width // 2)` |
| FloodfillAstar.GoalBlockInside | src/PythonCodes/FloodfillxAstar.py:32-38 | on a maze at least as tall as it is wide (width >= 2), the goal block lies inside the maze |
| FloodfillAstar.GoalBlockIgnoresHeight | src/PythonCodes/FloodfillxAstar.py:32-38 | the height is not used: on a 16 by 8 maze a goal cell lies above the top row |
| FloodfillAstar.MazeSolver.constructor | src/PythonCodes/FloodfillxAstar.py:18-41 | start at `(0, 0)` facing North, with no walls, no visited cells and no distances |
| FloodfillAstar.MazeSolver.IsGoal | src/PythonCodes/FloodfillxAstar.py:57-59 | true exactly on the goal block |
| FloodfillAstar.MazeSolver.SenseWalls | src/PythonCodes/FloodfillxAstar.py:46-55 | adds exactly the sensed wall keys at the robot's cell |
| FloodfillAstar.MazeSolver.TurnToDirection | src/PythonCodes/FloodfillxAstar.py:61-74 | ends facing the target, and the turns issued rotate the old heading to it |
| FloodfillAstar.ScanNeighbors | src/PythonCodes/FloodfillxAstar.py:76-84 | lists, in heading order, exactly the open in-bounds sides leading to unvisited cells; empty iff the cell is closed |
| FloodfillAstar.MazeSolver.GetUnvisitedNeighbors | src/PythonCodes/FloodfillxAstar.py:76-84 | the same, for the robot's cell |
| FloodfillAstar.ExploreRound | src/PythonCodes/FloodfillxAstar.py:94-135 | one loop round adds the sensed walls and the visited cell; it either keeps the invariant with the robot on top of the stack and a lower measure, or ends at the start with the result |
| FloodfillAstar.Explore | src/PythonCodes/FloodfillxAstar.py:86-141 | the robot ends at its start; walls and visited only grow, new walls are physical, every cell entered is fully sensed and closed, and the goal found is a goal cell that was visited |
| FloodfillAstar.MazeSolver.ExploreAllCells | src/PythonCodes/FloodfillxAstar.py:86-141 | the same, on the solver's fields |
| FloodfillAstar.ResetDistances | src/PythonCodes/FloodfillxAstar.py:147-156 | every maze cell is 9999, every goal cell 0, the queue is the goal list, and other entries are unchanged |
| FloodfillAstar.MazeSolver.CalculateManhattanDistances | src/PythonCodes/FloodfillxAstar.py:143-185 | the distance map is relaxed on every open side, goals are 0, values are in `0..9999`, and every reached non-goal cell has a descent |
| FloodfillAstar.SearchStart | src/PythonCodes/FloodfillxAstar.py:195-200 | the A\* invariant holds with the robot's cell scored 0 and its entry `(0, cell)` the only heap entry |
| FloodfillAstar.SearchPop | src/PythonCodes/FloodfillxAstar.py:202-216 | popping an entry for a cell other than `(0, 0)` keeps the invariant with that scored cell being expanded |
| FloodfillAstar.SearchRelax | src/PythonCodes/FloodfillxAstar.py:225-232 | setting parent, `g` and `f` together and pushing the new entry keeps the invariant |
| FloodfillAstar.RelaxProgress | src/PythonCodes/FloodfillxAstar.py:225-232 | a relaxation keeps the expanded cell's score, settles the side, and strictly lowers the termination measure |
| FloodfillAstar.RelaxSettles | src/PythonCodes/FloodfillxAstar.py:225-232 | lowering the neighbour's score keeps the expanded cell's score and settles side `d` |
| FloodfillAstar.RelaxLowers | src/PythonCodes/FloodfillxAstar.py:225-232 | lowering a score inside the region strictly lowers the termination measure |
| FloodfillAstar.SearchSkip | src/PythonCodes/FloodfillxAstar.py:217-228 | a walled side, an out-of-maze side, or a neighbour no better through `cur` is already settled |
| FloodfillAstar.ExpandCell | src/PythonCodes/FloodfillxAstar.py:216-232 | after the four sides the expanded cell is settled, and either nothing changed or the measure dropped |
| FloodfillAstar.SearchExhausted | src/PythonCodes/FloodfillxAstar.py:234-235 | with the heap empty, no open walk from the start contains `(0, 0)` |
| FloodfillAstar.SearchNoRoute | src/PythonCodes/FloodfillxAstar.py:234-235 | the same, for every walk at once |
| FloodfillAstar.ReconstructedPathOpen | src/PythonCodes/FloodfillxAstar.py:207-211 | a path read back along `came_from` is an open walk out of the start that does not revisit it |
| FloodfillAstar.RouteBack | src/PythonCodes/FloodfillxAstar.py:205-214 | the route is an open walk ending at `(0, 0)`, empty iff the start is `(0, 0)`, no longer than `g[(0, 0)]` |
| FloodfillAstar.WaitingOnWalk | src/PythonCodes/FloodfillxAstar.py:202-232 | on an open walk to `(0, 0)` some cell at index `k` waits in the heap with `g <= k` |
| FloodfillAstar.KeyBound | src/PythonCodes/FloodfillxAstar.py:202-203 | the least popped entry for `(0, 0)` bounds its `f` score by any waiting entry's key |
| FloodfillAstar.WaitingKey | src/PythonCodes/FloodfillxAstar.py:202-232 | some heap entry has key at most `j + 1` when an open walk reaches `(0, 0)` at index `j` |
| FloodfillAstar.GoalOptimal | src/PythonCodes/FloodfillxAstar.py:202-205 | when `(0, 0)` is popped, `g[(0, 0)] <= j + 1` for every open walk reaching it at index `j` |
| FloodfillAstar.FoundShortest | src/PythonCodes/FloodfillxAstar.py:202-205 | when `(0, 0)` is popped first, its score is no larger than the moves of any open walk from the start to it |
| FloodfillAstar.SearchLoop | src/PythonCodes/FloodfillxAstar.py:202-232 | the parent links stay sound; on a stop at `(0, 0)` its score is at most the length of every open walk to it; when the heap runs empty no open walk reaches `(0, 0)` |
| FloodfillAstar.SearchToStart | src/PythonCodes/FloodfillxAstar.py:187-235 | a shortest open walk to `(0, 0)` that does not revisit the start, or `None` only when no open walk reaches `(0, 0)` |
| FloodfillAstar.MazeSolver.AStarToStart | src/PythonCodes/FloodfillxAstar.py:187-235 | the same, from the robot's cell over the recorded walls |
| FloodfillAstar.Follow | src/PythonCodes/FloodfillxAstar.py:237-248 | one forward move per path cell, the position ends at the last cell, and the heading faces the last move when it was adjacent |
| FloodfillAstar.MazeSolver.FollowPath | src/PythonCodes/FloodfillxAstar.py:237-248 | the same, on the solver's fields |
| FloodfillAstar.BestDirection | src/PythonCodes/FloodfillxAstar.py:276-292 | the first open in-bounds side whose neighbour has the smallest distance, strictly below the current one; none iff no open neighbour is strictly closer |
| FloodfillAstar.StepDown | src/PythonCodes/FloodfillxAstar.py:274-303 | one round moves to the greedy choice and strictly shrinks the set of cells below, or stops where no neighbour is closer |
| FloodfillAstar.DescendAdvance | src/PythonCodes/FloodfillxAstar.py:298-303 | a move to the greedy choice keeps the run's invariant and shrinks the cells below |
| FloodfillAstar.GreedyAppend | src/PythonCodes/FloodfillxAstar.py:276-303 | a route of greedy choices extended by a greedy choice is still one |
| FloodfillAstar.Descend | src/PythonCodes/FloodfillxAstar.py:264-307 | from `(0, 0)` facing North, the route is open, strictly descending and greedy at every move, and ends on a goal cell or where nothing is closer |
| FloodfillAstar.MazeSolver.ExecuteOptimalPath | src/PythonCodes/FloodfillxAstar.py:250-313 | the same, on the solver's fields |
| FloodfillAstar.OptimalRunEndsAtGoal | src/PythonCodes/FloodfillxAstar.py:274-307 | with symmetric walls and the goals inside, a run from a reached `(0, 0)` stops on a goal cell |
| Astar.GetNeighbors | src/PythonCodes/Astar.py:17-23 | in heading order, exactly the sides of `(x, y)` not in `walls`, each with the cell across it, with no bounds check |
| Astar.SearchBegin | src/PythonCodes/Astar.py:26-31 | the invariant holds with the start scored 0, `f` its Manhattan distance, and `(0, start)` on the heap |
| Astar.SearchPop | src/PythonCodes/Astar.py:33-35 | popping a non-goal entry keeps the invariant with its scored cell being expanded |
| Astar.RelaxParents | src/PythonCodes/Astar.py:46-48 | a relaxation keeps every parent link an open step to a smaller score |
| Astar.SearchRelax | src/PythonCodes/Astar.py:43-50 | setting `came_from`, `g_score`, `f_score` and pushing keeps the invariant |
| Astar.RelaxNeighbor | src/PythonCodes/Astar.py:44-50 | after one neighbour, its score is at most `g[cur] + 1`, `g[cur]` is unchanged and no score grew |
| Astar.ExpandCell | src/PythonCodes/Astar.py:43-50 | after all neighbours the expanded cell is settled and no score grew |
| Astar.ListedSettle | src/PythonCodes/Astar.py:43-50 | a cell whose listed neighbours all have score at most `g + 1` is settled |
| Astar.SurroundedContainsStep | src/PythonCodes/Astar.py:33-51 | a set that holds the start and has every open side of its cells inside contains every cell of an open walk |
| Astar.SearchNoRoute | src/PythonCodes/Astar.py:51 | with the heap empty, no open walk from the start contains the goal |
| Astar.RouteBack | src/PythonCodes/Astar.py:35-41 | the route is an open walk ending at the goal, empty iff start = goal, no longer than `g[goal]` |
| Astar.WaitingOnWalk | src/PythonCodes/Astar.py:33-50 | on an open walk to the goal some cell at index `k` waits in the heap with `g <= k` |
| Astar.GoalOptimal | src/PythonCodes/Astar.py:33-35 | when the goal is popped, `g[goal] <= j + 1` for every open walk reaching it at index `j` |
| Astar.FoundShortest | src/PythonCodes/Astar.py:33-41 | the route read back is no longer than any open walk from the start to the goal |
| Astar.AStar | src/PythonCodes/Astar.py:25-51 | a found path is a shortest open walk to the goal; an empty heap means no open walk reaches it; start = goal gives `[]`; running out of the pop budget happens only after `fuel` pops |
| Astar.DirectionToTurn | src/PythonCodes/Astar.py:53-61 | `None` iff the headings agree, 'R' iff a right turn, 'L' iff a left turn, 'RR' iff a half turn |
| Astar.TurnBy | src/PythonCodes/Astar.py:107-120 | walking the answer's characters reaches the target; a half turn is two right turns; the letters recorded are those of the calls |
| Astar.LettersAppend | src/PythonCodes/Astar.py:112-123 | the letters of two call sequences are the concatenation of their letters |
| Astar.GoalReached | src/PythonCodes/Astar.py:64-71 | always false: an eight-letter slice never equals a five- or six-letter pattern |
| Astar.FirstOpenUnvisited | src/PythonCodes/Astar.py:103-105 | the first heading whose side is not a wall and whose neighbour is unvisited; none means every side is walled or visited |
| Astar.EnclosedOpen | src/PythonCodes/Astar.py:103-105 | in an enclosed maze, an unrecorded side of a fully sensed inside cell leads inside |
| Astar.TopInside | src/PythonCodes/Astar.py:78-83 | the cell on top of the stack lies inside the maze |
| Astar.TurnAndMove | src/PythonCodes/Astar.py:107-125 | the turns reach the target, followed by exactly one forward move, with the letters recorded |
| Astar.MoveBack | src/PythonCodes/Astar.py:131-154 | backtracking ends on the cell below on the stack, facing it, after one forward move |
| Astar.ExploreRound | src/PythonCodes/Astar.py:81-156 | one round adds the sensed walls and the visited cell, and keeps the invariant with a lower measure or ends at the start |
| Astar.ExploreAndMap | src/PythonCodes/Astar.py:74-158 | the answer is always `None`; walls and visited only grow, new walls are physical, every cell entered is fully sensed and closed; `actions` records every call |
| Astar.FollowPath | src/PythonCodes/Astar.py:160-183 | one forward move per path cell, the position ends at the last cell, and the heading faces the last move when it was adjacent |
| FloodFillPy.ConsistentSymmetric | src/PythonCodes/FloodFill.py:59-68 | a consistent wall map gives symmetric walls |
| FloodFillPy.ConsistentOpenSide | src/PythonCodes/FloodFill.py:130-135 | in a consistent map, a side of an inside cell is open for the flood iff it is not marked |
| FloodFillPy.WithWall | src/PythonCodes/FloodFill.py:59-68 | outside the maze nothing changes; otherwise the side and its mirror inside the maze are marked, and nothing else |
| FloodFillPy.WithWallIdempotent | src/PythonCodes/FloodFill.py:59-68 | adding the same wall twice is adding it once |
| FloodFillPy.WithWallConsistent | src/PythonCodes/FloodFill.py:59-68 | adding a wall keeps the wall map consistent (boundary walled, inner sides marked from both cells or neither) |
| FloodFillPy.WithWallMarked | src/PythonCodes/FloodFill.py:59-68 | adding a wall already marked changes nothing |
| FloodFillPy.ScanWith | src/PythonCodes/FloodFill.py:70-80 | scanning only adds walls |
| FloodFillPy.ScanTouches | src/PythonCodes/FloodFill.py:70-80 | each new mark is the front, right or left side of the robot's cell or its mirror |
| FloodFillPy.ScanConsistent | src/PythonCodes/FloodFill.py:70-80 | scanning keeps the wall map consistent |
| FloodFillPy.ScanUnchangedHere | src/PythonCodes/FloodFill.py:239-244 | if the robot's own wall list did not change, the whole map did not |
| FloodFillPy.BoundaryConsistent | src/PythonCodes/FloodFill.py:38-44 | a map walled exactly on the boundary is consistent |
| FloodFillPy.MarkWestEast | src/PythonCodes/FloodFill.py:39-41 | after the first boundary loop every row has its west and east sides marked |
| FloodFillPy.MarkSouthNorth | src/PythonCodes/FloodFill.py:42-44 | after the second loop every column has its south and north sides marked too |
| FloodFillPy.MarkSides | src/PythonCodes/FloodFill.py:38-44 | every side of an inside cell is marked iff it is a boundary side |
| FloodFillPy.InitialWalls | src/PythonCodes/FloodFill.py:32-44 | the initial map is consistent and walled exactly on the boundary |
| FloodFillPy.GoalCells | src/PythonCodes/FloodFill.py:23-25 | four cells, exactly the 2x2 block whose upper-right cell is `(width // 2, height // 2)`, that cell first |
| FloodFillPy.Unreached | src/PythonCodes/FloodFill.py:28-30 | every maze cell at 9999 and no other key |
| FloodFillPy.ResetAndSeed | src/PythonCodes/FloodFill.py:111-122 | every maze cell is reset; the in-maze goals are queued at 0 and all other cells are at 9999 |
| FloodFillPy.FloodFrom | src/PythonCodes/FloodFill.py:106-138 | the distance map is `Flooded` from the goals over the wall map |
| FloodFillPy.FloodedFromInv | src/PythonCodes/FloodFill.py:124-138 | a flood seeded with the in-maze goals and run to an empty queue is `Flooded` from all the goals |
| FloodFillPy.FloodedAdjacent | src/PythonCodes/FloodFill.py:124-138 | in a flooded consistent map, open neighbours differ by at most one |
| FloodFillPy.DescentIsOneLess | src/PythonCodes/FloodFill.py:246-259 | a reached non-goal cell has an open neighbour exactly one closer |
| FloodFillPy.MinOf | src/PythonCodes/FloodFill.py:184 | `min` is an element no greater than any other |
| FloodFillPy.Accessible | src/PythonCodes/FloodFill.py:176-183 | `accessible` holds exactly the distances of the open in-maze neighbours |
| FloodFillPy.RefloodTest | src/PythonCodes/FloodFill.py:184-186 | the inconsistency test fires iff the cell has an open neighbour and its distance is not one more than the least neighbour's |
| FloodFillPy.FreshFloodSettled | src/PythonCodes/FloodFill.py:184-186 | right after a flood every reached non-goal cell passes the test |
| FloodFillPy.BestOpen | src/PythonCodes/FloodFill.py:188-204 | the first open side whose neighbour has the least distance below 9999; none iff every open neighbour is at 9999 |
| FloodFillPy.StepBack | src/PythonCodes/FloodFill.py:248-259 | the first open side whose neighbour has the target distance; none iff no open neighbour has it |
| FloodFillPy.Forward | src/PythonCodes/FloodFill.py:97-101 | the new position is the neighbour across the heading |
| FloodFillPy.ScanHere | src/PythonCodes/FloodFill.py:70-80 | scanning the physical walls keeps the map consistent and only adds walls |
| FloodFillPy.CheckAndReflood | src/PythonCodes/FloodFill.py:175-186 | refloods iff the test fires; then the map is flooded, otherwise unchanged; afterwards a reached cell with an open side passes the test |
| FloodFillPy.ExploreRound | src/PythonCodes/FloodFill.py:163-208 | the walls stay consistent and only grow; the robot stays put when no side is open or its cell is unreached, and otherwise moves through an open side to the first neighbour of least distance, below 9999 |
| FloodFillPy.ExploreRun | src/PythonCodes/FloodFill.py:149-215 | the robot stays inside and ends on a goal, after 5001 rounds, boxed in, or on an unreached cell |
| FloodFillPy.ScanAndReflood | src/PythonCodes/FloodFill.py:237-244 | the map stays flooded from `(0, 0)`; with no new wall at the robot's cell nothing changes |
| FloodFillPy.ChooseBack | src/PythonCodes/FloodFill.py:246-280 | the first open side one step closer to `(0, 0)`, found without the retry's flood changing anything; none only on an unreached cell |
| FloodFillPy.ReturnRound | src/PythonCodes/FloodFill.py:234-284 | the robot moves to an open neighbour one closer to `(0, 0)`, the first such, or is stuck on an unreached cell |
| FloodFillPy.ReturnRun | src/PythonCodes/FloodFill.py:220-291 | the robot ends at `(0, 0)`, after 5000 rounds, or on an unreached cell, with the map flooded from `(0, 0)` |
| FloodFillPy.FloodFillSolver.constructor | src/PythonCodes/FloodFill.py:12-51 | at `(0, 0)` facing North, every distance at 9999, walls exactly on the boundary |
| FloodFillPy.FloodFillSolver.IsGoal | src/PythonCodes/FloodFill.py:56-57 | true exactly on the goal block |
| FloodFillPy.FloodFillSolver.AddWall | src/PythonCodes/FloodFill.py:59-68 | the walls become `WithWall` of the old walls |
| FloodFillPy.FloodFillSolver.ScanWalls | src/PythonCodes/FloodFill.py:70-80 | the walls become `ScanWith` of the old walls and the three readings |
| FloodFillPy.FloodFillSolver.TurnTo | src/PythonCodes/FloodFill.py:82-95 | ends facing the target; the turns rotate the old heading to it |
| FloodFillPy.FloodFillSolver.MoveForward | src/PythonCodes/FloodFill.py:97-101 | the position moves one cell along the heading |
| FloodFillPy.FloodFillSolver.FloodFillFromGoals | src/PythonCodes/FloodFill.py:106-144 | the distances are `Flooded` from the given goals over the current walls |
| FloodFillPy.FloodFillSolver.ExploreToGoal | src/PythonCodes/FloodFill.py:149-215 | ends on a goal, after 5001 rounds, boxed in, or on an unreached cell; walls only grow |
| FloodFillPy.FloodFillSolver.ReturnToStart | src/PythonCodes/FloodFill.py:220-291 | ends at `(0, 0)`, after 5000 rounds, or on an unreached cell; distances flooded from `(0, 0)` |
| FloodFillC.FitsQueue | src/C-Codes/FloodFill/solver.c:7-9 | a maze of at most 16 by 16 cells has at most 256 cells, the queue's size |
| FloodFillC.FillInf | src/C-Codes/FloodFill/solver.c:120-124 | every maze entry of `distance` is 9999, the rest untouched |
| FloodFillC.SeedGoals | src/C-Codes/FloodFill/solver.c:127-135 | the four goals are queued in order, at 0, every other maze cell at 9999 |
| FloodFillC.LayerLower | src/C-Codes/FloodFill/solver.c:154-160 | a lowered cell was never queued before, so the tail stays within `width * height` |
| FloodFillC.LowerAt | src/C-Codes/FloodFill/solver.c:154-160 | lowering and enqueueing keeps the BFS state and relaxes the side |
| FloodFillC.RelaxSide | src/C-Codes/FloodFill/solver.c:146-161 | one side handled, the BFS state kept |
| FloodFillC.RelaxFrom | src/C-Codes/FloodFill/solver.c:143-161 | all four sides of the popped cell relaxed |
| FloodFillC.BfsPop | src/C-Codes/FloodFill/solver.c:138-143 | the node at `queueHead` is the next pending cell, inside the maze |
| FloodFillC.BfsDone | src/C-Codes/FloodFill/solver.c:138-162 | when `queueHead == queueTail` the arrays hold a `Flooded` map and the tail is within `width * height` |
| FloodFillC.FloodArrays | src/C-Codes/FloodFill/solver.c:118-162 | `queueHead == queueTail <= width * height` and the distances are `Flooded` from the goals |
| FloodFillC.AddedMirror | src/C-Codes/FloodFill/solver.c:94-104 | the walls one `addWall` adds are closed under mirroring inside the maze |
| FloodFillC.AddedBySymmetric | src/C-Codes/FloodFill/solver.c:94-104 | adding a wall keeps the walls symmetric |
| FloodFillC.AddWallAt | src/C-Codes/FloodFill/solver.c:94-104 | exactly the side and, inside the maze, its mirror become walls |
| FloodFillC.ScanSide | src/C-Codes/FloodFill/solver.c:107-115 | one reading adds that side's walls when present |
| FloodFillC.ScanAt | src/C-Codes/FloodFill/solver.c:106-116 | the three readings add front, `(d + 1) % 4` and `(d + 3) % 4` walls |
| FloodFillC.ScanAddedSymmetric | src/C-Codes/FloodFill/solver.c:106-116 | scanning keeps the walls symmetric |
| FloodFillC.MinOpenDistance | src/C-Codes/FloodFill/solver.c:251-265 | the least distance of an open in-maze neighbour, 9999 when none is below |
| FloodFillC.BestDirection | src/C-Codes/FloodFill/solver.c:176-195 | the first open in-maze side whose neighbour is strictly below 9999 and least, or -1 |
| FloodFillC.MinAndBest | src/C-Codes/FloodFill/solver.c:176-195 | `getBestDirection` answers -1 iff the minimum is 9999, and otherwise points at a neighbour at the minimum |
| FloodFillC.RefloodTest | src/C-Codes/FloodFill/solver.c:267-271 | the reflood test fires iff the cell has a reached open neighbour and is not one more than the least |
| FloodFillC.FloodedSettled | src/C-Codes/FloodFill/solver.c:267-271 | right after a flood every reached non-goal cell passes the test |
| FloodFillC.SettledBest | src/C-Codes/FloodFill/solver.c:274-279 | at a consistent cell the best direction leads exactly one closer |
| FloodFillC.Downhill | src/C-Codes/FloodFill/solver.c:251-279 | after the optional reflood, the chosen neighbour of a reached cell is one closer |
| FloodFillC.CentreGoals | src/C-Codes/FloodFill/solver.c:63-68 | when the size fits, four distinct goal cells, all inside the maze |
| FloodFillC.PlaceGoals | src/C-Codes/FloodFill/solver.c:63-68 | `goalX`/`goalY` hold the centre block in order |
| FloodFillC.MarkWestEast | src/C-Codes/FloodFill/solver.c:53-56 | every row's west and east sides marked |
| FloodFillC.MarkSouthNorth | src/C-Codes/FloodFill/solver.c:57-60 | every column's south and north sides marked too |
| FloodFillC.ClearAndMark | src/C-Codes/FloodFill/solver.c:50-60 | every wall entry is set iff it is a boundary side of a maze cell |
| FloodFillC.BoundarySymmetric | src/C-Codes/FloodFill/solver.c:50-60 | boundary-only walls are symmetric |
| FloodFillC.TurnThenForward | src/C-Codes/FloodFill/solver.c:197-212 | the turns reach the best heading, then one forward move |
| FloodFillC.MoveThroughOpen | src/C-Codes/FloodFill/solver.c:287-293 | a move goes through an open side to the neighbour, or the mouse stays |
| FloodFillC.Solver.constructor | src/C-Codes/FloodFill/solver.c:12-40 | statics at zero, not initialised |
| FloodFillC.Solver.Goals | src/C-Codes/FloodFill/solver.c:25-26 | the four goal cells as pairs `(goalX[i], goalY[i])` |
| FloodFillC.Solver.InitMaze | src/C-Codes/FloodFill/solver.c:42-83 | only the first call acts: the size, the goal block and walls exactly on the boundary; later calls change nothing |
| FloodFillC.Solver.SetUp | src/C-Codes/FloodFill/solver.c:46-69 | the body of the first call: the size taken from the simulator, the centre goal block and walls exactly on the boundary |
| FloodFillC.PrepareGrids | src/C-Codes/FloodFill/solver.c:50-69 | the grids after the set-up: walls exactly on the boundary and symmetric, goals the centre block |
| FloodFillC.ClearMaze | src/C-Codes/FloodFill/solver.c:50-60 | the `memset` and the boundary loops leave a wall exactly on the sides that face out of the maze, symmetric |
| FloodFillC.Solver.IsGoal | src/C-Codes/FloodFill/solver.c:85-92 | true iff the cell is one of the four goal entries |
| FloodFillC.Solver.ReachGoal | src/C-Codes/FloodFill/solver.c:235-242 | on a goal cell the goal flag is raised and the class invariant kept |
| FloodFillC.Solver.AddWall | src/C-Codes/FloodFill/solver.c:94-104 | the wall set grows by exactly the side and its in-maze mirror |
| FloodFillC.Solver.ScanWalls | src/C-Codes/FloodFill/solver.c:106-116 | the wall set grows by exactly the walls of the three readings |
| FloodFillC.Solver.FloodFillDistances | src/C-Codes/FloodFill/solver.c:118-174 | the distances are `Flooded` from the goals, with `queueHead == queueTail <= width * height` |
| FloodFillC.Solver.ReadDistances | src/C-Codes/FloodFill/solver.c:251-265 | the current distance and the least open neighbour distance |
| FloodFillC.Solver.Reflood | src/C-Codes/FloodFill/solver.c:251-271 | refloods iff the test fires on the old distances; then flooded, otherwise unchanged |
| FloodFillC.Solver.GetBestDirection | src/C-Codes/FloodFill/solver.c:176-195 | the first open in-maze side of least distance below 9999, or -1 |
| FloodFillC.Solver.TurnTo | src/C-Codes/FloodFill/solver.c:197-212 | ends facing the target, followed by the forward call |
| FloodFillC.Solver.Forward | src/C-Codes/FloodFill/solver.c:289-293 | when the move succeeds the position advances along the heading and `steps` grows by one, otherwise nothing changes |
| FloodFillC.Solver.Decide | src/C-Codes/FloodFill/solver.c:247-274 | scan, optional reflood and best direction; at a reached cell the choice leads one closer |
| FloodFillC.Solver.Explore | src/C-Codes/FloodFill/solver.c:244-295 | the non-goal part of one call, as `Decision` and `MoveEffect`: walls grow by the scan; the reflood happens exactly when the cell is not one more than its smallest open neighbour under the old distances, and then the map is flooded, otherwise unchanged; the move is the best choice, one closer at a reached cell, and advances only when `moveOk` |
| FloodFillC.Solver.Advance | src/C-Codes/FloodFill/solver.c:230-295 | the effect `Called`: once the goal is reached, or on reaching it, nothing moves, turns or changes in the grids; otherwise the scan, reflood exactly when inconsistent, best choice and the move as `moveOk` says; always `IDLE` |
| FloodFillC.Solver.Start | src/C-Codes/FloodFill/solver.c:223-228 | the first call sets up the maze and floods it |
| FloodFillC.Solver.Begin | src/C-Codes/FloodFill/solver.c:223-228 | only the first call sets up and floods; later calls change nothing, and the mouse never moves |
| FloodFillC.Solver.Move | src/C-Codes/FloodFill/solver.c:277-293 | with no reachable side the mouse stays and nothing is sent; otherwise it turns to `best` and moves one cell only when `moveOk` |
| FloodFillC.Solver.Step | src/C-Codes/FloodFill/solver.c:214-296 | one `solver()` call: `IDLE`; the first call floods first, later calls decide from the stored walls and distances; then the effect `Called`: at or after the goal nothing moves or turns, elsewhere the best choice leads one closer, the reflood happens exactly on an inconsistency and leaves the map flooded, and the mouse moves only when `moveOk` |
| FloodFillC.Solver.LeftWallFollower | src/C-Codes/FloodFill/solver.c:298-300 | the stub answers `IDLE` |
| FloodFillC.Solver.RightWallFollower | src/C-Codes/FloodFill/solver.c:302-304 | the stub answers `IDLE` |
| WallFollowing.IsGoal | src/C-Codes/RightHandRule/solver.c:20-34 | true iff the mouse is in the 2x2 block at `(w / 2, h / 2)` with C's truncating division |
| WallFollowing.CentreInside | src/C-Codes/RightHandRule/solver.c:20-34 | in a maze at least 2 by 2, goal cells lie inside |
| WallFollowing.Plan | src/C-Codes/RightHandRule/solver.c:56-91 | one or two calls, a forward move iff the preferred side or the front is open, and a move only into an open side |
| WallFollowing.Follow | src/C-Codes/RightHandRule/solver.c:36-92 | reports the goal once and does nothing else in that call; otherwise the plan's calls, the heading they give, and a move of one cell counted only when it succeeds |
| WallFollowing.Sense | src/C-Codes/RightHandRule/solver.c:59-80 | the sensors read the physical walls on the right, front and left |
| WallFollowing.PlanIntoOpen | src/C-Codes/RightHandRule/solver.c:59-79 | with physical readings, a follower only tries to move through a side with no wall |
| WallFollowing.CallStep | src/C-Codes/RightHandRule/solver.c:36-92 | one call in the maze stays put or crosses an open side, counting the step; the goal flag is never lowered |
| WallFollowing.DriveWalk | src/C-Codes/RightHandRule/solver.c:36-92 | every drive is a walk through open sides with one step counted per move |
| WallFollowing.DriveNoFurtherThanSteps | src/C-Codes/RightHandRule/solver.c:64-68 | the mouse is never further from its start, in Manhattan distance, than the steps counted |
| WallFollowing.DriveReportsOnce | src/C-Codes/RightHandRule/solver.c:41-54 | the goal is reported at most once along a drive |
| WallFollowing.MirrorPlans | src/C-Codes/RightHandRule/solver.c:59-148 | reading left for right, the left follower issues the mirrored calls, except at a dead end where both turn right |
| RightHandRule.Solver.constructor | src/C-Codes/RightHandRule/solver.c:6-10 | statics at `(0, 0)`, North, no steps, no goal |
| RightHandRule.Solver.IsGoal | src/C-Codes/RightHandRule/solver.c:20-34 | `isGoal` on the mouse's cell |
| RightHandRule.Solver.Forward | src/C-Codes/RightHandRule/solver.c:64-68 | a successful move advances one cell along the heading and counts a step |
| RightHandRule.Solver.RightWallFollower | src/C-Codes/RightHandRule/solver.c:36-92 | the new state and calls are `Follow` for the right hand: `IDLE`, a quarter turn at most, a move only when it succeeds |
| RightHandRule.Solver.LeftWallFollower | src/C-Codes/RightHandRule/solver.c:94-148 | the same for the left hand |
| RightHandRule.Solver.FloodFill | src/C-Codes/RightHandRule/solver.c:150-152 | the stub answers `IDLE` |
| LeftHandRule.Solver.constructor | src/C-Codes/LeftHandRule/solver.c:7-11 | statics at `(0, 0)`, North, no steps, no goal |
| LeftHandRule.Solver.IsGoal | src/C-Codes/LeftHandRule/solver.c:17-30 | `isGoal` on the mouse's cell |
| LeftHandRule.Solver.Forward | src/C-Codes/LeftHandRule/solver.c:64-68 | a successful move advances one cell along the heading and counts a step |
| LeftHandRule.Solver.LeftWallFollower | src/C-Codes/LeftHandRule/solver.c:36-92 | the new state and calls are `Follow` for the left hand |

## Left out

- Simulator I/O is not modelled: `API.setColor`, `setText`, `clearAllColor`, `clearAllText`, `log` and `debug_log`. These calls only display or print.
- The sensors and the success of `moveForward` are parameters, or readings of a fixed physical maze.
- Floating point, concurrency and timing do not occur in the core.
- The top-level drivers are not modelled as loops. They only sequence the modelled phases:
  - `run` of `FloodfillxAstar.py`;
  - `main` of `Astar.py`;
  - `run_once_explore_then_return` of `FloodFill.py`, an endless loop;
  - the simulator's repeated calls of `solver()` in C. One call is `FloodFillC.Solver.Step`, `RightHandRule.Solver.RightWallFollower` or `LeftHandRule.Solver.LeftWallFollower`.
- `RHR.py`, `LHR.py` and the other C solvers are not part of this model.
- Search.PopMin: the heap is a multiset of entries, not its array layout. Only which entry `heappop` returns is modelled.
- FloodFillPy.InitialWalls, FloodFillPy.MarkSides and FloodFillPy.FloodFillSolver.constructor require `(width > 0) == (height > 0)`. When exactly one dimension is at most 0, `FloodFill.py:39-44` raises `KeyError`; that error path is not modelled.
- FloodFillC.Solver.InitMaze, FloodFillC.Solver.Start and FloodFillC.Solver.Step require `2 <= width, height <= 16` on the first call (`Fits`). The following are undefined behaviour in C and are not modelled:
  - a maze wider than 16 overflows the static arrays;
  - a width of 1 writes `goalX[0] = -1` into `distance[..][-1]` at `solver.c:131`.
- FloodFillC.Solver: the C `int` overflow of `steps` is not modelled. Integers are unbounded.
- Astar.AStar takes a pop budget `fuel` and may answer `OutOfFuel`, which `a_star` never does. `get_neighbors` (`Astar.py:17-23`) has no bounds check, so on a goal that cannot be reached with a side left open to the outside, `a_star` keeps scoring cells further out and never returns. With the budget, the model states the other answers for every input; it does not claim termination.
- FloodfillAstar.MazeSolver.ExecuteOptimalPath requires a distance for `(0, 0)` (unless it is a goal cell) and for every cell of the maze. Without them `FloodfillxAstar.py:275` raises `KeyError`. The only caller, `run`, calls `calculate_manhattan_distances` first, which provides them.
- Astar.ExploreAndMap requires the physical maze to be walled all round (`Enclosed`). `explore_and_map` checks no bounds (`Astar.py:103-105`), so only the outer walls keep it inside the maze.
- FloodFillPy.FloodFillSolver.MoveForward, FloodfillAstar.Follow and Astar.FollowPath: as in the source, the Python solvers ignore the answer of `API.moveForward()` and update the position as if the move succeeded. The model does the same and does not relate the recorded position to the simulator's after a failed move.
- FloodfillAstar.Descend: the final run is not proved to reach a goal in general. That only holds under `OptimalRunEndsAtGoal`'s conditions: symmetric recorded walls, goals inside the maze and `(0, 0)` reached by the flood. On a maze wider than it is tall the goal block of `__init__` can lie outside the maze (`GoalBlockIgnoresHeight`).
- The exploration loops are proved to terminate by a measure. The iteration counts of the source (`cells_explored`, `steps` in `execute_optimal_path`) are not returned.

## Behaviour of the source that the model makes explicit

- `goal_reached` in `Astar.py:64-71` compares an eight-element slice with a five-element and a six-element list, so it is always false (`Astar.GoalReached`).
  - As a result, `explore_and_map` always returns `None` after exploring the whole reachable maze (`Astar.ExploreAndMap`).
  - `main` then stops at `Astar.py:195-197`, so `a_star` and `follow_path` are never reached from `main`.
- In `Astar.py`, a turn of 'RR' is carried out by iterating over the string's characters, giving two 'R' turns. The branch for the whole string 'RR' (`Astar.py:116-119`) never runs (`Astar.TurnBy`).
- The goal block of `FloodfillxAstar.py:32-38` uses `maze_width // 2` for both coordinates (`FloodfillAstar.GoalBlockIgnoresHeight`).
- The wall followers report the goal once and keep following walls on later calls (`WallFollowing.DriveReportsOnce`).
