/**
 * The solver of `Astar.py`: a depth-first exploration from `(0, 0)` that
 * records walls as `(x, y, d)` keys, an A* search over the recorded walls
 * with the Manhattan heuristic and no bounds check, and a path follower.
 * Turns go through `get_direction_to_turn`, whose answer is a string that
 * the callers walk one character at a time.
 */
module Astar {
  import opened Grid
  import opened Search
  import opened Flooding
  import opened Exploration

  // ---------------------------------------------------------------- turning

  /** The strings `get_direction_to_turn` answers with: 'R', 'L' and 'RR'. */
  datatype TurnCode = R | L | RR

  /**
   * `get_direction_to_turn`: classifies `(target - current) % 4`; no turn
   * is needed exactly when the headings agree.
   */
  function DirectionToTurn(current: Dir, target: Dir): (r: Option<TurnCode>)
    ensures r == None <==> target == current
    ensures r == Some(R) <==> target == Right(current)
    ensures r == Some(L) <==> target == Left(current)
    ensures r == Some(RR) <==> target == Back(current)
  {
    var diff := (target - current) % 4;
    if diff == 1 then Some(R) else if diff == 3 then Some(L) else if diff == 2 then Some(RR) else None
  }

  /** The characters of the string a `TurnCode` stands for. */
  function Spelling(code: TurnCode): string {
    match code
    case R => "R"
    case L => "L"
    case RR => "RR"
  }

  /** The letter the exploration appends to `actions` for each call it makes. */
  function Letter(c: Command): char {
    match c
    case TurnRight => 'R'
    case TurnLeft => 'L'
    case MoveForward => 'F'
  }

  /** The record of `cmds` in `actions`: one letter per call, in order. */
  function Letters(cmds: seq<Command>): (r: string)
    ensures |r| == |cmds|
    ensures forall i :: 0 <= i < |cmds| ==> r[i] == Letter(cmds[i])
  {
    if cmds == [] then [] else [Letter(cmds[0])] + Letters(cmds[1..])
  }

  lemma LettersAppend(a: seq<Command>, b: seq<Command>)
    ensures Letters(a + b) == Letters(a) + Letters(b)
  {
    var l, r := Letters(a + b), Letters(a) + Letters(b);
    assert |l| == |r|;
    forall i | 0 <= i < |l| ensures l[i] == r[i] {
      if i < |a| {
        assert (a + b)[i] == a[i];
      } else {
        assert (a + b)[i] == b[i - |a|];
      }
    }
  }

  /**
   * The turning step shared by `explore_and_map` and `follow_path`: the
   * string from `get_direction_to_turn` is walked one character at a time,
   * 'R' turning right and 'L' turning left, each call recorded by its
   * letter. Walking 'RR' yields two 'R' characters, so the branch for the
   * whole string 'RR' never runs, and a half turn is two right turns.
   */
  method TurnBy(direction: Dir, target: Dir) returns (turns: seq<Command>, letters: string)
    ensures Rotate(direction, turns) == target
    ensures MoveForward !in turns
    ensures letters == Letters(turns)
    ensures target == direction ==> turns == []
    ensures target == Right(direction) ==> turns == [TurnRight]
    ensures target == Left(direction) ==> turns == [TurnLeft]
    ensures target == Back(direction) ==> turns == [TurnRight, TurnRight]
  {
    turns, letters := [], [];
    var code := DirectionToTurn(direction, target);
    if code.Some? {
      var s := Spelling(code.value);
      for i := 0 to |s|
        invariant |turns| == i && letters == s[..i]
        invariant forall j :: 0 <= j < i ==> turns[j] == (if s[j] == 'R' then TurnRight else TurnLeft)
      {
        if s[i] == 'R' {
          turns := turns + [TurnRight];
          letters := letters + ['R'];
        } else if s[i] == 'L' {
          turns := turns + [TurnLeft];
          letters := letters + ['L'];
        } else {
          assert false;
        }
      }
      assert letters == s;
      match code.value
      case R =>
        assert turns == [TurnRight];
        assert Rotate(direction, turns) == Rotate(Right(direction), []);
      case L =>
        assert turns == [TurnLeft];
        assert Rotate(direction, turns) == Rotate(Left(direction), []);
      case RR =>
        assert turns == [TurnRight, TurnRight];
        assert Rotate(direction, turns) == Rotate(Right(direction), [TurnRight]);
        assert Rotate(Right(direction), [TurnRight]) == Rotate(Right(Right(direction)), []);
    }
  }

  // -------------------------------------------------------- goal detection

  /**
   * `goal_reached`: the last eight recorded letters compared with the
   * five-letter pattern "LFLFL" and the six-letter pattern "FFRFRF". A
   * slice of eight letters never equals a shorter pattern, so the answer
   * is always false.
   */
  function GoalReached(actions: string): (r: bool)
    ensures !r
  {
    if |actions| < 8 then false
    else
      var last := actions[|actions| - 8..];
      last == "LFLFL" || last == "FFRFRF"
  }

  // -------------------------------------------------------------- neighbours

  /**
   * `get_neighbors`: in heading order, each heading `d` whose side of
   * `(x, y)` is not in `walls`, with the cell across it. There is no
   * bounds check.
   */
  method GetNeighbors(x: int, y: int, walls: set<WallKey>) returns (neighbors: seq<(int, int, Dir)>)
    ensures forall i :: 0 <= i < |neighbors| ==>
      (x, y, neighbors[i].2) !in walls && (neighbors[i].0, neighbors[i].1) == Neighbor((x, y), neighbors[i].2)
    ensures forall i, j :: 0 <= i < j < |neighbors| ==> neighbors[i].2 < neighbors[j].2
    ensures forall d: Dir :: (x, y, d) !in walls ==> (x + DX(d), y + DY(d), d) in neighbors
  {
    neighbors := [];
    for d := 0 to 4
      invariant forall i :: 0 <= i < |neighbors| ==>
        (x, y, neighbors[i].2) !in walls && (neighbors[i].0, neighbors[i].1) == Neighbor((x, y), neighbors[i].2)
        && neighbors[i].2 < d
      invariant forall i, j :: 0 <= i < j < |neighbors| ==> neighbors[i].2 < neighbors[j].2
      invariant forall e: Dir :: e < d && (x, y, e) !in walls ==> (x + DX(e), y + DY(e), e) in neighbors
    {
      var nx, ny := x + DX(d), y + DY(d);
      if (x, y, d) !in walls {
        neighbors := neighbors + [(nx, ny, d)];
      }
    }
  }

  // -------------------------------------------------------------- A* search

  /** `b` is the cell across a side of `a` that is not in `walls`. */
  predicate OpenStep(walls: set<WallKey>, a: Cell, b: Cell) {
    var d := DirBetween(a, b);
    d != -1 && (a.0, a.1, d) !in walls
  }

  /** `path` is a walk of open steps starting next to `from`. */
  predicate OpenWalk(walls: set<WallKey>, from: Cell, path: seq<Cell>) {
    forall i {:trigger Prev(from, path, i)} :: 0 <= i < |path| ==> OpenStep(walls, Prev(from, path, i), path[i])
  }

  /** The open sides of `c` among the first `k` headings all lead into `known`. */
  predicate SurroundedUpTo(walls: set<WallKey>, known: set<Cell>, c: Cell, k: int) {
    forall d: Dir :: d < k && (c.0, c.1, d) !in walls ==> Neighbor(c, d) in known
  }

  /** Every open side of `c` leads into `known`: nothing is left to expand at `c`. */
  predicate Surrounded(walls: set<WallKey>, known: set<Cell>, c: Cell) {
    SurroundedUpTo(walls, known, c, 4)
  }

  /**
   * Every open side of the scored cell `c` leads to a scored cell whose
   * score is at most one above that of `c`: expanding `c` again would
   * improve nothing.
   */
  ghost predicate Settled(walls: set<WallKey>, g: map<Cell, int>, c: Cell) {
    c in g && forall d: Dir :: (c.0, c.1, d) !in walls ==> Neighbor(c, d) in g && g[Neighbor(c, d)] <= g[c] + 1
  }

  /** Lowering the scores of other cells keeps a settled cell settled. */
  lemma SettledLowered(walls: set<WallKey>, g: map<Cell, int>, g': map<Cell, int>, c: Cell)
    requires Settled(walls, g, c) && Lowered(g, g') && g'[c] == g[c]
    ensures Settled(walls, g', c)
  {
  }

  /** A settled cell is surrounded by scored cells. */
  lemma SettledSurrounded(walls: set<WallKey>, g: map<Cell, int>, c: Cell)
    requires Settled(walls, g, c)
    ensures Surrounded(walls, g.Keys, c)
  {
    forall d: Dir | (c.0, c.1, d) !in walls ensures Neighbor(c, d) in g.Keys {
      assert Neighbor(c, d) in g;
    }
  }

  lemma {:induction false} SurroundedContainsStep(walls: set<WallKey>, known: set<Cell>, from: Cell,
                                                  path: seq<Cell>, i: int)
    requires from in known
    requires forall c {:trigger Surrounded(walls, known, c)} :: c in known ==> Surrounded(walls, known, c)
    requires OpenWalk(walls, from, path)
    requires 0 <= i < |path|
    ensures path[i] in known
    decreases i
  {
    if i > 0 {
      SurroundedContainsStep(walls, known, from, path, i - 1);
    }
    var a := Prev(from, path, i);
    assert OpenStep(walls, a, path[i]);
    var d: Dir := DirBetween(a, path[i]);
    assert Surrounded(walls, known, a);
    assert (a.0, a.1, d) !in walls && Neighbor(a, d) == path[i];
  }

  /**
   * The parent links of `a_star`: every scored cell but the start has
   * a parent with a smaller score, across an open side, and no score is
   * negative.
   */
  ghost predicate Parents(walls: set<WallKey>, start: Cell, g: map<Cell, int>, cameFrom: map<Cell, Cell>) {
    && start in g && g[start] == 0 && start !in cameFrom
    && (forall n :: n in g ==> 0 <= g[n])
    && (forall n :: n in g && n != start ==> n in cameFrom)
    && (forall n {:trigger cameFrom[n]} :: n in cameFrom ==>
          n in g && cameFrom[n] in g && g[cameFrom[n]] < g[n] && OpenStep(walls, cameFrom[n], n))
  }

  /**
   * `f_score` is kept together with `g_score`: it scores the same cells,
   * each with its `g` score plus the Manhattan distance to the goal.
   */
  ghost predicate Scores(goal: Cell, g: map<Cell, int>, f: map<Cell, int>) {
    && (forall n :: n in f <==> n in g)
    && (forall n :: n in g ==> f[n] == g[n] + Manhattan(n.0, n.1, goal.0, goal.1))
  }

  /**
   * The heap entry standing for cell `n` while it waits: the start was
   * pushed with priority 0, every other cell with its latest `f` score.
   */
  function EntryFor(start: Cell, f: map<Cell, int>, n: Cell): Entry {
    (if n == start || n !in f then 0 else f[n], n)
  }

  /**
   * The open set of `a_star`: its entries name scored cells; every scored
   * cell is being expanded (`current`), waits under its latest entry, or
   * is settled; the goal, once scored, waits; and no entry is below the
   * latest `f` score of its cell.
   */
  ghost predicate Frontier(walls: set<WallKey>, start: Cell, goal: Cell, g: map<Cell, int>, f: map<Cell, int>,
                           open: multiset<Entry>, current: Option<Cell>)
  {
    && EntriesScored(g, open) && Waiting(walls, start, g, f, open, current)
    && (goal in g ==> EntryFor(start, f, goal) in open)
    && KeysAbove(start, f, open)
  }

  ghost predicate EntriesScored(g: map<Cell, int>, open: multiset<Entry>) {
    forall e :: e in open ==> e.1 in g
  }

  ghost predicate Waiting(walls: set<WallKey>, start: Cell, g: map<Cell, int>, f: map<Cell, int>,
                          open: multiset<Entry>, current: Option<Cell>)
  {
    forall n :: n in g ==> Some(n) == current || EntryFor(start, f, n) in open || Settled(walls, g, n)
  }

  /**
   * Scores only decrease and each decrease pushes a new entry, so no
   * entry lies below the latest `f` score of its cell.
   */
  ghost predicate KeysAbove(start: Cell, f: map<Cell, int>, open: multiset<Entry>) {
    forall e :: e in open && e.1 != start ==> e.1 in f && f[e.1] <= e.0
  }

  /** The loop invariant of `a_star`. */
  ghost predicate SearchInv(walls: set<WallKey>, start: Cell, goal: Cell, g: map<Cell, int>, f: map<Cell, int>,
                            cameFrom: map<Cell, Cell>, open: multiset<Entry>, current: Option<Cell>)
  {
    Parents(walls, start, g, cameFrom) && Scores(goal, g, f) && Frontier(walls, start, goal, g, f, open, current)
  }

  lemma SearchBegin(walls: set<WallKey>, start: Cell, goal: Cell)
    ensures SearchInv(walls, start, goal, map[start := 0], map[start := Manhattan(start.0, start.1, goal.0, goal.1)],
                      map[], multiset{(0, start)}, None)
  {
    var open := multiset{(0, start)};
    assert (0, start) in open;
  }

  /** Removing one entry keeps every entry for another cell. */
  lemma EntryKept(open: multiset<Entry>, e: Entry, o: Entry)
    requires o in open && o.1 != e.1
    ensures o in open - multiset{e}
  {
    assert o != e;
  }

  /** `heappop` returned `e` for a cell other than the goal: that cell is being expanded. */
  lemma SearchPop(walls: set<WallKey>, start: Cell, goal: Cell, g: map<Cell, int>, f: map<Cell, int>,
                  cameFrom: map<Cell, Cell>, open: multiset<Entry>, e: Entry)
    requires SearchInv(walls, start, goal, g, f, cameFrom, open, None)
    requires e in open && e.1 != goal
    ensures SearchInv(walls, start, goal, g, f, cameFrom, open - multiset{e}, Some(e.1))
    ensures e.1 in g
  {
    FrontierPop(walls, start, goal, g, f, open, e);
  }

  lemma FrontierPop(walls: set<WallKey>, start: Cell, goal: Cell, g: map<Cell, int>, f: map<Cell, int>,
                    open: multiset<Entry>, e: Entry)
    requires Frontier(walls, start, goal, g, f, open, None)
    requires e in open && e.1 != goal
    ensures Frontier(walls, start, goal, g, f, open - multiset{e}, Some(e.1))
    ensures e.1 in g
  {
    ScoredPop(g, open, e);
    WaitingPop(walls, start, g, f, open, e);
    forall o | o in open - multiset{e} && o.1 != start ensures o.1 in f && f[o.1] <= o.0 {
      assert o in open;
    }
    if goal in g {
      EntryKept(open, e, EntryFor(start, f, goal));
    }
  }

  lemma ScoredPop(g: map<Cell, int>, open: multiset<Entry>, e: Entry)
    requires EntriesScored(g, open) && e in open
    ensures EntriesScored(g, open - multiset{e}) && e.1 in g
  {
    forall o | o in open - multiset{e} ensures o.1 in g {
      assert o in open;
    }
  }

  lemma WaitingPop(walls: set<WallKey>, start: Cell, g: map<Cell, int>, f: map<Cell, int>, open: multiset<Entry>, e: Entry)
    requires Waiting(walls, start, g, f, open, None) && e in open
    ensures Waiting(walls, start, g, f, open - multiset{e}, Some(e.1))
  {
    forall n | n in g && n != e.1 && EntryFor(start, f, n) in open ensures EntryFor(start, f, n) in open - multiset{e} {
      EntryKept(open, e, EntryFor(start, f, n));
    }
  }

  lemma RelaxParents(walls: set<WallKey>, start: Cell, g: map<Cell, int>, cameFrom: map<Cell, Cell>,
                     cur: Cell, d: Dir, nb: Cell, t: int)
    requires Parents(walls, start, g, cameFrom)
    requires cur in g && (cur.0, cur.1, d) !in walls && nb == Neighbor(cur, d)
    requires t == g[cur] + 1 && (nb !in g || t < g[nb])
    ensures Parents(walls, start, g[nb := t], cameFrom[nb := cur])
    ensures nb != cur && nb != start
  {
    NeighborsDistinct(cur, d, d);
    assert g[cur] >= 0;
    assert nb != start;
    DirBetweenNeighbor(cur, d);
    assert OpenStep(walls, cur, nb);
    var g', cameFrom' := g[nb := t], cameFrom[nb := cur];
    forall n {:trigger cameFrom'[n]} | n in cameFrom'
      ensures n in g' && cameFrom'[n] in g' && g'[cameFrom'[n]] < g'[n] && OpenStep(walls, cameFrom'[n], n)
    {
      if n != nb {
        assert cameFrom'[n] == cameFrom[n];
      }
    }
  }

  /** Rescoring one cell leaves the entries standing for the other cells as they were. */
  lemma EntryForUpdate(start: Cell, f: map<Cell, int>, n: Cell, m: Cell, v: int)
    requires n != m
    ensures EntryFor(start, f[m := v], n) == EntryFor(start, f, n)
  {
  }

  lemma RelaxScores(goal: Cell, g: map<Cell, int>, f: map<Cell, int>, nb: Cell, t: int, h: int)
    requires Scores(goal, g, f) && h == t + Manhattan(nb.0, nb.1, goal.0, goal.1)
    ensures Scores(goal, g[nb := t], f[nb := h])
  {
  }

  lemma RelaxFrontier(walls: set<WallKey>, start: Cell, goal: Cell, g: map<Cell, int>, f: map<Cell, int>,
                      open: multiset<Entry>, cur: Cell, nb: Cell, t: int, h: int)
    requires Frontier(walls, start, goal, g, f, open, Some(cur)) && Scores(goal, g, f)
    requires nb != start && (nb !in g || t < g[nb]) && h == t + Manhattan(nb.0, nb.1, goal.0, goal.1)
    ensures Frontier(walls, start, goal, g[nb := t], f[nb := h], open + multiset{(h, nb)}, Some(cur))
  {
    var g', f', open' := g[nb := t], f[nb := h], open + multiset{(h, nb)};
    assert EntryFor(start, f', nb) == (h, nb);
    RelaxLowered(g, nb, t);
    forall n | n in g'
      ensures Some(n) == Some(cur) || EntryFor(start, f', n) in open' || Settled(walls, g', n)
    {
      if n != nb {
        EntryForUpdate(start, f, n, nb, h);
        if n != cur && EntryFor(start, f, n) !in open {
          SettledLowered(walls, g, g', n);
        }
      }
    }
    forall o | o in open' && o.1 != start ensures o.1 in f' && f'[o.1] <= o.0 {
      if o != (h, nb) {
        assert o in open;
      }
    }
    if goal != nb && goal in g' {
      EntryForUpdate(start, f, goal, nb, h);
    }
    forall e | e in open' ensures e.1 in g' {
      if e != (h, nb) {
        assert e in open;
      }
    }
  }

  /**
   * Side `d` of the cell `cur` being expanded is open and improves its
   * neighbour: `came_from`, `g_score` and `f_score` are set together and
   * the neighbour is pushed with its new `f` score.
   */
  lemma SearchRelax(walls: set<WallKey>, start: Cell, goal: Cell, g: map<Cell, int>, f: map<Cell, int>,
                    cameFrom: map<Cell, Cell>, open: multiset<Entry>, cur: Cell, d: Dir, nb: Cell, t: int, h: int)
    requires SearchInv(walls, start, goal, g, f, cameFrom, open, Some(cur))
    requires cur in g && (cur.0, cur.1, d) !in walls && nb == Neighbor(cur, d)
    requires t == g[cur] + 1 && (nb !in g || t < g[nb]) && h == t + Manhattan(nb.0, nb.1, goal.0, goal.1)
    ensures SearchInv(walls, start, goal, g[nb := t], f[nb := h], cameFrom[nb := cur], open + multiset{(h, nb)}, Some(cur))
    ensures nb != cur
  {
    RelaxParents(walls, start, g, cameFrom, cur, d, nb, t);
    RelaxScores(goal, g, f, nb, t, h);
    RelaxFrontier(walls, start, goal, g, f, open, cur, nb, t, h);
  }

  /** The open set ran empty: no walk of open steps from `start` reaches `goal`. */
  lemma SearchNoRoute(walls: set<WallKey>, start: Cell, goal: Cell, g: map<Cell, int>, f: map<Cell, int>,
                      cameFrom: map<Cell, Cell>)
    requires SearchInv(walls, start, goal, g, f, cameFrom, multiset{}, None)
    ensures start != goal
    ensures forall path :: OpenWalk(walls, start, path) ==> goal !in path
  {
    forall c | c in g.Keys ensures Surrounded(walls, g.Keys, c) {
      assert c in g;
      SettledSurrounded(walls, g, c);
    }
    forall path | OpenWalk(walls, start, path) ensures goal !in path {
      forall i | 0 <= i < |path| ensures path[i] != goal {
        SurroundedContainsStep(walls, g.Keys, start, path, i);
      }
    }
  }

  /** The goal came off the heap: the route read back along `came_from` is an open walk from `start` to `goal`. */
  method RouteBack(walls: set<WallKey>, start: Cell, goal: Cell, g: map<Cell, int>, ghost f: map<Cell, int>,
                   cameFrom: map<Cell, Cell>, ghost open: multiset<Entry>)
    returns (path: seq<Cell>)
    requires SearchInv(walls, start, goal, g, f, cameFrom, open, None) && goal in g
    ensures OpenWalk(walls, start, path) && start !in path
    ensures path == [] <==> start == goal
    ensures path != [] ==> path[|path| - 1] == goal
    ensures |path| <= g[goal]
  {
    path := ReconstructPath(cameFrom, g, start, goal);
    forall i | 0 <= i < |path| ensures OpenStep(walls, Prev(start, path, i), path[i]) {
      assert cameFrom[path[i]] == Prev(start, path, i);
    }
  }

  /**
   * Follow an open walk from `start` to the goal, beginning at its `i`-th
   * cell, scored at most `i`: settled cells pass a score at most one
   * higher to the next cell, so some cell `k` of the walk at or after `i`
   * is waiting in the open set with a score at most `k`.
   */
  lemma {:induction false} WaitingOnWalk(walls: set<WallKey>, start: Cell, goal: Cell, g: map<Cell, int>, f: map<Cell, int>,
                                         open: multiset<Entry>, path: seq<Cell>, m: int, i: int)
    returns (k: int)
    requires Waiting(walls, start, g, f, open, None) && (goal in g ==> EntryFor(start, f, goal) in open)
    requires OpenWalk(walls, start, path) && 0 <= i <= m <= |path| && Prev(start, path, m) == goal
    requires Prev(start, path, i) in g && g[Prev(start, path, i)] <= i
    ensures i <= k <= m && Prev(start, path, k) in g && g[Prev(start, path, k)] <= k
    ensures EntryFor(start, f, Prev(start, path, k)) in open
    decreases m - i
  {
    var c := Prev(start, path, i);
    if i == m || EntryFor(start, f, c) in open {
      k := i;
    } else {
      assert Settled(walls, g, c);
      assert OpenStep(walls, c, path[i]);
      var d: Dir := DirBetween(c, path[i]);
      assert Prev(start, path, i + 1) == path[i] == Neighbor(c, d);
      k := WaitingOnWalk(walls, start, goal, g, f, open, path, m, i + 1);
    }
  }

  /**
   * The goal's entry `e` came off the heap as a least entry: the goal's
   * score is no more than the number of steps of any open walk from
   * `start` that reaches it. The Manhattan heuristic never overestimates,
   * so a waiting cell on that walk has a key no larger, and no entry lies
   * below its cell's latest `f` score.
   */
  lemma GoalOptimal(walls: set<WallKey>, start: Cell, goal: Cell, g: map<Cell, int>, f: map<Cell, int>,
                    open: multiset<Entry>, e: Entry, path: seq<Cell>, j: int)
    requires start in g && g[start] == 0 && Scores(goal, g, f)
    requires Waiting(walls, start, g, f, open, None) && (goal in g ==> EntryFor(start, f, goal) in open)
    requires KeysAbove(start, f, open) && goal in g
    requires e in open && (forall o :: o in open ==> EntryLe(e, o)) && e.1 == goal && goal != start
    requires OpenWalk(walls, start, path) && 0 <= j < |path| && path[j] == goal
    ensures goal in g && g[goal] <= j + 1
  {
    assert Prev(start, path, j + 1) == goal;
    var k := WaitingOnWalk(walls, start, goal, g, f, open, path, j + 1, 0);
    var c := Prev(start, path, k);
    assert AdjacentWalk(start, path) by {
      forall i | 0 <= i < |path| ensures DirBetween(Prev(start, path, i), path[i]) != -1 {
        assert OpenStep(walls, Prev(start, path, i), path[i]);
      }
    }
    WalkManhattan(start, path, k, j + 1);
    var o := EntryFor(start, f, c);
    assert EntryLe(e, o);
    assert e.1 in f && f[goal] <= e.0;
  }

  /** The route `a_star` read back is no longer than any open walk from `start` to `goal`. */
  lemma FoundShortest(walls: set<WallKey>, start: Cell, goal: Cell, g: map<Cell, int>, f: map<Cell, int>,
                      cameFrom: map<Cell, Cell>, open: multiset<Entry>, e: Entry, route: seq<Cell>)
    requires SearchInv(walls, start, goal, g, f, cameFrom, open, None)
    requires e in open && (forall o :: o in open ==> EntryLe(e, o)) && e.1 == goal
    requires goal in g && |route| <= g[goal] && (route == [] <==> start == goal)
    ensures forall path, j :: OpenWalk(walls, start, path) && 0 <= j < |path| && path[j] == goal ==> |route| <= j + 1
  {
    if start != goal {
      forall path, j | OpenWalk(walls, start, path) && 0 <= j < |path| && path[j] == goal ensures |route| <= j + 1 {
        GoalOptimal(walls, start, goal, g, f, open, e, path, j);
      }
    }
  }

  /** No score of `g0` has grown or disappeared in `g`: `g_score` values only ever decrease. */
  ghost predicate Lowered(g0: map<Cell, int>, g: map<Cell, int>) {
    forall n :: n in g0 ==> n in g && g[n] <= g0[n]
  }

  lemma LoweredTrans(a: map<Cell, int>, b: map<Cell, int>, c: map<Cell, int>)
    requires Lowered(a, b) && Lowered(b, c)
    ensures Lowered(a, c)
  {
  }

  /**
   * One pass of the inner loop of `a_star`: the neighbour `nb` across the
   * open side `d` of `cur` is relaxed when going through `cur` gives it a
   * smaller `g` score than it has, or it has none.
   */
  method RelaxNeighbor(walls: set<WallKey>, start: Cell, goal: Cell, g0: map<Cell, int>, f0: map<Cell, int>,
                       cameFrom0: map<Cell, Cell>, open0: multiset<Entry>, cur: Cell, neighbor: (int, int, Dir))
    returns (g: map<Cell, int>, f: map<Cell, int>, cameFrom: map<Cell, Cell>, open: multiset<Entry>)
    requires SearchInv(walls, start, goal, g0, f0, cameFrom0, open0, Some(cur)) && cur in g0
    requires (cur.0, cur.1, neighbor.2) !in walls && (neighbor.0, neighbor.1) == Neighbor(cur, neighbor.2)
    ensures SearchInv(walls, start, goal, g, f, cameFrom, open, Some(cur))
    ensures (neighbor.0, neighbor.1) in g && g[(neighbor.0, neighbor.1)] <= g0[cur] + 1
    ensures cur in g && g[cur] == g0[cur]
    ensures Lowered(g0, g)
  {
    g, f, cameFrom, open := g0, f0, cameFrom0, open0;
    var (nx, ny, d) := neighbor;
    var nb := (nx, ny);
    var t := g[cur] + 1;
    if nb !in g || t < g[nb] {
      var h := t + Manhattan(nx, ny, goal.0, goal.1);
      SearchRelax(walls, start, goal, g, f, cameFrom, open, cur, d, nb, t, h);
      RelaxLowered(g, nb, t);
      cameFrom := cameFrom[nb := cur];
      g := g[nb := t];
      f := f[nb := h];
      open := open + multiset{(h, nb)};
    }
  }

  /** Giving `nb` a smaller score, or its first one, lowers the scores. */
  lemma RelaxLowered(g: map<Cell, int>, nb: Cell, t: int)
    requires nb !in g || t < g[nb]
    ensures Lowered(g, g[nb := t])
  {
  }

  /**
   * The inner loop of `a_star` at the popped cell `cur`: every neighbour
   * from `get_neighbors` that gets a smaller `g` score through `cur` is
   * relaxed and pushed. Afterwards `cur` is settled, and no score has
   * grown.
   */
  method ExpandCell(walls: set<WallKey>, start: Cell, goal: Cell, g0: map<Cell, int>, f0: map<Cell, int>,
                    cameFrom0: map<Cell, Cell>, open0: multiset<Entry>, cur: Cell)
    returns (g: map<Cell, int>, f: map<Cell, int>, cameFrom: map<Cell, Cell>, open: multiset<Entry>)
    requires SearchInv(walls, start, goal, g0, f0, cameFrom0, open0, Some(cur)) && cur in g0
    ensures SearchInv(walls, start, goal, g, f, cameFrom, open, None)
    ensures Lowered(g0, g)
  {
    g, f, cameFrom, open := g0, f0, cameFrom0, open0;
    var neighbors := GetNeighbors(cur.0, cur.1, walls);
    for i := 0 to |neighbors|
      invariant SearchInv(walls, start, goal, g, f, cameFrom, open, Some(cur))
      invariant cur in g && g[cur] == g0[cur]
      invariant forall j :: 0 <= j < i ==> ListedIn(g, g0[cur] + 1, neighbors[j])
      invariant Lowered(g0, g)
    {
      ghost var before := g;
      g, f, cameFrom, open := RelaxNeighbor(walls, start, goal, g, f, cameFrom, open, cur, neighbors[i]);
      LoweredTrans(g0, before, g);
      ListedKept(before, g, g0[cur] + 1, neighbors, i);
    }
    ListedSettle(walls, g, cur, neighbors);
    ExpandDone(walls, start, goal, g, f, cameFrom, open, cur);
  }

  /** Once the expanded cell is settled it no longer needs to be set apart from the waiting cells. */
  lemma ExpandDone(walls: set<WallKey>, start: Cell, goal: Cell, g: map<Cell, int>, f: map<Cell, int>,
                   cameFrom: map<Cell, Cell>, open: multiset<Entry>, cur: Cell)
    requires SearchInv(walls, start, goal, g, f, cameFrom, open, Some(cur)) && Settled(walls, g, cur)
    ensures SearchInv(walls, start, goal, g, f, cameFrom, open, None)
  {
  }

  /** The cell of the listed neighbour `nb` is scored in `g`, at most `bound`. */
  ghost predicate ListedIn(g: map<Cell, int>, bound: int, nb: (int, int, Dir)) {
    (nb.0, nb.1) in g && g[(nb.0, nb.1)] <= bound
  }

  /** Scores that only decrease keep the listed neighbours scored within the bound. */
  lemma ListedKept(before: map<Cell, int>, g: map<Cell, int>, bound: int, neighbors: seq<(int, int, Dir)>, i: int)
    requires 0 <= i < |neighbors| && Lowered(before, g)
    requires forall j :: 0 <= j < i ==> ListedIn(before, bound, neighbors[j])
    requires ListedIn(g, bound, neighbors[i])
    ensures forall j :: 0 <= j < i + 1 ==> ListedIn(g, bound, neighbors[j])
  {
  }

  /** Every open side of `c` is listed, and every listed cell is scored at most one above `c`: `c` is settled. */
  lemma ListedSettle(walls: set<WallKey>, g: map<Cell, int>, c: Cell, neighbors: seq<(int, int, Dir)>)
    requires c in g
    requires forall d: Dir :: (c.0, c.1, d) !in walls ==> (c.0 + DX(d), c.1 + DY(d), d) in neighbors
    requires forall j :: 0 <= j < |neighbors| ==> ListedIn(g, g[c] + 1, neighbors[j])
    ensures Settled(walls, g, c)
  {
    forall d: Dir | (c.0, c.1, d) !in walls ensures Neighbor(c, d) in g && g[Neighbor(c, d)] <= g[c] + 1 {
      var j :| 0 <= j < |neighbors| && neighbors[j] == (c.0 + DX(d), c.1 + DY(d), d);
      assert ListedIn(g, g[c] + 1, neighbors[j]);
    }
  }

  /** What `a_star` answers: a path, `None` once the heap is empty, or (model only) no answer within the fuel. */
  datatype SearchResult = Found(path: seq<Cell>) | Exhausted | OutOfFuel

  /**
   * `a_star(start, goal, walls)`: A* over the recorded walls with the
   * Manhattan heuristic toward `goal`. The start is pushed with priority 0
   * rather than its `f` score, stale heap entries are expanded again, and
   * cells are not bounds-checked, as in the source. Without a bound the
   * search need not stop, so at most `fuel` entries are popped.
   */
  method AStar(start: Cell, goal: Cell, walls: set<WallKey>, fuel: nat) returns (result: SearchResult, pops: nat)
    ensures result.Found? ==> OpenWalk(walls, start, result.path) && start !in result.path
    ensures result.Found? ==> (result.path == [] <==> start == goal)
    ensures result.Found? && result.path != [] ==> result.path[|result.path| - 1] == goal
    ensures result.Exhausted? ==> start != goal
    ensures result.Exhausted? ==> forall path :: OpenWalk(walls, start, path) ==> goal !in path
    ensures result.Found? ==> forall path, j :: OpenWalk(walls, start, path) && 0 <= j < |path| && path[j] == goal ==>
      |result.path| <= j + 1
    ensures start == goal && fuel > 0 ==> result == Found([])
    ensures pops <= fuel && (result.OutOfFuel? ==> pops == fuel)
  {
    var open: multiset<Entry> := multiset{(0, start)};
    var cameFrom: map<Cell, Cell> := map[];
    var g: map<Cell, int> := map[start := 0];
    var f: map<Cell, int> := map[start := Manhattan(start.0, start.1, goal.0, goal.1)];
    var budget := fuel;
    var found := false;
    ghost var top: Entry := (0, start);
    SearchBegin(walls, start, goal);
    while |open| > 0 && budget > 0
      invariant SearchInv(walls, start, goal, g, f, cameFrom, open, None)
      invariant !found && 0 <= budget <= fuel
      invariant budget == fuel ==> open == multiset{(0, start)}
      invariant start == goal ==> budget == fuel
      decreases budget
    {
      budget := budget - 1;
      var e, rest := PopMin(open);
      var current := e.1;
      if current == goal {
        found := true;
        top := e;
        break;
      }
      SearchPop(walls, start, goal, g, f, cameFrom, open, e);
      g, f, cameFrom, open := ExpandCell(walls, start, goal, g, f, cameFrom, rest, current);
    }
    pops := fuel - budget;
    if found {
      var path := RouteBack(walls, start, goal, g, f, cameFrom, open);
      FoundShortest(walls, start, goal, g, f, cameFrom, open, top, path);
      result := Found(path);
    } else if |open| == 0 {
      SearchNoRoute(walls, start, goal, g, f, cameFrom);
      result := Exhausted;
    } else {
      result := OutOfFuel;
    }
  }

  // ------------------------------------------------------------ exploration

  /** The physical maze is walled all round: every side of a cell inside that faces outside is a wall. */
  ghost predicate Enclosed(width: int, height: int, maze: Maze) {
    forall x, y, d: Dir :: InBounds(width, height, (x, y)) && !InBounds(width, height, Neighbor((x, y), d)) ==>
      WallAt(maze, x, y, d)
  }

  /**
   * In an enclosed maze, a side of a fully sensed cell inside that is not
   * recorded as a wall leads to a cell inside: without a bounds check the
   * exploration still stays in the maze.
   */
  lemma EnclosedOpen(width: int, height: int, maze: Maze, walls: set<WallKey>, c: Cell, d: Dir)
    requires Enclosed(width, height, maze) && InBounds(width, height, c) && FullySensed(maze, walls, c)
    requires (c.0, c.1, d) !in walls
    ensures OpenSide(width, height, walls, c, d)
  {
    assert !WallAt(maze, c.0, c.1, d);
  }

  /** The top of the exploration stack lies inside the maze. */
  lemma TopInside(width: int, height: int, maze: Maze, walls0: set<WallKey>, visited0: set<Cell>,
                  walls: set<WallKey>, visited: set<Cell>, stack: seq<Cell>, seen: set<Cell>, finished: set<Cell>, c: Cell)
    requires ExploreInv(width, height, [], maze, (0, 0), walls0, visited0, walls, visited, stack, seen, finished, None)
    requires InBounds(width, height, (0, 0)) && OnTop(stack, c)
    ensures InBounds(width, height, c)
  {
    if |stack| > 1 {
      var path := stack[1..];
      assert c == path[|path| - 1];
      assert Prev((0, 0), path, |path| - 1) == Prev((0, 0), path, |path| - 1);
    }
  }

  /**
   * The scan of `explore_and_map` for a move: the first heading whose
   * neighbour is not visited and whose side is not in `walls`.
   */
  method FirstOpenUnvisited(x: int, y: int, walls: set<WallKey>, visited: set<Cell>) returns (r: Option<Dir>)
    ensures r.Some? ==> (x, y, r.value) !in walls && Neighbor((x, y), r.value) !in visited
    ensures forall e: Dir :: (r.None? || e < r.value) ==> (x, y, e) in walls || Neighbor((x, y), e) in visited
  {
    for d := 0 to 4
      invariant forall e: Dir :: e < d ==> (x, y, e) in walls || Neighbor((x, y), e) in visited
    {
      var nx, ny := x + DX(d), y + DY(d);
      if (nx, ny) !in visited && (x, y, d) !in walls {
        return Some(d);
      }
    }
    return None;
  }

  /**
   * A move of `explore_and_map`: turn toward `target` one character of
   * `get_direction_to_turn` at a time, then move forward, recording the
   * letter of every call.
   */
  method TurnAndMove(direction: Dir, target: Dir) returns (cmds: seq<Command>, letters: string)
    ensures Rotate(direction, cmds) == target && Forwards(cmds) == 1
    ensures |cmds| >= 1 && cmds[|cmds| - 1] == MoveForward
    ensures letters == Letters(cmds)
  {
    var turns;
    turns, letters := TurnBy(direction, target);
    cmds := turns + [MoveForward];
    ForwardsWithout(turns);
    ForwardsAppend(turns, [MoveForward]);
    RotateAppend(direction, turns, [MoveForward]);
    LettersAppend(turns, [MoveForward]);
    letters := letters + ['F'];
  }

  /** A cell whose every side is walled or leads to a visited cell has no open unvisited neighbour. */
  lemma ScanClosed(width: int, height: int, walls: set<WallKey>, visited: set<Cell>, c: Cell)
    requires forall e: Dir :: (c.0, c.1, e) in walls || Neighbor(c, e) in visited
    ensures Closed(width, height, walls, visited, c)
  {
  }

  /** Backtracking from `c` to the cell `prev` below it on the stack, which is one of its neighbours. */
  method MoveBack(c: Cell, direction: Dir, prev: Cell) returns (x': int, y': int, direction': Dir, cmds: seq<Command>, letters: string)
    requires DirBetween(c, prev) != -1
    ensures (x', y') == prev == Neighbor(c, direction')
    ensures Rotate(direction, cmds) == direction' && Forwards(cmds) == 1 && letters == Letters(cmds)
  {
    var d := FindDirection(c, prev);
    if d.Some? {
      cmds, letters := TurnAndMove(direction, d.value);
      direction' := d.value;
      x', y' := prev.0, prev.1;
    } else {
      assert false;
    }
  }

  /**
   * One round of the loop of `explore_and_map` at `(x, y)`, the top of
   * the stack: the cell is marked visited and its four sides sensed in the
   * physical `maze`; the goal pattern is checked; then the robot turns and
   * moves into the first open unvisited neighbour, pushing it, or pops the
   * stack and moves back to the cell below, or, with only the start cell
   * left, is `done`. The calls made are returned and their letters
   * appended to `actions`.
   */
  method ExploreRound(ghost width: int, ghost height: int, maze: Maze, ghost walls0: set<WallKey>, ghost visited0: set<Cell>,
                      x: int, y: int, direction: Dir, walls: set<WallKey>, visited: set<Cell>, stack: seq<Cell>,
                      ghost seen: set<Cell>, ghost finished: set<Cell>, actions: string)
    returns (x': int, y': int, direction': Dir, walls': set<WallKey>, visited': set<Cell>, stack': seq<Cell>,
             ghost seen': set<Cell>, ghost finished': set<Cell>, cmds: seq<Command>, actions': string,
             goal: Option<Cell>, done: bool)
    requires Enclosed(width, height, maze) && InBounds(width, height, (0, 0))
    requires ExploreInv(width, height, [], maze, (0, 0), walls0, visited0, walls, visited, stack, seen, finished, None)
    requires OnTop(stack, (x, y))
    ensures walls' == walls + Sensed(x, y, direction, WallAt(maze, x, y, direction), WallAt(maze, x, y, Left(direction)),
                                     WallAt(maze, x, y, Right(direction)), WallAt(maze, x, y, Back(direction)))
    ensures visited' == visited + {(x, y)}
    ensures goal == None
    ensures Rotate(direction, cmds) == direction' && actions' == actions + Letters(cmds)
    ensures |stack'| == |stack| + 1 ==> stack' == stack + [(x', y')] && (x', y') !in visited'
    ensures done ==> (x', y') == (x, y) == (0, 0) && cmds == []
    ensures done ==> ExploreResult(width, height, [], maze, (0, 0), walls0, visited0, walls', visited', None)
    ensures !done ==> ExploreInv(width, height, [], maze, (0, 0), walls0, visited0, walls', visited', stack',
                                    seen', finished', None)
    ensures !done ==> OnTop(stack', (x', y')) && Forwards(cmds) == 1
    ensures !done ==> ExploreMeasure(width, height, visited', stack') < ExploreMeasure(width, height, visited, stack)
  {
    var c := (x, y);
    visited' := visited + {c};
    var sensed := Sensed(x, y, direction, WallAt(maze, x, y, direction), WallAt(maze, x, y, Left(direction)),
                         WallAt(maze, x, y, Right(direction)), WallAt(maze, x, y, Back(direction)));
    walls', seen', finished' := walls + sensed, seen + {c}, finished;
    x', y', direction', stack', cmds, goal, done := x, y, direction, stack, [], None, false;
    var letters: string := [];
    if GoalReached(actions) {
      goal, done, actions' := Some(c), true, actions;
      return;
    }
    TopInside(width, height, maze, walls0, visited0, walls, visited, stack, seen, finished, c);
    SensedAll(maze, x, y, direction);
    var next := FirstOpenUnvisited(x, y, walls', visited');
    if next.None? {
      ScanClosed(width, height, walls', visited', c);
    }
    if next.Some? {
      var d := next.value;
      var n := Neighbor(c, d);
      EnclosedOpen(width, height, maze, walls', c, d);
      ExploreAdvance(width, height, [], maze, (0, 0), walls0, visited0, walls, visited, stack, seen, finished, None,
                        c, direction, sensed, None, d, n);
      cmds, letters := TurnAndMove(direction, d);
      direction' := d;
      x', y' := n.0, n.1;
      stack' := stack + [n];
    } else if |stack| > 1 {
      ExploreRetreat(width, height, [], maze, (0, 0), walls0, visited0, walls, visited, stack, seen, finished, None,
                        c, direction, sensed, None);
      finished' := finished + {c};
      stack' := stack[..|stack| - 1];
      x', y', direction', cmds, letters := MoveBack(c, direction, stack'[|stack'| - 1]);
    } else {
      ExploreFinish(width, height, [], maze, (0, 0), walls0, visited0, walls, visited, stack, seen, finished, None,
                       c, direction, sensed, None);
      done := true;
    }
    actions' := actions + letters;
  }

  /**
   * `explore_and_map(walls, visited)`: depth-first exploration from
   * `(0, 0)` facing north in the physical `maze`, adding to the caller's
   * `walls` and `visited`. Every cell it enters is sensed on all four
   * sides and left with all its open neighbours visited; every wall it
   * adds is physical. The goal pattern never matches, so the loop ends by
   * backtracking to the start cell and the answer is always `None`.
   */
  method ExploreAndMap(ghost width: int, ghost height: int, maze: Maze, walls0: set<WallKey>, visited0: set<Cell>)
    returns (goal: Option<Cell>, walls: set<WallKey>, visited: set<Cell>, cmds: seq<Command>, actions: string)
    requires Enclosed(width, height, maze) && InBounds(width, height, (0, 0))
    ensures goal == None
    ensures ExploreResult(width, height, [], maze, (0, 0), walls0, visited0, walls, visited, None)
    ensures actions == Letters(cmds)
  {
    var x, y, direction := 0, 0, 0;
    walls, visited := walls0, visited0;
    var stack: seq<Cell> := [(x, y)];
    ghost var seen: set<Cell> := {};
    ghost var finished: set<Cell> := {};
    cmds, actions := [], [];
    goal := None;
    while stack != []
      invariant ExploreInv(width, height, [], maze, (0, 0), walls0, visited0, walls, visited, stack, seen, finished, None)
      invariant OnTop(stack, (x, y))
      invariant actions == Letters(cmds)
      decreases ExploreMeasure(width, height, visited, stack)
    {
      var step, done;
      x, y, direction, walls, visited, stack, seen, finished, step, actions, goal, done :=
        ExploreRound(width, height, maze, walls0, visited0, x, y, direction, walls, visited, stack, seen, finished, actions);
      LettersAppend(cmds, step);
      cmds := cmds + step;
      if done {
        return;
      }
    }
    assert false;
  }

  // ---------------------------------------------------------- path following

  /**
   * `follow_path(path, start_x, start_y, start_dir)`: for each cell of
   * `path` the robot turns to face it when it is adjacent, moves forward
   * once and takes that cell as its position. The final position is the
   * last cell of `path`, or the start cell when `path` is empty.
   */
  method FollowPath(path: seq<Cell>, startX: int, startY: int, startDir: Dir)
    returns (x: int, y: int, direction: Dir, cmds: seq<Command>)
    ensures (x, y) == Prev((startX, startY), path, |path|)
    ensures Rotate(startDir, cmds) == direction && Forwards(cmds) == |path|
    ensures path == [] ==> direction == startDir && cmds == []
    ensures path != [] && DirBetween(Prev((startX, startY), path, |path| - 1), (x, y)) != -1 ==>
      direction == DirBetween(Prev((startX, startY), path, |path| - 1), (x, y))
  {
    x, y, direction, cmds := startX, startY, startDir, [];
    for i := 0 to |path|
      invariant (x, y) == Prev((startX, startY), path, i)
      invariant Rotate(startDir, cmds) == direction && Forwards(cmds) == i
      invariant i == 0 ==> direction == startDir && cmds == []
      invariant i > 0 && DirBetween(Prev((startX, startY), path, i - 1), (x, y)) != -1 ==>
        direction == DirBetween(Prev((startX, startY), path, i - 1), (x, y))
    {
      var next := path[i];
      var d := FindDirection((x, y), next);
      var turns: seq<Command> := [];
      if d.Some? {
        var letters;
        turns, letters := TurnBy(direction, d.value);
        direction := d.value;
      }
      var step := turns + [MoveForward];
      RotateAppend(Rotate(startDir, cmds), turns, [MoveForward]);
      RotateAppend(startDir, cmds, step);
      ForwardsWithout(turns);
      ForwardsAppend(turns, [MoveForward]);
      ForwardsAppend(cmds, step);
      cmds := cmds + step;
      x, y := next.0, next.1;
    }
  }
}
