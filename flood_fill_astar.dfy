/**
 * The three-phase solver of `FloodfillxAstar.py`: a depth-first
 * exploration of the whole maze, a breadth-first flood of distances from
 * the goal block over the walls it recorded, an A* search back to the
 * start cell, and a final run down the distance gradient to the goal.
 */
module FloodfillAstar {
  import opened Grid
  import opened Search
  import opened Flooding
  import opened Exploration

  /**
   * The parent links of `a_star_to_start`: every scored cell but the
   * start has a parent with a smaller score, reached by an open move, and
   * scores stay below the number of scored cells.
   */
  ghost predicate ParentsInv(width: int, height: int, walls: set<WallKey>, region: set<Cell>, origin: Cell,
                             g: map<Cell, int>, cameFrom: map<Cell, Cell>)
  {
    && origin in g && g[origin] == 0 && origin !in cameFrom
    && (forall n :: n in g ==> n in region && 0 <= g[n] < |g|)
    && (forall n :: n in g && n != origin ==> n in cameFrom)
    && (forall n {:trigger cameFrom[n]} :: n in cameFrom ==>
          n in g && cameFrom[n] in g && g[cameFrom[n]] < g[n] && OpenMove(width, height, walls, cameFrom[n], n))
  }

  /**
   * The `f` score of `a_star_to_start`: the `g` score plus the Manhattan
   * distance to `(0, 0)`.
   */
  function FScore(g: map<Cell, int>, n: Cell): int
    requires n in g
  {
    g[n] + Manhattan(n.0, n.1, 0, 0)
  }

  /**
   * The heap entry that stands for cell `n` while it waits: the start was
   * pushed with priority 0, every other cell with its current `f` score.
   */
  function EntryOf(origin: Cell, g: map<Cell, int>, n: Cell): Entry {
    (if n == origin || n !in g then 0 else FScore(g, n), n)
  }

  /**
   * The open sides of `c` among the first `k` headings lead to scored
   * cells whose scores are at most one above that of `c`.
   */
  ghost predicate SettledUpTo(width: int, height: int, walls: set<WallKey>, g: map<Cell, int>, c: Cell, k: int) {
    c in g && forall d: Dir :: d < k && OpenSide(width, height, walls, c, d) ==>
      Neighbor(c, d) in g && g[Neighbor(c, d)] <= g[c] + 1
  }

  /** Expanding the scored cell `c` again would improve nothing. */
  ghost predicate Settled(width: int, height: int, walls: set<WallKey>, g: map<Cell, int>, c: Cell) {
    SettledUpTo(width, height, walls, g, c, 4)
  }

  /** No score of `g0` has grown or disappeared in `g`. */
  ghost predicate Lowered(g0: map<Cell, int>, g: map<Cell, int>) {
    forall n :: n in g0 ==> n in g && g[n] <= g0[n]
  }

  /** Lowering the scores of other cells keeps what is settled of `c`. */
  lemma SettledLowered(width: int, height: int, walls: set<WallKey>, g: map<Cell, int>, g': map<Cell, int>, c: Cell, k: int)
    requires SettledUpTo(width, height, walls, g, c, k) && Lowered(g, g') && g'[c] == g[c]
    ensures SettledUpTo(width, height, walls, g', c, k)
  {
  }

  /** A settled cell is closed: its open neighbours are all scored. */
  lemma SettledClosed(width: int, height: int, walls: set<WallKey>, g: map<Cell, int>, c: Cell)
    requires Settled(width, height, walls, g, c)
    ensures Closed(width, height, walls, g.Keys, c)
  {
    forall d: Dir | OpenSide(width, height, walls, c, d) ensures Neighbor(c, d) in g.Keys {
      assert Neighbor(c, d) in g;
    }
  }

  /**
   * The open set of `a_star_to_start`: its entries name scored cells, every
   * scored cell is being expanded (`current`), waits in the open set under
   * its latest entry, or is settled; `(0, 0)` once scored waits in the
   * open set; and no entry lies below the latest `f` score of its cell.
   */
  ghost predicate FrontierInv(width: int, height: int, walls: set<WallKey>, origin: Cell, g: map<Cell, int>,
                              open: multiset<Entry>, current: Option<Cell>)
  {
    && EntriesScored(g, open)
    && Waiting(width, height, walls, origin, g, open, current)
    && ((0, 0) in g ==> EntryOf(origin, g, (0, 0)) in open)
    && KeysAbove(origin, g, open)
  }

  ghost predicate EntriesScored(g: map<Cell, int>, open: multiset<Entry>) {
    forall e :: e in open ==> e.1 in g
  }

  ghost predicate Waiting(width: int, height: int, walls: set<WallKey>, origin: Cell, g: map<Cell, int>,
                          open: multiset<Entry>, current: Option<Cell>)
  {
    forall n {:trigger EntryOf(origin, g, n)} :: n in g ==>
      Some(n) == current || EntryOf(origin, g, n) in open || Settled(width, height, walls, g, n)
  }

  /**
   * Scores only decrease and each decrease pushes a new entry, so no entry
   * lies below the latest `f` score of its cell.
   */
  ghost predicate KeysAbove(origin: Cell, g: map<Cell, int>, open: multiset<Entry>) {
    forall e :: e in open && e.1 != origin ==> e.1 in g && FScore(g, e.1) <= e.0
  }

  /** The loop invariant of `a_star_to_start`, on the search's own maps. */
  ghost predicate SearchInv(width: int, height: int, walls: set<WallKey>, region: set<Cell>, origin: Cell,
                            g: map<Cell, int>, cameFrom: map<Cell, Cell>,
                            open: multiset<Entry>, current: Option<Cell>)
  {
    && ParentsInv(width, height, walls, region, origin, g, cameFrom)
    && FrontierInv(width, height, walls, origin, g, open, current)
  }

  /**
   * The set-up of `calculate_manhattan_distances`: every cell of the grid
   * is reset to `INF`, then every goal cell to 0 and queued in order.
   * Entries outside the grid and the goals are left alone.
   */
  method ResetDistances(width: int, height: int, goals: seq<Cell>, dist0: map<Cell, int>)
    returns (dist: map<Cell, int>, queue: seq<Cell>)
    ensures queue == goals
    ensures forall i :: 0 <= i < |goals| ==> goals[i] in dist && dist[goals[i]] == 0
    ensures forall c :: InBounds(width, height, c) && c !in goals ==> c in dist && dist[c] == INF
    ensures AgreeOutside(FloodKeys(width, height, goals), dist0, dist)
  {
    ghost var keys := FloodKeys(width, height, goals);
    dist := dist0;
    var yy := 0;
    while yy < height
      invariant 0 <= yy && (height >= 0 ==> yy <= height)
      invariant forall c :: InBounds(width, yy, c) ==> c in dist && dist[c] == INF
      invariant AgreeOutside(keys, dist0, dist)
    {
      var xx := 0;
      while xx < width
        invariant 0 <= xx && (width >= 0 ==> xx <= width)
        invariant forall c :: InBounds(width, yy, c) ==> c in dist && dist[c] == INF
        invariant forall c: Cell :: c.1 == yy && 0 <= c.0 < xx ==> c in dist && dist[c] == INF
        invariant AgreeOutside(keys, dist0, dist)
      {
        AgreeOutsideUpdate(keys, dist0, dist, (xx, yy), INF);
        dist := dist[(xx, yy) := INF];
        xx := xx + 1;
      }
      yy := yy + 1;
    }
    queue := [];
    for i := 0 to |goals|
      invariant queue == goals[..i]
      invariant forall j :: 0 <= j < i ==> goals[j] in dist && dist[goals[j]] == 0
      invariant forall c :: InBounds(width, height, c) && c !in goals[..i] ==> c in dist && dist[c] == INF
      invariant AgreeOutside(keys, dist0, dist)
    {
      AgreeOutsideUpdate(keys, dist0, dist, goals[i], 0);
      dist := dist[goals[i] := 0];
      queue := queue + [goals[i]];
    }
  }

  /** The search has just started: only `from` is scored, and it is the one entry of the open set. */
  lemma SearchStart(width: int, height: int, walls: set<WallKey>, from: Cell)
    ensures SearchInv(width, height, walls, Cells(width, height) + {from}, from, map[from := 0], map[],
                      multiset{(0, from)}, None)
  {
    var open := multiset{(0, from)};
    assert (0, from) in open;
  }

  /** `heappop` returned the entry `e` for a cell other than `(0, 0)`: that cell is being expanded. */
  lemma SearchPop(width: int, height: int, walls: set<WallKey>, region: set<Cell>, from: Cell,
                  g: map<Cell, int>, cameFrom: map<Cell, Cell>, open: multiset<Entry>, e: Entry)
    requires SearchInv(width, height, walls, region, from, g, cameFrom, open, None)
    requires e in open && e.1 != (0, 0)
    ensures SearchInv(width, height, walls, region, from, g, cameFrom, open - multiset{e}, Some(e.1))
    ensures e.1 in g
  {
    FrontierPop(width, height, walls, from, g, open, e);
  }

  /** Popping `e` leaves every other scored cell's entry waiting, and the goal's too. */
  lemma FrontierPop(width: int, height: int, walls: set<WallKey>, from: Cell,
                    g: map<Cell, int>, open: multiset<Entry>, e: Entry)
    requires FrontierInv(width, height, walls, from, g, open, None)
    requires e in open && e.1 != (0, 0)
    ensures FrontierInv(width, height, walls, from, g, open - multiset{e}, Some(e.1))
    ensures e.1 in g
  {
    var rest := open - multiset{e};
    forall o | o in rest ensures o.1 in g && (o.1 != from ==> FScore(g, o.1) <= o.0) {
      assert o in open;
    }
    forall n | n in g && n != e.1 && EntryOf(from, g, n) in open ensures EntryOf(from, g, n) in rest {
      PopKeeps(open, e, EntryOf(from, g, n));
    }
    if (0, 0) in g {
      PopKeeps(open, e, EntryOf(from, g, (0, 0)));
    }
  }

  /** Removing one entry keeps every entry for another cell. */
  lemma PopKeeps(open: multiset<Entry>, e: Entry, o: Entry)
    requires o in open && o.1 != e.1
    ensures o in open - multiset{e}
  {
    assert o != e;
  }

  lemma RelaxParents(width: int, height: int, walls: set<WallKey>, from: Cell,
                     g: map<Cell, int>, cameFrom: map<Cell, Cell>, cur: Cell, d: Dir, nb: Cell, t: int)
    requires ParentsInv(width, height, walls, Cells(width, height) + {from}, from, g, cameFrom)
    requires cur in g && OpenSide(width, height, walls, cur, d) && nb == Neighbor(cur, d)
    requires t == g[cur] + 1 && (nb !in g || t < g[nb])
    ensures ParentsInv(width, height, walls, Cells(width, height) + {from}, from, g[nb := t], cameFrom[nb := cur])
    ensures nb != cur && nb != from
  {
    NeighborsDistinct(cur, d, d);
    assert g[cur] >= 0;
    assert nb != from;
    RelaxScores(width, height, walls, from, g, cameFrom, cur, d, nb, t);
    RelaxLinks(width, height, walls, from, g, cameFrom, cur, d, nb, t);
  }

  /** After relaxing, every score is still below the number of scored cells. */
  lemma RelaxScores(width: int, height: int, walls: set<WallKey>, from: Cell,
                    g: map<Cell, int>, cameFrom: map<Cell, Cell>, cur: Cell, d: Dir, nb: Cell, t: int)
    requires ParentsInv(width, height, walls, Cells(width, height) + {from}, from, g, cameFrom)
    requires cur in g && OpenSide(width, height, walls, cur, d) && nb == Neighbor(cur, d)
    requires t == g[cur] + 1 && (nb !in g || t < g[nb])
    ensures forall n :: n in g[nb := t] ==> n in Cells(width, height) + {from} && 0 <= g[nb := t][n] < |g[nb := t]|
  {
    var region := Cells(width, height) + {from};
    var g' := g[nb := t];
    SubsetCard(g.Keys, region);
    assert |g| <= |g'|;
    forall n | n in g' ensures n in region && 0 <= g'[n] < |g'| {
      if n == nb {
        assert nb in region;
        if nb !in g {
          assert |g'| == |g| + 1;
        }
      }
    }
  }

  /** After relaxing, every parent link is an open move to a cell with a smaller score. */
  lemma RelaxLinks(width: int, height: int, walls: set<WallKey>, from: Cell,
                   g: map<Cell, int>, cameFrom: map<Cell, Cell>, cur: Cell, d: Dir, nb: Cell, t: int)
    requires ParentsInv(width, height, walls, Cells(width, height) + {from}, from, g, cameFrom)
    requires cur in g && OpenSide(width, height, walls, cur, d) && nb == Neighbor(cur, d) && nb != cur
    requires t == g[cur] + 1 && (nb !in g || t < g[nb])
    ensures forall n {:trigger cameFrom[nb := cur][n]} :: n in cameFrom[nb := cur] ==>
      n in g[nb := t] && cameFrom[nb := cur][n] in g[nb := t] && g[nb := t][cameFrom[nb := cur][n]] < g[nb := t][n]
      && OpenMove(width, height, walls, cameFrom[nb := cur][n], n)
  {
    var g', cameFrom' := g[nb := t], cameFrom[nb := cur];
    DirBetweenNeighbor(cur, d);
    assert OpenMove(width, height, walls, cur, nb);
    forall n {:trigger cameFrom'[n]} | n in cameFrom'
      ensures n in g' && cameFrom'[n] in g' && g'[cameFrom'[n]] < g'[n]
        && OpenMove(width, height, walls, cameFrom'[n], n)
    {
      if n != nb {
        assert cameFrom'[n] == cameFrom[n];
      }
    }
  }

  /** Rescoring one cell leaves the entries standing for the other cells as they were. */
  lemma EntryOfUpdate(origin: Cell, g: map<Cell, int>, n: Cell, m: Cell, v: int)
    requires n != m
    ensures EntryOf(origin, g[m := v], n) == EntryOf(origin, g, n)
  {
    if n != origin && n in g {
      assert FScore(g[m := v], n) == FScore(g, n);
    }
  }

  lemma RelaxFrontier(width: int, height: int, walls: set<WallKey>, from: Cell, g: map<Cell, int>,
                      open: multiset<Entry>, cur: Cell, nb: Cell, t: int)
    requires FrontierInv(width, height, walls, from, g, open, Some(cur))
    requires nb != from && (nb !in g || t < g[nb])
    ensures FrontierInv(width, height, walls, from, g[nb := t], open + multiset{(t + Manhattan(nb.0, nb.1, 0, 0), nb)}, Some(cur))
  {
    var g', open' := g[nb := t], open + multiset{(t + Manhattan(nb.0, nb.1, 0, 0), nb)};
    RelaxWaiting(width, height, walls, from, g, open, cur, nb, t);
    RelaxKeys(from, g, open, nb, t);
    if nb != (0, 0) && (0, 0) in g' {
      EntryOfUpdate(from, g, (0, 0), nb, t);
    }
  }

  /** Relaxing `nb` keeps every scored cell current, waiting or settled. */
  lemma RelaxWaiting(width: int, height: int, walls: set<WallKey>, from: Cell, g: map<Cell, int>,
                     open: multiset<Entry>, cur: Cell, nb: Cell, t: int)
    requires Waiting(width, height, walls, from, g, open, Some(cur))
    requires nb != from && (nb !in g || t < g[nb])
    ensures Waiting(width, height, walls, from, g[nb := t], open + multiset{(t + Manhattan(nb.0, nb.1, 0, 0), nb)}, Some(cur))
  {
    var g', open' := g[nb := t], open + multiset{(t + Manhattan(nb.0, nb.1, 0, 0), nb)};
    assert EntryOf(from, g', nb) == (t + Manhattan(nb.0, nb.1, 0, 0), nb);
    assert Lowered(g, g');
    forall n | n in g'
      ensures Some(n) == Some(cur) || EntryOf(from, g', n) in open' || Settled(width, height, walls, g', n)
    {
      if n != nb {
        EntryOfUpdate(from, g, n, nb, t);
        if n != cur && EntryOf(from, g, n) !in open {
          SettledLowered(width, height, walls, g, g', n, 4);
        }
      }
    }
  }

  /** Relaxing `nb` lowers its `f` score below its old entries and pushes an entry carrying the new one. */
  lemma RelaxKeys(from: Cell, g: map<Cell, int>, open: multiset<Entry>, nb: Cell, t: int)
    requires EntriesScored(g, open) && KeysAbove(from, g, open)
    requires nb != from && (nb !in g || t < g[nb])
    ensures EntriesScored(g[nb := t], open + multiset{(t + Manhattan(nb.0, nb.1, 0, 0), nb)})
    ensures KeysAbove(from, g[nb := t], open + multiset{(t + Manhattan(nb.0, nb.1, 0, 0), nb)})
  {
    var g', pushed := g[nb := t], (t + Manhattan(nb.0, nb.1, 0, 0), nb);
    var open' := open + multiset{pushed};
    forall e | e in open' ensures e.1 in g' && (e.1 != from ==> FScore(g', e.1) <= e.0) {
      if e != pushed {
        assert e in open;
        if e.1 != nb && e.1 != from {
          assert FScore(g', e.1) == FScore(g, e.1);
        }
      }
    }
  }

  /**
   * Side `d` of the cell `cur` being expanded is open and improves the
   * score of its neighbour: the neighbour's parent and `g` score are set
   * together and it is pushed again with its new `f` score.
   */
  lemma SearchRelax(width: int, height: int, walls: set<WallKey>, region: set<Cell>, from: Cell,
                    g: map<Cell, int>, cameFrom: map<Cell, Cell>, open: multiset<Entry>,
                    cur: Cell, d: Dir, nb: Cell, t: int)
    requires region == Cells(width, height) + {from}
    requires SearchInv(width, height, walls, region, from, g, cameFrom, open, Some(cur))
    requires cur in g && OpenSide(width, height, walls, cur, d) && nb == Neighbor(cur, d)
    requires t == g[cur] + 1 && (nb !in g || t < g[nb])
    ensures SearchInv(width, height, walls, region, from, g[nb := t], cameFrom[nb := cur],
                      open + multiset{(t + Manhattan(nb.0, nb.1, 0, 0), nb)}, Some(cur))
  {
    RelaxParents(width, height, walls, from, g, cameFrom, cur, d, nb, t);
    RelaxFrontier(width, height, walls, from, g, open, cur, nb, t);
  }

  /**
   * Relaxing side `d` of `cur` keeps the score of `cur`, deals with side
   * `d`, and strictly lowers the potential of the distance map.
   */
  lemma RelaxProgress(width: int, height: int, walls: set<WallKey>, region: set<Cell>, from: Cell,
                      g: map<Cell, int>, cameFrom: map<Cell, Cell>, cur: Cell, d: Dir, nb: Cell, t: int)
    requires region == Cells(width, height) + {from}
    requires ParentsInv(width, height, walls, region, from, g, cameFrom)
    requires cur in g && SettledUpTo(width, height, walls, g, cur, d)
    requires OpenSide(width, height, walls, cur, d) && nb == Neighbor(cur, d)
    requires t == g[cur] + 1 && (nb !in g || t < g[nb])
    ensures g[nb := t][cur] == g[cur]
    ensures SettledUpTo(width, height, walls, g[nb := t], cur, d + 1)
    ensures Potential(region, g[nb := t], |region| + 1) < Potential(region, g, |region| + 1)
  {
    RelaxSettles(width, height, walls, g, cur, d, nb, t);
    assert g.Keys <= region && 0 <= g[cur] < |g|;
    assert nb in region by {
      assert InBounds(width, height, nb);
    }
    RelaxLowers(region, g, cur, nb, t);
  }

  /** Relaxing side `d` of `cur` keeps the score of `cur` and deals with side `d`. */
  lemma RelaxSettles(width: int, height: int, walls: set<WallKey>, g: map<Cell, int>, cur: Cell, d: Dir, nb: Cell, t: int)
    requires cur in g && SettledUpTo(width, height, walls, g, cur, d)
    requires nb == Neighbor(cur, d) && t == g[cur] + 1 && (nb !in g || t < g[nb])
    ensures g[nb := t][cur] == g[cur]
    ensures SettledUpTo(width, height, walls, g[nb := t], cur, d + 1)
  {
    NeighborsDistinct(cur, d, d);
    var g' := g[nb := t];
    assert Lowered(g, g');
    SettledLowered(width, height, walls, g, g', cur, d);
    SearchSkip(width, height, walls, g', cur, d, nb);
  }

  /** A score one above that of a scored cell, lowering the score of `nb`, lowers the potential. */
  lemma RelaxLowers(region: set<Cell>, g: map<Cell, int>, cur: Cell, nb: Cell, t: int)
    requires g.Keys <= region && cur in g && 0 <= g[cur] < |g| && nb in region
    requires t == g[cur] + 1 && (nb !in g || t < g[nb])
    ensures Potential(region, g[nb := t], |region| + 1) < Potential(region, g, |region| + 1)
  {
    SubsetCard(g.Keys, region);
    PotentialShrinks(region, g, |region| + 1, nb, t);
  }

  /** Side `d` of the cell being expanded is walled, leads outside, or does not improve its neighbour. */
  lemma SearchSkip(width: int, height: int, walls: set<WallKey>, g: map<Cell, int>, cur: Cell, d: Dir, nb: Cell)
    requires SettledUpTo(width, height, walls, g, cur, d)
    requires nb == (cur.0 + DX(d), cur.1 + DY(d))
    requires (cur.0, cur.1, d) in walls || !(0 <= nb.0 < width && 0 <= nb.1 < height) || (nb in g && g[nb] <= g[cur] + 1)
    ensures SettledUpTo(width, height, walls, g, cur, d + 1)
  {
  }

  /** The open set ran empty: no walk of open moves from `from` reaches `(0, 0)`. */
  lemma SearchExhausted(width: int, height: int, walls: set<WallKey>, region: set<Cell>, from: Cell,
                        g: map<Cell, int>, cameFrom: map<Cell, Cell>, path: seq<Cell>)
    requires SearchInv(width, height, walls, region, from, g, cameFrom, multiset{}, None)
    requires OpenPath(width, height, walls, from, path)
    ensures from != (0, 0) && (0, 0) !in path
  {
    forall c | c in g.Keys ensures Closed(width, height, walls, g.Keys, c) {
      assert c in g && EntryOf(from, g, c) !in multiset{};
      SettledClosed(width, height, walls, g, c);
    }
    ClosedContainsPath(width, height, walls, g.Keys, from, path);
  }

  /** With the open set empty, no walk of open moves leads from `from` to `(0, 0)`. */
  lemma SearchNoRoute(width: int, height: int, walls: set<WallKey>, region: set<Cell>, from: Cell,
                      g: map<Cell, int>, cameFrom: map<Cell, Cell>)
    requires SearchInv(width, height, walls, region, from, g, cameFrom, multiset{}, None)
    ensures from != (0, 0)
    ensures forall path :: OpenPath(width, height, walls, from, path) ==> (0, 0) !in path
  {
    forall path | OpenPath(width, height, walls, from, path) ensures (0, 0) !in path {
      SearchExhausted(width, height, walls, region, from, g, cameFrom, path);
    }
    SearchExhausted(width, height, walls, region, from, g, cameFrom, []);
  }

  /** A path read back along `came_from` from a scored cell is a walk of open moves out of `from`. */
  lemma ReconstructedPathOpen(width: int, height: int, walls: set<WallKey>, region: set<Cell>, from: Cell,
                              g: map<Cell, int>, cameFrom: map<Cell, Cell>, path: seq<Cell>)
    requires ParentsInv(width, height, walls, region, from, g, cameFrom)
    requires forall i :: 0 <= i < |path| ==> path[i] in cameFrom
    requires |path| > 0 ==> cameFrom[path[0]] == from
    requires forall i :: 0 < i < |path| ==> cameFrom[path[i]] == path[i - 1]
    ensures OpenPath(width, height, walls, from, path)
    ensures from !in path
  {
    forall i | 0 <= i < |path| ensures OpenMove(width, height, walls, Prev(from, path, i), path[i]) {
      assert cameFrom[path[i]] == Prev(from, path, i);
    }
  }

  /**
   * The goal `(0, 0)` came off the heap: the route is read back along
   * `came_from` and is a walk of open moves from `from` ending at `(0, 0)`.
   */
  method RouteBack(width: int, height: int, walls: set<WallKey>, ghost region: set<Cell>, from: Cell,
                   g: map<Cell, int>, cameFrom: map<Cell, Cell>)
    returns (path: seq<Cell>)
    requires ParentsInv(width, height, walls, region, from, g, cameFrom) && (0, 0) in g
    ensures OpenPath(width, height, walls, from, path)
    ensures path == [] <==> from == (0, 0)
    ensures path != [] ==> path[|path| - 1] == (0, 0)
    ensures from !in path
    ensures |path| <= g[(0, 0)]
  {
    path := ReconstructPath(cameFrom, g, from, (0, 0));
    ReconstructedPathOpen(width, height, walls, region, from, g, cameFrom, path);
  }

  /**
   * Follow an open walk from `from` to `(0, 0)`, beginning at its `i`-th
   * cell, scored at most `i`: settled cells pass a score at most one
   * higher to the next cell, so some cell `k` of the walk at or after `i`
   * waits in the open set with a score at most `k`.
   */
  lemma {:induction false} WaitingOnWalk(width: int, height: int, walls: set<WallKey>, from: Cell, g: map<Cell, int>,
                                         open: multiset<Entry>, path: seq<Cell>, m: int, i: int)
    returns (k: int)
    requires Waiting(width, height, walls, from, g, open, None) && ((0, 0) in g ==> EntryOf(from, g, (0, 0)) in open)
    requires OpenPath(width, height, walls, from, path) && 0 <= i <= m <= |path| && Prev(from, path, m) == (0, 0)
    requires Prev(from, path, i) in g && g[Prev(from, path, i)] <= i
    ensures i <= k <= m && Prev(from, path, k) in g && g[Prev(from, path, k)] <= k
    ensures EntryOf(from, g, Prev(from, path, k)) in open
    decreases m - i
  {
    var c := Prev(from, path, i);
    if i == m || EntryOf(from, g, c) in open {
      k := i;
    } else {
      assert Settled(width, height, walls, g, c);
      assert OpenMove(width, height, walls, c, path[i]);
      var d: Dir := DirBetween(c, path[i]);
      assert Prev(from, path, i + 1) == path[i] == Neighbor(c, d);
      k := WaitingOnWalk(width, height, walls, from, g, open, path, m, i + 1);
    }
  }

  /** The cell `c`, scored at most `k` and `m - k` moves from `(0, 0)` as the crow walks, waits under a key at most `m`. */
  lemma EntryKey(from: Cell, g: map<Cell, int>, c: Cell, k: int, m: int)
    requires c in g && g[c] <= k && Manhattan(c.0, c.1, 0, 0) <= m - k && 0 <= k
    ensures EntryOf(from, g, c).0 <= m
  {
  }

  /**
   * The entry `e` for `(0, 0)` came off the heap ahead of the entry `o`,
   * whose key is at most `m`: the score of `(0, 0)` is at most `m`, since
   * no entry lies below its cell's latest `f` score.
   */
  lemma KeyBound(from: Cell, g: map<Cell, int>, open: multiset<Entry>, e: Entry, o: Entry, m: int)
    requires KeysAbove(from, g, open) && e.1 in g && e.1 != from
    requires e in open && EntryLe(e, o) && o.0 <= m
    ensures FScore(g, e.1) <= m
  {
  }

  /**
   * The entry `e` for `(0, 0)` came off the heap as a least entry: the
   * score of `(0, 0)` is no more than the number of moves of any open walk
   * from `from` that reaches it. The Manhattan heuristic never
   * overestimates, so a waiting cell on that walk has a key no larger.
   */
  lemma GoalOptimal(width: int, height: int, walls: set<WallKey>, from: Cell, g: map<Cell, int>,
                    open: multiset<Entry>, e: Entry, path: seq<Cell>, j: int)
    requires from in g && g[from] == 0 && Waiting(width, height, walls, from, g, open, None)
    requires (0, 0) in g ==> EntryOf(from, g, (0, 0)) in open
    requires KeysAbove(from, g, open)
    requires e in open && (forall o :: o in open ==> EntryLe(e, o)) && e.1 == (0, 0) && from != (0, 0)
    requires OpenPath(width, height, walls, from, path) && 0 <= j < |path| && path[j] == (0, 0)
    ensures (0, 0) in g && g[(0, 0)] <= j + 1
  {
    var o := WaitingKey(width, height, walls, from, g, open, path, j);
    assert EntryLe(e, o);
    KeyBound(from, g, open, e, o, j + 1);
  }

  /** Some entry waiting in the open set has a key no larger than the number of moves of an open walk to `(0, 0)`. */
  lemma WaitingKey(width: int, height: int, walls: set<WallKey>, from: Cell, g: map<Cell, int>,
                   open: multiset<Entry>, path: seq<Cell>, j: int)
    returns (o: Entry)
    requires from in g && g[from] == 0 && Waiting(width, height, walls, from, g, open, None)
    requires (0, 0) in g ==> EntryOf(from, g, (0, 0)) in open
    requires OpenPath(width, height, walls, from, path) && 0 <= j < |path| && path[j] == (0, 0)
    ensures o in open && o.0 <= j + 1
  {
    assert Prev(from, path, j + 1) == (0, 0);
    var k := WaitingOnWalk(width, height, walls, from, g, open, path, j + 1, 0);
    assert AdjacentWalk(from, path) by {
      forall i | 0 <= i < |path| ensures DirBetween(Prev(from, path, i), path[i]) != -1 {
        assert OpenMove(width, height, walls, Prev(from, path, i), path[i]);
      }
    }
    WalkManhattan(from, path, k, j + 1);
    EntryKey(from, g, Prev(from, path, k), k, j + 1);
    o := EntryOf(from, g, Prev(from, path, k));
  }

  /** The route `a_star_to_start` read back is no longer than any open walk from `from` to `(0, 0)`. */
  lemma FoundShortest(width: int, height: int, walls: set<WallKey>, region: set<Cell>, from: Cell,
                      g: map<Cell, int>, cameFrom: map<Cell, Cell>, open: multiset<Entry>, e: Entry)
    requires SearchInv(width, height, walls, region, from, g, cameFrom, open, None)
    requires e in open && (forall o :: o in open ==> EntryLe(e, o)) && e.1 == (0, 0)
    ensures (0, 0) in g
    ensures forall path, j :: OpenPath(width, height, walls, from, path) && 0 <= j < |path| && path[j] == (0, 0) ==>
      g[(0, 0)] <= j + 1
  {
    if from != (0, 0) {
      forall path, j | OpenPath(width, height, walls, from, path) && 0 <= j < |path| && path[j] == (0, 0)
        ensures g[(0, 0)] <= j + 1
      {
        GoalOptimal(width, height, walls, from, g, open, e, path, j);
      }
    }
  }

  /**
   * The inner loop of `a_star_to_start`: every open side of `cur` whose
   * neighbour gets a shorter distance through `cur` is relaxed, and that
   * neighbour queued with priority distance plus Manhattan distance to
   * `(0, 0)`. Afterwards `cur` is settled, and either nothing changed or the
   * potential of the distance map dropped.
   */
  method ExpandCell(width: int, height: int, walls: set<WallKey>, ghost region: set<Cell>, from: Cell,
                    g0: map<Cell, int>, cameFrom0: map<Cell, Cell>, open0: multiset<Entry>, cur: Cell)
    returns (g: map<Cell, int>, cameFrom: map<Cell, Cell>, open: multiset<Entry>)
    requires region == Cells(width, height) + {from}
    requires SearchInv(width, height, walls, region, from, g0, cameFrom0, open0, Some(cur)) && cur in g0
    ensures SearchInv(width, height, walls, region, from, g, cameFrom, open, None)
    ensures (g == g0 && open == open0) || Potential(region, g, |region| + 1) < Potential(region, g0, |region| + 1)
  {
    g, cameFrom, open := g0, cameFrom0, open0;
    for d := 0 to 4
      invariant SearchInv(width, height, walls, region, from, g, cameFrom, open, Some(cur))
      invariant cur in g && g[cur] == g0[cur]
      invariant SettledUpTo(width, height, walls, g, cur, d)
      invariant (g == g0 && open == open0) || Potential(region, g, |region| + 1) < Potential(region, g0, |region| + 1)
    {
      var nb := (cur.0 + DX(d), cur.1 + DY(d));
      if (cur.0, cur.1, d) !in walls && 0 <= nb.0 < width && 0 <= nb.1 < height {
        var t := g[cur] + 1;
        if nb !in g || t < g[nb] {
          SearchRelax(width, height, walls, region, from, g, cameFrom, open, cur, d, nb, t);
          RelaxProgress(width, height, walls, region, from, g, cameFrom, cur, d, nb, t);
          cameFrom := cameFrom[nb := cur];
          g := g[nb := t];
          open := open + multiset{(t + Manhattan(nb.0, nb.1, 0, 0), nb)};
        } else {
          SearchSkip(width, height, walls, g, cur, d, nb);
        }
      } else {
        SearchSkip(width, height, walls, g, cur, d, nb);
      }
    }
    SearchClose(width, height, walls, region, from, g, cameFrom, open, cur);
  }

  /** Once all four sides of `cur` are dealt with, `cur` no longer needs to be current. */
  lemma SearchClose(width: int, height: int, walls: set<WallKey>, region: set<Cell>, from: Cell,
                    g: map<Cell, int>, cameFrom: map<Cell, Cell>, open: multiset<Entry>, cur: Cell)
    requires SearchInv(width, height, walls, region, from, g, cameFrom, open, Some(cur))
    requires Settled(width, height, walls, g, cur)
    ensures SearchInv(width, height, walls, region, from, g, cameFrom, open, None)
  {
  }

  /**
   * The `while open_set` loop of `a_star_to_start`: pop the entry with the
   * smallest priority, stop when it is `(0, 0)`, otherwise expand it. On a
   * stop, no open walk reaches `(0, 0)` in fewer moves than its score;
   * otherwise the open set ran empty and no open walk reaches it.
   */
  method SearchLoop(width: int, height: int, walls: set<WallKey>, ghost region: set<Cell>, from: Cell)
    returns (g: map<Cell, int>, cameFrom: map<Cell, Cell>, found: bool)
    requires region == Cells(width, height) + {from}
    ensures ParentsInv(width, height, walls, region, from, g, cameFrom)
    ensures found ==> (0, 0) in g && forall path, j :: OpenPath(width, height, walls, from, path) && 0 <= j < |path| && path[j] == (0, 0) ==>
      g[(0, 0)] <= j + 1
    ensures !found ==> from != (0, 0) && forall path :: OpenPath(width, height, walls, from, path) ==> (0, 0) !in path
  {
    var open: multiset<Entry> := multiset{(0, from)};
    cameFrom := map[];
    g := map[from := 0];
    found := false;
    SearchStart(width, height, walls, from);
    while |open| > 0
      invariant SearchInv(width, height, walls, region, from, g, cameFrom, open, None)
      invariant !found
      decreases Potential(region, g, |region| + 1), |open|
    {
      var e, rest := PopMin(open);
      var cur := e.1;
      if cur == (0, 0) {
        found := true;
        FoundShortest(width, height, walls, region, from, g, cameFrom, open, e);
        return;
      }
      SearchPop(width, height, walls, region, from, g, cameFrom, open, e);
      g, cameFrom, open := ExpandCell(width, height, walls, region, from, g, cameFrom, rest, cur);
    }
    SearchNoRoute(width, height, walls, region, from, g, cameFrom);
  }

  /**
   * `a_star_to_start` from cell `from`: an A* search over the recorded
   * walls toward `(0, 0)` with the Manhattan heuristic. The start is pushed
   * with priority 0 rather than its `f` score, and stale heap entries are
   * expanded again, as in the source.
   */
  method SearchToStart(width: int, height: int, walls: set<WallKey>, from: Cell) returns (result: Option<seq<Cell>>)
    ensures result.Some? ==> OpenPath(width, height, walls, from, result.value)
    ensures result.Some? ==> (result.value == [] <==> from == (0, 0))
    ensures result.Some? && result.value != [] ==> result.value[|result.value| - 1] == (0, 0)
    ensures result.Some? ==> from !in result.value
    ensures result.None? ==> from != (0, 0)
    ensures result.None? ==> forall path :: OpenPath(width, height, walls, from, path) ==> (0, 0) !in path
    ensures result.Some? ==> forall path, j :: OpenPath(width, height, walls, from, path) && 0 <= j < |path| && path[j] == (0, 0) ==>
      |result.value| <= j + 1
  {
    ghost var region := Cells(width, height) + {from};
    var g, cameFrom, found := SearchLoop(width, height, walls, region, from);
    if found {
      var path := RouteBack(width, height, walls, region, from, g, cameFrom);
      return Some(path);
    }
    return None;
  }

  /** The goal block of `__init__`: the 2x2 block centred on `width // 2` in both coordinates. */
  function GoalBlock(mazeWidth: int): (r: seq<Cell>)
    ensures |r| == 4
    ensures forall i :: 0 <= i < 4 ==> r[i] in CentreBlock(mazeWidth / 2, mazeWidth / 2)
    ensures forall c :: c in CentreBlock(mazeWidth / 2, mazeWidth / 2) ==> c in r
  {
    var c := mazeWidth / 2;
    [(c - 1, c - 1), (c, c - 1), (c - 1, c), (c, c)]
  }

  /** On a maze at least as tall as it is wide, the goal block lies inside the maze. */
  lemma GoalBlockInside(width: int, height: int)
    requires 2 <= width <= height
    ensures forall i :: 0 <= i < 4 ==> InBounds(width, height, GoalBlock(width)[i])
  {
  }

  /** The height is not consulted: on a 16 by 8 maze the goal block lies above the top row. */
  lemma GoalBlockIgnoresHeight()
    ensures GoalBlock(16) == [(7, 7), (8, 7), (7, 8), (8, 8)] && !InBounds(16, 8, GoalBlock(16)[3])
  {
  }

  /**
   * The loop of `explore_all_cells`, run from cell `start` with heading
   * `heading` over the recorded `walls0` and `visited0`: depth-first
   * exploration that senses the physical `maze` at every cell entered and
   * backtracks along the stack when no open unvisited neighbour is left.
   * The robot ends back at `start`; the results are the new walls, visited
   * cells, heading, and the first goal cell entered.
   */
  method Explore(width: int, height: int, goals: seq<Cell>, maze: Maze, start: Cell, heading: Dir,
                 walls0: set<WallKey>, visited0: set<Cell>)
    returns (position: Cell, walls: set<WallKey>, visited: set<Cell>, direction: Dir, goalFound: Option<Cell>)
    ensures position == start
    ensures visited0 <= visited && start in visited
    ensures walls0 <= walls
    ensures forall k :: k in walls && k !in walls0 ==> WallAt(maze, k.0, k.1, k.2)
    ensures forall c :: c in visited && (c !in visited0 || c == start) ==>
      FullySensed(maze, walls, c) && Closed(width, height, walls, visited, c)
    ensures goalFound.Some? ==> goalFound.value in goals && goalFound.value in visited
    ensures goalFound.None? ==> forall c :: c in visited && (c !in visited0 || c == start) ==> c !in goals
  {
    var x, y := start.0, start.1;
    walls, visited, direction := walls0, visited0, heading;
    ghost var seen: set<Cell> := {};
    ghost var finished: set<Cell> := {};
    var stack: seq<Cell> := [(x, y)];
    goalFound := None;
    while stack != []
      invariant ExploreInv(width, height, goals, maze, start, walls0, visited0, walls, visited, stack, seen, finished, goalFound)
      invariant OnTop(stack, (x, y))
      decreases ExploreMeasure(width, height, visited, stack)
    {
      var done;
      x, y, direction, walls, visited, stack, seen, finished, goalFound, done :=
        ExploreRound(width, height, goals, maze, start, walls0, visited0,
                     x, y, direction, walls, visited, stack, seen, finished, goalFound);
      if done {
        break;
      }
    }
    position := (x, y);
  }

  /**
   * One round of the loop of `explore_all_cells` at cell `(x, y)`, the top
   * of the stack: the cell is sensed and marked visited; the robot then
   * moves to the first open unvisited neighbour, backtracks to the cell
   * below on the stack, or, with only the start cell left, is `done`.
   */
  method ExploreRound(width: int, height: int, goals: seq<Cell>, maze: Maze, ghost origin: Cell,
                      ghost walls0: set<WallKey>, ghost visited0: set<Cell>,
                      x: int, y: int, direction: Dir, walls: set<WallKey>, visited: set<Cell>, stack: seq<Cell>,
                      ghost seen: set<Cell>, ghost finished: set<Cell>, goal: Option<Cell>)
    returns (x': int, y': int, direction': Dir, walls': set<WallKey>, visited': set<Cell>, stack': seq<Cell>,
             ghost seen': set<Cell>, ghost finished': set<Cell>, goal': Option<Cell>, done: bool)
    requires ExploreInv(width, height, goals, maze, origin, walls0, visited0, walls, visited, stack, seen, finished, goal)
    requires OnTop(stack, (x, y))
    ensures walls' == walls + Sensed(x, y, direction, WallAt(maze, x, y, direction), WallAt(maze, x, y, Left(direction)),
                                     WallAt(maze, x, y, Right(direction)), WallAt(maze, x, y, Back(direction)))
    ensures visited' == visited + {(x, y)}
    ensures done ==> (x', y') == (x, y) == origin
    ensures done ==> ExploreResult(width, height, goals, maze, origin, walls0, visited0, walls', visited', goal')
    ensures !done ==> ExploreInv(width, height, goals, maze, origin, walls0, visited0, walls', visited', stack',
                                 seen', finished', goal')
    ensures !done ==> OnTop(stack', (x', y'))
    ensures !done ==> ExploreMeasure(width, height, visited', stack') < ExploreMeasure(width, height, visited, stack)
  {
    var c := (x, y);
    var sensed := Sensed(x, y, direction, WallAt(maze, x, y, direction), WallAt(maze, x, y, Left(direction)),
                         WallAt(maze, x, y, Right(direction)), WallAt(maze, x, y, Back(direction)));
    goal' := if c in goals && goal.None? then Some(c) else goal;
    walls', visited', seen', finished' := walls + sensed, visited + {c}, seen + {c}, finished;
    x', y', direction', stack', done := x, y, direction, stack, false;
    var neighbors := ScanNeighbors(width, height, walls', visited', c);
    if neighbors != [] {
      var (nx, ny, d) := neighbors[0];
      ExploreAdvance(width, height, goals, maze, origin, walls0, visited0, walls, visited, stack, seen, finished, goal,
                     c, direction, sensed, goal', d, (nx, ny));
      var turns;
      direction', turns := TurnToward(direction, d);
      x', y' := nx, ny;
      stack' := stack + [(nx, ny)];
    } else if |stack| > 1 {
      ExploreRetreat(width, height, goals, maze, origin, walls0, visited0, walls, visited, stack, seen, finished, goal,
                     c, direction, sensed, goal');
      finished' := finished + {c};
      stack' := stack[..|stack| - 1];
      var prev := stack'[|stack'| - 1];
      var d := FindDirection(c, prev);
      if d.Some? {
        var turns;
        direction', turns := TurnToward(direction, d.value);
        x', y' := prev.0, prev.1;
      } else {
        assert false;
      }
    } else {
      ExploreFinish(width, height, goals, maze, origin, walls0, visited0, walls, visited, stack, seen, finished, goal,
                    c, direction, sensed, goal');
      done := true;
    }
  }

  /** `neighbors` lists, in heading order, the open unvisited sides of `c` among the first `k` headings. */
  ghost predicate ScanInv(width: int, height: int, walls: set<WallKey>, visited: set<Cell>, c: Cell,
                          neighbors: seq<(int, int, Dir)>, k: int)
  {
    && (forall i :: 0 <= i < |neighbors| ==>
          (neighbors[i].0, neighbors[i].1) == Neighbor(c, neighbors[i].2)
          && OpenSide(width, height, walls, c, neighbors[i].2) && Neighbor(c, neighbors[i].2) !in visited
          && neighbors[i].2 < k)
    && (forall i, j :: 0 <= i < j < |neighbors| ==> neighbors[i].2 < neighbors[j].2)
    && (forall e: Dir :: e < k && OpenSide(width, height, walls, c, e) && Neighbor(c, e) !in visited ==>
          exists i :: 0 <= i < |neighbors| && neighbors[i].2 == e)
    && (neighbors == [] <==> ClosedUpTo(width, height, walls, visited, c, k))
  }

  /** Side `d` of `c` is open and leads to an unvisited cell: it is appended. */
  lemma ScanTake(width: int, height: int, walls: set<WallKey>, visited: set<Cell>, c: Cell,
                 neighbors: seq<(int, int, Dir)>, d: Dir)
    requires ScanInv(width, height, walls, visited, c, neighbors, d)
    requires 0 <= c.0 + DX(d) < width && 0 <= c.1 + DY(d) < height
    requires (c.0 + DX(d), c.1 + DY(d)) !in visited && (c.0, c.1, d) !in walls
    ensures ScanInv(width, height, walls, visited, c, neighbors + [(c.0 + DX(d), c.1 + DY(d), d)], d + 1)
  {
    var next := neighbors + [(c.0 + DX(d), c.1 + DY(d), d)];
    assert next[|next| - 1].2 == d;
    assert forall i :: 0 <= i < |neighbors| ==> next[i] == neighbors[i];
  }

  /** Side `d` of `c` is walled, leads outside, or leads to a visited cell: it is passed over. */
  lemma ScanPass(width: int, height: int, walls: set<WallKey>, visited: set<Cell>, c: Cell,
                 neighbors: seq<(int, int, Dir)>, d: Dir)
    requires ScanInv(width, height, walls, visited, c, neighbors, d)
    requires !(0 <= c.0 + DX(d) < width && 0 <= c.1 + DY(d) < height
               && (c.0 + DX(d), c.1 + DY(d)) !in visited && (c.0, c.1, d) !in walls)
    ensures ScanInv(width, height, walls, visited, c, neighbors, d + 1)
  {
  }

  /**
   * The scan of `get_unvisited_neighbors` over the four headings of cell
   * `c`, keeping each side that is open and leads to a cell not in `visited`.
   */
  method ScanNeighbors(width: int, height: int, walls: set<WallKey>, visited: set<Cell>, c: Cell)
    returns (neighbors: seq<(int, int, Dir)>)
    ensures forall i :: 0 <= i < |neighbors| ==>
      (neighbors[i].0, neighbors[i].1) == Neighbor(c, neighbors[i].2)
      && OpenSide(width, height, walls, c, neighbors[i].2) && Neighbor(c, neighbors[i].2) !in visited
    ensures forall i, j :: 0 <= i < j < |neighbors| ==> neighbors[i].2 < neighbors[j].2
    ensures forall d: Dir :: OpenSide(width, height, walls, c, d) && Neighbor(c, d) !in visited ==>
      exists i :: 0 <= i < |neighbors| && neighbors[i].2 == d
    ensures neighbors == [] <==> Closed(width, height, walls, visited, c)
  {
    neighbors := [];
    for d := 0 to 4
      invariant ScanInv(width, height, walls, visited, c, neighbors, d)
    {
      var nx, ny := c.0 + DX(d), c.1 + DY(d);
      if 0 <= nx < width && 0 <= ny < height && (nx, ny) !in visited && (c.0, c.1, d) !in walls {
        ScanTake(width, height, walls, visited, c, neighbors, d);
        neighbors := neighbors + [(nx, ny, d)];
      } else {
        ScanPass(width, height, walls, visited, c, neighbors, d);
      }
    }
  }

  /** Every move of `route`, taken from `from`, goes to a cell with a strictly smaller distance. */
  ghost predicate Descending(dist: map<Cell, int>, from: Cell, route: seq<Cell>) {
    forall i {:trigger Prev(from, route, i)} :: 0 <= i < |route| ==>
      Prev(from, route, i) in dist && route[i] in dist && dist[route[i]] < dist[Prev(from, route, i)]
  }

  /** The cells of the maze whose distance is below `v`. */
  ghost function Below(width: int, height: int, dist: map<Cell, int>, v: int): set<Cell> {
    set c | c in Cells(width, height) && c in dist && dist[c] < v
  }

  /**
   * Side `d` is the choice of `execute_optimal_path` at `c`: an open side
   * into the maze whose neighbour is strictly closer to the goal than `c`,
   * no farther than any other open neighbour, and strictly closer than the
   * open neighbours of every lower heading.
   */
  ghost predicate GreedyChoice(width: int, height: int, walls: set<WallKey>, dist: map<Cell, int>, c: Cell, d: Dir) {
    && c in dist && Neighbor(c, d) in dist
    && OpenSide(width, height, walls, c, d) && dist[Neighbor(c, d)] < dist[c]
    && (forall e: Dir :: OpenSide(width, height, walls, c, e) && Neighbor(c, e) in dist ==>
          dist[Neighbor(c, d)] <= dist[Neighbor(c, e)])
    && (forall e: Dir :: e < d && OpenSide(width, height, walls, c, e) && Neighbor(c, e) in dist ==>
          dist[Neighbor(c, d)] < dist[Neighbor(c, e)])
  }

  /** Every move of `route`, taken from `from`, is the choice of `execute_optimal_path`. */
  ghost predicate Greedy(width: int, height: int, walls: set<WallKey>, dist: map<Cell, int>, from: Cell, route: seq<Cell>) {
    forall i {:trigger Prev(from, route, i)} :: 0 <= i < |route| ==>
      var d := DirBetween(Prev(from, route, i), route[i]);
      0 <= d && GreedyChoice(width, height, walls, dist, Prev(from, route, i), d)
  }

  lemma GreedyAppend(width: int, height: int, walls: set<WallKey>, dist: map<Cell, int>, from: Cell, route: seq<Cell>,
                     pos: Cell, d: Dir, next: Cell)
    requires Greedy(width, height, walls, dist, from, route) && pos == Prev(from, route, |route|)
    requires GreedyChoice(width, height, walls, dist, pos, d) && next == (pos.0 + DX(d), pos.1 + DY(d))
    ensures Greedy(width, height, walls, dist, from, route + [next])
  {
    var route' := route + [next];
    DirBetweenNeighbor(pos, d);
    forall i | 0 <= i < |route'|
      ensures var e := DirBetween(Prev(from, route', i), route'[i]);
        0 <= e && GreedyChoice(width, height, walls, dist, Prev(from, route', i), e)
    {
      if i < |route| {
        assert Prev(from, route', i) == Prev(from, route, i) && route'[i] == route[i];
      } else {
        assert Prev(from, route', i) == pos && route'[i] == next;
      }
    }
  }

  /**
   * The neighbour choice of `execute_optimal_path`: among the open sides of
   * `c` leading into the maze, the first one whose neighbour has the
   * smallest distance, provided that distance is below `c`'s own.
   */
  method BestDirection(width: int, height: int, walls: set<WallKey>, dist: map<Cell, int>, c: Cell)
    returns (best: Option<Dir>)
    requires c in dist && forall n :: InBounds(width, height, n) ==> n in dist
    ensures best.Some? ==> GreedyChoice(width, height, walls, dist, c, best.value)
    ensures best.None? <==> !OutDescent(width, height, walls, dist, c)
  {
    best := None;
    var bestDist := dist[c];
    for d := 0 to 4
      invariant best.None? ==> bestDist == dist[c]
      invariant best.Some? ==>
        best.value < d && OpenSide(width, height, walls, c, best.value)
        && bestDist == dist[Neighbor(c, best.value)] && bestDist < dist[c]
      invariant forall e: Dir :: e < d && OpenSide(width, height, walls, c, e) ==> bestDist <= dist[Neighbor(c, e)]
      invariant best.Some? ==> forall e: Dir :: e < best.value && OpenSide(width, height, walls, c, e) ==>
        bestDist < dist[Neighbor(c, e)]
    {
      var nx, ny := c.0 + DX(d), c.1 + DY(d);
      if (c.0, c.1, d) !in walls && 0 <= nx < width && 0 <= ny < height {
        var nd := dist[(nx, ny)];
        if nd < bestDist {
          bestDist := nd;
          best := Some(d);
        }
      }
    }
  }

  /**
   * The loop of `execute_optimal_path`: from `(0, 0)`, facing north, the
   * robot repeatedly turns to the best direction and moves one cell, until
   * it stands on a goal cell or no open neighbour is closer to the goal.
   */
  method Descend(width: int, height: int, walls: set<WallKey>, goals: seq<Cell>, dist: map<Cell, int>, heading: Dir)
    returns (pos: Cell, direction: Dir, route: seq<Cell>)
    requires (0, 0) in goals || (0, 0) in dist
    requires forall n :: InBounds(width, height, n) ==> n in dist
    ensures OpenPath(width, height, walls, (0, 0), route) && Descending(dist, (0, 0), route)
    ensures Greedy(width, height, walls, dist, (0, 0), route)
    ensures pos == Prev((0, 0), route, |route|)
    ensures pos in goals || !OutDescent(width, height, walls, dist, pos)
    ensures route != [] ==> pos in dist && (0, 0) in dist && dist[pos] < dist[(0, 0)]
    ensures route == [] ==> direction == 0
    ensures route != [] ==> direction == DirBetween(Prev((0, 0), route, |route| - 1), pos)
  {
    pos := (0, 0);
    var turns;
    direction, turns := TurnToward(heading, 0);
    route := [];
    if pos in goals {
      return;
    }
    while pos !in goals
      invariant DescendInv(width, height, walls, dist, route, pos, direction)
      decreases Below(width, height, dist, dist[pos])
    {
      var moved;
      moved, pos, direction, route := StepDown(width, height, walls, dist, route, pos, direction);
      if !moved {
        break;
      }
    }
  }

  /**
   * One round of the loop of `execute_optimal_path` at cell `pos`: the
   * robot turns to the best direction and moves one cell, or reports that
   * no open neighbour has a smaller distance.
   */
  method StepDown(width: int, height: int, walls: set<WallKey>, dist: map<Cell, int>,
                  route: seq<Cell>, pos: Cell, direction: Dir)
    returns (moved: bool, pos': Cell, direction': Dir, route': seq<Cell>)
    requires forall n :: InBounds(width, height, n) ==> n in dist
    requires DescendInv(width, height, walls, dist, route, pos, direction)
    ensures moved ==> DescendInv(width, height, walls, dist, route', pos', direction')
    ensures moved ==> route' == route + [pos'] && Below(width, height, dist, dist[pos']) < Below(width, height, dist, dist[pos])
    ensures !moved ==> (pos', direction', route') == (pos, direction, route) && !OutDescent(width, height, walls, dist, pos)
  {
    moved, pos', direction', route' := false, pos, direction, route;
    var best := BestDirection(width, height, walls, dist, pos);
    if best.Some? {
      var d := best.value;
      DescendAdvance(width, height, walls, dist, route, pos, direction, d, (pos.0 + DX(d), pos.1 + DY(d)));
      var turns;
      direction', turns := TurnToward(direction, d);
      pos' := (pos.0 + DX(direction'), pos.1 + DY(direction'));
      route' := route + [pos'];
      moved := true;
    }
  }

  /** The loop invariant of `execute_optimal_path`, at cell `pos` after the moves of `route`. */
  ghost predicate DescendInv(width: int, height: int, walls: set<WallKey>, dist: map<Cell, int>,
                             route: seq<Cell>, pos: Cell, direction: Dir)
  {
    && pos in dist
    && OpenPath(width, height, walls, (0, 0), route) && Descending(dist, (0, 0), route)
    && Greedy(width, height, walls, dist, (0, 0), route)
    && pos == Prev((0, 0), route, |route|)
    && (route != [] ==> (0, 0) in dist && dist[pos] < dist[(0, 0)])
    && (route == [] ==> direction == 0)
    && (route != [] ==> direction == DirBetween(Prev((0, 0), route, |route| - 1), pos))
  }

  /** One move of `execute_optimal_path` through open side `d` to a cell with a smaller distance. */
  lemma DescendAdvance(width: int, height: int, walls: set<WallKey>, dist: map<Cell, int>,
                       route: seq<Cell>, pos: Cell, heading: Dir, d: Dir, next: Cell)
    requires DescendInv(width, height, walls, dist, route, pos, heading)
    requires forall n :: InBounds(width, height, n) ==> n in dist
    requires GreedyChoice(width, height, walls, dist, pos, d)
    requires next == (pos.0 + DX(d), pos.1 + DY(d))
    ensures DescendInv(width, height, walls, dist, route + [next], next, d)
    ensures Below(width, height, dist, dist[next]) < Below(width, height, dist, dist[pos])
  {
    OpenPathAppend(width, height, walls, (0, 0), route, pos, d, next);
    GreedyAppend(width, height, walls, dist, (0, 0), route, pos, d, next);
    DirBetweenNeighbor(pos, d);
    DescendingAppend(dist, (0, 0), route, pos, next);
    BelowShrinks(width, height, dist, pos, next);
  }

  lemma DescendingAppend(dist: map<Cell, int>, from: Cell, route: seq<Cell>, pos: Cell, next: Cell)
    requires Descending(dist, from, route) && pos == Prev(from, route, |route|)
    requires pos in dist && next in dist && dist[next] < dist[pos]
    ensures Descending(dist, from, route + [next])
  {
    var route' := route + [next];
    forall i | 0 <= i < |route'|
      ensures Prev(from, route', i) in dist && route'[i] in dist && dist[route'[i]] < dist[Prev(from, route', i)]
    {
      if i < |route| {
        assert Prev(from, route', i) == Prev(from, route, i) && route'[i] == route[i];
      }
    }
  }

  /** Moving to a maze cell with a smaller distance strictly shrinks the set of cells below. */
  lemma BelowShrinks(width: int, height: int, dist: map<Cell, int>, pos: Cell, next: Cell)
    requires pos in dist && next in dist && InBounds(width, height, next) && dist[next] < dist[pos]
    ensures Below(width, height, dist, dist[next]) < Below(width, height, dist, dist[pos])
  {
    assert next in Below(width, height, dist, dist[pos]);
    assert next !in Below(width, height, dist, dist[next]);
  }

  /**
   * The loop of `follow_path`: for each cell of `path` the robot turns to
   * face it when it is adjacent, moves forward once and takes that cell as
   * its position, adjacent or not.
   */
  method Follow(from: Cell, heading: Dir, path: seq<Cell>) returns (pos: Cell, direction: Dir, cmds: seq<Command>)
    ensures pos == Prev(from, path, |path|)
    ensures Rotate(heading, cmds) == direction && Forwards(cmds) == |path|
    ensures path == [] ==> direction == heading && cmds == []
    ensures path != [] && DirBetween(Prev(from, path, |path| - 1), pos) != -1 ==>
      direction == DirBetween(Prev(from, path, |path| - 1), pos)
  {
    pos, direction, cmds := from, heading, [];
    for i := 0 to |path|
      invariant pos == Prev(from, path, i)
      invariant Rotate(heading, cmds) == direction && Forwards(cmds) == i
      invariant i == 0 ==> direction == heading && cmds == []
      invariant i > 0 && DirBetween(Prev(from, path, i - 1), pos) != -1 ==>
        direction == DirBetween(Prev(from, path, i - 1), pos)
    {
      var d := FindDirection(pos, path[i]);
      var turns: seq<Command> := [];
      if d.Some? {
        direction, turns := TurnToward(direction, d.value);
      }
      var step := turns + [MoveForward];
      RotateAppend(Rotate(heading, cmds), turns, [MoveForward]);
      RotateAppend(heading, cmds, step);
      ForwardsWithout(turns);
      ForwardsAppend(turns, [MoveForward]);
      ForwardsAppend(cmds, step);
      cmds := cmds + step;
      pos := path[i];
    }
  }

  /**
   * The final run reaches a goal: when the recorded walls are symmetric,
   * the goal cells lie inside the maze and the flood reached `(0, 0)`, the
   * cell where `execute_optimal_path` stops is a goal cell.
   */
  lemma {:induction false} OptimalRunEndsAtGoal(width: int, height: int, walls: set<WallKey>, goals: seq<Cell>,
                                                dist: map<Cell, int>, route: seq<Cell>, pos: Cell)
    requires SymmetricWalls(width, height, walls)
    requires forall i :: 0 <= i < |goals| ==> InBounds(width, height, goals[i])
    requires forall c :: c in Cells(width, height) ==> c in dist
    requires forall c :: c in Cells(width, height) && c !in goals && dist[c] < INF ==>
      HasDescent(FloodKeys(width, height, goals), walls, dist, c)
    requires InBounds(width, height, (0, 0)) && dist[(0, 0)] < INF
    requires OpenPath(width, height, walls, (0, 0), route)
    requires pos == Prev((0, 0), route, |route|)
    requires pos in goals || !OutDescent(width, height, walls, dist, pos)
    requires route != [] ==> pos in dist && dist[pos] < dist[(0, 0)]
    ensures pos in goals
  {
    if pos !in goals {
      if route != [] {
        var a := Prev((0, 0), route, |route| - 1);
        assert OpenMove(width, height, walls, a, route[|route| - 1]);
      }
      assert InBounds(width, height, pos);
      assert FloodKeys(width, height, goals) <= Cells(width, height);
      DescentCanBeWalked(width, height, walls, FloodKeys(width, height, goals), dist, pos);
      assert false;
    }
  }

  class MazeSolver {
    const width: int
    const height: int
    var x: int
    var y: int
    var direction: Dir
    /** Recorded walls `(x, y, d)`; only the side seen from the robot's cell is recorded. */
    var walls: set<WallKey>
    var visited: set<Cell>
    const goalCells: seq<Cell> := GoalBlock(width)
    var distances: map<Cell, int>

    /** `__init__`, given the maze size the simulator reports. */
    constructor (mazeWidth: int, mazeHeight: int)
      ensures width == mazeWidth && height == mazeHeight
      ensures x == 0 && y == 0 && direction == 0
      ensures walls == {} && visited == {} && distances == map[]
      ensures goalCells == GoalBlock(mazeWidth)
    {
      width := mazeWidth;
      height := mazeHeight;
      x, y, direction := 0, 0, 0;
      walls := {};
      visited := {};
      distances := map[];
    }

    /** `is_goal`. */
    function IsGoal(px: int, py: int): (r: bool)
      ensures r <==> (px, py) in CentreBlock(width / 2, width / 2)
    {
      (px, py) in goalCells
    }

    /** `sense_walls`: the four sensor readings are recorded at the current cell. */
    method SenseWalls(front: bool, left: bool, right: bool, back: bool)
      modifies this`walls
      ensures walls == old(walls) + Sensed(x, y, direction, front, left, right, back)
    {
      if front {
        walls := walls + {(x, y, direction)};
      }
      if left {
        walls := walls + {(x, y, Left(direction))};
      }
      if right {
        walls := walls + {(x, y, Right(direction))};
      }
      if back {
        walls := walls + {(x, y, Back(direction))};
      }
    }

    /** `turn_to_direction`: returns the turn calls issued. */
    method TurnToDirection(target: Dir) returns (turns: seq<Command>)
      modifies this`direction
      ensures direction == target && Rotate(old(direction), turns) == target
      ensures old(direction) == target ==> turns == []
    {
      direction, turns := TurnToward(direction, target);
    }

    /** Side `d` of the robot's cell is open and leads to a cell not visited yet. */
    predicate OpenUnvisited(d: Dir)
      reads this
    {
      OpenSide(width, height, walls, (x, y), d) && Neighbor((x, y), d) !in visited
    }

    /**
     * `get_unvisited_neighbors`: the open, unvisited neighbours with the
     * heading leading to each, in heading order.
     */
    method GetUnvisitedNeighbors() returns (neighbors: seq<(int, int, Dir)>)
      ensures forall i :: 0 <= i < |neighbors| ==>
        (neighbors[i].0, neighbors[i].1) == Neighbor((x, y), neighbors[i].2) && OpenUnvisited(neighbors[i].2)
      ensures forall i, j :: 0 <= i < j < |neighbors| ==> neighbors[i].2 < neighbors[j].2
      ensures forall d: Dir :: OpenUnvisited(d) ==> exists i :: 0 <= i < |neighbors| && neighbors[i].2 == d
      ensures neighbors == [] <==> Closed(width, height, walls, visited, (x, y))
    {
      neighbors := ScanNeighbors(width, height, walls, visited, (x, y));
    }

    /** Cells of the maze the exploration has not entered. */
    function Unvisited(): set<Cell>
      reads this
    {
      Cells(width, height) - visited
    }

    /**
     * `explore_all_cells`: depth-first exploration from the robot's cell,
     * sensing the physical `maze` at every cell entered and backtracking
     * along the stack when no open unvisited neighbour is left.
     */
    method ExploreAllCells(maze: Maze) returns (goalFound: Option<Cell>)
      modifies this`x, this`y, this`direction, this`walls, this`visited
      ensures x == old(x) && y == old(y)
      ensures old(visited) <= visited && (x, y) in visited
      ensures old(walls) <= walls
      ensures forall k :: k in walls && k !in old(walls) ==> WallAt(maze, k.0, k.1, k.2)
      ensures forall c :: c in visited && (c !in old(visited) || c == (x, y)) ==>
        FullySensed(maze, walls, c) && Closed(width, height, walls, visited, c)
      ensures goalFound.Some? ==> goalFound.value in goalCells && goalFound.value in visited
      ensures goalFound.None? ==> forall c :: c in visited && (c !in old(visited) || c == (x, y)) ==> c !in goalCells
    {
      var position;
      position, walls, visited, direction, goalFound := Explore(width, height, goalCells, maze, (x, y), direction, walls, visited);
      x, y := position.0, position.1;
    }

    /**
     * `calculate_manhattan_distances`: every cell of the maze starts at
     * `INF`, the goal cells at 0, and a breadth-first flood over the
     * recorded walls lowers each neighbour to one more than its parent.
     */
    method CalculateManhattanDistances()
      modifies this`distances
      ensures forall c :: c in FloodKeys(width, height, goalCells) ==> c in distances && 0 <= distances[c] <= INF
      ensures forall i :: 0 <= i < |goalCells| ==> distances[goalCells[i]] == 0
      ensures forall c :: c in FloodKeys(width, height, goalCells) ==> Relaxed(width, height, walls, distances, c)
      ensures forall c :: c in Cells(width, height) && c !in goalCells && distances[c] < INF ==>
        HasDescent(FloodKeys(width, height, goalCells), walls, distances, c)
      ensures AgreeOutside(FloodKeys(width, height, goalCells), old(distances), distances)
    {
      var dist, queue := ResetDistances(width, height, goalCells, distances);
      FloodStart(width, height, walls, goalCells, dist);
      dist := Flood(width, height, walls, goalCells, dist, queue);
      distances := dist;
    }

    /**
     * `a_star_to_start`: a shortest route over the recorded walls from the
     * robot's cell to `(0, 0)`, or `None` when the search runs out of cells.
     */
    method AStarToStart() returns (path: Option<seq<Cell>>)
      ensures path.Some? ==> OpenPath(width, height, walls, (x, y), path.value)
      ensures path.Some? ==> (path.value == [] <==> (x, y) == (0, 0))
      ensures path.Some? && path.value != [] ==> path.value[|path.value| - 1] == (0, 0)
      ensures path.Some? ==> (x, y) !in path.value
      ensures path.None? ==> forall route :: OpenPath(width, height, walls, (x, y), route) ==> (0, 0) !in route
      ensures path.Some? ==> forall route, j :: OpenPath(width, height, walls, (x, y), route) && 0 <= j < |route| && route[j] == (0, 0) ==>
        |path.value| <= j + 1
    {
      path := SearchToStart(width, height, walls, (x, y));
    }

    /**
     * `follow_path`: the robot moves once per cell of `path`, turning first
     * when the cell is adjacent, and takes each cell as its position.
     */
    method FollowPath(path: seq<Cell>) returns (cmds: seq<Command>)
      modifies this`x, this`y, this`direction
      ensures (x, y) == Prev(old((x, y)), path, |path|)
      ensures Rotate(old(direction), cmds) == direction && Forwards(cmds) == |path|
      ensures path == [] ==> direction == old(direction) && cmds == []
      ensures path != [] && DirBetween(Prev(old((x, y)), path, |path| - 1), (x, y)) != -1 ==>
        direction == DirBetween(Prev(old((x, y)), path, |path| - 1), (x, y))
    {
      var pos;
      pos, direction, cmds := Follow((x, y), direction, path);
      x, y := pos.0, pos.1;
    }

    /**
     * `execute_optimal_path`: from `(0, 0)`, facing north, the robot steps
     * to the first neighbour of strictly smallest distance below its own
     * until it stands on a goal cell or no such neighbour exists. Returns
     * the cells entered, one per move.
     */
    method ExecuteOptimalPath() returns (route: seq<Cell>)
      requires (0, 0) in goalCells || (0, 0) in distances
      requires forall c :: InBounds(width, height, c) ==> c in distances
      modifies this`x, this`y, this`direction
      ensures OpenPath(width, height, walls, (0, 0), route) && Descending(distances, (0, 0), route)
      ensures Greedy(width, height, walls, distances, (0, 0), route)
      ensures (x, y) == Prev((0, 0), route, |route|)
      ensures (x, y) in goalCells || !OutDescent(width, height, walls, distances, (x, y))
      ensures route != [] ==> (x, y) in distances && (0, 0) in distances && distances[(x, y)] < distances[(0, 0)]
      ensures route == [] ==> direction == 0
      ensures route != [] ==> direction == DirBetween(Prev((0, 0), route, |route| - 1), (x, y))
    {
      var pos;
      pos, direction, route := Descend(width, height, walls, goalCells, distances, direction);
      x, y := pos.0, pos.1;
    }
  }
}
