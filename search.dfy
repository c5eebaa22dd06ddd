/**
 * The pieces the two A* searches of the repository share: the open set
 * as a min-priority multiset, the walk back along parent links, and the
 * measure that shows a search over a finite region stops.
 */
module Search {
  import opened Grid

  /** A heap entry `(priority, (x, y))`. */
  type Entry = (int, Cell)

  /**
   * Python's tuple order on heap entries: by priority, then by `x`, then
   * by `y`. `heappop` returns an entry that is least in this order.
   */
  predicate EntryLe(a: Entry, b: Entry) {
    a.0 < b.0 || (a.0 == b.0 && (a.1.0 < b.1.0 || (a.1.0 == b.1.0 && a.1.1 <= b.1.1)))
  }

  predicate IsMin(e: Entry, heap: multiset<Entry>) {
    e in heap && forall o :: o in heap ==> EntryLe(e, o)
  }

  lemma {:induction false} MinExists(heap: multiset<Entry>)
    requires |heap| > 0
    ensures exists e :: IsMin(e, heap)
    decreases |heap|
  {
    var y :| y in heap;
    var rest := heap - multiset{y};
    assert forall o :: o in heap ==> o == y || o in rest;
    if |rest| == 0 {
      assert IsMin(y, heap);
    } else {
      MinExists(rest);
      var m :| IsMin(m, rest);
      if EntryLe(m, y) {
        assert IsMin(m, heap);
      } else {
        assert IsMin(y, heap);
      }
    }
  }

  /**
   * `heappop`: removes and returns an entry of least priority, ties going
   * to the smaller cell in `(x, y)` order. The heap's array layout is not
   * modelled, only the multiset of its entries.
   */
  method PopMin(heap: multiset<Entry>) returns (e: Entry, rest: multiset<Entry>)
    requires |heap| > 0
    ensures e in heap && forall o :: o in heap ==> EntryLe(e, o)
    ensures rest == heap - multiset{e} && |rest| == |heap| - 1
  {
    MinExists(heap);
    e :| e in heap && IsMin(e, heap);
    rest := heap - multiset{e};
  }

  /** `list.reverse()` as a value. */
  function Reverse<T>(s: seq<T>): (r: seq<T>)
    ensures |r| == |s|
    ensures forall i :: 0 <= i < |s| ==> r[i] == s[|s| - 1 - i]
  {
    if s == [] then [] else Reverse(s[1..]) + [s[0]]
  }

  /**
   * The path reconstruction both searches perform once the goal is popped:
   * follow `came_from` from the goal until a cell without a parent, then
   * reverse. The parent of every cell has a smaller `g` score, so the walk
   * stops, and it stops at the search's start, the one scored cell that has
   * no parent.
   */
  method ReconstructPath(cameFrom: map<Cell, Cell>, ghost g: map<Cell, int>, start: Cell, goal: Cell)
    returns (path: seq<Cell>)
    requires goal in g && start !in cameFrom
    requires forall n :: n in g && n != start ==> n in cameFrom
    requires forall n :: n in cameFrom ==> n in g && cameFrom[n] in g && 0 <= g[cameFrom[n]] < g[n]
    ensures |path| == 0 <==> goal == start
    ensures forall i :: 0 <= i < |path| ==> path[i] in cameFrom
    ensures |path| > 0 ==> path[|path| - 1] == goal && cameFrom[path[0]] == start
    ensures forall i :: 0 < i < |path| ==> cameFrom[path[i]] == path[i - 1]
    ensures start in g && |path| + g[start] <= g[goal]
  {
    var walk: seq<Cell> := [];
    var current := goal;
    while current in cameFrom
      invariant current in g
      invariant forall i :: 0 <= i < |walk| ==> walk[i] in cameFrom
      invariant |walk| == 0 ==> current == goal
      invariant |walk| > 0 ==> walk[0] == goal && cameFrom[walk[|walk| - 1]] == current
      invariant forall i :: 0 < i < |walk| ==> cameFrom[walk[i - 1]] == walk[i]
      invariant |walk| + g[current] <= g[goal]
      decreases g[current]
    {
      walk := walk + [current];
      current := cameFrom[current];
    }
    path := Reverse(walk);
  }

  /**
   * The termination measure of a search confined to `region`: one pair
   * `(c, v)` for every value `v` below the score of `c`, or below `cap`
   * for a cell not scored yet. Every strict improvement of a score removes
   * pairs.
   */
  ghost function Potential(region: set<Cell>, g: map<Cell, int>, cap: int): set<(Cell, int)> {
    set c, v | c in region && 0 <= v < (if c in g then g[c] else cap) :: (c, v)
  }

  lemma PotentialShrinks(region: set<Cell>, g: map<Cell, int>, cap: int, n: Cell, v: int)
    requires n in region && 0 <= v
    requires if n in g then v < g[n] else v < cap
    ensures Potential(region, g[n := v], cap) < Potential(region, g, cap)
  {
    var p, q := Potential(region, g, cap), Potential(region, g[n := v], cap);
    assert (n, v) in p && (n, v) !in q;
    forall e | e in q ensures e in p {
    }
  }

  lemma SubsetCard<T>(a: set<T>, b: set<T>)
    requires a <= b
    ensures |a| <= |b|
  {
    assert b == a + (b - a);
  }
}
