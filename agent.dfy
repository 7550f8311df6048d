/**
 * The standalone grid agents of agent.py: a list-based snake, and a breadth-first and an
 * A* path-finder over a COLS x ROWS board of (x, y) cells, x the column and y the row,
 * that avoid a set of blocked body cells.
 */
module Agents {
  import opened Common

  type Cell = (int, int)

  /** The board size and direction vectors of config.py. */
  const COLS := 17
  const ROWS := 15
  const UP: Cell := (0, -1)
  const DOWN: Cell := (0, 1)
  const LEFT: Cell := (-1, 0)
  const RIGHT: Cell := (1, 0)

  /** The order both searches try the directions in. */
  const DIRECTIONS: seq<Cell> := [UP, DOWN, LEFT, RIGHT]

  function Plus(a: Cell, d: Cell): Cell
  {
    (a.0 + d.0, a.1 + d.1)
  }

  predicate InGrid(c: Cell)
  {
    0 <= c.0 < COLS && 0 <= c.1 < ROWS
  }

  function Abs(n: int): nat
  {
    if n < 0 then -n else n
  }

  /** `heuristic`: the Manhattan distance between two cells. */
  function Heuristic(a: Cell, b: Cell): (r: nat)
    ensures r == 0 <==> a == b
  {
    Abs(a.0 - b.0) + Abs(a.1 - b.1)
  }

  /** Two cells one unit step apart. */
  predicate Adjacent(a: Cell, b: Cell)
  {
    Heuristic(a, b) == 1
  }

  /** The heuristic never drops by more than one over a step, so A* may trust it. */
  lemma HeuristicConsistent(a: Cell, b: Cell, goal: Cell)
    requires Adjacent(a, b)
    ensures Heuristic(a, goal) <= Heuristic(b, goal) + 1
  {
  }

  /** The cells one step away are exactly the four direction vectors added. */
  lemma AdjacentDirections(a: Cell, b: Cell)
    ensures Adjacent(a, b) <==> exists j :: 0 <= j < |DIRECTIONS| && b == Plus(a, DIRECTIONS[j])
  {
    if Adjacent(a, b) {
      var j := if b.1 < a.1 then 0 else if b.1 > a.1 then 1 else if b.0 < a.0 then 2 else 3;
      assert b == Plus(a, DIRECTIONS[j]);
    }
  }

  /** Each direction vector is a unit step. */
  lemma DirectionAdjacent(a: Cell, k: int)
    requires 0 <= k < |DIRECTIONS|
    ensures Adjacent(a, Plus(a, DIRECTIONS[k]))
  {
    assert DIRECTIONS == [UP, DOWN, LEFT, RIGHT];
    assert k == 0 || k == 1 || k == 2 || k == 3;
  }

  /** In-grid neighbours of c reached by the directions in dirs, in that order. */
  function NeighborsBy(c: Cell, dirs: seq<Cell>): (r: seq<Cell>)
    ensures forall n :: n in r <==> exists j :: 0 <= j < |dirs| && n == Plus(c, dirs[j]) && InGrid(n)
  {
    if dirs == [] then []
    else
      var rest := NeighborsBy(c, dirs[1..]);
      assert forall j :: 0 < j < |dirs| ==> dirs[j] == dirs[1..][j - 1];
      (if InGrid(Plus(c, dirs[0])) then [Plus(c, dirs[0])] else []) + rest
  }

  /** `neighbors`: the in-grid neighbours of c, tried UP, DOWN, LEFT, RIGHT. */
  function Neighbors(c: Cell): (r: seq<Cell>)
    ensures forall n :: n in r <==> InGrid(n) && Adjacent(c, n)
  {
    var r := NeighborsBy(c, DIRECTIONS);
    assert forall n :: InGrid(n) && Adjacent(c, n) ==> n in r by {
      forall n | InGrid(n) && Adjacent(c, n) ensures n in r {
        AdjacentDirections(c, n);
      }
    }
    r
  }

  /** A cell a search may step onto. */
  predicate Free(c: Cell, blocked: set<Cell>)
  {
    InGrid(c) && c !in blocked
  }

  function Last<T>(p: seq<T>): T
    requires |p| > 0
  {
    p[|p| - 1]
  }

  /** A list of cells from start, each next one a step away, in the grid and not blocked. */
  predicate Walk(p: seq<Cell>, start: Cell, blocked: set<Cell>)
  {
    |p| > 0 && p[0] == start
    && forall i :: 0 < i < |p| ==> Adjacent(p[i - 1], p[i]) && Free(p[i], blocked)
  }

  predicate IsPath(p: seq<Cell>, start: Cell, goal: Cell, blocked: set<Cell>)
  {
    Walk(p, start, blocked) && Last(p) == goal
  }

  /**
   * What both searches promise: a path from start to goal, as short as any, or None
   * when there is none.
   */
  ghost predicate SearchSpec(start: Cell, goal: Cell, blocked: set<Cell>, r: Option<seq<Cell>>)
  {
    (r.Some? ==> IsPath(r.value, start, goal, blocked)
                 && forall p :: IsPath(p, start, goal, blocked) ==> |r.value| <= |p|)
    && (r.None? ==> forall p :: !IsPath(p, start, goal, blocked))
  }

  /** A walk without its last cell is a walk. */
  lemma WalkPrefix(p: seq<Cell>, start: Cell, blocked: set<Cell>)
    requires Walk(p, start, blocked) && |p| > 1
    ensures Walk(p[..|p| - 1], start, blocked) && Adjacent(Last(p[..|p| - 1]), Last(p)) && Free(Last(p), blocked)
  {
    var q := p[..|p| - 1];
    assert forall i :: 0 <= i < |q| ==> q[i] == p[i];
    var k := |p| - 1;
    assert Adjacent(p[k - 1], p[k]) && Free(p[k], blocked);
    assert p[k] == Last(p) && q[k - 1] == Last(q);
  }

  /** A walk extended by a free neighbour of its end is a walk. */
  lemma WalkExtend(p: seq<Cell>, start: Cell, blocked: set<Cell>, n: Cell)
    requires Walk(p, start, blocked) && Adjacent(Last(p), n) && Free(n, blocked)
    ensures Walk(p + [n], start, blocked) && Last(p + [n]) == n
  {
    var q := p + [n];
    forall i | 0 < i < |q|
      ensures Adjacent(q[i - 1], q[i]) && Free(q[i], blocked)
    {
      if i < |p| {
        assert q[i - 1] == p[i - 1] && q[i] == p[i];
      }
    }
  }

  /** Both searches' results have the same length, or are both None, on the same blocked set. */
  lemma SearchSpecUnique(start: Cell, goal: Cell, blocked: set<Cell>, r1: Option<seq<Cell>>, r2: Option<seq<Cell>>)
    requires SearchSpec(start, goal, blocked, r1) && SearchSpec(start, goal, blocked, r2)
    ensures r1.None? <==> r2.None?
    ensures r1.Some? && r2.Some? ==> |r1.value| == |r2.value|
  {
    if r1.Some? {
      assert IsPath(r1.value, start, goal, blocked);
    }
    if r2.Some? {
      assert IsPath(r2.value, start, goal, blocked);
    }
  }

  /** The cells a search can ever expand: the grid and the start. */
  function Universe(start: Cell): set<Cell>
  {
    (set x, y | 0 <= x < COLS && 0 <= y < ROWS :: (x, y)) + {start}
  }

  lemma InUniverse(start: Cell, c: Cell)
    requires c == start || InGrid(c)
    ensures c in Universe(start)
  {
    if c != start {
      var x, y := c.0, c.1;
      assert (x, y) == c;
    }
  }

  // ---------------------------------------------------------------------------------
  // The breadth-first search. Q is the queue of paths, D the ghost length of the path
  // that reached each visited cell, X the expanded cells.
  // ---------------------------------------------------------------------------------

  /** The start is visited at distance 0, every visited cell is in the universe, and the goal is never expanded. */
  ghost predicate BfsBase(start: Cell, goal: Cell, D: map<Cell, int>, X: set<Cell>)
  {
    start in D && D[start] == 0 && X <= D.Keys && goal !in X
    && (forall v :: v in D ==> v == start || InGrid(v))
  }

  /** Every queued path is a walk to an unexpanded visited cell, as long as that cell's distance says. */
  ghost predicate QueueOk(start: Cell, body: set<Cell>, Q: seq<seq<Cell>>, D: map<Cell, int>, X: set<Cell>)
  {
    (forall i :: 0 <= i < |Q| ==> Walk(Q[i], start, body) && Last(Q[i]) in D && Last(Q[i]) !in X
                                  && D[Last(Q[i])] == |Q[i]| - 1)
    && (forall i, j :: 0 <= i < j < |Q| ==> Last(Q[i]) != Last(Q[j]))
  }

  /** Every visited, unexpanded cell ends a queued path. */
  ghost predicate QueueCovers(Q: seq<seq<Cell>>, D: map<Cell, int>, X: set<Cell>)
  {
    forall v :: v in D && v !in X ==> exists i :: 0 <= i < |Q| && |Q[i]| > 0 && Last(Q[i]) == v
  }

  /** Queued lengths are sorted and span at most one. */
  ghost predicate Layered(Q: seq<seq<Cell>>)
  {
    (forall i, j :: 0 <= i < j < |Q| ==> |Q[i]| <= |Q[j]|)
    && (forall i :: 0 <= i < |Q| ==> |Q[i]| <= |Q[0]| + 1)
  }

  /** Expanded cells are no farther than any queued path's end. */
  ghost predicate ExpandedBefore(Q: seq<seq<Cell>>, D: map<Cell, int>, X: set<Cell>)
  {
    forall e, i :: e in X && e in D && 0 <= i < |Q| ==> D[e] <= |Q[i]| - 1
  }

  /** Every free neighbour of an expanded cell is visited, at most one step farther. */
  ghost predicate Closure(body: set<Cell>, D: map<Cell, int>, X: set<Cell>)
  {
    forall e, n :: e in X && e in D && Adjacent(e, n) && Free(n, body) ==> n in D && D[n] <= D[e] + 1
  }

  /** No walk reaches an expanded cell in fewer steps than its distance. */
  ghost predicate Optimal(start: Cell, body: set<Cell>, D: map<Cell, int>, X: set<Cell>)
  {
    forall e, p :: e in X && e in D && Walk(p, start, body) && Last(p) == e ==> D[e] <= |p| - 1
  }

  ghost predicate BfsInv(start: Cell, goal: Cell, body: set<Cell>, Q: seq<seq<Cell>>, D: map<Cell, int>, X: set<Cell>)
  {
    BfsBase(start, goal, D, X) && QueueOk(start, body, Q, D, X) && QueueCovers(Q, D, X) && Layered(Q)
    && ExpandedBefore(Q, D, X) && Closure(body, D, X) && Optimal(start, body, D, X)
  }

  /** A walk to an unexpanded cell is at least as long as the queue's front path. */
  lemma {:induction false} BfsFrontier(start: Cell, goal: Cell, body: set<Cell>, Q: seq<seq<Cell>>, D: map<Cell, int>,
                                       X: set<Cell>, p: seq<Cell>)
    requires BfsInv(start, goal, body, Q, D, X)
    requires Walk(p, start, body) && Last(p) !in X
    ensures |Q| > 0 && |Q[0]| <= |p|
    decreases |p|
  {
    if |p| == 1 {
      var i :| 0 <= i < |Q| && Last(Q[i]) == start;
    } else {
      var q := p[..|p| - 1];
      WalkPrefix(p, start, body);
      var x, n := Last(q), Last(p);
      if x !in X {
        BfsFrontier(start, goal, body, Q, D, X, q);
      } else {
        assert D[x] <= |q| - 1;
        var i :| 0 <= i < |Q| && Last(Q[i]) == n;
        assert |Q[0]| <= |Q[i]|;
      }
    }
  }

  /** With an empty queue every walk ends at an expanded cell. */
  lemma {:induction false} BfsClosedReach(start: Cell, goal: Cell, body: set<Cell>, D: map<Cell, int>, X: set<Cell>,
                                          p: seq<Cell>)
    requires BfsInv(start, goal, body, [], D, X)
    requires Walk(p, start, body)
    ensures Last(p) in X
    decreases |p|
  {
    if |p| > 1 {
      var q := p[..|p| - 1];
      WalkPrefix(p, start, body);
      BfsClosedReach(start, goal, body, D, X, q);
    }
  }

  /** The front path ending at the goal is a shortest path to it. */
  lemma BfsFound(start: Cell, goal: Cell, body: set<Cell>, Q: seq<seq<Cell>>, D: map<Cell, int>, X: set<Cell>)
    requires BfsInv(start, goal, body, Q, D, X) && |Q| > 0 && Last(Q[0]) == goal
    ensures SearchSpec(start, goal, body, Some(Q[0]))
  {
    forall p | IsPath(p, start, goal, body)
      ensures |Q[0]| <= |p|
    {
      BfsFrontier(start, goal, body, Q, D, X, p);
    }
  }

  /** An exhausted queue means the goal cannot be reached. */
  lemma BfsNone(start: Cell, goal: Cell, body: set<Cell>, D: map<Cell, int>, X: set<Cell>)
    requires BfsInv(start, goal, body, [], D, X)
    ensures SearchSpec(start, goal, body, None)
  {
    forall p
      ensures !IsPath(p, start, goal, body)
    {
      if Walk(p, start, body) {
        BfsClosedReach(start, goal, body, D, X, p);
      }
    }
  }

  /** Lengths during an expansion: sorted, between |path| and |path| + 1, and no expanded cell farther than path's end. */
  ghost predicate MidLengths(path: seq<Cell>, Q: seq<seq<Cell>>, D: map<Cell, int>, X: set<Cell>)
  {
    (forall i, j :: 0 <= i < j < |Q| ==> |Q[i]| <= |Q[j]|)
    && (forall i :: 0 <= i < |Q| ==> |path| <= |Q[i]| <= |path| + 1)
    && (forall e :: e in X && e in D ==> D[e] <= |path| - 1)
  }

  /** The free neighbours of c in the first k directions are visited, at most `bound` away. */
  ghost predicate PartialClosure(body: set<Cell>, c: Cell, D: map<Cell, int>, k: int, bound: int)
  {
    forall j :: 0 <= j < k && 0 <= j < |DIRECTIONS| && Free(Plus(c, DIRECTIONS[j]), body) ==>
      Plus(c, DIRECTIONS[j]) in D && D[Plus(c, DIRECTIONS[j])] <= bound
  }

  /**
   * The search in the middle of expanding the end of path, after its first k
   * directions: X already holds path's end, and Q is the rest of the queue plus what
   * this expansion appended.
   */
  ghost predicate BfsMid(start: Cell, goal: Cell, body: set<Cell>, path: seq<Cell>, Q: seq<seq<Cell>>,
                         D: map<Cell, int>, X: set<Cell>, k: int)
  {
    Walk(path, start, body) && Last(path) in X && Last(path) in D && D[Last(path)] == |path| - 1
    && 0 <= k <= |DIRECTIONS|
    && BfsBase(start, goal, D, X) && QueueOk(start, body, Q, D, X) && QueueCovers(Q, D, X)
    && MidLengths(path, Q, D, X) && Closure(body, D, X - {Last(path)})
    && PartialClosure(body, Last(path), D, k, |path|) && Optimal(start, body, D, X)
  }

  /** The rest of the queue, once its front path's end is expanded, is still well formed and covering. */
  lemma QueueTail(start: Cell, body: set<Cell>, Q: seq<seq<Cell>>, D: map<Cell, int>, X: set<Cell>)
    requires QueueOk(start, body, Q, D, X) && QueueCovers(Q, D, X) && |Q| > 0
    ensures QueueOk(start, body, Q[1..], D, X + {Last(Q[0])})
    ensures QueueCovers(Q[1..], D, X + {Last(Q[0])})
  {
    var rest, X' := Q[1..], X + {Last(Q[0])};
    forall i | 0 <= i < |rest|
      ensures rest[i] == Q[i + 1]
    {
    }
    forall v | v in D && v !in X'
      ensures exists i :: 0 <= i < |rest| && |rest[i]| > 0 && Last(rest[i]) == v
    {
      var i :| 0 <= i < |Q| && |Q[i]| > 0 && Last(Q[i]) == v;
      assert rest[i - 1] == Q[i];
    }
  }

  /** Popping a front path that does not end at the goal starts its expansion. */
  lemma BfsPop(start: Cell, goal: Cell, body: set<Cell>, Q: seq<seq<Cell>>, D: map<Cell, int>, X: set<Cell>)
    requires BfsInv(start, goal, body, Q, D, X) && |Q| > 0 && Last(Q[0]) != goal
    ensures BfsMid(start, goal, body, Q[0], Q[1..], D, X + {Last(Q[0])}, 0)
    ensures Last(Q[0]) !in X && Last(Q[0]) in Universe(start)
  {
    var path, cur, X' := Q[0], Last(Q[0]), X + {Last(Q[0])};
    InUniverse(start, cur);
    QueueTail(start, body, Q, D, X);
    assert MidLengths(path, Q[1..], D, X') by {
      forall i | 0 <= i < |Q| - 1
        ensures Q[1..][i] == Q[i + 1]
      {
      }
    }
    assert X' - {cur} == X;
    BfsPopOptimal(start, goal, body, Q, D, X);
  }

  /** The front path's end is reached by no shorter walk. */
  lemma BfsPopOptimal(start: Cell, goal: Cell, body: set<Cell>, Q: seq<seq<Cell>>, D: map<Cell, int>, X: set<Cell>)
    requires BfsInv(start, goal, body, Q, D, X) && |Q| > 0 && Last(Q[0]) !in X
    ensures Optimal(start, body, D, X + {Last(Q[0])})
  {
    var cur := Last(Q[0]);
    forall p | Walk(p, start, body) && Last(p) == cur
      ensures D[cur] <= |p| - 1
    {
      BfsFrontier(start, goal, body, Q, D, X, p);
    }
  }

  /** Adding a fresh cell to the distances keeps the facts about the old cells. */
  lemma VisitKeeps(start: Cell, goal: Cell, body: set<Cell>, cur: Cell, D: map<Cell, int>, X: set<Cell>, Y: set<Cell>,
                   next: Cell, d: int, k: int)
    requires next !in D && X <= D.Keys && Y <= X && InGrid(next)
    requires BfsBase(start, goal, D, X) && Closure(body, D, Y) && Optimal(start, body, D, X)
    requires PartialClosure(body, cur, D, k, d)
    ensures BfsBase(start, goal, D[next := d], X) && Closure(body, D[next := d], Y) && Optimal(start, body, D[next := d], X)
    ensures PartialClosure(body, cur, D[next := d], k, d)
  {
  }

  /** Appending a walk to a fresh cell at the back of the queue keeps it well formed and covering. */
  lemma VisitQueue(start: Cell, body: set<Cell>, Q: seq<seq<Cell>>, D: map<Cell, int>, X: set<Cell>, p: seq<Cell>)
    requires QueueOk(start, body, Q, D, X) && QueueCovers(Q, D, X) && X <= D.Keys
    requires Walk(p, start, body) && Last(p) !in D
    ensures QueueOk(start, body, Q + [p], D[Last(p) := |p| - 1], X)
    ensures QueueCovers(Q + [p], D[Last(p) := |p| - 1], X)
  {
    VisitQueueOk(start, body, Q, D, X, p);
    VisitCovers(Q, D, X, p);
  }

  lemma VisitQueueOk(start: Cell, body: set<Cell>, Q: seq<seq<Cell>>, D: map<Cell, int>, X: set<Cell>, p: seq<Cell>)
    requires QueueOk(start, body, Q, D, X) && X <= D.Keys
    requires Walk(p, start, body) && Last(p) !in D
    ensures QueueOk(start, body, Q + [p], D[Last(p) := |p| - 1], X)
  {
    var Q' := Q + [p];
    forall i | 0 <= i < |Q|
      ensures Q'[i] == Q[i]
    {
    }
    assert Q'[|Q|] == p;
  }

  lemma VisitCovers(Q: seq<seq<Cell>>, D: map<Cell, int>, X: set<Cell>, p: seq<Cell>)
    requires QueueCovers(Q, D, X) && |p| > 0
    ensures QueueCovers(Q + [p], D[Last(p) := |p| - 1], X)
  {
    var Q', D' := Q + [p], D[Last(p) := |p| - 1];
    assert Q'[|Q|] == p;
    forall v | v in D' && v !in X
      ensures exists i :: 0 <= i < |Q'| && |Q'[i]| > 0 && Last(Q'[i]) == v
    {
      if v != Last(p) {
        var i :| 0 <= i < |Q| && |Q[i]| > 0 && Last(Q[i]) == v;
        assert Q'[i] == Q[i];
      }
    }
  }

  /** Appending a path to a fresh free neighbour of path's end covers direction k. */
  lemma BfsVisit(start: Cell, goal: Cell, body: set<Cell>, path: seq<Cell>, Q: seq<seq<Cell>>,
                 D: map<Cell, int>, X: set<Cell>, k: int, next: Cell)
    requires BfsMid(start, goal, body, path, Q, D, X, k) && k < |DIRECTIONS|
    requires next == Plus(Last(path), DIRECTIONS[k]) && Free(next, body) && next !in D
    ensures BfsMid(start, goal, body, path, Q + [path + [next]], D[next := |path|], X, k + 1)
  {
    var cur := Last(path);
    var p := path + [next];
    var Q', D' := Q + [p], D[next := |path|];
    DirectionAdjacent(cur, k);
    WalkExtend(path, start, body, next);
    VisitQueue(start, body, Q, D, X, p);
    VisitKeeps(start, goal, body, cur, D, X, X - {cur}, next, |path|, k);
    VisitLengths(path, Q, D, X, next);
  }

  lemma VisitLengths(path: seq<Cell>, Q: seq<seq<Cell>>, D: map<Cell, int>, X: set<Cell>, next: Cell)
    requires MidLengths(path, Q, D, X) && next !in X
    ensures MidLengths(path, Q + [path + [next]], D[next := |path|], X)
  {
    var Q' := Q + [path + [next]];
    forall i | 0 <= i < |Q|
      ensures Q'[i] == Q[i]
    {
    }
    assert Q'[|Q|] == path + [next];
  }

  /** Skipping a direction whose neighbour is off the board, visited or blocked covers it too. */
  lemma BfsSkip(start: Cell, goal: Cell, body: set<Cell>, path: seq<Cell>, Q: seq<seq<Cell>>,
                D: map<Cell, int>, X: set<Cell>, k: int)
    requires BfsMid(start, goal, body, path, Q, D, X, k) && k < |DIRECTIONS|
    requires !Free(Plus(Last(path), DIRECTIONS[k]), body) || Plus(Last(path), DIRECTIONS[k]) in D
    ensures BfsMid(start, goal, body, path, Q, D, X, k + 1)
  {
    var next := Plus(Last(path), DIRECTIONS[k]);
    if Free(next, body) {
      if next in X && next != Last(path) {
        assert D[next] <= |path| - 1;
      } else if next != Last(path) {
        var i :| 0 <= i < |Q| && |Q[i]| > 0 && Last(Q[i]) == next;
      } else {
        DirectionAdjacent(Last(path), k);
      }
    }
  }

  /** After all four directions the search invariant holds again with path's end expanded. */
  lemma BfsExit(start: Cell, goal: Cell, body: set<Cell>, path: seq<Cell>, Q: seq<seq<Cell>>,
                D: map<Cell, int>, X: set<Cell>)
    requires BfsMid(start, goal, body, path, Q, D, X, |DIRECTIONS|)
    ensures BfsInv(start, goal, body, Q, D, X)
  {
    var cur := Last(path);
    forall e, n | e in X && e in D && Adjacent(e, n) && Free(n, body)
      ensures n in D && D[n] <= D[e] + 1
    {
      if e == cur {
        AdjacentDirections(cur, n);
      }
    }
  }

  /** `bfs`: a breadth-first search over paths from start, marking cells visited when queued. */
  method Bfs(start: Cell, goal: Cell, body: set<Cell>) returns (r: Option<seq<Cell>>)
    ensures SearchSpec(start, goal, body, r)
  {
    var queue: seq<seq<Cell>> := [[start]];
    var visited: set<Cell> := {start};
    ghost var D: map<Cell, int> := map[start := 0];
    ghost var X: set<Cell> := {};
    while queue != []
      invariant BfsInv(start, goal, body, queue, D, X) && visited == D.Keys
      decreases Universe(start) - X
    {
      var path := queue[0];
      var cur := path[|path| - 1];
      if cur == goal {
        BfsFound(start, goal, body, queue, D, X);
        return Some(path);
      }
      BfsPop(start, goal, body, queue, D, X);
      queue, visited, D := BfsExpand(start, goal, body, path, queue[1..], visited, D, X + {cur});
      X := X + {cur};
    }
    BfsNone(start, goal, body, D, X);
    return None;
  }

  /** The direction loop of `bfs`: queue every free, unvisited neighbour of path's end. */
  method BfsExpand(ghost start: Cell, ghost goal: Cell, body: set<Cell>, path: seq<Cell>, queue: seq<seq<Cell>>,
                   visited: set<Cell>, ghost D: map<Cell, int>, ghost X: set<Cell>)
    returns (queue': seq<seq<Cell>>, visited': set<Cell>, ghost D': map<Cell, int>)
    requires BfsMid(start, goal, body, path, queue, D, X, 0) && visited == D.Keys
    ensures BfsInv(start, goal, body, queue', D', X) && visited' == D'.Keys
  {
    var cur := Last(path);
    queue', visited', D' := queue, visited, D;
    for k := 0 to |DIRECTIONS|
      invariant BfsMid(start, goal, body, path, queue', D', X, k) && visited' == D'.Keys
    {
      var next := Plus(cur, DIRECTIONS[k]);
      if InGrid(next) && next !in visited' && next !in body {
        BfsVisit(start, goal, body, path, queue', D', X, k, next);
        queue' := queue' + [path + [next]];
        visited' := visited' + {next};
        D' := D'[next := |path|];
      } else {
        BfsSkip(start, goal, body, path, queue', D', X, k);
      }
    }
    BfsExit(start, goal, body, path, queue', D', X);
  }

  // ---------------------------------------------------------------------------------
  // A*. The open heap is a multiset of (f, cell) entries, g the best known length to
  // each reached cell, cameFrom its predecessor on that walk, closed the expanded cells,
  // and the ghost map W a walk realising each g value.
  // ---------------------------------------------------------------------------------

  type Entry = (int, Cell)

  /** Python's tuple order on heap entries: by f, then by column, then by row. */
  predicate EntryLe(a: Entry, b: Entry)
  {
    a.0 < b.0 || (a.0 == b.0 && (a.1.0 < b.1.0 || (a.1.0 == b.1.0 && a.1.1 <= b.1.1)))
  }

  /** Adding x to a multiset whose least entry is m gives the lesser of the two as least entry. */
  lemma MinInsert(rest: multiset<Entry>, x: Entry, m: Entry)
    requires m in rest && forall y :: y in rest ==> EntryLe(m, y)
    ensures var e := if EntryLe(x, m) then x else m;
            e in rest + multiset{x} && forall y :: y in rest + multiset{x} ==> EntryLe(e, y)
  {
    var e := if EntryLe(x, m) then x else m;
    forall y | y in rest + multiset{x}
      ensures EntryLe(e, y)
    {
      if y != x {
        assert y in rest;
      }
    }
  }

  /** A non-empty heap has a least entry. */
  lemma {:induction false} MinExists(heap: multiset<Entry>)
    requires |heap| > 0
    ensures exists e :: e in heap && forall x :: x in heap ==> EntryLe(e, x)
    decreases |heap|
  {
    var x :| x in heap;
    var rest := heap - multiset{x};
    assert heap == rest + multiset{x};
    if |rest| == 0 {
      assert rest == multiset{};
      assert x in heap && forall y :: y in heap ==> EntryLe(x, y);
    } else {
      MinExists(rest);
      var m :| m in rest && forall y :: y in rest ==> EntryLe(m, y);
      MinInsert(rest, x, m);
      var e := if EntryLe(x, m) then x else m;
      assert e in heap && forall y :: y in heap ==> EntryLe(e, y);
    }
  }

  /** `heappop`'s choice: the least entry of the heap. */
  function HeapMin(heap: multiset<Entry>): (e: Entry)
    requires |heap| > 0
    ensures e in heap && forall x :: x in heap ==> EntryLe(e, x)
  {
    MinExists(heap);
    var e :| e in heap && forall x :: x in heap ==> EntryLe(e, x);
    e
  }

  /** The predecessor links form walks back to start along which g drops by at least one a step. */
  ghost predicate ATree(start: Cell, B: set<Cell>, g: map<Cell, int>, cameFrom: map<Cell, Cell>, W: map<Cell, seq<Cell>>)
  {
    start in g && g[start] == 0 && start !in cameFrom
    && (forall n :: n in g ==> n == start || n in cameFrom)
    && (forall n :: n in cameFrom ==> n in g && Free(n, B))
    && (forall n {:trigger cameFrom[n]} :: n in cameFrom ==>
          cameFrom[n] in g && g[n] >= g[cameFrom[n]] + 1 && Adjacent(cameFrom[n], n))
    && (forall n :: n in g ==> n in W && Walk(W[n], start, B) && Last(W[n]) == n && |W[n]| == g[n] + 1)
  }

  /** No heap entry underestimates its cell's g plus heuristic. */
  ghost predicate AEntries(goal: Cell, heap: multiset<Entry>, g: map<Cell, int>)
  {
    forall e :: e in heap ==> e.1 in g && e.0 >= g[e.1] + Heuristic(e.1, goal)
  }

  /** Every reached, unexpanded cell has an entry with its current g plus heuristic. */
  ghost predicate AQueued(goal: Cell, heap: multiset<Entry>, g: map<Cell, int>, closed: set<Cell>)
  {
    forall n :: n in g && n !in closed ==> (g[n] + Heuristic(n, goal), n) in heap
  }

  /** Every free neighbour of a cell of C is reached, at most one step farther. */
  ghost predicate AClosure(B: set<Cell>, g: map<Cell, int>, C: set<Cell>)
  {
    forall e, n :: e in C && e in g && Adjacent(e, n) && Free(n, B) ==> n in g && g[n] <= g[e] + 1
  }

  /** The g value of every cell of C is the length of a shortest walk to it. */
  ghost predicate AOptimal(start: Cell, B: set<Cell>, g: map<Cell, int>, C: set<Cell>)
  {
    forall e, p :: e in C && e in g && Walk(p, start, B) && Last(p) == e ==> g[e] <= |p| - 1
  }

  ghost predicate AInv(start: Cell, goal: Cell, B: set<Cell>, heap: multiset<Entry>, g: map<Cell, int>,
                       cameFrom: map<Cell, Cell>, closed: set<Cell>, W: map<Cell, seq<Cell>>)
  {
    ATree(start, B, g, cameFrom, W) && AEntries(goal, heap, g) && AQueued(goal, heap, g, closed)
    && closed <= g.Keys && goal !in closed && AClosure(B, g, closed) && AOptimal(start, B, g, closed)
  }

  /**
   * A walk to an unexpanded cell passes a reached, unexpanded cell m whose g plus heuristic
   * is at most the walk's length plus the heuristic at its end.
   */
  lemma {:induction false} AFrontier(start: Cell, goal: Cell, B: set<Cell>, g: map<Cell, int>, closed: set<Cell>,
                                     p: seq<Cell>) returns (m: Cell)
    requires start in g && g[start] == 0 && closed <= g.Keys && AClosure(B, g, closed) && AOptimal(start, B, g, closed)
    requires Walk(p, start, B) && Last(p) !in closed
    ensures m in g && m !in closed && g[m] + Heuristic(m, goal) <= |p| - 1 + Heuristic(Last(p), goal)
    decreases |p|
  {
    if |p| == 1 {
      m := start;
    } else {
      var q := p[..|p| - 1];
      WalkPrefix(p, start, B);
      var x, n := Last(q), Last(p);
      HeuristicConsistent(x, n, goal);
      if x !in closed {
        m := AFrontier(start, goal, B, g, closed, q);
      } else {
        assert g[x] <= |q| - 1;
        m := n;
      }
    }
  }

  /** With an empty heap every walk ends at an expanded cell. */
  lemma {:induction false} AClosedReach(start: Cell, goal: Cell, B: set<Cell>, g: map<Cell, int>, closed: set<Cell>,
                                        p: seq<Cell>)
    requires start in g && closed <= g.Keys && AClosure(B, g, closed) && AQueued(goal, multiset{}, g, closed)
    requires Walk(p, start, B)
    ensures Last(p) in closed
    decreases |p|
  {
    if |p| > 1 {
      var q := p[..|p| - 1];
      WalkPrefix(p, start, B);
      AClosedReach(start, goal, B, g, closed, q);
    }
  }

  /** Popping the goal: its g value is at most any path's length. */
  lemma APopGoal(start: Cell, goal: Cell, B: set<Cell>, heap: multiset<Entry>, g: map<Cell, int>,
                 cameFrom: map<Cell, Cell>, closed: set<Cell>, W: map<Cell, seq<Cell>>, e: Entry)
    requires AInv(start, goal, B, heap, g, cameFrom, closed, W)
    requires e in heap && (forall x :: x in heap ==> EntryLe(e, x)) && e.1 == goal
    ensures goal in g && forall p :: IsPath(p, start, goal, B) ==> g[goal] <= |p| - 1
  {
    forall p | IsPath(p, start, goal, B)
      ensures g[goal] <= |p| - 1
    {
      var m := AFrontier(start, goal, B, g, closed, p);
      assert EntryLe(e, (g[m] + Heuristic(m, goal), m));
    }
  }

  /** Popping a stale entry of an expanded cell keeps the heap facts. */
  lemma APopClosed(goal: Cell, heap: multiset<Entry>, g: map<Cell, int>, closed: set<Cell>, e: Entry)
    requires AEntries(goal, heap, g) && AQueued(goal, heap, g, closed) && e in heap && e.1 in closed
    ensures AEntries(goal, heap - multiset{e}, g) && AQueued(goal, heap - multiset{e}, g, closed)
  {
    var heap' := heap - multiset{e};
    forall n | n in g && n !in closed
      ensures (g[n] + Heuristic(n, goal), n) in heap'
    {
      assert (g[n] + Heuristic(n, goal), n) != e;
    }
  }

  /** Popping the entry of an unexpanded cell and closing that cell keeps the heap facts. */
  lemma APopQueue(goal: Cell, heap: multiset<Entry>, g: map<Cell, int>, closed: set<Cell>, e: Entry)
    requires AEntries(goal, heap, g) && AQueued(goal, heap, g, closed) && e in heap
    ensures AEntries(goal, heap - multiset{e}, g) && AQueued(goal, heap - multiset{e}, g, closed + {e.1})
  {
    var heap' := heap - multiset{e};
    forall n | n in g && n !in closed + {e.1}
      ensures (g[n] + Heuristic(n, goal), n) in heap'
    {
      assert (g[n] + Heuristic(n, goal), n) != e;
    }
  }

  /** The least entry's cell, when unexpanded, has an optimal g value. */
  lemma APopOptimal(start: Cell, goal: Cell, B: set<Cell>, heap: multiset<Entry>, g: map<Cell, int>,
                    closed: set<Cell>, e: Entry)
    requires start in g && g[start] == 0 && closed <= g.Keys && AClosure(B, g, closed) && AOptimal(start, B, g, closed)
    requires AEntries(goal, heap, g) && AQueued(goal, heap, g, closed)
    requires e in heap && (forall x :: x in heap ==> EntryLe(e, x)) && e.1 !in closed
    ensures AOptimal(start, B, g, closed + {e.1})
  {
    var c := e.1;
    forall p | Walk(p, start, B) && Last(p) == c
      ensures g[c] <= |p| - 1
    {
      var m := AFrontier(start, goal, B, g, closed, p);
      assert EntryLe(e, (g[m] + Heuristic(m, goal), m));
    }
  }

  /** Every reached cell is the start or on the board. */
  lemma ATreeUniverse(start: Cell, B: set<Cell>, g: map<Cell, int>, cameFrom: map<Cell, Cell>, W: map<Cell, seq<Cell>>,
                      c: Cell)
    requires ATree(start, B, g, cameFrom, W) && c in g
    ensures c in Universe(start)
  {
    if c != start {
      assert Free(c, B);
    }
    InUniverse(start, c);
  }

  /** The free neighbours of cur among nbs[..k] are reached at most one step farther than cur. */
  ghost predicate APartial(B: set<Cell>, g: map<Cell, int>, cur: Cell, nbs: seq<Cell>, k: int)
  {
    cur in g && forall j :: 0 <= j < k && j < |nbs| && Free(nbs[j], B) ==> nbs[j] in g && g[nbs[j]] <= g[cur] + 1
  }

  /**
   * The search while expanding cur, after its first k neighbours: closed is the set
   * before cur was added to it.
   */
  ghost predicate AMid(start: Cell, goal: Cell, B: set<Cell>, cur: Cell, nbs: seq<Cell>, heap: multiset<Entry>,
                       g: map<Cell, int>, cameFrom: map<Cell, Cell>, closed: set<Cell>, W: map<Cell, seq<Cell>>, k: int)
  {
    ATree(start, B, g, cameFrom, W) && AEntries(goal, heap, g) && AQueued(goal, heap, g, closed + {cur})
    && closed <= g.Keys && goal !in closed && cur !in closed && cur != goal
    && 0 <= k <= |nbs|
    && AClosure(B, g, closed) && AOptimal(start, B, g, closed + {cur}) && APartial(B, g, cur, nbs, k)
  }

  /** Popping the least entry of an unexpanded cell other than the goal starts its expansion. */
  lemma APopOpen(start: Cell, goal: Cell, B: set<Cell>, heap: multiset<Entry>, g: map<Cell, int>,
                 cameFrom: map<Cell, Cell>, closed: set<Cell>, W: map<Cell, seq<Cell>>, e: Entry)
    requires AInv(start, goal, B, heap, g, cameFrom, closed, W)
    requires e in heap && (forall x :: x in heap ==> EntryLe(e, x)) && e.1 !in closed && e.1 != goal
    ensures AMid(start, goal, B, e.1, Neighbors(e.1), heap - multiset{e}, g, cameFrom, closed, W, 0)
    ensures e.1 in Universe(start)
  {
    APopQueue(goal, heap, g, closed, e);
    APopOptimal(start, goal, B, heap, g, closed, e);
    ATreeUniverse(start, B, g, cameFrom, W, e.1);
  }

  /** Recording a shorter walk to nb through cur keeps the predecessor tree. */
  lemma AUpdateTree(start: Cell, B: set<Cell>, g: map<Cell, int>, cameFrom: map<Cell, Cell>, W: map<Cell, seq<Cell>>,
                    cur: Cell, nb: Cell)
    requires ATree(start, B, g, cameFrom, W) && cur in g && Adjacent(cur, nb) && Free(nb, B)
    requires nb !in g || g[cur] + 1 < g[nb]
    ensures ATree(start, B, g[nb := g[cur] + 1], cameFrom[nb := cur], W[nb := W[cur] + [nb]])
  {
    WalkExtend(W[cur], start, B, nb);
  }

  /** Lowering nb's g value and pushing its new entry keeps every entry at or above its cell's g plus heuristic. */
  lemma AUpdateEntries(goal: Cell, heap: multiset<Entry>, g: map<Cell, int>, nb: Cell, t: int)
    requires AEntries(goal, heap, g) && (nb !in g || t < g[nb])
    ensures AEntries(goal, heap + multiset{(t + Heuristic(nb, goal), nb)}, g[nb := t])
  {
    var heap', g' := heap + multiset{(t + Heuristic(nb, goal), nb)}, g[nb := t];
    forall e | e in heap'
      ensures e.1 in g' && e.0 >= g'[e.1] + Heuristic(e.1, goal)
    {
      if e in heap && e.1 != nb {
        assert g'[e.1] == g[e.1];
      }
    }
  }

  /** Lowering nb's g value and pushing its new entry keeps every open cell queued at its g. */
  lemma AUpdateQueued(goal: Cell, heap: multiset<Entry>, g: map<Cell, int>, closed: set<Cell>, nb: Cell, t: int)
    requires AQueued(goal, heap, g, closed)
    ensures AQueued(goal, heap + multiset{(t + Heuristic(nb, goal), nb)}, g[nb := t], closed)
  {
    var heap', g' := heap + multiset{(t + Heuristic(nb, goal), nb)}, g[nb := t];
    forall n | n in g' && n !in closed
      ensures (g'[n] + Heuristic(n, goal), n) in heap'
    {
      if n != nb {
        assert (g[n] + Heuristic(n, goal), n) in heap;
      }
    }
  }

  /** Lowering the g value of an unexpanded cell keeps closure and optimality. */
  lemma AUpdateClosed(start: Cell, B: set<Cell>, g: map<Cell, int>, C: set<Cell>, D: set<Cell>, nb: Cell, t: int)
    requires AClosure(B, g, C) && AOptimal(start, B, g, D) && C <= g.Keys && D <= g.Keys
    requires nb !in C && nb !in D && (nb !in g || t < g[nb])
    ensures AClosure(B, g[nb := t], C) && AOptimal(start, B, g[nb := t], D)
  {
  }

  /** A closed cell is already reached at most one step beyond any reached neighbour. */
  lemma AClosedBound(start: Cell, B: set<Cell>, g: map<Cell, int>, cameFrom: map<Cell, Cell>, W: map<Cell, seq<Cell>>,
                     C: set<Cell>, cur: Cell, nb: Cell)
    requires ATree(start, B, g, cameFrom, W) && AOptimal(start, B, g, C) && cur in g
    requires Adjacent(cur, nb) && Free(nb, B) && nb in C && nb in g
    ensures g[nb] <= g[cur] + 1
  {
    WalkExtend(W[cur], start, B, nb);
    assert |W[cur] + [nb]| == g[cur] + 2;
  }

  /** Relaxing the k-th neighbour through cur covers it. */
  lemma AUpdate(start: Cell, goal: Cell, B: set<Cell>, cur: Cell, nbs: seq<Cell>, heap: multiset<Entry>,
                g: map<Cell, int>, cameFrom: map<Cell, Cell>, closed: set<Cell>, W: map<Cell, seq<Cell>>, k: int,
                nb: Cell, t: int)
    requires AMid(start, goal, B, cur, nbs, heap, g, cameFrom, closed, W, k) && k < |nbs| && nbs == Neighbors(cur)
    requires nb == nbs[k] && Free(nb, B) && t == g[cur] + 1 && (nb !in g || t < g[nb])
    ensures AMid(start, goal, B, cur, nbs, heap + multiset{(t + Heuristic(nb, goal), nb)}, g[nb := t],
                 cameFrom[nb := cur], closed, W[nb := W[cur] + [nb]], k + 1)
  {
    assert nb in nbs && Adjacent(cur, nb);
    if nb in closed + {cur} {
      AClosedBound(start, B, g, cameFrom, W, closed + {cur}, cur, nb);
    }
    AUpdateTree(start, B, g, cameFrom, W, cur, nb);
    AUpdateEntries(goal, heap, g, nb, t);
    AUpdateQueued(goal, heap, g, closed + {cur}, nb, t);
    AUpdateClosed(start, B, g, closed, closed + {cur}, nb, t);
    APartialStep(B, g, cur, nbs, k, nb, t);
  }

  lemma APartialStep(B: set<Cell>, g: map<Cell, int>, cur: Cell, nbs: seq<Cell>, k: int, nb: Cell, t: int)
    requires APartial(B, g, cur, nbs, k) && 0 <= k < |nbs| && nb == nbs[k] && nb != cur
    requires t == g[cur] + 1 && (nb !in g || t < g[nb])
    ensures APartial(B, g[nb := t], cur, nbs, k + 1)
  {
  }

  /** A blocked neighbour, or one already reached as cheaply, is covered without change. */
  lemma ANoUpdate(B: set<Cell>, g: map<Cell, int>, cur: Cell, nbs: seq<Cell>, k: int)
    requires APartial(B, g, cur, nbs, k) && 0 <= k < |nbs|
    requires !Free(nbs[k], B) || (nbs[k] in g && g[cur] + 1 >= g[nbs[k]])
    ensures APartial(B, g, cur, nbs, k + 1)
  {
  }

  /** Once every neighbour of cur is covered, cur joins the closure. */
  lemma AExitClosure(B: set<Cell>, g: map<Cell, int>, cur: Cell, closed: set<Cell>)
    requires AClosure(B, g, closed) && APartial(B, g, cur, Neighbors(cur), |Neighbors(cur)|)
    ensures AClosure(B, g, closed + {cur})
  {
    var nbs := Neighbors(cur);
    forall e, n | e in closed + {cur} && e in g && Adjacent(e, n) && Free(n, B)
      ensures n in g && g[n] <= g[e] + 1
    {
      if e == cur {
        assert n in nbs;
        var j :| 0 <= j < |nbs| && nbs[j] == n;
      }
    }
  }

  /** After all neighbours the invariant holds again with cur closed. */
  lemma AExit(start: Cell, goal: Cell, B: set<Cell>, cur: Cell, nbs: seq<Cell>, heap: multiset<Entry>,
              g: map<Cell, int>, cameFrom: map<Cell, Cell>, closed: set<Cell>, W: map<Cell, seq<Cell>>)
    requires AMid(start, goal, B, cur, nbs, heap, g, cameFrom, closed, W, |nbs|) && nbs == Neighbors(cur)
    ensures AInv(start, goal, B, heap, g, cameFrom, closed + {cur}, W)
  {
    AExitClosure(B, g, cur, closed);
  }

  /** The reversal of a sequence. */
  function Reversed<T>(s: seq<T>): (r: seq<T>)
    ensures |r| == |s| && forall i :: 0 <= i < |s| ==> r[i] == s[|s| - 1 - i]
  {
    if s == [] then [] else Reversed(s[1..]) + [s[0]]
  }

  /** `astar`: A* with the Manhattan heuristic; the goal may be stepped onto even when it is in the body. */
  method AStar(start: Cell, goal: Cell, body: set<Cell>) returns (r: Option<seq<Cell>>)
    ensures SearchSpec(start, goal, body - {goal}, r)
  {
    ghost var B := body - {goal};
    var heap: multiset<Entry> := multiset{(Heuristic(start, goal), start)};
    var g: map<Cell, int> := map[start := 0];
    var cameFrom: map<Cell, Cell> := map[];
    var closed: set<Cell> := {};
    ghost var W: map<Cell, seq<Cell>> := map[start := [start]];
    while heap != multiset{}
      invariant AInv(start, goal, B, heap, g, cameFrom, closed, W)
      decreases Universe(start) - closed, |heap|
    {
      var e := HeapMin(heap);
      var cur := e.1;
      if cur == goal {
        APopGoal(start, goal, B, heap, g, cameFrom, closed, W, e);
        var path := Reconstruct(start, goal, B, g, cameFrom, W);
        return Some(path);
      }
      if cur in closed {
        APopClosed(goal, heap, g, closed, e);
        heap := heap - multiset{e};
        continue;
      }
      APopOpen(start, goal, B, heap, g, cameFrom, closed, W, e);
      heap := heap - multiset{e};
      ghost var before := closed;
      closed := closed + {cur};
      heap, g, cameFrom, W := AExpand(start, goal, body, cur, heap, g, cameFrom, before, W);
    }
    assert forall p :: !IsPath(p, start, goal, B) by {
      forall p
        ensures !IsPath(p, start, goal, B)
      {
        if Walk(p, start, B) {
          AClosedReach(start, goal, B, g, closed, p);
        }
      }
    }
    return None;
  }

  /** The neighbour loop of `astar`: relax every free in-grid neighbour of cur. */
  method AExpand(ghost start: Cell, goal: Cell, body: set<Cell>, cur: Cell, heap: multiset<Entry>, g: map<Cell, int>,
                 cameFrom: map<Cell, Cell>, ghost closed: set<Cell>, ghost W: map<Cell, seq<Cell>>)
    returns (heap': multiset<Entry>, g': map<Cell, int>, cameFrom': map<Cell, Cell>, ghost W': map<Cell, seq<Cell>>)
    requires AMid(start, goal, body - {goal}, cur, Neighbors(cur), heap, g, cameFrom, closed, W, 0)
    ensures AInv(start, goal, body - {goal}, heap', g', cameFrom', closed + {cur}, W')
  {
    var nbs := Neighbors(cur);
    heap', g', cameFrom', W' := heap, g, cameFrom, W;
    for k := 0 to |nbs|
      invariant AMid(start, goal, body - {goal}, cur, nbs, heap', g', cameFrom', closed, W', k)
    {
      heap', g', cameFrom', W' := Relax(start, goal, body, cur, nbs, k, heap', g', cameFrom', closed, W');
    }
    AExit(start, goal, body - {goal}, cur, nbs, heap', g', cameFrom', closed, W');
  }

  /** One neighbour of the loop: skip a body cell other than the goal, else take a shorter walk through cur. */
  method Relax(ghost start: Cell, goal: Cell, body: set<Cell>, cur: Cell, nbs: seq<Cell>, k: int,
               heap: multiset<Entry>, g: map<Cell, int>, cameFrom: map<Cell, Cell>, ghost closed: set<Cell>,
               ghost W: map<Cell, seq<Cell>>)
    returns (heap': multiset<Entry>, g': map<Cell, int>, cameFrom': map<Cell, Cell>, ghost W': map<Cell, seq<Cell>>)
    requires AMid(start, goal, body - {goal}, cur, nbs, heap, g, cameFrom, closed, W, k)
    requires nbs == Neighbors(cur) && k < |nbs|
    ensures AMid(start, goal, body - {goal}, cur, nbs, heap', g', cameFrom', closed, W', k + 1)
  {
    var nb := nbs[k];
    if nb in body && nb != goal {
      ANoUpdate(body - {goal}, g, cur, nbs, k);
      return heap, g, cameFrom, W;
    }
    var t := g[cur] + 1;
    if nb !in g || t < g[nb] {
      AUpdate(start, goal, body - {goal}, cur, nbs, heap, g, cameFrom, closed, W, k, nb, t);
      cameFrom' := cameFrom[nb := cur];
      g' := g[nb := t];
      W' := W[nb := W[cur] + [nb]];
      heap' := heap + multiset{(t + Heuristic(nb, goal), nb)};
    } else {
      ANoUpdate(body - {goal}, g, cur, nbs, k);
      heap', g', cameFrom', W' := heap, g, cameFrom, W;
    }
  }

  /** b is the recorded predecessor of a. */
  predicate ParentOf(cameFrom: map<Cell, Cell>, a: Cell, b: Cell)
  {
    a in cameFrom && cameFrom[a] == b
  }

  /** The reconstruction loop of `astar`: follow cameFrom back from the goal, then reverse. */
  method Reconstruct(ghost start: Cell, goal: Cell, ghost B: set<Cell>, ghost g: map<Cell, int>,
                     cameFrom: map<Cell, Cell>, ghost W: map<Cell, seq<Cell>>) returns (path: seq<Cell>)
    requires ATree(start, B, g, cameFrom, W) && goal in g
    ensures IsPath(path, start, goal, B) && |path| <= g[goal] + 1
  {
    var rev := [goal];
    while rev[|rev| - 1] in cameFrom
      invariant |rev| > 0 && rev[0] == goal && (forall i :: 0 <= i < |rev| ==> rev[i] in g)
      invariant forall i :: 0 < i < |rev| ==> ParentOf(cameFrom, rev[i - 1], rev[i])
      invariant g[Last(rev)] + |rev| - 1 <= g[goal]
      decreases g[Last(rev)]
    {
      assert |W[Last(rev)]| == g[Last(rev)] + 1;
      rev := rev + [cameFrom[rev[|rev| - 1]]];
    }
    path := Reversed(rev);
    assert Last(rev) == start;
    forall i | 0 < i < |path|
      ensures Adjacent(path[i - 1], path[i]) && Free(path[i], B)
    {
      var j := |rev| - i;
      assert path[i - 1] == rev[j] && path[i] == rev[j - 1];
    }
  }

  // ---------------------------------------------------------------------------------
  // The snake and the two agents built on it.
  // ---------------------------------------------------------------------------------

  /** A step between two cells: the difference the agents return as a direction. */
  function Minus(b: Cell, a: Cell): Cell
  {
    (b.0 - a.0, b.1 - a.1)
  }

  /** The step from a cell to an adjacent one is one of the four direction vectors. */
  lemma StepIsDirection(a: Cell, b: Cell)
    requires Adjacent(a, b)
    ensures Minus(b, a) in DIRECTIONS && Plus(a, Minus(b, a)) == b
  {
    AdjacentDirections(a, b);
  }

  /** Each body cell is a step away from the one before it. */
  predicate Contiguous(body: seq<Cell>)
  {
    forall i :: 0 < i < |body| ==> Adjacent(body[i - 1], body[i])
  }

  /** The body after `move`: the head advanced by d placed in front of the old body. */
  function Moved(body: seq<Cell>, d: Cell): seq<Cell>
    requires |body| > 0
  {
    [Plus(body[0], d)] + body
  }

  /** The body after `shrink`: the tail dropped, when there is one. */
  function Shrunk(body: seq<Cell>): seq<Cell>
  {
    if |body| > 0 then body[..|body| - 1] else body
  }

  /** `check_collision` on a non-empty body: the head is elsewhere in the body or off the board. */
  predicate Collides(body: seq<Cell>)
    requires |body| > 0
  {
    body[0] in body[1..] || !InGrid(body[0])
  }

  /** Moving by a direction vector and then shrinking keeps the length and a contiguous body. */
  lemma MoveShrink(body: seq<Cell>, k: int)
    requires |body| > 0 && Contiguous(body) && 0 <= k < |DIRECTIONS|
    ensures var b := Shrunk(Moved(body, DIRECTIONS[k]));
            |b| == |body| && Contiguous(b) && b[0] == Plus(body[0], DIRECTIONS[k])
            && b[1..] == body[..|body| - 1]
  {
    var m := Moved(body, DIRECTIONS[k]);
    DirectionAdjacent(body[0], k);
    assert forall i :: 0 < i < |m| ==> m[i] == body[i - 1];
    assert Shrunk(m)[1..] == body[..|body| - 1];
  }

  /**
   * Stepping onto a free cell next to the head, off the rest of the body, and then
   * shrinking never collides: what a path's first step promises.
   */
  lemma StepNoCollision(body: seq<Cell>, n: Cell)
    requires |body| > 0 && Adjacent(body[0], n) && InGrid(n) && n !in body[..|body| - 1]
    ensures var b := Shrunk(Moved(body, Minus(n, body[0])));
            |b| > 0 && b[0] == n && !Collides(b)
  {
    StepIsDirection(body[0], n);
    var b := Shrunk(Moved(body, Minus(n, body[0])));
    assert b[1..] == body[..|body| - 1];
  }

  /** The list-based snake of agent.py: cells head first, a direction vector and the path drawn for it. */
  class Snake {
    var body: seq<Cell>
    var direction: Cell
    var plannedPath: seq<Cell>

    /** Starts as one cell in the middle of the board, heading right, with nothing planned. */
    constructor ()
      ensures body == [(COLS / 2, ROWS / 2)] && direction == RIGHT && plannedPath == []
    {
      body := [(COLS / 2, ROWS / 2)];
      direction := RIGHT;
      plannedPath := [];
    }

    /** `move`: push the head advanced by the direction; an empty body raises IndexError. */
    method Move() returns (r: Outcome)
      modifies this
      ensures old(body) == [] ==> r == Fail(IndexError) && body == old(body)
      ensures old(body) != [] ==> r == Pass && body == Moved(old(body), direction)
      ensures direction == old(direction) && plannedPath == old(plannedPath)
    {
      if body == [] {
        return Fail(IndexError);
      }
      var head := body[0];
      body := [(head.0 + direction.0, head.1 + direction.1)] + body;
      return Pass;
    }

    /** `shrink`: drop the tail when there is one. */
    method Shrink()
      modifies this
      ensures body == Shrunk(old(body))
      ensures direction == old(direction) && plannedPath == old(plannedPath)
    {
      if |body| > 0 {
        body := body[..|body| - 1];
      }
    }

    /** `set_direction`. */
    method SetDirection(newDir: Cell)
      modifies this
      ensures direction == newDir && body == old(body) && plannedPath == old(plannedPath)
    {
      direction := newDir;
    }

    /** `check_collision`: an empty body raises IndexError. */
    function CheckCollision(): (r: Result<bool>)
      reads this
      ensures body == [] <==> r == Failure(IndexError)
      ensures body != [] ==> r.Success? && (r.value <==> Collides(body))
      ensures r == Success(false) ==> InGrid(body[0]) && forall i :: 0 < i < |body| ==> body[i] != body[0]
    {
      if body == [] then Failure(IndexError)
      else
        var head := body[0];
        if head in body[1..] then Success(true)
        else if head.0 < 0 || head.0 >= COLS || head.1 < 0 || head.1 >= ROWS then Success(true)
        else
          assert forall i :: 0 < i < |body| ==> body[i] == body[1..][i - 1];
          Success(false)
    }
  }

  /** `AStarAgent`: a snake that steers by A* toward the food. */
  class AStarAgent {
    const snake: Snake

    constructor ()
      ensures fresh(snake) && snake.body == [(COLS / 2, ROWS / 2)] && snake.direction == RIGHT && snake.plannedPath == []
    {
      snake := new Snake();
    }

    /**
     * `compute`: the first step of an A* path from head to food around the given snake
     * cells, recording the rest of the path as planned; None, with nothing planned, when
     * there is no path or head already is the food.
     */
    method Compute(head: Cell, food: Cell, cells: seq<Cell>) returns (r: Option<Cell>, path: Option<seq<Cell>>)
      modifies snake
      ensures SearchSpec(head, food, (set c | c in cells) - {food}, path)
      ensures r.Some? <==> path.Some? && |path.value| > 1
      ensures r.Some? ==> r.value in DIRECTIONS && r.value == Minus(path.value[1], head)
                          && snake.plannedPath == path.value[1..]
      ensures r.None? ==> snake.plannedPath == []
      ensures snake.body == old(snake.body) && snake.direction == old(snake.direction)
    {
      path := AStar(head, food, (set c | c in cells));
      if path.Some? && |path.value| > 0 {
        snake.plannedPath := path.value[1..];
        if |path.value| > 1 {
          var next := path.value[1];
          assert Adjacent(path.value[0], next);
          StepIsDirection(head, next);
          return Some((next.0 - head.0, next.1 - head.1)), path;
        }
      }
      snake.plannedPath := [];
      return None, path;
    }
  }

  /** `BFSAgent`: a snake that steers by breadth-first search toward the food. */
  class BfsAgent {
    const snake: Snake

    constructor ()
      ensures fresh(snake) && snake.body == [(COLS / 2, ROWS / 2)] && snake.direction == RIGHT && snake.plannedPath == []
    {
      snake := new Snake();
    }

    /**
     * `compute`: the first step of a shortest path from head to food around the given
     * snake cells, recording the rest as planned; the current direction, with nothing
     * planned, when there is no path or head already is the food.
     */
    method Compute(head: Cell, food: Cell, cells: seq<Cell>) returns (r: Cell, path: Option<seq<Cell>>)
      modifies snake
      ensures SearchSpec(head, food, (set c | c in cells), path)
      ensures path.Some? && |path.value| > 1 ==>
                r in DIRECTIONS && r == Minus(path.value[1], head) && snake.plannedPath == path.value[1..]
      ensures !(path.Some? && |path.value| > 1) ==> r == old(snake.direction) && snake.plannedPath == []
      ensures snake.body == old(snake.body) && snake.direction == old(snake.direction)
    {
      path := Bfs(head, food, (set c | c in cells));
      if path.Some? && |path.value| > 1 {
        snake.plannedPath := path.value[1..];
        var next := path.value[1];
        assert Adjacent(path.value[0], next);
        StepIsDirection(head, next);
        return (next.0 - head.0, next.1 - head.1), path;
      }
      snake.plannedPath := [];
      return snake.direction, path;
    }
  }
}
