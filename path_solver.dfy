/**
 * The path solver of solver/path.py: a breadth-first shortest path over a per-cell
 * scratch table, and the "longest path" heuristic that splices perpendicular
 * zig-zags into it.
 */
module PathSolving {
  import opened Common
  import opened Directions
  import opened Points
  import opened Positions
  import opened Board
  import opened Snakes
  import opened SolverBase

  /** `sys.maxsize`, the table's "not reached" distance. */
  const MAXSIZE: int := 0x7fff_ffff_ffff_ffff

  /** `_TableCell`: the BFS parent and distance, and the longest-path visit mark. */
  datatype TableCell = TableCell(parent: Option<Pos>, dist: int, visit: bool)

  /** A cell after `_TableCell.reset`. */
  const RESET_CELL: TableCell := TableCell(None, MAXSIZE, false)

  type Table = seq<seq<TableCell>>

  /** The table has the board's dimensions. */
  predicate Fits(g: Grid, t: Table)
  {
    |t| == g.numRows && forall i :: 0 <= i < |t| ==> |t[i]| == g.numCols
  }

  /** The cell at p; positions off the table read as a reset cell. */
  function Cell(t: Table, p: Pos): TableCell
  {
    if 0 <= p.x < |t| && 0 <= p.y < |t[p.x]| then t[p.x][p.y] else RESET_CELL
  }

  function Dist(t: Table, p: Pos): int
  {
    Cell(t, p).dist
  }

  /** The BFS has given p a distance. */
  predicate Seen(t: Table, p: Pos)
  {
    Dist(t, p) != MAXSIZE
  }

  predicate Visited(t: Table, p: Pos)
  {
    Cell(t, p).visit
  }

  /** The table with the cell at p replaced. */
  function Update(t: Table, p: Pos, c: TableCell): (u: Table)
    requires 0 <= p.x < |t| && 0 <= p.y < |t[p.x]|
    ensures |u| == |t| && forall i :: 0 <= i < |t| ==> |u[i]| == |t[i]|
    ensures Cell(u, p) == c
    ensures forall q :: q != p ==> Cell(u, q) == Cell(t, q)
  {
    t[p.x := t[p.x][p.y := c]]
  }

  /** The table after the search reaches pos from cur at distance d. */
  function Reached(t: Table, cur: Pos, pos: Pos, d: int): (u: Table)
    requires 0 <= pos.x < |t| && 0 <= pos.y < |t[pos.x]|
    ensures |u| == |t| && forall i :: 0 <= i < |t| ==> |u[i]| == |t[i]|
    ensures Cell(u, pos) == TableCell(Some(cur), d, Cell(t, pos).visit)
    ensures forall q :: q != pos ==> Cell(u, q) == Cell(t, q)
  {
    Update(t, pos, Cell(t, pos).(parent := Some(cur), dist := d))
  }

  /** No cell carries a visit mark. */
  predicate NoVisits(t: Table)
  {
    forall i, j :: 0 <= i < |t| && 0 <= j < |t[i]| ==> !t[i][j].visit
  }

  /** A path from s whose every step is a real move onto a safe cell. */
  predicate SafePath(g: Grid, s: Pos, path: seq<Direc>)
    requires g.WellFormed()
  {
    (forall i :: 0 <= i < |path| ==> IsMove(path[i]))
    && (forall i :: 0 < i <= |path| ==> g.IsSafe(Walk(s, path)[i]))
  }

  /** A safe path from s that ends at des. */
  predicate SafePathTo(g: Grid, s: Pos, path: seq<Direc>, des: Pos)
    requires g.WellFormed()
  {
    SafePath(g, s, path) && Replay(s, path) == des
  }

  ghost predicate Reachable(g: Grid, s: Pos, des: Pos)
    requires g.WellFormed()
  {
    exists path :: SafePathTo(g, s, path, des)
  }

  /**
   * What `shortest_path_to` promises: a path of least length when des is reachable,
   * the empty path when it is not, and a path that never revisits a cell.
   */
  ghost predicate ShortestSpec(g: Grid, s: Pos, des: Pos, r: seq<Direc>)
    requires g.WellFormed()
  {
    (Reachable(g, s, des) ==> SafePathTo(g, s, r, des) && forall p :: SafePathTo(g, s, p, des) ==> |r| <= |p|)
    && (!Reachable(g, s, des) ==> r == [])
    && Distinct(Walk(s, r))
  }

  /**
   * What `longest_path_to` promises, given the shortest path sp it starts from: empty
   * exactly when sp is; otherwise a path to des over distinct cells, at least as long
   * as sp and longer by an even number of steps.
   */
  ghost predicate LongestSpec(g: Grid, s: Pos, des: Pos, r: seq<Direc>, sp: seq<Direc>)
    requires g.WellFormed()
  {
    ShortestSpec(g, s, des, sp)
    && (sp == [] ==> r == [])
    && (sp != [] ==> SafePathTo(g, s, r, des) && Distinct(Walk(s, r)) && |r| >= |sp| && (|r| - |sp|) % 2 == 0)
  }

  /** The two searches `path_to` dispatches on. */
  datatype PathType = Shortest | Longest

  /**
   * What `path_to` promises: the chosen search's promise on the board in which des's
   * cell is EMPTY. For the shortest search sp is the result itself.
   */
  ghost predicate PathSpec(g: Grid, s: Pos, des: Pos, kind: PathType, path: seq<Direc>, sp: seq<Direc>)
    requires g.WellFormed() && g.InBounds(des)
  {
    var h := g.SetAt(des, EMPTY);
    (kind == Shortest ==> ShortestSpec(h, s, des, path) && sp == path)
    && (kind == Longest ==> LongestSpec(h, s, des, path, sp))
  }

  /** What `longest_path_to_tail` promises on board g for a snake with the given body. */
  ghost predicate TailSpec(g: Grid, bodies: seq<Pos>, path: seq<Direc>, sp: seq<Direc>)
    requires g.WellFormed() && |bodies| > 0
  {
    g.InBounds(bodies[|bodies| - 1]) && PathSpec(g, bodies[0], bodies[|bodies| - 1], Longest, path, sp)
  }

  /** What `shortest_path_to_food` promises: towards the food if there is any, else as for the tail. */
  ghost predicate FoodSpec(g: Grid, bodies: seq<Pos>, path: seq<Direc>, sp: seq<Direc>)
    requires g.WellFormed() && |bodies| > 0
  {
    (g.food.Some? ==> g.InBounds(g.food.value) && PathSpec(g, bodies[0], g.food.value, Shortest, path, sp))
    && (g.food.None? ==> TailSpec(g, bodies, path, sp))
  }

  /** The shortest result is empty exactly when des is unreachable or already the start. */
  lemma ShortestEmptyIff(g: Grid, s: Pos, des: Pos, r: seq<Direc>)
    requires g.WellFormed() && ShortestSpec(g, s, des, r)
    ensures r == [] <==> !Reachable(g, s, des) || des == s
  {
    if des == s {
      assert SafePathTo(g, s, [], des);
    }
  }

  /**
   * A longest result is never empty unless the shortest one is, and is at least as long
   * as every shortest safe path to des.
   */
  lemma LongestNotShorter(g: Grid, s: Pos, des: Pos, r: seq<Direc>, sp: seq<Direc>)
    requires g.WellFormed() && LongestSpec(g, s, des, r, sp)
    ensures r == [] <==> sp == []
    ensures forall p :: SafePathTo(g, s, p, des) && (forall q :: SafePathTo(g, s, q, des) ==> |p| <= |q|) ==> |p| <= |r|
  {
    forall p | SafePathTo(g, s, p, des) && (forall q :: SafePathTo(g, s, q, des) ==> |p| <= |q|)
      ensures |p| <= |r|
    {
      assert Reachable(g, s, des);
      assert |p| <= |sp|;
    }
  }

  /** SafePath unfolds one step at a time. */
  lemma SafePathCons(g: Grid, s: Pos, path: seq<Direc>)
    requires g.WellFormed() && path != []
    ensures SafePath(g, s, path) <==>
              IsMove(path[0]) && g.IsSafe(Adj(s, path[0])) && SafePath(g, Adj(s, path[0]), path[1..])
  {
    var n := Adj(s, path[0]);
    assert Walk(s, path) == [s] + Walk(n, path[1..]);
    if SafePath(g, s, path) {
      forall i | 0 < i <= |path[1..]|
        ensures g.IsSafe(Walk(n, path[1..])[i])
      {
        assert Walk(s, path)[i + 1] == Walk(n, path[1..])[i];
      }
      forall i | 0 <= i < |path[1..]|
        ensures IsMove(path[1..][i])
      {
        assert path[1..][i] == path[i + 1];
      }
      assert Walk(s, path)[1] == n;
    }
    if IsMove(path[0]) && g.IsSafe(n) && SafePath(g, n, path[1..]) {
      forall i | 0 < i <= |path|
        ensures g.IsSafe(Walk(s, path)[i])
      {
        if i > 1 {
          assert Walk(s, path)[i] == Walk(n, path[1..])[i - 1];
        }
      }
      forall i | 0 <= i < |path|
        ensures IsMove(path[i])
      {
        if i > 0 {
          assert path[i] == path[1..][i - 1];
        }
      }
    }
  }

  /** Positions of a row-major board that lie in one row number at most `cols` of them. */
  lemma {:induction false} RowBound(s: set<Pos>, x: int, cols: int)
    requires cols >= 0
    requires forall p :: p in s ==> p.x == x && 0 <= p.y < cols
    ensures |s| <= cols
    decreases cols
  {
    if cols == 0 {
      assert s == {};
    } else {
      var last := Pos(x, cols - 1);
      var rest := s - {last};
      RowBound(rest, x, cols - 1);
      assert s <= rest + {last};
    }
  }

  /** A set of in-bounds positions has at most rows * cols elements. */
  lemma {:induction false} CellsBound(s: set<Pos>, rows: int, cols: int)
    requires rows >= 0 && cols >= 0
    requires forall p :: p in s ==> 0 <= p.x < rows && 0 <= p.y < cols
    ensures |s| <= rows * cols
    decreases rows
  {
    if rows == 0 {
      assert s == {};
    } else {
      var last := set p | p in s && p.x == rows - 1;
      CellsBound(s - last, rows - 1, cols);
      RowBound(last, rows - 1, cols);
      SplitCard(s, last);
      MulSucc(rows, cols);
    }
  }

  /** Taking a subset out of a set leaves the difference in cardinality. */
  lemma SplitCard(s: set<Pos>, a: set<Pos>)
    requires a <= s
    ensures |s| == |s - a| + |a|
  {
    assert s == (s - a) + a && (s - a) * a == {};
  }

  lemma MulSucc(rows: int, cols: int)
    ensures (rows - 1) * cols + cols == rows * cols
  {
  }

  /** A sequence without repetitions has as many distinct elements as it is long. */
  lemma {:induction false} DistinctCard(s: seq<Pos>)
    requires Distinct(s)
    ensures |set i | 0 <= i < |s| :: s[i]| == |s|
    decreases |s|
  {
    if s != [] {
      var init := s[..|s| - 1];
      DistinctCard(init);
      var a := set i | 0 <= i < |init| :: init[i];
      var b := set i | 0 <= i < |s| :: s[i];
      assert b == a + {s[|s| - 1]} by {
        forall x | x in b ensures x in a + {s[|s| - 1]} {
          var i :| 0 <= i < |s| && s[i] == x;
          if i < |s| - 1 {
            assert init[i] == x;
          }
        }
        forall x | x in a ensures x in b {
          var i :| 0 <= i < |init| && init[i] == x;
          assert s[i] == x;
        }
      }
      forall i | 0 <= i < |init|
        ensures init[i] != s[|s| - 1]
      {
        assert init[i] == s[i];
      }
    }
  }

  /** A sequence of distinct in-bounds positions is no longer than the board has cells. */
  lemma DistinctBound(s: seq<Pos>, rows: int, cols: int)
    requires rows >= 0 && cols >= 0 && Distinct(s)
    requires forall i :: 0 <= i < |s| ==> 0 <= s[i].x < rows && 0 <= s[i].y < cols
    ensures |s| <= rows * cols
  {
    DistinctCard(s);
    CellsBound(set i | 0 <= i < |s| :: s[i], rows, cols);
  }

  // ---------------------------------------------------------------------------------
  // The breadth-first search invariant. E holds the expanded cells, Q the queue.
  // ---------------------------------------------------------------------------------

  /** Every reached cell other than the start has a reached parent one step closer and is safe. */
  ghost predicate ParentsSound(g: Grid, t: Table, head: Pos)
    requires g.WellFormed()
  {
    Dist(t, head) == 0
    && (forall p :: Seen(t, p) ==> 0 <= Dist(t, p) < MAXSIZE)
    && (forall p :: Seen(t, p) && p != head ==> ParentOk(g, t, p))
  }

  ghost predicate ParentOk(g: Grid, t: Table, p: Pos)
    requires g.WellFormed()
  {
    var c := Cell(t, p);
    c.parent.Some? && c.dist == Dist(t, c.parent.value) + 1
    && ManhattanDist(c.parent.value, p) == 1 && g.IsSafe(p)
  }

  /** The reached cells are the expanded ones plus the queued ones, which are distinct and unexpanded. */
  ghost predicate Partition(t: Table, E: set<Pos>, Q: seq<Pos>)
  {
    (forall p :: Seen(t, p) <==> p in E || p in Q)
    && (forall i :: 0 <= i < |Q| ==> Q[i] !in E)
    && Distinct(Q)
  }

  /** Queue distances are sorted, span at most one, and no expanded cell is farther. */
  ghost predicate Layered(t: Table, E: set<Pos>, Q: seq<Pos>)
  {
    (forall i, j :: 0 <= i < j < |Q| ==> Dist(t, Q[i]) <= Dist(t, Q[j]))
    && (forall i :: 0 <= i < |Q| ==> Dist(t, Q[i]) <= Dist(t, Q[0]) + 1)
    && (forall e, i :: e in E && 0 <= i < |Q| ==> Dist(t, e) <= Dist(t, Q[i]))
  }

  /** Every safe neighbour of an expanded cell is reached, at most one step farther. */
  ghost predicate Closed(g: Grid, t: Table, E: set<Pos>)
    requires g.WellFormed()
  {
    forall e, d :: e in E && IsMove(d) && g.IsSafe(Adj(e, d)) ==>
      Seen(t, Adj(e, d)) && Dist(t, Adj(e, d)) <= Dist(t, e) + 1
  }

  /** No reached distance exceeds the number of expanded cells. */
  ghost predicate Bounded(t: Table, E: set<Pos>)
  {
    forall p :: Seen(t, p) ==> Dist(t, p) <= |E|
  }

  ghost predicate BfsInv(g: Grid, t: Table, head: Pos, des: Pos, E: set<Pos>, Q: seq<Pos>)
    requires g.WellFormed()
  {
    Fits(g, t) && NoVisits(t) && ParentsSound(g, t, head) && Partition(t, E, Q) && Layered(t, E, Q)
    && Closed(g, t, E) && Bounded(t, E)
    && (E == {} ==> Q == [head]) && (E != {} ==> head in E) && des !in E
  }

  /**
   * Any safe path that leaves the expanded set is at least as long as the distance of
   * the queue's front, counted from where it starts.
   */
  lemma {:induction false} FrontierBound(g: Grid, t: Table, E: set<Pos>, Q: seq<Pos>, s: Pos, path: seq<Direc>)
    requires g.WellFormed() && Partition(t, E, Q) && Layered(t, E, Q) && Closed(g, t, E) && |Q| > 0
    requires s in E && SafePath(g, s, path) && Replay(s, path) !in E
    ensures Dist(t, Q[0]) <= Dist(t, s) + |path|
    decreases |path|
  {
    assert path != [];
    var n := Adj(s, path[0]);
    SafePathCons(g, s, path);
    ReplayCons(s, path);
    if n in E {
      FrontierBound(g, t, E, Q, n, path[1..]);
    } else {
      var j :| 0 <= j < |Q| && Q[j] == n;
      if j > 0 {
        assert Dist(t, Q[0]) <= Dist(t, Q[j]);
      }
    }
  }

  /** With an empty queue the expanded set is closed: every safe path from it stays in it. */
  lemma {:induction false} ClosedReach(g: Grid, t: Table, E: set<Pos>, s: Pos, path: seq<Direc>)
    requires g.WellFormed() && Partition(t, E, []) && Closed(g, t, E)
    requires s in E && SafePath(g, s, path)
    ensures Replay(s, path) in E
    decreases |path|
  {
    if path != [] {
      SafePathCons(g, s, path);
      ReplayCons(s, path);
      ClosedReach(g, t, E, Adj(s, path[0]), path[1..]);
    }
  }

  /** The search invariant in the middle of expanding cur, whose distance is dc. */
  ghost predicate Mid(g: Grid, t: Table, head: Pos, des: Pos, E: set<Pos>, cur: Pos, dc: int, q: seq<Pos>)
    requires g.WellFormed()
  {
    Fits(g, t) && NoVisits(t) && Dist(t, cur) == dc && Seen(t, cur) && cur != des && des !in E && cur !in E
    && dc <= |E| && dc + 1 < MAXSIZE
    && ParentsSound(g, t, head) && Partition(t, E + {cur}, q)
    && (forall i :: 0 <= i < |q| ==> dc <= Dist(t, q[i]) <= dc + 1)
    && (forall i, j :: 0 <= i < j < |q| ==> Dist(t, q[i]) <= Dist(t, q[j]))
    && (forall e :: e in E ==> Dist(t, e) <= dc)
    && (forall p :: Seen(t, p) ==> Dist(t, p) <= dc + 1 && Dist(t, p) <= |E| + 1)
    && Closed(g, t, E)
    && (E == {} ==> cur == head) && (E != {} ==> head in E)
  }

  /** Dequeuing cur: the rest of the queue lies within one step of cur's distance. */
  lemma EntryQueue(t: Table, E: set<Pos>, cur: Pos, queue: seq<Pos>)
    requires Partition(t, E, [cur] + queue) && Layered(t, E, [cur] + queue)
    ensures cur !in E && Seen(t, cur) && Partition(t, E + {cur}, queue)
    ensures forall i :: 0 <= i < |queue| ==> Dist(t, cur) <= Dist(t, queue[i]) <= Dist(t, cur) + 1
    ensures forall i, j :: 0 <= i < j < |queue| ==> Dist(t, queue[i]) <= Dist(t, queue[j])
    ensures forall e :: e in E ==> Dist(t, e) <= Dist(t, cur)
    ensures forall p :: Seen(t, p) ==> Dist(t, p) <= Dist(t, cur) + 1
  {
    var Q0 := [cur] + queue;
    assert Q0[0] == cur;
    forall i | 0 <= i < |queue|
      ensures Dist(t, cur) <= Dist(t, queue[i]) <= Dist(t, cur) + 1 && queue[i] !in E + {cur}
    {
      assert queue[i] == Q0[i + 1];
    }
    forall i, j | 0 <= i < j < |queue|
      ensures Dist(t, queue[i]) <= Dist(t, queue[j]) && queue[i] != queue[j]
    {
      assert queue[i] == Q0[i + 1] && queue[j] == Q0[j + 1];
    }
    forall p | Seen(t, p)
      ensures Dist(t, p) <= Dist(t, cur) + 1
    {
      if p !in E && p != cur {
        var i :| 0 <= i < |Q0| && Q0[i] == p;
      }
    }
  }

  /** Expanding one more cell cannot exceed the board's cell count. */
  lemma EntryBound(g: Grid, t: Table, E: set<Pos>, cur: Pos)
    requires Fits(g, t) && g.numRows >= 0 && g.numCols >= 0
    requires forall p :: p in E ==> Seen(t, p)
    requires Seen(t, cur) && cur !in E
    ensures |E| + 1 <= g.numRows * g.numCols
  {
    forall p | p in E + {cur}
      ensures 0 <= p.x < g.numRows && 0 <= p.y < g.numCols
    {
      assert Seen(t, p);
    }
    CellsBound(E + {cur}, g.numRows, g.numCols);
    assert |E + {cur}| == |E| + 1;
  }

  /** Dequeuing cur from a state satisfying the invariant starts its expansion. */
  lemma ExpandEntry(g: Grid, t: Table, head: Pos, des: Pos, E: set<Pos>, cur: Pos, queue: seq<Pos>)
    requires g.WellFormed() && BfsInv(g, t, head, des, E, [cur] + queue) && cur != des
    requires g.numRows * g.numCols < MAXSIZE
    ensures Mid(g, t, head, des, E, cur, Dist(t, cur), queue)
  {
    EntryQueue(t, E, cur, queue);
    EntryBound(g, t, E, cur);
    assert ([cur] + queue)[0] == cur;
  }

  /** Giving pos (unreached, safe, next to cur) the parent cur keeps every parent record sound. */
  lemma StepParents(g: Grid, t: Table, head: Pos, cur: Pos, dc: int, pos: Pos)
    requires g.WellFormed() && ParentsSound(g, t, head) && Seen(t, cur) && Dist(t, cur) == dc && dc + 1 < MAXSIZE
    requires ManhattanDist(cur, pos) == 1 && g.IsSafe(pos) && !Seen(t, pos)
    requires 0 <= pos.x < |t| && 0 <= pos.y < |t[pos.x]|
    ensures ParentsSound(g, Reached(t, cur, pos, dc + 1), head)
  {
    var u := Reached(t, cur, pos, dc + 1);
    assert ParentOk(g, u, pos);
    assert head != pos && Dist(u, head) == 0;
    assert 0 <= dc;
    forall p | Seen(u, p)
      ensures 0 <= Dist(u, p) < MAXSIZE
    {
      if p != pos {
        assert Cell(u, p) == Cell(t, p);
        assert Seen(t, p);
      } else {
        assert Dist(u, p) == dc + 1;
      }
    }
    forall p | Seen(u, p) && p != head
      ensures ParentOk(g, u, p)
    {
      if p != pos {
        assert Cell(u, p) == Cell(t, p);
        assert Seen(t, p);
        assert ParentOk(g, t, p);
        var par := Cell(t, p).parent.value;
        assert Dist(t, p) < MAXSIZE;
        assert Dist(t, par) < MAXSIZE;
        assert par != pos;
        assert Dist(u, par) == Dist(t, par);
      }
    }
  }

  /** Queueing pos keeps the partition and the queue's distance layout. */
  lemma StepQueue(t: Table, E: set<Pos>, cur: Pos, dc: int, q: seq<Pos>, pos: Pos)
    requires Partition(t, E + {cur}, q) && !Seen(t, pos) && Seen(t, cur) && dc + 1 < MAXSIZE
    requires forall i :: 0 <= i < |q| ==> dc <= Dist(t, q[i]) <= dc + 1
    requires forall i, j :: 0 <= i < j < |q| ==> Dist(t, q[i]) <= Dist(t, q[j])
    requires 0 <= pos.x < |t| && 0 <= pos.y < |t[pos.x]|
    ensures var u := Reached(t, cur, pos, dc + 1);
            var q' := q + [pos];
            Partition(u, E + {cur}, q')
            && (forall i :: 0 <= i < |q'| ==> dc <= Dist(u, q'[i]) <= dc + 1)
            && (forall i, j :: 0 <= i < j < |q'| ==> Dist(u, q'[i]) <= Dist(u, q'[j]))
  {
    var u := Reached(t, cur, pos, dc + 1);
    var q' := q + [pos];
    assert pos !in q && pos !in E && pos != cur;
    forall p | Seen(u, p)
      ensures p in E + {cur} || p in q'
    {
      if p != pos {
        assert Seen(t, p);
      }
    }
    forall p | p in E + {cur} || p in q'
      ensures Seen(u, p)
    {
      if p != pos {
        assert p in E + {cur} || p in q;
        assert Seen(t, p);
        assert Cell(u, p) == Cell(t, p);
      }
    }
    forall i | 0 <= i < |q'|
      ensures dc <= Dist(u, q'[i]) <= dc + 1 && q'[i] !in E + {cur}
    {
      if i < |q| {
        assert q'[i] == q[i];
      }
    }
    forall i, j | 0 <= i < j < |q'|
      ensures Dist(u, q'[i]) <= Dist(u, q'[j]) && q'[i] != q'[j]
    {
      if j < |q| {
        assert q'[i] == q[i] && q'[j] == q[j];
      } else {
        assert q'[i] == q[i];
      }
    }
  }

  /** Reaching a new safe neighbour pos of cur, and queueing it, keeps the invariant. */
  lemma ExpandStep(g: Grid, t: Table, head: Pos, des: Pos, E: set<Pos>, cur: Pos, dc: int, q: seq<Pos>, pos: Pos)
    requires g.WellFormed() && Mid(g, t, head, des, E, cur, dc, q)
    requires ManhattanDist(cur, pos) == 1 && g.IsSafe(pos) && !Seen(t, pos)
    ensures 0 <= pos.x < |t| && 0 <= pos.y < |t[pos.x]|
    ensures var u := Reached(t, cur, pos, dc + 1);
            Mid(g, u, head, des, E, cur, dc, q + [pos]) && forall p :: Seen(t, p) ==> Seen(u, p)
  {
    var u := Reached(t, cur, pos, dc + 1);
    StepParents(g, t, head, cur, dc, pos);
    StepQueue(t, E, cur, dc, q, pos);
    ReachedNoVisits(t, cur, pos, dc + 1);
  }

  /** Reaching a cell leaves the visit marks as they were. */
  lemma ReachedNoVisits(t: Table, cur: Pos, pos: Pos, d: int)
    requires 0 <= pos.x < |t| && 0 <= pos.y < |t[pos.x]| && NoVisits(t)
    ensures NoVisits(Reached(t, cur, pos, d))
  {
    var u: Table := Reached(t, cur, pos, d);
    forall i, j | 0 <= i < |u| && 0 <= j < |u[i]|
      ensures !u[i][j].visit
    {
      assert u[i][j] == Cell(u, Pos(i, j)) && t[i][j] == Cell(t, Pos(i, j));
    }
  }

  /** Once every safe neighbour of cur is reached, cur counts as expanded. */
  lemma ExpandExit(g: Grid, t: Table, head: Pos, des: Pos, E: set<Pos>, cur: Pos, dc: int, q: seq<Pos>)
    requires g.WellFormed() && Mid(g, t, head, des, E, cur, dc, q)
    requires forall d :: IsMove(d) && g.IsSafe(Adj(cur, d)) ==> Seen(t, Adj(cur, d))
    ensures BfsInv(g, t, head, des, E + {cur}, q)
  {
    forall e, d | e in E + {cur} && IsMove(d) && g.IsSafe(Adj(e, d))
      ensures Seen(t, Adj(e, d)) && Dist(t, Adj(e, d)) <= Dist(t, e) + 1
    {
    }
    assert |E + {cur}| == |E| + 1 by {
      assert cur !in E;
    }
    if |q| > 0 {
      forall i | 0 <= i < |q|
        ensures Dist(t, q[i]) <= Dist(t, q[0]) + 1
      {
      }
    }
  }

  /** A safe neighbour the search has neither visited nor reached yet. */
  predicate Reaches(g: Grid, t: Table, pos: Pos)
    requires g.WellFormed()
  {
    g.IsSafe(pos) && !Visited(t, pos) && !Seen(t, pos)
  }

  /** The table after one pass of the neighbour loop reaches pos from cur at distance d. */
  ghost function VisitTable(g: Grid, t: Table, cur: Pos, pos: Pos, d: int): Table
    requires g.WellFormed() && Fits(g, t)
  {
    if Reaches(g, t, pos) then Reached(t, cur, pos, d) else t
  }

  /** The queue after one pass of the neighbour loop. */
  ghost function VisitQueue(g: Grid, t: Table, pos: Pos, q: seq<Pos>): seq<Pos>
    requires g.WellFormed()
  {
    if Reaches(g, t, pos) then q + [pos] else q
  }

  /** The cell being expanded lies on the table. */
  lemma VisitBounds(g: Grid, t: Table, head: Pos, des: Pos, E: set<Pos>, cur: Pos, dc: int, q: seq<Pos>)
    requires g.WellFormed() && Mid(g, t, head, des, E, cur, dc, q)
    ensures 0 <= cur.x < |t| && 0 <= cur.y < |t[cur.x]|
  {
  }

  /** Reaching a new neighbour pos from cur keeps the search invariant with pos queued. */
  lemma VisitReach(g: Grid, t: Table, head: Pos, des: Pos, E: set<Pos>, cur: Pos, dc: int, q: seq<Pos>, pos: Pos)
    requires g.WellFormed() && pos in AllAdj(cur, MOVES) && Reaches(g, t, pos)
    requires Mid(g, t, head, des, E, cur, dc, q)
    ensures Mid(g, VisitTable(g, t, cur, pos, dc + 1), head, des, E, cur, dc, VisitQueue(g, t, pos, q))
  {
    MovesNeighbours(cur, pos);
    ExpandStep(g, t, head, des, E, cur, dc, q, pos);
  }

  /** One pass of the neighbour loop keeps the search invariant. */
  lemma VisitKeeps(g: Grid, t: Table, head: Pos, des: Pos, E: set<Pos>, cur: Pos, dc: int, q: seq<Pos>, pos: Pos)
    requires g.WellFormed() && pos in AllAdj(cur, MOVES) && Mid(g, t, head, des, E, cur, dc, q)
    ensures Mid(g, VisitTable(g, t, cur, pos, dc + 1), head, des, E, cur, dc, VisitQueue(g, t, pos, q))
  {
    if Reaches(g, t, pos) {
      VisitReach(g, t, head, des, E, cur, dc, q, pos);
    }
  }

  /** Reaching a cell at a real distance keeps every reached cell reached and reaches it. */
  lemma ReachedSeen(t: Table, cur: Pos, pos: Pos, d: int)
    requires 0 <= pos.x < |t| && 0 <= pos.y < |t[pos.x]| && d != MAXSIZE
    ensures forall p :: Seen(t, p) ==> Seen(Reached(t, cur, pos, d), p)
    ensures Seen(Reached(t, cur, pos, d), pos)
  {
    var u: Table := Reached(t, cur, pos, d);
    forall p | Seen(t, p)
      ensures Seen(u, p)
    {
      if p != pos {
        assert Cell(u, p) == Cell(t, p);
      }
    }
  }

  /** After one pass of the neighbour loop every safe cell among the neighbours handled so far is reached. */
  lemma VisitCovers(g: Grid, t: Table, cur: Pos, dc: int, adjs: seq<Pos>, k: nat)
    requires g.WellFormed() && Fits(g, t) && NoVisits(t) && dc + 1 < MAXSIZE && k < |adjs|
    requires Covered(g, t, adjs[..k])
    ensures Covered(g, VisitTable(g, t, cur, adjs[k], dc + 1), adjs[..k + 1])
  {
    var pos := adjs[k];
    if Reaches(g, t, pos) {
      ReachedSeen(t, cur, pos, dc + 1);
    } else if g.IsSafe(pos) {
      assert t[pos.x][pos.y] == Cell(t, pos);
    }
    CoveredStep(g, t, VisitTable(g, t, cur, pos, dc + 1), adjs[..k], pos);
    assert adjs[..k + 1] == adjs[..k] + [pos];
  }

  /** Every safe cell in done is reached. */
  ghost predicate Covered(g: Grid, t: Table, done: seq<Pos>)
    requires g.WellFormed()
  {
    forall m :: 0 <= m < |done| && g.IsSafe(done[m]) ==> Seen(t, done[m])
  }

  /** Reaching more cells, and pos if it is safe, extends the coverage by pos. */
  lemma CoveredStep(g: Grid, t: Table, u: Table, done: seq<Pos>, pos: Pos)
    requires g.WellFormed() && Covered(g, t, done)
    requires forall p :: Seen(t, p) ==> Seen(u, p)
    requires g.IsSafe(pos) ==> Seen(u, pos)
    ensures Covered(g, u, done + [pos])
  {
    forall m | 0 <= m < |done + [pos]| && g.IsSafe((done + [pos])[m])
      ensures Seen(u, (done + [pos])[m])
    {
      if m < |done| {
        assert (done + [pos])[m] == done[m];
      }
    }
  }

  lemma NeighboursSeen(g: Grid, t: Table, cur: Pos, adjs: seq<Pos>)
    requires g.WellFormed() && multiset(adjs) == multiset(AllAdj(cur, MOVES)) && Covered(g, t, adjs)
    ensures forall d :: IsMove(d) && g.IsSafe(Adj(cur, d)) ==> Seen(t, Adj(cur, d))
  {
    forall d | IsMove(d) && g.IsSafe(Adj(cur, d))
      ensures Seen(t, Adj(cur, d))
    {
      MovesNeighbours(cur, Adj(cur, d));
      assert Adj(cur, d) in multiset(adjs);
      var m :| 0 <= m < |adjs| && adjs[m] == Adj(cur, d);
    }
  }

  /** The table right after `shortest_path_to` gives the head distance 0 satisfies the invariant. */
  lemma BfsStart(g: Grid, t: Table, head: Pos, des: Pos)
    requires g.WellFormed() && Fits(g, t) && g.InBounds(head)
    requires Cell(t, head) == RESET_CELL.(dist := 0)
    requires forall p :: p != head ==> Cell(t, p) == RESET_CELL
    ensures BfsInv(g, t, head, des, {}, [head])
  {
    forall i, j | 0 <= i < |t| && 0 <= j < |t[i]|
      ensures !t[i][j].visit
    {
      assert t[i][j] == Cell(t, Pos(i, j));
    }
  }

  /** Dequeuing des: the path built from the parents is a shortest one over distinct cells. */
  lemma FoundShortest(g: Grid, t: Table, head: Pos, des: Pos, E: set<Pos>, queue: seq<Pos>, r: seq<Direc>)
    requires g.WellFormed() && BfsInv(g, t, head, des, E, [des] + queue)
    requires SafePathTo(g, head, r, des) && |r| == Dist(t, des)
    requires forall i :: 0 <= i <= |r| ==> Dist(t, Walk(head, r)[i]) == i
    ensures ShortestSpec(g, head, des, r)
  {
    var Q := [des] + queue;
    assert Q[0] == des;
    forall p | SafePathTo(g, head, p, des)
      ensures |r| <= |p|
    {
      if E != {} {
        FrontierBound(g, t, E, Q, head, p);
      }
    }
    var w := Walk(head, r);
    forall i, j | 0 <= i < j < |w|
      ensures w[i] != w[j]
    {
      assert Dist(t, w[i]) == i && Dist(t, w[j]) == j;
    }
  }

  /** An empty queue: des was never reached, so no safe path leads there. */
  lemma NotFound(g: Grid, t: Table, head: Pos, des: Pos, E: set<Pos>)
    requires g.WellFormed() && BfsInv(g, t, head, des, E, [])
    ensures ShortestSpec(g, head, des, [])
  {
    assert head in E;
    forall p | SafePathTo(g, head, p, des)
      ensures Replay(head, p) in E
    {
      ClosedReach(g, t, E, head, p);
    }
  }

  /**
   * `random.shuffle`: from the last position down, swap each one with a position
   * chosen at random at or before it. The result is a reordering of s.
   */
  method Shuffle(s: seq<Pos>) returns (r: seq<Pos>)
    ensures |r| == |s| && multiset(r) == multiset(s)
  {
    r := s;
    var i := |r| - 1;
    while i > 0
      invariant |r| == |s| && multiset(r) == multiset(s) && i < |r|
    {
      var j :| 0 <= j <= i;
      r := r[i := r[j]][j := r[i]];
      i := i - 1;
    }
  }

  /**
   * The swap loop of `shortest_path_to`: the first neighbour lying in direction first
   * trades places with the front one. When there is one, the result starts with it;
   * when there is none, nothing moves.
   */
  method FirstDirecFirst(cur: Pos, adjs: seq<Pos>, first: Direc) returns (r: seq<Pos>)
    ensures |r| == |adjs| && multiset(r) == multiset(adjs)
    ensures (exists i :: 0 <= i < |adjs| && DirecTo(cur, adjs[i]) == first) ==> DirecTo(cur, r[0]) == first
    ensures (forall i :: 0 <= i < |adjs| ==> DirecTo(cur, adjs[i]) != first) ==> r == adjs
  {
    r := adjs;
    var i := 0;
    while i < |r|
      invariant 0 <= i <= |r| && r == adjs
      invariant forall m :: 0 <= m < i ==> DirecTo(cur, adjs[m]) != first
    {
      if first == DirecTo(cur, r[i]) {
        r := r[0 := r[i]][i := r[0]];
        return;
      }
      i := i + 1;
    }
  }

  // ---------------------------------------------------------------------------------
  // The longest-path heuristic. The visit marks record exactly the cells of the walk.
  // ---------------------------------------------------------------------------------

  /** What holds of the path being extended, its table and the shortest path sp it started from. */
  ghost predicate LongInv(g: Grid, t: Table, head: Pos, des: Pos, path: seq<Direc>, sp: seq<Direc>)
    requires g.WellFormed()
  {
    Fits(g, t) && g.InBounds(head) && SafePathTo(g, head, path, des) && Distinct(Walk(head, path))
    && (forall p :: Visited(t, p) <==> p in Walk(head, path))
    && |path| >= |sp| && (|path| - |sp|) % 2 == 0
  }

  /** A path over distinct cells of the board has fewer steps than the board has cells. */
  lemma LongBound(g: Grid, t: Table, head: Pos, des: Pos, path: seq<Direc>, sp: seq<Direc>)
    requires g.WellFormed() && LongInv(g, t, head, des, path, sp)
    ensures |path| + 1 <= g.numRows * g.numCols
  {
    var w := Walk(head, path);
    forall i | 0 <= i < |w|
      ensures 0 <= w[i].x < g.numRows && 0 <= w[i].y < g.numCols
    {
      if i > 0 {
        assert g.IsSafe(w[i]);
      }
    }
    DistinctBound(w, g.numRows, g.numCols);
  }

  /** The walk of a safe path: its start is in bounds and every later cell is inside the board. */
  lemma WalkInBounds(g: Grid, head: Pos, path: seq<Direc>, i: nat)
    requires g.WellFormed() && g.InBounds(head) && SafePath(g, head, path) && i <= |path|
    ensures g.InBounds(Walk(head, path)[i])
  {
    if i > 0 {
      assert g.IsSafe(Walk(head, path)[i]);
    }
  }

  /** The detour inserts only moves. */
  lemma DetourMoves(path: seq<Direc>, idx: nat, td: Direc, path': seq<Direc>)
    requires idx < |path| && IsMove(td) && forall k :: 0 <= k < |path| ==> IsMove(path[k])
    requires path' == path[..idx] + [td, path[idx], Opposite(td)] + path[idx + 1..]
    ensures forall k :: 0 <= k < |path'| ==> IsMove(path'[k])
  {
    assert IsMove(Opposite(td));
    forall k | 0 <= k < |path'|
      ensures IsMove(path'[k])
    {
      if k < idx {
        assert path'[k] == path[k];
      } else if k > idx + 2 {
        assert path'[k] == path[k - 2];
      }
    }
  }

  /** The cells of the detour's walk are those of the old walk and the two safe side cells. */
  lemma DetourCells(g: Grid, w: seq<Pos>, idx: nat, ct: Pos, nt: Pos, w': seq<Pos>)
    requires g.WellFormed() && idx + 1 < |w| && g.IsSafe(ct) && g.IsSafe(nt)
    requires forall i :: 0 < i < |w| ==> g.IsSafe(w[i])
    requires w' == w[..idx + 1] + [ct, nt] + w[idx + 1..]
    ensures forall i :: 0 < i < |w'| ==> g.IsSafe(w'[i])
    ensures w'[|w'| - 1] == w[|w| - 1]
  {
    forall i | 0 < i < |w'|
      ensures g.IsSafe(w'[i])
    {
      if i <= idx {
        assert w'[i] == w[i];
      } else if i > idx + 2 {
        assert w'[i] == w[i - 2];
      }
    }
  }

  /** The detour's path is still a safe path to des. */
  lemma DetourSafe(g: Grid, head: Pos, des: Pos, path: seq<Direc>, idx: nat, td: Direc, path': seq<Direc>)
    requires g.WellFormed() && SafePathTo(g, head, path, des) && idx < |path| && IsMove(td)
    requires path' == path[..idx] + [td, path[idx], Opposite(td)] + path[idx + 1..]
    requires var w := Walk(head, path); g.IsSafe(Adj(w[idx], td)) && g.IsSafe(Adj(w[idx + 1], td))
    ensures SafePathTo(g, head, path', des)
  {
    var w := Walk(head, path);
    Detour(head, path, idx, td);
    DetourMoves(path, idx, td, path');
    DetourCells(g, w, idx, Adj(w[idx], td), Adj(w[idx + 1], td), Walk(head, path'));
  }

  /**
   * A successful zig-zag of `longest_path_to`: with both side cells safe and unvisited,
   * marking them and inserting the detour keeps the invariant, two steps longer.
   */
  lemma DetourKeeps(g: Grid, t: Table, head: Pos, des: Pos, path: seq<Direc>, sp: seq<Direc>, idx: nat, td: Direc)
    requires g.WellFormed() && LongInv(g, t, head, des, path, sp) && idx < |path| && IsMove(td)
    requires var w := Walk(head, path);
             g.IsSafe(Adj(w[idx], td)) && !Visited(t, Adj(w[idx], td))
             && g.IsSafe(Adj(w[idx + 1], td)) && !Visited(t, Adj(w[idx + 1], td))
    ensures var w := Walk(head, path);
            var ct, nt := Adj(w[idx], td), Adj(w[idx + 1], td);
            var path' := Insert(Insert(path, idx, td), idx + 2, Opposite(td));
            ct != nt && 0 <= ct.x < |t| && 0 <= ct.y < |t[ct.x]| && 0 <= nt.x < |t| && 0 <= nt.y < |t[nt.x]|
            && var u := Update(Update(t, ct, Cell(t, ct).(visit := true)), nt, Cell(t, nt).(visit := true));
               LongInv(g, u, head, des, path', sp) && |path'| == |path| + 2 && Walk(head, path')[idx] == w[idx]
  {
    var w := Walk(head, path);
    var ct, nt := Adj(w[idx], td), Adj(w[idx + 1], td);
    var path' := Insert(Insert(path, idx, td), idx + 2, Opposite(td));
    InsertTwice(path, idx, td, Opposite(td));
    WalkSplit(head, path, idx);
    assert w[idx] != w[idx + 1];
    AdjInjective(w[idx], w[idx + 1], td);
    var u1 := Update(t, ct, Cell(t, ct).(visit := true));
    var u := Update(u1, nt, Cell(t, nt).(visit := true));
    DetourSafe(g, head, des, path, idx, td, path');
    Detour(head, path, idx, td);
    var X, Y := w[..idx + 1], w[idx + 1..];
    assert X + Y == w;
    DistinctInsertPair(X, Y, ct, nt);
    assert Walk(head, path') == X + [ct, nt] + Y;
    forall p
      ensures Visited(u, p) <==> p in Walk(head, path')
    {
      assert p in w <==> p in X || p in Y;
    }
    assert Walk(head, path')[idx] == X[idx];
  }

  /** Marking p visited adds p to the cells whose marks are set. */
  lemma Mark(t: Table, p: Pos, S: seq<Pos>)
    requires 0 <= p.x < |t| && 0 <= p.y < |t[p.x]|
    requires forall q :: Visited(t, q) <==> q in S
    ensures t[p.x][p.y] == Cell(t, p)
    ensures forall q :: Visited(Update(t, p, Cell(t, p).(visit := true)), q) <==> q in S + [p]
  {
  }

  class PathSolver {
    /** The inherited BaseSolver part: the snake being planned for and its board. */
    const base: BaseSolver
    var table: Table

    ghost function Repr(): set<object>
      reads this, base
    {
      {this, base, base.snake, base.snake.gameMap, base.gameMap}
    }

    /** The board the searches run on. */
    function Board(): Grid
      reads base, base.gameMap
    {
      base.gameMap.View()
    }

    ghost predicate Valid()
      reads Repr()
    {
      base.Valid() && Fits(base.gameMap.View(), table)
      && base.gameMap.numRows * base.gameMap.numCols < MAXSIZE
    }

    /** `PathSolver(snake)`: a scratch table of reset cells with the board's dimensions. */
    constructor (snake: Snake)
      requires snake.Valid() && snake.gameMap.numRows * snake.gameMap.numCols < MAXSIZE
      ensures Valid() && fresh(base) && base.snake == snake && base.gameMap == snake.gameMap
      ensures forall p :: Cell(table, p) == RESET_CELL
    {
      base := new BaseSolver(snake);
      table := seq(snake.gameMap.numRows, _ => seq(snake.gameMap.numCols, _ => RESET_CELL));
    }

    /** The `snake` setter inherited from BaseSolver: the searches now run for val on its board. */
    method SetSnake(val: Snake)
      requires val.Valid() && Fits(val.gameMap.View(), table) && val.gameMap.numRows * val.gameMap.numCols < MAXSIZE
      modifies base
      ensures Valid() && base.snake == val && base.gameMap == val.gameMap
    {
      base.SetSnake(val);
    }

    /** `_reset_table`: every cell back to no parent, distance `sys.maxsize`, unvisited. */
    method ResetTable()
      requires Valid()
      modifies this
      ensures Valid() && forall p :: Cell(table, p) == RESET_CELL
    {
      for i := 0 to |table|
        invariant Valid()
        invariant forall a, b :: 0 <= a < i && 0 <= b < |table[a]| ==> table[a][b] == RESET_CELL
      {
        for j := 0 to |table[i]|
          invariant Valid()
          invariant forall a, b :: 0 <= a < i && 0 <= b < |table[a]| ==> table[a][b] == RESET_CELL
          invariant forall b :: 0 <= b < j ==> table[i][b] == RESET_CELL
        {
          table := table[i := table[i][j := RESET_CELL]];
        }
      }
    }

    /** `_is_valid`: a safe cell that the longest-path search has not visited. */
    function IsValid(p: Pos): (b: bool)
      requires Valid()
      reads Repr()
      ensures b <==> Board().IsSafe(p) && !Visited(table, p)
    {
      base.gameMap.View().IsSafe(p) && !table[p.x][p.y].visit
    }

    /**
     * `_build_path`: follow parents back from des to src. The result is a safe path from
     * src to des as long as des's distance, passing the cells at distances 0, 1, 2, ...
     */
    method BuildPath(src: Pos, des: Pos) returns (path: seq<Direc>)
      requires Valid() && ParentsSound(Board(), table, src) && Seen(table, des)
      ensures SafePathTo(Board(), src, path, des) && |path| == Dist(table, des)
      ensures forall i :: 0 <= i <= |path| ==> Dist(table, Walk(src, path)[i]) == i
    {
      ghost var g := Board();
      path := [];
      var tmp := des;
      while tmp != src
        invariant Seen(table, tmp) && 0 <= Dist(table, tmp)
        invariant SafePathTo(g, tmp, path, des) && Dist(table, tmp) + |path| == Dist(table, des)
        invariant forall i :: 0 <= i <= |path| ==> Dist(table, Walk(tmp, path)[i]) == Dist(table, tmp) + i
        decreases Dist(table, tmp)
      {
        assert ParentOk(g, table, tmp);
        var parent := table[tmp.x][tmp.y].parent.value;
        var d := DirecTo(parent, tmp);
        ghost var old_path := path;
        path := [d] + path;
        WalkCons(parent, d, old_path);
        SafePathCons(g, parent, path);
        assert path[1..] == old_path;
        ReplayCons(parent, path);
        forall i | 0 <= i <= |path|
          ensures Dist(table, Walk(parent, path)[i]) == Dist(table, parent) + i
        {
          if i > 0 {
            assert Walk(parent, path)[i] == Walk(tmp, old_path)[i - 1];
          }
        }
        tmp := parent;
      }
    }
  
    /** Storing a table of the board's dimensions as the scratch table keeps the solver valid. */
    method SetTable(u: Table)
      requires Valid() && Fits(Board(), u)
      modifies this
      ensures Valid() && table == u && Board() == old(Board())
    {
      table := u;
    }

    /**
     * One pass of the neighbour loop of `shortest_path_to`: a safe neighbour pos of cur
     * that is not yet reached gets cur as parent, cur's distance plus one, and joins the
     * queue.
     */
    method Visit(cur: Pos, pos: Pos, q: seq<Pos>, ghost g: Grid, ghost dc: int) returns (q': seq<Pos>)
      requires Valid() && Board() == g && 0 <= cur.x < |table| && 0 <= cur.y < |table[cur.x]|
      requires Dist(table, cur) == dc
      modifies this
      ensures Valid() && Board() == g
      ensures table == VisitTable(g, old(table), cur, pos, dc + 1) && q' == VisitQueue(g, old(table), pos, q)
    {
      q' := q;
      if IsValid(pos) {
        if table[pos.x][pos.y].dist == MAXSIZE {
          var cell := table[pos.x][pos.y].(parent := Some(cur), dist := table[cur.x][cur.y].dist + 1);
          SetTable(Update(table, pos, cell));
          q' := q + [pos];
        }
      }
    }

    /**
     * The neighbour loop of `shortest_path_to` for one dequeued cell, over its neighbours
     * in the order adjs. Expanding cur keeps the search invariant.
     */
    method Expand(cur: Pos, adjs: seq<Pos>, queue: seq<Pos>, ghost E: set<Pos>, ghost head: Pos, ghost des: Pos)
      returns (q: seq<Pos>)
      requires Valid() && BfsInv(Board(), table, head, des, E, [cur] + queue) && cur != des
      requires multiset(adjs) == multiset(AllAdj(cur, MOVES))
      modifies this
      ensures Valid() && BfsInv(Board(), table, head, des, E + {cur}, q)
    {
      ghost var dc := Dist(table, cur);
      ghost var g := Board();
      ExpandEntry(g, table, head, des, E, cur, queue);
      q := queue;
      for k := 0 to |adjs|
        invariant Valid() && Board() == g && Mid(g, table, head, des, E, cur, dc, q) && Covered(g, table, adjs[..k])
      {
        assert adjs[k] in multiset(AllAdj(cur, MOVES));
        ghost var t0, q0 := table, q;
        VisitBounds(g, table, head, des, E, cur, dc, q);
        q := Visit(cur, adjs[k], q, g, dc);
        VisitKeeps(g, t0, head, des, E, cur, dc, q0, adjs[k]);
        VisitCovers(g, t0, cur, dc, adjs, k);
      }
      assert adjs[..|adjs|] == adjs;
      NeighboursSeen(g, table, cur, adjs);
      ExpandExit(g, table, head, des, E, cur, dc, q);
    }

    /**
     * The body of the search loop of `shortest_path_to` for a dequeued cell cur other
     * than des: order its neighbours, then expand it.
     */
    method ExpandNext(cur: Pos, queue: seq<Pos>, head: Pos, ghost g: Grid, ghost E: set<Pos>, ghost des: Pos)
      returns (q: seq<Pos>)
      requires Valid() && Board() == g && BfsInv(g, table, head, des, E, [cur] + queue) && cur != des
      requires |base.snake.bodies| > 0 && head == base.snake.bodies[0]
      modifies this
      ensures Valid() && Board() == g && BfsInv(g, table, head, des, E + {cur}, q)
    {
      var first := base.snake.direc;
      if cur != head {
        assert ([cur] + queue)[0] == cur;
        assert Seen(table, cur) && ParentOk(g, table, cur);
        first := DirecTo(table[cur.x][cur.y].parent.value, cur);
      }
      var adjs := Shuffle(AllAdj(cur, MOVES));
      adjs := FirstDirecFirst(cur, adjs, first);
      q := Expand(cur, adjs, queue, E, head, des);
    }

    /** The start of `shortest_path_to`: a reset table in which the head has distance 0. */
    method StartSearch(ghost des: Pos) returns (head: Pos)
      requires Valid() && |base.snake.bodies| > 0
      modifies this
      ensures Valid() && Board() == old(Board()) && head == base.snake.bodies[0]
      ensures BfsInv(Board(), table, head, des, {}, [head])
    {
      ResetTable();
      head := base.snake.Head().value;
      assert table[head.x][head.y] == Cell(table, head) == RESET_CELL;
      SetTable(Update(table, head, table[head.x][head.y].(dist := 0)));
      BfsStart(Board(), table, head, des);
    }

    /**
     * `shortest_path_to`: breadth-first search from the snake's head. The neighbours of
     * each dequeued cell are tried in a random order, except that the one continuing the
     * move into that cell comes first. The search leaves no visit marks.
     */
    method ShortestPathTo(des: Pos) returns (r: seq<Direc>)
      requires Valid() && |base.snake.bodies| > 0
      modifies this
      ensures Valid() && Board() == old(Board()) && NoVisits(table)
      ensures ShortestSpec(Board(), base.snake.bodies[0], des, r)
    {
      ghost var g := Board();
      var head := StartSearch(des);
      ghost var E: set<Pos> := {};
      var queue := [head];
      while |queue| > 0
        invariant Valid() && Board() == g && BfsInv(g, table, head, des, E, queue)
        invariant |E| <= g.numRows * g.numCols
        decreases g.numRows * g.numCols - |E|
      {
        var cur := queue[0];
        ghost var whole := queue;
        queue := queue[1..];
        assert [cur] + queue == whole;
        if cur == des {
          r := BuildPath(head, des);
          FoundShortest(g, table, head, des, E, queue, r);
          return;
        }
        EntryBound(g, table, E, cur);
        queue := ExpandNext(cur, queue, head, g, E, des);
        E := E + {cur};
      }
      r := [];
      NotFound(g, table, head, des, E);
    }

    /** The marking loop of `longest_path_to`: a visit mark on the head and on each cell of path. */
    method MarkPath(head: Pos, path: seq<Direc>, ghost des: Pos)
      requires Valid() && Board().InBounds(head) && SafePathTo(Board(), head, path, des)
      requires forall p :: !Visited(table, p)
      modifies this
      ensures Valid() && Board() == old(Board())
      ensures forall p :: Visited(table, p) <==> p in Walk(head, path)
    {
      ghost var g := Board();
      ghost var w := Walk(head, path);
      var cur := head;
      Mark(table, cur, []);
      SetTable(Update(table, cur, table[cur.x][cur.y].(visit := true)));
      assert w[..1] == [] + [head];
      for i := 0 to |path|
        invariant Valid() && Board() == g && cur == w[i]
        invariant forall p :: Visited(table, p) <==> p in w[..i + 1]
      {
        WalkStep(head, path, i);
        cur := Adj(cur, path[i]);
        WalkInBounds(g, head, path, i + 1);
        Mark(table, cur, w[..i + 1]);
        SetTable(Update(table, cur, table[cur.x][cur.y].(visit := true)));
        assert w[..i + 2] == w[..i + 1] + [cur];
      }
      assert w[..|path| + 1] == w;
    }

    /**
     * One pass of the loop of `longest_path_to` at step idx: try each direction
     * perpendicular to the step; the first whose two side cells are both valid gets
     * them marked and the detour inserted. Otherwise nothing changes.
     */
    method TryExtend(path: seq<Direc>, idx: nat, cur: Pos, ghost head: Pos, ghost des: Pos, ghost sp: seq<Direc>)
      returns (path': seq<Direc>, extended: bool)
      requires Valid() && LongInv(Board(), table, head, des, path, sp) && idx < |path| && cur == Walk(head, path)[idx]
      modifies this
      ensures Valid() && Board() == old(Board()) && LongInv(Board(), table, head, des, path', sp)
      ensures extended ==> |path'| == |path| + 2 && Walk(head, path')[idx] == cur
      ensures !extended ==> path' == path
    {
      ghost var g := Board();
      var curDirec := path[idx];
      var nxt := Adj(cur, curDirec);
      WalkStep(head, path, idx);
      var tests := if curDirec == LEFT || curDirec == RIGHT then [UP, DOWN] else [LEFT, RIGHT];
      path', extended := path, false;
      for k := 0 to |tests|
        invariant Valid() && Board() == g && LongInv(g, table, head, des, path, sp)
      {
        var testDirec := tests[k];
        var curTest, nxtTest := Adj(cur, testDirec), Adj(nxt, testDirec);
        if IsValid(curTest) && IsValid(nxtTest) {
          DetourKeeps(g, table, head, des, path, sp, idx, testDirec);
          ghost var t0 := table;
          SetTable(Update(table, curTest, table[curTest.x][curTest.y].(visit := true)));
          assert table[nxtTest.x][nxtTest.y] == Cell(t0, nxtTest);
          SetTable(Update(table, nxtTest, table[nxtTest.x][nxtTest.y].(visit := true)));
          path' := Insert(Insert(path, idx, testDirec), idx + 2, Opposite(testDirec));
          extended := true;
          return;
        }
      }
    }

    /**
     * `longest_path_to`: the shortest path to des, then lengthened by zig-zags where the
     * board has room beside it, step by step from the head.
     */
    method LongestPathTo(des: Pos) returns (path: seq<Direc>, ghost sp: seq<Direc>)
      requires Valid() && |base.snake.bodies| > 0
      modifies this
      ensures Valid() && Board() == old(Board())
      ensures LongestSpec(Board(), base.snake.bodies[0], des, path, sp)
    {
      ghost var g := Board();
      path := ShortestPathTo(des);
      sp := path;
      if |path| == 0 {
        return;
      }
      ResetTable();
      var head := base.snake.Head().value;
      MarkPath(head, path, des);
      var idx, cur := 0, head;
      while idx < |path|
        invariant Valid() && Board() == g && LongInv(g, table, head, des, path, sp)
        invariant 0 <= idx <= |path| && cur == Walk(head, path)[idx]
        invariant ShortestSpec(g, head, des, sp) && sp != []
        decreases g.numRows * g.numCols - |path|, |path| - idx
      {
        LongBound(g, table, head, des, path, sp);
        var extended;
        path, extended := TryExtend(path, idx, cur, head, des, sp);
        LongBound(g, table, head, des, path, sp);
        if !extended {
          WalkStep(head, path, idx);
          cur := Adj(cur, path[idx]);
          idx := idx + 1;
        }
      }
    }

    /**
     * `path_to`: run the chosen search with des's cell temporarily EMPTY, so that des
     * counts as safe, then give the cell its type back.
     */
    method PathTo(des: Pos, kind: PathType) returns (path: seq<Direc>, ghost sp: seq<Direc>)
      requires Valid() && |base.snake.bodies| > 0 && Board().InBounds(des)
      modifies this, base.gameMap
      ensures Valid() && Board() == old(Board())
      ensures PathSpec(Board(), base.snake.bodies[0], des, kind, path, sp)
    {
      ghost var g0 := Board();
      var oriType := base.gameMap.content[des.x][des.y];
      assert oriType == g0.At(des);
      var _ := base.gameMap.SetPointType(des, Instance(EMPTY));
      if kind == Shortest {
        path := ShortestPathTo(des);
        sp := path;
      } else {
        path, sp := LongestPathTo(des);
      }
      var _ := base.gameMap.SetPointType(des, Instance(oriType));
      SetAtRestore(g0, des, EMPTY);
    }

    /** `longest_path_to_tail`: the longest path to the snake's tail. */
    method LongestPathToTail() returns (path: seq<Direc>, ghost sp: seq<Direc>)
      requires Valid() && |base.snake.bodies| > 0
      modifies this, base.gameMap
      ensures Valid() && Board() == old(Board())
      ensures TailSpec(Board(), base.snake.bodies, path, sp)
    {
      var tail := base.snake.Tail().value;
      path, sp := PathTo(tail, Longest);
    }

    /**
     * `shortest_path_to_food`: the shortest path to the food when there is food,
     * otherwise the longest path to the tail.
     */
    method ShortestPathToFood() returns (path: seq<Direc>, ghost sp: seq<Direc>)
      requires Valid() && |base.snake.bodies| > 0
      modifies this, base.gameMap
      ensures Valid() && Board() == old(Board())
      ensures FoodSpec(Board(), base.snake.bodies, path, sp)
    {
      if base.gameMap.food.Some? {
        path, sp := PathTo(base.gameMap.food.value, Shortest);
      } else {
        path, sp := LongestPathToTail();
      }
    }
  }
}
