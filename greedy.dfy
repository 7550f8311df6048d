/**
 * The greedy solver of solver/greedy.py: go for the food when a simulated snake that
 * has eaten it can still reach its own tail, else follow the tail, else survive.
 */
module Greedy {
  import opened Common
  import opened Directions
  import opened Positions
  import opened Board
  import opened Snakes
  import opened SolverBase
  import opened PathSolving

  /**
   * Among the first n neighbours in adjs, the i-th is safe, no safe one is farther from
   * food, and every safe one before it is strictly nearer.
   */
  ghost predicate FirstFarthest(g: Grid, food: Pos, adjs: seq<Pos>, n: int, i: int)
    requires g.WellFormed() && 0 <= n <= |adjs|
  {
    0 <= i < n && g.IsSafe(adjs[i])
    && (forall j :: 0 <= j < n && g.IsSafe(adjs[j]) ==> ManhattanDist(adjs[j], food) <= ManhattanDist(adjs[i], food))
    && (forall j :: 0 <= j < i && g.IsSafe(adjs[j]) ==> ManhattanDist(adjs[j], food) < ManhattanDist(adjs[i], food))
  }

  /**
   * What step 5 of `next_direc` decides for a head and current direction on board g:
   * with no safe neighbour, the current direction; with one but no food, the
   * AttributeError of measuring a distance to `None`; otherwise the move to the first
   * safe neighbour farthest from the food.
   */
  ghost predicate SurvivalSpec(g: Grid, head: Pos, direc: Direc, r: Result<Direc>)
    requires g.WellFormed()
  {
    var adjs := AllAdj(head, MOVES);
    if forall i :: 0 <= i < |adjs| ==> !g.IsSafe(adjs[i]) then r == Success(direc)
    else if g.food.None? then r == Failure(AttributeError)
    else exists i :: FirstFarthest(g, g.food.value, adjs, |adjs|, i) && r == Success(MOVES[i])
  }

  /**
   * What steps 4 and 5 of `next_direc` decide for the real snake in state w, given its
   * longest path to its tail realTail (found from the shortest path realSp): the
   * path's first step when it is longer than one step, otherwise step 5's choice.
   */
  ghost predicate FollowTailSpec(w: World, realTail: seq<Direc>, realSp: seq<Direc>, r: Result<Direc>)
    requires w.Valid() && |w.bodies| > 0
  {
    TailSpec(w.grid, w.bodies, realTail, realSp)
    && (|realTail| > 1 ==> r == Success(realTail[0]))
    && (|realTail| <= 1 ==> SurvivalSpec(w.grid, w.bodies[0], w.direc, r))
  }

  /** Looking at one more neighbour keeps the first farthest one, or replaces it by a strictly farther one. */
  lemma FirstFarthestStep(g: Grid, food: Pos, adjs: seq<Pos>, n: int, i: int)
    requires g.WellFormed() && 0 <= n < |adjs|
    requires (forall j :: 0 <= j < n ==> !g.IsSafe(adjs[j])) || FirstFarthest(g, food, adjs, n, i)
    ensures (forall j :: 0 <= j < n ==> !g.IsSafe(adjs[j])) && g.IsSafe(adjs[n]) ==> FirstFarthest(g, food, adjs, n + 1, n)
    ensures FirstFarthest(g, food, adjs, n, i) && g.IsSafe(adjs[n]) && ManhattanDist(adjs[n], food) > ManhattanDist(adjs[i], food)
            ==> FirstFarthest(g, food, adjs, n + 1, n)
    ensures FirstFarthest(g, food, adjs, n, i) && (!g.IsSafe(adjs[n]) || ManhattanDist(adjs[n], food) <= ManhattanDist(adjs[i], food))
            ==> FirstFarthest(g, food, adjs, n + 1, i)
  {
  }

  /**
   * The survival loop after looking at the first i neighbours: maxDist stays -1 (and
   * the direction the snake's own) until a safe one is seen; from then on best is the
   * first farthest safe one so far, direc the move to it and maxDist its distance.
   */
  ghost predicate SurviveInv(g: Grid, direc0: Direc, adjs: seq<Pos>, i: int, maxDist: int, best: int, direc: Direc)
    requires g.WellFormed() && |adjs| == |MOVES| && 0 <= i <= |adjs|
  {
    (maxDist == -1 <==> forall j :: 0 <= j < i ==> !g.IsSafe(adjs[j]))
    && (maxDist == -1 ==> direc == direc0)
    && (maxDist != -1 ==> g.food.Some? && FirstFarthest(g, g.food.value, adjs, i, best)
                          && direc == MOVES[best] && maxDist == ManhattanDist(adjs[best], g.food.value))
  }

  /** One turn of the survival loop keeps SurviveInv, taking neighbour i exactly when it is safe and strictly farther. */
  lemma SurviveStep(g: Grid, direc0: Direc, adjs: seq<Pos>, i: int, maxDist: int, best: int, direc: Direc)
    requires g.WellFormed() && |adjs| == |MOVES| && 0 <= i < |adjs|
    requires SurviveInv(g, direc0, adjs, i, maxDist, best, direc)
    requires g.IsSafe(adjs[i]) ==> g.food.Some?
    ensures g.IsSafe(adjs[i]) && ManhattanDist(adjs[i], g.food.value) > maxDist
            ==> SurviveInv(g, direc0, adjs, i + 1, ManhattanDist(adjs[i], g.food.value), i, MOVES[i])
    ensures !(g.IsSafe(adjs[i]) && ManhattanDist(adjs[i], g.food.value) > maxDist)
            ==> SurviveInv(g, direc0, adjs, i + 1, maxDist, best, direc)
  {
    var food := if g.food.Some? then g.food.value else adjs[i];
    FirstFarthestStep(g, food, adjs, i, best);
  }

  /** At most one neighbour is the first farthest one. */
  lemma FirstFarthestUnique(g: Grid, food: Pos, adjs: seq<Pos>, n: int, i: int, k: int)
    requires g.WellFormed() && 0 <= n <= |adjs|
    requires FirstFarthest(g, food, adjs, n, i) && FirstFarthest(g, food, adjs, n, k)
    ensures i == k
  {
  }

  /** Step 5 has one answer, and a successful move leads to a safe cell unless none is. */
  lemma SurvivalDeterministic(g: Grid, head: Pos, direc: Direc, r1: Result<Direc>, r2: Result<Direc>)
    requires g.WellFormed() && SurvivalSpec(g, head, direc, r1) && SurvivalSpec(g, head, direc, r2)
    ensures r1 == r2
    ensures r1.Success? && (exists i :: 0 <= i < 4 && g.IsSafe(Adj(head, MOVES[i]))) ==> g.IsSafe(Adj(head, r1.value))
  {
    var adjs := AllAdj(head, MOVES);
    if (exists i :: 0 <= i < |adjs| && g.IsSafe(adjs[i])) && g.food.Some? {
      var i1 :| FirstFarthest(g, g.food.value, adjs, |adjs|, i1) && r1 == Success(MOVES[i1]);
      var i2 :| FirstFarthest(g, g.food.value, adjs, |adjs|, i2) && r2 == Success(MOVES[i2]);
      FirstFarthestUnique(g, g.food.value, adjs, |adjs|, i1, i2);
    }
  }

  class GreedySolver {
    /** The inherited BaseSolver part: the real snake and its board. */
    const base: BaseSolver
    const pathSolver: PathSolver

    ghost function Repr(): set<object>
      reads this, base, pathSolver, pathSolver.base
    {
      {this, base, base.snake, base.gameMap, base.snake.gameMap} + pathSolver.Repr()
    }

    /**
     * Both solvers are valid, the path solver has its own BaseSolver part, and whatever
     * snake it points to lives on a board of the real board's size.
     */
    ghost predicate Valid()
      reads Repr()
    {
      base.Valid() && pathSolver.Valid() && pathSolver.base != base
      && pathSolver.base.gameMap.numRows == base.gameMap.numRows
      && pathSolver.base.gameMap.numCols == base.gameMap.numCols
    }

    /** `GreedySolver(snake)`: a BaseSolver for snake and a PathSolver of its own for it. */
    constructor (snake: Snake)
      requires snake.Valid() && snake.gameMap.numRows * snake.gameMap.numCols < MAXSIZE
      ensures Valid() && base.snake == snake && pathSolver.base.snake == snake
    {
      base := new BaseSolver(snake);
      pathSolver := new PathSolver(snake);
    }

    /** Re-points the path solver, as `self._path_solver.snake = val` does. */
    method PointPathSolver(val: Snake)
      requires Valid() && val.Valid()
      requires val.gameMap.numRows == base.gameMap.numRows && val.gameMap.numCols == base.gameMap.numCols
      modifies pathSolver.base
      ensures Valid() && pathSolver.base.snake == val && pathSolver.base.gameMap == val.gameMap
    {
      pathSolver.SetSnake(val);
    }

    /** Step 5 of `next_direc`: the survival loop over the head's neighbours. */
    method Survive() returns (r: Result<Direc>)
      requires base.Valid() && |base.snake.bodies| > 0
      ensures SurvivalSpec(base.gameMap.View(), base.snake.bodies[0], base.snake.direc, r)
    {
      ghost var g := base.gameMap.View();
      var head := base.snake.Head().value;
      var direc, maxDist: int := base.snake.direc, -1;
      var adjs := AllAdj(head, MOVES);
      ghost var best := -1;
      for i := 0 to |adjs|
        invariant SurviveInv(g, base.snake.direc, adjs, i, maxDist, best, direc)
      {
        var adj := adjs[i];
        if base.gameMap.View().IsSafe(adj) {
          if base.gameMap.food.None? {
            return Failure(AttributeError);
          }
          var dist := ManhattanDist(adj, base.gameMap.food.value);
          SurviveStep(g, base.snake.direc, adjs, i, maxDist, best, direc);
          if dist > maxDist {
            maxDist := dist;
            MovesDirecTo(head, i);
            direc := DirecTo(head, adj);
            best := i;
          }
        } else {
          SurviveStep(g, base.snake.direc, adjs, i, maxDist, best, direc);
        }
      }
      r := Success(direc);
    }

    /**
     * Step 1 of `next_direc`: the path solver, pointed at the real snake (whose state is
     * w), plans towards the food.
     */
    method FoodPath(ghost w: World) returns (path: seq<Direc>, ghost sp: seq<Direc>)
      requires Valid() && base.snake.View() == w && |w.bodies| > 0
      modifies pathSolver, pathSolver.base, base.gameMap
      ensures Valid() && base.snake.View() == w
      ensures pathSolver.base.snake == base.snake && pathSolver.base.gameMap == base.gameMap
      ensures FoodSpec(w.grid, w.bodies, path, sp)
    {
      PointPathSolver(base.snake);
      path, sp := pathSolver.ShortestPathToFood();
    }

    /**
     * Steps 3 and 4 of `next_direc`: the path solver, pointed at s (whose state is w),
     * plans towards s's tail.
     */
    method TailPath(s: Snake, ghost w: World) returns (path: seq<Direc>, ghost sp: seq<Direc>)
      requires Valid() && s.Valid() && s.View() == w && |w.bodies| > 0
      requires s.gameMap.numRows == base.gameMap.numRows && s.gameMap.numCols == base.gameMap.numCols
      modifies pathSolver, pathSolver.base, s.gameMap
      ensures Valid() && s.View() == w && base.gameMap.View() == old(base.gameMap.View())
      ensures pathSolver.base.snake == s
      ensures TailSpec(w.grid, w.bodies, path, sp)
    {
      PointPathSolver(s);
      path, sp := pathSolver.LongestPathToTail();
    }

    /**
     * Steps 2 and 3 of `next_direc`: the copy sCopy (whose state is w) follows path on its
     * own board mCopy; an error of that walk is raised; otherwise the first step of path
     * is the answer when the board is then full, or when the copy can then still reach its
     * tail in more than one step, and Success(None) sends the chain on to step 4.
     */
    method Simulate(sCopy: Snake, mCopy: Map, path: seq<Direc>, ghost w: World)
      returns (d: Result<Option<Direc>>, ghost simOut: Outcome, ghost sim: World,
               ghost simTail: seq<Direc>, ghost simSp: seq<Direc>)
      requires Valid() && sCopy.Valid() && sCopy.gameMap == mCopy
      requires sCopy != base.snake && sCopy != pathSolver.base.snake && mCopy != base.gameMap && mCopy != pathSolver.base.gameMap
      requires mCopy.numRows == base.gameMap.numRows && mCopy.numCols == base.gameMap.numCols
      requires sCopy.View() == w && |w.bodies| > 0 && path != []
      modifies pathSolver, pathSolver.base, sCopy, mCopy
      ensures Valid() && base.gameMap.View() == old(base.gameMap.View())
      ensures simOut == Steps(w, path).0 && sim == Steps(w, path).1 && sim.Valid() && |sim.bodies| > 0
      ensures simOut.Fail? ==> d == Failure(simOut.error)
      ensures simOut == Pass && !sim.grid.Full() ==> TailSpec(sim.grid, sim.bodies, simTail, simSp)
      ensures simOut == Pass ==> d.Success? && (d.value.Some? <==> sim.grid.Full() || |simTail| > 1)
      ensures d.Success? && d.value.Some? ==> d.value.value == path[0]
    {
      var o := sCopy.MovePath(path);
      simOut, sim, simTail, simSp := o, sCopy.View(), [], [];
      if o.Fail? {
        return Failure(o.error), simOut, sim, simTail, simSp;
      }
      var full := mCopy.IsFull();
      if full {
        return Success(Some(path[0])), simOut, sim, simTail, simSp;
      }
      // Step 3
      var pathToTail;
      pathToTail, simSp := TailPath(sCopy, sim);
      simTail := pathToTail;
      d := Success(if |pathToTail| > 1 then Some(path[0]) else None);
    }

    /**
     * Steps 1 to 3 of `next_direc` for the real snake in state w. The path towards the
     * food is followed by a copy of the snake on a copy of the board; its first step is
     * the answer when the copy ends on a full board, or when the copy can then still
     * reach its tail in more than one step; an error of the copy's walk is raised. The
     * ghost results are the path, the outcome of the walk and the copy after it, and the
     * copy's longest path to its tail, each search's result with the shortest path it
     * started from.
     */
    method TryFood(ghost w: World) returns (d: Result<Option<Direc>>, ghost foodPath: seq<Direc>, ghost foodSp: seq<Direc>,
                                            ghost simOut: Outcome, ghost sim: World, ghost simTail: seq<Direc>,
                                            ghost simSp: seq<Direc>)
      requires Valid() && base.snake.View() == w && |w.bodies| > 0
      modifies pathSolver, pathSolver.base, base.gameMap
      ensures Valid() && base.snake.View() == w
      ensures sim.Valid() && |sim.bodies| > 0
      ensures FoodSpec(w.grid, w.bodies, foodPath, foodSp)
      ensures foodPath == [] ==> d == Success(None)
      ensures foodPath != [] ==> simOut == Steps(w.(grid := w.grid.(food := None)), foodPath).0
                                   && sim == Steps(w.(grid := w.grid.(food := None)), foodPath).1
      ensures d.Failure? <==> foodPath != [] && simOut.Fail?
      ensures d.Failure? ==> d == Failure(simOut.error)
      ensures foodPath != [] && simOut == Pass && !sim.grid.Full() ==> TailSpec(sim.grid, sim.bodies, simTail, simSp)
      ensures (d.Success? && d.value.Some?) <==> foodPath != [] && simOut == Pass && (sim.grid.Full() || |simTail| > 1)
      ensures d.Success? && d.value.Some? ==> d.value.value == foodPath[0]
    {
      var sCopy, mCopy := base.snake.Copy();
      ghost var c := sCopy.View();
      assert sCopy != base.snake && mCopy != base.gameMap;
      var pathToFood;
      pathToFood, foodSp := FoodPath(w);
      foodPath, simOut, sim, simTail, simSp := pathToFood, Pass, w, [], [];
      d := Success(None);
      if pathToFood != [] {
        d, simOut, sim, simTail, simSp := Simulate(sCopy, mCopy, pathToFood, c);
      }
    }

    /** Steps 4 and 5 of `next_direc` for the real snake in state w: follow its tail, or survive. */
    method FollowTail(ghost w: World) returns (r: Result<Direc>, ghost realTail: seq<Direc>, ghost realSp: seq<Direc>)
      requires Valid() && base.snake.View() == w && |w.bodies| > 0
      modifies pathSolver, pathSolver.base, base.gameMap
      ensures Valid() && base.snake.View() == w
      ensures FollowTailSpec(w, realTail, realSp, r)
    {
      var pathToTail;
      pathToTail, realSp := TailPath(base.snake, w);
      realTail := pathToTail;
      if |pathToTail| > 1 {
        return Success(pathToTail[0]), realTail, realSp;
      }
      // Step 5
      r := Survive();
    }

    /**
     * `next_direc`: the five-step chain. The ghost results name what each step
     * computed: the path towards the food, the outcome of the simulated walk along it
     * (whose error, if any, `next_direc` raises) and the simulated snake after it, the
     * simulated snake's longest path to its tail, and the real snake's, each search's
     * result with the shortest path it started from.
     */
    method NextDirec() returns (r: Result<Direc>, ghost w: World, ghost foodPath: seq<Direc>, ghost foodSp: seq<Direc>,
                                ghost simOut: Outcome, ghost sim: World, ghost simTail: seq<Direc>,
                                ghost simSp: seq<Direc>, ghost realTail: seq<Direc>, ghost realSp: seq<Direc>)
      requires Valid() && |base.snake.bodies| > 0
      modifies pathSolver, pathSolver.base, base.gameMap
      ensures Valid() && w == old(base.snake.View()) && base.snake.View() == w
      ensures sim.Valid() && |sim.bodies| > 0
      ensures FoodSpec(w.grid, w.bodies, foodPath, foodSp)
      ensures foodPath != [] ==> simOut == Steps(w.(grid := w.grid.(food := None)), foodPath).0
                                   && sim == Steps(w.(grid := w.grid.(food := None)), foodPath).1
      ensures foodPath != [] && simOut == Pass && !sim.grid.Full() ==> TailSpec(sim.grid, sim.bodies, simTail, simSp)
      ensures foodPath != [] && simOut.Fail? ==> r == Failure(simOut.error)
      ensures foodPath != [] && simOut == Pass && (sim.grid.Full() || |simTail| > 1) ==> r == Success(foodPath[0])
      ensures foodPath == [] || (simOut == Pass && !sim.grid.Full() && |simTail| <= 1) ==>
                FollowTailSpec(w, realTail, realSp, r)
    {
      w := base.snake.View();
      var d;
      d, foodPath, foodSp, simOut, sim, simTail, simSp := TryFood(w);
      realTail, realSp := [], [];
      if d.Failure? {
        return Failure(d.error), w, foodPath, foodSp, simOut, sim, simTail, simSp, realTail, realSp;
      }
      if d.value.Some? {
        return Success(d.value.value), w, foodPath, foodSp, simOut, sim, simTail, simSp, realTail, realSp;
      }
      r, realTail, realSp := FollowTail(w);
    }
  }
}
