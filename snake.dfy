/**
 * The snake of base/snake.py: a sequence of positions (head first) over a shared
 * board, a direction, a pending direction and a dead flag. Its value is a World
 * (board plus snake fields); Step is the value-level meaning of one `move`, and the
 * class Snake performs it in place.
 */
module Snakes {
  import opened Common
  import opened Directions
  import opened Points
  import opened Positions
  import opened Board

  /** The head type `_new_types` gives for the pending direction. */
  function NewHeadType(next: Direc): Option<PointType>
  {
    match next
    case LEFT => Some(HEAD_L)
    case UP => Some(HEAD_U)
    case RIGHT => Some(HEAD_R)
    case DOWN => Some(HEAD_D)
    case NONE => None
  }

  /** The body type `_new_types` gives the old head for a move from `direc` to `next`. */
  function OldHeadType(direc: Direc, next: Direc): Option<PointType>
  {
    if (direc == LEFT && next == LEFT) || (direc == RIGHT && next == RIGHT) then Some(BODY_HOR)
    else if (direc == UP && next == UP) || (direc == DOWN && next == DOWN) then Some(BODY_VER)
    else if (direc == RIGHT && next == UP) || (direc == DOWN && next == LEFT) then Some(BODY_LU)
    else if (direc == LEFT && next == UP) || (direc == DOWN && next == RIGHT) then Some(BODY_UR)
    else if (direc == LEFT && next == DOWN) || (direc == UP && next == RIGHT) then Some(BODY_RD)
    else if (direc == RIGHT && next == DOWN) || (direc == UP && next == LEFT) then Some(BODY_DL)
    else None
  }

  /** `_new_types`: the pair (old head type, new head type). */
  function NewTypes(direc: Direc, next: Direc): (Option<PointType>, Option<PointType>)
  {
    (OldHeadType(direc, next), NewHeadType(next))
  }

  /** The two sides a body segment type joins, as its name spells them. */
  function Connects(t: PointType): set<Direc>
  {
    match t
    case BODY_LU => {LEFT, UP}
    case BODY_UR => {UP, RIGHT}
    case BODY_RD => {RIGHT, DOWN}
    case BODY_DL => {DOWN, LEFT}
    case BODY_HOR => {LEFT, RIGHT}
    case BODY_VER => {UP, DOWN}
    case _ => {}
  }

  /** The direction a head type faces. */
  function Facing(t: PointType): Direc
  {
    match t
    case HEAD_L => LEFT
    case HEAD_U => UP
    case HEAD_R => RIGHT
    case HEAD_D => DOWN
    case _ => NONE
  }

  /**
   * The old head type exists exactly for a non-reversing move between two real
   * directions, and the segment it names joins the side the snake came from
   * (opposite of `direc`) with the side it leaves by (`next`).
   */
  lemma OldHeadTypeJoinsSides(direc: Direc, next: Direc)
    ensures OldHeadType(direc, next).Some? <==> IsMove(direc) && IsMove(next) && next != Opposite(direc)
    ensures OldHeadType(direc, next).Some? ==>
              IsSnake(OldHeadType(direc, next).value)
              && Connects(OldHeadType(direc, next).value) == {Opposite(direc), next}
  {
  }

  /** The new head type exists exactly for a real direction and faces it. */
  lemma NewHeadTypeFaces(next: Direc)
    ensures NewHeadType(next).Some? <==> next != NONE
    ensures NewHeadType(next).Some? ==> IsSnake(NewHeadType(next).value) && Facing(NewHeadType(next).value) == next
  {
  }

  /** The value of a snake together with the board it lives on. */
  datatype World = World(grid: Grid, dead: bool, direc: Direc, direcNext: Direc, bodies: seq<Pos>)
  {
    /** Every body position indexes a cell, and a live snake's head is inside the walls. */
    predicate Valid()
    {
      grid.Valid()
      && (forall i :: 0 <= i < |bodies| ==> grid.InBounds(bodies[i]))
      && (|bodies| > 0 && !dead ==> grid.IsInside(bodies[0]))
    }

    /** The early-return test of `move`. */
    predicate Blocked()
    {
      dead || direcNext == NONE || direcNext == Opposite(direc)
    }
  }

  /** `move`'s first statement: a given direction overwrites the pending one. */
  function Pending(w: World, newDirec: Option<Direc>): World
  {
    if newDirec.Some? then w.(direcNext := newDirec.value) else w
  }

  /**
   * One `move`, as written: the old head's cell is retyped (an AttributeError when the
   * body is empty, as the head is then None; a ValueError when there is no body type for
   * the turn), the new head is prepended, the snake dies when the new
   * head is not safe, and it grows on food or drops its tail otherwise. The direction is
   * never committed and the new head's cell is never typed.
   */
  function Step(w: World, newDirec: Option<Direc>): (r: (Outcome, World))
    requires w.Valid()
    ensures r.1.Valid() && (|w.bodies| > 0 ==> |r.1.bodies| > 0)
    ensures r.1.direc == w.direc && r.1.grid.numRows == w.grid.numRows && r.1.grid.numCols == w.grid.numCols
  {
    var w1 := Pending(w, newDirec);
    if w1.Blocked() then (Pass, w1)
    else if |w1.bodies| == 0 then (Fail(AttributeError), w1)
    else
      var (oldType, _) := NewTypes(w1.direc, w1.direcNext);
      if oldType.None? then (Fail(ValueError), w1)
      else (Pass, Advance(w1.(grid := w1.grid.SetAt(w1.bodies[0], oldType.value))))
  }

  /**
   * The part of `move` after the old head is retyped: prepend the new head, set the flag
   * when it is not safe, then eat or drop the tail.
   */
  function Advance(w: World): (r: World)
    requires w.Valid() && |w.bodies| > 0 && !w.Blocked()
    ensures r.Valid() && |r.bodies| > 0
    ensures r.direc == w.direc && r.direcNext == w.direcNext
    ensures r.grid.numRows == w.grid.numRows && r.grid.numCols == w.grid.numCols
  {
    var newHead := Adj(w.bodies[0], w.direcNext);
    var bodies1 := [newHead] + w.bodies;
    var dead1 := !w.grid.IsSafe(newHead);
    if w.grid.At(newHead) == FOOD then
      w.(grid := w.grid.RmFood(), dead := dead1, bodies := bodies1)
    else
      w.(grid := w.grid.SetAt(bodies1[|bodies1| - 1], EMPTY), dead := dead1, bodies := bodies1[..|bodies1| - 1])
  }

  /** `move_path`: one `move` per direction, in order, stopping at the first error. */
  function Steps(w: World, path: seq<Direc>): (r: (Outcome, World))
    requires w.Valid()
    ensures r.1.Valid() && (|w.bodies| > 0 ==> |r.1.bodies| > 0) && r.1.direc == w.direc
    ensures r.1.grid.numRows == w.grid.numRows && r.1.grid.numCols == w.grid.numCols
    decreases |path|
  {
    if path == [] then (Pass, w)
    else
      var (o, w1) := Step(w, Some(path[0]));
      if o.Fail? then (o, w1) else Steps(w1, path[1..])
  }

  /** A given direction always becomes the pending one; the committed direction never changes. */
  lemma StepSetsPending(w: World, newDirec: Option<Direc>)
    requires w.Valid()
    ensures Step(w, newDirec).1.direcNext == if newDirec.Some? then newDirec.value else w.direcNext
    ensures Step(w, newDirec).1.direc == w.direc
  {
  }

  /** A dead snake, a NONE pending direction or a reversal leaves body, board and flag untouched. */
  lemma StepBlocked(w: World, newDirec: Option<Direc>)
    requires w.Valid() && Pending(w, newDirec).Blocked()
    ensures Step(w, newDirec) == (Pass, Pending(w, newDirec))
  {
  }

  /** A move that is not blocked on an empty body reads the head of nothing and raises. */
  lemma StepEmptyFails(w: World, newDirec: Option<Direc>)
    requires w.Valid() && |w.bodies| == 0 && !Pending(w, newDirec).Blocked()
    ensures Step(w, newDirec) == (Fail(AttributeError), Pending(w, newDirec))
  {
  }

  /**
   * Without a committed direction a path whose first direction is a real one fails on its
   * first move, before anything but the pending direction changes.
   */
  lemma StepsWithoutDirecFail(w: World, path: seq<Direc>)
    requires w.Valid() && |w.bodies| > 0 && !w.dead && w.direc == NONE
    requires path != [] && path[0] != NONE
    ensures Steps(w, path) == (Fail(ValueError), Pending(w, Some(path[0])))
  {
    StepWithoutDirecFails(w, Some(path[0]));
  }

  /** Without a committed direction the old head has no body type and the cell setter raises. */
  lemma StepWithoutDirecFails(w: World, newDirec: Option<Direc>)
    requires w.Valid() && |w.bodies| > 0 && !Pending(w, newDirec).Blocked() && w.direc == NONE
    ensures Step(w, newDirec) == (Fail(ValueError), Pending(w, newDirec))
  {
  }

  /**
   * A proceeding move: the new head is the old head moved one step; the snake dies iff
   * that cell is not safe; on food the body grows by one and the food is gone, otherwise
   * the old tail's cell is emptied and the length is unchanged.
   */
  lemma StepProceeds(w: World, newDirec: Option<Direc>)
    requires w.Valid() && |w.bodies| > 0 && !Pending(w, newDirec).Blocked() && w.direc != NONE
    ensures var next := Pending(w, newDirec).direcNext;
            var newHead := Adj(w.bodies[0], next);
            var r := Step(w, newDirec);
            r.0 == Pass
            && r.1.bodies[0] == newHead
            && (r.1.dead <==> !w.grid.IsSafe(newHead))
            && (w.grid.At(newHead) == FOOD ==>
                  r.1.bodies == [newHead] + w.bodies && !r.1.grid.HasFood())
            && (w.grid.At(newHead) != FOOD ==>
                  r.1.bodies == [newHead] + w.bodies[..|w.bodies| - 1]
                  && r.1.grid.At(w.bodies[|w.bodies| - 1]) == EMPTY)
  {
    var next := Pending(w, newDirec).direcNext;
    OldHeadTypeJoinsSides(w.direc, next);
  }

  /**
   * The old head's cell receives the turn's body type unless that cell is the tail being
   * dropped or the food cell being cleared.
   */
  lemma StepRetypesOldHead(w: World, newDirec: Option<Direc>)
    requires w.Valid() && |w.bodies| > 0 && !Pending(w, newDirec).Blocked() && w.direc != NONE
    requires w.grid.food != Some(w.bodies[0])
    requires w.bodies[|w.bodies| - 1] != w.bodies[0] || w.grid.At(Adj(w.bodies[0], Pending(w, newDirec).direcNext)) == FOOD
    ensures Step(w, newDirec).1.grid.At(w.bodies[0]) ==
              OldHeadType(w.direc, Pending(w, newDirec).direcNext).value
  {
    var w1 := Pending(w, newDirec);
    OldHeadTypeJoinsSides(w.direc, w1.direcNext);
    var t := OldHeadType(w.direc, w1.direcNext).value;
    AdvanceKeeps(w1.(grid := w1.grid.SetAt(w.bodies[0], t)), w.bodies[0]);
  }

  /** Advancing leaves alone every cell that is neither the food nor the tail being dropped. */
  lemma AdvanceKeeps(w: World, p: Pos)
    requires w.Valid() && |w.bodies| > 0 && !w.Blocked() && w.grid.InBounds(p) && w.grid.food != Some(p)
    requires w.bodies[|w.bodies| - 1] != p || w.grid.At(Adj(w.bodies[0], w.direcNext)) == FOOD
    ensures Advance(w).grid.At(p) == w.grid.At(p)
  {
  }

  /** `move` never types the new head: off food and off the tail, its cell keeps its old type. */
  lemma StepLeavesNewHeadCell(w: World, newDirec: Option<Direc>)
    requires w.Valid() && |w.bodies| > 0 && !Pending(w, newDirec).Blocked() && w.direc != NONE
    requires var newHead := Adj(w.bodies[0], Pending(w, newDirec).direcNext);
             w.grid.At(newHead) != FOOD && newHead != w.bodies[|w.bodies| - 1]
    ensures var newHead := Adj(w.bodies[0], Pending(w, newDirec).direcNext);
            Step(w, newDirec).1.grid.At(newHead) == w.grid.At(newHead)
  {
    var next := Pending(w, newDirec).direcNext;
    OldHeadTypeJoinsSides(w.direc, next);
  }

  /** A dead snake stays where it is, whatever path it is given. */
  lemma {:induction false} DeadSnakeStays(w: World, path: seq<Direc>)
    requires w.Valid() && |w.bodies| > 0 && w.dead
    ensures Steps(w, path).0 == Pass
    ensures Steps(w, path).1.bodies == w.bodies && Steps(w, path).1.grid == w.grid && Steps(w, path).1.dead
    decreases |path|
  {
    if path != [] {
      StepBlocked(w, Some(path[0]));
      DeadSnakeStays(Pending(w, Some(path[0])), path[1..]);
    }
  }

  /** The board `reset` leaves: each body position typed with its init type, in list order. */
  function Paint(g: Grid, bodies: seq<Pos>, types: seq<PointType>): (h: Grid)
    requires g.WellFormed() && |types| >= |bodies|
    requires forall i :: 0 <= i < |bodies| ==> g.InBounds(bodies[i])
    ensures h.WellFormed() && h.numRows == g.numRows && h.numCols == g.numCols && h.food == g.food
    ensures forall q :: g.InBounds(q) && q !in bodies ==> h.At(q) == g.At(q)
    decreases |bodies|
  {
    if |bodies| == 0 then g
    else Paint(g, bodies[..|bodies| - 1], types).SetAt(bodies[|bodies| - 1], types[|bodies| - 1])
  }

  /** With distinct body positions, every body cell ends with its own init type. */
  lemma {:induction false} PaintTypesEachBody(g: Grid, bodies: seq<Pos>, types: seq<PointType>, i: nat)
    requires g.WellFormed() && |types| >= |bodies|
    requires forall k :: 0 <= k < |bodies| ==> g.InBounds(bodies[k])
    requires forall k, l :: 0 <= k < l < |bodies| ==> bodies[k] != bodies[l]
    requires i < |bodies|
    ensures Paint(g, bodies, types).At(bodies[i]) == types[i]
    decreases |bodies|
  {
    if i < |bodies| - 1 {
      PaintTypesEachBody(g, bodies[..|bodies| - 1], types, i);
    }
  }

  /** The World `reset` produces from the explicit initial values. */
  function ResetWorld(g: Grid, initDirec: Direc, initBodies: seq<Pos>, initTypes: seq<PointType>, resetMap: bool): World
    requires g.Valid() && |initTypes| >= |initBodies|
    requires forall i :: 0 <= i < |initBodies| ==> g.InBounds(initBodies[i])
  {
    var base := if resetMap then ResetGrid(g.numRows, g.numCols) else g;
    assert forall i :: 0 <= i < |initBodies| ==> base.InBounds(initBodies[i]) by {
      forall i | 0 <= i < |initBodies| ensures base.InBounds(initBodies[i]) {
        assert g.InBounds(initBodies[i]);
      }
    }
    World(Paint(base, initBodies, initTypes), false, initDirec, NONE, initBodies)
  }

  /**
   * After `reset` the snake is alive, faces its initial direction, has no pending direction
   * and its initial body; the board is reset first only when asked, and cells off the body
   * are those of that board.
   */
  lemma ResetWorldFacts(g: Grid, initDirec: Direc, initBodies: seq<Pos>, initTypes: seq<PointType>, resetMap: bool, q: Pos)
    requires g.Valid() && |initTypes| >= |initBodies|
    requires forall i :: 0 <= i < |initBodies| ==> g.InBounds(initBodies[i])
    requires (|initBodies| > 0 ==> g.IsInside(initBodies[0]))
    ensures var w := ResetWorld(g, initDirec, initBodies, initTypes, resetMap);
            w.Valid() && !w.dead && w.direc == initDirec && w.direcNext == NONE && w.bodies == initBodies
    ensures var w := ResetWorld(g, initDirec, initBodies, initTypes, resetMap);
            g.InBounds(q) && q !in initBodies ==>
              w.grid.At(q) == (if resetMap then ResetType(g.numRows, g.numCols, q.x, q.y) else g.At(q))
  {
    ResetGridFacts(g.numRows, g.numCols, q);
  }

  class Snake {
    const gameMap: Map
    const initDirec: Direc
    const initBodies: seq<Pos>
    const initTypes: seq<PointType>
    var dead: bool
    var direc: Direc
    var direcNext: Direc
    var bodies: seq<Pos>

    function View(): World
      reads this, gameMap
    {
      World(gameMap.View(), dead, direc, direcNext, bodies)
    }

    ghost predicate Valid()
      reads this, gameMap
    {
      gameMap.Valid() && View().Valid()
    }

    /** The explicit initial values `reset` can apply to this board. */
    ghost predicate InitFits()
      reads this, gameMap
    {
      |initTypes| >= |initBodies|
      && (forall i :: 0 <= i < |initBodies| ==> gameMap.View().InBounds(initBodies[i]))
      && (|initBodies| > 0 ==> gameMap.View().IsInside(initBodies[0]))
    }

    /** `Snake(game_map, init_direc, init_bodies, init_types)`: stores the values and runs `reset(False)`. */
    constructor (gameMap: Map, initDirec: Direc, initBodies: seq<Pos>, initTypes: seq<PointType>)
      requires gameMap.Valid() && |initTypes| >= |initBodies|
      requires forall i :: 0 <= i < |initBodies| ==> gameMap.View().InBounds(initBodies[i])
      requires |initBodies| > 0 ==> gameMap.View().IsInside(initBodies[0])
      modifies gameMap
      ensures Valid() && InitFits()
      ensures this.gameMap == gameMap && this.initDirec == initDirec
      ensures this.initBodies == initBodies && this.initTypes == initTypes
      ensures View() == ResetWorld(old(gameMap.View()), initDirec, initBodies, initTypes, false)
    {
      this.gameMap := gameMap;
      this.initDirec := initDirec;
      this.initBodies := initBodies;
      this.initTypes := initTypes;
      new;
      Reset(false);
    }

    /** `reset(reset_map)` on the explicit-init path. */
    method Reset(resetMap: bool)
      requires gameMap.Valid() && InitFits()
      modifies this, gameMap
      ensures Valid() && InitFits()
      ensures View() == ResetWorld(old(gameMap.View()), initDirec, initBodies, initTypes, resetMap)
    {
      dead := false;
      direc := initDirec;
      direcNext := NONE;
      bodies := initBodies;
      ghost var g0 := gameMap.View();
      if resetMap {
        gameMap.Reset();
      }
      ghost var base := gameMap.View();
      for i := 0 to |initBodies|
        invariant gameMap.Valid() && gameMap.View().numRows == g0.numRows && gameMap.View().numCols == g0.numCols
        invariant gameMap.View() == Paint(base, initBodies[..i], initTypes)
        invariant bodies == initBodies && !dead && direc == initDirec && direcNext == NONE
      {
        assert initBodies[..i + 1][..i] == initBodies[..i];
        var _ := gameMap.SetPointType(initBodies[i], Instance(initTypes[i]));
      }
      assert initBodies[..|initBodies|] == initBodies;
      forall k | 0 <= k < |initBodies|
        ensures gameMap.View().InBounds(initBodies[k])
      {
        assert g0.InBounds(initBodies[k]);
      }
    }

    /** `dead = value`, refusing a non-boolean. */
    method SetDead(value: Dyn<bool>) returns (r: Outcome)
      requires Valid()
      requires value.Instance? && !value.value && |bodies| > 0 ==> gameMap.View().IsInside(bodies[0])
      modifies this
      ensures Valid()
      ensures value.Instance? ==> r == Pass && View() == old(View()).(dead := value.value)
      ensures value.Foreign? ==> r == Fail(ValueError) && View() == old(View())
    {
      if value.Foreign? {
        return Fail(ValueError);
      }
      dead := value.value;
      r := Pass;
    }

    /** `direc_next = value`, refusing a non-Direc. */
    method SetDirecNext(value: Dyn<Direc>) returns (r: Outcome)
      requires Valid()
      modifies this
      ensures Valid()
      ensures value.Instance? ==> r == Pass && View() == old(View()).(direcNext := value.value)
      ensures value.Foreign? ==> r == Fail(ValueError) && View() == old(View())
    {
      if value.Foreign? {
        return Fail(ValueError);
      }
      direcNext := value.value;
      r := Pass;
    }

    /** `len()` */
    function Len(): (n: nat)
      reads this
      ensures n == |bodies|
    {
      |bodies|
    }

    /** `head()`: the first position, or None on an empty body. */
    function Head(): (h: Option<Pos>)
      reads this
      ensures h.None? <==> |bodies| == 0
      ensures h.Some? ==> h.value == bodies[0]
    {
      if |bodies| == 0 then None else Some(bodies[0])
    }

    /** `tail()`: the last position, or None on an empty body. */
    function Tail(): (t: Option<Pos>)
      reads this
      ensures t.None? <==> |bodies| == 0
      ensures t.Some? ==> t.value == bodies[|bodies| - 1]
    {
      if |bodies| == 0 then None else Some(bodies[|bodies| - 1])
    }

    /** `_rm_tail`: the tail's cell becomes EMPTY and the tail is dropped. */
    method RmTail()
      requires gameMap.Valid() && |bodies| > 0 && gameMap.View().InBounds(bodies[|bodies| - 1])
      modifies this, gameMap
      ensures gameMap.Valid()
      ensures gameMap.View() == old(gameMap.View()).SetAt(old(bodies[|bodies| - 1]), EMPTY)
      ensures bodies == old(bodies[..|bodies| - 1])
      ensures dead == old(dead) && direc == old(direc) && direcNext == old(direcNext)
    {
      var _ := gameMap.SetPointType(bodies[|bodies| - 1], Instance(EMPTY));
      bodies := bodies[..|bodies| - 1];
    }

    /** `move(new_direc)`; None stands for the omitted argument. */
    method Move(newDirec: Option<Direc>) returns (r: Outcome)
      requires Valid()
      modifies this, gameMap
      ensures Valid() && (old(|bodies|) > 0 ==> |bodies| > 0)
      ensures (r, View()) == Step(old(View()), newDirec)
    {
      if newDirec.Some? {
        direcNext := newDirec.value;
      }
      if dead || direcNext == NONE || direcNext == Opposite(direc) {
        return Pass;
      }
      if |bodies| == 0 {
        return Fail(AttributeError);
      }
      var (oldType, _) := NewTypes(direc, direcNext);
      var head := bodies[0];
      r := gameMap.SetPointType(head, if oldType.Some? then Instance(oldType.value) else Foreign);
      if r.Fail? {
        return;
      }
      AdvanceInPlace();
    }

    /** The tail of `move` after the old head is retyped. */
    method AdvanceInPlace()
      requires Valid() && |bodies| > 0 && !View().Blocked()
      modifies this, gameMap
      ensures Valid() && View() == Advance(old(View()))
    {
      ghost var w := View();
      var newHead := Adj(bodies[0], direcNext);
      bodies := [newHead] + bodies;
      if !gameMap.View().IsSafe(newHead) {
        dead := true;
      }
      assert dead == !w.grid.IsSafe(newHead);
      if gameMap.content[newHead.x][newHead.y] == FOOD {
        assert w.grid.At(newHead) == FOOD;
        gameMap.RmFood();
      } else {
        assert w.grid.At(newHead) != FOOD;
        RmTail();
      }
      assert View() == Advance(w);
    }

    /** `move_path`: `move` once per direction of the path, in order. */
    method MovePath(path: seq<Direc>) returns (r: Outcome)
      requires Valid()
      modifies this, gameMap
      ensures Valid() && (old(|bodies|) > 0 ==> |bodies| > 0)
      ensures (r, View()) == Steps(old(View()), path)
    {
      r := Pass;
      for i := 0 to |path|
        invariant Valid() && (old(|bodies|) > 0 ==> |bodies| > 0) && r == Pass
        invariant Steps(old(View()), path) == Steps(View(), path[i..])
      {
        assert path[i..][0] == path[i] && path[i..][1..] == path[i + 1..];
        ghost var before := View();
        r := Move(Some(path[i]));
        assert Steps(before, path[i..]) == if r.Fail? then (r, View()) else Steps(View(), path[i + 1..]);
        if r.Fail? {
          return;
        }
      }
    }

    /**
     * `copy`, with its intended meaning: a new snake over a copy of the board, sharing
     * the pending and committed directions, the flag and the body. The board copy has
     * no food pointer, and the new snake keeps `Snake(m_copy, NONE, [], [])`'s init values.
     */
    method Copy() returns (s: Snake, m: Map)
      requires Valid()
      ensures fresh(s) && fresh(m) && s.gameMap == m && s.Valid()
      ensures s.View() == View().(grid := gameMap.View().(food := None))
      ensures s.initDirec == NONE && s.initBodies == [] && s.initTypes == []
    {
      m := gameMap.Copy();
      s := new Snake(m, NONE, [], []);
      s.dead := dead;
      s.direc := direc;
      s.direcNext := direcNext;
      s.bodies := bodies;
    }
  }
}
