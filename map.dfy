/**
 * The bordered board of base/map.py. Its value (dimensions, cell types and the
 * food pointer) is the datatype Grid, where the read-only queries live; the
 * class Map holds that state and updates it in place.
 */
module Board {
  import opened Common
  import opened Points
  import opened Positions

  /** The cell type a freshly reset board has at (i, j). */
  function ResetType(numRows: int, numCols: int, i: int, j: int): PointType
  {
    if i == 0 || i == numRows - 1 || j == 0 || j == numCols - 1 then WALL else EMPTY
  }

  datatype Grid = Grid(numRows: int, numCols: int, cells: seq<seq<PointType>>, food: Option<Pos>)
  {
    /** The cells form a numRows x numCols rectangle. */
    predicate WellFormed()
    {
      |cells| == numRows && forall i :: 0 <= i < |cells| ==> |cells[i]| == numCols
    }

    /** The board invariant: a legal size, a rectangle, and food (if any) inside the wall ring. */
    predicate Valid()
    {
      numRows >= 5 && numCols >= 5 && WellFormed() && (food.Some? ==> IsInside(food.value))
    }

    /** Indexing `_content[pos.x][pos.y]` lands on a cell. */
    predicate InBounds(p: Pos)
    {
      0 <= p.x < numRows && 0 <= p.y < numCols
    }

    /** `point(pos).type` */
    function At(p: Pos): PointType
      requires WellFormed() && InBounds(p)
    {
      cells[p.x][p.y]
    }

    /** `is_inside`: strictly inside the wall ring. */
    predicate IsInside(p: Pos)
    {
      0 < p.x < numRows - 1 && 0 < p.y < numCols - 1
    }

    /** `is_empty` */
    predicate IsEmpty(p: Pos)
      requires WellFormed()
    {
      IsInside(p) && At(p) == EMPTY
    }

    /** `is_safe`, as written: inside and (not a wall, or food). */
    predicate IsSafe(p: Pos)
      requires WellFormed()
    {
      IsInside(p) && (At(p) != WALL || At(p) == FOOD)
    }

    /** The condition `is_full` scans for: every interior cell holds a snake type. */
    predicate Full()
      requires WellFormed()
    {
      forall i, j :: 0 < i < numRows - 1 && 0 < j < numCols - 1 ==> IsSnake(cells[i][j])
    }

    predicate HasFood()
    {
      food.Some?
    }

    /** The board with one cell's type replaced. */
    function SetAt(p: Pos, t: PointType): (g: Grid)
      requires WellFormed() && InBounds(p)
      ensures g.WellFormed() && g.numRows == numRows && g.numCols == numCols && g.food == food
      ensures g.At(p) == t
      ensures forall q :: InBounds(q) && q != p ==> g.At(q) == At(q)
    {
      this.(cells := cells[p.x := cells[p.x][p.y := t]])
    }

    /** `rm_food`: the food cell becomes EMPTY and the pointer None; nothing happens without food. */
    function RmFood(): (g: Grid)
      requires WellFormed() && (food.Some? ==> InBounds(food.value))
      ensures g.WellFormed() && g.numRows == numRows && g.numCols == numCols && !g.HasFood()
      ensures food.None? ==> g == this
      ensures food.Some? ==> g.At(food.value) == EMPTY
      ensures forall q :: InBounds(q) && Some(q) != food ==> g.At(q) == At(q)
    {
      if HasFood() then SetAt(food.value, EMPTY).(food := None) else this
    }

    /** `create_food`: only an inside, EMPTY cell receives the food; otherwise nothing changes. */
    function CreateFood(p: Pos): (g: Grid)
      requires WellFormed()
      ensures g.WellFormed() && g.numRows == numRows && g.numCols == numCols
      ensures IsEmpty(p) ==> g.food == Some(p) && g.At(p) == FOOD
      ensures !IsEmpty(p) ==> g == this
      ensures forall q :: InBounds(q) && q != p ==> g.At(q) == At(q)
    {
      if IsInside(p) && IsEmpty(p) then SetAt(p, FOOD).(food := Some(p)) else this
    }
  }

  /** The board `reset` produces: a wall ring around EMPTY cells, and no food. */
  function ResetGrid(numRows: nat, numCols: nat): (g: Grid)
    ensures g.WellFormed() && g.numRows == numRows && g.numCols == numCols
    ensures forall i, j :: 0 <= i < numRows && 0 <= j < numCols ==> g.cells[i][j] == ResetType(numRows, numCols, i, j)
  {
    Grid(numRows, numCols, seq(numRows, i => seq(numCols, j => ResetType(numRows, numCols, i, j))), None)
  }

  /**
   * After a reset, border cells are walls, interior cells are empty and safe, there is
   * no food and the board is not full.
   */
  lemma ResetGridFacts(numRows: nat, numCols: nat, p: Pos)
    requires numRows >= 5 && numCols >= 5
    ensures ResetGrid(numRows, numCols).Valid() && !ResetGrid(numRows, numCols).HasFood()
    ensures ResetGrid(numRows, numCols).InBounds(p) && !ResetGrid(numRows, numCols).IsInside(p) ==>
              ResetGrid(numRows, numCols).At(p) == WALL
    ensures ResetGrid(numRows, numCols).IsInside(p) ==>
              ResetGrid(numRows, numCols).IsEmpty(p) && ResetGrid(numRows, numCols).IsSafe(p)
    ensures !ResetGrid(numRows, numCols).Full()
  {
    var g := ResetGrid(numRows, numCols);
    assert g.cells[1][1] == EMPTY;
  }

  /** `is_safe` is `is_inside` and not a wall: its FOOD disjunct adds nothing, and snake cells count as safe. */
  lemma IsSafeIgnoresSnake(g: Grid, p: Pos)
    requires g.WellFormed()
    ensures g.IsSafe(p) <==> g.IsInside(p) && g.At(p) != WALL
    ensures g.IsInside(p) && IsSnake(g.At(p)) ==> g.IsSafe(p)
  {
  }

  /** `is_empty` implies `is_inside`, and an empty cell is safe. */
  lemma EmptyIsInsideAndSafe(g: Grid, p: Pos)
    requires g.WellFormed()
    ensures g.IsEmpty(p) ==> g.IsInside(p) && g.IsSafe(p)
  {
  }

  /** A full board has no empty cell, so no food can be placed on it. */
  lemma FullHasNoEmptyCell(g: Grid, p: Pos)
    requires g.WellFormed() && g.Full()
    ensures !g.IsEmpty(p)
    ensures g.CreateFood(p) == g
  {
  }

  class Map {
    const numRows: int
    const numCols: int
    const capacity: int
    var content: seq<seq<PointType>>
    var food: Option<Pos>

    /** The board's current value. */
    function View(): Grid
      reads this
    {
      Grid(numRows, numCols, content, food)
    }

    ghost predicate Valid()
      reads this
    {
      View().Valid() && capacity == (numRows - 2) * (numCols - 2)
    }

    /** `Map(num_rows, num_cols)` once the argument checks have passed. */
    constructor (numRows: int, numCols: int)
      requires numRows >= 5 && numCols >= 5
      ensures Valid() && this.numRows == numRows && this.numCols == numCols
      ensures capacity == (numRows - 2) * (numCols - 2)
      ensures View() == ResetGrid(numRows, numCols)
    {
      this.numRows := numRows;
      this.numCols := numCols;
      capacity := (numRows - 2) * (numCols - 2);
      content := seq(numRows, _ => seq(numCols, _ => EMPTY));
      food := None;
      new;
      Reset();
    }

    /** `Map(num_rows, num_cols)` with its TypeError and ValueError checks. */
    static method Create(numRows: Dyn<int>, numCols: Dyn<int>) returns (r: Result<Map>)
      ensures numRows.Foreign? || numCols.Foreign? ==> r == Failure(TypeError)
      ensures numRows.Instance? && numCols.Instance? && (numRows.value < 5 || numCols.value < 5) ==>
                r == Failure(ValueError)
      ensures numRows.Instance? && numCols.Instance? && numRows.value >= 5 && numCols.value >= 5 ==>
                r.Success? && fresh(r.value) && r.value.Valid()
                && r.value.View() == ResetGrid(numRows.value, numCols.value)
                && r.value.capacity == (numRows.value - 2) * (numCols.value - 2)
    {
      if numRows.Foreign? || numCols.Foreign? {
        return Failure(TypeError);
      }
      if numRows.value < 5 || numCols.value < 5 {
        return Failure(ValueError);
      }
      var m := new Map(numRows.value, numCols.value);
      r := Success(m);
    }

    /** `reset`: walls on the border, EMPTY inside, no food; the result does not depend on the old board. */
    method Reset()
      requires numRows >= 5 && numCols >= 5 && View().WellFormed()
      requires capacity == (numRows - 2) * (numCols - 2)
      modifies this
      ensures Valid() && View() == ResetGrid(numRows, numCols)
    {
      food := None;
      for i := 0 to numRows
        invariant |content| == numRows && forall k :: 0 <= k < numRows ==> |content[k]| == numCols
        invariant forall k, l :: 0 <= k < i && 0 <= l < numCols ==> content[k][l] == ResetType(numRows, numCols, k, l)
        invariant food == None
      {
        for j := 0 to numCols
          invariant |content| == numRows && forall k :: 0 <= k < numRows ==> |content[k]| == numCols
          invariant forall k, l :: 0 <= k < i && 0 <= l < numCols ==> content[k][l] == ResetType(numRows, numCols, k, l)
          invariant forall l :: 0 <= l < j ==> content[i][l] == ResetType(numRows, numCols, i, l)
          invariant food == None
        {
          if i == 0 || i == numRows - 1 || j == 0 || j == numCols - 1 {
            content := content[i := content[i][j := WALL]];
          } else {
            content := content[i := content[i][j := EMPTY]];
          }
        }
      }
      GridEquality(View(), ResetGrid(numRows, numCols));
    }

    /** `point(p).type = value`: the cell's validating setter refuses anything but a PointType. */
    method SetPointType(p: Pos, value: Dyn<PointType>) returns (r: Outcome)
      requires Valid() && View().InBounds(p)
      modifies this
      ensures Valid()
      ensures value.Instance? ==> r == Pass && View() == old(View()).SetAt(p, value.value)
      ensures value.Foreign? ==> r == Fail(ValueError) && View() == old(View())
    {
      if value.Foreign? {
        return Fail(ValueError);
      }
      content := content[p.x := content[p.x][p.y := value.value]];
      r := Pass;
    }

    /** `rm_food` */
    method RmFood()
      requires Valid()
      modifies this
      ensures Valid() && View() == old(View()).RmFood()
    {
      if food.Some? {
        var p := food.value;
        content := content[p.x := content[p.x][p.y := EMPTY]];
        food := None;
      }
    }

    /** `create_food` */
    method CreateFood(p: Pos)
      requires Valid()
      modifies this
      ensures Valid() && View() == old(View()).CreateFood(p)
    {
      if View().IsInside(p) && View().IsEmpty(p) {
        content := content[p.x := content[p.x][p.y := FOOD]];
        food := Some(p);
      }
    }

    /** `is_full`: a scan of the interior that stops at the first non-snake cell. */
    method IsFull() returns (r: bool)
      requires Valid()
      ensures r == View().Full()
    {
      for i := 1 to numRows - 1
        invariant forall a, b :: 1 <= a < i && 1 <= b < numCols - 1 ==> IsSnake(content[a][b])
      {
        for j := 1 to numCols - 1
          invariant forall a, b :: 1 <= a < i && 1 <= b < numCols - 1 ==> IsSnake(content[a][b])
          invariant forall b :: 1 <= b < j ==> IsSnake(content[i][b])
        {
          if Value(content[i][j]) < Value(HEAD_L) {
            return false;
          }
        }
      }
      return true;
    }

    /**
     * `create_rand_food`: with food present nothing happens; otherwise the food goes to
     * some EMPTY interior cell (the random pick is any of them), or nowhere if none exists.
     */
    method CreateRandFood()
      requires Valid()
      modifies this
      ensures Valid()
      ensures old(View()).HasFood() ==> View() == old(View())
      ensures !old(View()).HasFood() && (forall q :: !old(View()).IsEmpty(q)) ==> View() == old(View())
      ensures !old(View()).HasFood() && (exists q :: old(View()).IsEmpty(q)) ==>
                food.Some? && old(View()).IsEmpty(food.value) && View() == old(View()).CreateFood(food.value)
    {
      if food.Some? {
        return;
      }
      var options: seq<Pos> := [];
      for i := 1 to numRows - 1
        invariant forall k :: 0 <= k < |options| ==> View().IsEmpty(options[k])
        invariant forall a, b :: 1 <= a < i && 1 <= b < numCols - 1 && content[a][b] == EMPTY ==> Pos(a, b) in options
      {
        for j := 1 to numCols - 1
          invariant forall k :: 0 <= k < |options| ==> View().IsEmpty(options[k])
          invariant forall a, b :: 1 <= a < i && 1 <= b < numCols - 1 && content[a][b] == EMPTY ==> Pos(a, b) in options
          invariant forall b :: 1 <= b < j && content[i][b] == EMPTY ==> Pos(i, b) in options
        {
          if content[i][j] == EMPTY {
            options := options + [Pos(i, j)];
          }
        }
      }
      if |options| > 0 {
        var k :| 0 <= k < |options|;
        CreateFood(options[k]);
      } else {
        assert forall q :: old(View()).IsEmpty(q) ==> q in options;
      }
    }

    /**
     * `copy`, with its intended meaning: a fresh board of the same size holding the same
     * cell types. The fresh Map starts from `reset`, so the copy has no food pointer.
     */
    method Copy() returns (m: Map)
      requires Valid()
      ensures fresh(m) && m.Valid() && m.View() == View().(food := None)
      ensures m.capacity == capacity
    {
      m := new Map(numRows, numCols);
      for i := 0 to numRows
        invariant m.Valid() && m.numRows == numRows && m.numCols == numCols && m.food == None
        invariant forall k :: 0 <= k < i ==> m.content[k] == content[k]
      {
        for j := 0 to numCols
          invariant m.Valid() && m.numRows == numRows && m.numCols == numCols && m.food == None
          invariant forall k :: 0 <= k < i ==> m.content[k] == content[k]
          invariant forall l :: 0 <= l < j ==> m.content[i][l] == content[i][l]
        {
          m.content := m.content[i := m.content[i][j := content[i][j]]];
        }
        assert m.content[i] == content[i];
      }
      assert m.content == content;
    }
  }

  /** Writing a cell's own type back after another write restores the board. */
  lemma SetAtRestore(g: Grid, p: Pos, t: PointType)
    requires g.WellFormed() && g.InBounds(p)
    ensures g.SetAt(p, t).SetAt(p, g.At(p)) == g
  {
    var h := g.SetAt(p, t).SetAt(p, g.At(p));
    forall i, j | 0 <= i < g.numRows && 0 <= j < g.numCols
      ensures h.cells[i][j] == g.cells[i][j]
    {
      assert h.At(Pos(i, j)) == g.At(Pos(i, j));
    }
    GridEquality(h, g);
  }

  /** Two well-formed boards with equal cells everywhere are equal. */
  lemma GridEquality(g: Grid, h: Grid)
    requires g.WellFormed() && h.WellFormed()
    requires g.numRows == h.numRows && g.numCols == h.numCols && g.food == h.food
    requires forall i, j :: 0 <= i < g.numRows && 0 <= j < g.numCols ==> g.cells[i][j] == h.cells[i][j]
    ensures g == h
  {
    forall i | 0 <= i < g.numRows
      ensures g.cells[i] == h.cells[i]
    {
    }
  }
}
