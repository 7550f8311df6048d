/** Cell types and the single-field cell of base/point.py. */
module Points {
  import opened Common

  datatype PointType =
    | EMPTY | WALL | FOOD
    | HEAD_L | HEAD_U | HEAD_R | HEAD_D
    | BODY_LU | BODY_UR | BODY_RD | BODY_DL | BODY_HOR | BODY_VER

  /** The enum's integer value. */
  function Value(t: PointType): nat
  {
    match t
    case EMPTY => 0
    case WALL => 1
    case FOOD => 2
    case HEAD_L => 100
    case HEAD_U => 101
    case HEAD_R => 102
    case HEAD_D => 103
    case BODY_LU => 104
    case BODY_UR => 105
    case BODY_RD => 106
    case BODY_DL => 107
    case BODY_HOR => 108
    case BODY_VER => 109
  }

  /** The magnitude test the source uses for "occupied by the snake". */
  predicate IsSnake(t: PointType)
  {
    Value(t) >= Value(HEAD_L)
  }

  /** Every head or body variant lies above EMPTY, WALL and FOOD. */
  lemma SnakeTypesAboveOthers(t: PointType)
    ensures IsSnake(t) <==> t != EMPTY && t != WALL && t != FOOD
    ensures IsSnake(t) ==> Value(t) > Value(FOOD) > Value(WALL) > Value(EMPTY)
  {
  }

  lemma ValuesDistinct(a: PointType, b: PointType)
    ensures Value(a) == Value(b) <==> a == b
  {
  }

  /** A cell of the board; its position is implied by where it is stored. */
  class Point {
    var kind: PointType

    constructor ()
      ensures kind == EMPTY
    {
      kind := EMPTY;
    }

    /** The `type` getter. */
    function Type(): PointType
      reads this
    {
      kind
    }

    /** The `type` setter: anything that is not a PointType raises ValueError. */
    method SetType(value: Dyn<PointType>) returns (r: Outcome)
      modifies this
      ensures value.Instance? ==> r == Pass && kind == value.value
      ensures value.Foreign? ==> r == Fail(ValueError) && kind == old(kind)
    {
      if value.Foreign? {
        return Fail(ValueError);
      }
      kind := value.value;
      r := Pass;
    }
  }

  /** The getter returns what the last successful assignment stored. */
  method SetThenGet(p: Point, first: PointType, second: Dyn<PointType>) returns (got: PointType)
    modifies p
    ensures got == (if second.Instance? then second.value else first)
  {
    var _ := p.SetType(Instance(first));
    var _ := p.SetType(second);
    got := p.Type();
  }
}
