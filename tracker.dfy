/**
 * The game-state tracker of the C scanner (scanner/superSnake_v2.h): a 15 x 17
 * board of cell codes, the snake as a queue of cells from its rear to its front,
 * the score, the apple and a direction mask, plus the detector that turns the
 * highest-scoring screen cells into the move the snake just made.
 */
module Tracker {
  import opened Common
  import opened Coords
  import opened MaxHeaps

  /** The cell codes stored on the board. */
  const EMPTY := 0
  const SNAKE := 1
  const HEAD := 2
  const APPLE := 3

  /** `val_is_empty_or_apple`. */
  predicate ValIsEmptyOrApple(v: int)
  {
    v == EMPTY || v == APPLE
  }

  /** `coords_are_equal`: componentwise equality is equality of coordinates. */
  function CoordsAreEqual(a: Coord, b: Coord): (r: bool)
    ensures r <==> a == b
  {
    a.row == b.row && a.col == b.col
  }

  /** The snake a new game starts with, rear first. */
  const INITIAL_BODY: seq<Coord> := [Coord(7, 1), Coord(7, 2), Coord(7, 3), Coord(7, 4)]

  /** The board a new game starts with. */
  function InitialCell(p: Coord): int
  {
    if p == Coord(7, 4) then HEAD
    else if p.row == 7 && 1 <= p.col <= 3 then SNAKE
    else if p == Coord(7, 12) then APPLE
    else EMPTY
  }

  function Last<T>(s: seq<T>): T
    requires |s| > 0
  {
    s[|s| - 1]
  }

  /** Everything but the last element; nothing for the empty sequence. */
  function AllButLast<T>(s: seq<T>): (r: seq<T>)
    ensures s != [] ==> s == r + [s[|s| - 1]]
    ensures s == [] ==> r == []
  {
    if s == [] then [] else s[..|s| - 1]
  }

  /**
   * The direction bit whose neighbour of `front` is c, unless that neighbour is
   * `lastHead`, checked north, south, east, west; 0 when there is none.
   */
  function Match(c: Coord, front: Coord, lastHead: Coord): (r: bv32)
    ensures r == 0 || (MoveIsSingle(r) && Step(front, r) == c && c != lastHead)
    ensures r == 0 <==> c == lastHead || (c != North(front) && c != South(front) && c != East(front) && c != West(front))
  {
    if c == North(front) && North(front) != lastHead then DIR_NORTH
    else if c == South(front) && South(front) != lastHead then DIR_SOUTH
    else if c == East(front) && East(front) != lastHead then DIR_EAST
    else if c == West(front) && West(front) != lastHead then DIR_WEST
    else 0
  }

  /** The move detected from candidate nodes taken in order: the first whose cell matches. */
  function Detect(ps: seq<HeapNode>, front: Coord, lastHead: Coord): bv32
  {
    if ps == [] then 0
    else if Match(ps[0].coord, front, lastHead) != 0 then Match(ps[0].coord, front, lastHead)
    else Detect(ps[1..], front, lastHead)
  }

  /** Some node of ps is at cell c. */
  predicate HasCell(ps: seq<HeapNode>, c: Coord)
  {
    exists k :: 0 <= k < |ps| && ps[k].coord == c
  }

  /** What `determine_move` returns after popping ps: nothing once the rear was among them. */
  function Decision(ps: seq<HeapNode>, front: Coord, lastHead: Coord, rear: Coord): bv32
  {
    Detect(ps, front, lastHead) & (if HasCell(ps, rear) then 0 else ALL_MOVES)
  }

  /** A detected move is one direction, leads to one of the candidates, and never to `lastHead`. */
  lemma {:induction false} DetectSound(ps: seq<HeapNode>, front: Coord, lastHead: Coord)
    ensures var d := Detect(ps, front, lastHead);
            d == 0 || (MoveIsSingle(d) && HasCell(ps, Step(front, d)) && Step(front, d) != lastHead)
  {
    if ps != [] && Match(ps[0].coord, front, lastHead) == 0 {
      DetectSound(ps[1..], front, lastHead);
      var d := Detect(ps, front, lastHead);
      if d != 0 {
        var k :| 0 <= k < |ps[1..]| && ps[1..][k].coord == Step(front, d);
        assert ps[k + 1].coord == Step(front, d);
      }
    } else if ps != [] {
      assert ps[0].coord == Step(front, Detect(ps, front, lastHead));
    }
  }

  /** Nothing is detected exactly when no candidate is a neighbour other than `lastHead`. */
  lemma {:induction false} DetectNone(ps: seq<HeapNode>, front: Coord, lastHead: Coord)
    ensures Detect(ps, front, lastHead) == 0 <==> forall k :: 0 <= k < |ps| ==> Match(ps[k].coord, front, lastHead) == 0
  {
    if ps != [] {
      DetectNone(ps[1..], front, lastHead);
      assert forall k :: 0 < k < |ps| ==> ps[k] == ps[1..][k - 1];
    }
  }

  /** Taking one more candidate after a fruitless run detects exactly that candidate's match. */
  lemma {:induction false} DetectAppend(ps: seq<HeapNode>, n: HeapNode, front: Coord, lastHead: Coord)
    requires Detect(ps, front, lastHead) == 0
    ensures Detect(ps + [n], front, lastHead) == Match(n.coord, front, lastHead)
  {
    if ps != [] {
      assert (ps + [n])[1..] == ps[1..] + [n];
      DetectAppend(ps[1..], n, front, lastHead);
    }
  }

  /** One more popped node after fruitless ones: what is detected and whether the rear was seen. */
  lemma DetectStep(ps: seq<HeapNode>, n: HeapNode, front: Coord, lastHead: Coord, rear: Coord)
    requires Detect(ps, front, lastHead) == 0
    ensures Detect(ps + [n], front, lastHead) == Match(n.coord, front, lastHead)
    ensures HasCell(ps + [n], rear) <==> HasCell(ps, rear) || n.coord == rear
  {
    DetectAppend(ps, n, front, lastHead);
    var qs := ps + [n];
    assert qs[|ps|] == n;
    if HasCell(ps, rear) {
      var k :| 0 <= k < |ps| && ps[k].coord == rear;
      assert qs[k] == ps[k];
    }
    if HasCell(qs, rear) && n.coord != rear {
      var k :| 0 <= k < |qs| && qs[k].coord == rear;
      assert ps[k] == qs[k];
    }
  }

  /** The decision as `determine_move` computes it: the detected bit and-ed with the mask. */
  lemma DecisionOf(ps: seq<HeapNode>, front: Coord, lastHead: Coord, rear: Coord, d: bv32, mask: bv32, r: bv32)
    requires d == Detect(ps, front, lastHead) && mask == (if HasCell(ps, rear) then 0 else ALL_MOVES)
    requires r == d & mask
    ensures r == Decision(ps, front, lastHead, rear)
  {
  }

  /** The decision is 0 or one direction bit, never towards `lastHead`, and 0 once the rear was popped. */
  lemma DecisionSound(ps: seq<HeapNode>, front: Coord, lastHead: Coord, rear: Coord)
    ensures var r := Decision(ps, front, lastHead, rear);
            (r == 0 || (MoveIsSingle(r) && HasCell(ps, Step(front, r)) && Step(front, r) != lastHead))
            && (HasCell(ps, rear) ==> r == 0)
            && (!HasCell(ps, rear) ==> r == Detect(ps, front, lastHead))
  {
    DetectSound(ps, front, lastHead);
  }

  /** Keys taken from a max-heap one pop at a time come out in non-increasing order. */
  predicate Descending(ps: seq<HeapNode>)
  {
    forall k :: 0 < k < |ps| ==> ps[k - 1].key >= ps[k].key
  }

  /**
   * The nodes popped so far and the nodes still in the heap make up the
   * original heap, the popped keys descend, and no remaining key exceeds them.
   */
  ghost predicate PopLog(contents: seq<HeapNode>, all: multiset<HeapNode>, popped: seq<HeapNode>)
  {
    multiset(contents) + multiset(popped) == all && Descending(popped)
    && (popped != [] ==> forall n :: n in contents ==> n.key <= Last(popped).key)
  }

  /** Popping a maximum of the remaining nodes extends the log. */
  lemma PopLogStep(before: seq<HeapNode>, after: seq<HeapNode>, all: multiset<HeapNode>, popped: seq<HeapNode>, node: HeapNode)
    requires PopLog(before, all, popped)
    requires |before| > 0 && node == before[0] && multiset(after) + multiset{node} == multiset(before)
    requires forall n :: n in before ==> n.key <= node.key
    ensures PopLog(after, all, popped + [node])
  {
    var ps := popped + [node];
    assert multiset(ps) == multiset(popped) + multiset{node};
    forall k | 0 < k < |ps|
      ensures ps[k - 1].key >= ps[k].key
    {
      if k == |ps| - 1 && popped != [] {
        assert ps[k - 1] == Last(popped);
      }
    }
    forall n | n in after
      ensures n.key <= node.key
    {
      assert n in multiset(before);
    }
  }

  /** The clearing loops of `flash_initial_state`: every cell of the board becomes EMPTY. */
  method ClearBoard(b: array2<int>)
    requires b.Length0 == ROWS && b.Length1 == COLS
    modifies b
    ensures forall i, j :: 0 <= i < ROWS && 0 <= j < COLS ==> b[i, j] == EMPTY
  {
    var r := 0;
    while r < ROWS
      invariant 0 <= r <= ROWS
      invariant forall i, j :: 0 <= i < r && 0 <= j < COLS ==> b[i, j] == EMPTY
    {
      var c := 0;
      while c < COLS
        invariant 0 <= c <= COLS
        invariant forall i, j :: 0 <= i < r && 0 <= j < COLS ==> b[i, j] == EMPTY
        invariant forall j :: 0 <= j < c ==> b[r, j] == EMPTY
      {
        b[r, c] := EMPTY;
        c := c + 1;
      }
      r := r + 1;
    }
  }

  /**
   * One round of `determine_move` on a non-empty heap: pop the best node, clear
   * the mask if it is the rear, and report its direction if it is a neighbour of
   * the front other than `lastHead`.
   */
  method Examine(h: MaxHeap, front: Coord, rear: Coord, lastHead: Coord, mask: bv32,
                 ghost all: multiset<HeapNode>, ghost popped: seq<HeapNode>)
    returns (detected: bv32, mask': bv32, ghost logged: seq<HeapNode>)
    requires h.Valid() && h.size > 0 && PopLog(h.Contents(), all, popped)
    requires Detect(popped, front, lastHead) == 0 && mask == (if HasCell(popped, rear) then 0 else ALL_MOVES)
    modifies h, h.nodes
    ensures h.Valid() && h.nodes == old(h.nodes) && h.size + |logged| == old(h.size) + |popped|
    ensures PopLog(h.Contents(), all, logged) && |logged| == |popped| + 1
    ensures Detect(AllButLast(logged), front, lastHead) == 0
    ensures detected == Detect(logged, front, lastHead)
    ensures mask' == if HasCell(logged, rear) then 0 else ALL_MOVES
  {
    ghost var rest := h.Contents();
    var cur := h.Pop();
    var node := cur.value;
    PopLogStep(rest, h.Contents(), all, popped, node);
    logged := popped + [node];
    DetectStep(popped, node, front, lastHead, rear);
    mask' := mask;
    if CoordsAreEqual(node.coord, rear) {
      mask' := 0;
    }
    detected := Match(node.coord, front, lastHead);
    assert AllButLast(logged) == popped;
  }

  /**
   * The popping loop of `determine_move`: at most `budget` rounds of `Examine`,
   * stopping early when the heap runs dry or a neighbour of the front is found.
   */
  method ScanCandidates(h: MaxHeap, budget: int, front: Coord, rear: Coord, lastHead: Coord)
    returns (detected: bv32, mask: bv32, ghost popped: seq<HeapNode>)
    requires h.Valid()
    modifies h, h.nodes
    ensures h.Valid() && h.nodes == old(h.nodes)
    ensures PopLog(h.Contents(), old(multiset(h.Contents())), popped)
    ensures h.size + |popped| == old(h.size) && (popped != [] ==> |popped| <= budget)
    ensures detected == Detect(popped, front, lastHead)
    ensures Detect(AllButLast(popped), front, lastHead) == 0
    ensures mask == if HasCell(popped, rear) then 0 else ALL_MOVES
    ensures detected == 0 && h.size > 0 ==> |popped| >= budget
  {
    detected, mask := 0, ALL_MOVES;
    popped := [];
    ghost var all := multiset(h.Contents());
    var i := 0;
    while i < budget
      invariant h.Valid() && h.nodes == old(h.nodes)
      invariant PopLog(h.Contents(), all, popped)
      invariant 0 <= i && (i > 0 ==> i <= budget) && |popped| <= i
      invariant h.size + |popped| == old(h.size) && (h.size > 0 ==> |popped| == i)
      invariant detected == Detect(popped, front, lastHead) && detected == 0
      invariant Detect(AllButLast(popped), front, lastHead) == 0
      invariant mask == if HasCell(popped, rear) then 0 else ALL_MOVES
      decreases budget - i
    {
      if h.size > 0 {
        detected, mask, popped := Examine(h, front, rear, lastHead, mask, all, popped);
        if detected != 0 {
          break;
        }
      }
      i := i + 1;
    }
  }

  function Min(a: int, b: int): int
  {
    if a < b then a else b
  }

  function Max(a: int, b: int): int
  {
    if a < b then b else a
  }

  class GameState {
    var nextMove: bv32
    var score: int
    var apple: Coord
    const board: array2<int>
    /** The linked queue of the snake, from its rear (index 0) to its front. */
    var body: seq<Coord>

    /** The board has the tracker's fixed dimensions. */
    predicate Shaped()
    {
      board.Length0 == ROWS && board.Length1 == COLS
    }

    /** The code a cell should hold given the snake and the apple. */
    function Expected(p: Coord): int
      reads this
      requires |body| > 0
    {
      if p == Last(body) then HEAD
      else if p in body then SNAKE
      else if p == apple then APPLE
      else EMPTY
    }

    /**
     * The board and the queue agree: the snake occupies distinct cells on the
     * board, its front is marked HEAD, its other cells SNAKE, the apple APPLE,
     * and every other cell is EMPTY.
     */
    ghost predicate Consistent()
      reads this, board
    {
      Shaped() && |body| > 0 && Distinct(body)
      && (forall k :: 0 <= k < |body| ==> OnBoard(body[k]))
      && OnBoard(apple) && apple !in body
      && forall r, c :: 0 <= r < ROWS && 0 <= c < COLS ==> board[r, c] == Expected(Coord(r, c))
    }

    /** A state whose board is allocated and whose queue is empty. */
    constructor ()
      ensures Shaped() && fresh(board) && body == []
    {
      board := new int[ROWS, COLS];
      body := [];
    }

    /** `flash_initial_state`: the board, snake, apple, score and move of a new game. */
    method FlashInitialState()
      requires Shaped()
      modifies this, board
      ensures nextMove == DIR_EAST && score == 0 && apple == Coord(7, 12)
      ensures body == INITIAL_BODY
      ensures forall r, c :: 0 <= r < ROWS && 0 <= c < COLS ==> board[r, c] == InitialCell(Coord(r, c))
      ensures Consistent()
    {
      nextMove := DIR_EAST;
      score := 0;
      apple := Coord(7, 12);
      ClearBoard(board);
      board[7, 1] := SNAKE;
      board[7, 2] := SNAKE;
      board[7, 3] := SNAKE;
      board[7, 4] := HEAD;
      board[7, 12] := APPLE;
      body := [];
      var i := 0;
      while i < 4
        modifies this
        invariant 0 <= i <= 4 && body == INITIAL_BODY[..i]
        invariant nextMove == DIR_EAST && score == 0 && apple == Coord(7, 12)
      {
        body := body + [Coord(7, i + 1)];
        i := i + 1;
      }
      assert body == INITIAL_BODY;
      forall r, c | 0 <= r < ROWS && 0 <= c < COLS
        ensures board[r, c] == Expected(Coord(r, c))
      {
        assert Coord(r, c) in body <==> r == 7 && 1 <= c <= 4;
      }
    }

    /** The cell of the queue's rear may be entered or the cell holds EMPTY or APPLE. */
    predicate Enterable(p: Coord)
      reads this, board
      requires Shaped() && |body| > 0 && OnBoard(p)
    {
      ValIsEmptyOrApple(board[p.row, p.col]) || CoordsAreEqual(body[0], p)
    }

    /**
     * `calculate_possible_moves`: the mask of the directions whose neighbour of
     * the front may be entered. The bounds test it applies accepts every cell,
     * so all four neighbours are read.
     */
    function PossibleMoves(): (r: bv32)
      reads this, board
      requires Shaped() && |body| > 0
      requires OnBoard(North(Last(body))) && OnBoard(South(Last(body)))
      requires OnBoard(East(Last(body))) && OnBoard(West(Last(body)))
      ensures r & ALL_MOVES == r
      ensures (r & DIR_NORTH != 0) <==> Enterable(North(Last(body)))
      ensures (r & DIR_SOUTH != 0) <==> Enterable(South(Last(body)))
      ensures (r & DIR_EAST != 0) <==> Enterable(East(Last(body)))
      ensures (r & DIR_WEST != 0) <==> Enterable(West(Last(body)))
    {
      var f := Last(body);
      var n: bv32 := if CoordInBoard(North(f)) && Enterable(North(f)) then DIR_NORTH else 0;
      var s: bv32 := if CoordInBoard(South(f)) && Enterable(South(f)) then n | DIR_SOUTH else n;
      var e: bv32 := if CoordInBoard(East(f)) && Enterable(East(f)) then s | DIR_EAST else s;
      if CoordInBoard(West(f)) && Enterable(West(f)) then e | DIR_WEST else e
    }

    /**
     * `calculate_next_state_in_place`: the rear leaves the queue and its cell
     * becomes EMPTY, the old front becomes SNAKE, and the neighbour of the front
     * in direction m joins the queue and becomes HEAD; the move mask is cleared.
     * The apple test runs after HEAD is written, so the score never grows.
     */
    method NextStateInPlace(m: bv32)
      requires Shaped() && MoveIsSingle(m) && |body| >= 2
      requires OnBoard(body[0]) && OnBoard(Last(body)) && OnBoard(Step(Last(body), m))
      modifies this, board
      ensures body == old(body)[1..] + [Step(old(Last(body)), m)]
      ensures var rear, front, next := old(body[0]), old(Last(body)), Step(old(Last(body)), m);
              forall r, c :: 0 <= r < ROWS && 0 <= c < COLS ==>
                board[r, c] == if Coord(r, c) == next then HEAD
                               else if Coord(r, c) == front then SNAKE
                               else if Coord(r, c) == rear then EMPTY
                               else old(board[r, c])
      ensures score == old(score) && apple == old(apple) && nextMove == 0
      ensures old(Consistent()) && Step(old(Last(body)), m) !in old(body)[1..] && Step(old(Last(body)), m) != old(apple)
              ==> Consistent()
    {
      ghost var before := body;
      var rear := body[0];
      board[rear.row, rear.col] := EMPTY;
      body := body[1..];
      var front := Last(body);
      board[front.row, front.col] := SNAKE;
      var next := Step(front, m);
      board[next.row, next.col] := HEAD;
      var ate := board[next.row, next.col] == APPLE;
      score := if ate then score + 1 else score;
      apple := if ate then Coord(-1, -1) else apple;
      body := body + [next];
      nextMove := 0;
      if old(Consistent()) && next !in before[1..] && next != apple {
        NextKeepsConsistent(before, next);
      }
    }

    /** After a step that neither bites the body nor eats, board and queue still agree. */
    lemma NextKeepsConsistent(before: seq<Coord>, next: Coord)
      requires Shaped() && |before| >= 2 && Distinct(before) && next !in before[1..]
      requires Distance(Last(before), next) == 1 && OnBoard(next) && next != apple && apple !in before
      requires forall k :: 0 <= k < |before| ==> OnBoard(before[k])
      requires OnBoard(apple) && body == before[1..] + [next]
      requires forall r, c :: 0 <= r < ROWS && 0 <= c < COLS ==>
                 board[r, c] == if Coord(r, c) == next then HEAD
                                else if Coord(r, c) == Last(before) then SNAKE
                                else if Coord(r, c) == before[0] then EMPTY
                                else (if Coord(r, c) == Last(before) then HEAD
                                      else if Coord(r, c) in before then SNAKE
                                      else if Coord(r, c) == apple then APPLE
                                      else EMPTY)
      ensures Consistent()
    {
      assert Distinct(body) by {
        forall i, j | 0 <= i < j < |body|
          ensures body[i] != body[j]
        {
          if j < |body| - 1 {
            assert body[i] == before[i + 1] && body[j] == before[j + 1];
          } else {
            assert body[i] == before[1..][i];
          }
        }
      }
      forall r, c | 0 <= r < ROWS && 0 <= c < COLS
        ensures board[r, c] == Expected(Coord(r, c))
      {
        var p := Coord(r, c);
        assert p in body <==> p == next || p in before[1..];
        assert p in before <==> p == before[0] || p in before[1..] by {
          assert before == [before[0]] + before[1..];
        }
        if p == before[0] && p != next {
          assert p !in before[1..] by {
            forall k | 0 <= k < |before[1..]|
              ensures before[1..][k] != p
            {
              assert before[1..][k] == before[k + 1];
            }
          }
        }
        assert Last(before) in before[1..] by {
          assert Last(before) == before[1..][|before| - 2];
        }
      }
    }

    /**
     * `duplicate_state_in_place`: other receives the move, score, apple and board,
     * and a copy of each queue cell is appended to other's own queue.
     */
    method DuplicateInto(other: GameState)
      requires Shaped() && other.Shaped() && other != this && other.board != board
      modifies other, other.board
      ensures other.nextMove == nextMove && other.score == score && other.apple == apple
      ensures forall r, c :: 0 <= r < ROWS && 0 <= c < COLS ==> other.board[r, c] == board[r, c]
      ensures other.body == old(other.body) + body
    {
      other.nextMove := nextMove;
      other.score := score;
      other.apple := apple;
      var r := 0;
      while r < ROWS
        modifies other.board
        invariant 0 <= r <= ROWS
        invariant forall i, j :: 0 <= i < r && 0 <= j < COLS ==> other.board[i, j] == board[i, j]
      {
        var c := 0;
        while c < COLS
          modifies other.board
          invariant 0 <= c <= COLS
          invariant forall i, j :: 0 <= i < r && 0 <= j < COLS ==> other.board[i, j] == board[i, j]
          invariant forall j :: 0 <= j < c ==> other.board[r, j] == board[r, j]
        {
          other.board[r, c] := board[r, c];
          c := c + 1;
        }
        r := r + 1;
      }
      var k := 0;
      while k < |body|
        modifies other
        invariant 0 <= k <= |body|
        invariant other.body == old(other.body) + body[..k]
        invariant other.nextMove == nextMove && other.score == score && other.apple == apple
      {
        other.body := other.body + [body[k]];
        k := k + 1;
      }
      assert body[..k] == body;
    }

    /**
     * `determine_move`: pops up to score + 4 candidates, highest key first, and
     * reports the direction of the first that is a neighbour of the front other
     * than `lastHead`; the report is 0 when none matches or when the rear was popped
     * on the way. The popped nodes and the rest of the heap make up the old heap, and
     * no remaining key exceeds the last one popped.
     */
    method DetermineMove(h: MaxHeap, lastHead: Coord) returns (r: bv32, ghost popped: seq<HeapNode>)
      requires h.Valid() && |body| > 0
      modifies h, h.nodes
      ensures h.Valid() && h.nodes == old(h.nodes)
      ensures PopLog(h.Contents(), old(multiset(h.Contents())), popped)
      ensures |popped| <= old(h.size) && (popped != [] ==> |popped| <= score + 4)
      ensures r == Decision(popped, Last(body), lastHead, body[0])
      ensures Detect(AllButLast(popped), Last(body), lastHead) == 0
      ensures Detect(popped, Last(body), lastHead) == 0 && |popped| < old(h.size) ==> |popped| >= score + 4
    {
      var front, rear := Last(body), body[0];
      var detected, mask;
      detected, mask, popped := ScanCandidates(h, score + 4, front, rear, lastHead);
      r := detected & mask;
      DecisionOf(popped, front, lastHead, rear, detected, mask, r);
    }
  }
}
