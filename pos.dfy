/**
 * Grid positions, as the rest of the model uses them: x is the row and y the
 * column, and UP decreases the row. base/pos.py is not part of this model;
 * this module states the interface its callers rely on.
 */
module Positions {
  import opened Directions

  datatype Pos = Pos(x: int, y: int)

  function Abs(n: int): nat
  {
    if n < 0 then -n else n
  }

  function ManhattanDist(p: Pos, q: Pos): nat
  {
    Abs(p.x - q.x) + Abs(p.y - q.y)
  }

  /** The neighbour one step away in direction d (NONE stays put; no caller passes it). */
  function Adj(p: Pos, d: Direc): (q: Pos)
    ensures ManhattanDist(p, q) == if d == NONE then 0 else 1
  {
    match d
    case UP => Pos(p.x - 1, p.y)
    case DOWN => Pos(p.x + 1, p.y)
    case LEFT => Pos(p.x, p.y - 1)
    case RIGHT => Pos(p.x, p.y + 1)
    case NONE => p
  }

  /** The direction from p to a 4-adjacent q, and NONE when q is not adjacent. */
  function DirecTo(p: Pos, q: Pos): (d: Direc)
    ensures d != NONE <==> ManhattanDist(p, q) == 1
    ensures d != NONE ==> Adj(p, d) == q
  {
    if p.x == q.x then
      if p.y - q.y == 1 then LEFT
      else if p.y - q.y == -1 then RIGHT
      else NONE
    else if p.y == q.y then
      if p.x - q.x == 1 then UP
      else if p.x - q.x == -1 then DOWN
      else NONE
    else NONE
  }

  /** The four neighbours, listed in the given enumeration order. */
  function AllAdj(p: Pos, order: seq<Direc>): (adjs: seq<Pos>)
    ensures |adjs| == |order|
    ensures forall i :: 0 <= i < |order| ==> adjs[i] == Adj(p, order[i])
  {
    if order == [] then [] else [Adj(p, order[0])] + AllAdj(p, order[1..])
  }

  /** An enumeration order of the four moves. */
  predicate IsAdjOrder(order: seq<Direc>)
  {
    multiset(order) == multiset{UP, DOWN, LEFT, RIGHT}
  }

  const MOVES: seq<Direc> := [UP, DOWN, LEFT, RIGHT]

  /** The cells visited when following `path` from p, p included. */
  function Walk(p: Pos, path: seq<Direc>): (w: seq<Pos>)
    ensures |w| == |path| + 1 && w[0] == p
    decreases |path|
  {
    if path == [] then [p] else [p] + Walk(Adj(p, path[0]), path[1..])
  }

  /** Where following `path` from p ends. */
  function Replay(p: Pos, path: seq<Direc>): Pos
  {
    Walk(p, path)[|path|]
  }

  lemma DirecToAdj(p: Pos, d: Direc)
    requires d != NONE
    ensures DirecTo(p, Adj(p, d)) == d
  {
  }

  lemma AdjOpposite(p: Pos, d: Direc)
    ensures Adj(Adj(p, d), Opposite(d)) == p
  {
  }

  lemma AdjCommutes(p: Pos, d: Direc, e: Direc)
    ensures Adj(Adj(p, d), e) == Adj(Adj(p, e), d)
  {
  }

  /** Two positions a perpendicular step apart from distinct cells are distinct. */
  lemma AdjInjective(p: Pos, q: Pos, d: Direc)
    ensures Adj(p, d) == Adj(q, d) <==> p == q
  {
  }

  /** Each cell of a walk is the previous one moved by the matching step. */
  lemma {:induction false} WalkStep(p: Pos, path: seq<Direc>, i: nat)
    requires i < |path|
    ensures Walk(p, path)[i + 1] == Adj(Walk(p, path)[i], path[i])
    decreases |path|
  {
    if i > 0 {
      WalkStep(Adj(p, path[0]), path[1..], i - 1);
    }
  }

  /** A walk along a concatenation is the first walk followed by the second. */
  lemma {:induction false} WalkAppend(p: Pos, a: seq<Direc>, b: seq<Direc>)
    ensures Walk(p, a + b) == Walk(p, a) + Walk(Replay(p, a), b)[1..]
    decreases |a|
  {
    if a == [] {
      assert a + b == b;
    } else {
      assert (a + b)[1..] == a[1..] + b;
      WalkAppend(Adj(p, a[0]), a[1..], b);
    }
  }

  /** Prepending a step to a path prepends its start to the walk. */
  lemma WalkCons(p: Pos, d: Direc, path: seq<Direc>)
    ensures Walk(p, [d] + path) == [p] + Walk(Adj(p, d), path)
  {
    assert ([d] + path)[1..] == path;
  }

  /** Each step of a walk is a unit step as long as no step is NONE. */
  lemma {:induction false} WalkAdjacent(p: Pos, path: seq<Direc>, i: nat)
    requires i < |path| && path[i] != NONE
    ensures ManhattanDist(Walk(p, path)[i], Walk(p, path)[i + 1]) == 1
  {
    WalkStep(p, path, i);
  }

  /** Following a non-empty path ends where following its rest from the first neighbour ends. */
  lemma ReplayCons(p: Pos, path: seq<Direc>)
    requires path != []
    ensures Replay(p, path) == Replay(Adj(p, path[0]), path[1..])
  {
  }

  /** The neighbours in MOVES order are exactly the four cells one step away. */
  lemma MovesNeighbours(p: Pos, q: Pos)
    ensures q in AllAdj(p, MOVES) <==> exists d :: IsMove(d) && q == Adj(p, d)
    ensures q in AllAdj(p, MOVES) ==> ManhattanDist(p, q) == 1
  {
    var adjs := AllAdj(p, MOVES);
    if exists d :: IsMove(d) && q == Adj(p, d) {
      var d :| IsMove(d) && q == Adj(p, d);
      assert d == MOVES[0] || d == MOVES[1] || d == MOVES[2] || d == MOVES[3];
    }
  }

  /** The direction from p to its i-th neighbour in MOVES order is the i-th move. */
  lemma MovesDirecTo(p: Pos, i: int)
    requires 0 <= i < |MOVES|
    ensures DirecTo(p, AllAdj(p, MOVES)[i]) == MOVES[i]
  {
    assert MOVES[i] != NONE by {
      assert MOVES == [UP, DOWN, LEFT, RIGHT];
      assert i == 0 || i == 1 || i == 2 || i == 3;
    }
    DirecToAdj(p, MOVES[i]);
  }

  /** `deque.insert`: x placed before position i. */
  function Insert<T>(s: seq<T>, i: nat, x: T): (r: seq<T>)
    requires i <= |s|
    ensures |r| == |s| + 1 && r[i] == x
    ensures forall k :: 0 <= k < i ==> r[k] == s[k]
    ensures forall k :: i <= k < |s| ==> r[k + 1] == s[k]
  {
    s[..i] + [x] + s[i..]
  }

  /** Inserting x before step i and then y two places later brackets step i with x and y. */
  lemma InsertTwice<T>(s: seq<T>, i: nat, x: T, y: T)
    requires i < |s|
    ensures Insert(Insert(s, i, x), i + 2, y) == s[..i] + [x, s[i], y] + s[i + 1..]
  {
    var r := Insert(Insert(s, i, x), i + 2, y);
    var e := s[..i] + [x, s[i], y] + s[i + 1..];
    assert |r| == |e|;
    forall k | 0 <= k < |r|
      ensures r[k] == e[k]
    {
      if k > i + 2 {
        assert r[k] == s[k - 2];
      }
    }
  }

  /** A walk splits at step idx into the walk up to that step's start and the walk after it. */
  lemma WalkSplit(p: Pos, path: seq<Direc>, idx: nat)
    requires idx < |path|
    ensures var w := Walk(p, path);
            Walk(p, path[..idx]) == w[..idx + 1] && Replay(p, path[..idx]) == w[idx]
            && Adj(w[idx], path[idx]) == w[idx + 1] && Walk(w[idx + 1], path[idx + 1..]) == w[idx + 1..]
  {
    var A, d, B := path[..idx], path[idx], path[idx + 1..];
    assert path == A + ([d] + B);
    WalkAppend(p, A, [d] + B);
    WalkCons(Replay(p, A), d, B);
  }

  /** Following (t, d, opposite of t) and then B from c first sidesteps, then rejoins. */
  lemma DetourMiddle(c: Pos, t: Direc, d: Direc, B: seq<Direc>)
    ensures Walk(c, [t, d, Opposite(t)] + B) == [c, Adj(c, t), Adj(Adj(c, d), t)] + Walk(Adj(c, d), B)
  {
    var n := Adj(c, d);
    var a, b := Adj(c, t), Adj(n, t);
    AdjCommutes(c, t, d);
    AdjOpposite(n, t);
    var W := Walk(n, B);
    WalkCons(b, Opposite(t), B);
    var W2 := Walk(b, [Opposite(t)] + B);
    assert W2 == [b] + W;
    WalkCons(a, d, [Opposite(t)] + B);
    var W1 := Walk(a, [d] + ([Opposite(t)] + B));
    assert W1 == [a] + W2;
    WalkCons(c, t, [d] + ([Opposite(t)] + B));
    assert [t, d, Opposite(t)] + B == [t] + ([d] + ([Opposite(t)] + B));
    assert Walk(c, [t, d, Opposite(t)] + B) == [c] + W1;
    assert [c] + ([a] + ([b] + W)) == [c, a, b] + W;
  }

  /**
   * Replacing step idx of a path by a detour (t, the step itself, the opposite of t)
   * adds exactly the two cells beside the step's ends, between them.
   */
  lemma Detour(p: Pos, path: seq<Direc>, idx: nat, t: Direc)
    requires idx < |path|
    ensures var w := Walk(p, path);
            Walk(p, path[..idx] + [t, path[idx], Opposite(t)] + path[idx + 1..])
              == w[..idx + 1] + [Adj(w[idx], t), Adj(w[idx + 1], t)] + w[idx + 1..]
  {
    var w := Walk(p, path);
    var A, M, B := path[..idx], [t, path[idx], Opposite(t)], path[idx + 1..];
    WalkSplit(p, path, idx);
    assert A + M + B == A + (M + B);
    WalkAppend(p, A, M + B);
    DetourMiddle(w[idx], t, path[idx], B);
  }
}
