/**
 * The array-backed binary max-heap of the C tracker (scanner/superSnake_v2.h):
 * nodes[0..size) is a heap in which every parent's key is at least each child's
 * key, the array grows by doubling, and push and pop restore the order by
 * swapping array slots in place.
 */
module MaxHeaps {
  import opened Common
  import opened Coords

  /** A candidate cell with its score; the C `double` key is only compared, so it is a `real`. */
  datatype HeapNode = HeapNode(key: real, coord: Coord)

  function Parent(i: int): int
  {
    (i - 1) / 2
  }

  /** key[parent] >= key[child] everywhere. */
  predicate IsHeap(s: seq<HeapNode>)
  {
    forall c {:trigger Parent(c)} :: 0 < c < |s| ==> s[Parent(c)].key >= s[c].key
  }

  /**
   * During bubble-up: the order holds except between slot k and its parent, and
   * k's parent also dominates k's children.
   */
  predicate UpInv(s: seq<HeapNode>, k: int)
  {
    (forall c {:trigger Parent(c)} :: 0 < c < |s| && c != k ==> s[Parent(c)].key >= s[c].key)
    && (0 < k < |s| ==> forall c {:trigger Parent(c)} :: 0 < c < |s| && Parent(c) == k ==> s[Parent(k)].key >= s[c].key)
  }

  /**
   * During bubble-down: the order holds except between slot k and its children,
   * and k's parent also dominates k's children.
   */
  predicate DownInv(s: seq<HeapNode>, k: int)
  {
    (forall c {:trigger Parent(c)} :: 0 < c < |s| && Parent(c) != k ==> s[Parent(c)].key >= s[c].key)
    && (0 < k < |s| ==> forall c {:trigger Parent(c)} :: 0 < c < |s| && Parent(c) == k ==> s[Parent(k)].key >= s[c].key)
  }

  /** `heap_swap` on slots i and j. */
  function Swap(s: seq<HeapNode>, i: int, j: int): (r: seq<HeapNode>)
    requires 0 <= i < |s| && 0 <= j < |s|
    ensures |r| == |s| && r[i] == s[j] && r[j] == s[i]
    ensures forall k :: 0 <= k < |s| && k != i && k != j ==> r[k] == s[k]
    ensures multiset(r) == multiset(s)
  {
    s[i := s[j]][j := s[i]]
  }

  /** The root of a heap holds a maximum key. */
  lemma {:induction false} HeapRootMax(s: seq<HeapNode>, j: int)
    requires IsHeap(s) && 0 <= j < |s|
    ensures s[j].key <= s[0].key
    decreases j
  {
    if j > 0 {
      HeapRootMax(s, Parent(j));
    }
  }

  /** No key in a heap exceeds the root's. */
  lemma HeapRootAll(s: seq<HeapNode>)
    requires IsHeap(s) && |s| > 0
    ensures forall n :: n in s ==> n.key <= s[0].key
  {
    forall n | n in s
      ensures n.key <= s[0].key
    {
      var j :| 0 <= j < |s| && s[j] == n;
      HeapRootMax(s, j);
    }
  }

  /** A node appended to a heap breaks the order at most at its own slot. */
  lemma AppendUp(s: seq<HeapNode>, x: HeapNode)
    requires IsHeap(s)
    ensures UpInv(s + [x], |s|)
  {
    var t := s + [x];
    forall j | 0 < j < |t| && j != |s|
      ensures t[Parent(j)].key >= t[j].key
    {
      assert t[j] == s[j] && t[Parent(j)] == s[Parent(j)];
    }
  }

  /** One bubble-up swap moves the exception from slot k to its parent. */
  lemma SiftUpStep(s: seq<HeapNode>, k: int)
    requires 0 < k < |s| && UpInv(s, k) && s[Parent(k)].key < s[k].key
    ensures UpInv(Swap(s, Parent(k), k), Parent(k))
  {
    var p := Parent(k);
    var t := Swap(s, p, k);
    forall j | 0 < j < |t| && j != p
      ensures t[Parent(j)].key >= t[j].key
    {
      if j == k {
      } else if Parent(j) == k {
        assert t[j] == s[j];
      } else if Parent(j) == p {
        assert t[j] == s[j] && s[p].key >= s[j].key;
      } else {
        assert t[j] == s[j] && t[Parent(j)] == s[Parent(j)];
      }
    }
    if 0 < p {
      var g := Parent(p);
      assert t[g] == s[g] && s[g].key >= s[p].key;
      forall j | 0 < j < |t| && Parent(j) == p
        ensures t[g].key >= t[j].key
      {
        if j != k {
          assert t[j] == s[j] && s[p].key >= s[j].key;
        }
      }
    }
  }

  /** Bubble-up stops with a heap at the root or once the parent dominates. */
  lemma SiftUpDone(s: seq<HeapNode>, k: int)
    requires 0 <= k < |s| && UpInv(s, k)
    requires k > 0 ==> s[Parent(k)].key >= s[k].key
    ensures IsHeap(s)
  {
  }

  /** Moving the last slot of a non-empty heap to the root leaves the exception at the root. */
  function Demote(s: seq<HeapNode>): (r: seq<HeapNode>)
    requires |s| > 0
    ensures |r| == |s| - 1
    ensures multiset(r) + multiset{s[0]} == multiset(s)
  {
    if |s| == 1 then []
    else
      assert s == [s[0]] + s[1..|s| - 1] + [s[|s| - 1]];
      assert s[..|s| - 1][0 := s[|s| - 1]] == [s[|s| - 1]] + s[1..|s| - 1];
      s[..|s| - 1][0 := s[|s| - 1]]
  }

  lemma DemoteDown(s: seq<HeapNode>)
    requires |s| > 0 && IsHeap(s)
    ensures DownInv(Demote(s), 0)
  {
    var t := Demote(s);
    forall j | 0 < j < |t| && Parent(j) != 0
      ensures t[Parent(j)].key >= t[j].key
    {
      assert t[j] == s[j] && t[Parent(j)] == s[Parent(j)];
    }
  }

  /** One bubble-down swap with the larger child moves the exception to that child. */
  lemma SiftDownStep(s: seq<HeapNode>, k: int, c: int)
    requires 0 <= k < c < |s| && (c == 2 * k + 1 || c == 2 * k + 2) && DownInv(s, k)
    requires s[c].key > s[k].key
    requires 2 * k + 1 < |s| ==> s[2 * k + 1].key <= s[c].key
    requires 2 * k + 2 < |s| ==> s[2 * k + 2].key <= s[c].key
    ensures DownInv(Swap(s, k, c), c)
  {
    var t := Swap(s, k, c);
    forall j | 0 < j < |t| && Parent(j) != c
      ensures t[Parent(j)].key >= t[j].key
    {
      if j == c {
      } else if Parent(j) == k {
        assert j == 2 * k + 1 || j == 2 * k + 2;
        assert t[j] == s[j];
      } else if j == k {
        assert t[Parent(j)] == s[Parent(j)];
      } else {
        assert t[j] == s[j] && t[Parent(j)] == s[Parent(j)];
      }
    }
    forall j | 0 < j < |t| && Parent(j) == c
      ensures t[k].key >= t[j].key
    {
      assert t[j] == s[j] && s[c].key >= s[j].key;
    }
  }

  /** Bubble-down stops with a heap once no child is larger. */
  lemma SiftDownDone(s: seq<HeapNode>, k: int)
    requires 0 <= k && DownInv(s, k)
    requires 2 * k + 1 < |s| ==> s[2 * k + 1].key <= s[k].key
    requires 2 * k + 2 < |s| ==> s[2 * k + 2].key <= s[k].key
    ensures IsHeap(s)
  {
    forall j | 0 < j < |s| && Parent(j) == k
      ensures s[Parent(j)].key >= s[j].key
    {
      assert j == 2 * k + 1 || j == 2 * k + 2;
    }
  }

  /** `heap_swap` on two slots of the heap prefix a[0..n). */
  method HeapSwap(a: array<HeapNode>, i: int, j: int, ghost n: int)
    requires 0 <= i < n && 0 <= j < n && n <= a.Length
    modifies a
    ensures a[..n] == Swap(old(a[..n]), i, j)
  {
    var tmp := a[i];
    a[i] := a[j];
    a[j] := tmp;
  }

  /**
   * The tail of `heap_push`: x is stored in slot i just past the heap a[0..i)
   * and bubbled up by swapping it with smaller parents.
   */
  method BubbleUp(a: array<HeapNode>, i0: int, x: HeapNode)
    requires 0 <= i0 < a.Length && IsHeap(a[..i0])
    modifies a
    ensures IsHeap(a[..i0 + 1])
    ensures multiset(a[..i0 + 1]) == multiset(old(a[..i0])) + multiset{x}
  {
    ghost var before := a[..i0];
    var n, i := i0 + 1, i0;
    a[i] := x;
    assert a[..n] == before + [x];
    AppendUp(before, x);
    ghost var all := multiset(a[..n]);
    while i > 0
      invariant 0 <= i < n
      invariant UpInv(a[..n], i)
      invariant multiset(a[..n]) == all
      decreases i
    {
      var parent := (i - 1) / 2;
      if a[parent].key >= a[i].key {
        SiftUpDone(a[..n], i);
        break;
      }
      SiftUpStep(a[..n], i);
      HeapSwap(a, parent, i, n);
      i := parent;
    }
    SiftUpDone(a[..n], i);
  }

  /** `heap_pop`'s `nodes[0] = nodes[--size]` on the heap a[0..n). */
  method MoveLastToRoot(a: array<HeapNode>, n: int)
    requires 0 < n <= a.Length
    modifies a
    ensures a[..n - 1] == Demote(old(a[..n]))
  {
    a[0] := a[n - 1];
  }

  /**
   * The tail of `heap_pop`: the node moved to the root of a[0..n) sinks by
   * swapping with its larger child (the left one on a tie) while that child is larger.
   */
  method BubbleDown(a: array<HeapNode>, n: int)
    requires 0 <= n <= a.Length && DownInv(a[..n], 0)
    modifies a
    ensures IsHeap(a[..n])
    ensures multiset(a[..n]) == multiset(old(a[..n]))
  {
    ghost var all := multiset(a[..n]);
    var i := 0;
    while true
      invariant 0 <= i && (i < n || i == 0)
      invariant DownInv(a[..n], i)
      invariant multiset(a[..n]) == all
      decreases n - i
    {
      var left, right, largest := 2 * i + 1, 2 * i + 2, i;
      if left < n && a[left].key > a[largest].key {
        largest := left;
      }
      if right < n && a[right].key > a[largest].key {
        largest := right;
      }
      if largest == i {
        SiftDownDone(a[..n], i);
        break;
      }
      SiftDownStep(a[..n], i, largest);
      HeapSwap(a, i, largest, n);
      i := largest;
    }
  }

  class MaxHeap {
    var nodes: array<HeapNode>
    var size: int
    var capacity: int

    ghost predicate Valid()
      reads this, nodes
    {
      nodes.Length == capacity && 1 <= capacity && 0 <= size <= capacity && IsHeap(nodes[..size])
    }

    /** The nodes currently in the heap, in array order. */
    function Contents(): seq<HeapNode>
      reads this, nodes
      requires 0 <= size <= nodes.Length
    {
      nodes[..size]
    }

    /** `heap_create`: an empty heap with room for `cap` nodes. */
    constructor (cap: int)
      requires cap >= 1
      ensures Valid() && fresh(nodes)
      ensures size == 0 && capacity == cap
    {
      nodes := new HeapNode[cap];
      size := 0;
      capacity := cap;
    }

    /** The `realloc` of `heap_push`: storage of twice the capacity holding the same nodes. */
    method Grow()
      requires Valid()
      modifies this
      ensures Valid() && fresh(nodes)
      ensures capacity == 2 * old(capacity) && size == old(size)
      ensures Contents() == old(Contents())
    {
      var grown := new HeapNode[2 * capacity];
      forall k | 0 <= k < size {
        grown[k] := nodes[k];
      }
      assert grown[..size] == nodes[..size];
      capacity := 2 * capacity;
      nodes := grown;
    }

    /** `heap_push`: stores the node at the end, doubling the storage when full, and bubbles it up. */
    method Push(value: real, row: int, col: int)
      requires Valid()
      modifies this, nodes
      ensures Valid()
      ensures size == old(size) + 1
      ensures multiset(Contents()) == old(multiset(Contents())) + multiset{HeapNode(value, Coord(row, col))}
      ensures capacity == if old(size) >= old(capacity) then 2 * old(capacity) else old(capacity)
      ensures nodes == old(nodes) || fresh(nodes)
    {
      if size >= capacity {
        Grow();
      }
      BubbleUp(nodes, size, HeapNode(value, Coord(row, col)));
      size := size + 1;
    }

    /**
     * `heap_pop`: on an empty heap the program stops (None); otherwise the root,
     * which holds a maximum key, is removed and the last node bubbles down from
     * the root.
     */
    method Pop() returns (r: Option<HeapNode>)
      requires Valid()
      modifies this, nodes
      ensures Valid()
      ensures nodes == old(nodes) && capacity == old(capacity)
      ensures old(size) == 0 ==> r == None && size == 0
      ensures old(size) > 0 ==> r.Some? && r.value == old(Contents())[0] && size == old(size) - 1
      ensures old(size) > 0 ==> multiset(Contents()) + multiset{r.value} == old(multiset(Contents()))
      ensures old(size) > 0 ==> forall n :: n in old(Contents()) ==> n.key <= r.value.key
    {
      if size == 0 {
        return None;
      }
      ghost var before := nodes[..size];
      HeapRootAll(before);
      var root := nodes[0];
      size := size - 1;
      MoveLastToRoot(nodes, size + 1);
      DemoteDown(before);
      BubbleDown(nodes, size);
      r := Some(root);
    }
  }
}
