/**
 * The priority queue class: a binary min-heap kept in a growable list.
 *
 * `heap` stands for the source's `ArrayList` and `size` for its element count.
 * Slots at and past `size` are stale: the source overwrites a removed
 * element's slot with null and keeps it, and a later `Add` writes the new
 * element into slot `size`, reusing that stale slot when there is one.
 * Elements are integers; "lower value means higher priority".
 */
module PriorityQueues {
  import opened Heaps

  /**
   * The parent index computed by the source's sift-up loop: `index - (index
   * / 2 + 1)`, clamped to 0. It is the usual `(index - 1) / 2` for every
   * non-root index, and 0 for the root itself.
   */
  function ParentIndex(index: nat): (r: nat)
    ensures index > 0 ==> r == (index - 1) / 2 && r < index
    ensures index == 0 ==> r == 0
  {
    var temp := index - (index / 2 + 1);
    if temp < 0 then 0 else temp
  }

  class PriorityQueue {
    var heap: seq<int>
    var size: nat

    /** The object invariant: the first `size` slots form a min-heap. */
    ghost predicate Valid()
      reads this
    {
      HeapOrdered(heap, size)
    }

    /** The logical contents: the elements in the first `size` slots. */
    ghost function Elements(): multiset<int>
      reads this
      requires size <= |heap|
    {
      multiset(heap[..size])
    }

    /** An empty queue. */
    constructor ()
      ensures Valid() && size == 0 && Elements() == multiset{}
    {
      heap := [];
      size := 0;
    }

    /**
     * Inserts `x`: it is placed in slot `size` and then sifted up.
     *
     * The source appends to the list instead of writing slot `size`, so after
     * any removal the new element lands behind the stale slots and is lost
     * (see SourceDefects.SourceAddMissesStaleSlot).
     */
    method Add(x: int)
      requires Valid()
      modifies this
      ensures Valid()
      ensures size == old(size) + 1
      ensures Elements() == old(Elements()) + multiset{x}
    {
      if size == 0 {
        Place(x);
        size := size + 1;
      } else {
        Place(x);
        size := size + 1;
        SiftUp(size - 1);
        assert multiset(heap[..size]) == old(Elements()) + multiset{x};
      }
    }

    /** Writes `x` into slot `size`, overwriting a stale slot or growing the list. */
    method Place(x: int)
      requires Valid()
      modifies this
      ensures size == old(size) && |heap| >= size + 1
      ensures heap[..size] == old(heap[..size]) && heap[size] == x
      ensures multiset(heap[..size + 1]) == multiset(old(heap[..size])) + multiset{x}
      ensures SiftUpReady(heap, size + 1, size)
    {
      if size < |heap| {
        heap := heap[size := x];
      } else {
        heap := heap + [x];
      }
      assert heap[..size] == old(heap[..size]);
      assert heap[..size + 1] == old(heap[..size]) + [x];
    }

    /**
     * Moves the element at `start` towards the root while it is smaller than
     * its parent, with the source's parent arithmetic and its sentinel -1.
     */
    method SiftUp(start: nat)
      requires SiftUpReady(heap, size, start)
      modifies this
      ensures size == old(size) && |heap| == |old(heap)| && heap[size..] == old(heap[size..])
      ensures multiset(heap[..size]) == multiset(old(heap[..size]))
      ensures HeapOrdered(heap, size)
    {
      var index: int := start;
      while index >= 0
        invariant -1 <= index < size <= |heap|
        invariant |heap| == |old(heap)| && heap[size..] == old(heap[size..])
        invariant size == old(size)
        invariant multiset(heap[..size]) == multiset(old(heap[..size]))
        invariant index >= 0 ==> SiftUpReady(heap, size, index)
        invariant index < 0 ==> HeapOrdered(heap, size)
        decreases index + 1
      {
        var temp := ParentIndex(index);
        if heap[index] < heap[temp] {
          SiftUpStep(heap, size, index);
          Swap(index, temp);
          index := temp;
        } else {
          SiftUpDone(heap, size, index);
          index := -1;
        }
      }
    }

    /** Exchanges the elements in slots `p` and `q`, both below `size`. */
    method Swap(p: nat, q: nat)
      requires p < size && q < size && size <= |heap|
      modifies this
      ensures size == old(size)
      ensures heap == Swapped(old(heap), p, q)
      ensures multiset(heap[..size]) == multiset(old(heap[..size]))
      ensures heap[size..] == old(heap[size..])
    {
      SwapPermutes(heap, size, p, q);
      var temp1 := heap[p];
      var temp2 := heap[q];
      heap := heap[p := temp2];
      heap := heap[q := temp1];
    }

    /** Whether some element of the queue equals `x`. */
    method Contains(x: int) returns (found: bool)
      requires Valid()
      ensures found <==> x in Elements()
    {
      for i := 0 to size
        invariant forall k :: 0 <= k < i ==> heap[k] != x
      {
        if heap[i] == x {
          assert heap[..size][i] == x;
          return true;
        }
      }
      assert forall k :: 0 <= k < size ==> heap[..size][k] != x;
      return false;
    }

    /**
     * The element of highest priority, None when the queue is empty. The test
     * is on `size`; the source tests whether the list is empty, which agrees
     * only because it nulls out slot 0 whenever the queue becomes empty.
     */
    function Peek(): (r: Option<int>)
      reads this
      requires Valid()
      ensures r == None <==> size == 0
      ensures r.Some? ==> r.value == heap[0] && IsMinimum(r.value, Elements())
    {
      if size == 0 then None
      else
        RootIsMinimum(heap, size);
        Some(heap[0])
    }

    /** The number of elements in the queue. */
    function Size(): (n: nat)
      reads this
      requires Valid()
      ensures n == |Elements()|
    {
      size
    }

    /**
     * Removes and returns the element of highest priority, None when the
     * queue is empty. The last element moves to the root, which then sifts
     * down. (The source decrements `size` before swapping slot 0 with slot
     * `size`; here the swap comes first so that both slots are below `size`.)
     */
    method Poll() returns (r: Option<int>)
      requires Valid()
      modifies this
      ensures Valid()
      ensures old(size) == 0 ==> r == None && heap == old(heap) && size == old(size)
      ensures old(size) > 0 ==> r == Some(old(heap[0])) && IsMinimum(r.value, old(Elements()))
      ensures old(size) > 0 ==> size == old(size) - 1 && Elements() == old(Elements()) - multiset{r.value}
    {
      if size == 0 {
        return None;
      }
      RootIsMinimum(heap, size);
      var temp := heap[0];
      if size == 1 {
        size := size - 1;
        assert old(heap[..1]) == [temp];
        return Some(temp);
      }
      ghost var (s0, n0) := (heap, size);
      MoveLastTo(0);
      RemoveAtReady(s0, n0, 0, heap);
      Heapify(0);
      return Some(temp);
    }

    /**
     * Exchanges slot `i` with the last slot and shrinks the queue by one, so
     * that the element that was in slot `i` becomes a stale slot.
     */
    method MoveLastTo(i: nat)
      requires i < size <= |heap|
      modifies this
      ensures size == old(size) - 1 && heap == Swapped(old(heap), i, old(size) - 1)
      ensures Elements() == old(Elements()) - multiset{old(heap[i])}
    {
      ghost var t := Swapped(heap, i, size - 1);
      RemoveAtPermutes(heap, size, i);
      assert multiset(t[..size - 1]) == Elements() - multiset{heap[i]};
      Swap(i, size - 1);
      size := size - 1;
      assert heap[..size] == t[..size];
    }

    /**
     * The comparisons of one sift-down step at `index`, which must have a
     * child: the child to exchange with, or `index` itself when the element
     * is at most its children. A returned child is smaller than the element
     * and at most the other child.
     *
     * Where the source leaves the element in place although it is greater
     * than its first child (the first child not being smaller than the
     * second), the second child is returned.
     */
    method SwapTarget(index: nat) returns (child: nat)
      requires 2 * index + 1 < size <= |heap|
      ensures child == index ==> AtMostChildren(heap, size, index)
      ensures child != index ==> SmallerChild(heap, size, index, child)
    {
      var parent := heap[index];
      var child1 := heap[index * 2 + 1];
      child := index;
      if size > index * 2 + 2 {
        var child2 := heap[index * 2 + 2];
        if parent > child1 {
          if child1 < child2 {
            child := index * 2 + 1;
          } else {
            child := index * 2 + 2;
          }
        } else if parent > child2 {
          child := index * 2 + 2;
        }
      } else if parent > child1 {
        child := index * 2 + 1;
      }
    }

    /**
     * Sift-down from `pos`: while the element has a child, it is exchanged
     * with its smaller child if that child is smaller than it.
     *
     * The source exchanges nothing, and loops forever, when the element is
     * greater than its first child and the first child is not smaller than
     * the second (see SourceDefects.SourceHeapifyStalls); here the element
     * is exchanged with the second child in that case.
     */
    method Heapify(pos: nat)
      requires SiftDownReady(heap, size, pos)
      modifies this
      ensures size == old(size) && |heap| == |old(heap)| && heap[size..] == old(heap[size..])
      ensures multiset(heap[..size]) == multiset(old(heap[..size]))
      ensures HeapOrdered(heap, size)
    {
      var index := pos;
      if size == index {
        return;
      }
      while size > index * 2 + 1
        invariant index <= size <= |heap|
        invariant |heap| == |old(heap)| && heap[size..] == old(heap[size..])
        invariant size == old(size)
        invariant multiset(heap[..size]) == multiset(old(heap[..size]))
        invariant index < size ==> SiftDownReady(heap, size, index)
        invariant index == size ==> HeapOrdered(heap, size)
        decreases size - index
      {
        var child := SwapTarget(index);
        if child == index {
          SiftDownDone(heap, size, index);
          index := size;
        } else {
          SiftDownStep(heap, size, index, child);
          Swap(index, child);
          index := child;
        }
      }
      if index < size {
        SiftDownDone(heap, size, index);
      }
    }

    /**
     * Removes one occurrence of `x` and reports whether there was one. The
     * first slot holding `x` receives the last element, and that element is
     * sifted up when it is smaller than its new parent, down otherwise.
     *
     * The source only sifts down, which can leave the moved element below
     * its parent (see SourceDefects.SourceRemoveSkipsSiftUp).
     */
    method Remove(x: int) returns (removed: bool)
      requires Valid()
      modifies this
      ensures Valid()
      ensures removed <==> x in old(Elements())
      ensures removed ==> size == old(size) - 1 && Elements() == old(Elements()) - multiset{x}
      ensures !removed ==> heap == old(heap) && size == old(size)
    {
      if size == 0 {
        return false;
      }
      if size == 1 {
        if heap[0] == x {
          assert heap[..1] == [x];
          size := size - 1;
          return true;
        }
        assert heap[..1] == [heap[0]];
        return false;
      }
      for i := 0 to size
        invariant heap == old(heap) && size == old(size)
        invariant forall k :: 0 <= k < i ==> heap[k] != x
      {
        if heap[i] == x {
          assert heap[..size][i] == x;
          RemoveAt(i);
          return true;
        }
      }
      assert forall k :: 0 <= k < size ==> heap[..size][k] != x;
      return false;
    }
    /**
     * The removal of the element in slot `i` once the scan has found it: the
     * last element moves into slot `i`, and is sifted up when it is smaller
     * than its new parent, down otherwise. When `i` is the last slot nothing
     * needs to move.
     */
    method RemoveAt(i: nat)
      requires Valid() && i < size
      modifies this
      ensures Valid()
      ensures size == old(size) - 1
      ensures Elements() == old(Elements()) - multiset{old(heap[i])}
    {
      ghost var (s0, n0) := (heap, size);
      MoveLastTo(i);
      RemoveAtReady(s0, n0, i, heap);
      if 0 < i < size && heap[i] < heap[(i - 1) / 2] {
        SiftUp(i);
      } else {
        Heapify(i);
      }
    }
  }

  /** A queue built by inserting 5, 3, 8, 1 and 4 into an empty one. */
  method InsertFive() returns (q: PriorityQueue)
    ensures fresh(q) && q.Valid() && q.Elements() == multiset{1, 3, 4, 5, 8}
  {
    q := new PriorityQueue();
    q.Add(5);
    q.Add(3);
    q.Add(8);
    q.Add(1);
    q.Add(4);
  }

  /**
   * One `Poll` of a queue whose elements, in increasing order, are `xs`: it
   * returns the first of them and leaves the rest.
   */
  method PollLeast(q: PriorityQueue, ghost xs: seq<int>) returns (r: Option<int>)
    requires q.Valid() && |xs| > 0 && q.Elements() == multiset(xs)
    requires forall i, j :: 0 <= i < j < |xs| ==> xs[i] <= xs[j]
    modifies q
    ensures q.Valid() && r == Some(xs[0]) && q.Elements() == multiset(xs[1..])
  {
    assert xs == [xs[0]] + xs[1..];
    assert multiset(xs) - multiset{xs[0]} == multiset(xs[1..]);
    assert xs[0] in multiset(xs);
    r := q.Poll();
    ghost var k :| 0 <= k < |xs| && xs[k] == r.value;
    assert xs[0] <= r.value <= xs[0];
  }

  /**
   * Polls a queue whose elements, in increasing order, are `xs` until it is
   * empty: the polls return exactly `xs`, in that order.
   */
  method DrainSorted(q: PriorityQueue, ghost xs: seq<int>) returns (out: seq<int>)
    requires q.Valid() && q.Elements() == multiset(xs)
    requires forall i, j :: 0 <= i < j < |xs| ==> xs[i] <= xs[j]
    modifies q
    ensures q.Valid() && q.Elements() == multiset{} && out == xs
    decreases |xs|
  {
    if q.Size() == 0 {
      assert |multiset(xs)| == 0;
      return [];
    }
    var r := PollLeast(q, xs);
    var rest := DrainSorted(q, xs[1..]);
    out := [r.value] + rest;
    assert xs == [xs[0]] + xs[1..];
  }

  /** The drain of the queue `InsertFive` builds: 1, 3, 4, 5, 8, in that order. */
  method DrainFive(q: PriorityQueue) returns (out: seq<int>)
    requires q.Valid() && q.Elements() == multiset{1, 3, 4, 5, 8}
    modifies q
    ensures q.Valid() && q.Elements() == multiset{} && out == [1, 3, 4, 5, 8]
  {
    ghost var xs := [1, 3, 4, 5, 8];
    assert q.Elements() == multiset(xs);
    out := DrainSorted(q, xs);
  }

  /**
   * A caller that uses only the contracts above: after five insertions
   * `Peek` sees the least of them, five `Poll`s return them in increasing
   * order, and a sixth finds the queue empty.
   */
  method InsertThenDrain() {
    var q := InsertFive();
    var top := q.Peek();
    assert top == Some(1) by { assert 1 in q.Elements(); }
    var out := DrainFive(q);
    var r := q.Poll();
    assert r == None && q.Size() == 0;
  }
}
