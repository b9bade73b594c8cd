/**
 * Three operations of the queue as the source writes them, where they differ
 * from the class in module PriorityQueues, with inputs that show each
 * difference.
 *
 * The source's list holds null in the slots it has vacated; here such a slot
 * keeps an arbitrary stale integer, which is never inside the first `size`
 * slots of a correct queue.
 */
module SourceDefects {
  import opened Heaps

  /**
   * The comparisons of one iteration of the source's `heapify` loop at
   * `index`, which has a child below `n`: the child it exchanges the element
   * with, `n` when it ends the loop, or `index` itself when the element is
   * greater than its first child and the first child is not smaller than the
   * second, the case in which the source does nothing.
   */
  function SourceChoice(s: seq<int>, n: nat, index: nat): (next: nat)
    requires index * 2 + 1 < n <= |s|
    ensures next == index <==>
      index * 2 + 2 < n && s[index] > s[index * 2 + 1] >= s[index * 2 + 2]
    ensures next == n ==> AtMostChildren(s, n, index)
    ensures next != index && next != n ==> SmallerChild(s, n, index, next)
  {
    var parent, child1 := s[index], s[index * 2 + 1];
    if n > index * 2 + 2 then
      var child2 := s[index * 2 + 2];
      if parent > child1 then
        if child1 < child2 then index * 2 + 1 else index
      else if parent > child2 then index * 2 + 2
      else n
    else if parent > child1 then index * 2 + 1
    else n
  }

  /**
   * The source's `heapify(pos)` loop, run for at most `fuel` iterations:
   * Some(list) when the loop exits, None when it is still running after
   * `fuel` iterations.
   */
  function SourceHeapify(s: seq<int>, n: nat, index: nat, fuel: nat): (r: Option<seq<int>>)
    requires index <= n <= |s|
    ensures r.Some? ==> |r.value| == |s|
    decreases fuel
  {
    if !(n > index * 2 + 1) then Some(s)
    else if fuel == 0 then None
    else
      var next := SourceChoice(s, n, index);
      if next == index || next == n then
        SourceHeapify(s, n, next, fuel - 1)
      else
        SourceHeapify(Swapped(s, index, next), n, next, fuel - 1)
  }

  /** When the source's loop exits, the list holds the same elements as before. */
  lemma {:induction false} SourceHeapifyPermutes(s: seq<int>, n: nat, index: nat, fuel: nat, r: seq<int>)
    requires index <= n <= |s|
    requires SourceHeapify(s, n, index, fuel) == Some(r)
    ensures r[n..] == s[n..] && multiset(r[..n]) == multiset(s[..n])
    decreases fuel
  {
    if n > index * 2 + 1 {
      var next := SourceChoice(s, n, index);
      if next == index || next == n {
        SourceHeapifyPermutes(s, n, next, fuel - 1, r);
      } else {
        SwapPermutes(s, n, index, next);
        SourceHeapifyPermutes(Swapped(s, index, next), n, next, fuel - 1, r);
      }
    }
  }

  /**
   * Whenever the source's loop does exit, its result is a heap: every swap
   * it makes is one the corrected sift-down makes too.
   */
  lemma {:induction false} SourceHeapifyCorrectIfItExits(s: seq<int>, n: nat, index: nat, fuel: nat, r: seq<int>)
    requires index <= n <= |s| && SiftDownReady(s, n, index)
    requires SourceHeapify(s, n, index, fuel) == Some(r)
    ensures HeapOrdered(r, n)
    decreases fuel
  {
    if !(n > index * 2 + 1) {
      SiftDownDone(s, n, index);
    } else {
      var next := SourceChoice(s, n, index);
      if next == index {
        SourceHeapifyCorrectIfItExits(s, n, index, fuel - 1, r);
      } else if next == n {
        assert r == s;
        SiftDownDone(s, n, index);
      } else {
        SiftDownStep(s, n, index, next);
        SourceHeapifyCorrectIfItExits(Swapped(s, index, next), n, next, fuel - 1, r);
      }
    }
  }

  /**
   * The source's loop never exits once the element at `index` is greater
   * than its first child and the first child is not smaller than the second.
   */
  lemma {:induction false} SourceHeapifyStalls(s: seq<int>, n: nat, index: nat, fuel: nat)
    requires index * 2 + 2 < n <= |s|
    requires s[index] > s[index * 2 + 1] >= s[index * 2 + 2]
    ensures SourceHeapify(s, n, index, fuel) == None
    decreases fuel
  {
    if fuel > 0 {
      SourceHeapifyStalls(s, n, index, fuel - 1);
    }
  }

  /**
   * A reachable instance: inserting 1, 3, 2, 5 gives the heap [1, 3, 2, 5];
   * `poll` moves 5 to the root and calls `heapify(0)` on [5, 3, 2], which
   * never returns.
   */
  lemma SourcePollStalls(fuel: nat)
    ensures HeapOrdered([1, 3, 2, 5], 4)
    ensures Swapped([1, 3, 2, 5], 0, 3)[..3] == [5, 3, 2]
    ensures SourceHeapify(Swapped([1, 3, 2, 5], 0, 3), 3, 0, fuel) == None
  {
    var s := [1, 3, 2, 5];
    forall i, j | 0 <= i < 4 && 0 < j < 4 && (j - 1) / 2 == i ensures s[i] <= s[j] {
      assert j == 2 * i + 1 || j == 2 * i + 2;
    }
    SourceHeapifyStalls(Swapped(s, 0, 3), 3, 0, fuel);
  }

  /**
   * The source's `remove` moves the last element into the hole and only sifts
   * down. Removing 6 from the heap [1, 5, 2, 6, 7, 3] puts 3 in slot 3, below
   * its parent 5, and sift-down from a leaf changes nothing, so the queue is
   * left without the heap property.
   */
  lemma SourceRemoveSkipsSiftUp(fuel: nat)
    ensures HeapOrdered([1, 5, 2, 6, 7, 3], 6)
    ensures SourceHeapify(Swapped([1, 5, 2, 6, 7, 3], 3, 5), 5, 3, fuel) == Some([1, 5, 2, 3, 7, 6])
    ensures !HeapOrdered([1, 5, 2, 3, 7, 6], 5)
  {
    var s := [1, 5, 2, 6, 7, 3];
    forall i, j | 0 <= i < 6 && 0 < j < 6 && (j - 1) / 2 == i ensures s[i] <= s[j] {
      assert j == 2 * i + 1 || j == 2 * i + 2;
    }
    var t := [1, 5, 2, 3, 7, 6];
    assert Swapped(s, 3, 5) == t;
    assert (3 - 1) / 2 == 1 && t[1] > t[3];
  }

  /**
   * The list effect of the source's `add`, before its sift-up: the element is
   * appended to the list, whatever `size` is, and `size` grows by one. When
   * the list has a stale slot at `size` the queue's contents take in that
   * slot and not the new element.
   */
  function SourceAppend(s: seq<int>, n: nat, x: int): (r: (seq<int>, nat))
    requires n <= |s|
    ensures r.1 == n + 1 && r.1 <= |r.0|
    ensures r.0[..r.1] == if n < |s| then s[..n + 1] else s[..n] + [x]
  {
    (s + [x], n + 1)
  }

  /**
   * A reachable instance: after `add(7)` and `poll()` the list is one stale
   * slot with `size` 0, and `add(4)` leaves 4 outside the queue's contents.
   */
  lemma SourceAddMissesStaleSlot()
    ensures var r := SourceAppend([7], 0, 4); 4 !in multiset(r.0[..r.1])
  {
    var r := SourceAppend([7], 0, 4);
    assert r.0[..r.1] == [7];
  }
}
