# Binary min-heap priority queue, modelled in Dafny

This project models `PriorityQueue<E extends Comparable<E>>` from
`src/PriorityQueue.java`: a priority queue kept as an array-backed binary
min-heap, where a lower value means a higher priority. The queue's state is
its backing list `myHeap` and its element count `size`. Element `i` has its
children at `2i+1` and `2i+2`. The heap property says that every parent is at
most its children, within the first `size` slots.

The model has three modules.

- `Heaps` (`heap_spec.dfy`) states the heap on sequences. It defines the heap
  property `HeapOrdered(s, n)`, the intermediate states of a sift-up and a
  sift-down (`SiftUpReady`, `SiftDownReady`), and "minimum of a multiset". It
  proves the lemmas the class needs: the root is a minimum, each sift step
  preserves the intermediate state, a sift that stops leaves a heap, and
  moving the last element into a hole removes exactly one element.
- `PriorityQueues` (`priority_queue.dfy`) is the class. `heap: seq<int>`
  stands for the `ArrayList` and `size: nat` for the count. `Valid()` is the
  heap property on `heap[..size]`, and `Elements()` is the multiset of the
  first `size` slots. Every operation is a method or function of the class.
  It has the source's loops, with invariants, and contracts stated on
  `Elements()`, `size` and the heap property. `PollLeast` and `DrainSorted`
  are callers that use only these contracts: polling a queue until it is
  empty returns its elements in increasing order. `InsertFive`, `DrainFive`
  and `InsertThenDrain` apply them to one sequence of calls. It inserts 5, 3, 8, 1, 4,
  sees 1 with `Peek`, polls 1, 3, 4, 5, 8 in that order, and then finds the
  queue empty.
- `SourceDefects` (`source_defects.dfy`) models three pieces of the source
  as they are written, where they differ from the class. Each has a lemma
  that exhibits an input showing the difference (see "## Findings").

Slots at and past `size` are stale. The source writes null into a vacated
slot and keeps the slot. Here a stale slot keeps some integer, and it is
never part of `Elements()`. `Add` writes into slot `size`: it overwrites a
stale slot there, or grows the list when there is none.

Where the class departs from the code, it follows what the code evidently
intends. Each departure is a row under "## Findings", except these two:

- `peek` tests `myHeap.isEmpty()` rather than `size`
  (src/PriorityQueue.java:115). `Peek` tests `size == 0`. In the source the
  two tests agree, because slot 0 is nulled whenever the queue becomes empty.
  They disagree only through the stale-slot defect of `add` (Findings row 3):
  after `add(7)`, `poll()`, `add(4)` the list is `[null, 4]` with size 1, and
  `peek` returns null.
- `poll` decrements `size` and then calls `swap(0, size)`
  (src/PriorityQueue.java:145-147). That breaks `swap`'s documented
  precondition, which asks for both positions below `size`. `Poll` swaps
  first and then decrements. The resulting list and size are the same.

## Model

| member | source | states |
|---|---|---|
| `Heaps.HeapOrderedByChildren` | src/PriorityQueue.java:3-6 | the heap property, stated as "every node is at least its parent", is equivalent to "every parent `i` is at most its children `2i+1` and `2i+2` below `n`" |
| `Heaps.RootIsLeast` | src/PriorityQueue.java:107-118 | in a heap, the root is at most every element in the first `n` slots |
| `Heaps.RootIsMinimum` | src/PriorityQueue.java:107-118 | the root of a non-empty heap belongs to the heap's multiset and is at most every element of it |
| `Heaps.SwapPermutes` | src/PriorityQueue.java:74-83 | exchanging two slots below `n` keeps the multiset of the first `n` slots, the length, and every slot from `n` on |
| `Heaps.RemoveAtPermutes` | src/PriorityQueue.java:282-288 | moving the last element into slot `i` and dropping the last slot leaves the old multiset minus exactly one copy of the element that was at `i` |
| `Heaps.SiftUpStep` | src/PriorityQueue.java:43-61 | when the moving element is below its parent, exchanging the two keeps the sift-up state, with the gap now at the parent |
| `Heaps.SiftUpDone` | src/PriorityQueue.java:55-58 | sift-up stopping at the root, or where the element is not below its parent, leaves a heap |
| `Heaps.SiftDownStep` | src/PriorityQueue.java:170-240 | exchanging the element with its smaller child, when that child is smaller than the element, keeps the sift-down state, with the gap now at that child |
| `Heaps.SiftDownDone` | src/PriorityQueue.java:207-234 | sift-down stopping where the element is at most its children leaves a heap |
| `Heaps.RemoveAtReady` | src/PriorityQueue.java:284-288 | after the last element moves into hole `i`, the state is ready for a sift-up when the element is below its new parent, and ready for a sift-down otherwise |
| `PriorityQueues.ParentIndex` | src/PriorityQueue.java:45-47 | the source's parent index `index - (index/2 + 1)`, clamped at 0, is `(index-1)/2` and lies below `index` for every `index > 0`; it is 0 at the root |
| `PriorityQueues.PriorityQueue.constructor` | src/PriorityQueue.java:19-21 | a new queue is valid and empty: size 0, no elements |
| `PriorityQueues.PriorityQueue.Add` | src/PriorityQueue.java:28-65 | keeps the heap property, increases `size` by exactly 1, and adds exactly one copy of `x` to the elements |
| `PriorityQueues.PriorityQueue.Place` | src/PriorityQueue.java:30-41 | writes `x` into slot `size` and changes no slot below it, which leaves a sift-up state at `size` |
| `PriorityQueues.PriorityQueue.SiftUp` | src/PriorityQueue.java:43-61 | from a sift-up state, the loop ends with a heap; the elements, `size` and the stale slots are unchanged |
| `PriorityQueues.PriorityQueue.Swap` | src/PriorityQueue.java:74-83 | exchanges slots `p` and `q` (both below `size`) and changes no other slot; `size` and the elements are unchanged |
| `PriorityQueues.PriorityQueue.Contains` | src/PriorityQueue.java:91-105 | returns true exactly when `x` is among the elements; changes nothing |
| `PriorityQueues.PriorityQueue.Peek` | src/PriorityQueue.java:113-118 | returns None exactly when `size` is 0; otherwise returns slot 0, which is a minimum of the elements; reads only |
| `PriorityQueues.PriorityQueue.Size` | src/PriorityQueue.java:308-314 | the count equals the number of elements, counted with multiplicity |
| `PriorityQueues.PriorityQueue.Poll` | src/PriorityQueue.java:126-153 | on an empty queue, returns None and changes nothing; otherwise returns the old root, which is a minimum, decreases `size` by 1, removes exactly that element, and keeps the heap property |
| `PriorityQueues.PriorityQueue.MoveLastTo` | src/PriorityQueue.java:284-287 | exchanges slot `i` with the last slot and shrinks `size` by 1, so that exactly the element that was in slot `i` leaves the elements |
| `PriorityQueues.PriorityQueue.SwapTarget` | src/PriorityQueue.java:173-237 | the comparisons of one sift-down step: returns either the element's own index, when it is at most its children, or a child that is smaller than the element and at most the other child |
| `PriorityQueues.PriorityQueue.Heapify` | src/PriorityQueue.java:161-243 | from a state where the heap property may fail only between `pos` and its children, and the parent of `pos` is at most each child of `pos`, the loop ends with a heap; the elements, `size` and the stale slots are unchanged |
| `PriorityQueues.PriorityQueue.Remove` | src/PriorityQueue.java:253-301 | returns true exactly when `x` is among the elements; if so, `size` decreases by 1 and exactly one copy of `x` is removed; if not, the list and `size` are unchanged; the heap property holds afterwards |
| `PriorityQueues.PriorityQueue.RemoveAt` | src/PriorityQueue.java:282-289 | removes exactly the element in slot `i`, decreases `size` by 1, and restores the heap property by one sift-up or one sift-down |
| `PriorityQueues.PollLeast` | src/PriorityQueue.java:126-153 | on a queue whose elements, listed in increasing order, are `xs`, one poll returns `xs[0]` and leaves the elements of `xs[1..]` |
| `PriorityQueues.DrainSorted` | src/PriorityQueue.java:126-153 | polling a queue whose elements, listed in increasing order, are `xs` until it is empty returns exactly `xs`, in order |
| `SourceDefects.SourceChoice` | src/PriorityQueue.java:173-237 | the source's comparisons in one `heapify` iteration: the result is the element's own index exactly when the element is greater than its first child and the first child is not smaller than the second; it is `n` (exit) only when the element is at most its children; otherwise it is a child smaller than the element and at most the other child |
| `SourceDefects.SourceHeapify` | src/PriorityQueue.java:161-243 | the source's `heapify` loop run for at most `fuel` iterations; when it exits, the list keeps its length |
| `SourceDefects.SourceHeapifyPermutes` | src/PriorityQueue.java:161-243 | whenever the source's loop exits with a list `r`, the first `n` slots of `r` hold the same multiset as before, and the slots from `n` on are unchanged |
| `SourceDefects.SourceHeapifyCorrectIfItExits` | src/PriorityQueue.java:161-243 | from a sift-down state, whenever the source's loop exits with a list `r`, the first `n` slots of `r` form a heap |
| `SourceDefects.SourceHeapifyStalls` | src/PriorityQueue.java:183-195 | if the element is greater than its first child and the first child is not smaller than the second, the source's loop does not exit after any number of iterations |
| `SourceDefects.SourcePollStalls` | src/PriorityQueue.java:145-149 | `poll` on the heap [1, 3, 2, 5] calls `heapify(0)` on [5, 3, 2], and that call never returns |
| `SourceDefects.SourceRemoveSkipsSiftUp` | src/PriorityQueue.java:284-288 | removing 6 from the heap [1, 5, 2, 6, 7, 3] with sift-down alone leaves [1, 5, 2, 3, 7], which is not a heap |
| `SourceDefects.SourceAppend` | src/PriorityQueue.java:30-41 | the source's list effect of `add`: `size` grows by 1; when there is a stale slot at `size`, that slot becomes part of the contents and the new element does not |
| `SourceDefects.SourceAddMissesStaleSlot` | src/PriorityQueue.java:30-33 | after `add(7)` and `poll()`, a further `add(4)` leaves 4 outside the queue's contents |

## Findings

| source | as written | input that shows it | evidently intended | confidence | as-written member | corrected member |
|---|---|---|---|---|---|---|
| src/PriorityQueue.java:183-195 | when the parent is greater than `child1` and `child1` is not smaller than `child2`, nothing is swapped and `index` is unchanged, so `heapify` loops forever | `add` 1, 3, 2, 5, then `poll`: `heapify(0)` runs on [5, 3, 2] | swap with the smaller child, which here is `child2` | high; not executed | `SourceDefects.SourceHeapifyStalls` | `PriorityQueues.PriorityQueue.Heapify` |
| src/PriorityQueue.java:284-288 | `remove` moves the last element into the hole and only calls `heapify(i)`, even when that element is below its new parent | `remove(6)` on the heap [1, 5, 2, 6, 7, 3] leaves [1, 5, 2, 3, 7] | sift up when the moved element is below its new parent, otherwise sift down | high; not executed | `SourceDefects.SourceRemoveSkipsSiftUp` | `PriorityQueues.PriorityQueue.RemoveAt` |
| src/PriorityQueue.java:32 | `add` appends to the list even though `poll` and `remove` leave stale null slots behind `size`, so the new element lands outside the first `size` slots | `add(7)`, `poll()`, `add(4)`: the list is [null, 4] with size 1 | write the new element into slot `size` | high; not executed | `SourceDefects.SourceAddMissesStaleSlot` | `PriorityQueues.PriorityQueue.Add` |

The third row applies to line 41 as well. There, the sift-up that follows
the append compares slot `size - 1`, which is the stale null slot. In the
source that comparison throws a NullPointerException.

## Left out

- `main` (src/PriorityQueue.java:340-432): it is an interactive console menu over standard input and output.
- `toString` (src/PriorityQueue.java:323-332): it prints to standard output and returns the empty string.
- Generic elements: the model uses `int`, with `<` standing for `compareTo` and `==` for `equals`. A `Comparable` whose order is not total, or an `equals` that disagrees with it, is not modelled.
- The null markers in vacated slots (src/PriorityQueue.java:136, 265, 285): a vacated slot keeps an arbitrary integer instead. The null-pointer failures they cause, together with the defects above, are described under "## Findings" and are not modelled as outcomes.
- `ArrayList` capacity and growth, and Java's 32-bit `int` for `size` and the indices: `size` and the indices are unbounded naturals here.
- `PriorityQueues.PriorityQueue.Remove`: it does not say which occurrence is removed. The source removes the first matching slot, and so does the model. With `==` as equality, every occurrence of `x` leaves the same multiset, so the contract states only that multiset.
- `SourceDefects.SourceHeapify`: the source's loop is bounded by `fuel` iterations. That is what lets its non-termination be stated as "None for every fuel".
