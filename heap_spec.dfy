/**
 * The array-backed binary min-heap, stated on values.
 *
 * A heap of `n` elements occupies the prefix `s[..n]` of a sequence `s`; the
 * node at index `j > 0` has its parent at `(j - 1) / 2`, so the children of
 * `i` are `2 * i + 1` and `2 * i + 2`. Everything here is about sequences:
 * the class in module PriorityQueues keeps its list in a `seq` field and
 * proves its methods with these definitions and lemmas.
 */
module Heaps {

  datatype Option<T> = None | Some(value: T)

  /** `s` with the elements at `p` and `q` exchanged. */
  function Swapped(s: seq<int>, p: nat, q: nat): seq<int>
    requires p < |s| && q < |s|
  {
    s[p := s[q]][q := s[p]]
  }

  /** The heap property on `s[..n]`: every node is at least its parent. */
  predicate HeapOrdered(s: seq<int>, n: nat)
  {
    n <= |s| && forall i, j :: 0 <= i < n && 0 < j < n && (j - 1) / 2 == i ==> s[i] <= s[j]
  }

  /**
   * Sift-up state with the moving element at `k`: the heap property holds
   * for every edge except the one from `k` up to its parent, and the parent
   * of `k` is at most every child of `k` (so it can move down past them).
   */
  predicate SiftUpReady(s: seq<int>, n: nat, k: nat)
  {
    k < n <= |s| &&
    (forall i, j :: 0 <= i < n && 0 < j < n && (j - 1) / 2 == i && j != k ==> s[i] <= s[j]) &&
    (k > 0 ==> forall j :: 0 < j < n && (j - 1) / 2 == k ==> s[(k - 1) / 2] <= s[j])
  }

  /**
   * Sift-down state with the moving element at `k`: the heap property holds
   * for every edge except the ones from `k` down to its children, and the
   * parent of `k` is at most every child of `k`.
   */
  predicate SiftDownReady(s: seq<int>, n: nat, k: nat)
  {
    k <= n <= |s| &&
    (forall i, j :: 0 <= i < n && 0 < j < n && (j - 1) / 2 == i && i != k ==> s[i] <= s[j]) &&
    (k > 0 ==> forall j :: 0 < j < n && (j - 1) / 2 == k ==> s[(k - 1) / 2] <= s[j])
  }

  /** The element at `k` is at most each of its children below `n`. */
  predicate AtMostChildren(s: seq<int>, n: nat, k: nat)
  {
    n <= |s| &&
    (2 * k + 1 < n ==> s[k] <= s[2 * k + 1]) &&
    (2 * k + 2 < n ==> s[k] <= s[2 * k + 2])
  }

  /**
   * `c` is a child of `k` below `n`, smaller than the element at `k` and at
   * most the other child: the child a sift-down step exchanges `k` with.
   */
  predicate SmallerChild(s: seq<int>, n: nat, k: nat, c: nat)
  {
    c < n <= |s| && (c == 2 * k + 1 || c == 2 * k + 2) && s[c] < s[k] &&
    (2 * k + 1 < n ==> s[c] <= s[2 * k + 1]) &&
    (2 * k + 2 < n ==> s[c] <= s[2 * k + 2])
  }

  /** `m` is an element of `ms` and no element of `ms` is smaller. */
  ghost predicate IsMinimum(m: int, ms: multiset<int>)
  {
    m in ms && forall e :: e in ms ==> m <= e
  }

  /**
   * The parent form of the heap property is the form in which the class
   * documentation states it: every parent is at most its children at
   * `2 * i + 1` and `2 * i + 2`.
   */
  lemma HeapOrderedByChildren(s: seq<int>, n: nat)
    requires n <= |s|
    ensures HeapOrdered(s, n) <==>
      (forall i :: 0 <= i && 2 * i + 1 < n ==> s[i] <= s[2 * i + 1]) &&
      (forall i :: 0 <= i && 2 * i + 2 < n ==> s[i] <= s[2 * i + 2])
  {
    if HeapOrdered(s, n) {
      forall i | 0 <= i && 2 * i + 1 < n ensures s[i] <= s[2 * i + 1] {
        assert (2 * i + 1 - 1) / 2 == i;
      }
      forall i | 0 <= i && 2 * i + 2 < n ensures s[i] <= s[2 * i + 2] {
        assert (2 * i + 2 - 1) / 2 == i;
      }
    }
    if (forall i :: 0 <= i && 2 * i + 1 < n ==> s[i] <= s[2 * i + 1]) &&
       (forall i :: 0 <= i && 2 * i + 2 < n ==> s[i] <= s[2 * i + 2])
    {
      forall i, j | 0 <= i < n && 0 < j < n && (j - 1) / 2 == i ensures s[i] <= s[j] {
        assert j == 2 * i + 1 || j == 2 * i + 2;
      }
    }
  }

  /** In a heap every element is at least the root. */
  lemma {:induction false} RootIsLeast(s: seq<int>, n: nat, k: nat)
    requires HeapOrdered(s, n) && k < n
    ensures s[0] <= s[k]
    decreases k
  {
    if k > 0 {
      RootIsLeast(s, n, (k - 1) / 2);
      assert s[(k - 1) / 2] <= s[k];
    }
  }

  /** The root of a non-empty heap is a minimum of its elements. */
  lemma RootIsMinimum(s: seq<int>, n: nat)
    requires HeapOrdered(s, n) && n > 0
    ensures IsMinimum(s[0], multiset(s[..n]))
  {
    assert s[0] == s[..n][0];
    forall e | e in multiset(s[..n]) ensures s[0] <= e {
      var k :| 0 <= k < n && s[..n][k] == e;
      RootIsLeast(s, n, k);
    }
  }

  /** Exchanging two slots of the prefix keeps its elements and the rest of the list. */
  lemma SwapPermutes(s: seq<int>, n: nat, p: nat, q: nat)
    requires p < n && q < n && n <= |s|
    ensures |Swapped(s, p, q)| == |s|
    ensures multiset(Swapped(s, p, q)[..n]) == multiset(s[..n])
    ensures Swapped(s, p, q)[n..] == s[n..]
  {
    assert Swapped(s, p, q)[..n] == Swapped(s[..n], p, q);
  }

  /**
   * Moving the last element of the heap into slot `i` and shrinking the heap
   * by one removes exactly the element that was at `i`.
   */
  lemma RemoveAtPermutes(s: seq<int>, n: nat, i: nat)
    requires i < n <= |s|
    ensures multiset(Swapped(s, i, n - 1)[..n - 1]) == multiset(s[..n]) - multiset{s[i]}
  {
    var t := Swapped(s, i, n - 1);
    SwapPermutes(s, n, i, n - 1);
    assert t[..n] == t[..n - 1] + [t[n - 1]];
    assert t[n - 1] == s[i];
  }

  /** One sift-up step: exchanging a too-small element with its parent moves the gap up. */
  lemma SiftUpStep(s: seq<int>, n: nat, k: nat)
    requires SiftUpReady(s, n, k) && k > 0 && s[k] < s[(k - 1) / 2]
    ensures SiftUpReady(Swapped(s, k, (k - 1) / 2), n, (k - 1) / 2)
  {
    var p := (k - 1) / 2;
    var t := Swapped(s, k, p);
    SiftUpStepEdges(s, n, k);
    if p > 0 {
      var g := (p - 1) / 2;
      assert s[g] <= s[p];
      forall j | 0 < j < n && (j - 1) / 2 == p ensures t[g] <= t[j] {
        if j != k {
          assert s[p] <= s[j];
        }
      }
    }
  }

  /** The edges a sift-up step leaves in order: all but the one above the parent. */
  lemma SiftUpStepEdges(s: seq<int>, n: nat, k: nat)
    requires SiftUpReady(s, n, k) && k > 0 && s[k] < s[(k - 1) / 2]
    ensures var p := (k - 1) / 2; var t := Swapped(s, k, p);
      forall i, j :: 0 <= i < n && 0 < j < n && (j - 1) / 2 == i && j != p ==> t[i] <= t[j]
  {
    var p := (k - 1) / 2;
    var t := Swapped(s, k, p);
    forall i, j | 0 <= i < n && 0 < j < n && (j - 1) / 2 == i && j != p ensures t[i] <= t[j] {
      if j == k {
        assert t[i] == s[k] && t[j] == s[p];
      } else if i == k {
        assert t[i] == s[p] && t[j] == s[j];
      } else if i == p {
        assert t[i] == s[k] && t[j] == s[j] && s[p] <= s[j];
      } else {
        assert t[i] == s[i] && t[j] == s[j];
      }
    }
  }

  /** Sift-up stops with a heap once the element is at the root or not below its parent. */
  lemma SiftUpDone(s: seq<int>, n: nat, k: nat)
    requires SiftUpReady(s, n, k) && (k == 0 || s[(k - 1) / 2] <= s[k])
    ensures HeapOrdered(s, n)
  {
  }

  /**
   * One sift-down step: exchanging the element with its smaller child `c`,
   * when that child is smaller than it, moves the gap down to `c`.
   */
  lemma SiftDownStep(s: seq<int>, n: nat, k: nat, c: nat)
    requires SiftDownReady(s, n, k) && SmallerChild(s, n, k, c)
    ensures SiftDownReady(Swapped(s, k, c), n, c)
  {
    var t := Swapped(s, k, c);
    SiftDownStepEdges(s, n, k, c);
    forall j | 0 < j < n && (j - 1) / 2 == c ensures t[k] <= t[j] {
      assert t[j] == s[j] && s[c] <= s[j];
    }
  }

  /** The edges a sift-down step leaves in order: all but those below `c`. */
  lemma SiftDownStepEdges(s: seq<int>, n: nat, k: nat, c: nat)
    requires SiftDownReady(s, n, k) && SmallerChild(s, n, k, c)
    ensures var t := Swapped(s, k, c);
      forall i, j :: 0 <= i < n && 0 < j < n && (j - 1) / 2 == i && i != c ==> t[i] <= t[j]
  {
    var t := Swapped(s, k, c);
    assert (c - 1) / 2 == k;
    forall i, j | 0 <= i < n && 0 < j < n && (j - 1) / 2 == i && i != c ensures t[i] <= t[j] {
      if j == k {
        assert t[i] == s[i] && t[j] == s[c];
      } else if j == c {
        assert t[i] == s[c] && t[j] == s[k];
      } else if i == k {
        assert j == 2 * k + 1 || j == 2 * k + 2;
        assert t[i] == s[c] && t[j] == s[j];
      } else {
        assert t[i] == s[i] && t[j] == s[j];
      }
    }
  }

  /** Sift-down stops with a heap once the element is at most its children. */
  lemma SiftDownDone(s: seq<int>, n: nat, k: nat)
    requires SiftDownReady(s, n, k) && AtMostChildren(s, n, k)
    ensures HeapOrdered(s, n)
  {
    forall i, j | 0 <= i < n && 0 < j < n && (j - 1) / 2 == i ensures s[i] <= s[j] {
      if i == k {
        assert j == 2 * k + 1 || j == 2 * k + 2;
      }
    }
  }

  /**
   * Moving the last element of a heap into slot `i` (and dropping the last
   * slot) leaves a state from which one sift restores the heap: sift-up when
   * the moved element is below its new parent, sift-down otherwise.
   */
  lemma RemoveAtReady(s: seq<int>, n: nat, i: nat, t: seq<int>)
    requires HeapOrdered(s, n) && i < n && t == Swapped(s, i, n - 1)
    ensures if 0 < i < n - 1 && t[i] < t[(i - 1) / 2]
      then SiftUpReady(t, n - 1, i)
      else SiftDownReady(t, n - 1, i)
  {
    var m := n - 1;
    RemoveAtKeepsEdges(s, n, i);
    if i > 0 && i < m {
      var p := (i - 1) / 2;
      assert s[p] <= s[i];
      forall b | 0 < b < m && (b - 1) / 2 == i ensures t[p] <= t[b] {
        assert t[p] == s[p] && t[b] == s[b] && s[i] <= s[b];
      }
      if t[i] < t[p] {
        forall b | 0 < b < m && (b - 1) / 2 == i ensures t[i] <= t[b] {
          assert t[b] == s[b] && s[i] <= s[b];
        }
      }
    }
  }

  /** Moving the last element into slot `i` keeps every edge that does not touch `i`. */
  lemma RemoveAtKeepsEdges(s: seq<int>, n: nat, i: nat)
    requires HeapOrdered(s, n) && i < n
    ensures var t := Swapped(s, i, n - 1);
      forall a, b :: 0 <= a < n - 1 && 0 < b < n - 1 && (b - 1) / 2 == a && a != i && b != i ==> t[a] <= t[b]
  {
    var t := Swapped(s, i, n - 1);
    forall a, b | 0 <= a < n - 1 && 0 < b < n - 1 && (b - 1) / 2 == a && a != i && b != i ensures t[a] <= t[b] {
      assert t[a] == s[a] && t[b] == s[b];
    }
  }
}
