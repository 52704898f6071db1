/**
 * The binary-heap engine of sorting_algorithms.py: percolate_up,
 * percolate_down and heapify. A heap is a list of `(key, Player)` pairs laid
 * out as a binary tree (the parent of index i is (i - 1) // 2), and its
 * polarity comes only from the caller's `compare(a, b)`, "a sits above b".
 *
 * The source's list is an array here. Python's `len(heap)` is the live size
 * `n` (a ghost parameter for percolate_up, the `size` argument of
 * percolate_down); entries at or beyond it are never read or written.
 */
module Heaps {
  import opened Players

  /** A heap entry: the extracted sort key and the player it belongs to. */
  datatype Entry = Entry(key: real, player: Player)

  /** `compare(a, b)`: true when `a` belongs nearer the root than `b`. */
  type Comparator = (real, real) -> bool

  /**
   * What the engine needs of `compare` for its heap-order guarantees: a strict
   * total order on keys (irreflexive, transitive, and any two distinct keys
   * are comparable). Both `a > b` and `a < b` on reals are such orders.
   */
  ghost predicate StrictOrder(above: Comparator) {
    && (forall a :: !above(a, a))
    && (forall a, b, c :: above(a, b) && above(b, c) ==> above(a, c))
    && (forall a, b :: a != b ==> above(a, b) || above(b, a))
  }

  lemma Asymmetric(above: Comparator, a: real, b: real)
    requires StrictOrder(above)
    requires above(a, b)
    ensures !above(b, a)
  {
  }

  /** In a strict total order, "not above" is transitive too. */
  lemma NotAboveTransitive(above: Comparator, a: real, b: real, c: real)
    requires StrictOrder(above)
    requires !above(a, b) && !above(b, c)
    ensures !above(a, c)
  {
    if a != b {
      assert above(b, a);
    }
  }

  /** `(idx - 1) // 2`: floor and Euclidean division agree on the non-negative index. */
  function Parent(i: nat): (p: nat)
    requires i > 0
    ensures p < i
  {
    (i - 1) / 2
  }

  /** `a` is `i` or lies on the path from `i` up to the root. */
  predicate IsAncestor(a: nat, i: nat)
    decreases i
  {
    a == i || (i > 0 && IsAncestor(a, Parent(i)))
  }

  lemma {:induction false} AncestorBelow(a: nat, i: nat)
    requires IsAncestor(a, i)
    ensures a <= i
    decreases i
  {
    if a != i {
      AncestorBelow(a, Parent(i));
    }
  }

  /** The path from `i` to the root is closed under taking parents. */
  lemma {:induction false} AncestorParent(a: nat, i: nat)
    requires IsAncestor(a, i) && a > 0
    ensures IsAncestor(Parent(a), i)
    decreases i
  {
    if a != i {
      AncestorParent(a, Parent(i));
    }
  }

  /** Heap order on the live prefix `[0, n)`: no entry sits above its parent. */
  ghost predicate HeapOrdered(h: seq<Entry>, n: nat, above: Comparator)
    requires n <= |h|
  {
    forall c :: 0 < c < n ==> !above(h[c].key, h[Parent(c)].key)
  }

  /**
   * Heap order everywhere except between `i` and its parent, and the children
   * of `i` may also sit below `i`'s parent: what percolate_up repairs.
   */
  ghost predicate HeapExceptUp(h: seq<Entry>, n: nat, i: nat, above: Comparator)
    requires n <= |h|
  {
    && (forall c :: 0 < c < n && c != i ==> !above(h[c].key, h[Parent(c)].key))
    && (0 < i < n ==> forall c :: 0 < c < n && Parent(c) == i ==> !above(h[c].key, h[Parent(i)].key))
  }

  /**
   * Heap order everywhere except between `i` and its children (both subtrees
   * of `i` are heaps), and those children may sit below `i`'s parent: what
   * percolate_down repairs.
   */
  ghost predicate HeapExceptDown(h: seq<Entry>, n: nat, i: nat, above: Comparator)
    requires n <= |h|
  {
    && (forall c :: 0 < c < n && Parent(c) != i ==> !above(h[c].key, h[Parent(c)].key))
    && (0 < i < n ==> forall c :: 0 < c < n && Parent(c) == i ==> !above(h[c].key, h[Parent(i)].key))
  }

  /** Swapping two live entries permutes the live prefix. */
  lemma SwapPermutes(h: seq<Entry>, i: nat, j: nat, n: nat)
    requires i < n && j < n && n <= |h|
    ensures multiset(h[i := h[j]][j := h[i]][..n]) == multiset(h[..n])
  {
    assert h[i := h[j]][j := h[i]][..n] == h[..n][i := h[j]][j := h[i]];
  }

  /** In a heap the root sits at least as high as every live entry. */
  lemma {:induction false} RootDominates(h: seq<Entry>, n: nat, above: Comparator, t: nat)
    requires StrictOrder(above)
    requires n <= |h| && HeapOrdered(h, n, above)
    requires t < n
    ensures !above(h[t].key, h[0].key)
    decreases t
  {
    if t == 0 {
    } else {
      RootDominates(h, n, above, Parent(t));
      NotAboveTransitive(above, h[t].key, h[Parent(t)].key, h[0].key);
    }
  }

  /** One swap of percolate_up moves the hole one level up. */
  lemma SiftUpStep(h: seq<Entry>, n: nat, i: nat, above: Comparator)
    requires StrictOrder(above)
    requires 0 < i < n <= |h|
    requires HeapExceptUp(h, n, i, above)
    requires above(h[i].key, h[Parent(i)].key)
    ensures HeapExceptUp(h[i := h[Parent(i)]][Parent(i) := h[i]], n, Parent(i), above)
  {
    var p := Parent(i);
    var x, y := h[i], h[p];
    var h' := h[i := y][p := x];
    Asymmetric(above, x.key, y.key);
    forall c | 0 < c < n && c != p
      ensures !above(h'[c].key, h'[Parent(c)].key)
    {
      if c == i {
      } else if Parent(c) == i {
      } else if Parent(c) == p {
        NotAboveTransitive(above, h[c].key, y.key, x.key);
      }
    }
    if 0 < p {
      var g := Parent(p);
      forall c | 0 < c < n && Parent(c) == p
        ensures !above(h'[c].key, h'[g].key)
      {
        if c != i {
          NotAboveTransitive(above, h[c].key, y.key, h[g].key);
        }
      }
    }
  }

  /** percolate_up stops at the root or below a parent it does not sit above: a heap. */
  lemma SiftUpDone(h: seq<Entry>, n: nat, i: nat, above: Comparator)
    requires i < n <= |h|
    requires HeapExceptUp(h, n, i, above)
    requires i > 0 ==> !above(h[i].key, h[Parent(i)].key)
    ensures HeapOrdered(h, n, above)
  {
  }

  /** Appending an entry to a heap leaves it a heap except at the new entry. */
  lemma AppendExceptUp(h: seq<Entry>, n: nat, e: Entry, above: Comparator)
    requires n < |h|
    requires HeapOrdered(h, n, above)
    ensures HeapExceptUp(h[n := e], n + 1, n, above)
  {
  }

  /** `heap[i], heap[j] = heap[j], heap[i]`. */
  method Swap(heap: array<Entry>, i: nat, j: nat)
    requires i < heap.Length && j < heap.Length
    modifies heap
    ensures heap[..] == old(heap[..])[i := old(heap[j])][j := old(heap[i])]
  {
    heap[i], heap[j] := heap[j], heap[i];
  }

  /**
   * `percolate_up(heap, idx, compare)`: while the entry at `idx` sits above
   * its parent, swap the two and continue from the parent. Only entries on the
   * path from `idx` to the root move, the live entries are permuted, and a
   * heap broken only at `idx` comes out a heap.
   */
  method PercolateUp(heap: array<Entry>, idx: nat, above: Comparator, ghost n: nat)
    requires idx < n <= heap.Length
    modifies heap
    ensures multiset(heap[..n]) == old(multiset(heap[..n]))
    ensures forall t {:trigger heap[t]} :: 0 <= t < heap.Length && !IsAncestor(t, idx) ==> heap[t] == old(heap[t])
    ensures StrictOrder(above) && old(HeapExceptUp(heap[..], n, idx, above)) ==> HeapOrdered(heap[..], n, above)
  {
    ghost var strict := StrictOrder(above);
    ghost var repairing := strict && HeapExceptUp(heap[..], n, idx, above);
    var i: nat := idx;
    while i > 0
      invariant i <= idx && IsAncestor(i, idx)
      invariant multiset(heap[..n]) == old(multiset(heap[..n]))
      invariant forall t {:trigger heap[t]} :: 0 <= t < heap.Length && !IsAncestor(t, idx) ==> heap[t] == old(heap[t])
      invariant repairing ==> HeapExceptUp(heap[..], n, i, above)
    {
      var parent := (i - 1) / 2;
      if above(heap[i].key, heap[parent].key) {
        ghost var before := heap[..];
        AncestorParent(i, idx);
        Swap(heap, i, parent);
        SwapPermutes(before, i, parent, n);
        if repairing {
          SiftUpStep(before, n, i, above);
        }
        i := parent;
      } else {
        break;
      }
    }
    if repairing {
      SiftUpDone(heap[..], n, i, above);
    }
  }

  /**
   * The comparisons of percolate_down at index `i`: start from `i`, take the
   * left child if it sits above, then the right child if it sits above the
   * best so far. On a tie between the children the left one wins.
   */
  function BestChild(h: seq<Entry>, i: nat, size: nat, above: Comparator): (best: nat)
    requires size <= |h|
    ensures best == i || (best < size && (best == 2 * i + 1 || best == 2 * i + 2))
    ensures best == 2 * i + 1 ==> above(h[2 * i + 1].key, h[i].key)
    ensures best == 2 * i + 2 && !above(h[2 * i + 1].key, h[i].key) ==> above(h[2 * i + 2].key, h[i].key)
    ensures best == i && 2 * i + 1 < size ==> !above(h[2 * i + 1].key, h[i].key)
    ensures best == i && 2 * i + 2 < size ==> !above(h[2 * i + 2].key, h[i].key)
    ensures best == 2 * i + 2 && above(h[2 * i + 1].key, h[i].key) ==> above(h[2 * i + 2].key, h[2 * i + 1].key)
    ensures best == 2 * i + 1 && 2 * i + 2 < size ==> !above(h[2 * i + 2].key, h[2 * i + 1].key)
  {
    var left := 2 * i + 1;
    var right := left + 1;
    var best := if left < size && above(h[left].key, h[i].key) then left else i;
    if right < size && above(h[right].key, h[best].key) then right else best
  }

  /**
   * Under a strict order, the entry BestChild picks sits above the entry at
   * `i` and at least as high as both children of `i`.
   */
  lemma BestChildDominates(h: seq<Entry>, i: nat, size: nat, above: Comparator)
    requires StrictOrder(above)
    requires size <= |h|
    ensures var best := BestChild(h, i, size, above);
      && (best != i ==> above(h[best].key, h[i].key))
      && (2 * i + 1 < size ==> !above(h[2 * i + 1].key, h[best].key))
      && (2 * i + 2 < size ==> !above(h[2 * i + 2].key, h[best].key))
  {
    var best := BestChild(h, i, size, above);
    var left, right := 2 * i + 1, 2 * i + 2;
    if best == right {
      if above(h[left].key, h[i].key) {
        Asymmetric(above, h[right].key, h[left].key);
      } else {
        NotAboveTransitive(above, h[left].key, h[i].key, h[right].key);
      }
    }
  }

  /**
   * Swapping `i` with a child `b` that sits above it and that no child of `i`
   * sits above moves the hole from `i` down to `b`.
   */
  lemma SwapDown(h: seq<Entry>, n: nat, i: nat, b: nat, above: Comparator)
    requires i < b < n <= |h| && (b == 2 * i + 1 || b == 2 * i + 2)
    requires HeapExceptDown(h, n, i, above)
    requires !above(h[i].key, h[b].key)
    requires forall c :: 0 < c < n && Parent(c) == i ==> !above(h[c].key, h[b].key)
    ensures HeapExceptDown(h[i := h[b]][b := h[i]], n, b, above)
  {
    var h' := h[i := h[b]][b := h[i]];
    forall c | 0 < c < n && Parent(c) != b
      ensures !above(h'[c].key, h'[Parent(c)].key)
    {
      if Parent(c) == i {
        assert c == 2 * i + 1 || c == 2 * i + 2;
      }
    }
  }

  /** One swap of percolate_down moves the hole one level down. */
  lemma SiftDownStep(h: seq<Entry>, n: nat, i: nat, above: Comparator)
    requires StrictOrder(above)
    requires i < n <= |h|
    requires HeapExceptDown(h, n, i, above)
    requires BestChild(h, i, n, above) != i
    ensures var b := BestChild(h, i, n, above);
      HeapExceptDown(h[i := h[b]][b := h[i]], n, b, above)
  {
    var b := BestChild(h, i, n, above);
    BestChildDominates(h, i, n, above);
    Asymmetric(above, h[b].key, h[i].key);
    forall c | 0 < c < n && Parent(c) == i
      ensures !above(h[c].key, h[b].key)
    {
      assert c == 2 * i + 1 || c == 2 * i + 2;
    }
    SwapDown(h, n, i, b, above);
  }

  /** percolate_down stops once no child sits above the entry at `i`: a heap. */
  lemma SiftDownDone(h: seq<Entry>, n: nat, i: nat, above: Comparator)
    requires StrictOrder(above)
    requires n <= |h|
    requires HeapExceptDown(h, n, i, above)
    requires BestChild(h, i, n, above) == i
    ensures HeapOrdered(h, n, above)
  {
    forall c | 0 < c < n
      ensures !above(h[c].key, h[Parent(c)].key)
    {
      if Parent(c) == i {
        assert c == 2 * i + 1 || c == 2 * i + 2;
      }
    }
  }

  /**
   * `percolate_down(heap, idx, size, compare)`: while a child within
   * `[0, size)` sits above the entry at `idx`, swap it with the best child
   * and continue from there. Only live entries in the subtree of `idx` move,
   * they are permuted, and a heap broken only below `idx` comes out a heap.
   */
  method PercolateDown(heap: array<Entry>, idx: nat, size: nat, above: Comparator)
    requires size <= heap.Length
    modifies heap
    ensures multiset(heap[..size]) == old(multiset(heap[..size]))
    ensures forall t {:trigger heap[t]} :: 0 <= t < heap.Length && (size <= t || !IsAncestor(idx, t)) ==> heap[t] == old(heap[t])
    ensures StrictOrder(above) && old(HeapExceptDown(heap[..], size, idx, above)) ==> HeapOrdered(heap[..], size, above)
  {
    ghost var strict := StrictOrder(above);
    ghost var repairing := strict && HeapExceptDown(heap[..], size, idx, above);
    var i := idx;
    while true
      invariant IsAncestor(idx, i)
      invariant multiset(heap[..size]) == old(multiset(heap[..size]))
      invariant forall t {:trigger heap[t]} :: 0 <= t < heap.Length && (size <= t || !IsAncestor(idx, t)) ==> heap[t] == old(heap[t])
      invariant repairing ==> HeapExceptDown(heap[..], size, i, above)
      decreases size - i
    {
      var best := BestChild(heap[..], i, size, above);
      if best == i {
        if repairing {
          SiftDownDone(heap[..], size, i, above);
        }
        break;
      }
      ghost var before := heap[..];
      Swap(heap, i, best);
      SwapPermutes(before, i, best, size);
      if repairing {
        SiftDownStep(before, size, i, above);
      }
      i := best;
    }
  }

  /**
   * `heap.append(item)` followed by `percolate_up(heap, len(heap) - 1, compare)`:
   * the live part grows by `e`, and a heap stays a heap.
   */
  method HeapPush(heap: array<Entry>, n: nat, e: Entry, above: Comparator)
    requires n < heap.Length
    modifies heap
    ensures multiset(heap[..n + 1]) == multiset(old(heap[..n])) + multiset{e}
    ensures StrictOrder(above) && old(HeapOrdered(heap[..], n, above)) ==> HeapOrdered(heap[..], n + 1, above)
  {
    ghost var before := heap[..];
    heap[n] := e;
    assert heap[..] == before[n := e];
    assert heap[..n + 1] == before[..n] + [e];
    if StrictOrder(above) && HeapOrdered(before, n, above) {
      AppendExceptUp(before, n, e, above);
    }
    PercolateUp(heap, n, above, n + 1);
  }

  /**
   * `heapify(items, compare)`: append each item in turn and percolate it up.
   * The result is a fresh heap holding exactly the items.
   */
  method Heapify(items: seq<Entry>, above: Comparator) returns (heap: array<Entry>)
    ensures fresh(heap) && heap.Length == |items|
    ensures multiset(heap[..]) == multiset(items)
    ensures StrictOrder(above) ==> HeapOrdered(heap[..], |items|, above)
  {
    ghost var strict := StrictOrder(above);
    heap := new Entry[|items|];
    var n := 0;
    while n < |items|
      invariant n <= |items| == heap.Length
      invariant multiset(heap[..n]) == multiset(items[..n])
      invariant strict ==> HeapOrdered(heap[..], n, above)
    {
      assert items[..n + 1] == items[..n] + [items[n]];
      HeapPush(heap, n, items[n], above);
      n := n + 1;
    }
    assert heap[..] == heap[..n] && items[..n] == items;
  }
}
