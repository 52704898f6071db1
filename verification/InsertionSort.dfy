/**
 * insertion_sort of sorting_algorithms.py. The source copies the list and
 * sorts the copy in place by adjacent swaps, moving each element left while it
 * is not `in_order` with its predecessor. InsertionSorted is the same algorithm
 * as a function on sequences; the method is proved to compute it, and the
 * lemmas prove what it promises: a permutation, ordered, stable.
 */
module InsertionSorting {
  import opened Wrappers
  import opened Players
  import opened Stats

  /** Two values out of order swap roles: what is not in order one way is in order the other way. */
  lemma NotInOrderFlip(a: real, b: real, descending: bool)
    requires !InOrder(a, b, descending)
    ensures InOrder(b, a, descending) && a != b
  {
  }

  /**
   * Where the inner `while` loop of insertion_sort leaves a player `x` that
   * starts right after `sorted`: it moves left past every predecessor it is not
   * in order with, and stops after the first one it is in order with.
   */
  function InsertionPoint(sorted: seq<Player>, x: Player, k: Stat, descending: bool): (p: nat)
    ensures p <= |sorted|
    decreases |sorted|
  {
    if sorted == [] then 0
    else if InOrder(StatValue(x, k), StatValue(sorted[|sorted| - 1], k), descending) then |sorted|
    else InsertionPoint(sorted[..|sorted| - 1], x, k, descending)
  }

  /**
   * The insertion point is exactly where the loop stops: `x` is in order with
   * the player just before it, and with none of the players it moved past.
   */
  lemma {:induction false} InsertionPointSpec(sorted: seq<Player>, x: Player, k: Stat, descending: bool)
    ensures var p := InsertionPoint(sorted, x, k, descending);
      && (p > 0 ==> InOrder(StatValue(x, k), StatValue(sorted[p - 1], k), descending))
      && (forall t :: p <= t < |sorted| ==> !InOrder(StatValue(x, k), StatValue(sorted[t], k), descending))
    decreases |sorted|
  {
    if sorted != [] && !InOrder(StatValue(x, k), StatValue(sorted[|sorted| - 1], k), descending) {
      var init := sorted[..|sorted| - 1];
      InsertionPointSpec(init, x, k, descending);
      var p := InsertionPoint(init, x, k, descending);
      forall t | p <= t < |sorted|
        ensures !InOrder(StatValue(x, k), StatValue(sorted[t], k), descending)
      {
        if t < |init| {
          assert sorted[t] == init[t];
        }
      }
    }
  }

  /** The sequence after one pass of the inner loop: `x` placed at its insertion point. */
  function InsertBack(sorted: seq<Player>, x: Player, k: Stat, descending: bool): (r: seq<Player>)
    ensures |r| == |sorted| + 1
  {
    var p := InsertionPoint(sorted, x, k, descending);
    seq(|sorted| + 1, t requires 0 <= t <= |sorted| =>
      if t < p then sorted[t] else if t == p then x else sorted[t - 1])
  }

  /**
   * Conversely, a position with `x` in order with the player before it, and
   * with none of the players after it, is the insertion point.
   */
  lemma {:induction false} InsertionPointUnique(sorted: seq<Player>, x: Player, j: nat, k: Stat, descending: bool)
    requires j <= |sorted|
    requires j > 0 ==> InOrder(StatValue(x, k), StatValue(sorted[j - 1], k), descending)
    requires forall t :: j <= t < |sorted| ==> !InOrder(StatValue(x, k), StatValue(sorted[t], k), descending)
    ensures InsertionPoint(sorted, x, k, descending) == j
    decreases |sorted|
  {
    if j < |sorted| {
      var init := sorted[..|sorted| - 1];
      assert !InOrder(StatValue(x, k), StatValue(sorted[|sorted| - 1], k), descending);
      forall t | j <= t < |init|
        ensures !InOrder(StatValue(x, k), StatValue(init[t], k), descending)
      {
        assert init[t] == sorted[t];
      }
      if j > 0 {
        assert init[j - 1] == sorted[j - 1];
      }
      InsertionPointUnique(init, x, j, k, descending);
    }
  }

  /** The same sequence as a concatenation: the players before the insertion point, `x`, the rest. */
  lemma InsertBackSplit(sorted: seq<Player>, x: Player, k: Stat, descending: bool)
    ensures var p := InsertionPoint(sorted, x, k, descending);
      InsertBack(sorted, x, k, descending) == sorted[..p] + [x] + sorted[p..]
  {
  }

  /** The outer `for` loop: each element in turn is inserted into the sorted prefix before it. */
  function InsertionSorted(s: seq<Player>, k: Stat, descending: bool): (r: seq<Player>)
    ensures |r| == |s|
  {
    if s == [] then []
    else InsertBack(InsertionSorted(s[..|s| - 1], k, descending), s[|s| - 1], k, descending)
  }

  /** Insertion sort only moves players: the result is a permutation of the input. */
  lemma {:induction false} InsertionSortedPermutes(s: seq<Player>, k: Stat, descending: bool)
    ensures multiset(InsertionSorted(s, k, descending)) == multiset(s)
  {
    if s != [] {
      var init, last := s[..|s| - 1], s[|s| - 1];
      InsertionSortedPermutes(init, k, descending);
      var sorted := InsertionSorted(init, k, descending);
      var p := InsertionPoint(sorted, last, k, descending);
      InsertBackSplit(sorted, last, k, descending);
      InsertedPermutes(sorted, p, last);
      assert s == init + [last];
    }
  }

  lemma InsertedPermutes(s: seq<Player>, p: nat, x: Player)
    requires p <= |s|
    ensures multiset(s[..p] + [x] + s[p..]) == multiset(s) + multiset{x}
  {
    assert s == s[..p] + s[p..];
  }

  lemma OrderedPrefix(s: seq<Player>, n: nat, k: Stat, descending: bool)
    requires Ordered(s, k, descending)
    requires n <= |s|
    ensures Ordered(s[..n], k, descending)
  {
    var t := s[..n];
    forall i | 0 < i < |t|
      ensures InOrder(StatValue(t[i], k), StatValue(t[i - 1], k), descending)
    {
      assert t[i] == s[i] && t[i - 1] == s[i - 1];
    }
  }

  /** Inserting into an ordered sequence keeps it ordered. */
  lemma InsertBackOrdered(sorted: seq<Player>, x: Player, k: Stat, descending: bool)
    requires Ordered(sorted, k, descending)
    ensures Ordered(InsertBack(sorted, x, k, descending), k, descending)
  {
    var p := InsertionPoint(sorted, x, k, descending);
    var r := InsertBack(sorted, x, k, descending);
    InsertionPointSpec(sorted, x, k, descending);
    if p < |sorted| {
      NotInOrderFlip(StatValue(x, k), StatValue(sorted[p], k), descending);
    }
    forall i | 0 < i < |r|
      ensures InOrder(StatValue(r[i], k), StatValue(r[i - 1], k), descending)
    {
    }
  }

  /** The result of insertion sort is ordered by `k` in the requested direction. */
  lemma {:induction false} InsertionSortedOrdered(s: seq<Player>, k: Stat, descending: bool)
    ensures Ordered(InsertionSorted(s, k, descending), k, descending)
  {
    if s != [] {
      InsertionSortedOrdered(s[..|s| - 1], k, descending);
      InsertBackOrdered(InsertionSorted(s[..|s| - 1], k, descending), s[|s| - 1], k, descending);
    }
  }

  /** The players of `s` whose statistic `k` equals `v`, in their order in `s`. */
  function WithValue(s: seq<Player>, k: Stat, v: real): seq<Player>
  {
    if s == [] then []
    else WithValue(s[..|s| - 1], k, v) + (if StatValue(s[|s| - 1], k) == v then [s[|s| - 1]] else [])
  }

  lemma {:induction false} WithValueAppend(a: seq<Player>, b: seq<Player>, k: Stat, v: real)
    ensures WithValue(a + b, k, v) == WithValue(a, k, v) + WithValue(b, k, v)
    decreases |b|
  {
    if b == [] {
      assert a + b == a;
    } else {
      var b' := b[..|b| - 1];
      assert (a + b)[..|a + b| - 1] == a + b';
      assert (a + b)[|a + b| - 1] == b[|b| - 1];
      WithValueAppend(a, b', k, v);
    }
  }

  lemma WithValueSingle(x: Player, k: Stat, v: real)
    ensures WithValue([x], k, v) == if StatValue(x, k) == v then [x] else []
  {
    assert [x][..0] == [];
  }

  lemma WithValueNone(s: seq<Player>, k: Stat, v: real)
    requires forall t :: 0 <= t < |s| ==> StatValue(s[t], k) != v
    ensures WithValue(s, k, v) == []
  {
    if s != [] {
      WithValueNone(s[..|s| - 1], k, v);
    }
  }

  /** Every player the inner loop shifts past `x` has a value different from `x`'s. */
  lemma PassedDiffer(sorted: seq<Player>, x: Player, k: Stat, descending: bool)
    ensures var p := InsertionPoint(sorted, x, k, descending);
      forall t :: p <= t < |sorted| ==> StatValue(sorted[t], k) != StatValue(x, k)
  {
    var p := InsertionPoint(sorted, x, k, descending);
    InsertionPointSpec(sorted, x, k, descending);
    forall t | p <= t < |sorted|
      ensures StatValue(sorted[t], k) != StatValue(x, k)
    {
      NotInOrderFlip(StatValue(x, k), StatValue(sorted[t], k), descending);
    }
  }

  /** Moving `x` past players none of which has `x`'s value leaves every value's subsequence unchanged. */
  lemma WithValueRotate(before: seq<Player>, x: Player, after: seq<Player>, k: Stat, v: real)
    requires forall t :: 0 <= t < |after| ==> StatValue(after[t], k) != StatValue(x, k)
    ensures WithValue(before + [x] + after, k, v) == WithValue(before + after + [x], k, v)
  {
    var wb, wx, wa := WithValue(before, k, v), WithValue([x], k, v), WithValue(after, k, v);
    WithValueAppend(before + [x], after, k, v);
    WithValueAppend(before, [x], k, v);
    WithValueAppend(before + after, [x], k, v);
    WithValueAppend(before, after, k, v);
    // Either `x` has value `v` and no player after it does, or `x` does not.
    if StatValue(x, k) == v {
      WithValueNone(after, k, v);
      assert wa == [];
    } else {
      WithValueSingle(x, k, v);
      assert wx == [];
    }
    assert (wb + wx) + wa == (wb + wa) + wx;
  }

  /** `x` lands after every earlier player with the same value, and nothing else of that value moves. */
  lemma InsertBackStable(sorted: seq<Player>, x: Player, k: Stat, descending: bool, v: real)
    ensures WithValue(InsertBack(sorted, x, k, descending), k, v) == WithValue(sorted + [x], k, v)
  {
    var p := InsertionPoint(sorted, x, k, descending);
    var before, after := sorted[..p], sorted[p..];
    assert sorted == before + after;
    InsertBackSplit(sorted, x, k, descending);
    PassedDiffer(sorted, x, k, descending);
    forall t | 0 <= t < |after|
      ensures StatValue(after[t], k) != StatValue(x, k)
    {
      assert after[t] == sorted[p + t];
    }
    WithValueRotate(before, x, after, k, v);
  }

  /**
   * Stability: for every value of the statistic, the players carrying that
   * value appear in the output in the same relative order as in the input.
   */
  lemma {:induction false} InsertionSortedStable(s: seq<Player>, k: Stat, descending: bool, v: real)
    ensures WithValue(InsertionSorted(s, k, descending), k, v) == WithValue(s, k, v)
  {
    if s != [] {
      var init := s[..|s| - 1];
      InsertionSortedStable(init, k, descending, v);
      var last := s[|s| - 1];
      InsertBackStable(InsertionSorted(init, k, descending), last, k, descending, v);
      WithValueAppend(InsertionSorted(init, k, descending), [last], k, v);
      WithValueAppend(init, [last], k, v);
      assert s == init + [last];
    }
  }

  /** Sorting a sequence that is already ordered returns it unchanged. */
  lemma {:induction false} InsertionSortedIdempotent(s: seq<Player>, k: Stat, descending: bool)
    requires Ordered(s, k, descending)
    ensures InsertionSorted(s, k, descending) == s
  {
    if s != [] {
      var init := s[..|s| - 1];
      assert Ordered(init, k, descending);
      InsertionSortedIdempotent(init, k, descending);
      assert init + [s[|s| - 1]] == s;
    }
  }

  /** A sequence holding `S` with `x` spliced in at the insertion point is InsertBack(S, x). */
  lemma InsertedAt(r: seq<Player>, S: seq<Player>, x: Player, k: Stat, descending: bool)
    requires |r| == |S| + 1
    requires var p := InsertionPoint(S, x, k, descending);
      && (forall t :: 0 <= t < p ==> r[t] == S[t])
      && r[p] == x
      && (forall t :: p < t < |r| ==> r[t] == S[t - 1])
    ensures r == InsertBack(S, x, k, descending)
  {
  }

  /**
   * The inner `while j > 0` loop for position `i`: the player at `i` is
   * swapped leftwards until it is in order with its predecessor or reaches
   * index 0. Only indices up to `i` change.
   */
  method SiftLeft(a: array<Player>, i: nat, k: Stat, descending: bool)
    requires i < a.Length
    modifies a
    ensures a[..i + 1] == InsertBack(old(a[..i]), old(a[i]), k, descending)
    ensures forall t :: i < t < a.Length ==> a[t] == old(a[t])
  {
    ghost var S := a[..i];
    ghost var x := a[i];
    var j := i;
    while j > 0
      invariant 0 <= j <= i
      invariant forall t :: 0 <= t < j ==> a[t] == S[t]
      invariant a[j] == x
      invariant forall t :: j < t <= i ==> a[t] == S[t - 1]
      invariant forall t :: i < t < a.Length ==> a[t] == old(a[t])
      invariant forall t :: j <= t < i ==> !InOrder(StatValue(x, k), StatValue(S[t], k), descending)
    {
      var currentValue := StatValue(a[j], k);
      var prevValue := StatValue(a[j - 1], k);
      if InOrder(currentValue, prevValue, descending) {
        break;
      }
      a[j], a[j - 1] := a[j - 1], a[j];
      j := j - 1;
    }
    InsertionPointUnique(S, x, j, k, descending);
    InsertedAt(a[..i + 1], S, x, k, descending);
  }

  /** One more iteration of the outer loop inserts the next player into the sorted prefix. */
  lemma InsertionSortedStep(s: seq<Player>, n: nat, k: Stat, descending: bool)
    requires n < |s|
    ensures InsertionSorted(s[..n + 1], k, descending)
         == InsertBack(InsertionSorted(s[..n], k, descending), s[n], k, descending)
  {
    assert s[..n + 1][..n] == s[..n];
  }

  /** One pass of the outer loop: the prefix sorted so far grows by the player at `i`. */
  method InsertNext(a: array<Player>, i: nat, k: Stat, descending: bool, ghost original: seq<Player>)
    requires i < a.Length == |original|
    requires a[..i] == InsertionSorted(original[..i], k, descending)
    requires forall t {:trigger a[t]} :: i <= t < a.Length ==> a[t] == original[t]
    modifies a
    ensures a[..i + 1] == InsertionSorted(original[..i + 1], k, descending)
    ensures forall t {:trigger a[t]} :: i < t < a.Length ==> a[t] == original[t]
  {
    SiftLeft(a, i, k, descending);
    InsertionSortedStep(original, i, k, descending);
  }

  /** The outer `for i in range(1, len(sorted_players))` loop, in place. */
  method SortInPlace(a: array<Player>, k: Stat, descending: bool)
    modifies a
    ensures a[..] == InsertionSorted(old(a[..]), k, descending)
  {
    ghost var original := a[..];
    var n := a.Length;
    if n > 0 {
      assert a[..1] == InsertionSorted(original[..1], k, descending) by {
        InsertionSortedStep(original, 0, k, descending);
      }
    }
    var i := 1;
    while i < n
      invariant 1 <= i && (n == 0 || i <= n)
      invariant n > 0 ==> a[..i] == InsertionSorted(original[..i], k, descending)
      invariant forall t {:trigger a[t]} :: i <= t < n ==> a[t] == original[t]
    {
      InsertNext(a, i, k, descending, original);
      i := i + 1;
    }
    if n > 0 {
      assert a[..] == a[..n] && original[..n] == original;
    } else {
      assert a[..] == [] && original == [];
    }
  }

  /**
   * `insertion_sort(players, stat, descending)`: rejects an unknown key, and
   * otherwise sorts a copy of `players` in place and returns the copy (the
   * argument itself is a value and cannot change).
   */
  method InsertionSort(players: seq<Player>, stat: string, descending: bool)
    returns (r: Result<seq<Player>, InvalidStat>)
    ensures r.Failure? <==> !IsStatKey(stat)
    ensures r.Failure? ==> r.error == InvalidStat(stat, StatKeys)
    ensures r.Success? ==> r.value == InsertionSorted(players, ParseStat(stat).value, descending)
    ensures r.Success? ==> multiset(r.value) == multiset(players)
    ensures r.Success? ==> Ordered(r.value, ParseStat(stat).value, descending)
  {
    var parsed := ParseStat(stat);
    if parsed.Failure? {
      return Failure(parsed.error);
    }
    var k := parsed.value;
    // the sort works on a fresh copy, as the source does with `players.copy()`
    var a := new Player[|players|](i requires 0 <= i < |players| => players[i]);
    assert a[..] == players;
    SortInPlace(a, k, descending);
    InsertionSortedOrdered(players, k, descending);
    InsertionSortedPermutes(players, k, descending);
    return Success(a[..]);
  }
}
