/**
 * `heapsort` of sorting_algorithms.py: pair each player with its statistic,
 * build a heap with the direction's comparator, then repeatedly take the root,
 * move the last live entry to the root, shrink and percolate down.
 */
module HeapSorting {
  import opened Wrappers
  import opened Players
  import opened Stats
  import opened Heaps

  /**
   * The `compare` heapsort hands to the engine: `a > b` when descending, `a < b`
   * otherwise. `a` goes above `b` exactly when `b` may follow `a` in the output
   * and the two differ.
   */
  function Above(descending: bool): (above: Comparator)
    ensures forall a: real, b: real :: above(a, b) <==> a != b && InOrder(b, a, descending)
  {
    if descending then (a: real, b: real) => a > b else (a: real, b: real) => a < b
  }

  /** Both comparators are strict total orders. */
  lemma AboveIsStrictOrder(descending: bool)
    ensures StrictOrder(Above(descending))
  {
  }

  /** An entry that is not above another may follow it in the output. */
  lemma NotAboveInOrder(descending: bool, a: real, b: real)
    ensures !Above(descending)(a, b) <==> InOrder(a, b, descending)
  {
  }

  /** `[(getattr(p, attr_name), p) for p in players]`. */
  function Keyed(players: seq<Player>, k: Stat): (items: seq<Entry>)
    ensures |items| == |players|
    ensures PlayersOf(items) == players
  {
    seq(|players|, i requires 0 <= i < |players| => Entry(StatValue(players[i], k), players[i]))
  }

  /** The players of a sequence of heap entries, in order. */
  function PlayersOf(es: seq<Entry>): (ps: seq<Player>)
    ensures |ps| == |es|
  {
    seq(|es|, i requires 0 <= i < |es| => es[i].player)
  }

  lemma PlayersOfAppend(a: seq<Entry>, b: seq<Entry>)
    ensures PlayersOf(a + b) == PlayersOf(a) + PlayersOf(b)
  {
  }

  /** Permuting entries permutes their players. */
  lemma {:induction false} PlayersOfPermutation(a: seq<Entry>, b: seq<Entry>)
    requires multiset(a) == multiset(b)
    ensures multiset(PlayersOf(a)) == multiset(PlayersOf(b))
    decreases |a|
  {
    if a == [] {
      assert |multiset(b)| == 0;
    } else {
      var x := a[|a| - 1];
      var a' := a[..|a| - 1];
      assert a == a' + [x];
      assert x in multiset(b);
      var j :| 0 <= j < |b| && b[j] == x;
      var b' := b[..j] + b[j + 1..];
      assert b == b[..j] + [x] + b[j + 1..];
      assert multiset(b) == multiset(b[..j]) + multiset{x} + multiset(b[j + 1..]);
      assert multiset(b') == multiset(b[..j]) + multiset(b[j + 1..]);
      assert multiset(a) == multiset(a') + multiset{x};
      assert multiset(a') == multiset(a) - multiset{x};
      assert multiset(b') == multiset(b) - multiset{x};
      PlayersOfPermutation(a', b');
      PlayersOfAppend(a', [x]);
      PlayersOfAppend(b[..j] + [x], b[j + 1..]);
      PlayersOfAppend(b[..j], [x]);
      PlayersOfAppend(b[..j], b[j + 1..]);
    }
  }

  /** Output that lists the players of a permutation of `es` is a permutation of their players. */
  lemma TakenPlayers(out: seq<Player>, taken: seq<Entry>, es: seq<Entry>)
    requires |out| == |taken|
    requires forall t :: 0 <= t < |taken| ==> out[t] == taken[t].player
    requires multiset(taken) == multiset(es)
    ensures multiset(out) == multiset(PlayersOf(es))
  {
    assert out == PlayersOf(taken);
    PlayersOfPermutation(taken, es);
  }

  /** Removing the root: the last live entry moves to index 0 and the live size shrinks. */
  lemma RemoveRoot(h: seq<Entry>, n: nat, above: Comparator)
    requires 0 < n <= |h|
    ensures multiset(h[0 := h[n - 1]][..n - 1]) + multiset{h[0]} == multiset(h[..n])
    ensures HeapOrdered(h, n, above) ==> HeapExceptDown(h[0 := h[n - 1]], n - 1, 0, above)
  {
    if n > 1 {
      assert h[..n] == [h[0]] + h[1..n - 1] + [h[n - 1]];
      assert h[0 := h[n - 1]][..n - 1] == [h[n - 1]] + h[1..n - 1];
    }
  }

  /**
   * The root of a heap built with the direction's comparator may come before
   * every live entry.
   */
  lemma RootFirst(h: seq<Entry>, n: nat, descending: bool)
    requires 0 < n <= |h| && HeapOrdered(h, n, Above(descending))
    ensures forall e :: e in h[..n] ==> InOrder(e.key, h[0].key, descending)
  {
    AboveIsStrictOrder(descending);
    forall e | e in h[..n]
      ensures InOrder(e.key, h[0].key, descending)
    {
      var t :| 0 <= t < n && h[t] == e;
      RootDominates(h, n, Above(descending), t);
      NotAboveInOrder(descending, e.key, h[0].key);
    }
  }

  /**
   * The state heapsort's loop keeps besides heap order: every live entry
   * carries its player's statistic, the output so far is ordered, and every
   * live entry may follow the last output player.
   */
  ghost predicate Draining(live: seq<Entry>, out: seq<Player>, k: Stat, descending: bool) {
    && (forall e :: e in live ==> e.key == StatValue(e.player, k))
    && Ordered(out, k, descending)
    && (|out| > 0 ==> forall e :: e in live ==> InOrder(e.key, StatValue(out[|out| - 1], k), descending))
  }

  lemma KeyedDraining(players: seq<Player>, k: Stat, descending: bool, live: seq<Entry>)
    requires multiset(live) == multiset(Keyed(players, k))
    ensures Draining(live, [], k, descending)
  {
    forall e | e in live
      ensures e.key == StatValue(e.player, k)
    {
      assert e in multiset(Keyed(players, k));
    }
  }

  /** Moving the root from the live entries to the taken ones keeps their union. */
  lemma TakeRoot(live: seq<Entry>, rest: seq<Entry>, root: Entry, taken: seq<Entry>, items: seq<Entry>)
    requires multiset(rest) + multiset{root} == multiset(live)
    requires multiset(live) + multiset(taken) == multiset(items)
    ensures multiset(rest) + multiset(taken + [root]) == multiset(items)
  {
  }

  /** Taking the root that may precede every live entry keeps the loop state. */
  lemma DrainStep(live: seq<Entry>, rest: seq<Entry>, root: Entry, out: seq<Player>, k: Stat, descending: bool)
    requires Draining(live, out, k, descending)
    requires root in live
    requires forall e :: e in live ==> InOrder(e.key, root.key, descending)
    requires multiset(rest) + multiset{root} == multiset(live)
    ensures Draining(rest, out + [root.player], k, descending)
  {
    OrderedSnoc(out, root.player, k, descending);
    forall e | e in rest
      ensures e in live
    {
      assert multiset(live)[e] == multiset(rest)[e] + multiset{root}[e];
    }
  }

  /**
   * One pass of heapsort's extraction loop: read the root, move the last live
   * entry to the root, shrink the heap by one and percolate the new root down.
   * The root taken may precede every entry that was live, and what is left
   * is a heap of the other entries.
   */
  method PopRoot(heap: array<Entry>, size: nat, descending: bool) returns (root: Entry)
    requires 0 < size <= heap.Length
    requires HeapOrdered(heap[..], size, Above(descending))
    modifies heap
    ensures root == old(heap[0])
    ensures forall e :: e in old(heap[..size]) ==> InOrder(e.key, root.key, descending)
    ensures multiset(heap[..size - 1]) + multiset{root} == old(multiset(heap[..size]))
    ensures HeapOrdered(heap[..], size - 1, Above(descending))
  {
    var compare := Above(descending);
    AboveIsStrictOrder(descending);
    root := heap[0];
    ghost var before := heap[..];
    RootFirst(before, size, descending);
    RemoveRoot(before, size, compare);
    heap[0] := heap[size - 1];
    assert heap[..] == before[0 := before[size - 1]];
    ghost var rest := heap[..size - 1];
    if size - 1 > 0 {
      PercolateDown(heap, 0, size - 1, compare);
    }
    assert multiset(heap[..size - 1]) == multiset(rest);
  }

  /**
   * The extraction loop of heapsort: while the heap is not empty, take the
   * root's player, move the last live entry to the root, pop, and percolate
   * it down. The players come out ordered, and they are the heap's players.
   */
  method DrainHeap(heap: array<Entry>, k: Stat, descending: bool) returns (sortedPlayers: seq<Player>)
    requires HeapOrdered(heap[..], heap.Length, Above(descending))
    requires Draining(heap[..], [], k, descending)
    modifies heap
    ensures Ordered(sortedPlayers, k, descending)
    ensures multiset(sortedPlayers) == multiset(PlayersOf(old(heap[..])))
  {
    var size := heap.Length;
    sortedPlayers := [];
    ghost var taken: seq<Entry> := [];
    assert heap[..size] == heap[..];
    while size > 0
      invariant size <= heap.Length
      invariant multiset(heap[..size]) + multiset(taken) == old(multiset(heap[..]))
      invariant |sortedPlayers| == |taken|
      invariant forall t :: 0 <= t < |taken| ==> sortedPlayers[t] == taken[t].player
      invariant HeapOrdered(heap[..], size, Above(descending))
      invariant Draining(heap[..size], sortedPlayers, k, descending)
    {
      ghost var live := heap[..size];
      assert heap[0] in live;
      var root := PopRoot(heap, size, descending);
      size := size - 1;
      TakeRoot(live, heap[..size], root, taken, old(heap[..]));
      DrainStep(live, heap[..size], root, sortedPlayers, k, descending);
      sortedPlayers := sortedPlayers + [root.player];
      taken := taken + [root];
    }
    assert heap[..size] == [];
    TakenPlayers(sortedPlayers, taken, old(heap[..]));
  }

  /**
   * `heapsort(players, stat, descending)`: the ValueError of an unknown
   * key, and otherwise a permutation of the players ordered by the statistic
   * in the requested direction.
   */
  method Heapsort(players: seq<Player>, stat: string, descending: bool) returns (r: Result<seq<Player>, InvalidStat>)
    ensures r.Failure? <==> !IsStatKey(stat)
    ensures r.Failure? ==> r.error == InvalidStat(stat, StatKeys)
    ensures r.Success? ==> Ordered(r.value, ParseStat(stat).value, descending)
    ensures r.Success? ==> multiset(r.value) == multiset(players)
  {
    var parsed := ParseStat(stat);
    if parsed.Failure? {
      return Failure(parsed.error);
    }
    var k := parsed.value;
    var items := Keyed(players, k);
    var heap := Heapify(items, Above(descending));
    AboveIsStrictOrder(descending);
    KeyedDraining(players, k, descending, heap[..]);
    PlayersOfPermutation(heap[..], items);
    assert PlayersOf(items) == players;
    var sortedPlayers := DrainHeap(heap, k, descending);
    return Success(sortedPlayers);
  }
}
