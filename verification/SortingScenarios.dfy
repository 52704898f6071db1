/**
 * How the two sorts relate, and the three-player scenarios of sorting_test.py.
 * Both sorts return an ordered permutation of their input; when no two
 * distinct players share a value, there is only one such permutation, so the
 * two sorts agree and the expected orders follow from their contracts alone.
 * (With ties they may differ: insertion sort is stable, heapsort is not.)
 */
module SortingScenarios {
  import opened Wrappers
  import opened Players
  import opened Stats
  import opened InsertionSorting
  import opened HeapSorting

  /** No two different players of `s` have the same value of statistic `k`. */
  predicate DistinctValues(s: seq<Player>, k: Stat) {
    forall p, q :: p in s && q in s && p != q ==> StatValue(p, k) != StatValue(q, k)
  }

  lemma OrderedTail(s: seq<Player>, k: Stat, descending: bool)
    requires Ordered(s, k, descending) && s != []
    ensures Ordered(s[1..], k, descending)
  {
    forall i | 0 < i < |s| - 1
      ensures InOrder(StatValue(s[1..][i], k), StatValue(s[1..][i - 1], k), descending)
    {
      assert s[1..][i] == s[i + 1] && s[1..][i - 1] == s[i];
    }
  }

  lemma DistinctTail(s: seq<Player>, k: Stat)
    requires DistinctValues(s, k) && s != []
    ensures DistinctValues(s[1..], k)
  {
    assert forall p :: p in s[1..] ==> p in s;
  }

  /** Two ordered permutations without ties start with the same player. */
  lemma SameFirst(a: seq<Player>, b: seq<Player>, k: Stat, descending: bool)
    requires Ordered(a, k, descending) && Ordered(b, k, descending)
    requires multiset(a) == multiset(b)
    requires DistinctValues(a, k) && a != []
    ensures b != [] && a[0] == b[0]
  {
    assert a[0] in multiset(b);
    var m :| 0 <= m < |b| && b[m] == a[0];
    assert b[0] in multiset(a);
    var l :| 0 <= l < |a| && a[l] == b[0];
    if l > 0 && m > 0 {
      OrderedAllPairs(a, k, descending, 0, l);
      OrderedAllPairs(b, k, descending, 0, m);
    }
  }

  /** Without ties, a sequence has exactly one ordered permutation. */
  lemma {:induction false} OrderedPermutationUnique(a: seq<Player>, b: seq<Player>, k: Stat, descending: bool)
    requires Ordered(a, k, descending) && Ordered(b, k, descending)
    requires multiset(a) == multiset(b)
    requires DistinctValues(a, k)
    ensures a == b
    decreases |a|
  {
    if a == [] {
      assert |b| == |multiset(b)| == 0;
    } else {
      SameFirst(a, b, k, descending);
      assert a == [a[0]] + a[1..] && b == [b[0]] + b[1..];
      assert multiset(a[1..]) == multiset(b[1..]) by {
        assert multiset(a) == multiset{a[0]} + multiset(a[1..]);
        assert multiset(b) == multiset{b[0]} + multiset(b[1..]);
        assert multiset(a[1..]) == multiset(a) - multiset{a[0]};
        assert multiset(b[1..]) == multiset(b) - multiset{b[0]};
      }
      OrderedTail(a, k, descending);
      OrderedTail(b, k, descending);
      DistinctTail(a, k);
      OrderedPermutationUnique(a[1..], b[1..], k, descending);
    }
  }

  /**
   * Any ordered permutation of `players`, such as the list heapsort returns,
   * is the list insertion sort returns, provided no two different players tie.
   */
  lemma SortsAgree(players: seq<Player>, out: seq<Player>, k: Stat, descending: bool)
    requires Ordered(out, k, descending) && multiset(out) == multiset(players)
    requires DistinctValues(players, k)
    ensures out == InsertionSorted(players, k, descending)
  {
    InsertionSortedOrdered(players, k, descending);
    InsertionSortedPermutes(players, k, descending);
    assert DistinctValues(out, k) by {
      forall p | p in out ensures p in players {
        assert p in multiset(out);
      }
    }
    OrderedPermutationUnique(out, InsertionSorted(players, k, descending), k, descending);
  }

  // The players of every test case (steals per game default to 0).
  const Alice := Player("Alice", "LAL", 25.0, 0.0, 5.0, 1.0)
  const Bob := Player("Bob", "GSW", 20.0, 0.0, 8.0, 0.5)
  const Charlie := Player("Charlie", "BOS", 30.0, 0.0, 3.0, 2.0)

  function Roster(): seq<Player> {
    [Alice, Bob, Charlie]
  }

  /** The roster's players differ in points, assists and blocks. */
  lemma RosterDistinct(k: Stat)
    requires k != Spg
    ensures DistinctValues(Roster(), k)
  {
  }

  /** The two orders the tests expect are orders of the roster. */
  lemma RosterPermutations()
    ensures multiset([Charlie, Alice, Bob]) == multiset(Roster())
    ensures multiset([Bob, Alice, Charlie]) == multiset(Roster())
  {
    assert multiset(Roster()) == multiset{Alice, Bob, Charlie};
    assert multiset([Charlie, Alice, Bob]) == multiset{Charlie, Alice, Bob};
    assert multiset([Bob, Alice, Charlie]) == multiset{Bob, Alice, Charlie};
  }

  /**
   * Sorting the roster by points, assists or blocks has one possible outcome:
   * an ordered permutation of it is the expected order.
   */
  lemma RosterOrder(out: seq<Player>, expected: seq<Player>, k: Stat, descending: bool)
    requires k != Spg
    requires Ordered(out, k, descending) && multiset(out) == multiset(Roster())
    requires Ordered(expected, k, descending) && multiset(expected) == multiset(Roster())
    ensures out == expected
  {
    RosterDistinct(k);
    assert DistinctValues(out, k) by {
      forall p | p in out ensures p in Roster() {
        assert p in multiset(out);
      }
    }
    OrderedPermutationUnique(out, expected, k, descending);
  }

  /** `insertion_sort(players, "ppg", True)` gives Charlie, Alice, Bob. */
  lemma InsertionSortByPpgDescending()
    ensures InsertionSorted(Roster(), Ppg, true) == [Charlie, Alice, Bob]
  {
    RosterPermutations();
    InsertionSortedPermutes(Roster(), Ppg, true);
    InsertionSortedOrdered(Roster(), Ppg, true);
    RosterOrder(InsertionSorted(Roster(), Ppg, true), [Charlie, Alice, Bob], Ppg, true);
  }

  /** `insertion_sort(players, "bpg", True)` gives Charlie, Alice, Bob. */
  lemma InsertionSortByBpgDescending()
    ensures InsertionSorted(Roster(), Bpg, true) == [Charlie, Alice, Bob]
  {
    RosterPermutations();
    InsertionSortedPermutes(Roster(), Bpg, true);
    InsertionSortedOrdered(Roster(), Bpg, true);
    RosterOrder(InsertionSorted(Roster(), Bpg, true), [Charlie, Alice, Bob], Bpg, true);
  }

  /** `insertion_sort(players, "apg", False)` gives Charlie, Alice, Bob. */
  lemma InsertionSortByApgAscending()
    ensures InsertionSorted(Roster(), Apg, false) == [Charlie, Alice, Bob]
  {
    RosterPermutations();
    InsertionSortedPermutes(Roster(), Apg, false);
    InsertionSortedOrdered(Roster(), Apg, false);
    RosterOrder(InsertionSorted(Roster(), Apg, false), [Charlie, Alice, Bob], Apg, false);
  }

  /**
   * `heapsort(players, "ppg", True)` gives Charlie, Alice, Bob: whatever list
   * meets heapsort's contract (ordered, a permutation of the roster) is this one.
   */
  lemma HeapsortByPpgDescending(out: seq<Player>)
    requires Ordered(out, Ppg, true) && multiset(out) == multiset(Roster())
    ensures out == [Charlie, Alice, Bob]
  {
    RosterPermutations();
    RosterOrder(out, [Charlie, Alice, Bob], Ppg, true);
  }

  /** `heapsort(players, "bpg", False)` gives Bob, Alice, Charlie. */
  lemma HeapsortByBpgAscending(out: seq<Player>)
    requires Ordered(out, Bpg, false) && multiset(out) == multiset(Roster())
    ensures out == [Bob, Alice, Charlie]
  {
    RosterPermutations();
    RosterOrder(out, [Bob, Alice, Charlie], Bpg, false);
  }

  /** `heapsort(players, "apg", True)` gives Bob, Alice, Charlie. */
  lemma HeapsortByApgDescending(out: seq<Player>)
    requires Ordered(out, Apg, true) && multiset(out) == multiset(Roster())
    ensures out == [Bob, Alice, Charlie]
  {
    RosterPermutations();
    RosterOrder(out, [Bob, Alice, Charlie], Apg, true);
  }

  // The test cases themselves: each sort method called on the roster.

  /** `TestInsertionSort`: `insertion_sort(players, "ppg", True)`. */
  method InsertionSortRosterPpgDescending() returns (r: Result<seq<Player>, InvalidStat>)
    ensures r == Success([Charlie, Alice, Bob])
  {
    r := InsertionSort(Roster(), "ppg", true);
    InsertionSortByPpgDescending();
  }

  /** `TestInsertionSort`: `insertion_sort(players, "bpg", True)`. */
  method InsertionSortRosterBpgDescending() returns (r: Result<seq<Player>, InvalidStat>)
    ensures r == Success([Charlie, Alice, Bob])
  {
    r := InsertionSort(Roster(), "bpg", true);
    InsertionSortByBpgDescending();
  }

  /** `TestInsertionSort`: `insertion_sort(players, "apg", False)`. */
  method InsertionSortRosterApgAscending() returns (r: Result<seq<Player>, InvalidStat>)
    ensures r == Success([Charlie, Alice, Bob])
  {
    r := InsertionSort(Roster(), "apg", false);
    InsertionSortByApgAscending();
  }

  /** `TestHeapsort`: `heapsort(players, "ppg", True)`. */
  method HeapsortRosterPpgDescending() returns (r: Result<seq<Player>, InvalidStat>)
    ensures r == Success([Charlie, Alice, Bob])
  {
    r := Heapsort(Roster(), "ppg", true);
    HeapsortByPpgDescending(r.value);
  }

  /** `TestHeapsort`: `heapsort(players, "bpg", False)`. */
  method HeapsortRosterBpgAscending() returns (r: Result<seq<Player>, InvalidStat>)
    ensures r == Success([Bob, Alice, Charlie])
  {
    r := Heapsort(Roster(), "bpg", false);
    HeapsortByBpgAscending(r.value);
  }

  /** `TestHeapsort`: `heapsort(players, "apg", True)`. */
  method HeapsortRosterApgDescending() returns (r: Result<seq<Player>, InvalidStat>)
    ensures r == Success([Bob, Alice, Charlie])
  {
    r := Heapsort(Roster(), "apg", true);
    HeapsortByApgDescending(r.value);
  }
}
