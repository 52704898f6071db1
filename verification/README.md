# Sorting performance comparison, modelled in Dafny

The repository compares sorting algorithms on NBA player records. A `Player`
carries a name, a team and four per-game statistics (points, steals, assists,
blocks); its constructor refuses negative statistics. `sorting_algorithms.py`
sorts a list of players by one statistic, chosen by a key of `STAT_MAPPING`
(`ppg`, `apg`, `bpg`, `spg`), ascending or descending. It offers three sorts:
NumPy's `argsort`, an adjacent-swap insertion sort, and a heapsort built from
module-level `percolate_up`, `percolate_down` and `heapify` helpers over a
list of `(key, player)` pairs. `timing_analysis.py` parses the requested
sample sizes and cuts each loaded CSV into prefixes of those sizes. It then
times every algorithm on every prefix, one result row per pair.

The model, one module per concern:

- `Players` (`Players.dfy`): the record and its validating constructor.
- `Stats` (`Stats.dfy`): `STAT_MAPPING`, the key check every sort starts with,
  and the `in_order` relation.
- `InsertionSorting` (`InsertionSort.dfy`): `insertion_sort`.
  - It runs in place on an array copy of the input, as the source sorts a
    copy.
  - It is proved equal to `InsertionSorted`, a function on sequences that
    inserts each player from the back.
  - `InsertionSorted` is proved to be a permutation, ordered, stable and
    idempotent.
- `Heaps` (`Heaps.dfy`): `percolate_up`, `percolate_down` and `heapify`,
  for any comparator `above`.
  - `PercolateUp` and `PercolateDown` work in place on an `array<Entry>` plus
    a live size. Each preserves the multiset of live entries. `PercolateUp`
    changes only ancestors of `idx`; `PercolateDown` changes only live entries
    within the subtree of `idx`. When `above` is a strict order, each repairs
    the heap property it is meant to repair.
  - `Heapify` takes the items and returns a fresh array holding exactly those
    items, one `HeapPush` (append, then percolate up) per item. The array is
    heap-ordered when `above` is a strict order.
- `HeapSorting` (`HeapSort.dfy`): `heapsort`, which returns an ordered
  permutation of its input.
- `SortingScenarios` (`SortingScenarios.dfy`):
  - Without ties, any two ordered permutations are equal, so heapsort and
    insertion sort agree.
  - The expected outputs of the unit tests follow from the two sorts'
    contracts, and each test case is a method that calls the sort on the
    test roster.
- `SizeParsing` (`SizeParsing.dfy`): `parse_sizes`.
  - It includes the parts of `str.split`, `str.strip` and `int()` that the
    function relies on, including `int()`'s refusal of decimal literals of
    more than 4300 digits (CPython's default since 3.11).
  - Its outcome is characterised completely: when it fails, which error; when
    it succeeds, which values, without duplicates and in first-occurrence
    order.
- `TimingAnalysis` (`TimingAnalysis.dfy`): `build_datasets`, `time_algorithm`
  and `collect_timings`.
  - Loading a CSV, taking a path's file name and reading the clock are
    function parameters (`load`, `baseName`, `measure`).
- `Wrappers` (`Wrappers.dfy`): `Option` and `Result`. Every `ValueError` of
  the source is a `Failure`.

Statistics are `real`: the code only compares them. Python's list slicing
with a negative stop is modelled as Python defines it.

The model follows the code where it behaves in a way one might not expect:

- heapsort's loop does not swap the root with the last live entry. It copies
  the last entry over the root, pops it, and keeps the root in a local
  (`sorting_algorithms.py:158-162`).
- `build_datasets` does not require positive sizes. `parse_sizes` accepts
  negative ones, and a negative size cuts players from the end of the list.
- `time_algorithm` does not require `repeats >= 1`. With no run,
  `statistics.mean` raises on the empty list of timings.
- The `numpy_sort` docstring lists `'championships'` as a statistic, but
  `STAT_MAPPING` has no such key, and every sort rejects it.

## Model

| member | source | states |
|---|---|---|
| Players.NewPlayer | player.py:7-30 | construction succeeds iff all four statistics are non-negative, and then every field is the given argument; otherwise the first failing guard, in the order points, steals, assists, blocks, names the error |
| Players.ValidPlayerIsConstructible | player.py:16-30 | every record with non-negative statistics is exactly what the constructor builds from its fields |
| Players.DefaultsAreZero | player.py:11-14 | omitted statistics default to 0 and construction then succeeds |
| Stats.ParseStat | sorting_algorithms.py:67-72 | a key is accepted iff it is one of `ppg`, `apg`, `bpg`, `spg`, and it selects the statistic it names; any other key fails with an error that carries the key and the four accepted keys |
| Stats.ParseKeyOf | sorting_algorithms.py:8-13 | each statistic's key parses back to that statistic |
| Stats.StatValue | sorting_algorithms.py:78-79 | `getattr(player, STAT_MAPPING[stat])` selects the named statistic of the player, which is never negative for a player the constructor accepted |
| Stats.ChampionshipsRejected | sorting_algorithms.py:22-35 | `championships`, although listed in the docstring, is rejected |
| Stats.InOrder | sorting_algorithms.py:81 | `in_order`: a player tied with its predecessor is in order (so the inner loop stops on a tie); one out of order is strictly ahead of its predecessor in the requested direction |
| Stats.OrderedAllPairs | sorting_algorithms.py:81 | a sequence whose adjacent pairs are `in_order` has every pair `in_order` |
| InsertionSorting.InsertionPointSpec | sorting_algorithms.py:77-86 | the inner loop stops where the player is `in_order` with its predecessor and with none of the players it moved past |
| InsertionSorting.InsertionPointUnique | sorting_algorithms.py:77-86 | conversely, any position with those two properties is where the inner loop stops |
| InsertionSorting.InsertionPoint | sorting_algorithms.py:77-86 | where the inner loop stops: walking back from the end of the sorted prefix, the first position after a player the new one is `in_order` with, or 0; never past the prefix |
| InsertionSorting.InsertBack | sorting_algorithms.py:77-86 | the prefix after the inner loop's swaps: the new player at its stopping point, the players before it in place, those after it shifted one right; one longer than the prefix |
| InsertionSorting.InsertionSorted | sorting_algorithms.py:75-86 | what the two loops compute: each player in turn inserted at its stopping point among the players before it; the result has the input's length (its other properties are the lemmas below) |
| InsertionSorting.SiftLeft | sorting_algorithms.py:76-86 | the inner `while j > 0` loop leaves the prefix `[0..i]` equal to the sorted prefix with the player at `i` inserted at its stopping point, and the entries after `i` untouched |
| InsertionSorting.InsertNext | sorting_algorithms.py:75-86 | one iteration of the outer loop extends the sorted prefix by one player and leaves the rest of the list as it was |
| InsertionSorting.SortInPlace | sorting_algorithms.py:73-88 | the loops leave the list equal to InsertionSorted of its old contents |
| InsertionSorting.InsertionSortedPermutes | sorting_algorithms.py:75-88 | the result is a permutation of the input |
| InsertionSorting.InsertionSortedOrdered | sorting_algorithms.py:75-88 | every adjacent pair of the result is `in_order` for the requested direction |
| InsertionSorting.InsertBackStable | sorting_algorithms.py:81-83 | inserting one player leaves, for every value, the subsequence of players with that value as if the player were appended |
| InsertionSorting.InsertionSortedStable | sorting_algorithms.py:75-88 | stability: for every value of the statistic, the players with that value keep their input order |
| InsertionSorting.InsertionSortedIdempotent | sorting_algorithms.py:75-88 | an input already in order comes back unchanged |
| InsertionSorting.InsertionSort | sorting_algorithms.py:52-88 | fails iff the key is unknown, with the key error; otherwise returns InsertionSorted of the players, which is a permutation of them and ordered by the statistic |
| Heaps.Parent | sorting_algorithms.py:98 | the parent index `(i - 1) // 2` of a non-root index is smaller than the index |
| Heaps.RootDominates | sorting_algorithms.py:157-158 | in a heap under a strict order, no live entry sits above the root |
| Heaps.SiftUpStep | sorting_algorithms.py:99-101 | swapping an entry that sits above its parent moves the only defect of the heap one level up |
| Heaps.SiftUpDone | sorting_algorithms.py:97-103 | stopping at the root, or below a parent the entry does not sit above, leaves a heap |
| Heaps.Swap | sorting_algorithms.py:100 | the tuple swap, also at line 120: the array afterwards is the old one with the two entries exchanged, and nothing else changed |
| Heaps.PercolateUp | sorting_algorithms.py:91-103 | the live entries are permuted; only ancestors of `idx` change; under a strict order, a heap whose only defect is at `idx` comes out a heap |
| Heaps.BestChild | sorting_algorithms.py:108-116 | the two comparisons choose `idx` or a live child; a chosen left child sits above `idx`; a chosen right child sits above the left child, or above `idx` when the left one does not; when `idx` stays, no live child sits above it; on a tie the left child wins |
| Heaps.BestChildDominates | sorting_algorithms.py:108-116 | under a strict order, the chosen child sits above `idx` and neither live child sits above it |
| Heaps.SiftDownStep | sorting_algorithms.py:120-121 | swapping with the chosen child moves the only defect of the heap one level down |
| Heaps.SiftDownDone | sorting_algorithms.py:118-119 | when `idx` is its own best, the heap is repaired |
| Heaps.PercolateDown | sorting_algorithms.py:106-121 | the first `size` entries are permuted; only live descendants of `idx` change; under a strict order, a heap whose only defect is below `idx` comes out a heap |
| Heaps.AppendExceptUp | sorting_algorithms.py:128-129 | appending to a heap leaves a heap except at the new entry |
| Heaps.HeapPush | sorting_algorithms.py:128-129 | appending then percolating up adds exactly the new entry to the live multiset and keeps a heap a heap |
| Heaps.Heapify | sorting_algorithms.py:124-130 | the result is a fresh heap of the items' length holding exactly the items, heap-ordered whenever the comparator is a strict order |
| HeapSorting.AboveIsStrictOrder | sorting_algorithms.py:145-150 | both `compare` functions heapsort defines, `a > b` and `a < b`, are strict orders |
| HeapSorting.Above | sorting_algorithms.py:145-150 | the `compare` closure: `a` goes above `b` exactly when the two differ and `b` may follow `a` in the output (`in_order`) |
| HeapSorting.NotAboveInOrder | sorting_algorithms.py:145-150 | a key not above another is exactly one that is `in_order` with it for the same direction |
| HeapSorting.Keyed | sorting_algorithms.py:152 | the `(key, player)` items: one per player, whose players, keys dropped, are the input players in order |
| HeapSorting.PlayersOfPermutation | sorting_algorithms.py:152-153 | permuting the `(key, player)` pairs permutes their players |
| HeapSorting.RemoveRoot | sorting_algorithms.py:158-162 | copying the last live entry over the root and shrinking removes exactly the root from the live entries, and leaves a heap whose only defect is at the root |
| HeapSorting.RootFirst | sorting_algorithms.py:157-158 | the root of a heap is `in_order` before every live entry |
| HeapSorting.DrainStep | sorting_algorithms.py:157-165 | appending the root's player keeps the output ordered, and keeps every remaining entry able to follow it |
| HeapSorting.PopRoot | sorting_algorithms.py:158-164 | one pass of the extraction loop takes the old root, which may precede every live entry, and leaves a heap of the other entries |
| HeapSorting.DrainHeap | sorting_algorithms.py:154-167 | the extraction loop outputs the heap's players, ordered by the statistic |
| HeapSorting.Heapsort | sorting_algorithms.py:133-167 | fails iff the key is unknown, with the key error; otherwise returns a permutation of the players ordered by the statistic in the requested direction |
| SortingScenarios.OrderedPermutationUnique | sorting_test.py:53-105 | two ordered permutations of the same players, with no two different players tied, are equal |
| SortingScenarios.SortsAgree | sorting_algorithms.py:133-167 | without ties, any ordered permutation, and so heapsort's result, is the list insertion sort returns |
| SortingScenarios.InsertionSortByPpgDescending | sorting_test.py:53-58 | by ppg descending, the test roster sorts to Charlie, Alice, Bob |
| SortingScenarios.InsertionSortByBpgDescending | sorting_test.py:60-65 | by bpg descending, the roster sorts to Charlie, Alice, Bob |
| SortingScenarios.InsertionSortByApgAscending | sorting_test.py:67-72 | by apg ascending, the roster sorts to Charlie, Alice, Bob |
| SortingScenarios.HeapsortByPpgDescending | sorting_test.py:86-91 | any result meeting heapsort's contract by ppg descending is Charlie, Alice, Bob |
| SortingScenarios.HeapsortByBpgAscending | sorting_test.py:93-98 | any result meeting heapsort's contract by bpg ascending is Bob, Alice, Charlie |
| SortingScenarios.HeapsortByApgDescending | sorting_test.py:100-105 | any result meeting heapsort's contract by apg descending is Bob, Alice, Charlie |
| SortingScenarios.InsertionSortRosterPpgDescending | sorting_test.py:53-58 | calling `insertion_sort(players, "ppg", True)` on the roster returns Charlie, Alice, Bob |
| SortingScenarios.InsertionSortRosterBpgDescending | sorting_test.py:60-65 | calling `insertion_sort(players, "bpg", True)` returns Charlie, Alice, Bob |
| SortingScenarios.InsertionSortRosterApgAscending | sorting_test.py:67-72 | calling `insertion_sort(players, "apg", False)` returns Charlie, Alice, Bob |
| SortingScenarios.HeapsortRosterPpgDescending | sorting_test.py:86-91 | calling `heapsort(players, "ppg", True)` on the roster returns Charlie, Alice, Bob |
| SortingScenarios.HeapsortRosterBpgAscending | sorting_test.py:93-98 | calling `heapsort(players, "bpg", False)` returns Bob, Alice, Charlie |
| SortingScenarios.HeapsortRosterApgDescending | sorting_test.py:100-105 | calling `heapsort(players, "apg", True)` returns Bob, Alice, Charlie |
| SizeParsing.SplitJoin | timing_analysis.py:24 | `chunk.split(",")` loses nothing: joining the parts with commas gives the chunk back, and no part holds a comma |
| SizeParsing.Tokens | timing_analysis.py:23-24 | the parts the two `for` loops visit: each chunk's comma-separated pieces, chunk by chunk; at least one per chunk |
| SizeParsing.Split | timing_analysis.py:24 | `chunk.split(",")` yields at least one piece (the pieces' properties are in SplitJoin) |
| SizeParsing.StripSpec | timing_analysis.py:25 | `strip()` keeps the middle of the part between two runs of whitespace; the kept part is empty or has a non-space at both ends; it is empty iff the part is all whitespace |
| SizeParsing.Strip | timing_analysis.py:25 | `part.strip()` is never longer than the part (what it keeps is in StripSpec) |
| SizeParsing.ParseShow | timing_analysis.py:28 | `int()` reads back the decimal form of every integer of at most 4300 digits, negative ones included, and refuses the decimal form of a longer one |
| SizeParsing.ParseInt | timing_analysis.py:28 | `int(part)` accepts an optional sign and a digit string with single underscores between digits, and only when it has between 1 and 4300 digits |
| SizeParsing.ParseSizes | timing_analysis.py:20-31 | the outer loop, with GatherChunk for each chunk, returns what `Gather` describes: skip empty parts, stop at the first part `int()` rejects, keep each new value |
| SizeParsing.AddSize | timing_analysis.py:29-30 | `if value not in sizes: sizes.append(value)`: the old list stays a prefix, the value is then present, nothing else is added, and no duplicate appears |
| SizeParsing.Gather | timing_analysis.py:22-30 | what the loops do with the parts still to come: skip empty parts, fail on the first one `int()` rejects, keep each new value; on success the values kept so far stay a prefix |
| SizeParsing.GatherChunk | timing_analysis.py:24-30 | the inner loop over one chunk's parts computes Gather from the values kept so far |
| SizeParsing.GatherConcat | timing_analysis.py:23-30 | walking two runs of parts is walking the first and, unless it raised, the second from the values it kept |
| SizeParsing.GatherSpec | timing_analysis.py:22-30 | the loop fails exactly when `int()` rejects some non-empty part, naming the first one; otherwise it appends the parts' values, each the first time it is seen |
| SizeParsing.ValuesFromParts | timing_analysis.py:25-28 | every value comes from a non-empty part that `int()` accepted |
| SizeParsing.AddAllSpec | timing_analysis.py:29-30 | keeping unseen values adds no duplicate, keeps what was there as a prefix, and misses no value |
| SizeParsing.AddAllFirstOccurrence | timing_analysis.py:29-30 | of any two values kept, the one kept first occurs first in the input |
| SizeParsing.ParseSizesOutcome | timing_analysis.py:20-31 | `parse_sizes` fails iff `int()` rejects a non-empty part, naming the first such part; otherwise the result has no duplicates and holds exactly the values of the non-empty parts |
| SizeParsing.ParseSizesOrder | timing_analysis.py:20-31 | the result lists the values in the order of their first occurrence |
| SizeParsing.EmptyPartSkipped | timing_analysis.py:26-27 | `"1,,2"` gives `[1, 2]` |
| SizeParsing.NegativeSizeAccepted | timing_analysis.py:28-30 | `"-3"` gives `[-3]`: sizes are not required to be positive |
| SizeParsing.NonNumericRejected | timing_analysis.py:28 | `"1,x"` fails on `"x"` |
| SizeParsing.DigitLimitRejected | timing_analysis.py:28 | a part of 4300 ones converts; `parse_sizes` on a part of 4301 ones raises, naming that part |
| TimingAnalysis.SubsetSpec | timing_analysis.py:41 | `players[: min(size, len(players))]` is a prefix of the players; for a size of 0 or more it has `min(size, len)` players; a negative size drops that many from the end, down to none |
| TimingAnalysis.Subset | timing_analysis.py:41 | `players[: min(size, len(players))]` is a prefix of the players (its length is in SubsetSpec) |
| TimingAnalysis.SlicePrefix | timing_analysis.py:41 | Python's `players[:stop]` for a stop no larger than the length, negative stops counted from the end, is a prefix of the players |
| TimingAnalysis.NegativeSizeSlice | timing_analysis.py:41 | size -1 on three players keeps the first two |
| TimingAnalysis.DatasetsFor | timing_analysis.py:40-44 | the inner loop's entries for one file: one per size whose subset is not empty, in size order; at most one per size, each non-empty with its length as its size |
| TimingAnalysis.AllDatasets | timing_analysis.py:37-45 | all entries, file by file; each non-empty with its length as its size |
| TimingAnalysis.AppendDatasetsFor | timing_analysis.py:40-44 | the inner loop appends exactly one file's entries to those so far |
| TimingAnalysis.BuildDatasets | timing_analysis.py:34-45 | the loops return every file's entries, files in order and sizes in order within a file, empty subsets skipped |
| TimingAnalysis.DatasetsForEntries | timing_analysis.py:40-44 | each entry of one file has that file's name, a non-empty prefix of its players, and the prefix's length as its size |
| TimingAnalysis.AllDatasetsEntries | timing_analysis.py:34-45 | every entry comes from one of the files: its name, a non-empty prefix of its players, and that prefix's length as its size |
| TimingAnalysis.DatasetsForLayout | timing_analysis.py:40-44 | with positive sizes and a non-empty file there is one entry per size, in order |
| TimingAnalysis.AllDatasetsCount | timing_analysis.py:34-45 | with positive sizes and no empty file there are `files × sizes` entries |
| TimingAnalysis.AllDatasetsLayout | timing_analysis.py:34-45 | with positive sizes and no empty file, entry `c·|sizes| + j` is file `c` cut at size `j` |
| TimingAnalysis.TimeAlgorithm | timing_analysis.py:48-59 | fails iff `repeats` is not positive (mean of no samples) or the key is unknown (the sort's error), in that order; otherwise reports the measured mean, and a standard deviation of 0 for a single run |
| TimingAnalysis.RowOf | timing_analysis.py:67-75 | the result dict of one pair: the dataset's name and size, the algorithm's label, and the mean and standard deviation |
| TimingAnalysis.RowsFor | timing_analysis.py:65-75 | the inner loop's rows for one dataset: one per algorithm, in order, row `i` labelled with algorithm `i` |
| TimingAnalysis.AllRows | timing_analysis.py:64-76 | the rows of all datasets, dataset-major, each labelled with one of the algorithms |
| TimingAnalysis.AppendRowsFor | timing_analysis.py:65-75 | the inner loop on one dataset: with no algorithm nothing is appended; otherwise it fails with `NoSamples` when `repeats` is not positive, with the sort's ValueError when the key is unknown, and else appends exactly `RowsFor` |
| TimingAnalysis.CollectOutcome | timing_analysis.py:62-76 | the outcome of `collect_timings`: it fails exactly when there is a dataset and an algorithm and `repeats` is not positive or the key is unknown; otherwise the rows |
| TimingAnalysis.CollectTimings | timing_analysis.py:62-76 | the loops fail with the first call's error when any call would fail; otherwise they return the rows of every dataset and algorithm pair, dataset-major |
| TimingAnalysis.RowsForLayout | timing_analysis.py:65-75 | one dataset gives one row per algorithm, in the dictionary's order |
| TimingAnalysis.AllRowsCount | timing_analysis.py:62-76 | there are `datasets × algorithms` rows |
| TimingAnalysis.AllRowsLayout | timing_analysis.py:62-76 | row `d·|algorithms| + a` carries dataset `d`'s name and size, algorithm `a`'s label, and that pair's mean and standard deviation |

## Left out

- `numpy_sort` (sorting_algorithms.py:16-49): only its key check is modelled, as `Stats.ParseStat`. Its body calls NumPy's `argsort`, which is outside the model.
- The clock in `time_algorithm`: `time.perf_counter`, the copy of the list for each run, and `statistics.mean`/`stdev` are the parameter `measure`. The model keeps only the error cases and the zero standard deviation of a single run.
- `TimingAnalysis.TimeAlgorithm`: `measure` depends only on the players and the algorithm label. The direction and the repeat count are the same for every call of one `collect_timings`.
- `TimingAnalysis.TimeAlgorithm`: the error for an unknown key assumes every timed function starts with the key check, as the three sorts of sorting_algorithms.py do.
- `print_results`, `plot_results`, the `main` functions and the command-line parsing: output and configuration only.
- `load_players_from_csv` (data_loader.py) and `Path(path).name`: file I/O and path handling, given as the parameters `load` and `baseName`. The errors of a missing or malformed file are not modelled.
- `Player.__str__` and `__repr__`: formatting only.
- Floating point: statistics are `real`, so NaN is not modelled. In the source, a NaN statistic passes the constructor's guards and breaks the sorts' comparisons.
- `SizeParsing.ParseInt`: `int()` accepts only ASCII digits here, with an optional sign and single underscores between digits. Python also accepts other Unicode decimal digits.
- `SizeParsing.ParseInt`: the digit limit is fixed at CPython's default of 4300. The model does not cover changing it (`sys.set_int_max_str_digits`, `PYTHONINTMAXSTRDIGITS`), nor Python versions without the limit.
- `Heaps.PercolateUp`, `Heaps.PercolateDown`, `Heaps.Heapify`: heap order is promised only for a comparator that is a strict order. The only comparators the source passes (`a > b` and `a < b` on reals) are strict orders.
- Growing and shrinking the heap list: the heap is an array of fixed length plus a live size. `heap.pop()` is the live size shrinking by one.
- `HeapSorting.Heapsort`: the contract does not promise stability, and heapsort is not stable.
