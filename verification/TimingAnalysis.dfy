/**
 * The list logic of timing_analysis.py around the clock: `build_datasets`
 * cuts each loaded player list into prefixes of the requested sizes, and
 * `collect_timings` times every algorithm on every dataset, one row per pair.
 * Reading a CSV file, taking a path's file name and reading the clock are
 * outside the model: they come in as the parameters `load`, `baseName` and
 * `measure`.
 */
module TimingAnalysis {
  import opened Wrappers
  import opened Players
  import opened Stats

  // ---------------------------------------------------------------- blocks of equal length

  /**
   * `n + 1` blocks of `k` entries are `n` blocks and one more; entry `j` of
   * block `c` sits at `c * k + j`, inside the first `n` blocks when `c < n`
   * and at `n * k + j` when `c == n`.
   */
  lemma {:induction false} BlockIndexBound(n: nat, k: nat, c: nat, j: nat)
    ensures (n + 1) * k == n * k + k
    ensures c < n && j < k ==> c * k + j < n * k
    decreases n
  {
    if n > 0 && c < n && j < k {
      BlockIndexBound(n - 1, k, c, j);
      if c == n - 1 {
        assert c * k + j < c * k + k;
      }
    }
  }

  /**
   * In `n` blocks of `k` entries followed by one more block, entry `j` of
   * block `c` is found in the first `n` blocks when `c < n`, and is entry `j`
   * of the last block when `c == n`.
   */
  lemma BlockAt<T>(front: seq<T>, last: seq<T>, n: nat, k: nat, c: nat, j: nat)
    requires |front| == n * k && |last| == k
    requires c <= n && j < k
    ensures |front + last| == (n + 1) * k
    ensures c * k + j < (n + 1) * k
    ensures c < n ==> c * k + j < |front| && (front + last)[c * k + j] == front[c * k + j]
    ensures c == n ==> (front + last)[c * k + j] == last[j]
  {
    BlockIndexBound(n, k, c, j);
  }

  // ---------------------------------------------------------------- build_datasets

  /** One entry of `build_datasets`: `(base, len(subset), subset)`. */
  datatype Dataset = Dataset(name: string, size: int, players: seq<Player>)

  /**
   * `players[:stop]` for a `stop` no larger than `len(players)`: Python counts
   * a negative stop from the end, and a stop before the start gives `[]`.
   */
  function SlicePrefix(players: seq<Player>, stop: int): (slice: seq<Player>)
    requires stop <= |players|
    ensures slice <= players
  {
    if stop >= 0 then players[..stop]
    else if |players| + stop >= 0 then players[..|players| + stop]
    else []
  }

  /** `players[: min(size, len(players))]`. */
  function Subset(players: seq<Player>, size: int): (subset: seq<Player>)
    ensures subset <= players
  {
    SlicePrefix(players, if size < |players| then size else |players|)
  }

  /**
   * A subset is always a prefix of the players. For a size of 0 or more it
   * holds the first `size` players, or all of them when there are fewer; a
   * negative size drops that many players from the end.
   */
  lemma SubsetSpec(players: seq<Player>, size: int)
    ensures Subset(players, size) <= players
    ensures size >= 0 ==> |Subset(players, size)| == if size < |players| then size else |players|
    ensures size < 0 ==> |Subset(players, size)| == if |players| + size >= 0 then |players| + size else 0
  {
  }

  /** The entries for one file: one per size whose subset is not empty, in the order of `sizes`. */
  function DatasetsFor(base: string, players: seq<Player>, sizes: seq<int>): (ds: seq<Dataset>)
    ensures |ds| <= |sizes|
    ensures forall d :: d in ds ==> d.players != [] && d.size == |d.players|
    decreases |sizes|
  {
    if sizes == [] then []
    else
      var subset := Subset(players, sizes[|sizes| - 1]);
      DatasetsFor(base, players, sizes[..|sizes| - 1])
        + (if subset == [] then [] else [Dataset(base, |subset|, subset)])
  }

  /** All entries: the files in order, and for each file its entries in the order of `sizes`. */
  function AllDatasets(paths: seq<string>, sizes: seq<int>, load: string -> seq<Player>, baseName: string -> string): (ds: seq<Dataset>)
    ensures forall d :: d in ds ==> d.players != [] && d.size == |d.players|
    decreases |paths|
  {
    if paths == [] then []
    else
      var path := paths[|paths| - 1];
      AllDatasets(paths[..|paths| - 1], sizes, load, baseName) + DatasetsFor(baseName(path), load(path), sizes)
  }

  /** The inner loop of `build_datasets`: the entries of one file appended to those so far. */
  method AppendDatasetsFor(datasets: seq<Dataset>, base: string, players: seq<Player>, sizes: seq<int>)
    returns (extended: seq<Dataset>)
    ensures extended == datasets + DatasetsFor(base, players, sizes)
  {
    extended := datasets;
    var j := 0;
    while j < |sizes|
      invariant j <= |sizes|
      invariant extended == datasets + DatasetsFor(base, players, sizes[..j])
    {
      assert sizes[..j + 1][..j] == sizes[..j];
      var size := sizes[j];
      var subset := Subset(players, size);
      if subset == [] {
        j := j + 1;
        continue;
      }
      extended := extended + [Dataset(base, |subset|, subset)];
      j := j + 1;
    }
    assert sizes[..j] == sizes;
  }

  /** `build_datasets(csv_paths, sizes)`: the loop over the files and, inside it, over the sizes. */
  method BuildDatasets(paths: seq<string>, sizes: seq<int>, load: string -> seq<Player>, baseName: string -> string)
    returns (datasets: seq<Dataset>)
    ensures datasets == AllDatasets(paths, sizes, load, baseName)
  {
    datasets := [];
    var c := 0;
    while c < |paths|
      invariant c <= |paths|
      invariant datasets == AllDatasets(paths[..c], sizes, load, baseName)
    {
      var path := paths[c];
      var players := load(path);
      var base := baseName(path);
      datasets := AppendDatasetsFor(datasets, base, players, sizes);
      assert paths[..c + 1][..c] == paths[..c];
      c := c + 1;
    }
    assert paths[..c] == paths;
  }

  /** Every entry of one file's block has a non-empty prefix of that file's players, and its size is its length. */
  lemma {:induction false} DatasetsForEntries(base: string, players: seq<Player>, sizes: seq<int>, e: Dataset)
    requires e in DatasetsFor(base, players, sizes)
    ensures e.name == base && e.players != [] && e.players <= players && e.size == |e.players|
    decreases |sizes|
  {
    var subset := Subset(players, sizes[|sizes| - 1]);
    SubsetSpec(players, sizes[|sizes| - 1]);
    if e !in DatasetsFor(base, players, sizes[..|sizes| - 1]) {
      assert e == Dataset(base, |subset|, subset);
    } else {
      DatasetsForEntries(base, players, sizes[..|sizes| - 1], e);
    }
  }

  /**
   * Every entry names one of the files, holds a non-empty prefix of that
   * file's players, and records the length of that prefix as its size.
   */
  lemma {:induction false} AllDatasetsEntries(paths: seq<string>, sizes: seq<int>, load: string -> seq<Player>, baseName: string -> string, e: Dataset)
    requires e in AllDatasets(paths, sizes, load, baseName)
    ensures exists p :: p in paths && e.name == baseName(p) && e.players != [] && e.players <= load(p) && e.size == |e.players|
    decreases |paths|
  {
    var path := paths[|paths| - 1];
    var init := paths[..|paths| - 1];
    if e in DatasetsFor(baseName(path), load(path), sizes) {
      DatasetsForEntries(baseName(path), load(path), sizes, e);
    } else {
      AllDatasetsEntries(init, sizes, load, baseName, e);
      var p :| p in init && e.name == baseName(p) && e.players != [] && e.players <= load(p) && e.size == |e.players|;
      assert p in paths;
    }
  }

  /** With positive sizes and a non-empty file, the file's block has one entry per size, in order. */
  lemma {:induction false} DatasetsForLayout(base: string, players: seq<Player>, sizes: seq<int>)
    requires players != []
    requires forall j :: 0 <= j < |sizes| ==> sizes[j] > 0
    ensures |DatasetsFor(base, players, sizes)| == |sizes|
    ensures forall j :: 0 <= j < |sizes| ==>
      DatasetsFor(base, players, sizes)[j] == Dataset(base, |Subset(players, sizes[j])|, Subset(players, sizes[j]))
    decreases |sizes|
  {
    if sizes != [] {
      var init := sizes[..|sizes| - 1];
      DatasetsForLayout(base, players, init);
      var last := sizes[|sizes| - 1];
      SubsetSpec(players, last);
      assert Subset(players, last) != [];
    }
  }

  /**
   * With positive sizes and no empty file, the entries are laid out
   * file-major: entry `c * |sizes| + j` is file `c` cut at size `j`.
   */
  lemma {:induction false} AllDatasetsLayout(paths: seq<string>, sizes: seq<int>, load: string -> seq<Player>, baseName: string -> string,
                                             c: nat, j: nat)
    requires forall p :: p in paths ==> load(p) != []
    requires forall j :: 0 <= j < |sizes| ==> sizes[j] > 0
    requires c < |paths| && j < |sizes|
    ensures |AllDatasets(paths, sizes, load, baseName)| == |paths| * |sizes|
    ensures c * |sizes| + j < |paths| * |sizes|
    ensures var subset := Subset(load(paths[c]), sizes[j]);
      AllDatasets(paths, sizes, load, baseName)[c * |sizes| + j] == Dataset(baseName(paths[c]), |subset|, subset)
    decreases |paths|
  {
    var n := |paths| - 1;
    var path := paths[n];
    var init := paths[..n];
    DatasetsForLayout(baseName(path), load(path), sizes);
    AllDatasetsCount(init, sizes, load, baseName);
    BlockAt(AllDatasets(init, sizes, load, baseName), DatasetsFor(baseName(path), load(path), sizes), n, |sizes|, c, j);
    if c < n {
      AllDatasetsLayout(init, sizes, load, baseName, c, j);
    }
  }

  /** With positive sizes and no empty file, there are exactly `|paths| * |sizes|` entries. */
  lemma {:induction false} AllDatasetsCount(paths: seq<string>, sizes: seq<int>, load: string -> seq<Player>, baseName: string -> string)
    requires forall p :: p in paths ==> load(p) != []
    requires forall j :: 0 <= j < |sizes| ==> sizes[j] > 0
    ensures |AllDatasets(paths, sizes, load, baseName)| == |paths| * |sizes|
    decreases |paths|
  {
    if paths != [] {
      var n := |paths| - 1;
      AllDatasetsCount(paths[..n], sizes, load, baseName);
      DatasetsForLayout(baseName(paths[n]), load(paths[n]), sizes);
      BlockIndexBound(n, |sizes|, 0, 0);
    }
  }

  /** A negative size cuts from the end: size -1 on three players keeps the first two. */
  lemma NegativeSizeSlice(a: Player, b: Player, c: Player)
    ensures Subset([a, b, c], -1) == [a, b]
  {
  }

  // ---------------------------------------------------------------- time_algorithm

  /**
   * Why `time_algorithm` raises: `statistics.mean` of no samples when
   * `repeats` is not positive, or the ValueError of the sort itself when the
   * stat key is unknown (every sort in sorting_algorithms.py checks it first).
   */
  datatype TimingError = NoSamples | SortFailed(cause: InvalidStat)

  /** `(avg_ms, stdev_ms)` of a call. */
  datatype Timing = Timing(avgMs: real, stdevMs: real)

  /**
   * `time_algorithm(players, func, stat, descending, repeats)`. The clock is
   * `measure`: the mean and sample standard deviation of the measured runs.
   * The standard deviation is reported as 0 when there was a single run.
   */
  function TimeAlgorithm(players: seq<Player>, algorithm: string, stat: string, repeats: int,
                         measure: (seq<Player>, string) -> Timing): (r: Result<Timing, TimingError>)
    ensures r.Failure? <==> repeats <= 0 || !IsStatKey(stat)
    ensures r.Failure? ==> r.error == if repeats <= 0 then NoSamples else SortFailed(InvalidStat(stat, StatKeys))
    ensures r.Success? ==> r.value.avgMs == measure(players, algorithm).avgMs
    ensures r.Success? && repeats == 1 ==> r.value.stdevMs == 0.0
    ensures r.Success? && repeats > 1 ==> r.value.stdevMs == measure(players, algorithm).stdevMs
  {
    if repeats <= 0 then Failure(NoSamples)
    else if !IsStatKey(stat) then Failure(SortFailed(InvalidStat(stat, StatKeys)))
    else
      var m := measure(players, algorithm);
      Success(Timing(m.avgMs, if repeats > 1 then m.stdevMs else 0.0))
  }

  // ---------------------------------------------------------------- collect_timings

  /** One result row: `{"dataset", "size", "algorithm", "avg_ms", "stdev_ms"}`. */
  datatype Row = Row(dataset: string, size: int, algorithm: string, avgMs: real, stdevMs: real)

  /** The row of one (dataset, algorithm) pair, once timing succeeds. */
  function RowOf(d: Dataset, algorithm: string, t: Timing): Row {
    Row(d.name, d.size, algorithm, t.avgMs, t.stdevMs)
  }

  /** The rows of one dataset, one per algorithm in the dictionary's order. */
  function RowsFor(d: Dataset, algorithms: seq<string>, stat: string, repeats: int,
                   measure: (seq<Player>, string) -> Timing): (rows: seq<Row>)
    requires repeats > 0 && IsStatKey(stat)
    ensures |rows| == |algorithms|
    ensures forall i :: 0 <= i < |rows| ==> rows[i].algorithm == algorithms[i]
    decreases |algorithms|
  {
    if algorithms == [] then []
    else
      var a := algorithms[|algorithms| - 1];
      RowsFor(d, algorithms[..|algorithms| - 1], stat, repeats, measure)
        + [RowOf(d, a, TimeAlgorithm(d.players, a, stat, repeats, measure).value)]
  }

  /** The rows of all datasets, dataset-major. */
  function AllRows(datasets: seq<Dataset>, algorithms: seq<string>, stat: string, repeats: int,
                   measure: (seq<Player>, string) -> Timing): (rows: seq<Row>)
    requires repeats > 0 && IsStatKey(stat)
    ensures forall i :: 0 <= i < |rows| ==> rows[i].algorithm in algorithms
    decreases |datasets|
  {
    if datasets == [] then []
    else
      AllRows(datasets[..|datasets| - 1], algorithms, stat, repeats, measure)
        + RowsFor(datasets[|datasets| - 1], algorithms, stat, repeats, measure)
  }

  /**
   * The outcome of `collect_timings`: the first call of `time_algorithm`
   * raises exactly when any would (its errors depend only on `stat` and
   * `repeats`), and no call is made when there is no dataset or no algorithm.
   */
  function CollectOutcome(datasets: seq<Dataset>, algorithms: seq<string>, stat: string, repeats: int,
                          measure: (seq<Player>, string) -> Timing): (r: Result<seq<Row>, TimingError>)
    ensures r.Failure? <==> datasets != [] && algorithms != [] && (repeats <= 0 || !IsStatKey(stat))
  {
    if datasets == [] || algorithms == [] then Success([])
    else if repeats <= 0 then Failure(NoSamples)
    else if !IsStatKey(stat) then Failure(SortFailed(InvalidStat(stat, StatKeys)))
    else Success(AllRows(datasets, algorithms, stat, repeats, measure))
  }

  /**
   * The inner loop of `collect_timings` for one dataset: its rows appended to
   * `results`, or the error of the first `time_algorithm` call.
   */
  method AppendRowsFor(results: seq<Row>, dataset: Dataset, algorithms: seq<string>, stat: string, repeats: int,
                       measure: (seq<Player>, string) -> Timing)
    returns (r: Result<seq<Row>, TimingError>)
    ensures algorithms == [] ==> r == Success(results)
    ensures algorithms != [] && repeats <= 0 ==> r == Failure(NoSamples)
    ensures algorithms != [] && repeats > 0 && !IsStatKey(stat) ==> r == Failure(SortFailed(InvalidStat(stat, StatKeys)))
    ensures repeats > 0 && IsStatKey(stat) ==> r == Success(results + RowsFor(dataset, algorithms, stat, repeats, measure))
  {
    var extended := results;
    var a := 0;
    while a < |algorithms|
      invariant a <= |algorithms|
      invariant repeats > 0 && IsStatKey(stat) ==> extended == results + RowsFor(dataset, algorithms[..a], stat, repeats, measure)
      invariant a == 0 ==> extended == results
      invariant a > 0 ==> repeats > 0 && IsStatKey(stat)
    {
      var name := algorithms[a];
      var timing := TimeAlgorithm(dataset.players, name, stat, repeats, measure);
      if timing.Failure? {
        return Failure(timing.error);
      }
      assert algorithms[..a + 1][..a] == algorithms[..a];
      extended := extended + [RowOf(dataset, name, timing.value)];
      a := a + 1;
    }
    assert algorithms[..a] == algorithms;
    return Success(extended);
  }

  /** `collect_timings(datasets, algorithms, stat, descending, repeats)`: the loop over the datasets and, inside it, the algorithms. */
  method CollectTimings(datasets: seq<Dataset>, algorithms: seq<string>, stat: string, repeats: int,
                        measure: (seq<Player>, string) -> Timing)
    returns (r: Result<seq<Row>, TimingError>)
    ensures r == CollectOutcome(datasets, algorithms, stat, repeats, measure)
  {
    var results: seq<Row> := [];
    var d := 0;
    while d < |datasets|
      invariant d <= |datasets|
      invariant repeats > 0 && IsStatKey(stat) ==> results == AllRows(datasets[..d], algorithms, stat, repeats, measure)
      invariant d == 0 || algorithms == [] ==> results == []
      invariant d > 0 && algorithms != [] ==> repeats > 0 && IsStatKey(stat)
    {
      var step := AppendRowsFor(results, datasets[d], algorithms, stat, repeats, measure);
      if step.Failure? {
        return step;
      }
      assert datasets[..d + 1][..d] == datasets[..d];
      results := step.value;
      d := d + 1;
    }
    assert datasets[..d] == datasets;
    return Success(results);
  }

  /**
   * The rows are laid out dataset-major: `|datasets| * |algorithms|` rows,
   * and row `d * |algorithms| + a` carries dataset `d`'s name and size and
   * algorithm `a`'s label and timing.
   */
  lemma {:induction false} AllRowsLayout(datasets: seq<Dataset>, algorithms: seq<string>, stat: string, repeats: int,
                                         measure: (seq<Player>, string) -> Timing, d: nat, a: nat)
    requires repeats > 0 && IsStatKey(stat)
    requires d < |datasets| && a < |algorithms|
    ensures |AllRows(datasets, algorithms, stat, repeats, measure)| == |datasets| * |algorithms|
    ensures d * |algorithms| + a < |datasets| * |algorithms|
    ensures AllRows(datasets, algorithms, stat, repeats, measure)[d * |algorithms| + a]
      == Row(datasets[d].name, datasets[d].size, algorithms[a],
             measure(datasets[d].players, algorithms[a]).avgMs,
             if repeats > 1 then measure(datasets[d].players, algorithms[a]).stdevMs else 0.0)
    decreases |datasets|
  {
    var n := |datasets| - 1;
    RowsForLayout(datasets[n], algorithms, stat, repeats, measure);
    AllRowsCount(datasets[..n], algorithms, stat, repeats, measure);
    BlockAt(AllRows(datasets[..n], algorithms, stat, repeats, measure), RowsFor(datasets[n], algorithms, stat, repeats, measure),
            n, |algorithms|, d, a);
    if d < n {
      AllRowsLayout(datasets[..n], algorithms, stat, repeats, measure, d, a);
    }
  }

  lemma {:induction false} RowsForLayout(dataset: Dataset, algorithms: seq<string>, stat: string, repeats: int,
                                         measure: (seq<Player>, string) -> Timing)
    requires repeats > 0 && IsStatKey(stat)
    ensures |RowsFor(dataset, algorithms, stat, repeats, measure)| == |algorithms|
    ensures forall a :: 0 <= a < |algorithms| ==>
      RowsFor(dataset, algorithms, stat, repeats, measure)[a]
        == RowOf(dataset, algorithms[a], TimeAlgorithm(dataset.players, algorithms[a], stat, repeats, measure).value)
    decreases |algorithms|
  {
    if algorithms != [] {
      var n := |algorithms| - 1;
      var prefix := algorithms[..n];
      RowsForLayout(dataset, prefix, stat, repeats, measure);
      var rows := RowsFor(dataset, algorithms, stat, repeats, measure);
      var prev := RowsFor(dataset, prefix, stat, repeats, measure);
      assert rows == prev + [RowOf(dataset, algorithms[n], TimeAlgorithm(dataset.players, algorithms[n], stat, repeats, measure).value)];
      forall a | 0 <= a < n
        ensures rows[a] == RowOf(dataset, algorithms[a], TimeAlgorithm(dataset.players, algorithms[a], stat, repeats, measure).value)
      {
        assert rows[a] == prev[a] && prefix[a] == algorithms[a];
      }
    }
  }

  lemma {:induction false} AllRowsCount(datasets: seq<Dataset>, algorithms: seq<string>, stat: string, repeats: int,
                                        measure: (seq<Player>, string) -> Timing)
    requires repeats > 0 && IsStatKey(stat)
    ensures |AllRows(datasets, algorithms, stat, repeats, measure)| == |datasets| * |algorithms|
    decreases |datasets|
  {
    if datasets != [] {
      var n := |datasets| - 1;
      AllRowsCount(datasets[..n], algorithms, stat, repeats, measure);
      RowsForLayout(datasets[n], algorithms, stat, repeats, measure);
      BlockIndexBound(n, |algorithms|, 0, 0);
    }
  }
}
