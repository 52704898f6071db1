/**
 * STAT_MAPPING of sorting_algorithms.py: the four accepted statistic keys and
 * the Player field each selects. Every sort rejects any other key with a
 * ValueError that lists the accepted keys.
 */
module Stats {
  import opened Wrappers
  import opened Players

  datatype Stat = Ppg | Apg | Bpg | Spg

  /** The keys of STAT_MAPPING, in their declaration order. */
  const StatKeys: seq<string> := ["ppg", "apg", "bpg", "spg"]

  /** The ValueError of an unknown key: the key given and the keys accepted. */
  datatype InvalidStat = InvalidStat(stat: string, choices: seq<string>)

  function KeyOf(k: Stat): string {
    match k
    case Ppg => "ppg"
    case Apg => "apg"
    case Bpg => "bpg"
    case Spg => "spg"
  }

  predicate IsStatKey(stat: string) {
    stat in StatKeys
  }

  /** `if stat not in STAT_MAPPING: raise ValueError(...)` followed by the lookup. */
  function ParseStat(stat: string): (r: Result<Stat, InvalidStat>)
    ensures r.Success? <==> IsStatKey(stat)
    ensures r.Success? ==> KeyOf(r.value) == stat
    ensures r.Failure? ==> r.error == InvalidStat(stat, StatKeys)
  {
    if stat == "ppg" then Success(Ppg)
    else if stat == "apg" then Success(Apg)
    else if stat == "bpg" then Success(Bpg)
    else if stat == "spg" then Success(Spg)
    else Failure(InvalidStat(stat, StatKeys))
  }

  /** `getattr(player, STAT_MAPPING[stat])`: never negative for a player the constructor accepted. */
  function StatValue(p: Player, k: Stat): (v: real)
    ensures ValidPlayer(p) ==> v >= 0.0
  {
    match k
    case Ppg => p.pointsPerGame
    case Apg => p.assistsPerGame
    case Bpg => p.blocksPerGame
    case Spg => p.stealsPerGame
  }

  /** Each accepted key names exactly one statistic, and parsing recovers it. */
  lemma ParseKeyOf(k: Stat)
    ensures ParseStat(KeyOf(k)) == Success(k)
  {
  }

  /** A key outside STAT_MAPPING, such as the documented but unsupported "championships", is refused. */
  lemma ChampionshipsRejected()
    ensures ParseStat("championships").Failure?
  {
  }

  /**
   * `in_order` of insertion_sort: a player whose value is `current` may stay
   * right after one whose value is `previous` (`current <= previous` when
   * descending, `current >= previous` otherwise).
   */
  predicate InOrder(current: real, previous: real, descending: bool): (b: bool)
    ensures current == previous ==> b
    ensures !b ==> if descending then current > previous else current < previous
  {
    if descending then current <= previous else current >= previous
  }

  /** Every adjacent pair of `s` is in the requested order by statistic `k`. */
  predicate Ordered(s: seq<Player>, k: Stat, descending: bool) {
    forall i :: 0 < i < |s| ==> InOrder(StatValue(s[i], k), StatValue(s[i - 1], k), descending)
  }

  /** Adjacent order extends to every pair: the ordering relation is transitive. */
  lemma {:induction false} OrderedAllPairs(s: seq<Player>, k: Stat, descending: bool, i: int, j: int)
    requires Ordered(s, k, descending)
    requires 0 <= i < j < |s|
    ensures InOrder(StatValue(s[j], k), StatValue(s[i], k), descending)
    decreases j - i
  {
    if i + 1 < j {
      OrderedAllPairs(s, k, descending, i, j - 1);
    }
  }

  /** Appending a player that may follow the last one keeps a sequence ordered. */
  lemma OrderedSnoc(s: seq<Player>, x: Player, k: Stat, descending: bool)
    requires Ordered(s, k, descending)
    requires |s| > 0 ==> InOrder(StatValue(x, k), StatValue(s[|s| - 1], k), descending)
    ensures Ordered(s + [x], k, descending)
  {
  }
}
