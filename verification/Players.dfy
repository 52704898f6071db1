/**
 * The player record of player.py: a name, a team and four per-game statistics.
 * The record is never updated after construction, so it is a datatype, and
 * `Player(...)` (the constructor with its guard checks) is the function NewPlayer.
 * Statistics are Python floats; they are only ever compared, so they are `real` here.
 */
module Players {
  import opened Wrappers

  datatype Player = Player(
    name: string,
    team: string,
    pointsPerGame: real,
    stealsPerGame: real,
    assistsPerGame: real,
    blocksPerGame: real)

  /** The ValueError raised by the constructor, one per guarded field. */
  datatype PlayerError =
    | NegativePoints
    | NegativeSteals
    | NegativeAssists
    | NegativeBlocks

  /** The invariant every constructed player satisfies: no negative statistic. */
  predicate ValidPlayer(p: Player) {
    p.pointsPerGame >= 0.0 && p.stealsPerGame >= 0.0
    && p.assistsPerGame >= 0.0 && p.blocksPerGame >= 0.0
  }

  /**
   * `Player(name, team, points_per_game=0.0, steals_per_game=0.0, ...)`.
   * The guards run in the order points, steals, assists, blocks, and the
   * fields are only set once all four have passed, so a failed construction
   * yields no record at all.
   */
  function NewPlayer(
    name: string,
    team: string,
    pointsPerGame: real := 0.0,
    stealsPerGame: real := 0.0,
    assistsPerGame: real := 0.0,
    blocksPerGame: real := 0.0): (r: Result<Player, PlayerError>)
    ensures r.Success? <==>
      pointsPerGame >= 0.0 && stealsPerGame >= 0.0 && assistsPerGame >= 0.0 && blocksPerGame >= 0.0
    ensures r.Success? ==>
      r.value.name == name && r.value.team == team
      && r.value.pointsPerGame == pointsPerGame && r.value.stealsPerGame == stealsPerGame
      && r.value.assistsPerGame == assistsPerGame && r.value.blocksPerGame == blocksPerGame
      && ValidPlayer(r.value)
    // the first failing guard, in source order, decides the error
    ensures pointsPerGame < 0.0 ==> r == Failure(NegativePoints)
    ensures pointsPerGame >= 0.0 && stealsPerGame < 0.0 ==> r == Failure(NegativeSteals)
    ensures (pointsPerGame >= 0.0 && stealsPerGame >= 0.0 && assistsPerGame < 0.0)
      ==> r == Failure(NegativeAssists)
    ensures (pointsPerGame >= 0.0 && stealsPerGame >= 0.0 && assistsPerGame >= 0.0
             && blocksPerGame < 0.0) ==> r == Failure(NegativeBlocks)
  {
    if pointsPerGame < 0.0 then Failure(NegativePoints)
    else if stealsPerGame < 0.0 then Failure(NegativeSteals)
    else if assistsPerGame < 0.0 then Failure(NegativeAssists)
    else if blocksPerGame < 0.0 then Failure(NegativeBlocks)
    else Success(Player(name, team, pointsPerGame, stealsPerGame, assistsPerGame, blocksPerGame))
  }

  /** Every valid record is what the constructor builds from its own fields. */
  lemma ValidPlayerIsConstructible(p: Player)
    requires ValidPlayer(p)
    ensures NewPlayer(p.name, p.team, p.pointsPerGame, p.stealsPerGame,
                      p.assistsPerGame, p.blocksPerGame) == Success(p)
  {
  }

  /** Omitted statistics default to zero. */
  lemma DefaultsAreZero(name: string, team: string)
    ensures NewPlayer(name, team) == Success(Player(name, team, 0.0, 0.0, 0.0, 0.0))
  {
  }
}
