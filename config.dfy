/**
 * The configuration table of the casino: the starting bankroll, the bet
 * bounds and the three Minesweeper difficulty tiers.
 */
module Config {
  import opened Wrappers

  const INITIAL_BANKROLL: real := 100.0
  const MIN_BET: real := 1.0
  const MAX_BET: real := 1000.0

  /** One row of the difficulty table: grid size, mine count and win multiplier. */
  datatype Settings = Settings(rows: nat, cols: nat, mines: nat, multiplier: real)
  {
    /** A playable tier: a non-empty grid with at least one safe cell and a winning payout. */
    predicate WellFormed()
    {
      rows > 0 && cols > 0 && mines < rows * cols && multiplier > 1.0
    }
  }

  /**
   * Looks a tier up by name. An unknown name has no entry (the table is a
   * dictionary, and indexing it with a missing key fails).
   */
  function Difficulty(name: string): (s: Option<Settings>)
    ensures s.Some? <==> name == "easy" || name == "medium" || name == "hard"
    ensures s.Some? ==> s.value.WellFormed()
  {
    if name == "easy" then Some(Settings(9, 9, 10, 1.5))
    else if name == "medium" then Some(Settings(16, 16, 40, 2.0))
    else if name == "hard" then Some(Settings(16, 30, 99, 2.5))
    else None
  }
}
