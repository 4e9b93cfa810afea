/**
 * The wagering ledger: a bankroll, the bet staked on the current round and
 * the difficulty it was staked on. Placing a bet only records it; the
 * bankroll moves when the round is settled as a win or a loss.
 */
module Gambling {
  import opened Wrappers
  import opened Config

  /** Why a bet was or was not accepted. */
  datatype BetOutcome = Placed | OutOfRange | InsufficientFunds

  datatype WinReport = WinReport(payout: real, profit: real, newBankroll: real)

  datatype LossReport = LossReport(loss: real, newBankroll: real)

  /** Settling a win looks the recorded difficulty up in the table, which can miss. */
  datatype SettleError = UnknownDifficulty(name: string)

  /**
   * Win settlement as the ledger performs it: the payout is bet * multiplier
   * and all of it is credited, although the stake was never debited. The
   * bankroll therefore rises by the reported profit plus the stake.
   */
  function WinSettlement(bankroll: real, bet: real, multiplier: real): (r: WinReport)
    ensures r.newBankroll - bankroll == r.profit + bet
    ensures r.payout == r.profit + bet
    ensures r.payout == bet * multiplier
  {
    var payout := bet * multiplier;
    WinReport(payout, payout - bet, bankroll + payout)
  }

  /**
   * Win settlement with the stake kept by the player all along: the bankroll
   * rises by exactly the reported profit, bet * (multiplier - 1), which is
   * positive for a positive bet and a multiplier above 1.
   */
  function IntendedWinSettlement(bankroll: real, bet: real, multiplier: real): (r: WinReport)
    ensures r.newBankroll - bankroll == r.profit
    ensures r.profit == bet * (multiplier - 1.0) && r.payout == bet * multiplier
    ensures bet > 0.0 && multiplier > 1.0 ==> r.newBankroll > bankroll
  {
    var payout := bet * multiplier;
    WinReport(payout, payout - bet, bankroll + (payout - bet))
  }

  /** Loss settlement: the stake is subtracted, with no clamp at zero. */
  function LossSettlement(bankroll: real, bet: real): (r: LossReport)
    ensures r.newBankroll + r.loss == bankroll && r.loss == bet
  {
    LossReport(bet, bankroll - bet)
  }

  /**
   * A 10.0 bet on "easy" (multiplier 1.5) won from a bankroll of 100.0: the
   * ledger reports a profit of 5.0 but leaves 115.0, where crediting the
   * profit leaves 105.0.
   */
  lemma WinCreditsUndebitedStake()
    ensures Difficulty("easy").Some? && Difficulty("easy").value.multiplier == 1.5
    ensures WinSettlement(100.0, 10.0, 1.5) == WinReport(15.0, 5.0, 115.0)
    ensures IntendedWinSettlement(100.0, 10.0, 1.5) == WinReport(15.0, 5.0, 105.0)
    ensures LossSettlement(100.0, 10.0) == LossReport(10.0, 90.0)
  {
  }

  class GamblingSystem {
    var bankroll: real
    var currentBet: real
    var currentDifficulty: string

    /**
     * The ledger's own operations keep the stake within the bet bounds (or
     * zero) and covered by the bankroll, so a loss never drives the bankroll
     * below zero unless some other code wrote these fields.
     */
    ghost predicate Valid()
      reads this
    {
      0.0 <= currentBet <= bankroll &&
      (currentBet == 0.0 || MIN_BET <= currentBet <= MAX_BET)
    }

    constructor ()
      ensures Valid()
      ensures bankroll == INITIAL_BANKROLL && currentBet == 0.0 && currentDifficulty == "easy"
    {
      bankroll := INITIAL_BANKROLL;
      currentBet := 0.0;
      currentDifficulty := "easy";
    }

    /**
     * Records a bet when it lies within the bounds and is covered by the
     * bankroll; the bankroll itself does not move. The difficulty name is
     * recorded as given, without checking it against the table.
     */
    method PlaceBet(amount: real, difficulty: string) returns (outcome: BetOutcome)
      modifies this
      ensures outcome == OutOfRange <==> amount < MIN_BET || amount > MAX_BET
      ensures outcome == InsufficientFunds <==> MIN_BET <= amount <= MAX_BET && amount > old(bankroll)
      ensures outcome == Placed ==> currentBet == amount && currentDifficulty == difficulty && Valid()
      ensures outcome != Placed ==> currentBet == old(currentBet) && currentDifficulty == old(currentDifficulty)
      ensures bankroll == old(bankroll)
      ensures old(Valid()) ==> Valid()
    {
      if amount < MIN_BET || amount > MAX_BET {
        return OutOfRange;
      }
      if amount > bankroll {
        return InsufficientFunds;
      }
      currentBet := amount;
      currentDifficulty := difficulty;
      outcome := Placed;
    }

    /**
     * Settles a won round at the multiplier of the recorded difficulty and
     * clears the stake, crediting the whole payout as WinSettlement does. An
     * unknown difficulty fails before anything changes.
     */
    method WinGame() returns (r: Result<WinReport, SettleError>)
      modifies this
      ensures Difficulty(old(currentDifficulty)).None? ==>
        r == Failure(UnknownDifficulty(old(currentDifficulty))) && unchanged(this)
      ensures Difficulty(old(currentDifficulty)).Some? ==>
        r == Success(WinSettlement(old(bankroll), old(currentBet), Difficulty(old(currentDifficulty)).value.multiplier)) &&
        bankroll == r.value.newBankroll && currentBet == 0.0 && currentDifficulty == old(currentDifficulty)
      ensures old(Valid()) ==> Valid()
    {
      var settings := Difficulty(currentDifficulty);
      if settings.None? {
        return Failure(UnknownDifficulty(currentDifficulty));
      }
      var payout := currentBet * settings.value.multiplier;
      bankroll := bankroll + payout;
      var profit := payout - currentBet;
      r := Success(WinReport(payout, profit, bankroll));
      currentBet := 0.0;
    }

    /** Settles a lost round: the stake leaves the bankroll and is cleared. */
    method LoseGame() returns (r: LossReport)
      modifies this
      ensures r == LossSettlement(old(bankroll), old(currentBet))
      ensures bankroll == r.newBankroll && currentBet == 0.0 && currentDifficulty == old(currentDifficulty)
      ensures old(Valid()) ==> Valid() && bankroll >= 0.0
    {
      var loss := currentBet;
      bankroll := bankroll - loss;
      r := LossReport(loss, bankroll);
      currentBet := 0.0;
    }
  }
}
