/** The counters of a solve: whether it succeeded, how many guesses it tried and committed, and why it failed. */
module SolveStatsModel {
  import opened Outcomes

  class SolveStats {
    var solved: bool
    /** How many borders were still UNSET after the first round of deductions. */
    var unsetBorderCountAfterInitialSolve: nat
    /** Every guess tried on a clone, refuted or not. */
    var totalGuessCount: nat
    /** Committed guesses: one per entry of guessTimes (the times themselves are not modelled). */
    var correctGuessCount: nat
    var err: Option<string>

    constructor ()
      ensures !solved && unsetBorderCountAfterInitialSolve == 0
      ensures totalGuessCount == 0 && correctGuessCount == 0 && err.None?
    {
      solved := false;
      unsetBorderCountAfterInitialSolve := 0;
      totalGuessCount := 0;
      correctGuessCount := 0;
      err := None;
    }
  }
}
