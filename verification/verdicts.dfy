/** The end-of-game decision taken after each scored guess. */
module Verdicts {
  import opened GameConfig

  datatype Verdict = Verdict(isComplete: bool, isSuccess: bool)

  /** Decides, from the hits of the guess just scored and its 0-based attempt
      index, whether the game is over and whether it was won. The check fires
      on the attempt that reaches the limit, not on the one after it. */
  function IsGameComplete(hits: int, currentAttempt: int): (v: Verdict)
    ensures v.isSuccess <==> hits == SlotCount
    ensures v.isSuccess ==> v.isComplete
    ensures !v.isComplete <==> hits != SlotCount && currentAttempt < MaxAttempts - 1
  {
    var isSuccess := hits == SlotCount;
    var isMaxAttempts := currentAttempt >= MaxAttempts - 1;
    Verdict(isSuccess || isMaxAttempts, isSuccess)
  }

  /** Four sample decisions: a first-attempt win, a loss on the final
      attempt, a game that goes on, and a win on the final attempt, which is
      still reported as a success. */
  lemma CompletionExamples()
    ensures IsGameComplete(SlotCount, 0) == Verdict(true, true)
    ensures IsGameComplete(0, MaxAttempts - 1) == Verdict(true, false)
    ensures IsGameComplete(2, 3) == Verdict(false, false)
    ensures IsGameComplete(SlotCount, MaxAttempts - 1) == Verdict(true, true)
  {
  }
}
