/** The turn state machine driven by the player's clicks.

    The state holds the attempt index, the cursor slot, the solution and a
    guess buffer standing for the colours painted on the current attempt's
    slots. There is no terminal state: once a guess completes the game the
    attempt simply stops advancing. The `outcome` field only records what the
    last completion verdict said. */
module Session {
  import opened Wrappers
  import opened GameConfig
  import opened Generator
  import opened Scoring
  import opened Verdicts

  /** Index of a slot within one attempt's row. */
  type SlotIndex = i: nat | i < SlotCount

  datatype Outcome = InProgress | Won | Lost

  datatype Game = Game(
    currentAttempt: nat,
    currentSlotIndex: nat,
    selectedColor: Option<Color>,
    solution: seq<Color>,
    row: seq<Option<Color>>,
    outcome: Outcome)

  /** What pressing OK produces besides the new state. */
  datatype Response =
    | AttemptLimitReached
    | MustFillAllSlots
    | Scored(score: Score, verdict: Verdict)

  datatype Step = Step(game: Game, response: Response)

  /** A player action. */
  datatype Action =
    | Ball(color: Color)
    | ClickSlot(dataAttempt: int, slot: SlotIndex)
    | Ok

  /** The row of an attempt that nobody has painted yet. */
  function EmptyRow(): seq<Option<Color>> {
    seq(SlotCount, _ => None)
  }

  /** The current attempt's row exists on the board and the cursor is one of
      its slots: what painting a slot needs. */
  predicate OnBoard(g: Game) {
    && |g.row| == SlotCount
    && g.currentSlotIndex < SlotCount
    && g.currentAttempt <= MaxAttempts - 1
  }

  /** The states the game can reach. */
  predicate Valid(g: Game) {
    && OnBoard(g)
    && IsSolution(g.solution)
    && (g.outcome == Lost ==> g.currentAttempt == MaxAttempts - 1)
  }

  /** The outcome a completion verdict announces: the success message of a
      completed game, the failure message of a completed game, or neither. */
  function OutcomeOf(v: Verdict): (o: Outcome)
    ensures o == Won <==> v.isComplete && v.isSuccess
    ensures o == Lost <==> v.isComplete && !v.isSuccess
    ensures o == InProgress <==> !v.isComplete
  {
    if !v.isComplete then InProgress else if v.isSuccess then Won else Lost
  }

  /** Whether every slot of the row holds a colour: the row contains no
      unpainted slot. */
  function IsAttemptComplete(row: seq<Option<Color>>): (full: bool)
    ensures full <==> None !in row
  {
    forall k :: 0 <= k < |row| ==> row[k].Some?
  }

  /** The guess read off a complete row. */
  function GuessOf(row: seq<Option<Color>>): (guess: seq<Color>)
    requires IsAttemptComplete(row)
    ensures |guess| == |row|
    ensures forall k :: 0 <= k < |row| ==> row[k] == Some(guess[k])
  {
    seq(|row|, k requires 0 <= k < |row| => row[k].value)
  }

  /** A fresh game: a generated solution, the first attempt, the first slot. */
  function InitGame(rand: nat -> PaletteIndex): (g: Game)
    ensures Valid(g)
    ensures g.currentAttempt == 0 && g.currentSlotIndex == 0 && g.outcome == InProgress
    ensures g.selectedColor == None && g.row == EmptyRow() && !IsAttemptComplete(g.row)
    ensures g.solution == GenerateSolution(rand)
  {
    var g := Game(0, 0, None, GenerateSolution(rand), EmptyRow(), InProgress);
    assert g.row[0] == None;
    g
  }

  /** Paints the cursor slot and moves the cursor to the next slot, wrapping
      from the last slot to the first. */
  function PlaceBallInSlot(g: Game, color: Color): (r: Game)
    requires OnBoard(g)
    ensures OnBoard(r) && (Valid(g) ==> Valid(r))
    ensures |r.row| == |g.row| && r.row[g.currentSlotIndex] == Some(color)
    ensures forall k :: 0 <= k < |g.row| && k != g.currentSlotIndex ==> r.row[k] == g.row[k]
    ensures r.currentSlotIndex == if g.currentSlotIndex == SlotCount - 1 then 0 else g.currentSlotIndex + 1
    ensures r.currentAttempt == g.currentAttempt && r.solution == g.solution && r.outcome == g.outcome
    ensures r.selectedColor == g.selectedColor
  {
    g.(row := g.row[g.currentSlotIndex := Some(color)],
       currentSlotIndex := (g.currentSlotIndex + 1) % SlotCount)
  }

  /** Picking a ball from the palette selects its colour and places it. */
  function HandleBallClick(g: Game, color: Color): (r: Game)
    requires OnBoard(g)
    ensures OnBoard(r) && (Valid(g) ==> Valid(r))
    ensures r.selectedColor == Some(color)
    ensures |r.row| == |g.row| && r.row[g.currentSlotIndex] == Some(color)
    ensures forall k :: 0 <= k < |g.row| && k != g.currentSlotIndex ==> r.row[k] == g.row[k]
    ensures r.currentSlotIndex == if g.currentSlotIndex == SlotCount - 1 then 0 else g.currentSlotIndex + 1
    ensures r.currentAttempt == g.currentAttempt && r.solution == g.solution && r.outcome == g.outcome
  {
    PlaceBallInSlot(g.(selectedColor := Some(color)), color)
  }

  /** Clicking a slot moves the cursor there when the slot belongs to the
      current attempt. Rows are numbered from the bottom of the board:
      attempt k is the row whose data-attempt is MaxAttempts - 1 - k. */
  function HandleSlotClick(g: Game, dataAttempt: int, slot: SlotIndex): (r: Game)
    ensures Valid(g) ==> Valid(r)
    ensures r.(currentSlotIndex := g.currentSlotIndex) == g
    ensures r.currentSlotIndex == (if dataAttempt + g.currentAttempt == MaxAttempts - 1 then slot else g.currentSlotIndex)
  {
    if dataAttempt == MaxAttempts - 1 - g.currentAttempt then g.(currentSlotIndex := slot) else g
  }

  /** Pressing OK: refused past the attempt limit or on an incomplete row;
      otherwise the guess is scored, and the game either ends (the state
      stays as it is apart from the recorded outcome) or moves to the next
      attempt's empty row. */
  function HandleOkButtonClick(g: Game): (r: Step)
    requires |g.row| == SlotCount && |g.solution| == SlotCount
    ensures r.game.solution == g.solution
    ensures r.response.AttemptLimitReached? <==> g.currentAttempt >= MaxAttempts
    ensures r.response.MustFillAllSlots? <==> g.currentAttempt < MaxAttempts && !IsAttemptComplete(g.row)
    ensures !r.response.Scored? ==> r.game == g
    ensures r.response.Scored? ==>
              && IsAttemptComplete(g.row)
              && r.response.score == CheckGuess(GuessOf(g.row), g.solution)
              && r.response.score.hits + r.response.score.blows <= SlotCount
              && r.response.verdict == IsGameComplete(r.response.score.hits, g.currentAttempt)
              && (r.response.verdict.isSuccess <==> GuessOf(g.row) == g.solution)
              && r.game.outcome == OutcomeOf(r.response.verdict)
    ensures r.response.Scored? && r.response.verdict.isComplete ==>
              r.game == g.(outcome := r.game.outcome)
    ensures r.response.Scored? && !r.response.verdict.isComplete ==>
              r.game == g.(currentAttempt := g.currentAttempt + 1, currentSlotIndex := 0,
                           row := EmptyRow(), outcome := InProgress)
    ensures Valid(g) ==> Valid(r.game)
  {
    if g.currentAttempt >= MaxAttempts then
      Step(g, AttemptLimitReached)
    else if !IsAttemptComplete(g.row) then
      Step(g, MustFillAllSlots)
    else
      var guess := GuessOf(g.row);
      assert guess == g.solution <==> forall k :: 0 <= k < SlotCount ==> guess[k] == g.solution[k];
      var score := CheckGuess(guess, g.solution);
      ScoreBound(guess, g.solution);
      ExactMatch(guess, g.solution);
      var verdict := IsGameComplete(score.hits, g.currentAttempt);
      if verdict.isComplete then
        Step(g.(outcome := OutcomeOf(verdict)), Scored(score, verdict))
      else
        Step(g.(currentAttempt := g.currentAttempt + 1, currentSlotIndex := 0,
                row := EmptyRow(), outcome := InProgress),
             Scored(score, verdict))
  }

  /** One player action. */
  function Apply(g: Game, a: Action): (r: Game)
    requires Valid(g)
    ensures Valid(r)
    ensures g.currentAttempt <= r.currentAttempt <= g.currentAttempt + 1
    ensures r.solution == g.solution
  {
    match a
    case Ball(color) => HandleBallClick(g, color)
    case ClickSlot(dataAttempt, slot) => HandleSlotClick(g, dataAttempt, slot)
    case Ok => HandleOkButtonClick(g).game
  }

  /** A sequence of player actions, applied in order. */
  function Run(g: Game, actions: seq<Action>): (r: Game)
    requires Valid(g)
    ensures Valid(r)
    decreases |actions|
  {
    if |actions| == 0 then g else Run(Apply(g, actions[0]), actions[1..])
  }

  /** Placing one ball per colour, in order. */
  function Balls(colors: seq<Color>): (actions: seq<Action>)
    ensures |actions| == |colors|
    ensures forall k :: 0 <= k < |colors| ==> actions[k] == Ball(colors[k])
  {
    seq(|colors|, k requires 0 <= k < |colors| => Ball(colors[k]))
  }

  // ---------------------------------------------------------------------
  // Properties of the state machine
  // ---------------------------------------------------------------------

  /** Every state reached by any sequence of actions keeps the attempt index
      within the board, so OK never hits the attempt-limit guard; the attempt
      index never decreases and grows by at most one per action. */
  lemma {:induction false} RunPreservesValid(g: Game, actions: seq<Action>)
    requires Valid(g)
    ensures Valid(Run(g, actions))
    ensures !HandleOkButtonClick(Run(g, actions)).response.AttemptLimitReached?
    ensures g.currentAttempt <= Run(g, actions).currentAttempt <= g.currentAttempt + |actions|
    ensures Run(g, actions).solution == g.solution
    decreases |actions|
  {
    if |actions| > 0 {
      var next := Apply(g, actions[0]);
      RunPreservesValid(next, actions[1..]);
      assert Run(g, actions) == Run(next, actions[1..]);
    }
  }

  /** From a fresh game, no sequence of actions reaches the attempt-limit
      guard, and the solution never changes. */
  lemma AttemptLimitUnreachable(rand: nat -> PaletteIndex, actions: seq<Action>)
    ensures Valid(Run(InitGame(rand), actions))
    ensures Run(InitGame(rand), actions).currentAttempt <= MaxAttempts - 1
    ensures !HandleOkButtonClick(Run(InitGame(rand), actions)).response.AttemptLimitReached?
    ensures Run(InitGame(rand), actions).solution == GenerateSolution(rand)
  {
    RunPreservesValid(InitGame(rand), actions);
  }

  /** Placing balls from slot `j` on paints consecutive slots in order and
      leaves the attempt, the solution and the other slots alone. */
  lemma {:induction false} PlacingFillsRowInOrder(g: Game, colors: seq<Color>)
    requires Valid(g) && g.currentSlotIndex + |colors| <= SlotCount
    ensures var r := Run(g, Balls(colors));
      && r.currentAttempt == g.currentAttempt && r.solution == g.solution
      && |r.row| == SlotCount
      && r.currentSlotIndex == (g.currentSlotIndex + |colors|) % SlotCount
      && (forall k :: 0 <= k < |colors| ==> r.row[g.currentSlotIndex + k] == Some(colors[k]))
      && (forall k :: 0 <= k < g.currentSlotIndex ==> r.row[k] == g.row[k])
      && (forall k :: g.currentSlotIndex + |colors| <= k < SlotCount ==> r.row[k] == g.row[k])
    decreases |colors|
  {
    if |colors| > 0 {
      var g' := Apply(g, Balls(colors)[0]);
      assert Balls(colors)[1..] == Balls(colors[1..]);
      PlacingFillsRowInOrder(g', colors[1..]);
      var r := Run(g, Balls(colors));
      assert r == Run(g', Balls(colors[1..]));
      forall k | 0 <= k < |colors|
        ensures r.row[g.currentSlotIndex + k] == Some(colors[k])
      {
        if k > 0 {
          assert colors[1..][k - 1] == colors[k];
        }
      }
    }
  }

  /** Filling a fresh row ball by ball and pressing OK scores exactly the
      colours placed. */
  lemma FillThenSubmit(g: Game, colors: seq<Color>)
    requires Valid(g) && g.currentSlotIndex == 0 && |colors| == SlotCount
    ensures var r := HandleOkButtonClick(Run(g, Balls(colors)));
      && r.response.Scored?
      && r.response.score == CheckGuess(colors, g.solution)
  {
    PlacingFillsRowInOrder(g, colors);
    RunPreservesValid(g, Balls(colors));
    var filled := Run(g, Balls(colors));
    forall k | 0 <= k < SlotCount
      ensures filled.row[k] == Some(colors[k])
    {
      assert filled.row[g.currentSlotIndex + k] == Some(colors[k]);
    }
    assert IsAttemptComplete(filled.row);
    assert GuessOf(filled.row) == colors;
  }

  /** A win does not end the game: the row stays painted, so placing one more
      ball and pressing OK scores again, and a differing colour sends the game
      on to the next attempt. */
  lemma WinIsNotTerminal(g: Game, color: Color)
    requires Valid(g) && g.outcome == Won && IsAttemptComplete(g.row)
    requires g.currentAttempt < MaxAttempts - 1 && color != g.solution[g.currentSlotIndex]
    ensures var r := HandleOkButtonClick(HandleBallClick(g, color));
      && r.response.Scored?
      && r.game.outcome == InProgress
      && r.game.currentAttempt == g.currentAttempt + 1
  {
  }
}
