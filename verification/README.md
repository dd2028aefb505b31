# Hit & Blow game core in Dafny

A model of the logic of a browser Mastermind-style "Hit & Blow" game. The
game hides a solution of four colours drawn from a six-colour palette. The
player paints the four slots of the current attempt, presses OK, and gets a
Hit count (right colour, right slot) and a Blow count (right colour, wrong
slot). On a full match, or on the sixth attempt, the verdict reports the
game complete and the attempt stops advancing.

Modules, one per component of `game.js`:

- `GameConfig` (`config.dfy`): `MaxAttempts = 6`, `SlotCount = 4` and the palette
  `red, blue, green, yellow, purple, orange`. A colour is its CSS name (`string`).
- `Generator` (`generator.dfy`): solution generation. `Math.random` becomes an
  oracle `rand: nat -> PaletteIndex`, where `rand(k)` is the palette index
  the k-th draw yields.
- `Scoring` (`scoring.dfy`): the two-pass scorer `checkGuess`. The copy of the
  solution is a `seq<Option<T>>`, and `None` is a consumed (nulled) slot.
  `HitPass` and `BlowPass` follow the two `forEach` passes position by
  position. `CheckGuess` is proved equal to a reference definition. Hits are
  the set of positions where guess and solution agree. Blows are the size of
  the multiset intersection of the guess colours and the solution colours at
  the other positions. Sequences are values, so the scorer cannot change
  the solution it is given, as the source's copy-then-null scheme intends.
- `Verdicts` (`verdicts.dfy`): the completion decision `isGameComplete`.
- `Session` (`session.dfy`): the click handlers as transitions of a `Game`
  record. The record holds `currentAttempt`, `currentSlotIndex`,
  `selectedColor`, the solution and a guess buffer `row`. The buffer is a
  `seq<Option<Color>>` that stands for the `data-color` attributes of the
  current attempt's slots. Later rows are never painted before they become
  current, so moving to the next attempt starts from an empty row.
- `Wrappers` and `Sequences`: `Option`, and `IndexOf` (the lowest-index
  match, as `Array.prototype.indexOf` returns it).

### The game has no terminal state

A won or lost game might be expected to refuse further guesses. The code
does not enforce this. When a guess completes the game,
`handleOkButtonClick` only shows a popup and reveals the solution, and the
attempt stops advancing (game.js:311-318). The ball handlers stay attached.
The completed row is still full, so one more ball re-shows the OK button, and
pressing it scores the row again. The model follows the code. The `outcome`
field records only the last verdict (`OutcomeOf` of the `IsGameComplete`
result), and no transition checks it. `Session.WinIsNotTerminal` proves the
consequence: after a win before the last attempt, repainting one slot with a
different colour and pressing OK moves the game to the next attempt.
Whether the popup covers the board and blocks those clicks depends on the
page's HTML and CSS, which are not part of this model.

The code has a single level: 4 slots and 6 attempts (game.js:5-9), and so
does the model.
The scorer and its lemmas are generic in the element type and hold for any
length.

## Model

| member | source | states |
|---|---|---|
| `Sequences.IndexOf` | game.js:61 | the index returned holds the value and no earlier index does, so the blow pass consumes the lowest-index unconsumed slot of that colour |
| `Generator.RandomColor` | game.js:26-28 | a single draw always yields a palette colour |
| `Generator.GenerateSolution` | game.js:34-36 | the solution has exactly `SlotCount` elements, all in the palette, and slot k holds the colour of the k-th draw |
| `Generator.EverySolutionReachable` | game.js:26-36 | every `SlotCount`-long palette sequence, with repeats, is produced by some sequence of draws, so the generator's range is exactly the well-formed solutions |
| `Scoring.HitPass` | game.js:49-55 | the first pass counts the positions where guess and solution agree, and nulls out exactly those slots of the copy |
| `Scoring.BlowPass` | game.js:57-63 | the second pass adds the size of the multiset intersection of the unmatched guess colours and the colours still in the copy; the count depends only on that multiset, whichever slot `indexOf` consumes |
| `Scoring.CheckGuess` | game.js:44-66 | hits is the number of positions where guess and solution agree; blows is the size of the multiset intersection of the guess colours and the solution colours at the non-hit positions |
| `Scoring.ScoreBound` | game.js:47-63 | hits + blows never exceeds the guess length |
| `Scoring.ExactMatch` | game.js:50-63 | hits equals the length exactly when the guess is the solution, and then blows is 0 |
| `Scoring.RepeatedColoursExample` | game.js:44-66 | `[red,red,blue,blue]` against `[red,green,green,blue]` scores 2 hits and 0 blows |
| `Scoring.AllBlowsExample` | game.js:44-66 | `[red,blue,green,yellow]` against `[yellow,green,blue,red]` scores 0 hits and 4 blows |
| `Verdicts.IsGameComplete` | game.js:74-81 | success holds exactly when all slots are hits; a success always completes the game; the game goes on exactly when it is not a success and the attempt index is before the last one |
| `Verdicts.CompletionExamples` | game.js:74-81 | a first-attempt win, a loss on the last attempt, a game that goes on, and a win on the last attempt that still reports success |
| `Session.GuessOf` | game.js:294 | the guess read off a full row has one colour per slot, namely the one painted there |
| `Session.InitGame` | game.js:360-365 | a new game starts at attempt 0 and slot 0 with no colour selected, an empty row and a generated solution, in a valid state |
| `Session.PlaceBallInSlot` | game.js:101-116 | painting sets the cursor slot and no other, and moves the cursor to the next slot, wrapping from the last to the first; the cursor stays in `[0, SlotCount)`; attempt, solution and outcome are untouched, and a valid state stays valid |
| `Session.HandleBallClick` | game.js:257-261 | picking a ball records it as the selected colour, paints it at the cursor and no other slot, and moves the cursor to the next slot, wrapping from the last to the first; attempt, solution and outcome are untouched |
| `Session.IsAttemptComplete` | game.js:297 | a row counts as complete exactly when none of its slots is unpainted, the `includes(undefined)` test OK applies before scoring |
| `Session.OutcomeOf` | game.js:312-318 | the recorded outcome is Won exactly when the verdict is complete and successful, Lost exactly when it is complete and unsuccessful, and InProgress exactly when it is not complete |
| `Session.HandleSlotClick` | game.js:267-278 | only the cursor can change; it moves to the clicked slot exactly when the clicked row is the current attempt's row (data-attempt `MaxAttempts - 1 - currentAttempt`) |
| `Session.HandleOkButtonClick` | game.js:284-325 | past the attempt limit, or with an unfilled slot, OK is refused and nothing changes; otherwise the row is scored, success holds exactly when the row equals the solution, and the outcome is the one the verdict announces; a completed game keeps its attempt, cursor and row; otherwise the attempt goes up by exactly 1, the cursor returns to 0, the row is empty and nothing else (the selected colour included) changes; the solution never changes |
| `Session.RunPreservesValid` | game.js:284-325 | along any sequence of clicks, the attempt index stays at most `MaxAttempts - 1` and never decreases, it grows by at most one per click, the solution never changes, and OK never reaches the attempt-limit guard |
| `Session.AttemptLimitUnreachable` | game.js:288-290 | from a fresh game, no sequence of clicks reaches a state where the attempt-limit guard fires |
| `Session.PlacingFillsRowInOrder` | game.js:101-116 | placing balls from the cursor on paints consecutive slots in order and leaves the other slots, the attempt and the solution alone |
| `Session.FillThenSubmit` | game.js:292-303 | filling a fresh row ball by ball and pressing OK scores exactly the colours placed against the solution |
| `Session.WinIsNotTerminal` | game.js:311-323 | after a win before the last attempt, repainting one slot with a different colour and pressing OK scores again and moves the game to the next attempt |

## Left out

- DOM rendering: highlighting, the result dots, revealing the solution, popups and their messages, showing and hiding the OK button, and resetting highlights. These have no logic beyond painting.
- OK button visibility (game.js:113-115, 179-192): `HandleOkButtonClick` can be applied in any state. Its refusal of an incomplete row stands in for the button being hidden until the row is full. The button is shown by a truthiness test on each slot's colour (game.js:246), which would treat an empty colour name as unpainted, while OK's own test (game.js:297, modelled by `IsAttemptComplete`) treats it as painted. Palette colours are never empty, so the two tests agree on every colour a ball can carry.
- The DOM lookup helpers `getAttemptSlots`, `getOkButton` and `getResultDisplay`: only the row-numbering rule they share, `MaxAttempts - 1 - attempt`, is modelled, in `HandleSlotClick`.
- Event wiring (`setupEventListeners`, the `DOMContentLoaded` hook) and `handleRetryClick`. The retry reloads the page, which amounts to a new `InitGame`.
- `Math.random` and its floating-point index computation: the oracle `rand` returns a palette index directly.
- icon.js is not part of this model. It substitutes SVG strings and replaces DOM nodes.
- Scoring.CheckGuess: requires guess and solution to have the same length. Its only caller passes two `SlotCount`-long arrays, so the code's behaviour on unequal lengths is not modelled.
- Session.HandleSlotClick: the clicked slot is taken to be one of its row's `SlotCount` slots. `indexOf` cannot return -1 there, because the slot was found inside that row.
