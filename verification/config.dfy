/** The fixed game configuration: board size and colour palette. */
module GameConfig {

  /** A colour is the CSS colour name painted on a ball or a slot. */
  type Color = string

  /** Number of guesses a player may submit. */
  const MaxAttempts: nat := 6

  /** Number of slots in one guess and in the solution. */
  const SlotCount: nat := 4

  /** The palette a solution is drawn from. */
  const Colors: seq<Color> := ["red", "blue", "green", "yellow", "purple", "orange"]
}
