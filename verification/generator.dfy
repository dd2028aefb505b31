/** Solution generation. The random number source is an oracle:
    `rand(k)` is the palette index the k-th call of the colour draw yields. */
module Generator {
  import opened GameConfig
  import Sequences

  /** What `Math.floor(Math.random() * Colors.length)` can evaluate to. */
  type PaletteIndex = i: nat | i < |Colors|

  /** A well-formed solution: SlotCount colours, each from the palette. */
  predicate IsSolution(sol: seq<Color>) {
    |sol| == SlotCount && forall k :: 0 <= k < |sol| ==> sol[k] in Colors
  }

  /** One colour draw. */
  function RandomColor(draw: PaletteIndex): (c: Color)
    ensures c in Colors
  {
    Colors[draw]
  }

  /** The draw that yields a given palette colour. */
  function ColorIndex(c: Color): (draw: PaletteIndex)
    requires c in Colors
    ensures RandomColor(draw) == c
  {
    Sequences.IndexOf(Colors, c)
  }

  /** SlotCount independent draws, slot k taking the k-th draw. */
  function GenerateSolution(rand: nat -> PaletteIndex): (sol: seq<Color>)
    ensures IsSolution(sol)
    ensures forall k :: 0 <= k < |sol| ==> sol[k] == RandomColor(rand(k))
  {
    var sol := seq(SlotCount, k requires 0 <= k < SlotCount => RandomColor(rand(k)));
    assert forall k :: 0 <= k < |sol| ==> sol[k] == RandomColor(rand(k));
    sol
  }

  /** Every well-formed solution, repeated colours included, is produced by some
      sequence of draws: the generator's range is exactly `IsSolution`. */
  lemma EverySolutionReachable(sol: seq<Color>)
    requires IsSolution(sol)
    ensures exists rand: nat -> PaletteIndex :: GenerateSolution(rand) == sol
  {
    var rand: nat -> PaletteIndex := (k: nat) => if k < |sol| then ColorIndex(sol[k]) else 0;
    assert GenerateSolution(rand) == sol;
  }
}
