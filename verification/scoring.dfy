/** The Hit/Blow scorer.

    The scorer works on a copy of the solution in which a consumed slot is
    nulled out. The first pass counts hits (same colour, same position) and
    consumes those slots. The second pass visits the remaining guess
    positions in order, and for each one whose colour is still present in the
    copy it counts a blow and consumes the lowest-index slot of that colour.

    The reference definition it is proved against: the hits are the positions
    where guess and solution agree, and the blows are the size of the
    multiset intersection of the guess colours and the solution colours at
    the other positions. */
module Scoring {
  import opened Wrappers
  import opened Sequences

  datatype Score = Score(hits: nat, blows: nat)

  // ---------------------------------------------------------------------
  // Reference definition
  // ---------------------------------------------------------------------

  /** Positions at or after `i` where the guess has the solution's colour. */
  function MatchesFrom<T(==)>(guess: seq<T>, solution: seq<T>, i: nat): set<nat>
    requires |guess| == |solution|
  {
    set k: nat | i <= k < |guess| && guess[k] == solution[k]
  }

  /** Positions where the guess has the solution's colour. */
  function HitPositions<T(==)>(guess: seq<T>, solution: seq<T>): set<nat>
    requires |guess| == |solution|
  {
    MatchesFrom(guess, solution, 0)
  }

  /** The colours of `xs` at positions at or after `i` where `xs` and `ys` differ. */
  function UnmatchedFrom<T(==)>(xs: seq<T>, ys: seq<T>, i: nat): multiset<T>
    requires |xs| == |ys| && i <= |xs|
    decreases |xs| - i
  {
    if i == |xs| then multiset{}
    else (if xs[i] == ys[i] then multiset{} else multiset{xs[i]}) + UnmatchedFrom(xs, ys, i + 1)
  }

  /** The colours of `xs` at the positions where `xs` and `ys` differ. */
  function Unmatched<T(==)>(xs: seq<T>, ys: seq<T>): multiset<T>
    requires |xs| == |ys|
  {
    UnmatchedFrom(xs, ys, 0)
  }

  /** The colours still available (not nulled) in a copy, from slot `i` on. */
  function AvailableFrom<T>(copy: seq<Option<T>>, i: nat): multiset<T>
    requires i <= |copy|
    decreases |copy| - i
  {
    if i == |copy| then multiset{}
    else
      (match copy[i] case Some(c) => multiset{c} case None => multiset{})
      + AvailableFrom(copy, i + 1)
  }

  // ---------------------------------------------------------------------
  // The algorithm
  // ---------------------------------------------------------------------

  /** The hit pass from position `i` on, with `hits` counted so far. */
  function HitPass<T(==)>(guess: seq<T>, solution: seq<T>, i: nat, hits: nat, copy: seq<Option<T>>)
    : (r: (nat, seq<Option<T>>))
    requires |guess| == |solution| == |copy| && i <= |guess|
    ensures r.0 == hits + |MatchesFrom(guess, solution, i)|
    ensures |r.1| == |copy|
    ensures forall k :: 0 <= k < |copy| ==>
              r.1[k] == (if i <= k && guess[k] == solution[k] then None else copy[k])
    decreases |guess| - i
  {
    if i == |guess| then
      assert MatchesFrom(guess, solution, i) == {};
      (hits, copy)
    else
      MatchesStep(guess, solution, i);
      if guess[i] == solution[i] then HitPass(guess, solution, i + 1, hits + 1, copy[i := None])
      else HitPass(guess, solution, i + 1, hits, copy)
  }

  /** The blow pass from position `i` on, with `blows` counted so far. Whichever
      slot is consumed, the count depends only on the multiset of colours
      still available. */
  function BlowPass<T(==)>(guess: seq<T>, solution: seq<T>, i: nat, blows: nat, copy: seq<Option<T>>)
    : (r: (nat, seq<Option<T>>))
    requires |guess| == |solution| == |copy| && i <= |guess|
    ensures r.0 == blows + |UnmatchedFrom(guess, solution, i) * AvailableFrom(copy, 0)|
    ensures |r.1| == |copy|
    decreases |guess| - i
  {
    if i == |guess| then
      assert UnmatchedFrom(guess, solution, i) * AvailableFrom(copy, 0) == multiset{};
      (blows, copy)
    else if guess[i] != solution[i] && Some(guess[i]) in copy then
      var k := IndexOf(copy, Some(guess[i]));
      AvailableConsume(copy, 0, k, guess[i]);
      ConsumeCounts(guess[i], UnmatchedFrom(guess, solution, i + 1), AvailableFrom(copy, 0));
      BlowPass(guess, solution, i + 1, blows + 1, copy[k := None])
    else if guess[i] == solution[i] then
      assert UnmatchedFrom(guess, solution, i) == UnmatchedFrom(guess, solution, i + 1);
      BlowPass(guess, solution, i + 1, blows, copy)
    else
      AvailableOnlyHeld(copy, 0, guess[i]);
      SkipCounts(guess[i], UnmatchedFrom(guess, solution, i + 1), AvailableFrom(copy, 0));
      BlowPass(guess, solution, i + 1, blows, copy)
  }

  /** Scores a guess against a solution of the same length. */
  function CheckGuess<T(==)>(guess: seq<T>, solution: seq<T>): (r: Score)
    requires |guess| == |solution|
    ensures r.hits == |HitPositions(guess, solution)|
    ensures r.blows == |Unmatched(guess, solution) * Unmatched(solution, guess)|
  {
    var copy := seq(|solution|, k requires 0 <= k < |solution| => Some(solution[k]));
    var afterHits := HitPass(guess, solution, 0, 0, copy);
    AfterHitPassAvailable(guess, solution, afterHits.1, 0);
    var afterBlows := BlowPass(guess, solution, 0, 0, afterHits.1);
    Score(afterHits.0, afterBlows.0)
  }

  // ---------------------------------------------------------------------
  // Properties of the scorer
  // ---------------------------------------------------------------------

  /** Each solution slot yields at most one hit or blow. */
  lemma ScoreBound<T>(guess: seq<T>, solution: seq<T>)
    requires |guess| == |solution|
    ensures CheckGuess(guess, solution).hits + CheckGuess(guess, solution).blows <= |guess|
  {
    UnmatchedSize(guess, solution, 0);
    IntersectionBound(Unmatched(guess, solution), Unmatched(solution, guess));
  }

  /** All slots are hits exactly when the guess is the solution, and then
      there is no blow. */
  lemma ExactMatch<T>(guess: seq<T>, solution: seq<T>)
    requires |guess| == |solution|
    ensures CheckGuess(guess, solution).hits == |guess| <==> guess == solution
    ensures guess == solution ==> CheckGuess(guess, solution) == Score(|guess|, 0)
  {
    UnmatchedSize(guess, solution, 0);
    UnmatchedEmpty(guess, solution, 0);
    if guess == solution {
      UnmatchedEmpty(solution, guess, 0);
      assert Unmatched(guess, solution) * Unmatched(solution, guess) == multiset{};
    }
  }

  /** Repeated colours are not over-counted: the second red and the second
      blue of the guess find no unconsumed partner. */
  lemma RepeatedColoursExample()
    ensures CheckGuess(["red", "red", "blue", "blue"], ["red", "green", "green", "blue"]) == Score(2, 0)
  {
  }

  /** A permutation with every position wrong scores only blows. */
  lemma AllBlowsExample()
    ensures CheckGuess(["red", "blue", "green", "yellow"], ["yellow", "green", "blue", "red"]) == Score(0, 4)
  {
    var g: seq<string> := ["red", "blue", "green", "yellow"];
    var s: seq<string> := ["yellow", "green", "blue", "red"];
    assert HitPositions(g, s) == {};
    assert Unmatched(g, s) == multiset{"red", "blue", "green", "yellow"};
    assert Unmatched(s, g) == multiset{"yellow", "green", "blue", "red"};
    assert Unmatched(g, s) * Unmatched(s, g) == Unmatched(g, s);
  }

  // ---------------------------------------------------------------------
  // Helper lemmas
  // ---------------------------------------------------------------------

  lemma MatchesStep<T>(guess: seq<T>, solution: seq<T>, i: nat)
    requires |guess| == |solution| && i < |guess|
    ensures |MatchesFrom(guess, solution, i)|
            == (if guess[i] == solution[i] then 1 else 0) + |MatchesFrom(guess, solution, i + 1)|
  {
    var rest := MatchesFrom(guess, solution, i + 1);
    assert i !in rest;
    if guess[i] == solution[i] {
      assert MatchesFrom(guess, solution, i) == {i} + rest;
    } else {
      assert MatchesFrom(guess, solution, i) == rest;
    }
  }

  lemma {:induction false} UnmatchedSize<T>(xs: seq<T>, ys: seq<T>, i: nat)
    requires |xs| == |ys| && i <= |xs|
    ensures |UnmatchedFrom(xs, ys, i)| + |MatchesFrom(xs, ys, i)| == |xs| - i
    decreases |xs| - i
  {
    if i == |xs| {
      assert MatchesFrom(xs, ys, i) == {};
    } else {
      MatchesStep(xs, ys, i);
      UnmatchedSize(xs, ys, i + 1);
    }
  }

  lemma {:induction false} UnmatchedEmpty<T>(xs: seq<T>, ys: seq<T>, i: nat)
    requires |xs| == |ys| && i <= |xs|
    ensures UnmatchedFrom(xs, ys, i) == multiset{} <==> forall k :: i <= k < |xs| ==> xs[k] == ys[k]
    decreases |xs| - i
  {
    if i < |xs| {
      UnmatchedEmpty(xs, ys, i + 1);
      if xs[i] != ys[i] {
        assert xs[i] in UnmatchedFrom(xs, ys, i);
      }
    }
  }

  /** A colour no slot holds is not available. */
  lemma {:induction false} AvailableOnlyHeld<T>(copy: seq<Option<T>>, i: nat, x: T)
    requires i <= |copy|
    requires forall k :: i <= k < |copy| ==> copy[k] != Some(x)
    ensures x !in AvailableFrom(copy, i)
    decreases |copy| - i
  {
    if i < |copy| {
      AvailableOnlyHeld(copy, i + 1, x);
    }
  }

  lemma {:induction false} AvailableAgree<T>(c: seq<Option<T>>, d: seq<Option<T>>, i: nat)
    requires |c| == |d| && i <= |c|
    requires forall k :: i <= k < |c| ==> c[k] == d[k]
    ensures AvailableFrom(c, i) == AvailableFrom(d, i)
    decreases |c| - i
  {
    if i < |c| {
      AvailableAgree(c, d, i + 1);
    }
  }

  /** Nulling out an available slot removes exactly one copy of its colour. */
  lemma {:induction false} AvailableConsume<T>(copy: seq<Option<T>>, i: nat, k: nat, x: T)
    requires i <= k < |copy| && copy[k] == Some(x)
    ensures x in AvailableFrom(copy, i)
    ensures AvailableFrom(copy[k := None], i) == AvailableFrom(copy, i) - multiset{x}
    decreases k - i
  {
    var after := copy[k := None];
    if i == k {
      AvailableAgree(after, copy, k + 1);
    } else {
      AvailableConsume(copy, i + 1, k, x);
      var head := match copy[i] case Some(c) => multiset{c} case None => multiset{};
      assert AvailableFrom(after, i) == head + AvailableFrom(after, i + 1);
      assert AvailableFrom(copy, i) == head + AvailableFrom(copy, i + 1);
    }
  }

  /** After the hit pass, the colours left in the copy are the solution's
      unmatched colours. */
  lemma {:induction false} AfterHitPassAvailable<T>(guess: seq<T>, solution: seq<T>, copy: seq<Option<T>>, i: nat)
    requires |guess| == |solution| == |copy| && i <= |copy|
    requires forall k :: i <= k < |copy| ==>
               copy[k] == (if guess[k] == solution[k] then None else Some(solution[k]))
    ensures AvailableFrom(copy, i) == UnmatchedFrom(solution, guess, i)
    decreases |copy| - i
  {
    if i < |copy| {
      AfterHitPassAvailable(guess, solution, copy, i + 1);
    }
  }

  lemma ConsumeCounts<T>(x: T, rest: multiset<T>, avail: multiset<T>)
    requires x in avail
    ensures |(multiset{x} + rest) * avail| == 1 + |rest * (avail - multiset{x})|
  {
    assert (multiset{x} + rest) * avail == rest * (avail - multiset{x}) + multiset{x};
  }

  lemma SkipCounts<T>(x: T, rest: multiset<T>, avail: multiset<T>)
    requires x !in avail
    ensures |(multiset{x} + rest) * avail| == |rest * avail|
  {
    assert (multiset{x} + rest) * avail == rest * avail;
  }

  lemma IntersectionBound<T>(a: multiset<T>, b: multiset<T>)
    ensures |a * b| <= |a|
  {
    assert a == a * b + (a - b);
  }
}
