/**
 * The two heuristics over boards: `getScore` (higher is better, +infinity
 * when solved) and `getEstimatedDistanceToSolution` (lower is better, zero
 * when solved). Numbers are exact reals; the one infinite score is a
 * separate constructor.
 */
module Heuristics {
  import opened Wrappers
  import opened Cards
  import opened Board
  import opened Rules
  import opened Placement

  datatype Score = Infinity | Finite(value: real)

  /** The four raw terms of the score. */
  datatype Terms = Terms(correct: int, moves: int, repeated: int, dead: int)

  /** The number of cards of the solved layout, rows times columns minus one gap per row. */
  function Size(b: Grid): int
  {
    RowCount(b) * ColumnCount(b) - RowCount(b)
  }

  /** The solved layout holds `columns - 1` cards in each row. */
  lemma SizeOfLayout(b: Grid)
    ensures Size(b) == RowCount(b) * (ColumnCount(b) - 1)
  {
  }

  /** The move count, capped: any count above four counts as five. */
  function CappedMoves(n: nat): nat
  {
    if n > 4 then 5 else n
  }

  function ScoreTerms(b: Grid): Terms
    requires Rectangular(b)
  {
    Terms(
      |CorrectlyPlaced(b)|,
      CappedMoves(|PossibleMoves(b)|),
      3 - |RepeatedGaps(b)|,
      4 - |DeadGaps(b)|)
  }

  const WEIGHTS: seq<real> := [10.0, 0.0, 1.0, 2.0]

  /** Each term divided by its largest attainable value, weighted, and the
      weighted sum divided by the total weight. */
  function WeightedScore(t: Terms, size: int): real
    requires size != 0
  {
    var values := [t.correct as real / size as real, t.moves as real / 5.0,
                   t.repeated as real / 3.0, t.dead as real / 4.0];
    (values[0] * WEIGHTS[0] + values[1] * WEIGHTS[1] + values[2] * WEIGHTS[2] + values[3] * WEIGHTS[3])
      / (WEIGHTS[0] + WEIGHTS[1] + WEIGHTS[2] + WEIGHTS[3])
  }

  /** `getScore`. With normalisation on a board whose solved layout has no
      cards, the correct-count term divides a positive count by zero, which
      is +infinity in the source's arithmetic. */
  function GetScore(b: Grid, normalize: bool): (r: Score)
    requires Rectangular(b)
    ensures IsSolved(b) ==> r == Infinity
    ensures r == Infinity && !IsSolved(b) ==> normalize && Size(b) == 0 && |CorrectlyPlaced(b)| > 0
  {
    if IsSolved(b) then Infinity
    else
      var t := ScoreTerms(b);
      if !normalize then Finite((t.correct + t.moves + t.repeated + t.dead) as real)
      else if Size(b) == 0 then Infinity
      else Finite(WeightedScore(t, Size(b)))
  }

  /** `getEstimatedDistanceToSolution`. On an unsolved board with fewer than
      two rows the repeated-gap ratio divides by zero and the result is not a
      finite number; that case is `None`. */
  function EstimatedDistance(b: Grid, penalty: real): (r: Option<real>)
    requires Rectangular(b)
    ensures IsSolved(b) ==> r == Some(0.0)
    ensures r.None? <==> !IsSolved(b) && RowCount(b) < 2
  {
    if IsSolved(b) then Some(0.0)
    else if RowCount(b) < 2 then None
    else Some(Penalised(Size(b) - |CorrectlyPlaced(b)|, |DeadGaps(b)|, |RepeatedGaps(b)|, RowCount(b), penalty))
  }

  /** The distance formula: the missing cards plus the penalty times the mean
      of the dead-gap ratio (per row) and the repeated-gap ratio (per row but one). */
  function Penalised(missing: int, dead: nat, repeated: nat, rows: nat, penalty: real): real
    requires rows >= 2
  {
    var deadRatio := dead as real / rows as real;
    var repeatedRatio := repeated as real / (rows - 1) as real;
    missing as real + penalty * (0.5 * (deadRatio + repeatedRatio))
  }

  lemma PenalisedAtLeastMissing(missing: int, dead: nat, repeated: nat, rows: nat, penalty: real)
    requires rows >= 2 && penalty >= 0.0
    ensures Penalised(missing, dead, repeated, rows, penalty) >= missing as real
  {
    var deadRatio := dead as real / rows as real;
    var repeatedRatio := repeated as real / (rows - 1) as real;
    assert deadRatio >= 0.0 && repeatedRatio >= 0.0;
    var term := 0.5 * (deadRatio + repeatedRatio);
    assert penalty * term >= 0.0;
  }

  // ---------------------------------------------------------------------------
  // Properties

  /** Without normalisation the score of an unsolved board is the plain sum of
      the correct count, the move count capped at five, three minus the
      repeated gaps and four minus the dead gaps. */
  lemma UnnormalisedScore(b: Grid)
    requires Rectangular(b) && !IsSolved(b)
    ensures GetScore(b, false) == Finite((
      |CorrectlyPlaced(b)|
      + (if |PossibleMoves(b)| < 5 then |PossibleMoves(b)| else 5)
      + (3 - |RepeatedGaps(b)|)
      + (4 - |DeadGaps(b)|)) as real)
  {
  }

  /** The move-count term has weight zero: the normalised score does not
      depend on it. */
  lemma WeightedScoreIgnoresMoves(t: Terms, moves: int, size: int)
    requires size != 0
    ensures WeightedScore(t, size) == WeightedScore(t.(moves := moves), size)
  {
  }

  /** With the correct count below the size and the other terms at most their
      normalisers, the weighted score is below one. */
  lemma WeightedScoreBelowOne(t: Terms, size: int)
    requires 0 <= t.correct < size
    requires t.repeated <= 3 && t.dead <= 4
    ensures WeightedScore(t, size) < 1.0
  {
    assert t.correct as real < size as real;
    assert t.correct as real / size as real < 1.0;
  }

  /** On a board with one gap per row, the correct count is at most the size
      of the solved layout, and below it while unsolved. */
  lemma CorrectCountAtMostSize(b: Grid)
    requires Rectangular(b) && GapCount(b) == RowCount(b)
    ensures 0 <= |CorrectlyPlaced(b)| <= Size(b)
    ensures !IsSolved(b) ==> |CorrectlyPlaced(b)| < Size(b)
  {
    CorrectlyPlacedCount(b);
    GapAndCardCounts(b);
  }

  /** On an unsolved board with one gap per row and at least two columns,
      the normalised score is below one (so `1 - score` is positive). */
  lemma UnsolvedScoreBelowOne(b: Grid)
    requires Rectangular(b) && GapCount(b) == RowCount(b)
    requires ColumnCount(b) >= 2
    requires !IsSolved(b)
    ensures GetScore(b, true).Finite? && GetScore(b, true).value < 1.0
  {
    CorrectCountAtMostSize(b);
    var t := ScoreTerms(b);
    WeightedScoreBelowOne(t, Size(b));
  }

  /** Solved boards score +infinity and are at distance zero. */
  lemma SolvedConsistency(b: Grid, normalize: bool, penalty: real)
    requires Rectangular(b) && IsSolved(b)
    ensures GetScore(b, normalize) == Infinity
    ensures EstimatedDistance(b, penalty) == Some(0.0)
  {
  }

  /** With no penalty the distance is the number of cards of the solved
      layout that are not yet correctly placed. */
  lemma DistanceWithoutPenalty(b: Grid)
    requires Rectangular(b) && RowCount(b) >= 2
    ensures EstimatedDistance(b, 0.0)
         == Some((RowCount(b) * (ColumnCount(b) - 1) - |CorrectlyPlaced(b)|) as real)
  {
    var rows := RowCount(b);
    var missing := Size(b) - |CorrectlyPlaced(b)|;
    SizeOfLayout(b);
    if !IsSolved(b) {
      assert Penalised(missing, |DeadGaps(b)|, |RepeatedGaps(b)|, rows, 0.0) == missing as real;
    }
  }

  /** On a board with one gap per row and a non-negative penalty, the distance
      is zero exactly when the board is solved, and at least one otherwise. */
  lemma DistanceZeroIffSolved(b: Grid, penalty: real)
    requires Rectangular(b) && RowCount(b) >= 2 && GapCount(b) == RowCount(b)
    requires penalty >= 0.0
    ensures EstimatedDistance(b, penalty).Some?
    ensures !IsSolved(b) ==> EstimatedDistance(b, penalty).value >= 1.0
    ensures EstimatedDistance(b, penalty) == Some(0.0) <==> IsSolved(b)
  {
    if !IsSolved(b) {
      CorrectCountAtMostSize(b);
      var missing := Size(b) - |CorrectlyPlaced(b)|;
      assert missing >= 1;
      PenalisedAtLeastMissing(missing, |DeadGaps(b)|, |RepeatedGaps(b)|, RowCount(b), penalty);
    }
  }
}
