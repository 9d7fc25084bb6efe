/**
 * Board generation: the solved layout for given dimensions, and a shuffled
 * board obtained from it by seeded card-gap swaps.
 */
module Generation {
  import opened Wrappers
  import opened Cards
  import opened Board
  import opened Placement
  import opened PseudoRandom

  /** A requested dimension: a number, or NaN. */
  datatype Dimension = Number(value: int) | NotANumber

  datatype Dimensions = Dimensions(rows: Dimension, columns: Dimension)

  datatype GenerationError =
    | DimensionNotANumber      // "dimensions must be not NaN"
    | DimensionNegative        // "dimensions must be non-negative"
    | DimensionOutOfBounds     // "specified dimensions must be in bounds of the available ranks and suits"
    | MissingCardOrGap         // a shuffle round indexes past the end of the gap or card list

  /** `RANKS.slice(0, end)`; a negative end counts from the back of the table. */
  function RankSlice(end: int): (r: seq<Rank>)
    ensures |r| == if end >= 0 then Min(end, |RANKS|) else Max(|RANKS| + end, 0)
    ensures forall j :: 0 <= j < |r| ==> r[j] == j
  {
    if end >= 0 then RANKS[..Min(end, |RANKS|)] else RANKS[..Max(|RANKS| + end, 0)]
  }

  function Min(a: int, b: int): int
  {
    if a < b then a else b
  }

  function Max(a: int, b: int): int
  {
    if a > b then a else b
  }

  /** The width of a solved row: the requested column count, except that a
      requested count of zero slices all but the last rank and gives a row as
      wide as the rank table. */
  function SolvedWidth(columns: int): nat
    requires 0 <= columns <= RANK_COUNT
  {
    if columns == 0 then RANK_COUNT else columns
  }

  /** One row of the solved layout: the suit's cards in rank order, then a gap. */
  function SolvedRow(suit: Suit, columns: int): (r: seq<Cell>)
    requires 0 <= columns <= RANK_COUNT
    ensures |r| == SolvedWidth(columns)
    ensures forall j :: 0 <= j < |r| - 1 ==> r[j] == Some(Card(suit, j))
    ensures r[|r| - 1] == None
  {
    var ranks := RankSlice(columns - 1);
    seq(|ranks|, j requires 0 <= j < |ranks| => Some(Card(suit, ranks[j]))) + [None]
  }

  predicate IsNumber(d: Dimension, lo: int, hi: int)
  {
    d.Number? && lo <= d.value <= hi
  }

  /** `generateSolvedBoard`. */
  function GenerateSolvedBoard(d: Dimensions): (r: Result<Grid, GenerationError>)
    ensures r == Failure(DimensionNotANumber) <==> d.rows.NotANumber? || d.columns.NotANumber?
    ensures r == Failure(DimensionNegative) <==>
      d.rows.Number? && d.columns.Number? && (d.rows.value < 0 || d.columns.value < 0)
    ensures r == Failure(DimensionOutOfBounds) <==>
      && d.rows.Number? && d.columns.Number? && d.rows.value >= 0 && d.columns.value >= 0
      && (d.rows.value > SUIT_COUNT || d.columns.value > |RANKS|)
    ensures r.Success? <==> IsNumber(d.rows, 0, SUIT_COUNT) && IsNumber(d.columns, 0, |RANKS|)
    ensures r.Success? ==>
      && |r.value| == d.rows.value
      && Rectangular(r.value)
      && (|r.value| > 0 ==> ColumnCount(r.value) == SolvedWidth(d.columns.value))
      && forall i :: 0 <= i < |r.value| ==> r.value[i] == SolvedRow(i, d.columns.value)
  {
    if d.rows.NotANumber? || d.columns.NotANumber? then Failure(DimensionNotANumber)
    else if d.rows.value < 0 || d.columns.value < 0 then Failure(DimensionNegative)
    else if d.rows.value > SUIT_COUNT || d.columns.value > |RANKS| then Failure(DimensionOutOfBounds)
    else
      var columns := d.columns.value;
      Success(seq(d.rows.value, i requires 0 <= i < d.rows.value => SolvedRow(i, columns)))
  }

  // ---------------------------------------------------------------------------
  // The solved layout

  lemma SolvedRowHasOneGap(suit: Suit, columns: int)
    requires 0 <= columns <= RANK_COUNT
    ensures multiset(SolvedRow(suit, columns))[None] == 1
  {
    var row := SolvedRow(suit, columns);
    var cards := row[..|row| - 1];
    assert row == cards + [None];
    assert None !in cards by {
      forall j | 0 <= j < |cards| ensures cards[j] != None {
        assert cards[j] == row[j];
      }
    }
  }

  /** A board whose every row holds exactly one gap has one gap per row. */
  lemma {:induction false} OneGapPerRow(b: Grid, i: nat)
    requires forall k :: 0 <= k < |b| ==> multiset(b[k])[None] == 1
    ensures multiset(FlattenFrom(b, i))[None] == if i >= |b| then 0 else |b| - i
    decreases |b| - i
  {
    if i < |b| {
      OneGapPerRow(b, i + 1);
      assert multiset(FlattenFrom(b, i)) == multiset(b[i]) + multiset(FlattenFrom(b, i + 1));
    }
  }

  /** The solved layout has one gap per row, every card at its home, and
      passes the solved test. */
  lemma SolvedBoardIsSolved(d: Dimensions)
    requires GenerateSolvedBoard(d).Success?
    ensures var b := GenerateSolvedBoard(d).value;
      && GapCount(b) == RowCount(b)
      && (forall p :: IsCard(b, p) ==> IsHome(b, p))
      && IsSolved(b)
  {
    var b := GenerateSolvedBoard(d).value;
    forall k | 0 <= k < |b| ensures multiset(b[k])[None] == 1 {
      SolvedRowHasOneGap(k, d.columns.value);
    }
    OneGapPerRow(b, 0);
    forall p | IsCard(b, p) ensures IsHome(b, p) {
      assert b[p.row] == SolvedRow(p.row, d.columns.value);
    }
    SolvedIffAllCardsHome(b);
  }

  /** A requested column count of zero is not rejected: the rows come out as
      wide as the rank table, with every rank but the last followed by a gap. */
  lemma ZeroColumnsGivesFullRows()
    ensures var r := GenerateSolvedBoard(Dimensions(Number(1), Number(0)));
      r.Success? && ColumnCount(r.value) == |RANKS| && r.value[0][|RANKS| - 1] == None
  {
  }

  // ---------------------------------------------------------------------------
  // Shuffling

  datatype Shuffled = Shuffled(board: Grid, rng: Generator)

  /** One round of `generateShuffledBoard`: draw a gap index, then a card
      index, and swap the picked card into the picked gap. An index outside
      its list makes the source dereference `undefined`. */
  function ShuffleRound(b: Grid, g: Generator): (r: Result<Shuffled, GenerationError>)
    ensures r.Success? ==> r.value.rng == Next(Next(g).0).0
    ensures var gaps := FilterBoard(b, IsGapCell);
            var cards := FilterBoard(b, IsCardCell);
            var gapIndex := NextInt(g, |gaps|).1;
            var cardIndex := NextInt(Next(g).0, |cards|).1;
      && (r.Success? <==> 0 <= gapIndex < |gaps| && 0 <= cardIndex < |cards|)
      && (r.Success? ==>
            && IsCard(b, cards[cardIndex]) && IsGap(b, gaps[gapIndex])
            && r.value.board == Swap(b, cards[cardIndex], gaps[gapIndex]))
    ensures g.seed >= 0 ==> (r.Success? <==> GapCount(b) > 0 && |FilterBoard(b, IsCardCell)| > 0)
  {
    var gaps := FilterBoard(b, IsGapCell);
    var cards := FilterBoard(b, IsCardCell);
    var (g1, gapIndex) := NextInt(g, |gaps|);
    var (g2, cardIndex) := NextInt(g1, |cards|);
    GapPositionsCount(b);
    if 0 <= gapIndex < |gaps| && 0 <= cardIndex < |cards| then
      assert IsCard(b, cards[cardIndex]) && IsGap(b, gaps[gapIndex]);
      Success(Shuffled(Swap(b, cards[cardIndex], gaps[gapIndex]), g2))
    else
      Failure(MissingCardOrGap)
  }

  /** `n` applications of a step that may fail, stopping at the first failure. */
  function Repeat<S, E>(step: S -> Result<S, E>, s: S, n: nat): Result<S, E>
    decreases n
  {
    if n == 0 then Success(s)
    else
      match step(s)
      case Failure(e) => Failure(e)
      case Success(t) => Repeat(step, t, n - 1)
  }

  /** `n + m` steps are `n` steps followed by `m` more from where they left off. */
  lemma {:induction false} RepeatCompose<S, E>(step: S -> Result<S, E>, s: S, n: nat, m: nat)
    ensures Repeat(step, s, n + m) ==
      match Repeat(step, s, n)
      case Failure(e) => Failure(e)
      case Success(t) => Repeat(step, t, m)
    decreases n
  {
    if n > 0 && step(s).Success? {
      RepeatCompose(step, step(s).value, n - 1, m);
      assert n + m - 1 == (n - 1) + m;
    }
  }

  /** A reflexive, transitive relation that every successful step respects
      holds between the start and the end of every successful run. */
  lemma {:induction false} RepeatRespects<S(!new), E>(step: S -> Result<S, E>, rel: (S, S) -> bool, s: S, n: nat)
    requires forall a :: rel(a, a)
    requires forall a, b, c :: rel(a, b) && rel(b, c) ==> rel(a, c)
    requires forall a :: step(a).Success? ==> rel(a, step(a).value)
    requires Repeat(step, s, n).Success?
    ensures rel(s, Repeat(step, s, n).value)
    decreases n
  {
    if n > 0 {
      var t := step(s).value;
      RepeatRespects(step, rel, t, n - 1);
    }
  }

  /** A run never fails while a condition holds under which steps succeed and
      which successful steps keep. */
  lemma {:induction false} RepeatSucceeds<S(!new), E>(step: S -> Result<S, E>, ok: S -> bool, s: S, n: nat)
    requires forall a :: ok(a) ==> step(a).Success? && ok(step(a).value)
    requires ok(s)
    ensures Repeat(step, s, n).Success?
    decreases n
  {
    if n > 0 {
      RepeatSucceeds(step, ok, step(s).value, n - 1);
    }
  }

  function Round(s: Shuffled): Result<Shuffled, GenerationError>
  {
    ShuffleRound(s.board, s.rng)
  }

  /** `n` shuffle rounds. */
  function ShuffleRounds(b: Grid, g: Generator, n: nat): Result<Shuffled, GenerationError>
  {
    Repeat(Round, Shuffled(b, g), n)
  }

  /** `generateShuffledBoard`. */
  function GenerateShuffledBoard(d: Dimensions, n: nat, seed: int): (r: Result<Grid, GenerationError>)
    ensures n == 0 ==> r == GenerateSolvedBoard(d)
    ensures GenerateSolvedBoard(d).Failure? ==> r == Failure(GenerateSolvedBoard(d).error)
    ensures r.Success? ==>
      && GenerateSolvedBoard(d).Success?
      && SameShape(r.value, GenerateSolvedBoard(d).value)
      && Cells(r.value) == Cells(GenerateSolvedBoard(d).value)
  {
    var solved :- GenerateSolvedBoard(d);
    var s :- ShuffleRounds(solved, Generator(seed), n);
    RoundsPreserve(solved, Generator(seed), n);
    Success(s.board)
  }

  // ---------------------------------------------------------------------------
  // Properties of shuffling

  /** What a round keeps: the board's shape and its multiset of cells, hence
      its gap and card counts, and the sign of the generator state. */
  predicate Conserves(a: Shuffled, c: Shuffled)
  {
    && SameShape(c.board, a.board)
    && Cells(c.board) == Cells(a.board)
    && (Rectangular(a.board) ==> Rectangular(c.board) && ColumnCount(c.board) == ColumnCount(a.board))
    && (a.rng.seed >= 0 ==> c.rng.seed >= 0)
  }

  lemma RoundConserves(b: Grid, g: Generator)
    requires ShuffleRound(b, g).Success?
    ensures Conserves(Shuffled(b, g), ShuffleRound(b, g).value)
  {
    var p := FilterBoard(b, IsCardCell)[NextInt(Next(g).0, |FilterBoard(b, IsCardCell)|).1];
    var q := FilterBoard(b, IsGapCell)[NextInt(g, |FilterBoard(b, IsGapCell)|).1];
    SwapPreservesCells(b, p, q);
  }

  /** Any number of rounds keeps the board's shape, cells and gap count. */
  lemma RoundsPreserve(b: Grid, g: Generator, n: nat)
    requires ShuffleRounds(b, g, n).Success?
    ensures var s := ShuffleRounds(b, g, n).value;
      && SameShape(s.board, b)
      && Cells(s.board) == Cells(b)
      && GapCount(s.board) == GapCount(b)
      && (Rectangular(b) ==> Rectangular(s.board) && ColumnCount(s.board) == ColumnCount(b))
      && (g.seed >= 0 ==> s.rng.seed >= 0)
  {
    forall a: Shuffled | Round(a).Success? ensures Conserves(a, Round(a).value) {
      RoundConserves(a.board, a.rng);
    }
    forall a: Shuffled, c: Shuffled, e: Shuffled | Conserves(a, c) && Conserves(c, e)
      ensures Conserves(a, e)
    {
    }
    RepeatRespects(Round, Conserves, Shuffled(b, g), n);
  }

  /** The precondition under which a round cannot fail. */
  predicate Shuffleable(s: Shuffled)
  {
    s.rng.seed >= 0 && GapCount(s.board) > 0 && |FilterBoard(s.board, IsCardCell)| > 0
  }

  /** From a non-negative seed, rounds never fail on a board with a gap and a card. */
  lemma RoundsSucceed(b: Grid, g: Generator, n: nat)
    requires g.seed >= 0
    requires GapCount(b) > 0 && |FilterBoard(b, IsCardCell)| > 0
    ensures ShuffleRounds(b, g, n).Success?
  {
    forall a: Shuffled | Shuffleable(a) ensures Round(a).Success? && Shuffleable(Round(a).value) {
      RoundConserves(a.board, a.rng);
      var c := Round(a).value;
      GapAndCardCounts(a.board);
      GapAndCardCounts(c.board);
    }
    RepeatSucceeds(Round, Shuffleable, Shuffled(b, g), n);
  }

  /** `n + m` rounds are `n` rounds followed by `m` more from where they left off. */
  lemma RoundsCompose(b: Grid, g: Generator, n: nat, m: nat)
    ensures ShuffleRounds(b, g, n + m) ==
      match ShuffleRounds(b, g, n)
      case Failure(e) => Failure(e)
      case Success(s) => ShuffleRounds(s.board, s.rng, m)
  {
    RepeatCompose(Round, Shuffled(b, g), n, m);
  }

  /** A shuffled board has the solved layout's shape, cells and gap count. */
  lemma ShuffledBoardInvariants(d: Dimensions, n: nat, seed: int)
    requires GenerateShuffledBoard(d, n, seed).Success?
    ensures GenerateSolvedBoard(d).Success?
    ensures var solved := GenerateSolvedBoard(d).value;
            var b := GenerateShuffledBoard(d, n, seed).value;
      && SameShape(b, solved)
      && Rectangular(b)
      && Cells(b) == Cells(solved)
      && GapCount(b) == RowCount(b)
  {
    var solved := GenerateSolvedBoard(d).value;
    RoundsPreserve(solved, Generator(seed), n);
    SolvedBoardIsSolved(d);
  }

  /** From a non-negative seed, at least one round succeeds exactly when the
      dimensions are valid, there is at least one row, and the rows hold a
      card besides their gap (any column count but one). */
  lemma ShuffleSucceedsIff(d: Dimensions, n: nat, seed: int)
    requires seed >= 0 && n > 0
    ensures GenerateShuffledBoard(d, n, seed).Success? <==>
      && GenerateSolvedBoard(d).Success?
      && d.rows.value >= 1
      && d.columns.value != 1
  {
    if GenerateSolvedBoard(d).Success? {
      var b := GenerateSolvedBoard(d).value;
      SolvedBoardCardCount(d);
      if |b| >= 1 && d.columns.value != 1 {
        RoundsSucceed(b, Generator(seed), n);
      } else {
        FailedRoundStops(b, Generator(seed), n);
      }
    }
  }

  /** The solved layout has one gap per row, and it holds a card exactly
      when it has a row and the rows are wider than one cell. */
  lemma SolvedBoardCardCount(d: Dimensions)
    requires GenerateSolvedBoard(d).Success?
    ensures var b := GenerateSolvedBoard(d).value;
      && GapCount(b) == |b|
      && (|FilterBoard(b, IsCardCell)| > 0 <==> |b| >= 1 && d.columns.value != 1)
  {
    var b := GenerateSolvedBoard(d).value;
    SolvedBoardIsSolved(d);
    GapAndCardCounts(b);
    var cards := |FilterBoard(b, IsCardCell)|;
    assert cards + |b| == CellCount(b);
    if |b| >= 1 {
      var w := SolvedWidth(d.columns.value);
      assert ColumnCount(b) == w;
      assert CellCount(b) == |b| * w;
      CardsBesideGaps(|b|, w, cards);
    }
  }

  /** `rows` rows of `width` cells, one of them a gap, hold a card exactly
      when the rows are wider than one cell. */
  lemma CardsBesideGaps(rows: nat, width: nat, cards: nat)
    requires rows >= 1 && width >= 1
    requires cards + rows == rows * width
    ensures cards > 0 <==> width != 1
  {
    assert cards == rows * (width - 1);
    if width > 1 {
      assert rows * (width - 1) >= 1 * 1;
    }
  }

  /** A run whose first round fails fails. */
  lemma FailedRoundStops(b: Grid, g: Generator, n: nat)
    requires n > 0 && ShuffleRound(b, g).Failure?
    ensures ShuffleRounds(b, g, n).Failure?
  {
    assert Round(Shuffled(b, g)).Failure?;
  }
}
