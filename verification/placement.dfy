/**
 * The "correctly placed" count and the solved test. The count is computed the
 * way the source computes it, through a per-row array of suit scores and an
 * argmax over it; `CorrectlyPlacedIsExact` shows what that computation amounts to.
 */
module Placement {
  import opened Wrappers
  import opened Cards
  import opened Board

  /** The card at `p` is the one the solved layout puts there: suit `SUITS[row]`
      and rank `RANKS[column]`. */
  predicate IsHome(b: Grid, p: Pos)
  {
    IsCard(b, p) && CellAt(b, p).value.suit == p.row && CellAt(b, p).value.rank == p.column
  }

  // ---------------------------------------------------------------------------
  // The per-row suit score

  /** The points the cell at column `j` of row `i` adds to the row's score:
      one if its rank is `RANKS[j]`, one more if the card before it has rank
      `RANKS[j - 1]` and the same suit; a gap adds nothing. */
  function CellScore(b: Grid, i: nat, j: nat): nat
    requires i < |b| && j < |b[i]|
  {
    match b[i][j]
    case None => 0
    case Some(card) =>
      (if RankAt(j) == Some(card.rank) then 1 else 0) +
      (if j > 0 && b[i][j - 1].Some?
          && RankAt(j - 1) == Some(b[i][j - 1].value.rank)
          && b[i][j - 1].value.suit == card.suit
       then 1 else 0)
  }

  /** The score of columns `j` and right of them in row `i`. */
  function ScoreFrom(b: Grid, i: nat, j: nat): nat
    requires i < |b|
    decreases |b[i]| - j
  {
    if j >= |b[i]| then 0 else CellScore(b, i, j) + ScoreFrom(b, i, j + 1)
  }

  /** `bestSuits[i]` after the column loop of row `i`. */
  function RowScore(b: Grid, i: nat): nat
    requires Rectangular(b) && i < |b|
  {
    ScoreFrom(b, i, 0)
  }

  /** The column indices from `j` up to `n`, in order. */
  function Columns(j: nat, n: nat): (r: seq<nat>)
    ensures forall k :: k in r <==> j <= k < n
    decreases n - j
  {
    if j >= n then [] else [j] + Columns(j + 1, n)
  }

  /** Column `j` of row `i` holds a card of rank `RANKS[j]`. */
  function RankMatchIn(b: Grid, i: nat): nat -> bool
  {
    (j: nat) => i < |b| && j < |b[i]| && b[i][j].Some? && b[i][j].value.rank == j
  }

  /** The card in column `j` of row `i` follows a card of its own suit and
      of rank `RANKS[j - 1]`. */
  function RunLinkIn(b: Grid, i: nat): nat -> bool
  {
    (j: nat) => i < |b| && 0 < j < |b[i]| && b[i][j].Some? && b[i][j - 1].Some?
         && b[i][j - 1].value.rank == j - 1 && b[i][j - 1].value.suit == b[i][j].value.suit
  }

  /** The score of columns `j` onwards counts the rank matches and the
      same-suit links after a rank match among them. */
  lemma {:induction false} ScoreFromCounts(b: Grid, i: nat, j: nat)
    requires i < |b|
    ensures ScoreFrom(b, i, j) == |Filter(Columns(j, |b[i]|), RankMatchIn(b, i))|
                                + |Filter(Columns(j, |b[i]|), RunLinkIn(b, i))|
    decreases |b[i]| - j
  {
    if j < |b[i]| {
      ScoreFromCounts(b, i, j + 1);
      var c := Columns(j, |b[i]|);
      assert c[0] == j && c[1..] == Columns(j + 1, |b[i]|);
    }
  }

  /** A row scores zero exactly when none of its cards has the rank of its
      column: a same-suit link only counts after such a card. */
  lemma RowScoreMeaning(b: Grid, i: nat)
    requires Rectangular(b) && i < |b|
    ensures RowScore(b, i) == |Filter(Columns(0, |b[i]|), RankMatchIn(b, i))|
                            + |Filter(Columns(0, |b[i]|), RunLinkIn(b, i))|
    ensures RowScore(b, i) == 0 <==> forall j :: 0 <= j < |b[i]| && b[i][j].Some? ==> b[i][j].value.rank != j
  {
    ScoreFromCounts(b, i, 0);
    var c := Columns(0, |b[i]|);
    FilterEmpty(c, RankMatchIn(b, i));
    FilterEmpty(c, RunLinkIn(b, i));
    if RowScore(b, i) == 0 {
      forall j | 0 <= j < |b[i]| && b[i][j].Some? ensures b[i][j].value.rank != j {
        assert j in c;
      }
    }
    if forall j :: 0 <= j < |b[i]| && b[i][j].Some? ==> b[i][j].value.rank != j {
      forall x | x in c ensures !RankMatchIn(b, i)(x) && !RunLinkIn(b, i)(x) {
        if 0 < x < |b[i]| && b[i][x - 1].Some? {
          assert b[i][x - 1].value.rank != x - 1;
        }
      }
    }
  }

  /** `bestSuits` for row `i`: one entry per row, all zero except entry `i`,
      the only one the column loop increments. Entry `i` counts the row's
      cards whose rank is the column's, plus the cards that follow such a
      card in its suit; it is zero exactly when no card's rank is its column's. */
  function BestSuits(b: Grid, i: nat): (r: seq<nat>)
    requires Rectangular(b) && i < |b|
    ensures |r| == |b|
    ensures r[i] == |Filter(Columns(0, |b[i]|), RankMatchIn(b, i))|
                  + |Filter(Columns(0, |b[i]|), RunLinkIn(b, i))|
    ensures r[i] == 0 <==> forall j :: 0 <= j < |b[i]| && b[i][j].Some? ==> b[i][j].value.rank != j
    ensures forall k :: 0 <= k < |r| && k != i ==> r[k] == 0
  {
    RowScoreMeaning(b, i);
    seq(|b|, k requires 0 <= k < |b| => if k == i then RowScore(b, i) else 0)
  }

  /** The reduce that picks `maxIdx`: the accumulator moves to `idx` only
      when `s[idx]` exceeds the value at the accumulator. */
  function ArgMaxFold(s: seq<nat>, idx: nat, acc: nat): (r: nat)
    requires acc < |s| && idx <= |s|
    requires forall k :: 0 <= k < idx ==> s[k] <= s[acc]
    requires forall k :: 0 <= k < acc ==> s[k] < s[acc]
    requires acc < idx || (acc == 0 && idx == 0)
    ensures r < |s|
    ensures forall k :: 0 <= k < |s| ==> s[k] <= s[r]
    ensures forall k :: 0 <= k < r ==> s[k] < s[r]
    decreases |s| - idx
  {
    if idx == |s| then acc
    else ArgMaxFold(s, idx + 1, if s[idx] > s[acc] then idx else acc)
  }

  /** `maxIdx`: the first index holding the largest value. */
  function FirstArgMax(s: seq<nat>): (r: nat)
    requires |s| > 0
    ensures r < |s|
    ensures forall k :: 0 <= k < |s| ==> s[k] <= s[r]
    ensures forall k :: 0 <= k < r ==> s[k] < s[r]
  {
    ArgMaxFold(s, 0, 0)
  }

  // ---------------------------------------------------------------------------
  // The count

  /** The cell at `p` is a card of rank `RANKS[column]` and of suit `suit`. */
  function MatchesSuit(b: Grid, suit: Option<Suit>): Pos -> bool
  {
    p => IsCard(b, p) && RankAt(p.column) == Some(CellAt(b, p).value.rank)
                     && suit == Some(CellAt(b, p).value.suit)
  }

  /** The positions of row `i` credited when the row is taken to hold `suit`. */
  function RowWellPlaced(b: Grid, i: nat, suit: Option<Suit>): seq<Pos>
    requires i < |b|
  {
    Filter(RowPositions(i, |b[i]|), MatchesSuit(b, suit))
  }

  function CorrectlyPlacedFrom(b: Grid, i: nat): seq<Pos>
    requires Rectangular(b)
    decreases |b| - i
  {
    if i >= |b| then []
    else RowWellPlaced(b, i, SuitAt(FirstArgMax(BestSuits(b, i)))) + CorrectlyPlacedFrom(b, i + 1)
  }

  /** `findCorrectlyPlacedCards`, row after row. */
  function CorrectlyPlaced(b: Grid): (r: seq<Pos>)
    requires Rectangular(b)
    ensures forall p :: p in r <==> IsHome(b, p)
  {
    CorrectlyPlacedFromIsHome(b, 0);
    CorrectlyPlacedFrom(b, 0)
  }

  /** `isSolved`: as many cards are correctly placed as the solved layout
      has cards, that is, as many cards are at home. */
  predicate IsSolved(b: Grid): (r: bool)
    requires Rectangular(b)
    ensures r <==> |Filter(AllPositions(b), IsHomeIn(b))| == RowCount(b) * ColumnCount(b) - RowCount(b)
  {
    CorrectlyPlacedFromIsHome(b, 0);
    |CorrectlyPlaced(b)| == RowCount(b) * ColumnCount(b) - RowCount(b)
  }

  // ---------------------------------------------------------------------------
  // What the count amounts to

  function IsHomeIn(b: Grid): (r: Pos -> bool)
    ensures forall p :: r(p) <==> IsHome(b, p)
  {
    p => IsHome(b, p)
  }

  /** The credited positions of row `i` are exactly its home positions. */
  lemma RowWellPlacedIsHome(b: Grid, i: nat)
    requires Rectangular(b) && i < |b|
    ensures RowWellPlaced(b, i, SuitAt(FirstArgMax(BestSuits(b, i))))
         == Filter(RowPositions(i, |b[i]|), IsHomeIn(b))
  {
    var s := BestSuits(b, i);
    var maxIdx := FirstArgMax(s);
    var suit := SuitAt(maxIdx);
    if maxIdx != i {
      assert s[maxIdx] == 0 && s[i] <= s[maxIdx];
    }
    forall p | p in RowPositions(i, |b[i]|)
      ensures MatchesSuit(b, suit)(p) == IsHomeIn(b)(p)
    {
      if IsCard(b, p) {
        var card := CellAt(b, p).value;
        if maxIdx != i {
          assert RankAt(p.column) != Some(card.rank);
        }
      }
    }
    FilterCongruent(RowPositions(i, |b[i]|), MatchesSuit(b, suit), IsHomeIn(b));
  }

  lemma {:induction false} CorrectlyPlacedFromIsHome(b: Grid, i: nat)
    requires Rectangular(b)
    ensures CorrectlyPlacedFrom(b, i) == Filter(PositionsFrom(b, i), IsHomeIn(b))
    decreases |b| - i
  {
    if i < |b| {
      CorrectlyPlacedFromIsHome(b, i + 1);
      RowWellPlacedIsHome(b, i);
      FilterConcat(RowPositions(i, |b[i]|), PositionsFrom(b, i + 1), IsHomeIn(b));
    }
  }

  /** Despite its per-row suit search, the count credits exactly the
      positions (i, j) holding the card (`SUITS[i]`, `RANKS[j]`), in row-major order. */
  lemma CorrectlyPlacedIsExact(b: Grid)
    requires Rectangular(b)
    ensures CorrectlyPlaced(b) == Filter(AllPositions(b), IsHomeIn(b))
  {
    CorrectlyPlacedFromIsHome(b, 0);
  }

  /** At most every card is correctly placed, and all of them exactly when
      the count reaches the number of cards. */
  lemma CorrectlyPlacedCount(b: Grid)
    requires Rectangular(b)
    ensures |CorrectlyPlaced(b)| <= |FilterBoard(b, IsCardCell)|
    ensures |CorrectlyPlaced(b)| == |FilterBoard(b, IsCardCell)| <==> forall p :: IsCard(b, p) ==> IsHome(b, p)
  {
    CorrectlyPlacedIsExact(b);
    var all := AllPositions(b);
    forall p | p in all && IsHomeIn(b)(p)
      ensures AtCells(b, IsCardCell)(p)
    {
    }
    FilterImplies(all, IsHomeIn(b), AtCells(b, IsCardCell));
    if forall p :: p in all && AtCells(b, IsCardCell)(p) ==> IsHomeIn(b)(p) {
      forall p | IsCard(b, p) ensures IsHome(b, p) {
        assert p in all && AtCells(b, IsCardCell)(p);
      }
    }
  }

  /** On a board with one gap per row, the solved test holds exactly when
      every card is in its home position. */
  lemma SolvedIffAllCardsHome(b: Grid)
    requires Rectangular(b) && GapCount(b) == RowCount(b)
    ensures IsSolved(b) <==> forall p :: IsCard(b, p) ==> IsHome(b, p)
  {
    CorrectlyPlacedCount(b);
    GapAndCardCounts(b);
  }
}
