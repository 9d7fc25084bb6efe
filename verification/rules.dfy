/**
 * The rules of gaps solitaire: where the gaps are, which gaps are repeated
 * or dead, and which card may move into which gap.
 */
module Rules {
  import opened Wrappers
  import opened Cards
  import opened Board

  /** `findGaps`: the positions of all gaps, in row-major order. */
  function FindGaps(b: Grid): (r: seq<Pos>)
    ensures forall p :: p in r <==> IsGap(b, p)
    ensures RowMajorSorted(r)
    ensures |r| == GapCount(b)
  {
    GapPositionsCount(b);
    FilterBoard(b, IsGapCell)
  }

  /** A gap at `p` directly follows another gap in its row. */
  predicate FollowsGap(b: Grid, p: Pos)
  {
    p.column > 0 && IsGap(b, LeftOf(p))
  }

  /** A gap at `p` is not the row's last cell and directly follows a card of
      the highest rank, which no card succeeds. */
  predicate FollowsHighestRank(b: Grid, p: Pos)
  {
    && p.column > 0
    && p.column != ColumnCount(b) - 1
    && IsCard(b, LeftOf(p))
    && CellAt(b, LeftOf(p)).value.rank == HIGHEST_RANK
  }

  /** `getRepeatedGaps`: the gaps whose left neighbour is a gap. */
  function RepeatedGaps(b: Grid): (r: seq<Pos>)
    ensures forall p :: p in r <==> IsGap(b, p) && p.column > 0 && IsGap(b, LeftOf(p))
    ensures RowMajorSorted(r)
  {
    FilterSorted(FindGaps(b), p => FollowsGap(b, p));
    Filter(FindGaps(b), p => FollowsGap(b, p))
  }

  /** `getDeadGaps`: the gaps outside the first and last column whose left
      neighbour is a card of the highest rank. */
  function DeadGaps(b: Grid): (r: seq<Pos>)
    ensures forall p :: p in r <==>
      && IsGap(b, p)
      && 0 < p.column
      && p.column != ColumnCount(b) - 1
      && IsCard(b, LeftOf(p))
      && CellAt(b, LeftOf(p)).value.rank == RANKS[|RANKS| - 1]
    ensures RowMajorSorted(r)
  {
    FilterSorted(FindGaps(b), p => FollowsHighestRank(b, p));
    Filter(FindGaps(b), p => FollowsHighestRank(b, p))
  }

  /** The gap at `g` accepts `card`: it is in the first column, or its left
      neighbour is a card of the same suit whose rank is the card's
      immediate predecessor. */
  predicate Accepts(b: Grid, card: Card, g: Pos)
  {
    g.column == 0 ||
    (&& IsCard(b, LeftOf(g))
     && RankCardinality(CellAt(b, LeftOf(g)).value.rank) + 1 == RankCardinality(card.rank)
     && CellAt(b, LeftOf(g)).value.suit == card.suit)
  }

  /** A legal move: a card moves into a gap that accepts it. */
  predicate IsLegalMove(b: Grid, m: Move)
  {
    IsCard(b, m.from) && IsGap(b, m.to) && Accepts(b, CellAt(b, m.from).value, m.to)
  }

  /** `findCandidateGapsFor`: the gaps the cell at `p` may move into, none if it is a gap. */
  function CandidateGapsFor(b: Grid, p: Pos): (r: seq<Pos>)
    requires InBounds(b, p)
    ensures forall g :: g in r <==> IsLegalMove(b, Move(p, g))
    ensures RowMajorSorted(r)
  {
    match CellAt(b, p)
    case None => []
    case Some(card) =>
      FilterSorted(FindGaps(b), g => Accepts(b, card, g));
      Filter(FindGaps(b), g => Accepts(b, card, g))
  }

  /** Moves ordered first by their card's position, then by their gap's position. */
  predicate MoveBefore(m: Move, n: Move)
  {
    Before(m.from, n.from) || (m.from == n.from && Before(m.to, n.to))
  }

  predicate MovesSorted(s: seq<Move>)
  {
    forall i, j :: 0 <= i < j < |s| ==> MoveBefore(s[i], s[j])
  }

  /** The moves from `p` into each of `gaps`, in order. */
  function MovesTo(p: Pos, gaps: seq<Pos>): (r: seq<Move>)
    ensures |r| == |gaps|
    ensures forall k :: 0 <= k < |gaps| ==> r[k] == Move(p, gaps[k])
    ensures forall m :: m in r <==> m.from == p && m.to in gaps
  {
    if gaps == [] then [] else [Move(p, gaps[0])] + MovesTo(p, gaps[1..])
  }

  /** The moves of the card at `p`, in the order of its candidate gaps. */
  function MovesFor(b: Grid, p: Pos): (r: seq<Move>)
    requires InBounds(b, p)
    ensures forall m :: m in r <==> m.from == p && IsLegalMove(b, m)
    ensures MovesSorted(r)
  {
    MovesTo(p, CandidateGapsFor(b, p))
  }

  /** The moves of the cards at `ps`, card by card. */
  function MovesOf(b: Grid, ps: seq<Pos>): (r: seq<Move>)
    requires forall p :: p in ps ==> InBounds(b, p)
    ensures forall m :: m in r <==> m.from in ps && IsLegalMove(b, m)
  {
    if |ps| == 0 then [] else MovesFor(b, ps[0]) + MovesOf(b, ps[1..])
  }

  lemma MovesSortedConcat(s: seq<Move>, t: seq<Move>)
    requires MovesSorted(s) && MovesSorted(t)
    requires forall m, n :: m in s && n in t ==> MoveBefore(m, n)
    ensures MovesSorted(s + t)
  {
    forall i, j | 0 <= i < j < |s + t|
      ensures MoveBefore((s + t)[i], (s + t)[j])
    {
      if j < |s| {
      } else if i >= |s| {
        assert (s + t)[i] == t[i - |s|] && (s + t)[j] == t[j - |s|];
      } else {
        assert (s + t)[i] in s && (s + t)[j] in t;
      }
    }
  }

  lemma {:induction false} MovesOfSorted(b: Grid, ps: seq<Pos>)
    requires forall p :: p in ps ==> InBounds(b, p)
    requires RowMajorSorted(ps)
    ensures MovesSorted(MovesOf(b, ps))
  {
    if |ps| > 0 {
      MovesOfSorted(b, ps[1..]);
      HeadBeforeRest(ps);
      var head, rest := MovesFor(b, ps[0]), MovesOf(b, ps[1..]);
      assert forall m, n :: m in head && n in rest ==> m.from == ps[0] && n.from in ps[1..];
      MovesSortedConcat(head, rest);
    }
  }

  lemma HeadBeforeRest(ps: seq<Pos>)
    requires |ps| > 0 && RowMajorSorted(ps)
    ensures forall q :: q in ps[1..] ==> Before(ps[0], q)
  {
    forall q | q in ps[1..] ensures Before(ps[0], q) {
      var j :| 0 <= j < |ps[1..]| && ps[1..][j] == q;
      assert ps[1 + j] == q;
    }
  }

  /** `getPossibleMoves`: every legal move, enumerated card by card in
      row-major order and, for one card, gap by gap in row-major order. */
  function PossibleMoves(b: Grid): (r: seq<Move>)
    ensures forall m :: m in r <==> IsLegalMove(b, m)
    ensures MovesSorted(r)
  {
    MovesOfSorted(b, AllPositions(b));
    MovesOf(b, AllPositions(b))
  }

  // ---------------------------------------------------------------------------
  // Consequences for particular gaps

  /** A gap in the first column accepts every card of the board. */
  lemma FirstColumnGapAcceptsEveryCard(b: Grid, p: Pos, g: Pos)
    requires IsCard(b, p) && IsGap(b, g) && g.column == 0
    ensures Move(p, g) in PossibleMoves(b)
  {
  }

  /** A gap elsewhere accepts exactly the card of its left neighbour's suit
      and the next rank, and nothing when its left neighbour is a gap. */
  lemma GapAcceptsOnlySuccessor(b: Grid, m: Move)
    requires IsGap(b, m.to) && m.to.column > 0
    ensures m in PossibleMoves(b) <==>
      && IsCard(b, m.from)
      && IsCard(b, LeftOf(m.to))
      && CellAt(b, m.from).value.suit == CellAt(b, LeftOf(m.to)).value.suit
      && CellAt(b, m.from).value.rank == CellAt(b, LeftOf(m.to)).value.rank + 1
  {
  }

  /** No move fills a gap that follows a gap. */
  lemma RepeatedGapIsNeverFilled(b: Grid, g: Pos)
    requires g in RepeatedGaps(b)
    ensures forall m :: m in PossibleMoves(b) ==> m.to != g
  {
  }

  /** No move fills a gap that follows a card of the highest rank; in
      particular no move fills a dead gap. */
  lemma HighestRankIsNeverSucceeded(b: Grid, m: Move)
    requires m in PossibleMoves(b) && m.to.column > 0
    ensures CellAt(b, LeftOf(m.to)).value.rank != HIGHEST_RANK
    ensures m.to !in DeadGaps(b)
  {
    var card := CellAt(b, m.from).value;
    assert card.rank < RANK_COUNT;
  }
}
