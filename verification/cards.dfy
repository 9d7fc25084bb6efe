/**
 * The card domain: two fixed, totally ordered tables of suits and ranks.
 * A suit or rank is identified with its index in its table, so the table
 * lookup `SUITS[i]` yields suit `i` and a rank's cardinality is the rank itself.
 */
module Cards {
  import opened Wrappers

  /** Number of entries of the suit table (four suits of a standard deck). */
  const SUIT_COUNT: nat := 4
  /** Number of entries of the rank table (thirteen ranks of a standard deck). */
  const RANK_COUNT: nat := 13

  type Suit = s: nat | s < SUIT_COUNT
  type Rank = r: nat | r < RANK_COUNT

  datatype Card = Card(suit: Suit, rank: Rank)

  /** The rank table in its order. */
  const RANKS: seq<Rank> := [0, 1, 2, 3, 4, 5, 6, 7, 8, 9, 10, 11, 12]

  /** The highest rank, `RANKS.at(-1)`. */
  const HIGHEST_RANK: Rank := RANK_COUNT - 1

  /** A rank's index in the rank table. */
  function RankCardinality(r: Rank): nat
  {
    r
  }

  /** `SUITS[i]`: the suit at index `i`, or `None` past the end of the table. */
  function SuitAt(i: int): (r: Option<Suit>)
    ensures r.Some? <==> 0 <= i < SUIT_COUNT
    ensures r.Some? ==> r.value == i
  {
    if 0 <= i < SUIT_COUNT then Some(i as Suit) else None
  }

  /** `RANKS[j]`: the rank at index `j`, or `None` past the end of the table. */
  function RankAt(j: int): (r: Option<Rank>)
    ensures r.Some? <==> 0 <= j < |RANKS|
    ensures r.Some? ==> r.value == RANKS[j]
  {
    if 0 <= j < RANK_COUNT then Some(j as Rank) else None
  }
}
