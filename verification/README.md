# Gaps solitaire: rules, generator and A* solver

This project models the logic core of a gaps ("Montana") solitaire game and
proves properties of it. The parts are:

- **the rules engine** — gaps, repeated and dead gaps, legal moves, the
  correctly placed cards, `isSolved`, and the two heuristics `getScore` and
  `getEstimatedDistanceToSolution`;
- **the seeded linear congruential generator** — `next`, `nextInt`,
  `nextFloat`, `nextBoolean`, `nextIntRange`;
- **board generation** — the solved layout with its error cases, and the
  shuffle by seeded card/gap swaps;
- **the generic A\* search** — open list, closed set, best-node fallback and
  parent-chain path reconstruction;
- **the adapter** that runs the A\* search on gaps boards.

A board is a `seq<seq<Option<Card>>>`; `None` is a gap. A card is a pair of
indices into the fixed suit table (4 entries) and rank table (13 entries), so
`SUITS[i]` is suit `i` and a rank's cardinality is the rank itself. Boards are
immutable, and every operation is a pure function.

Files and modules:

| file | module | contents |
|---|---|---|
| `wrappers.dfy` | `Wrappers` | `Option` and `Result` |
| `cards.dfy` | `Cards` | suits, ranks, cards, table lookups |
| `board.dfy` | `Board` | grids, positions, `filterBoard`, cell multisets, swapping |
| `rules.dfy` | `Rules` | gaps, gap classification, legal moves |
| `placement.dfy` | `Placement` | `findCorrectlyPlacedCards` as written, `isSolved` |
| `heuristics.dfy` | `Heuristics` | `getScore`, `getEstimatedDistanceToSolution` |
| `pseudo_random.dfy` | `PseudoRandom` | the generator |
| `generation.dfy` | `Generation` | solved and shuffled boards |
| `astar.dfy` | `AStar`, `AStarProperties` | the search and its invariants |
| `gaps_search.dfy` | `GapsSearch` | the search instantiated on boards |

## How some of the source's behaviour is modelled

- **Throwing and non-finite results become data.** Thrown errors become
  `Result.Failure`. A `TypeError` from indexing past the end of an array
  also becomes `Failure(MissingCardOrGap)`. A score of `Infinity` is its own
  constructor. A non-finite distance is `None`.
- **The A\* search uses fuel.** The wall-clock deadline is replaced by a
  budget on the number of iterations. The search state is an append-only
  arena of nodes: parents, the open list and the best node are indices
  into it. The closed set is a set of states, with the hash taken as the
  identity.
- **The open-list sort is insertion sort.** The source sorts the open list
  by `f` with the stable built-in sort and then shifts off the head. The
  model uses an insertion sort, and `SortByF`'s contract states that it is stable. The lemma
  `SortHeadIsFirstMin` proves that the head is the earliest entry of
  minimal `f`.
- **The correctly placed cards are modelled as written.** The source
  builds a `bestSuits` array that is only ever incremented at the row's own
  index, reduces it to an arg-max, and filters the row by `SUITS[maxIdx]`.
  The lemma `Placement.CorrectlyPlacedIsExact` shows that the result is
  exactly the positions `(i, j)` that hold suit `i` and rank `j`.

## Model

| member | source | states |
|---|---|---|
| Board.FilterBoard | src/logic/generation.ts:27-28 | the positions whose cell satisfies the predicate, each exactly once, in row-major order |
| Board.GapAndCardCounts | src/logic/generation.ts:27-28 | the gap positions number the gaps of the board, gap and card positions together number every cell, and a rectangular board has rows × columns cells |
| Board.Swap | src/logic/generation.ts:37 | the two cells trade contents, every other cell and the board's shape stay unchanged |
| Board.SwapPreservesCells | src/logic/generation.ts:37 | a swap keeps the multiset of cells, the gap count, rectangularity and the column count |
| Rules.FindGaps | src/logic/rules.ts:6-12 | exactly the gap positions, in row-major order, as many as the board has gaps |
| Rules.RepeatedGaps | src/logic/rules.ts:14-26 | exactly the gaps outside the first column whose left neighbour is a gap, in row-major order |
| Rules.DeadGaps | src/logic/rules.ts:33-47 | exactly the gaps outside the first and last columns whose left neighbour is a card of the last rank, in row-major order |
| Rules.CandidateGapsFor | src/logic/rules.ts:49-79 | the gaps a position may move to are exactly those that make a legal move from it; a gap position has none |
| Rules.MovesFor | src/logic/rules.ts:270-273 | the moves of one card are exactly the legal moves from its position, ordered by target gap |
| Rules.PossibleMoves | src/logic/rules.ts:262-277 | exactly the legal moves, ordered by the moved card's position and then by the gap's position |
| Rules.FirstColumnGapAcceptsEveryCard | src/logic/rules.ts:62-65 | a gap in the first column is a destination for every card |
| Rules.GapAcceptsOnlySuccessor | src/logic/rules.ts:67-77 | a gap outside the first column accepts a card iff its left neighbour is a card of the same suit and the preceding rank |
| Rules.RepeatedGapIsNeverFilled | src/logic/rules.ts:69-72 | no legal move targets a repeated gap |
| Rules.HighestRankIsNeverSucceeded | src/logic/rules.ts:74-77 | no legal move targets a gap after a card of the highest rank, so none targets a dead gap |
| Placement.BestSuits | src/logic/rules.ts:90-111 | the per-row tally has one entry per row and is zero except at the row's own index; that entry counts the row's cards whose rank is their column's, plus the cards that follow such a card in its suit; it is zero iff no card of the row has its column's rank |
| Placement.FirstArgMax | src/logic/rules.ts:113-118 | the reduce returns the first index of a maximal entry |
| Placement.RowWellPlacedIsHome | src/logic/rules.ts:120-130 | the filtered row, whatever the tally chose, is exactly the row's positions holding suit `i` and rank `j` |
| Placement.CorrectlyPlaced | src/logic/rules.ts:85-136 | a position is in the list iff it holds the card (`SUITS[i]`, `RANKS[j]`) of its home position |
| Placement.CorrectlyPlacedIsExact | src/logic/rules.ts:85-136 | the "approximate" list is exactly the positions `(i, j)` holding `(SUITS[i], RANKS[j])`, in row-major order |
| Placement.CorrectlyPlacedCount | src/logic/rules.ts:85-136 | at most as many correctly placed positions as cards, with equality iff every card is home |
| Placement.IsSolved | src/logic/rules.ts:181-183 | `isSolved` holds iff the number of cards at their home positions is rows × columns − rows |
| Placement.SolvedIffAllCardsHome | src/logic/rules.ts:181-183 | on a board with one gap per row, `isSolved` holds iff every card sits at its home position |
| Heuristics.GetScore | src/logic/rules.ts:185-227 | a solved board scores +infinity; an unsolved board does so only when normalising a positive count by a zero size |
| Heuristics.UnnormalisedScore | src/logic/rules.ts:190-206 | unnormalised, an unsolved board scores correct + min(moves, 5) + (3 − repeated) + (4 − dead) |
| Heuristics.WeightedScoreIgnoresMoves | src/logic/rules.ts:218-227 | the move-count term has weight zero, so the normalised score does not depend on it |
| Heuristics.WeightedScoreBelowOne | src/logic/rules.ts:208-227 | with the correct count below the size and the gap terms within their normalisers, the weighted score is below one |
| Heuristics.CorrectCountAtMostSize | src/logic/rules.ts:181-190 | with one gap per row, the correct count is between zero and the size, and below the size while unsolved |
| Heuristics.UnsolvedScoreBelowOne | src/logic/rules.ts:185-227 | an unsolved board with one gap per row and at least two columns has a finite normalised score below one |
| Heuristics.EstimatedDistance | src/logic/rules.ts:248-260 | a solved board is at distance zero; the distance is not finite exactly on unsolved boards with fewer than two rows |
| Heuristics.SolvedConsistency | src/logic/rules.ts:185-251 | a solved board has score +infinity under both modes and distance zero under any penalty |
| Heuristics.DistanceWithoutPenalty | src/logic/rules.ts:253-259 | with penalty zero the distance is rows × (columns − 1) minus the correct count |
| Heuristics.DistanceZeroIffSolved | src/logic/rules.ts:248-260 | with one gap per row, two or more rows and a non-negative penalty, the distance is zero iff solved and at least one otherwise |
| PseudoRandom.TruncRem | src/logic/pseudo-random.ts:9 | the source's remainder: it lies in [0, m) for a non-negative dividend and in (−m, 0] for a negative one |
| PseudoRandom.TruncRemCongruent | src/logic/pseudo-random.ts:9 | the remainder differs from its dividend by a multiple of the modulus |
| PseudoRandom.Next | src/logic/pseudo-random.ts:8-11 | the new state is congruent to s·9301 + 49297 modulo 233280 and lies in [0, 233280) for a non-negative seed; the draw is the new state over 233280 and lies in [0, 1) |
| PseudoRandom.NextInt | src/logic/pseudo-random.ts:13-15 | advances once; the result is the floor of the draw times `max`, so it lies in [0, max) for a non-negative seed and positive `max` |
| PseudoRandom.NextFloat | src/logic/pseudo-random.ts:17-19 | advances once; the result is the new state over 233280, in [0, 1) for a non-negative seed |
| PseudoRandom.NextBoolean | src/logic/pseudo-random.ts:21-23 | advances once; true iff the new state is at least 116640 |
| PseudoRandom.NextIntRange | src/logic/pseudo-random.ts:25-27 | advances once; the result is `min` plus the floor of the draw times `max − min`, so it lies in [min, max) for a non-negative seed and min < max |
| PseudoRandom.DrawsAdvanceOnce | src/logic/pseudo-random.ts:8-11 | after n draws the state has advanced exactly n times, and the k-th draw is the (k+1)-th state over 233280 |
| PseudoRandom.DrawsSplit | src/logic/pseudo-random.ts:8-11 | n + m draws are n draws followed by m draws from the state they leave, so the output depends only on the seed |
| PseudoRandom.DrawsInRange | src/logic/pseudo-random.ts:8-11 | from a non-negative seed every draw lies in [0, 1) and every later state lies in [0, 233280) |
| PseudoRandom.SeedFortyTwo | src/logic/pseudo-random.ts:8-15 | from the default seed 42, the first three `nextInt(10)` draws are 8, 8 and 9 |
| Generation.RankSlice | src/logic/generation.ts:15 | `RANKS.slice(0, end)`, where a negative end counts from the back: its length, with rank `j` at index `j` |
| Generation.SolvedRow | src/logic/generation.ts:13-18 | a row of the solved layout: its width, suit `i` with rank `j` at column `j`, and a gap in the last column |
| Generation.GenerateSolvedBoard | src/logic/generation.ts:5-19 | each error occurs exactly under its condition, checked in order; success iff 0 ≤ rows ≤ 4 and 0 ≤ columns ≤ 13, giving `rows` rectangular solved rows |
| Generation.SolvedBoardIsSolved | src/logic/generation.ts:13-18 | the solved layout has one gap per row, every card at home, and `isSolved` holds |
| Generation.ZeroColumnsGivesFullRows | src/logic/generation.ts:15 | zero columns is accepted: `slice(0, -1)` makes a row thirteen cells wide, with its gap in the last column |
| Generation.ShuffleRound | src/logic/generation.ts:27-37 | the round draws the gap index `nextInt(#gaps)` first and the card index `nextInt(#cards)` from the advanced generator second; it succeeds iff both indices are in range, and then swaps the card at the card index with the gap at the gap index, leaving the generator two steps on; from a non-negative seed it succeeds iff the board has a gap and a card |
| Generation.RoundConserves | src/logic/generation.ts:37 | one round keeps the board's shape, its multiset of cells, rectangularity and the column count, and keeps a non-negative seed non-negative |
| Generation.RoundsPreserve | src/logic/generation.ts:26-38 | n rounds keep the board's shape, its multiset of cells, its gap count, rectangularity and the column count |
| Generation.RoundsSucceed | src/logic/generation.ts:26-38 | from a non-negative seed, any number of rounds succeeds on a board with a gap and a card |
| Generation.RoundsCompose | src/logic/generation.ts:26-38 | n + m rounds are n rounds followed by m rounds from the board and generator they leave |
| Generation.FailedRoundStops | src/logic/generation.ts:29-32 | a round that throws ends the shuffle with that error |
| Generation.GenerateShuffledBoard | src/logic/generation.ts:21-41 | with n = 0 the result is the solved board, errors included, for every seed; a solved-board error is passed on; a shuffled board has the solved board's shape and multiset of cells |
| Generation.SolvedBoardCardCount | src/logic/generation.ts:13-18 | the solved layout has one gap per row, and it has a card iff there is a row and the column count is not one |
| Generation.ShuffledBoardInvariants | src/logic/generation.ts:21-41 | a shuffled board has the solved layout's shape and multiset of cells, and one gap per row |
| Generation.ShuffleSucceedsIff | src/logic/generation.ts:21-41 | from a non-negative seed and n > 0 the shuffle succeeds iff the dimensions are valid, rows ≥ 1 and columns ≠ 1 |
| AStar.Start | src/logic/solver/astar.ts:48-54 | the constructor's search holds only the root, which is open, with the initial state, no parent, depth 0, g = 0 and h = f = heuristic(initial); nothing is closed and there is no best node |
| AStar.MakeNode | src/logic/solver/astar.ts:23-31 | a node's f is g + h |
| AStar.SortByF | src/logic/solver/astar.ts:80 | the sorted open list is a permutation of the open list, ordered by f, and stable: for every f value, the entries with that f keep their order |
| AStar.FirstMin | src/logic/solver/astar.ts:80-82 | the earliest open entry of minimal f |
| AStar.SortHeadIsFirstMin | src/logic/solver/astar.ts:80-82 | sorting and shifting removes the earliest open entry of minimal f |
| AStar.ExpandOne | src/logic/solver/astar.ts:94-122 | a child whose state is closed changes nothing; otherwise it is appended to the nodes, and it joins the open list iff no open node has its state with g ≤ the child's g |
| AStar.Expand | src/logic/solver/astar.ts:93-122 | expansion keeps the search well formed, leaves the closed set alone and only appends nodes |
| AStar.Iterate | src/logic/solver/astar.ts:78-122 | an iteration pops an open node; a solved one is returned with nothing changed, otherwise its state is closed; the closed set only grows |
| AStar.Loop | src/logic/solver/astar.ts:78-123 | the search stays well formed, and a solved outcome names a node whose state is solved |
| AStar.FindPath | src/logic/solver/astar.ts:73-133 | with no budget the result is null, even when the initial state is solved; when a solved node is popped a path is returned, and a non-empty one ends in a solved state |
| AStar.ReconstructPath | src/logic/solver/astar.ts:61-71 | the path is empty iff the node is the root, and otherwise ends with the node's action and state |
| AStarProperties.StartInv | src/logic/solver/astar.ts:48-54 | the initial search satisfies the invariant: its only node is the root, with g = 0, h = heuristic(initial) and depth 0, and there is no best node yet |
| AStarProperties.ExpandOneInv | src/logic/solver/astar.ts:105-121 | each new node is a child with depth + 1, g + cost and f = g + h; the best node is the first child of minimal f |
| AStarProperties.IterateInv | src/logic/solver/astar.ts:78-122 | an iteration preserves the invariant |
| AStarProperties.LoopInv | src/logic/solver/astar.ts:78-123 | the whole loop preserves the invariant |
| AStarProperties.IterateExtractsFirstMin | src/logic/solver/astar.ts:80-90 | the popped node is the earliest open node of minimal f; the iteration finds iff it is solved, and closes its state otherwise |
| AStarProperties.ExpandSkipsClosed | src/logic/solver/astar.ts:96-121 | no node created by an expansion has a closed state, and the open list only gains new nodes at its end |
| AStarProperties.PathFacts | src/logic/solver/astar.ts:61-71 | a reconstructed path has the node's depth as length, each step applies its action to the previous state, and it ends at the node's state |
| AStarProperties.SolvedStartGivesEmptyPath | src/logic/solver/astar.ts:85-87 | with a budget, a solved initial state yields the empty path |
| AStarProperties.FindPathSound | src/logic/solver/astar.ts:73-133 | any returned path is a legal sequence of actions from the initial state, and a solved outcome's path ends in a solved state |
| AStarProperties.FindPathFallback | src/logic/solver/astar.ts:111-132 | when nothing solved was popped, the result is null iff no child was ever created, and otherwise the path to the first child of minimal f |
| AStarProperties.ZeroCostIsGreedy | src/logic/solver/astar.ts:48-108 | with the default zero cost every node has g = 0 and f = h |
| GapsSearch.Actions | src/ui/pane/game/astar-game.tsx:34-36 | a board's actions are exactly its legal moves |
| GapsSearch.Apply | src/ui/pane/game/astar-game.tsx:38-40 | applying a move keeps the shape and the multiset of cells; a legal move puts the card in the gap and leaves a gap behind, changing nothing else |
| GapsSearch.LegalStepIsMove | src/ui/pane/game/astar-game.tsx:34-40 | a search step is a legal move whose result is the board with that card moved into the gap; the shape and cells are kept, and a rectangular board stays rectangular |
| GapsSearch.PathIsPlay | src/ui/pane/game/astar-game.tsx:21-58 | every step of a path is a legal move, and the shape, the multiset of cells and the gap count are kept along it |
| GapsSearch.SolverPathIsPlay | src/ui/pane/game/astar-game.tsx:21-58 | a path returned by the solver is a legal play from the initial board, and a solved outcome ends on a rectangular solved board |

## Left out

- The Monte Carlo tree search (`src/logic/solver/mcts.ts`) is not part of this model. It uses floating-point logarithms and square roots, and it calls generator methods that the generator does not define.
- The React user interface, the configuration dispatcher, the entry point and the headless batch driver are not part of this model. They only do I/O and rendering.
- The wall-clock deadline of `findPath` is replaced by an iteration budget (`fuel`). Which iteration the clock would stop at is outside the model.
- Numbers are exact rationals and unbounded integers, not IEEE doubles.
  - Rounding is not modelled.
  - Seeds whose products exceed 2^53 lose precision in the source but not here.
  - Non-integer seeds, dimensions and round counts are not representable.
  - A negative round count is not representable either; it behaves like zero in the source.
- Infinite `f` values and the NaN heuristic are not modelled. The search takes the heuristic as a real-valued function, so the NaN it would receive from the distance heuristic on one-row boards is out of scope.
- `cards.ts` and `board.ts` are not part of this model. The model makes these assumptions about them:
  - `SUITS` and `RANKS` are the index tables described above.
  - `getColumnCount` is the length of the first row.
  - `filterBoard` enumerates positions in row-major order.
  - `boardsEqual` is board equality, and `getSeedOfBoard` is an injective hash, which the closed set models as the board itself.
- The in-place `swapCardsAt` is modelled as the pure `Board.Swap`.
- The state interface (`./state`) and the live gaps adapter are not part of this model. The adapter follows the shape of `BoardNode` in `src/ui/pane/game/astar-game.tsx`, and it takes the heuristic and the cost as parameters.
- GapsSearch.Solved: a non-rectangular board counts as unsolved. On a board whose rows are shorter than the first one, the source's `findCorrectlyPlacedCards` reads past the end of a row and throws (`src/logic/rules.ts:92-96`). The game only produces rectangular boards: `Generation.ShuffledBoardInvariants` and `GapsSearch.PathIsPlay` show that generation and moves keep them rectangular.
- GapsSearch.Apply: an out-of-bounds move leaves the board unchanged, where the source would write `undefined` into the board. The search only applies legal moves, which are always in bounds.
- The commented-out alternatives in `src/logic/rules.ts` are not modelled.
- Default arguments are not modelled. Every call passes all arguments. The defaults are:
  - `generateShuffledBoard`'s `n = 100` and `seed = 42` (`src/logic/generation.ts:21`);
  - `getScore`'s `normalize = true` (`src/logic/rules.ts:185`);
  - `getEstimatedDistanceToSolution`'s `penalty = 0` (`src/logic/rules.ts:248`).
  The headless driver calls `generateShuffledBoard({ rows, columns }, generationSeed + i)` (`src/headless.ts:33`). That call passes the intended seed as the round count, so every board there is shuffled from seed 42. The driver is not part of this model.
- `Node.depth`'s default of 1 is not modelled. Every node the search creates passes an explicit depth.
- AStar.Expand: its contract states only well-formedness, the closed set and the node prefix. Its per-child behaviour is stated by `AStar.ExpandOne`, and its effect on the invariant by `AStarProperties.ExpandOneInv`.
