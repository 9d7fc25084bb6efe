/**
 * The Gaps board as a state space for the A* solver: the actions of a board
 * are its legal moves, applying a move swaps the moved card with the gap it
 * lands in, and a board is a goal when the solved test accepts it.
 */
module GapsSearch {
  import opened Wrappers
  import opened Cards
  import opened Board
  import opened Rules
  import opened Placement
  import opened AStar
  import opened AStarProperties

  /** `getPossibleActions`: the rules' legal moves. */
  function Actions(b: Grid): (r: seq<Move>)
    ensures forall m :: m in r <==> IsLegalMove(b, m)
  {
    PossibleMoves(b)
  }

  /** `withActionApplied`: the cells at the move's two ends trade places. */
  function Apply(b: Grid, m: Move): (r: Grid)
    ensures SameShape(r, b) && Cells(r) == Cells(b)
    ensures IsLegalMove(b, m) ==>
      && CellAt(r, m.to) == CellAt(b, m.from)
      && CellAt(r, m.from) == None
      && forall x :: InBounds(b, x) && x != m.from && x != m.to ==> CellAt(r, x) == CellAt(b, x)
  {
    if InBounds(b, m.from) && InBounds(b, m.to) then
      SwapPreservesCells(b, m.from, m.to);
      Swap(b, m.from, m.to)
    else b
  }

  /** `isSolved`, on the boards the game produces (rectangular ones). */
  predicate Solved(b: Grid)
  {
    Rectangular(b) && IsSolved(b)
  }

  /** The search problem for a heuristic and a cost function. */
  function GapsProblem(heuristic: Grid -> real, cost: Grid -> real): Problem<Grid, Move>
  {
    Problem(Actions, Apply, Solved, heuristic, cost)
  }

  /** A step the search takes is a legal move: the card lands in the gap
      and leaves a gap behind, and the board keeps its shape and cells. */
  lemma LegalStepIsMove(heuristic: Grid -> real, cost: Grid -> real, b: Grid, step: Step<Grid, Move>)
    requires Legal(GapsProblem(heuristic, cost), b, step)
    ensures IsLegalMove(b, step.action)
    ensures CellAt(step.state, step.action.to) == CellAt(b, step.action.from)
    ensures CellAt(step.state, step.action.from) == None
    ensures SameShape(step.state, b)
    ensures Rectangular(b) ==> Rectangular(step.state) && ColumnCount(step.state) == ColumnCount(b)
    ensures Cells(step.state) == Cells(b)
  {
    assert step.action in Actions(b);
    assert step.state == Apply(b, step.action);
    SwapPreservesCells(b, step.action.from, step.action.to);
  }

  /** What a move keeps: shape, cells, and rectangularity with the column count. */
  predicate Kept(a: Grid, c: Grid)
  {
    && SameShape(c, a)
    && Cells(c) == Cells(a)
    && (Rectangular(a) ==> Rectangular(c) && ColumnCount(c) == ColumnCount(a))
  }

  lemma KeptAlongPath(heuristic: Grid -> real, cost: Grid -> real, b: Grid, path: seq<Step<Grid, Move>>)
    requires Follows(GapsProblem(heuristic, cost), b, path)
    ensures forall i :: 0 <= i <= |path| ==> Kept(b, StateBefore(b, path, i))
  {
    var p := GapsProblem(heuristic, cost);
    forall x, step | Kept(b, x) && Legal(p, x, step) ensures Kept(b, step.state) {
      LegalStepIsMove(heuristic, cost, x, step);
      var y := step.state;
      assert SameShape(y, b) by {
        forall i | 0 <= i < |y| ensures |y[i]| == |b[i]| {
          assert |y[i]| == |x[i]|;
        }
      }
    }
    forall i | 0 <= i <= |path| ensures Kept(b, StateBefore(b, path, i)) {
      FollowsKeeps(p, y => Kept(b, y), b, path, i);
    }
  }

  /** A path that follows the rules from a rectangular board is a play of
      the game: each step is a legal move, which moves a card into a gap and
      leaves a gap behind, and every board keeps the start's shape, cards and
      gap count. */
  lemma PathIsPlay(heuristic: Grid -> real, cost: Grid -> real, b: Grid, path: seq<Step<Grid, Move>>)
    requires Rectangular(b)
    requires Follows(GapsProblem(heuristic, cost), b, path)
    ensures forall i :: 0 <= i < |path| ==>
      && IsLegalMove(StateBefore(b, path, i), path[i].action)
      && CellAt(path[i].state, path[i].action.to) == CellAt(StateBefore(b, path, i), path[i].action.from)
      && CellAt(path[i].state, path[i].action.from) == None
      && Rectangular(path[i].state) && SameShape(path[i].state, b)
      && Cells(path[i].state) == Cells(b) && GapCount(path[i].state) == GapCount(b)
  {
    var p := GapsProblem(heuristic, cost);
    KeptAlongPath(heuristic, cost, b, path);
    forall i | 0 <= i < |path|
      ensures && IsLegalMove(StateBefore(b, path, i), path[i].action)
              && CellAt(path[i].state, path[i].action.to) == CellAt(StateBefore(b, path, i), path[i].action.from)
              && CellAt(path[i].state, path[i].action.from) == None
              && Rectangular(path[i].state) && SameShape(path[i].state, b)
              && Cells(path[i].state) == Cells(b) && GapCount(path[i].state) == GapCount(b)
    {
      assert Legal(p, StateBefore(b, path, i), path[i]);
      LegalStepIsMove(heuristic, cost, StateBefore(b, path, i), path[i]);
      assert Kept(b, StateBefore(b, path, i + 1));
    }
  }

  /** Every path the solver returns from a rectangular board is a play of the
      game (as in `PathIsPlay`), and one returned because a solved node was
      popped ends in a solved board. */
  lemma SolverPathIsPlay(heuristic: Grid -> real, cost: Grid -> real, b: Grid, fuel: nat)
    requires Rectangular(b)
    requires FindPath(GapsProblem(heuristic, cost), b, fuel).Some?
    ensures var path := FindPath(GapsProblem(heuristic, cost), b, fuel).value;
      && Follows(GapsProblem(heuristic, cost), b, path)
      && (forall i :: 0 <= i < |path| ==> IsLegalMove(StateBefore(b, path, i), path[i].action))
      && (Loop(GapsProblem(heuristic, cost), Start(GapsProblem(heuristic, cost), b), fuel).Solved? ==>
            Solved(StateBefore(b, path, |path|)))
  {
    var p := GapsProblem(heuristic, cost);
    FindPathSound(p, b, fuel);
    var path := FindPath(p, b, fuel).value;
    PathIsPlay(heuristic, cost, b, path);
  }
}
