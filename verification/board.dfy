/**
 * The board: a grid of cells, each holding a card or a gap, addressed by
 * zero-based (row, column) positions; row-major enumeration of positions,
 * filtering, and the cell swap that every move performs.
 */
module Board {
  import opened Wrappers
  import opened Cards

  /** A cell holds a card or is a gap (`null` in the source). */
  type Cell = Option<Card>
  type Grid = seq<seq<Cell>>

  datatype Pos = Pos(row: nat, column: nat)

  /** A move takes the card at `from` into the gap at `to`. */
  datatype Move = Move(from: Pos, to: Pos)

  function RowCount(b: Grid): nat
  {
    |b|
  }

  /** The column count of a board is the length of its first row. */
  function ColumnCount(b: Grid): nat
  {
    if |b| == 0 then 0 else |b[0]|
  }

  /** Every row has the same length. */
  predicate Rectangular(b: Grid)
  {
    forall i :: 0 <= i < |b| ==> |b[i]| == ColumnCount(b)
  }

  predicate InBounds(b: Grid, p: Pos)
  {
    p.row < |b| && p.column < |b[p.row]|
  }

  function CellAt(b: Grid, p: Pos): Cell
    requires InBounds(b, p)
  {
    b[p.row][p.column]
  }

  function IsGapCell(c: Cell): bool
  {
    c.None?
  }

  function IsCardCell(c: Cell): bool
  {
    c.Some?
  }

  predicate IsGap(b: Grid, p: Pos)
  {
    InBounds(b, p) && CellAt(b, p).None?
  }

  predicate IsCard(b: Grid, p: Pos)
  {
    InBounds(b, p) && CellAt(b, p).Some?
  }

  /** The position left of `p` in the same row; `p` must not be in column 0. */
  function LeftOf(p: Pos): Pos
    requires p.column > 0
  {
    Pos(p.row, p.column - 1)
  }

  // ---------------------------------------------------------------------------
  // Row-major order

  /** `p` comes strictly before `q` in row-major order. */
  predicate Before(p: Pos, q: Pos)
  {
    p.row < q.row || (p.row == q.row && p.column < q.column)
  }

  predicate RowMajorSorted(s: seq<Pos>)
  {
    forall i, j :: 0 <= i < j < |s| ==> Before(s[i], s[j])
  }

  lemma SortedConcat(a: seq<Pos>, b: seq<Pos>)
    requires RowMajorSorted(a) && RowMajorSorted(b)
    requires forall x, y :: x in a && y in b ==> Before(x, y)
    ensures RowMajorSorted(a + b)
  {
    forall i, j | 0 <= i < j < |a + b|
      ensures Before((a + b)[i], (a + b)[j])
    {
      if j < |a| {
      } else if i >= |a| {
        assert (a + b)[i] == b[i - |a|] && (a + b)[j] == b[j - |a|];
      } else {
        assert (a + b)[i] in a && (a + b)[j] in b;
      }
    }
  }

  // ---------------------------------------------------------------------------
  // Filtering

  /** The elements of `s` that satisfy `keep`, in their order in `s`. */
  function Filter<T(!new)>(s: seq<T>, keep: T -> bool): (r: seq<T>)
    ensures |r| <= |s|
    ensures forall x :: x in r <==> x in s && keep(x)
  {
    if |s| == 0 then [] else (if keep(s[0]) then [s[0]] else []) + Filter(s[1..], keep)
  }

  lemma {:induction false} FilterConcat<T(!new)>(s: seq<T>, t: seq<T>, keep: T -> bool)
    ensures Filter(s + t, keep) == Filter(s, keep) + Filter(t, keep)
  {
    if |s| == 0 {
      assert s + t == t;
    } else {
      assert (s + t)[1..] == s[1..] + t;
      FilterConcat(s[1..], t, keep);
    }
  }

  /** Filtering with two predicates that agree on the elements gives the same result. */
  lemma {:induction false} FilterCongruent<T(!new)>(s: seq<T>, f: T -> bool, g: T -> bool)
    requires forall x :: x in s ==> f(x) == g(x)
    ensures Filter(s, f) == Filter(s, g)
  {
    if |s| > 0 {
      FilterCongruent(s[1..], f, g);
    }
  }

  /** Nothing is kept exactly when no element satisfies the predicate. */
  lemma FilterEmpty<T(!new)>(s: seq<T>, keep: T -> bool)
    ensures |Filter(s, keep)| == 0 <==> forall x :: x in s ==> !keep(x)
  {
    if |Filter(s, keep)| > 0 {
      assert Filter(s, keep)[0] in Filter(s, keep);
    }
  }

  /** Two predicates that are complementary on `s` split it. */
  lemma {:induction false} FilterComplement<T(!new)>(s: seq<T>, f: T -> bool, g: T -> bool)
    requires forall x :: x in s ==> f(x) != g(x)
    ensures |Filter(s, f)| + |Filter(s, g)| == |s|
  {
    if |s| > 0 {
      FilterComplement(s[1..], f, g);
    }
  }

  /** A stronger predicate keeps no more elements, and as many exactly when
      the two agree on `s`. */
  lemma {:induction false} FilterImplies<T(!new)>(s: seq<T>, f: T -> bool, g: T -> bool)
    requires forall x :: x in s && f(x) ==> g(x)
    ensures |Filter(s, f)| <= |Filter(s, g)|
    ensures |Filter(s, f)| == |Filter(s, g)| <==> forall x :: x in s && g(x) ==> f(x)
  {
    if |s| > 0 {
      FilterImplies(s[1..], f, g);
      if !(forall x :: x in s[1..] && g(x) ==> f(x)) {
        var x :| x in s[1..] && g(x) && !f(x);
        assert x in s;
      }
    }
  }

  lemma {:induction false} FilterSorted(s: seq<Pos>, keep: Pos -> bool)
    requires RowMajorSorted(s)
    ensures RowMajorSorted(Filter(s, keep))
  {
    if |s| > 0 {
      FilterSorted(s[1..], keep);
      var head := if keep(s[0]) then [s[0]] else [];
      forall x, y | x in head && y in Filter(s[1..], keep)
        ensures Before(x, y)
      {
        var j :| 0 <= j < |s[1..]| && s[1..][j] == y;
        assert s[1 + j] == y;
      }
      SortedConcat(head, Filter(s[1..], keep));
    }
  }

  // ---------------------------------------------------------------------------
  // Enumerating positions

  /** The positions of row `i` with fewer than `n` columns, left to right. */
  function RowPositions(i: nat, n: nat): (r: seq<Pos>)
    ensures |r| == n
    ensures forall j :: 0 <= j < n ==> r[j] == Pos(i, j)
  {
    seq(n, j requires 0 <= j < n => Pos(i, j))
  }

  /** The positions of rows `i` and below, in row-major order. */
  function PositionsFrom(b: Grid, i: nat): (r: seq<Pos>)
    decreases |b| - i
    ensures forall p :: p in r <==> i <= p.row && InBounds(b, p)
    ensures RowMajorSorted(r)
  {
    if i >= |b| then []
    else
      RowPositionsSorted(i, |b[i]|);
      SortedConcat(RowPositions(i, |b[i]|), PositionsFrom(b, i + 1));
      RowPositions(i, |b[i]|) + PositionsFrom(b, i + 1)
  }

  lemma RowPositionsSorted(i: nat, n: nat)
    ensures forall p :: p in RowPositions(i, n) <==> p.row == i && p.column < n
    ensures RowMajorSorted(RowPositions(i, n))
  {
    forall p: Pos | p.row == i && p.column < n
      ensures p in RowPositions(i, n)
    {
      assert RowPositions(i, n)[p.column] == p;
    }
  }

  /** Every position of the board in row-major order (`filterBoard`'s traversal). */
  function AllPositions(b: Grid): (r: seq<Pos>)
    ensures forall p :: p in r <==> InBounds(b, p)
    ensures RowMajorSorted(r)
  {
    PositionsFrom(b, 0)
  }

  /** The predicate on positions that tests the cell found there. */
  function AtCells(b: Grid, keep: Cell -> bool): (r: Pos -> bool)
    ensures forall p :: r(p) <==> InBounds(b, p) && keep(CellAt(b, p))
  {
    p => InBounds(b, p) && keep(b[p.row][p.column])
  }

  /** `filterBoard`: the positions whose cell satisfies `keep`, in row-major order. */
  function FilterBoard(b: Grid, keep: Cell -> bool): (r: seq<Pos>)
    ensures forall p :: p in r <==> InBounds(b, p) && keep(CellAt(b, p))
    ensures RowMajorSorted(r)
  {
    FilterSorted(AllPositions(b), AtCells(b, keep));
    Filter(AllPositions(b), AtCells(b, keep))
  }

  // ---------------------------------------------------------------------------
  // Cell contents and their counts

  /** The cells of rows `i` and below, row after row. */
  function FlattenFrom(b: Grid, i: nat): seq<Cell>
    decreases |b| - i
  {
    if i >= |b| then [] else b[i] + FlattenFrom(b, i + 1)
  }

  /** All cells of the board, as a multiset. */
  function Cells(b: Grid): multiset<Cell>
  {
    multiset(FlattenFrom(b, 0))
  }

  /** The number of gaps on the board. */
  function GapCount(b: Grid): nat
  {
    Cells(b)[None]
  }

  /** The number of cells on the board. */
  function CellCount(b: Grid): nat
  {
    |Cells(b)|
  }

  /** Two sequences whose elements get the same verdicts, position by
      position, keep equally many elements. */
  lemma {:induction false} FilterSameVerdicts<T(!new), U(!new)>(s: seq<T>, f: T -> bool, t: seq<U>, g: U -> bool)
    requires |s| == |t|
    requires forall k :: 0 <= k < |s| ==> f(s[k]) == g(t[k])
    ensures |Filter(s, f)| == |Filter(t, g)|
  {
    if |s| > 0 {
      assert forall k :: 0 <= k < |s| - 1 ==> s[1..][k] == s[k + 1] && t[1..][k] == t[k + 1];
      FilterSameVerdicts(s[1..], f, t[1..], g);
    }
  }

  lemma {:induction false} FilterBoardCountFrom(b: Grid, i: nat, keep: Cell -> bool)
    ensures |Filter(PositionsFrom(b, i), AtCells(b, keep))| == |Filter(FlattenFrom(b, i), keep)|
    decreases |b| - i
  {
    if i < |b| {
      FilterBoardCountFrom(b, i + 1, keep);
      FilterConcat(RowPositions(i, |b[i]|), PositionsFrom(b, i + 1), AtCells(b, keep));
      FilterConcat(b[i], FlattenFrom(b, i + 1), keep);
      FilterSameVerdicts(RowPositions(i, |b[i]|), AtCells(b, keep), b[i], keep);
    }
  }

  /** Filtering a sequence for one value keeps as many elements as the value occurs. */
  lemma {:induction false} FilterGapsIsMultiplicity(s: seq<Cell>)
    ensures |Filter(s, IsGapCell)| == multiset(s)[None]
  {
    if |s| > 0 {
      FilterGapsIsMultiplicity(s[1..]);
      assert s == [s[0]] + s[1..];
    }
  }

  lemma {:induction false} FlattenLength(b: Grid, i: nat)
    requires Rectangular(b)
    ensures |FlattenFrom(b, i)| == (if i >= |b| then 0 else (|b| - i) * ColumnCount(b))
    decreases |b| - i
  {
    if i < |b| {
      FlattenLength(b, i + 1);
    }
  }

  lemma {:induction false} PositionsFromLength(b: Grid, i: nat)
    ensures |PositionsFrom(b, i)| == |FlattenFrom(b, i)|
    decreases |b| - i
  {
    if i < |b| {
      PositionsFromLength(b, i + 1);
    }
  }

  /** The gaps enumerated by `filterBoard` are as many as the gaps on the board. */
  lemma GapPositionsCount(b: Grid)
    ensures |FilterBoard(b, IsGapCell)| == GapCount(b)
  {
    FilterBoardCountFrom(b, 0, IsGapCell);
    FilterGapsIsMultiplicity(FlattenFrom(b, 0));
  }

  lemma GapsAndCardsSplitPositions(b: Grid)
    ensures |FilterBoard(b, IsGapCell)| + |FilterBoard(b, IsCardCell)| == |AllPositions(b)|
  {
    forall p | p in AllPositions(b)
      ensures AtCells(b, IsGapCell)(p) != AtCells(b, IsCardCell)(p)
    {
      assert AtCells(b, IsGapCell)(p) == IsGapCell(CellAt(b, p));
      assert AtCells(b, IsCardCell)(p) == IsCardCell(CellAt(b, p));
    }
    FilterComplement(AllPositions(b), AtCells(b, IsGapCell), AtCells(b, IsCardCell));
  }

  /** Every cell is enumerated once, as a gap or as a card; a rectangular
      board has rows times columns cells. */
  lemma GapAndCardCounts(b: Grid)
    ensures |FilterBoard(b, IsGapCell)| == GapCount(b)
    ensures |FilterBoard(b, IsGapCell)| + |FilterBoard(b, IsCardCell)| == CellCount(b)
    ensures |AllPositions(b)| == CellCount(b)
    ensures Rectangular(b) ==> CellCount(b) == RowCount(b) * ColumnCount(b)
  {
    GapPositionsCount(b);
    PositionsFromLength(b, 0);
    GapsAndCardsSplitPositions(b);
    if Rectangular(b) {
      FlattenLength(b, 0);
    }
  }

  // ---------------------------------------------------------------------------
  // Updating cells

  /** The board with the cell at `p` replaced by `v`. */
  function SetCell(b: Grid, p: Pos, v: Cell): Grid
    requires InBounds(b, p)
  {
    b[p.row := b[p.row][p.column := v]]
  }

  predicate SameShape(a: Grid, b: Grid)
  {
    |a| == |b| && forall i :: 0 <= i < |a| ==> |a[i]| == |b[i]|
  }

  /** The index of position `p` in the cells of rows `i` and below. */
  function Offset(b: Grid, i: nat, p: Pos): nat
    requires InBounds(b, p) && i <= p.row
    decreases p.row - i
  {
    if i == p.row then p.column else |b[i]| + Offset(b, i + 1, p)
  }

  lemma UpdateLeft<T>(s: seq<T>, t: seq<T>, k: nat, v: T)
    requires k < |s|
    ensures (s + t)[k := v] == s[k := v] + t
  {
  }

  lemma UpdateRight<T>(s: seq<T>, t: seq<T>, k: nat, v: T)
    requires k < |t|
    ensures (s + t)[|s| + k := v] == s + t[k := v]
  {
  }

  lemma {:induction false} FlattenUnchangedBelow(a: Grid, b: Grid, i: nat)
    requires |a| == |b|
    requires forall j :: i <= j < |a| ==> a[j] == b[j]
    ensures FlattenFrom(a, i) == FlattenFrom(b, i)
    decreases |a| - i
  {
    if i < |a| {
      FlattenUnchangedBelow(a, b, i + 1);
    }
  }

  /** Position `p` sits at its offset in the flattened cells. */
  lemma {:induction false} FlattenAt(b: Grid, p: Pos, i: nat)
    requires InBounds(b, p) && i <= p.row
    ensures Offset(b, i, p) < |FlattenFrom(b, i)|
    ensures FlattenFrom(b, i)[Offset(b, i, p)] == CellAt(b, p)
    decreases p.row - i
  {
    assert FlattenFrom(b, i) == b[i] + FlattenFrom(b, i + 1);
    if i < p.row {
      FlattenAt(b, p, i + 1);
    }
  }

  /** Setting a cell of row `i` updates that row's part of the flattened cells. */
  lemma FlattenSetCellInRow(b: Grid, p: Pos, v: Cell)
    requires InBounds(b, p)
    ensures FlattenFrom(SetCell(b, p, v), p.row) == FlattenFrom(b, p.row)[p.column := v]
  {
    var b', i := SetCell(b, p, v), p.row;
    assert FlattenFrom(b', i) == b'[i] + FlattenFrom(b', i + 1);
    assert FlattenFrom(b, i) == b[i] + FlattenFrom(b, i + 1);
    FlattenUnchangedBelow(b', b, i + 1);
    UpdateLeft(b[i], FlattenFrom(b, i + 1), p.column, v);
  }

  /** Setting a cell updates the flattened cells at the cell's offset. */
  lemma {:induction false} FlattenSetCell(b: Grid, p: Pos, v: Cell, i: nat)
    requires InBounds(b, p) && i <= p.row
    ensures Offset(b, i, p) < |FlattenFrom(b, i)|
    ensures FlattenFrom(SetCell(b, p, v), i) == FlattenFrom(b, i)[Offset(b, i, p) := v]
    decreases p.row - i
  {
    FlattenAt(b, p, i);
    if i == p.row {
      FlattenSetCellInRow(b, p, v);
    } else {
      FlattenSetCell(b, p, v, i + 1);
      var b' := SetCell(b, p, v);
      assert FlattenFrom(b', i) == b'[i] + FlattenFrom(b', i + 1);
      assert FlattenFrom(b, i) == b[i] + FlattenFrom(b, i + 1);
      assert b'[i] == b[i];
      UpdateRight(b[i], FlattenFrom(b, i + 1), Offset(b, i + 1, p), v);
    }
  }

  /** Every cell of the board is among its cells. */
  lemma CellInCells(b: Grid, p: Pos)
    requires InBounds(b, p)
    ensures CellAt(b, p) in Cells(b)
  {
    FlattenAt(b, p, 0);
  }

  /** Replacing a cell removes its old content from the board and adds the new one. */
  lemma SetCellCells(b: Grid, p: Pos, v: Cell)
    requires InBounds(b, p)
    ensures Cells(SetCell(b, p, v)) == Cells(b) - multiset{CellAt(b, p)} + multiset{v}
    ensures SameShape(SetCell(b, p, v), b)
  {
    FlattenAt(b, p, 0);
    FlattenSetCell(b, p, v, 0);
  }

  /** `withCardsSwapped` / `swapCardsAt`: exchange the contents of two cells. */
  function Swap(b: Grid, p: Pos, q: Pos): (r: Grid)
    requires InBounds(b, p) && InBounds(b, q)
    ensures SameShape(r, b) && InBounds(r, p) && InBounds(r, q)
    ensures CellAt(r, p) == CellAt(b, q) && CellAt(r, q) == CellAt(b, p)
    ensures forall x :: InBounds(b, x) && x != p && x != q ==> CellAt(r, x) == CellAt(b, x)
  {
    SetCell(SetCell(b, p, CellAt(b, q)), q, CellAt(b, p))
  }

  /** A swap keeps the board's shape and its multiset of cells, hence its gap count. */
  lemma SwapPreservesCells(b: Grid, p: Pos, q: Pos)
    requires InBounds(b, p) && InBounds(b, q)
    ensures Cells(Swap(b, p, q)) == Cells(b)
    ensures GapCount(Swap(b, p, q)) == GapCount(b)
    ensures Rectangular(b) ==> Rectangular(Swap(b, p, q)) && ColumnCount(Swap(b, p, q)) == ColumnCount(b)
  {
    var b1 := SetCell(b, p, CellAt(b, q));
    SetCellCells(b, p, CellAt(b, q));
    SetCellCells(b1, q, CellAt(b, p));
    CellInCells(b, p);
    CellInCells(b, q);
    assert CellAt(b1, q) == CellAt(b, q);
  }
}
