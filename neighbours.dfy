/** The neighbour count that `checkCell` computes, defined independently of the
    source's nine-region case analysis: a sum of eight terms, one per neighbour.
    Without wrap-around a neighbour outside the grid contributes nothing; with
    wrap-around both indices are taken modulo the grid size (Dafny's `%` is the
    mathematical, never negative, remainder), so row -1 is row N-1 and row N is
    row 0. A neighbour counts as one whatever its non-zero value. */
module Neighbours {
  import opened Grids

  /** 1 when the cell at (i, j) exists and is alive, else 0. */
  function Live(g: Grid, i: int, j: int, wrap: bool): (k: int)
    requires IsSquare(g)
    ensures k == 0 || k == 1
  {
    if wrap then
      if |g| > 0 && g[i % |g|][j % |g|] != 0 then 1 else 0
    else
      if InGrid(g, i, j) && g[i][j] != 0 then 1 else 0
  }

  /** The number of live neighbours of (row, col): never more than eight. */
  function NeighbourCount(g: Grid, row: int, col: int, wrap: bool): (k: nat)
    requires IsSquare(g)
    ensures k <= 8
  {
    Live(g, row - 1, col - 1, wrap) + Live(g, row - 1, col, wrap) + Live(g, row - 1, col + 1, wrap)
    + Live(g, row, col - 1, wrap) + Live(g, row, col + 1, wrap)
    + Live(g, row + 1, col - 1, wrap) + Live(g, row + 1, col, wrap) + Live(g, row + 1, col + 1, wrap)
  }

  /** An index at most one step outside [0, n) wraps to the opposite edge. */
  lemma WrapIndex(i: int, n: int)
    requires n > 0 && -1 <= i <= n
    ensures i % n == if i == -1 then n - 1 else if i == n then 0 else i
  {
    if i == -1 {
      assert -1 == (-1) * n + (n - 1);
    } else if i == n {
      assert n == 1 * n + 0;
    }
  }

  /** The border a cell lies on decides how many neighbours it has without wrap-around. */
  predicate OnBorder(n: int, i: int) {
    i == 0 || i == n - 1
  }

  /** The number of neighbours an in-range cell has without wrap-around:
      3 in a corner, 5 on an edge, 8 inside. */
  function BoundedSlots(n: int, row: int, col: int): int {
    if OnBorder(n, row) && OnBorder(n, col) then 3
    else if OnBorder(n, row) || OnBorder(n, col) then 5
    else 8
  }

  /** Without wrap-around a cell has only its in-grid neighbours: on a grid whose
      cells are all alive the count is exactly 3, 5 or 8, and never more on any grid. */
  lemma BoundedCountBySlots(g: Grid, row: int, col: int)
    requires IsSquare(g) && |g| >= 2 && InGrid(g, row, col)
    ensures NeighbourCount(g, row, col, false) <= BoundedSlots(|g|, row, col)
    ensures (forall i, j :: InGrid(g, i, j) ==> g[i][j] != 0) ==>
              NeighbourCount(g, row, col, false) == BoundedSlots(|g|, row, col)
  {
  }

  /** With wrap-around every cell has eight neighbours: on a grid whose cells are
      all alive the count is 8 everywhere. */
  lemma WrappedCountAllAlive(g: Grid, row: int, col: int)
    requires IsSquare(g) && |g| >= 2
    requires forall i, j :: InGrid(g, i, j) ==> g[i][j] != 0
    ensures NeighbourCount(g, row, col, true) == 8
  {
  }

  /** On a grid with no live cell every count is 0, with or without wrap-around. */
  lemma CountAllDead(g: Grid, row: int, col: int, wrap: bool)
    requires IsSquare(g)
    requires forall i, j :: InGrid(g, i, j) ==> g[i][j] == 0
    ensures NeighbourCount(g, row, col, wrap) == 0
  {
  }

  /** Away from the border, wrap-around makes no difference to the count. */
  lemma InteriorIgnoresWrap(g: Grid, row: int, col: int)
    requires IsSquare(g) && 0 < row < |g| - 1 && 0 < col < |g| - 1
    ensures NeighbourCount(g, row, col, true) == NeighbourCount(g, row, col, false)
  {
    var n := |g|;
    WrapIndex(row - 1, n); WrapIndex(row, n); WrapIndex(row + 1, n);
    WrapIndex(col - 1, n); WrapIndex(col, n); WrapIndex(col + 1, n);
  }

  /** A cell is not its own neighbour: grids that differ only at (row, col) give
      (row, col) the same count. This needs N >= 2, which keeps a wrapped
      neighbour from landing back on the cell itself. */
  lemma CountIgnoresOwnCell(g: Grid, h: Grid, row: int, col: int, wrap: bool)
    requires IsSquare(g) && IsSquare(h) && |g| == |h| >= 2 && InGrid(g, row, col)
    requires forall i, j :: InGrid(g, i, j) && (i != row || j != col) ==> g[i][j] == h[i][j]
    ensures NeighbourCount(g, row, col, wrap) == NeighbourCount(h, row, col, wrap)
  {
    NeighbourIgnoresOwnCell(g, h, row, col, -1, -1, wrap);
    NeighbourIgnoresOwnCell(g, h, row, col, -1, 0, wrap);
    NeighbourIgnoresOwnCell(g, h, row, col, -1, 1, wrap);
    NeighbourIgnoresOwnCell(g, h, row, col, 0, -1, wrap);
    NeighbourIgnoresOwnCell(g, h, row, col, 0, 1, wrap);
    NeighbourIgnoresOwnCell(g, h, row, col, 1, -1, wrap);
    NeighbourIgnoresOwnCell(g, h, row, col, 1, 0, wrap);
    NeighbourIgnoresOwnCell(g, h, row, col, 1, 1, wrap);
    SameTermsSameCount(g, h, row, col, wrap);
  }

  /** Counts built from pairwise equal terms are equal. */
  lemma SameTermsSameCount(g: Grid, h: Grid, row: int, col: int, wrap: bool)
    requires IsSquare(g) && IsSquare(h)
    requires Live(g, row - 1, col - 1, wrap) == Live(h, row - 1, col - 1, wrap)
    requires Live(g, row - 1, col, wrap) == Live(h, row - 1, col, wrap)
    requires Live(g, row - 1, col + 1, wrap) == Live(h, row - 1, col + 1, wrap)
    requires Live(g, row, col - 1, wrap) == Live(h, row, col - 1, wrap)
    requires Live(g, row, col + 1, wrap) == Live(h, row, col + 1, wrap)
    requires Live(g, row + 1, col - 1, wrap) == Live(h, row + 1, col - 1, wrap)
    requires Live(g, row + 1, col, wrap) == Live(h, row + 1, col, wrap)
    requires Live(g, row + 1, col + 1, wrap) == Live(h, row + 1, col + 1, wrap)
    ensures NeighbourCount(g, row, col, wrap) == NeighbourCount(h, row, col, wrap)
  {
  }

  /** One neighbour term of CountIgnoresOwnCell. */
  lemma NeighbourIgnoresOwnCell(g: Grid, h: Grid, row: int, col: int, di: int, dj: int, wrap: bool)
    requires IsSquare(g) && IsSquare(h) && |g| == |h| >= 2 && InGrid(g, row, col)
    requires forall i, j :: InGrid(g, i, j) && (i != row || j != col) ==> g[i][j] == h[i][j]
    requires -1 <= di <= 1 && -1 <= dj <= 1 && (di != 0 || dj != 0)
    ensures Live(g, row + di, col + dj, wrap) == Live(h, row + di, col + dj, wrap)
  {
    var n := |g|;
    WrapIndex(row + di, n);
    WrapIndex(col + dj, n);
  }
}
