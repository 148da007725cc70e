/** Manual edits as values: the single-cell toggle of `reverseCell`, the value a
    mouse click leaves in a cell, and the pattern-buffer operations `stampGrid`
    (pattern into the live grid) and `copyGrid` (live grid into the pattern). */
module Edits {
  import opened Grids
  import opened Neighbours
  import opened Rules

  /** `reverseCell`: a dead cell becomes 1, a live cell of any value becomes 0. */
  function Toggled(v: int): (r: int)
    ensures r == 0 || r == 1
    ensures (r != 0) == (v == 0)
  {
    if v == 0 then 1 else 0
  }

  /** Two toggles restore whether a cell is alive, but a live cell comes back as 1. */
  lemma ToggleTwice(v: int)
    ensures (Toggled(Toggled(v)) != 0) == (v != 0)
    ensures v != 0 ==> Toggled(Toggled(v)) == 1
  {
  }

  /** The value a click leaves in cell (row, col) of grid g: the toggle, after
      which a cell switched on in the grey or colour mode takes its neighbour
      count (in the same grid) plus one. */
  function ClickedValue(g: Grid, row: int, col: int, wrap: bool, mode: DisplayMode): (v: int)
    requires IsSquare(g) && InGrid(g, row, col)
    ensures (v != 0) == (g[row][col] == 0)
    ensures mode == BlackWhite ==> v == Toggled(g[row][col])
    ensures mode != BlackWhite && g[row][col] == 0 ==> 1 <= v <= 9
  {
    if g[row][col] != 0 then 0
    else if mode == BlackWhite then 1
    else NeighbourCount(g, row, col, wrap) + 1
  }

  /** An m-by-m window at (r0, c0) lies inside an n-by-n grid. */
  predicate Fits(n: int, m: int, r0: int, c0: int) {
    0 <= m && 0 <= r0 && 0 <= c0 && r0 + m <= n && c0 + m <= n
  }

  /** (i, j) lies in the m-by-m window at (r0, c0). */
  predicate InWindow(i: int, j: int, r0: int, c0: int, m: int) {
    r0 <= i < r0 + m && c0 <= j < c0 + m
  }

  /** Grid g with pattern p stamped at (r0, c0). */
  function Stamped(g: Grid, p: Grid, r0: int, c0: int): (h: Grid)
    requires IsSquare(g) && IsSquare(p) && Fits(|g|, |p|, r0, c0)
    ensures IsSquare(h) && |h| == |g|
    // Inside the window every cell is the pattern's ...
    ensures forall i, j :: InGrid(p, i, j) ==> h[r0 + i][c0 + j] == p[i][j]
    // ... and outside it every cell is as before.
    ensures forall i, j :: InGrid(g, i, j) && !InWindow(i, j, r0, c0, |p|) ==> h[i][j] == g[i][j]
  {
    seq(|g|, i requires 0 <= i < |g| =>
      seq(|g|, j requires 0 <= j < |g| =>
        if InWindow(i, j, r0, c0, |p|) then p[i - r0][j - c0] else g[i][j]))
  }

  /** The m-by-m window of g at (r0, c0). */
  function Region(g: Grid, r0: int, c0: int, m: int): (p: Grid)
    requires IsSquare(g) && Fits(|g|, m, r0, c0)
    ensures IsSquare(p) && |p| == m
    ensures forall i, j :: InGrid(p, i, j) ==> p[i][j] == g[r0 + i][c0 + j]
  {
    seq(m, i requires 0 <= i < m => seq(m, j requires 0 <= j < m => g[r0 + i][c0 + j]))
  }

  /** Copying back the window just stamped gives the pattern itself. */
  lemma RegionOfStamped(g: Grid, p: Grid, r0: int, c0: int)
    requires IsSquare(g) && IsSquare(p) && Fits(|g|, |p|, r0, c0)
    ensures Region(Stamped(g, p, r0, c0), r0, c0, |p|) == p
  {
    var h := Stamped(g, p, r0, c0);
    var q := Region(h, r0, c0, |p|);
    forall i, j | InGrid(q, i, j) ensures q[i][j] == p[i][j] {
      assert InGrid(p, i, j);
    }
    GridsEqual(q, p);
  }

  /** Stamping a window copied from the same place leaves the grid as it was. */
  lemma StampedOfRegion(g: Grid, r0: int, c0: int, m: int)
    requires IsSquare(g) && Fits(|g|, m, r0, c0)
    ensures Stamped(g, Region(g, r0, c0, m), r0, c0) == g
  {
    var p := Region(g, r0, c0, m);
    var h := Stamped(g, p, r0, c0);
    forall i, j | InGrid(h, i, j) ensures h[i][j] == g[i][j] {
      if InWindow(i, j, r0, c0, m) {
        assert InGrid(p, i - r0, j - c0);
        assert h[r0 + (i - r0)][c0 + (j - c0)] == p[i - r0][j - c0];
      }
    }
    GridsEqual(h, g);
  }

  /** Stamping the same pattern twice at one place is the same as stamping it once. */
  lemma StampIdempotent(g: Grid, p: Grid, r0: int, c0: int)
    requires IsSquare(g) && IsSquare(p) && Fits(|g|, |p|, r0, c0)
    ensures Stamped(Stamped(g, p, r0, c0), p, r0, c0) == Stamped(g, p, r0, c0)
  {
    var once := Stamped(g, p, r0, c0);
    var twice := Stamped(once, p, r0, c0);
    forall i, j | InGrid(twice, i, j) ensures twice[i][j] == once[i][j] {
      if InWindow(i, j, r0, c0, |p|) {
        assert InGrid(p, i - r0, j - c0);
        assert twice[r0 + (i - r0)][c0 + (j - c0)] == p[i - r0][j - c0];
        assert once[r0 + (i - r0)][c0 + (j - c0)] == p[i - r0][j - c0];
      }
    }
    GridsEqual(twice, once);
  }
}
