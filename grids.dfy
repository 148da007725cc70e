/** Grids as values: an N-by-N grid is a sequence of N rows of N cell values,
    indexed (row, column) from 0. A value of 0 means dead; any other value is
    alive. The engine stores its grids in two-dimensional arrays; `Cells` gives
    the value an array holds, so that specifications can speak about whole grids. */
module Grids {

  type Grid = seq<seq<int>>

  /** Every row is as long as there are rows. */
  predicate IsSquare(g: Grid) {
    forall i :: 0 <= i < |g| ==> |g[i]| == |g|
  }

  /** (i, j) names a cell of the square grid g. */
  predicate InGrid(g: Grid, i: int, j: int) {
    0 <= i < |g| && 0 <= j < |g|
  }

  /** Every cell of the array is 0. */
  ghost predicate AllZero(a: array2<int>)
    reads a
  {
    forall i, j :: 0 <= i < a.Length0 && 0 <= j < a.Length1 ==> a[i, j] == 0
  }

  /** The grid an array currently holds. */
  ghost function Cells(a: array2<int>): (s: Grid)
    reads a
    ensures |s| == a.Length0
    ensures forall i :: 0 <= i < a.Length0 ==> |s[i]| == a.Length1
    ensures forall i, j :: 0 <= i < a.Length0 && 0 <= j < a.Length1 ==> s[i][j] == a[i, j]
  {
    seq(a.Length0, i requires 0 <= i < a.Length0 reads a =>
      seq(a.Length1, j requires 0 <= j < a.Length1 reads a => a[i, j]))
  }

  /** Two square grids of one size that agree cell by cell are the same grid. */
  lemma {:induction false} GridsEqual(a: Grid, b: Grid)
    requires IsSquare(a) && IsSquare(b) && |a| == |b|
    requires forall i, j :: InGrid(a, i, j) ==> a[i][j] == b[i][j]
    ensures a == b
  {
    forall i | 0 <= i < |a|
      ensures a[i] == b[i]
    {
      assert forall j :: 0 <= j < |a| ==> a[i][j] == b[i][j] by {
        forall j | 0 <= j < |a| ensures a[i][j] == b[i][j] {
          assert InGrid(a, i, j);
        }
      }
    }
  }
}
