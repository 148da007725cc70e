/** The simulation engine of the `GameOfLife` panel: its static fields become
    the fields of one object, and its static methods become methods on it. The
    two live-grid buffers alternate: `leftFrame` says which one is live, and
    between steps the other one is all zero. */
module Engine {
  import opened Grids
  import opened Neighbours
  import opened Rules
  import opened Edits

  const Int32Min: int := -0x8000_0000
  const Int32Max: int := 0x7fff_ffff

  predicate IsInt32(x: int) {
    Int32Min <= x <= Int32Max
  }

  /** Java's `generation++` on a 32-bit int: one more, modulo 2^32, in the signed range. */
  function Int32Succ(x: int): (r: int)
    requires IsInt32(x)
    ensures IsInt32(r)
    ensures r == Int32Min + (x + 1 - Int32Min) % 0x1_0000_0000
    ensures x < Int32Max ==> r == x + 1
  {
    if x == Int32Max then Int32Min else x + 1
  }

  /** 1 for a live cell value, 0 for a dead one. */
  function Bit(v: int): int {
    if v != 0 then 1 else 0
  }

  /** The wrapped count of an in-range cell, read from the array: the row above
      row 0 is the last row, the row below the last is row 0, and likewise for columns. */
  lemma WrappedCountOnArray(g: array2<int>, row: int, col: int, up: int, down: int, left: int, right: int, count: int)
    requires g.Length0 == g.Length1 >= 2 && 0 <= row < g.Length0 && 0 <= col < g.Length0
    requires up == (if row == 0 then g.Length0 - 1 else row - 1) && down == (if row == g.Length0 - 1 then 0 else row + 1)
    requires left == (if col == 0 then g.Length0 - 1 else col - 1) && right == (if col == g.Length0 - 1 then 0 else col + 1)
    requires count == Bit(g[up, left]) + Bit(g[up, col]) + Bit(g[up, right])
             + Bit(g[row, left]) + Bit(g[row, right])
             + Bit(g[down, left]) + Bit(g[down, col]) + Bit(g[down, right])
    ensures count == NeighbourCount(Cells(g), row, col, true)
  {
    LiveWrapped(g, row - 1, col - 1, up, left);
    LiveWrapped(g, row - 1, col, up, col);
    LiveWrapped(g, row - 1, col + 1, up, right);
    LiveWrapped(g, row, col - 1, row, left);
    LiveWrapped(g, row, col + 1, row, right);
    LiveWrapped(g, row + 1, col - 1, down, left);
    LiveWrapped(g, row + 1, col, down, col);
    LiveWrapped(g, row + 1, col + 1, down, right);
  }

  /** One wrapped neighbour term read straight from the array, at the indices wrapped by hand. */
  lemma LiveWrapped(g: array2<int>, i: int, j: int, i2: int, j2: int)
    requires g.Length0 == g.Length1 >= 1 && -1 <= i <= g.Length0 && -1 <= j <= g.Length0
    requires i2 == (if i == -1 then g.Length0 - 1 else if i == g.Length0 then 0 else i)
    requires j2 == (if j == -1 then g.Length0 - 1 else if j == g.Length0 then 0 else j)
    ensures 0 <= i2 < g.Length0 && 0 <= j2 < g.Length0
    ensures Live(Cells(g), i, j, true) == Bit(g[i2, j2])
  {
    WrapIndex(i, g.Length0);
    WrapIndex(j, g.Length0);
  }

  /** 1 for a live cell of the array, 0 for a dead one or a position outside it. */
  ghost function LiveAt(g: array2<int>, i: int, j: int): int
    reads g
  {
    if 0 <= i < g.Length0 && 0 <= j < g.Length1 then Bit(g[i, j]) else 0
  }

  /** The count without wrap-around, read from the array. */
  lemma BoundedCountOnArray(g: array2<int>, row: int, col: int, count: int)
    requires g.Length0 == g.Length1 >= 2 && 0 <= row < g.Length0 && 0 <= col < g.Length0
    requires count == LiveAt(g, row - 1, col - 1) + LiveAt(g, row - 1, col) + LiveAt(g, row - 1, col + 1)
             + LiveAt(g, row, col - 1) + LiveAt(g, row, col + 1)
             + LiveAt(g, row + 1, col - 1) + LiveAt(g, row + 1, col) + LiveAt(g, row + 1, col + 1)
    ensures count == NeighbourCount(Cells(g), row, col, false)
  {
  }

  const DefaultGridSize: int := 360

  class GameOfLife {
    var gridLeft: array2<int>
    var gridRight: array2<int>
    var patternGrid: array2<int>
    var gridSize: int
    var patternGridSize: int
    var minimumOnMaximumOff: int
    var maximumOnMinimumOff: int
    var wildcardsOn: array<bool>
    var wildcardsOff: array<bool>
    var generation: int
    var leftFrame: bool
    var wrapAround: bool
    var wildcardsOnly: bool

    /** The shapes the fields always have: the two live buffers are distinct
        gridSize-square arrays, the pattern a third, patternGridSize-square one,
        and each wildcard array has nine flags. */
    ghost predicate Valid()
      reads this
    {
      && 2 <= gridSize && 0 <= patternGridSize
      && gridLeft.Length0 == gridSize && gridLeft.Length1 == gridSize
      && gridRight.Length0 == gridSize && gridRight.Length1 == gridSize
      && patternGrid.Length0 == patternGridSize && patternGrid.Length1 == patternGridSize
      && gridLeft != gridRight && patternGrid != gridLeft && patternGrid != gridRight
      && wildcardsOn.Length == 9 && wildcardsOff.Length == 9
      && IsInt32(generation)
    }

    /** The buffer the next step reads: the live grid shown to the user. */
    ghost function LiveGrid(): array2<int>
      reads this
    {
      if leftFrame then gridLeft else gridRight
    }

    /** The buffer the next step writes. */
    ghost function ShadowGrid(): array2<int>
      reads this
    {
      if leftFrame then gridRight else gridLeft
    }

    /** The double-buffer invariant: between steps the buffer that is not live is all zero. */
    ghost predicate ShadowClear()
      reads this, gridLeft, gridRight
    {
      AllZero(ShadowGrid())
    }

    /** The rule settings the fields hold. */
    ghost function Config(): (cfg: RuleConfig)
      reads this, wildcardsOn, wildcardsOff
      requires Valid()
      ensures WellFormed(cfg)
    {
      RuleConfig(minimumOnMaximumOff, maximumOnMinimumOff, wildcardsOnly, wildcardsOn[..], wildcardsOff[..])
    }

    /** The panel's start-up state: the field initialisers, then `resetGrids`. */
    constructor ()
      ensures Valid() && ShadowClear()
      ensures gridSize == DefaultGridSize && patternGridSize == DefaultGridSize / 3
      ensures minimumOnMaximumOff == 2 && maximumOnMinimumOff == 3
      ensures forall k :: 0 <= k < 9 ==> !wildcardsOn[k] && !wildcardsOff[k]
      ensures generation == 0 && leftFrame && !wrapAround && !wildcardsOnly
      ensures AllZero(gridLeft) && AllZero(gridRight) && AllZero(patternGrid)
    {
      gridSize := DefaultGridSize;
      patternGridSize := DefaultGridSize / 3;
      minimumOnMaximumOff, maximumOnMinimumOff := 2, 3;
      wildcardsOn := new bool[9](_ => false);
      wildcardsOff := new bool[9](_ => false);
      generation := 0;
      leftFrame, wrapAround, wildcardsOnly := true, false, false;
      // The source's grid fields start out null; resetGrids allocates them.
      gridLeft := new int[0, 0];
      gridRight := new int[0, 0];
      patternGrid := new int[0, 0];
      new;
      ResetGrids();
    }

    /** `initializeGrid`: zero every cell of a square grid. */
    static method InitializeGrid(g: array2<int>)
      requires g.Length0 == g.Length1
      modifies g
      ensures AllZero(g)
    {
      for row := 0 to g.Length0
        invariant forall i, j :: 0 <= i < row && 0 <= j < g.Length1 ==> g[i, j] == 0
      {
        for col := 0 to g.Length0
          invariant forall i, j :: 0 <= i < row && 0 <= j < g.Length1 ==> g[i, j] == 0
          invariant forall j :: 0 <= j < col ==> g[row, j] == 0
        {
          g[row, col] := 0;
        }
      }
    }

    /** `resetGrids`: allocate both live buffers and the pattern grid at the current sizes, all zero. */
    method ResetGrids()
      requires 2 <= gridSize && 0 <= patternGridSize
      requires wildcardsOn.Length == 9 && wildcardsOff.Length == 9 && IsInt32(generation)
      modifies this`gridLeft, this`gridRight, this`patternGrid
      ensures Valid() && ShadowClear()
      ensures fresh(gridLeft) && fresh(gridRight) && fresh(patternGrid)
      ensures AllZero(gridLeft) && AllZero(gridRight) && AllZero(patternGrid)
    {
      gridLeft := new int[gridSize, gridSize];
      gridRight := new int[gridSize, gridSize];
      patternGrid := new int[patternGridSize, patternGridSize];
      InitializeGrid(gridLeft);
      InitializeGrid(gridRight);
      InitializeGrid(patternGrid);
    }

    /** `checkCell`: the number of live neighbours of (row, col), found region by
        region (four corners, four edges, the interior) with or without
        wrap-around. A cell outside the grid falls in no region and gets 0. */
    method CheckCell(g: array2<int>, row: int, col: int) returns (count: int)
      requires g.Length0 == g.Length1 >= 2
      ensures 0 <= row < g.Length0 && 0 <= col < g.Length0 ==>
                count == NeighbourCount(Cells(g), row, col, wrapAround)
      ensures !(0 <= row < g.Length0 && 0 <= col < g.Length0) ==> count == 0
    {
      count := 0;
      var limit, inside := g.Length0 - 1, g.Length0 - 2;
      if wrapAround {
        if row == 0 && col == 0 {
          count := count + Bit(g[limit, limit]);
          count := count + Bit(g[limit, 0]);
          count := count + Bit(g[limit, 1]);
          count := count + Bit(g[0, limit]);
          count := count + Bit(g[0, 1]);
          count := count + Bit(g[1, limit]);
          count := count + Bit(g[1, 0]);
          count := count + Bit(g[1, 1]);
          WrappedCountOnArray(g, row, col, limit, 1, limit, 1, count);
        } else if row == 0 && 0 < col < limit {
          count := count + Bit(g[limit, col - 1]);
          count := count + Bit(g[limit, col]);
          count := count + Bit(g[limit, col + 1]);
          count := count + Bit(g[0, col - 1]);
          count := count + Bit(g[0, col + 1]);
          count := count + Bit(g[1, col - 1]);
          count := count + Bit(g[1, col]);
          count := count + Bit(g[1, col + 1]);
          WrappedCountOnArray(g, row, col, limit, 1, col - 1, col + 1, count);
        } else if row == 0 && col == limit {
          count := count + Bit(g[limit, inside]);
          count := count + Bit(g[limit, limit]);
          count := count + Bit(g[limit, 0]);
          count := count + Bit(g[0, inside]);
          count := count + Bit(g[0, 0]);
          count := count + Bit(g[1, inside]);
          count := count + Bit(g[1, limit]);
          count := count + Bit(g[1, 0]);
          WrappedCountOnArray(g, row, col, limit, 1, inside, 0, count);
        } else if 0 < row < limit && col == 0 {
          count := count + Bit(g[row - 1, limit]);
          count := count + Bit(g[row - 1, 0]);
          count := count + Bit(g[row - 1, 1]);
          count := count + Bit(g[row, limit]);
          count := count + Bit(g[row, 1]);
          count := count + Bit(g[row + 1, limit]);
          count := count + Bit(g[row + 1, 0]);
          count := count + Bit(g[row + 1, 1]);
          WrappedCountOnArray(g, row, col, row - 1, row + 1, limit, 1, count);
        } else if 0 < row < limit && 0 < col < limit {
          count := count + Bit(g[row - 1, col - 1]);
          count := count + Bit(g[row - 1, col]);
          count := count + Bit(g[row - 1, col + 1]);
          count := count + Bit(g[row, col - 1]);
          count := count + Bit(g[row, col + 1]);
          count := count + Bit(g[row + 1, col - 1]);
          count := count + Bit(g[row + 1, col]);
          count := count + Bit(g[row + 1, col + 1]);
          WrappedCountOnArray(g, row, col, row - 1, row + 1, col - 1, col + 1, count);
        } else if 0 < row < limit && col == limit {
          count := count + Bit(g[row - 1, inside]);
          count := count + Bit(g[row - 1, limit]);
          count := count + Bit(g[row - 1, 0]);
          count := count + Bit(g[row, inside]);
          count := count + Bit(g[row, 0]);
          count := count + Bit(g[row + 1, inside]);
          count := count + Bit(g[row + 1, limit]);
          count := count + Bit(g[row + 1, 0]);
          WrappedCountOnArray(g, row, col, row - 1, row + 1, inside, 0, count);
        } else if row == limit && col == 0 {
          count := count + Bit(g[inside, limit]);
          count := count + Bit(g[inside, 0]);
          count := count + Bit(g[inside, 1]);
          count := count + Bit(g[limit, limit]);
          count := count + Bit(g[limit, 1]);
          count := count + Bit(g[0, limit]);
          count := count + Bit(g[0, 0]);
          count := count + Bit(g[0, 1]);
          WrappedCountOnArray(g, row, col, inside, 0, limit, 1, count);
        } else if row == limit && 0 < col < limit {
          count := count + Bit(g[inside, col - 1]);
          count := count + Bit(g[inside, col]);
          count := count + Bit(g[inside, col + 1]);
          count := count + Bit(g[limit, col - 1]);
          count := count + Bit(g[limit, col + 1]);
          count := count + Bit(g[0, col - 1]);
          count := count + Bit(g[0, col]);
          count := count + Bit(g[0, col + 1]);
          WrappedCountOnArray(g, row, col, inside, 0, col - 1, col + 1, count);
        } else if row == limit && col == limit {
          count := count + Bit(g[inside, inside]);
          count := count + Bit(g[inside, limit]);
          count := count + Bit(g[inside, 0]);
          count := count + Bit(g[limit, inside]);
          count := count + Bit(g[limit, 0]);
          count := count + Bit(g[0, inside]);
          count := count + Bit(g[0, limit]);
          count := count + Bit(g[0, 0]);
          WrappedCountOnArray(g, row, col, inside, 0, inside, 0, count);
        }
      } else {
        if row == 0 && col == 0 {
          count := count + Bit(g[1, 0]);
          count := count + Bit(g[1, 1]);
          count := count + Bit(g[0, 1]);
          BoundedCountOnArray(g, row, col, count);
        } else if row == 0 && 0 < col < limit {
          count := count + Bit(g[0, col - 1]);
          count := count + Bit(g[0, col + 1]);
          count := count + Bit(g[1, col - 1]);
          count := count + Bit(g[1, col]);
          count := count + Bit(g[1, col + 1]);
          BoundedCountOnArray(g, row, col, count);
        } else if row == 0 && col == limit {
          count := count + Bit(g[0, inside]);
          count := count + Bit(g[1, inside]);
          count := count + Bit(g[1, limit]);
          BoundedCountOnArray(g, row, col, count);
        } else if 0 < row < limit && col == 0 {
          count := count + Bit(g[row - 1, 0]);
          count := count + Bit(g[row - 1, 1]);
          count := count + Bit(g[row, 1]);
          count := count + Bit(g[row + 1, 0]);
          count := count + Bit(g[row + 1, 1]);
          BoundedCountOnArray(g, row, col, count);
        } else if 0 < row < limit && 0 < col < limit {
          count := count + Bit(g[row - 1, col - 1]);
          count := count + Bit(g[row - 1, col]);
          count := count + Bit(g[row - 1, col + 1]);
          count := count + Bit(g[row, col - 1]);
          count := count + Bit(g[row, col + 1]);
          count := count + Bit(g[row + 1, col - 1]);
          count := count + Bit(g[row + 1, col]);
          count := count + Bit(g[row + 1, col + 1]);
          BoundedCountOnArray(g, row, col, count);
        } else if 0 < row < limit && col == limit {
          count := count + Bit(g[row - 1, inside]);
          count := count + Bit(g[row - 1, limit]);
          count := count + Bit(g[row, inside]);
          count := count + Bit(g[row + 1, inside]);
          count := count + Bit(g[row + 1, limit]);
          BoundedCountOnArray(g, row, col, count);
        } else if row == limit && col == 0 {
          count := count + Bit(g[inside, 0]);
          count := count + Bit(g[inside, 1]);
          count := count + Bit(g[limit, 1]);
          BoundedCountOnArray(g, row, col, count);
        } else if row == limit && 0 < col < limit {
          count := count + Bit(g[inside, col - 1]);
          count := count + Bit(g[inside, col]);
          count := count + Bit(g[inside, col + 1]);
          count := count + Bit(g[limit, col - 1]);
          count := count + Bit(g[limit, col + 1]);
          BoundedCountOnArray(g, row, col, count);
        } else if row == limit && col == limit {
          count := count + Bit(g[limit, inside]);
          count := count + Bit(g[inside, inside]);
          count := count + Bit(g[inside, limit]);
          BoundedCountOnArray(g, row, col, count);
        }
      }
    }

    /** `checkAndUpdateCell`: apply the rule to (row, col) of cur, writing into
        nxt only when the rule says so. */
    method CheckAndUpdateCell(cur: array2<int>, row: int, col: int, nxt: array2<int>, mode: DisplayMode)
      requires Valid()
      requires cur.Length0 == cur.Length1 >= 2 && nxt.Length0 == cur.Length0 && nxt.Length1 == cur.Length0
      requires cur != nxt
      requires 0 <= row < cur.Length0 && 0 <= col < cur.Length0
      modifies nxt
      ensures nxt[row, col]
           == old(CellWrite(cur[row, col], NeighbourCount(Cells(cur), row, col, wrapAround), Config(), mode).GetOr(nxt[row, col]))
      ensures forall i, j :: 0 <= i < nxt.Length0 && 0 <= j < nxt.Length1 && (i != row || j != col) ==>
                nxt[i, j] == old(nxt[i, j])
    {
      var n := CheckCell(cur, row, col);
      if !wildcardsOnly {
        if cur[row, col] == 0 && n == maximumOnMinimumOff {
          if mode == BlackWhite { nxt[row, col] := 1; } else { nxt[row, col] := n; }
        } else if cur[row, col] != 0 {
          if n < minimumOnMaximumOff || n > maximumOnMinimumOff {
            if mode == BlackWhite { nxt[row, col] := 0; } else { nxt[row, col] := n; }
          } else if n == minimumOnMaximumOff || n == maximumOnMinimumOff {
            if mode == BlackWhite { nxt[row, col] := 1; } else { nxt[row, col] := n; }
          }
        }
      }
      if cur[row, col] == 0 && n > 0 && wildcardsOn[n] {
        if mode == BlackWhite { nxt[row, col] := 1; } else { nxt[row, col] := n; }
      } else if cur[row, col] != 0 && n > 0 && wildcardsOff[n] {
        nxt[row, col] := 0;
      }
    }

    /** The double loop of `nextFrame`: `checkAndUpdateCell` on every cell, row
        by row. cur is only read, so every write depends on the pre-pass grid alone. */
    method Sweep(cur: array2<int>, nxt: array2<int>, mode: DisplayMode)
      requires Valid()
      requires cur.Length0 == cur.Length1 >= 2 && nxt.Length0 == cur.Length0 && nxt.Length1 == cur.Length0
      requires cur != nxt
      modifies nxt
      ensures Cells(nxt) == Pass(Cells(cur), old(Cells(nxt)), Config(), wrapAround, mode)
    {
      ghost var before, prev, cfg := Cells(cur), Cells(nxt), Config();
      ghost var target := Pass(before, prev, cfg, wrapAround, mode);
      var size := cur.Length0;
      for row := 0 to size
        modifies nxt
        invariant Cells(cur) == before && Config() == cfg
        invariant forall i, j {:trigger nxt[i, j]} :: 0 <= i < size && 0 <= j < size ==>
                    nxt[i, j] == if i < row then target[i][j] else prev[i][j]
      {
        label RowStart:
        for col := 0 to size
          modifies nxt
          invariant Cells(cur) == before && Config() == cfg
          invariant forall j {:trigger nxt[row, j]} :: 0 <= j < size ==>
                      nxt[row, j] == if j < col then target[row][j] else prev[row][j]
          invariant forall i, j {:trigger nxt[i, j]} :: 0 <= i < size && i != row && 0 <= j < size ==>
                      nxt[i, j] == old@RowStart(nxt[i, j])
        {
          CheckAndUpdateCell(cur, row, col, nxt, mode);
          PassAt(before, prev, cfg, wrapAround, mode, row, col);
        }
      }
      GridsEqual(Cells(nxt), target);
    }

    /** `nextFrame`: the sweep from cur into nxt, then cur zeroed, the live buffer
        flipped and the generation counted. */
    method NextFrame(cur: array2<int>, nxt: array2<int>, mode: DisplayMode)
      requires Valid()
      requires cur.Length0 == cur.Length1 >= 2 && nxt.Length0 == cur.Length0 && nxt.Length1 == cur.Length0
      requires cur != nxt
      modifies cur, nxt, this`leftFrame, this`generation
      ensures Valid()
      ensures Cells(nxt) == Pass(old(Cells(cur)), old(Cells(nxt)), old(Config()), wrapAround, mode)
      ensures AllZero(cur)
      ensures leftFrame == !old(leftFrame)
      ensures generation == Int32Succ(old(generation))
    {
      Sweep(cur, nxt, mode);
      InitializeGrid(cur);
      leftFrame := !leftFrame;
      generation := Int32Succ(generation);
    }

    /** The Step button and each timer tick: advance the live buffer one generation. */
    method Step(mode: DisplayMode)
      requires Valid() && ShadowClear()
      modifies gridLeft, gridRight, this`leftFrame, this`generation
      ensures Valid() && ShadowClear()
      ensures leftFrame == !old(leftFrame)
      ensures generation == Int32Succ(old(generation))
      ensures Cells(LiveGrid()) == NextGeneration(old(Cells(LiveGrid())), old(Config()), wrapAround, mode)
    {
      ghost var g, cfg := Cells(LiveGrid()), Config();
      PassOverZero(g, Cells(ShadowGrid()), cfg, wrapAround, mode);
      if leftFrame {
        NextFrame(gridLeft, gridRight, mode);
      } else {
        NextFrame(gridRight, gridLeft, mode);
      }
    }

    /** The Clear button: zero both live buffers and restart the count. */
    method Clear()
      requires Valid()
      modifies gridLeft, gridRight, this`generation
      ensures Valid() && ShadowClear()
      ensures AllZero(gridLeft) && AllZero(gridRight)
      ensures generation == 0
    {
      InitializeGrid(gridLeft);
      InitializeGrid(gridRight);
      generation := 0;
    }

    /** The pattern panel's Clear button. */
    method ClearPattern()
      requires Valid()
      modifies patternGrid
      ensures AllZero(patternGrid)
    {
      InitializeGrid(patternGrid);
    }

    /** `reverseCell`: toggle one cell and return its new value. */
    static method ReverseCell(g: array2<int>, row: int, col: int) returns (v: int)
      requires 0 <= row < g.Length0 && 0 <= col < g.Length1
      modifies g
      ensures v == Toggled(old(g[row, col]))
      ensures g[row, col] == v
      ensures forall i, j :: 0 <= i < g.Length0 && 0 <= j < g.Length1 && (i != row || j != col) ==>
                g[i, j] == old(g[i, j])
    {
      if g[row, col] == 0 {
        g[row, col] := 1;
        return 1;
      } else {
        g[row, col] := 0;
        return 0;
      }
    }

    /** The cell-value part of a click: toggle (row, col) of g, and in the grey
        and colour modes give a cell switched on its neighbour count in g plus one. */
    method ClickCell(g: array2<int>, row: int, col: int, mode: DisplayMode) returns (v: int)
      requires g.Length0 == g.Length1
      requires 0 <= row < g.Length0 && 0 <= col < g.Length0
      requires mode != BlackWhite ==> g.Length0 >= 2
      modifies g
      ensures v == ClickedValue(old(Cells(g)), row, col, wrapAround, mode)
      ensures g[row, col] == v
      ensures forall i, j :: 0 <= i < g.Length0 && 0 <= j < g.Length1 && (i != row || j != col) ==>
                g[i, j] == old(g[i, j])
    {
      ghost var before := Cells(g);
      v := ReverseCell(g, row, col);
      if v != 0 && mode != BlackWhite {
        var count := CheckCell(g, row, col);
        CountIgnoresOwnCell(before, Cells(g), row, col, wrapAround);
        v := count + 1;
        g[row, col] := v;
      }
    }

    /** A click on the main grid in free-hand mode: edits the live buffer only. */
    method ClickLiveCell(row: int, col: int, mode: DisplayMode) returns (v: int)
      requires Valid()
      requires 0 <= row < gridSize && 0 <= col < gridSize
      modifies gridLeft, gridRight
      ensures v == ClickedValue(old(Cells(LiveGrid())), row, col, wrapAround, mode)
      ensures LiveGrid()[row, col] == v
      ensures forall i, j :: 0 <= i < gridSize && 0 <= j < gridSize && (i != row || j != col) ==>
                LiveGrid()[i, j] == old(LiveGrid()[i, j])
      ensures unchanged(ShadowGrid())
      ensures old(ShadowClear()) ==> ShadowClear()
    {
      if leftFrame {
        v := ClickCell(gridLeft, row, col, mode);
      } else {
        v := ClickCell(gridRight, row, col, mode);
      }
    }

    /** A click on the pattern grid: edits the pattern only. */
    method ClickPatternCell(row: int, col: int, mode: DisplayMode) returns (v: int)
      requires Valid()
      requires 0 <= row < patternGridSize && 0 <= col < patternGridSize
      requires mode != BlackWhite ==> patternGridSize >= 2
      modifies patternGrid
      ensures v == ClickedValue(old(Cells(patternGrid)), row, col, wrapAround, mode)
      ensures patternGrid[row, col] == v
      ensures forall i, j :: 0 <= i < patternGridSize && 0 <= j < patternGridSize && (i != row || j != col) ==>
                patternGrid[i, j] == old(patternGrid[i, j])
    {
      v := ClickCell(patternGrid, row, col, mode);
    }

    /** `stampGrid`: copy the pattern into the live buffer at (mainGridRow, mainGridCol). */
    method StampGrid(mainGridRow: int, mainGridCol: int)
      requires Valid()
      requires Fits(gridSize, patternGridSize, mainGridRow, mainGridCol)
      modifies gridLeft, gridRight
      ensures Cells(LiveGrid()) == Stamped(old(Cells(LiveGrid())), Cells(patternGrid), mainGridRow, mainGridCol)
      ensures unchanged(ShadowGrid())
      ensures old(ShadowClear()) ==> ShadowClear()
    {
      ghost var before := Cells(LiveGrid());
      var m := patternGrid.Length0;
      var live := if leftFrame then gridLeft else gridRight;
      for currentRow := 0 to m
        modifies live
        invariant forall i, j {:trigger live[i, j]} :: 0 <= i < gridSize && 0 <= j < gridSize ==>
                    live[i, j] == if InWindow(i, j, mainGridRow, mainGridCol, m) && i < mainGridRow + currentRow
                                  then patternGrid[i - mainGridRow, j - mainGridCol] else old(live[i, j])
      {
        for currentCol := 0 to m
          modifies live
          invariant forall i, j {:trigger live[i, j]} :: 0 <= i < gridSize && 0 <= j < gridSize ==>
                      live[i, j] == if InWindow(i, j, mainGridRow, mainGridCol, m) &&
                                       (i < mainGridRow + currentRow || (i == mainGridRow + currentRow && j < mainGridCol + currentCol))
                                    then patternGrid[i - mainGridRow, j - mainGridCol] else old(live[i, j])
        {
          live[mainGridRow + currentRow, mainGridCol + currentCol] := patternGrid[currentRow, currentCol];
        }
      }
      GridsEqual(Cells(LiveGrid()), Stamped(before, Cells(patternGrid), mainGridRow, mainGridCol));
    }

    /** `copyGrid`: copy the pattern-sized window of the live buffer at
        (mainGridRow, mainGridCol) into the pattern. */
    method CopyGrid(mainGridRow: int, mainGridCol: int)
      requires Valid()
      requires Fits(gridSize, patternGridSize, mainGridRow, mainGridCol)
      modifies patternGrid
      ensures Cells(patternGrid) == Region(Cells(LiveGrid()), mainGridRow, mainGridCol, patternGridSize)
    {
      var m := patternGrid.Length0;
      var live := if leftFrame then gridLeft else gridRight;
      for currentRow := 0 to m
        invariant forall i, j :: 0 <= i < currentRow && 0 <= j < m ==>
                    patternGrid[i, j] == live[mainGridRow + i, mainGridCol + j]
      {
        for currentCol := 0 to m
          invariant forall i, j :: 0 <= i < currentRow && 0 <= j < m ==>
                      patternGrid[i, j] == live[mainGridRow + i, mainGridCol + j]
          invariant forall j :: 0 <= j < currentCol ==>
                      patternGrid[currentRow, j] == live[mainGridRow + currentRow, mainGridCol + j]
        {
          patternGrid[currentRow, currentCol] := live[mainGridRow + currentRow, mainGridCol + currentCol];
        }
      }
      GridsEqual(Cells(patternGrid), Region(Cells(LiveGrid()), mainGridRow, mainGridCol, m));
    }
  }
}
