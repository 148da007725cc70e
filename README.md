# Game of Life engine

A Dafny model of the simulation engine of the Swing panel `GameOfLife`. The
engine consists of:

- the neighbour counter `checkCell`, with and without wrap-around;
- the per-cell rule `checkAndUpdateCell`: the two threshold sliders, the
  "wildcards only" switch, the wildcard-on and wildcard-off flags, and the
  display mode;
- the generation step `nextFrame`, over two alternating live buffers;
- the grid set-up `initializeGrid` and `resetGrids`, and the two Clear buttons;
- the edits a mouse click makes:
  - `reverseCell`;
  - the grey- and colour-mode intensity value set after a toggle;
  - the pattern buffer operations `stampGrid` and `copyGrid`.

The model has five modules:

- `Grids`: grids as values (`seq<seq<int>>`). `Cells` reads the value an
  `array2<int>` holds.
- `Neighbours`: `NeighbourCount`, the count defined as eight terms, one per
  neighbour. It is independent of the source's nine-region case analysis.
  Wrap-around uses the mathematical remainder.
- `Rules`: `CellWrite`, the value the rule writes into the next buffer, or
  `None` when it writes nothing.
  - `NextGeneration` is the grid a step produces.
  - `Pass` is the content of a next buffer after one sweep over a buffer
    that held anything at all.
- `Edits`: the toggle, the clicked value, and the stamp and copy, all as
  functions on values, with their round trips.
- `Engine`: the class `GameOfLife`.
  - The source's static fields become its fields, and its grids are
    `array2<int>`.
  - The display mode, a global singleton in the source, is a method parameter.
  - `Valid` gives the shapes of the fields.
  - `ShadowClear` is the double-buffer invariant: the buffer that is not
    live is all zero between steps. It is kept by the constructor,
    `ResetGrids`, `Step`, `Clear` and every edit.

The rule is modelled as written, not as idealised Life:

- A live cell outside the thresholds gets 0 in black and white, but its
  neighbour count in the grey and colour modes. It therefore stays alive when
  that count is non-zero.
- A live cell whose count lies strictly between the two thresholds gets no
  write. `PassKeepsStale` shows that such a cell keeps whatever the next
  buffer held. `PassOverZero` shows that the result is nevertheless the next
  generation, because the engine zeroes that buffer beforehand.

All paths below are relative to the repository root.

## Model

| member | source | states |
|---|---|---|
| Neighbours.NeighbourCount | GameOfLife.java:1151-1328 | a live-neighbour count is never more than eight |
| Neighbours.WrapIndex | GameOfLife.java:1153-1255 | with wrap-around, row/column -1 is the last one (`gridLimit`) and N is 0, i.e. the mathematical remainder modulo N |
| Neighbours.BoundedCountBySlots | GameOfLife.java:1257-1327 | without wrap-around a corner has at most 3 live neighbours, an edge cell 5, an interior cell 8, exactly that many when every cell is alive |
| Neighbours.WrappedCountAllAlive | GameOfLife.java:1156-1255 | with wrap-around every cell of an all-alive grid (N >= 2) has 8 live neighbours |
| Neighbours.CountAllDead | GameOfLife.java:1151-1328 | on an all-dead grid every count is 0, with or without wrap-around |
| Neighbours.InteriorIgnoresWrap | GameOfLife.java:1201-1211 | for a cell off the border the wrapped count equals the bounded one (the interior cases at 1201-1211 and 1286-1296 read the same eight cells) |
| Neighbours.CountIgnoresOwnCell | GameOfLife.java:205-206 | a cell's count does not depend on its own value (N >= 2), so the count taken after the toggle is the count before it |
| Rules.CellWrite | GameOfLife.java:1330-1363 | the write the rule makes: the wildcard-on birth and the wildcard-off death override everything, and only at n > 0; with `wildcardsOnly` only a wildcard writes; otherwise a dead cell is written iff n equals the upper threshold, a live cell outside the thresholds gets 0 (black and white) or n, a live cell inside gets a write iff n equals a threshold; written values are 0/1 in black and white and in [0, 8] otherwise |
| Rules.NextGeneration | GameOfLife.java:1365-1370 | every cell of the next generation is the rule applied to that cell and its count in the current grid alone |
| Rules.Pass | GameOfLife.java:1366-1370 | the next buffer after the double loop, built row by row from the rule's writes over the buffer's previous contents; its own contract says it is a square grid of the current grid's size, and PassAt gives its cells |
| Rules.PassAt | GameOfLife.java:1366-1370 | after one sweep each cell of the next buffer holds the rule's write, or its old value where the rule writes nothing |
| Rules.PassOverZero | GameOfLife.java:1365-1379 | a sweep into an all-zero buffer yields exactly the next generation |
| Rules.PassKeepsStale | GameOfLife.java:1343-1352 | over a buffer that is not cleared, a stale value survives exactly where the rule writes nothing |
| Rules.NextGenerationValues | GameOfLife.java:1338-1362 | every cell of a next generation is 0 or 1 in black and white and in [0, 8] otherwise |
| Rules.AllDeadStaysDead | GameOfLife.java:1338-1362 | an all-dead grid stays all dead when the upper threshold is at least 1 |
| Rules.IsolatedCellDies | GameOfLife.java:1344-1347 | a live cell with no live neighbour dies in every mode when the lower threshold is at least 1 |
| Rules.ClassicRules | GameOfLife.java:1093-1119 | the settings the Reset button restores (2 and 3, basic rule on, no wildcard) are well formed and within the slider range |
| Rules.ClassicIsConway | GameOfLife.java:1333-1353 | with those settings in black and white, a live cell survives iff it has 2 or 3 live neighbours and a dead one is born iff it has 3 |
| Edits.Toggled | GameOfLife.java:1381-1390 | the toggled value is 0 or 1 and is alive exactly when the old value was dead |
| Edits.ToggleTwice | GameOfLife.java:1381-1390 | two toggles restore aliveness but not magnitude: a live cell comes back as 1 |
| Edits.ClickedValue | GameOfLife.java:193-229 | a click leaves a cell alive iff it was dead; in black and white the value is the toggle; in grey and colour a cell switched on gets a value in [1, 9] |
| Edits.Stamped | GameOfLife.java:1393-1409 | inside the window every cell is the pattern's, outside it every cell is as before |
| Edits.Region | GameOfLife.java:1411-1427 | the copied window holds the grid's cells at the offset origin |
| Edits.RegionOfStamped | GameOfLife.java:1393-1427 | copying back at the origin just stamped yields the pattern itself |
| Edits.StampedOfRegion | GameOfLife.java:1393-1427 | stamping a window copied from the same origin leaves the grid unchanged |
| Edits.StampIdempotent | GameOfLife.java:1393-1409 | stamping the same pattern twice at one origin equals stamping it once |
| Engine.Int32Succ | GameOfLife.java:1377 | `generation++` on a 32-bit int: one more, modulo 2^32, in the signed range |
| Engine.WrappedCountOnArray | GameOfLife.java:1156-1255 | the eight reads of any wrapped region, with the neighbour row/column replaced by `gridLimit` or 0 at the edges, sum to the wrapped NeighbourCount |
| Engine.BoundedCountOnArray | GameOfLife.java:1257-1327 | the in-grid reads of any bounded region sum to the bounded NeighbourCount |
| Engine.GameOfLife.constructor | GameOfLife.java:139-160 | the field initialisers and `resetGrids`: size 360, pattern 120, thresholds 2 and 3, no wildcard, generation 0, left frame live, all three grids zero |
| Engine.GameOfLife.InitializeGrid | GameOfLife.java:1132-1138 | every cell of the grid is zero afterwards |
| Engine.GameOfLife.ResetGrids | GameOfLife.java:1140-1149 | three fresh grids of the configured sizes, all zero, so the double-buffer invariant holds |
| Engine.GameOfLife.CheckCell | GameOfLife.java:1151-1328 | for an in-range cell the count equals NeighbourCount with the current wrap setting; an out-of-range cell falls in no region and gets 0; the grid is not modified |
| Engine.GameOfLife.CheckAndUpdateCell | GameOfLife.java:1330-1363 | the next buffer's cell ends up as CellWrite of the current cell and its count, or is left as it was; no other cell changes and the current grid is only read |
| Engine.GameOfLife.Sweep | GameOfLife.java:1366-1370 | after the double loop the next buffer equals Pass of the pre-step grid and the buffer's previous contents |
| Engine.GameOfLife.NextFrame | GameOfLife.java:1365-1379 | the next buffer is the Pass of the pre-step grids, the current buffer is all zero, `leftFrame` is negated and `generation` is the 32-bit successor |
| Engine.GameOfLife.Step | GameOfLife.java:713-721 | the Step button (also the timer body, 1632-1636): the new live buffer is the NextGeneration of the old one, and the double-buffer invariant is kept |
| Engine.GameOfLife.Clear | GameOfLife.java:725-738 | both live buffers are zero, generation is 0, the invariant holds |
| Engine.GameOfLife.ClearPattern | GameOfLife.java:548-556 | the pattern grid is all zero |
| Engine.GameOfLife.ReverseCell | GameOfLife.java:1381-1390 | a 0 cell becomes 1 and a non-zero one 0, the result equals the new value, no other cell changes |
| Engine.GameOfLife.ClickCell | GameOfLife.java:193-229 | the cell ends up as ClickedValue of the grid before the click, with the count taken in that same grid; no other cell changes |
| Engine.GameOfLife.ClickLiveCell | GameOfLife.java:190-229 | a free-hand click edits only the live buffer, so the buffer that is not live stays zero |
| Engine.GameOfLife.ClickPatternCell | GameOfLife.java:418-434 | a click on the pattern grid edits that grid only, counting its neighbours in the pattern grid |
| Engine.GameOfLife.StampGrid | GameOfLife.java:1393-1409 | the live buffer becomes Stamped of its old contents and the pattern; the other buffer is untouched |
| Engine.GameOfLife.CopyGrid | GameOfLife.java:1411-1427 | the pattern becomes Region of the live buffer at the origin; the live buffers are untouched |

## Left out

- Swing: building the panels, sliders, check boxes and menus, and painting
  (including the floating-point grey shades and the colour `switch`). These
  are user interface and rendering. Sliders and check boxes appear only as the
  fields they set.
- Mouse handling:
  - The mapping from pixels to cells, and the `<=` bound test before a click
    is handled, are screen geometry, so they are not modelled.
  - A click, stamp or copy outside the grid is a precondition here. The
    source instead catches the index exception, after partial writes for
    `stampGrid` and `copyGrid`.
- The Swing `Timer` and start/stop. These are the clock and event thread that
  call `nextFrame`; `Step` is the body of one tick.
- `counterValue.setText` and `gridFrame.repaint()` inside the engine. These
  are display side effects.
- The dot-size slider that recomputes `gridSize` and `patternGridSize` before
  calling `resetGrids`. `ResetGrids` takes the sizes as they are and requires
  `gridSize >= 2`.
- Engine.GameOfLife.CheckCell: requires a grid of at least 2 by 2. The
  source indexes row 1 unconditionally and fails on a smaller grid.
- Engine.GameOfLife.CheckAndUpdateCell: does not constrain the thresholds.
  The sliders keep them in [1, 8] (`InSliderRange`), but the engine works for
  any values. Lemmas that need a bound require it explicitly.
- The count in `CheckCell` adds `Bit(v)` (1 when `v != 0`). This stands for
  the source's `if (v != 0) count++`.
- `Sweep` is the double loop of `nextFrame`, written as a method of its own.
- `StampGrid` and `CopyGrid` first select the live buffer, then run one loop
  nest. The source writes the same loop twice, once per branch.
- Values clicked on in the grey and colour modes: the code writes
  `checkCell(...) + 1`, which reaches 9 for a cell with eight live neighbours.
  The colour `switch` at GameOfLife.java:227-244 has no case for 9, so such a
  cell keeps the previous drawing colour. The model follows the code, and since
  painting is not modelled it says nothing about colours.
- Properties about particular patterns, such as a glider moving, are not
  stated.
