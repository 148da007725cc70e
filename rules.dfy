/** The per-cell rule of `checkAndUpdateCell` and the generation it induces.
    The display mode, a global singleton in the source, is an explicit value
    here. It picks the value written for a cell that is born or kept (1 in black
    and white, the count n otherwise), and for a live cell outside the thresholds
    it picks between death (0 in black and white) and n, which keeps the cell
    alive when n > 0. */
module Rules {
  import opened Grids
  import opened Neighbours

  datatype Option<T> = None | Some(value: T) {
    function GetOr(default: T): T {
      match this
      case Some(v) => v
      case None => default
    }
  }

  datatype DisplayMode = BlackWhite | GreyScale | ColorScale

  /** The rule settings: the two basic thresholds, the switch that disables the
      basic rule, and the wildcard flags indexed by neighbour count (index 0 unused). */
  datatype RuleConfig = RuleConfig(
    minimumOnMaximumOff: int,
    maximumOnMinimumOff: int,
    wildcardsOnly: bool,
    wildcardsOn: seq<bool>,
    wildcardsOff: seq<bool>)

  /** The source keeps nine flags in each wildcard array. */
  predicate WellFormed(cfg: RuleConfig) {
    |cfg.wildcardsOn| == 9 && |cfg.wildcardsOff| == 9
  }

  /** The thresholds as the sliders allow them: each between 1 and 8. */
  predicate InSliderRange(cfg: RuleConfig) {
    1 <= cfg.minimumOnMaximumOff <= 8 && 1 <= cfg.maximumOnMinimumOff <= 8
  }

  /** The value a cell that is born or stays alive receives. */
  function AliveValue(n: int, mode: DisplayMode): int {
    if mode == BlackWhite then 1 else n
  }

  /** The write the basic threshold rule makes, if any. */
  function BasicWrite(cell: int, n: int, cfg: RuleConfig, mode: DisplayMode): Option<int> {
    if cfg.wildcardsOnly then None
    else if cell == 0 && n == cfg.maximumOnMinimumOff then Some(AliveValue(n, mode))
    else if cell != 0 then
      if n < cfg.minimumOnMaximumOff || n > cfg.maximumOnMinimumOff then
        Some(if mode == BlackWhite then 0 else n)
      else if n == cfg.minimumOnMaximumOff || n == cfg.maximumOnMinimumOff then
        Some(AliveValue(n, mode))
      else None
    else None
  }

  /** Whether a wildcard flag applies to a cell with value `cell` and count `n`. */
  predicate WildcardFires(cell: int, n: int, cfg: RuleConfig)
    requires WellFormed(cfg) && 0 <= n <= 8
  {
    n > 0 && (if cell == 0 then cfg.wildcardsOn[n] else cfg.wildcardsOff[n])
  }

  /** The write the wildcard overrides make, if any. */
  function WildcardWrite(cell: int, n: int, cfg: RuleConfig, mode: DisplayMode): Option<int>
    requires WellFormed(cfg) && 0 <= n <= 8
  {
    if cell == 0 && n > 0 && cfg.wildcardsOn[n] then Some(AliveValue(n, mode))
    else if cell != 0 && n > 0 && cfg.wildcardsOff[n] then Some(0)
    else None
  }

  /** The value `checkAndUpdateCell` leaves in the next grid for a cell whose
      current value is `cell` and which has `n` live neighbours, or None when it
      writes nothing: the basic rule first, then the wildcards, the later
      override winning. */
  function CellWrite(cell: int, n: int, cfg: RuleConfig, mode: DisplayMode): (w: Option<int>)
    requires WellFormed(cfg) && 0 <= n <= 8
    // Wildcard-on: a dead cell with exactly n > 0 live neighbours is born, whatever the basic rule says.
    ensures cell == 0 && n > 0 && cfg.wildcardsOn[n] ==> w == Some(AliveValue(n, mode))
    // Wildcard-off: a live cell with exactly n > 0 live neighbours dies, in every display mode.
    ensures cell != 0 && n > 0 && cfg.wildcardsOff[n] ==> w == Some(0)
    // With the basic rule switched off, only a wildcard writes.
    ensures cfg.wildcardsOnly ==> (w.Some? <==> WildcardFires(cell, n, cfg))
    // Basic rule, where no wildcard fires (in particular whenever n == 0):
    // a dead cell is written exactly when n equals the upper threshold, and is then born.
    ensures !cfg.wildcardsOnly && !WildcardFires(cell, n, cfg) && cell == 0 ==>
              (w.Some? <==> n == cfg.maximumOnMinimumOff) &&
              (w.Some? ==> w.value == AliveValue(n, mode))
    // a live cell outside the thresholds gets 0 in black and white and its count otherwise,
    ensures !cfg.wildcardsOnly && !WildcardFires(cell, n, cfg) && cell != 0 &&
            (n < cfg.minimumOnMaximumOff || n > cfg.maximumOnMinimumOff) ==>
              w == Some(if mode == BlackWhite then 0 else n)
    // and inside them it survives exactly when n equals one of the thresholds; strictly between, nothing is written.
    ensures !cfg.wildcardsOnly && !WildcardFires(cell, n, cfg) && cell != 0 &&
            cfg.minimumOnMaximumOff <= n <= cfg.maximumOnMinimumOff ==>
              (w.Some? <==> n == cfg.minimumOnMaximumOff || n == cfg.maximumOnMinimumOff) &&
              (w.Some? ==> w.value == AliveValue(n, mode))
    // Written values are 0 or 1 in black and white and lie in [0, 8] otherwise.
    ensures w.Some? && mode == BlackWhite ==> w.value == 0 || w.value == 1
    ensures w.Some? && mode != BlackWhite ==> 0 <= w.value <= 8
  {
    var wild := WildcardWrite(cell, n, cfg, mode);
    if wild.Some? then wild else BasicWrite(cell, n, cfg, mode)
  }

  /** The value a cell has in the next generation, the next grid being all zero before the pass. */
  function NextCell(cell: int, n: int, cfg: RuleConfig, mode: DisplayMode): int
    requires WellFormed(cfg) && 0 <= n <= 8
  {
    CellWrite(cell, n, cfg, mode).GetOr(0)
  }

  /** The next generation of grid g: every cell by NextCell, with neighbour counts taken from g alone. */
  function NextGeneration(g: Grid, cfg: RuleConfig, wrap: bool, mode: DisplayMode): (h: Grid)
    requires IsSquare(g) && WellFormed(cfg)
    ensures IsSquare(h) && |h| == |g|
    ensures forall i, j :: InGrid(g, i, j) ==> h[i][j] == NextCell(g[i][j], NeighbourCount(g, i, j, wrap), cfg, mode)
  {
    seq(|g|, i requires 0 <= i < |g| =>
      seq(|g|, j requires 0 <= j < |g| => NextCell(g[i][j], NeighbourCount(g, i, j, wrap), cfg, mode)))
  }

  /** Row i of the grid a pass of `checkAndUpdateCell` leaves behind in a next
      buffer that held prev; a cell no rule writes keeps its old value. */
  function PassRow(g: Grid, prev: Grid, cfg: RuleConfig, wrap: bool, mode: DisplayMode, i: int): (r: seq<int>)
    requires IsSquare(g) && IsSquare(prev) && |prev| == |g| && WellFormed(cfg) && 0 <= i < |g|
    ensures |r| == |g|
  {
    seq(|g|, j requires 0 <= j < |g| => CellWrite(g[i][j], NeighbourCount(g, i, j, wrap), cfg, mode).GetOr(prev[i][j]))
  }

  /** The first m rows of that grid. */
  function PassRows(g: Grid, prev: Grid, cfg: RuleConfig, wrap: bool, mode: DisplayMode, m: nat): (h: Grid)
    requires IsSquare(g) && IsSquare(prev) && |prev| == |g| && WellFormed(cfg) && m <= |g|
    ensures |h| == m && forall i :: 0 <= i < m ==> |h[i]| == |g|
  {
    if m == 0 then [] else PassRows(g, prev, cfg, wrap, mode, m - 1) + [PassRow(g, prev, cfg, wrap, mode, m - 1)]
  }

  /** The grid one pass of `checkAndUpdateCell` over every cell leaves in a next buffer that held prev. */
  function Pass(g: Grid, prev: Grid, cfg: RuleConfig, wrap: bool, mode: DisplayMode): (h: Grid)
    requires IsSquare(g) && IsSquare(prev) && |prev| == |g| && WellFormed(cfg)
    ensures IsSquare(h) && |h| == |g|
  {
    PassRows(g, prev, cfg, wrap, mode, |g|)
  }

  /** Each cell after the pass: the rule's write, or the old value where the rule writes nothing. */
  lemma {:induction false} PassAt(g: Grid, prev: Grid, cfg: RuleConfig, wrap: bool, mode: DisplayMode, i: int, j: int)
    requires IsSquare(g) && IsSquare(prev) && |prev| == |g| && WellFormed(cfg) && InGrid(g, i, j)
    ensures Pass(g, prev, cfg, wrap, mode)[i][j]
         == CellWrite(g[i][j], NeighbourCount(g, i, j, wrap), cfg, mode).GetOr(prev[i][j])
  {
    PassRowsAt(g, prev, cfg, wrap, mode, |g|, i, j);
  }

  lemma {:induction false} PassRowsAt(g: Grid, prev: Grid, cfg: RuleConfig, wrap: bool, mode: DisplayMode, m: nat, i: int, j: int)
    requires IsSquare(g) && IsSquare(prev) && |prev| == |g| && WellFormed(cfg) && m <= |g|
    requires 0 <= i < m && 0 <= j < |g|
    ensures PassRows(g, prev, cfg, wrap, mode, m)[i][j]
         == CellWrite(g[i][j], NeighbourCount(g, i, j, wrap), cfg, mode).GetOr(prev[i][j])
    decreases m
  {
    if i < m - 1 {
      PassRowsAt(g, prev, cfg, wrap, mode, m - 1, i, j);
    }
  }

  /** A pass into an all-zero buffer yields exactly the next generation; this is
      why the engine keeps the buffer it writes into cleared between steps. */
  lemma PassOverZero(g: Grid, prev: Grid, cfg: RuleConfig, wrap: bool, mode: DisplayMode)
    requires IsSquare(g) && IsSquare(prev) && |prev| == |g| && WellFormed(cfg)
    requires forall i, j :: InGrid(prev, i, j) ==> prev[i][j] == 0
    ensures Pass(g, prev, cfg, wrap, mode) == NextGeneration(g, cfg, wrap, mode)
  {
    var h, n := Pass(g, prev, cfg, wrap, mode), NextGeneration(g, cfg, wrap, mode);
    forall i, j | InGrid(h, i, j) ensures h[i][j] == n[i][j] {
      assert InGrid(prev, i, j);
      PassAt(g, prev, cfg, wrap, mode, i, j);
    }
    GridsEqual(h, n);
  }

  /** Over a buffer that is not cleared, a stale value survives exactly where no
      rule writes: a live cell whose count lies strictly between the thresholds,
      a dead cell that is not born, or, with the basic rule switched off, a live
      cell that no wildcard-off flag hits. */
  lemma PassKeepsStale(g: Grid, prev: Grid, cfg: RuleConfig, wrap: bool, mode: DisplayMode, i: int, j: int)
    requires IsSquare(g) && IsSquare(prev) && |prev| == |g| && WellFormed(cfg) && InGrid(g, i, j)
    ensures CellWrite(g[i][j], NeighbourCount(g, i, j, wrap), cfg, mode).None? ==>
              Pass(g, prev, cfg, wrap, mode)[i][j] == prev[i][j]
    ensures CellWrite(g[i][j], NeighbourCount(g, i, j, wrap), cfg, mode).Some? ==>
              Pass(g, prev, cfg, wrap, mode)[i][j] == NextGeneration(g, cfg, wrap, mode)[i][j]
  {
    PassAt(g, prev, cfg, wrap, mode, i, j);
  }

  /** Every value of a next generation is 0 or 1 in black and white and in [0, 8] otherwise. */
  lemma NextGenerationValues(g: Grid, cfg: RuleConfig, wrap: bool, mode: DisplayMode, i: int, j: int)
    requires IsSquare(g) && WellFormed(cfg) && InGrid(g, i, j)
    ensures mode == BlackWhite ==> NextGeneration(g, cfg, wrap, mode)[i][j] in {0, 1}
    ensures mode != BlackWhite ==> 0 <= NextGeneration(g, cfg, wrap, mode)[i][j] <= 8
  {
  }

  /** A grid with no live cell stays without one, as long as the upper threshold
      is at least 1 (as the sliders keep it): no dead cell has the count needed
      for birth, and no wildcard applies at count 0. */
  lemma AllDeadStaysDead(g: Grid, cfg: RuleConfig, wrap: bool, mode: DisplayMode)
    requires IsSquare(g) && WellFormed(cfg) && cfg.maximumOnMinimumOff >= 1
    requires forall i, j :: InGrid(g, i, j) ==> g[i][j] == 0
    ensures forall i, j :: InGrid(g, i, j) ==> NextGeneration(g, cfg, wrap, mode)[i][j] == 0
  {
    forall i, j | InGrid(g, i, j)
      ensures NextGeneration(g, cfg, wrap, mode)[i][j] == 0
    {
      CountAllDead(g, i, j, wrap);
    }
  }

  /** A live cell with no live neighbour dies, in every display mode, when the
      lower threshold is at least 1. */
  lemma IsolatedCellDies(cell: int, cfg: RuleConfig, mode: DisplayMode)
    requires WellFormed(cfg) && cell != 0 && cfg.minimumOnMaximumOff >= 1
    ensures NextCell(cell, 0, cfg, mode) == 0
  {
  }

  /** The settings the Reset button restores: thresholds 2 and 3, basic rule on, no wildcard. */
  function ClassicRules(): (cfg: RuleConfig)
    ensures WellFormed(cfg) && InSliderRange(cfg)
  {
    RuleConfig(2, 3, false, seq(9, _ => false), seq(9, _ => false))
  }

  /** With the classic settings in black and white the rule is Conway's:
      a live cell survives with 2 or 3 live neighbours, a dead one is born with 3. */
  lemma ClassicIsConway(cell: int, n: int)
    requires 0 <= n <= 8
    ensures NextCell(cell, n, ClassicRules(), BlackWhite)
         == if (cell != 0 && (n == 2 || n == 3)) || (cell == 0 && n == 3) then 1 else 0
  {
  }
}
