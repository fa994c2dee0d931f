/**
 The pure core of the Game of Life engine: the board as a rectangular grid of
 integer cells, the clipped (non-toroidal) neighbour count, the B3/S23 cell
 rule and the synchronous generation step.

 Cells are `int`, as in the numpy board the engine keeps; the engine only ever
 stores 0 (dead) and 1 (alive), which `Binary` states.  The first index is
 the numpy `shape[0]` axis and `g[i]` (called row i below) holds the cells
 with first index i.  The display draws the first index along the screen's x
 axis, so row i of the grid is a vertical line of cells on screen.
 */
module Life {

  type Grid = seq<seq<int>>

  /** Every row has the length of the first one. */
  predicate Rect(g: Grid)
  {
    forall i :: 0 <= i < |g| ==> |g[i]| == |g[0]|
  }

  /** Number of columns of a rectangular grid (0 when there are no rows). */
  function Width(g: Grid): nat
  {
    if |g| == 0 then 0 else |g[0]|
  }

  /** A grid of the given shape. */
  predicate HasShape(g: Grid, rows: nat, cols: nat)
  {
    |g| == rows && forall i :: 0 <= i < |g| ==> |g[i]| == cols
  }

  /** Every cell is dead (0) or alive (1). */
  predicate Binary(g: Grid)
  {
    forall i, j :: 0 <= i < |g| && 0 <= j < |g[i]| ==> g[i][j] == 0 || g[i][j] == 1
  }

  /** No cell is alive. */
  predicate AllDead(g: Grid)
  {
    forall i, j :: 0 <= i < |g| && 0 <= j < |g[i]| ==> g[i][j] == 0
  }

  /** The board of the given shape with every cell dead. */
  function Zeros(rows: nat, cols: nat): (g: Grid)
    ensures HasShape(g, rows, cols) && Rect(g) && Binary(g) && AllDead(g)
  {
    seq(rows, _ => seq(cols, _ => 0))
  }

  // ---------------------------------------------------------------------------
  // The clipped 3x3 window around a cell
  // ---------------------------------------------------------------------------

  /** First index of the window along one axis: one before `i`, clipped at 0. */
  function WindowStart(i: nat): (s: nat)
    ensures s <= i <= s + 1
  {
    if i > 0 then i - 1 else i
  }

  /** One past the last index of the window along an axis of length `n`:
      one after `i`, clipped at the last index `n - 1`. */
  function WindowEnd(i: nat, n: nat): (e: nat)
    requires i < n
    ensures i < e <= n && e <= i + 2
    ensures i == n - 1 ==> e == n
  {
    if i < n - 1 then i + 2 else i + 1
  }

  /** Along an axis of length n the window around i is exactly the indices
      within distance 1 of i that lie on the board: it never leaves [0, n)
      and never wraps around to the opposite edge. */
  lemma WindowIsClippedNeighbourhood(i: nat, n: nat, k: int)
    requires i < n
    ensures 0 <= WindowStart(i) <= i < WindowEnd(i, n) <= n
    ensures WindowStart(i) <= k < WindowEnd(i, n) <==> 0 <= k < n && i - 1 <= k <= i + 1
  {
  }

  /** Sum of `row[lo..hi]`. */
  function RowSum(row: seq<int>, lo: nat, hi: nat): int
    requires lo <= hi <= |row|
    decreases hi - lo
  {
    if lo == hi then 0 else RowSum(row, lo, hi - 1) + row[hi - 1]
  }

  /** Sum of the block of rows `r0..r1` and columns `c0..c1`, like `np.sum`
      of the slice `g[r0:r1, c0:c1]`. */
  function BlockSum(g: Grid, r0: nat, r1: nat, c0: nat, c1: nat): int
    requires Rect(g) && r0 <= r1 <= |g| && c0 <= c1 <= Width(g)
    decreases r1 - r0
  {
    if r0 == r1 then 0 else BlockSum(g, r0, r1 - 1, c0, c1) + RowSum(g[r1 - 1], c0, c1)
  }

  // ---------------------------------------------------------------------------
  // An independent reference: the eight Moore neighbours, off-board ones dead
  // ---------------------------------------------------------------------------

  /** The cell at (r, c), or 0 when (r, c) lies off the board. */
  function At(g: Grid, r: int, c: int): int
  {
    if 0 <= r < |g| && 0 <= c < |g[r]| then g[r][c] else 0
  }

  /** Sum of the eight Moore neighbours of (i, j); off-board cells count as dead. */
  function MooreCount(g: Grid, i: int, j: int): int
  {
    At(g, i - 1, j - 1) + At(g, i - 1, j) + At(g, i - 1, j + 1) +
    At(g, i, j - 1)                       + At(g, i, j + 1) +
    At(g, i + 1, j - 1) + At(g, i + 1, j) + At(g, i + 1, j + 1)
  }

  /** The three cells of row `r` in columns j-1, j, j+1, off-board ones 0. */
  function Triple(g: Grid, r: int, j: int): int
  {
    At(g, r, j - 1) + At(g, r, j) + At(g, r, j + 1)
  }

  /** The clipped window of one row sums to the three cells around column j. */
  lemma RowWindow(g: Grid, r: nat, j: nat)
    requires Rect(g) && r < |g| && j < Width(g)
    ensures RowSum(g[r], WindowStart(j), WindowEnd(j, Width(g))) == Triple(g, r, j)
  {
    var row, n := g[r], Width(g);
    assert |row| == n;
    var lo, hi := WindowStart(j), WindowEnd(j, n);
    if j > 0 && j < n - 1 {
      assert RowSum(row, lo, hi) == RowSum(row, lo, lo + 2) + row[j + 1];
      assert RowSum(row, lo, lo + 2) == RowSum(row, lo, lo + 1) + row[j];
      assert RowSum(row, lo, lo + 1) == row[j - 1];
    } else if j > 0 {
      assert RowSum(row, lo, hi) == RowSum(row, lo, lo + 1) + row[j];
      assert RowSum(row, lo, lo + 1) == row[j - 1];
    } else if j < n - 1 {
      assert RowSum(row, lo, hi) == RowSum(row, lo, lo + 1) + row[j + 1];
      assert RowSum(row, lo, lo + 1) == row[j];
    } else {
      assert RowSum(row, lo, hi) == row[j];
    }
  }

  /** Sum of `g[r][c0..c1]`, or 0 when row r lies off the board. */
  function RowSumAt(g: Grid, r: int, c0: nat, c1: nat): int
    requires Rect(g) && c0 <= c1 <= Width(g)
  {
    if 0 <= r < |g| then RowSum(g[r], c0, c1) else 0
  }

  /** The clipped window is the sum of the rows i-1, i, i+1 that lie on the board. */
  lemma BlockWindow(g: Grid, i: nat, c0: nat, c1: nat)
    requires Rect(g) && i < |g| && c0 <= c1 <= Width(g)
    ensures BlockSum(g, WindowStart(i), WindowEnd(i, |g|), c0, c1)
            == RowSumAt(g, i - 1, c0, c1) + RowSumAt(g, i, c0, c1) + RowSumAt(g, i + 1, c0, c1)
  {
    var m := |g|;
    var lo, hi := WindowStart(i), WindowEnd(i, m);
    if i > 0 && i < m - 1 {
      assert BlockSum(g, lo, hi, c0, c1) == BlockSum(g, lo, lo + 2, c0, c1) + RowSum(g[i + 1], c0, c1);
      assert BlockSum(g, lo, lo + 2, c0, c1) == BlockSum(g, lo, lo + 1, c0, c1) + RowSum(g[i], c0, c1);
      assert BlockSum(g, lo, lo + 1, c0, c1) == RowSum(g[i - 1], c0, c1);
    } else if i > 0 {
      assert BlockSum(g, lo, hi, c0, c1) == BlockSum(g, lo, lo + 1, c0, c1) + RowSum(g[i], c0, c1);
      assert BlockSum(g, lo, lo + 1, c0, c1) == RowSum(g[i - 1], c0, c1);
    } else if i < m - 1 {
      assert BlockSum(g, lo, hi, c0, c1) == BlockSum(g, lo, lo + 1, c0, c1) + RowSum(g[i + 1], c0, c1);
      assert BlockSum(g, lo, lo + 1, c0, c1) == RowSum(g[i], c0, c1);
    } else {
      assert BlockSum(g, lo, hi, c0, c1) == RowSum(g[i], c0, c1);
    }
  }

  /** The clipped window sum minus the centre is the number of live Moore
      neighbours, with cells beyond the edge counted as dead (no wrap-around). */
  lemma WindowSumIsMooreCount(g: Grid, i: nat, j: nat)
    requires Rect(g) && i < |g| && j < Width(g)
    ensures BlockSum(g, WindowStart(i), WindowEnd(i, |g|), WindowStart(j), WindowEnd(j, Width(g))) - g[i][j]
            == MooreCount(g, i, j)
  {
    var c0, c1 := WindowStart(j), WindowEnd(j, Width(g));
    BlockWindow(g, i, c0, c1);
    RowWindow(g, i, j);
    if i > 0 { RowWindow(g, i - 1, j); }
    if i + 1 < |g| { RowWindow(g, i + 1, j); }
    assert RowSumAt(g, i - 1, c0, c1) == Triple(g, i - 1, j);
    assert RowSumAt(g, i + 1, c0, c1) == Triple(g, i + 1, j);
  }

  /** Neighbour count of cell (i, j) as the engine computes it: the sum over
      the clipped window minus the cell itself.  It is the number of live
      Moore neighbours, and on a 0/1 board it lies in 0..8. */
  function Neighbors(g: Grid, i: nat, j: nat): (n: int)
    requires Rect(g) && i < |g| && j < Width(g)
    ensures n == MooreCount(g, i, j)
    ensures Binary(g) ==> 0 <= n <= 8
  {
    WindowSumIsMooreCount(g, i, j);
    BlockSum(g, WindowStart(i), WindowEnd(i, |g|), WindowStart(j), WindowEnd(j, Width(g))) - g[i][j]
  }

  // ---------------------------------------------------------------------------
  // The cell rule and the generation step
  // ---------------------------------------------------------------------------

  /** New state of cell (i, j): dead with fewer than 2 or more than 3
      neighbours, alive with exactly 3, unchanged with exactly 2. */
  function NextCell(g: Grid, i: nat, j: nat): (s: int)
    requires Rect(g) && i < |g| && j < Width(g)
    ensures (g[i][j] == 0 || g[i][j] == 1) ==> (s == 0 || s == 1)
  {
    var n := Neighbors(g, i, j);
    if n < 2 || n > 3 then 0
    else if n == 3 then 1
    else g[i][j]
  }

  /** Conway's B3/S23 rule on the Moore count: a cell is alive in the next
      generation exactly when it has 3 live neighbours, or it is alive and has 2. */
  function Conway(g: Grid, i: int, j: int): int
  {
    var n := MooreCount(g, i, j);
    if n == 3 || (At(g, i, j) == 1 && n == 2) then 1 else 0
  }

  /** On a 0/1 board the engine's rule is Conway's B3/S23 rule. */
  lemma ConwayRule(g: Grid, i: nat, j: nat)
    requires Rect(g) && Binary(g) && i < |g| && j < Width(g)
    ensures NextCell(g, i, j) == Conway(g, i, j)
  {
  }

  /** The next generation: every cell computed from the old board only. */
  function Step(g: Grid): (r: Grid)
    requires Rect(g)
    ensures HasShape(r, |g|, Width(g)) && Rect(r) && Width(r) == Width(g)
    ensures forall i, j :: 0 <= i < |g| && 0 <= j < Width(g) ==> r[i][j] == NextCell(g, i, j)
    ensures Binary(g) ==> Binary(r)
  {
    seq(|g|, i requires 0 <= i < |g| => seq(Width(g), j requires 0 <= j < Width(g) => NextCell(g, i, j)))
  }

  /** No spontaneous life: the empty board stays empty. */
  lemma StepAllDead(g: Grid)
    requires Rect(g) && AllDead(g)
    ensures Step(g) == g
  {
    var r := Step(g);
    forall i, j | 0 <= i < |g| && 0 <= j < Width(g)
      ensures r[i][j] == g[i][j]
    {
      }
    forall i | 0 <= i < |g| ensures r[i] == g[i] { }
  }

  /** A live cell whose eight neighbours are all dead dies. */
  lemma IsolatedCellDies(g: Grid, i: nat, j: nat)
    requires Rect(g) && i < |g| && j < Width(g)
    requires MooreCount(g, i, j) == 0
    ensures NextCell(g, i, j) == 0
  {
  }

  // ---------------------------------------------------------------------------
  // Toggling a cell
  // ---------------------------------------------------------------------------

  /** The board after a click on (x, y): a live (non-zero) cell becomes 0,
      a dead one becomes 1. */
  function Flip(g: Grid, x: nat, y: nat): (r: Grid)
    requires x < |g| && y < |g[x]|
    ensures |r| == |g| && forall i :: 0 <= i < |g| ==> |r[i]| == |g[i]|
    ensures r[x][y] == if g[x][y] != 0 then 0 else 1
    ensures forall i, j :: 0 <= i < |g| && 0 <= j < |g[i]| && (i != x || j != y) ==> r[i][j] == g[i][j]
  {
    g[x := g[x][y := if g[x][y] != 0 then 0 else 1]]
  }

  /** On a 0/1 board a flip turns 0 into 1 and 1 into 0 and keeps the board 0/1. */
  lemma FlipBinary(g: Grid, x: nat, y: nat)
    requires Binary(g) && x < |g| && y < |g[x]|
    ensures Flip(g, x, y)[x][y] == 1 - g[x][y]
    ensures Binary(Flip(g, x, y))
  {
  }

  /** Toggling the same cell twice restores a 0/1 board. */
  lemma FlipTwice(g: Grid, x: nat, y: nat)
    requires Binary(g) && x < |g| && y < |g[x]|
    ensures Flip(Flip(g, x, y), x, y) == g
  {
    var r := Flip(Flip(g, x, y), x, y);
    assert r[x] == g[x];
  }

  /** On a board holding other values the flip is not an involution: a cell
      holding 2 becomes 0 and then 1. */
  lemma FlipTwiceNeedsBinary()
    ensures Flip(Flip([[2]], 0, 0), 0, 0) == [[1]]
  {
    var g: Grid := [[2]];
    assert g[0][0] != 0;
    var once := Flip(g, 0, 0);
    assert once[0] == [0];
    assert once[0][0] == 0;
    assert Flip(once, 0, 0)[0] == [1];
  }

  // ---------------------------------------------------------------------------
  // The run loop
  // ---------------------------------------------------------------------------

  /** Number of generations the run loop computes from board `g` with the
      all-dead flag `dead`, the counter at `epoch` and the limit `limit`.  The
      loop goes on while `epoch < limit && !dead`; the flag each iteration
      sees describes the board BEFORE the previous step. */
  function RunLength(g: Grid, dead: bool, epoch: int, limit: int): (n: nat)
    requires Rect(g)
    ensures n == 0 <==> !(epoch < limit && !dead)
    ensures n <= if limit - epoch < 0 then 0 else limit - epoch
    decreases if limit - epoch < 0 then 0 else limit - epoch
  {
    if epoch < limit && !dead then 1 + RunLength(Step(g), AllDead(g), epoch + 1, limit)
    else 0
  }

  /** Bookkeeping for one iteration of the loop: if the iteration moves the
      state (g, dead, epoch) to (g', dead', epoch'), the generations still to
      come drop by one; if it stops, none were left. */
  lemma RunLengthAfterIteration(g: Grid, dead: bool, epoch: int, g': Grid, dead': bool, epoch': int,
                                limit: int, done: nat, total: nat)
    requires Rect(g) && Rect(g') && done + RunLength(g, dead, epoch, limit) == total
    requires epoch < limit && !dead ==> g' == Step(g) && dead' == AllDead(g) && epoch' == epoch + 1
    ensures epoch < limit && !dead ==> done + 1 + RunLength(g', dead', epoch', limit) == total
    ensures !(epoch < limit && !dead) ==> done == total
  {
  }

  /** Because the flag describes the board before the step, a run started on
      an empty board still computes exactly one generation before stopping. */
  lemma RunFromEmpty(g: Grid, epoch: int, limit: int)
    requires Rect(g) && AllDead(g) && epoch < limit
    ensures RunLength(g, false, epoch, limit) == 1
  {
    assert RunLength(Step(g), AllDead(g), epoch + 1, limit) == 0;
  }

  /** A run that has started stops after its first generation exactly when
      that generation reaches the limit or was computed from an empty board. */
  lemma RunStopsAfterOne(g: Grid, epoch: int, limit: int)
    requires Rect(g) && epoch < limit
    ensures RunLength(g, false, epoch, limit) == 1 <==> epoch + 1 == limit || AllDead(g)
  {
    if epoch + 1 < limit && !AllDead(g) {
      assert RunLength(g, false, epoch, limit) == 1 + RunLength(Step(g), false, epoch + 1, limit);
      assert RunLength(Step(g), false, epoch + 1, limit) >= 1;
    }
  }
}
