# Game of Life engine, modelled in Dafny

This project models the simulation engine inside the `GameOfLife` class of
`GameOfLife.py`. The engine keeps a rectangular board of integer cells, where
0 is dead and 1 is alive. Its operations:

- counts a cell's live neighbours over the 3x3 window clipped at the edges
  (`get_neighbors`);
- applies the B3/S23 rule (`get_new_state`);
- computes the next generation synchronously into a fresh board
  (`next_epoch`), which also records whether the board it started from was
  empty;
- flips one cell on a click;
- resets the game;
- runs the loop that advances while `crt_epoch < epochs and not all_dead`
  and resets when the loop stops.

The project has three modules:

- `Life` (`life.dfy`) is the pure part: grids as `seq<seq<int>>` and the
  neighbour count `Neighbors`, written like the source as a window sum minus
  the centre. It also holds the cell rule `NextCell`, the generation `Step`,
  the flip `Flip` and `RunLength`, the number of generations a run computes.
  An independent reference sits beside them: the eight-term Moore count
  `MooreCount` and Conway's rule `Conway`. Lemmas connect the engine's
  definitions to that reference.
- `Engine` (`engine.dfy`) is the stateful part: the class `GameOfLife`, with
  the board as an `array2<int>` and the fields `crtEpoch`, `epochs` and
  `allDead`. `NextEpoch` is the source's nested loop writing into a freshly
  allocated array, with the inner loop factored into `NextRow`. Each method is
  proved against the functions of `Life`.
- `Patterns` (`patterns.dfy`) holds lemmas on classic configurations: a lone
  cell dies, the block is a still life, and the blinker has period 2.

The model keeps one quirk of the code on purpose. `all_dead` is set from the
board *before* the step (`GameOfLife.py:155-157`), not from the board the step
produces. So a run started on an empty board still computes one generation
before it stops (`Life.RunFromEmpty`).

## Model

| member | source | states |
|---|---|---|
| Life.WindowStart | GameOfLife.py:169-172 | the window starts at `i` or one before it, never below 0; that it is exactly `i - 1` clipped at 0 is stated by `Life.WindowIsClippedNeighbourhood` |
| Life.WindowEnd | GameOfLife.py:170-173 | the window's end lies after `i` and never beyond the axis length; at the last index it is exactly the length |
| Life.WindowIsClippedNeighbourhood | GameOfLife.py:169-173 | the window along an axis is exactly the on-board indices within distance 1 of `i`: no out-of-range index and no wrap-around, corners included |
| Life.WindowSumIsMooreCount | GameOfLife.py:169-176 | the sum over the clipped window minus the centre equals the sum of the eight Moore neighbours, with off-board cells counted as dead |
| Life.Neighbors | GameOfLife.py:161-178 | `get_neighbors` as written (the window sum minus the centre) is the number of live Moore neighbours, off-board cells dead; on a 0/1 board it lies in 0..8 |
| Life.Zeros | GameOfLife.py:64 | the all-zero board has the requested shape and holds no live cell |
| Life.NextCell | GameOfLife.py:181-197 | the new state of a 0/1 cell is again 0 or 1 |
| Life.ConwayRule | GameOfLife.py:189-197 | on a 0/1 board the engine's rule (0 below 2 or above 3 neighbours, 1 at 3, unchanged at 2) is Conway's B3/S23 rule on the Moore count |
| Life.IsolatedCellDies | GameOfLife.py:189-192 | a cell with no live Moore neighbour is dead in the next generation |
| Life.Step | GameOfLife.py:150-158 | the next generation has the board's shape, and every cell (i, j) is the rule applied to the OLD board; a 0/1 board stays 0/1 |
| Life.StepAllDead | GameOfLife.py:150-158 | with no spontaneous birth, an empty board steps to itself |
| Life.Flip | GameOfLife.py:96 | a click sets a non-zero cell to 0, sets a zero cell to 1 and leaves every other cell unchanged |
| Life.FlipBinary | GameOfLife.py:96 | on a 0/1 board the flip turns 0 into 1 and 1 into 0, and the board stays 0/1 |
| Life.FlipTwice | GameOfLife.py:96 | toggling the same cell twice restores a 0/1 board |
| Life.FlipTwiceNeedsBinary | GameOfLife.py:96 | a remark on `FlipTwice`, not a property of reachable states: line 96 applied twice to a cell holding 2 ends at 1, so the 0/1 premise (kept by `Valid`) is what makes toggling an involution |
| Life.RunLengthAfterIteration | GameOfLife.py:130-142 | an iteration that steps reduces the generations still to come by one; an iteration that stops leaves none |
| Life.RunLength | GameOfLife.py:130-142 | the number of rescheduled calls that step: none exactly when the guard `crt_epoch < epochs and not all_dead` fails, and at most `epochs - crt_epoch` (none if that is negative) |
| Life.RunFromEmpty | GameOfLife.py:130-157 | started on an empty board with the flag clear and epochs left, a run computes exactly one generation |
| Life.RunStopsAfterOne | GameOfLife.py:130-142 | a started run stops after one generation exactly when that generation reaches the limit or was computed from an empty board |
| Engine.GameOfLife.Finished | GameOfLife.py:130 | `not (crt_epoch < epochs and not all_dead)`, the negated guard, holds exactly when a run from the current state computes no generation |
| Engine.GameOfLife.constructor | GameOfLife.py:10-19 | a new game (`n_cells` defaults to 20 and must be positive) has an `n_cells` x `n_cells` empty board, epoch 0, the flag clear and the given epoch limit |
| Engine.GameOfLife.Toggle | GameOfLife.py:96 | the clicked cell becomes `1 - old` and every other cell keeps its value; the board is `Flip` of the old board and stays 0/1 |
| Engine.GameOfLife.NextEpoch | GameOfLife.py:145-158 | the new board is freshly allocated and equals `Step` of the old board; the flag is true exactly when the OLD board had no live cell; the counter is unchanged |
| Engine.NextRow | GameOfLife.py:153-156 | row i of the new array is the rule applied to the old array, other rows are untouched, and the result says whether row i of the old array is empty; the old array is distinct from the new one, so no updated cell is read |
| Engine.GameOfLife.Reset | GameOfLife.py:121-123 | the board keeps its shape and all its cells become 0; the counter is 0 and the flag clear, so the game is finished again only when the limit is not positive |
| Engine.GameOfLife.LaunchSimulation | GameOfLife.py:130-142 | it steps exactly when `crt_epoch < epochs and not all_dead`, and then the board is `Step` of the old board, the counter grows by exactly 1 and the flag describes the old board; otherwise the game is reset |
| Engine.GameOfLife.RunIteration | GameOfLife.py:130-142 | one call of `launch_simulation` as seen by a whole run: when it schedules another, the counter grows by 1 and stays within the limit, and the generations left drop by one; when it stops, the game is reset |
| Engine.GameOfLife.Run | GameOfLife.py:130-142 | the chain of rescheduled calls computes exactly `RunLength` generations from the starting state, at most `epochs - crt_epoch`, and ends in the reset state |
| Patterns.Step3x3 | GameOfLife.py:150-158 | the next generation of any 0/1 3x3 board, cell by cell, under Conway's rule |
| Patterns.StepRow3 | GameOfLife.py:152-154 | row i of the next generation of a 0/1 board with three columns, under Conway's rule |
| Patterns.StepRow4 | GameOfLife.py:152-154 | row i of the next generation of a 0/1 board with four columns, under Conway's rule |
| Patterns.LonelyDies | GameOfLife.py:189-192 | a single live cell in a 3x3 board dies and leaves the board empty |
| Patterns.BlinkerVerticalToHorizontal | GameOfLife.py:150-158 | three live cells with first index 1 (a vertical line on screen) become three with second index 1 |
| Patterns.BlinkerHorizontalToVertical | GameOfLife.py:150-158 | three live cells with second index 1 (a horizontal line on screen) become three with first index 1 |
| Patterns.BlinkerOscillates | GameOfLife.py:150-158 | the blinker changes in one generation and returns after two |
| Patterns.BlockIsStill | GameOfLife.py:150-158 | the 2x2 block in a 4x4 board is a still life |

## Left out

- The tkinter user interface is not modelled because it has no simulation logic. This covers the window, canvas, buttons, label, the `info` messages, the colours and `show_board`.
- Layout arithmetic for cell and canvas sizes is not modelled because it is display geometry.
- Engine.GameOfLife.constructor: requires `nCells > 0`, because the source's `init_board` divides the window size by `n_cells` (GameOfLife.py:57) and raises ZeroDivisionError for 0; that error is not modelled as an outcome. The default `n_cells=20` is kept, and `windows_size` with its default 600 is left out.
- The conversion of a click's pixel position to a cell is not modelled because it uses float division on UI event data. `Toggle` takes grid coordinates instead.
- Engine.GameOfLife.Toggle: requires in-range coordinates. The source would raise an IndexError for a too-large index, and numpy's negative indices would wrap around. Neither can come from a click inside the canvas.
- Timer-driven rescheduling with `root.after(100, ...)` and the main loop is not modelled because it is event-loop plumbing. `LaunchSimulation` is one call; `Run` replaces the rescheduling chain with an explicit loop of such calls.
- numpy is not modelled. `np.zeros`, slicing and `np.sum` become fresh Dafny arrays, sequences and the explicit sums `RowSum` and `BlockSum`. Cells are unbounded integers, not fixed-width ones. This is harmless because the sums never exceed 9.
- Engine.GameOfLife.Toggle: its `1 - old` postcondition relies on the invariant that the board holds only 0 and 1. For other values the model's `Flip` matches the code, which sends any non-zero value to 0.
- Life.ConwayRule: stated only for 0/1 boards. On other values the code keeps the cell's value at two neighbours, and `NextCell` models that as written.
- The board is `n_cells` x `n_cells` as the constructor builds it. `Step` and `NextEpoch` are stated for any rectangular shape.
