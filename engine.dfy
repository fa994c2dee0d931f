/**
 The stateful part of the Game of Life engine: the board as a 2D array, the
 epoch counter, the epoch limit and the all-dead flag, with the operations
 that change them — toggling a cell, computing the next generation, resetting
 and one iteration of the run loop.
 */
module Engine {
  import opened Life

  class GameOfLife {
    /** Shape of the board, fixed at construction. */
    const rows: nat
    const cols: nat
    /** Number of generations one run may compute. */
    const epochs: int

    var board: array2<int>
    var crtEpoch: int
    var allDead: bool

    /** The board's contents as a grid, row by row. */
    function Cells(): (g: Grid)
      reads `board, board
      ensures HasShape(g, board.Length0, board.Length1) && Rect(g)
      ensures |g| > 0 ==> Width(g) == board.Length1
      ensures forall i, j :: 0 <= i < board.Length0 && 0 <= j < board.Length1 ==> g[i][j] == board[i, j]
    {
      Snapshot(board)
    }


    /** The object invariant: the board keeps its shape and holds only 0 and 1,
        and the counter lies between 0 and the epoch limit (it is 0 when the
        limit is not positive). */
    ghost predicate Valid()
      reads this, board
    {
      board.Length0 == rows && board.Length1 == cols &&
      Binary(Cells()) &&
      0 <= crtEpoch && (crtEpoch <= epochs || crtEpoch == 0)
    }

    /** The state a reset leaves: an empty board at epoch 0 with the flag clear. */
    predicate IsReset()
      reads this, board
    {
      Cells() == Zeros(rows, cols) && crtEpoch == 0 && !allDead
    }

    /** The run loop's guard is false: the limit is reached or the last step
        started from an empty board.  Exactly then a run computes no generation. */
    predicate Finished()
      reads this, board
      ensures Finished() <==> RunLength(Cells(), allDead, crtEpoch, epochs) == 0
    {
      !(crtEpoch < epochs && !allDead)
    }

    /** A game over an nCells x nCells board, all dead, at epoch 0.  The board
        needs at least one cell per side: the cell size is the window size
        divided by nCells. */
    constructor (epochs: int, nCells: nat := 20)
      requires nCells > 0
      ensures Valid() && fresh(board)
      ensures rows == nCells && cols == nCells && this.epochs == epochs
      ensures Cells() == Zeros(nCells, nCells) && crtEpoch == 0 && !allDead
    {
      this.rows := nCells;
      this.cols := nCells;
      this.epochs := epochs;
      crtEpoch := 0;
      allDead := false;
      board := new int[nCells, nCells]((_, _) => 0);
      new;
      assert Cells() == Zeros(nCells, nCells) by { SameGrid(Cells(), Zeros(nCells, nCells)); }
    }

    /** A click on cell (x, y): a live cell dies, a dead cell comes alive,
        nothing else changes. */
    method Toggle(x: nat, y: nat)
      requires Valid() && x < rows && y < cols
      modifies board
      ensures Valid()
      ensures board[x, y] == 1 - old(board[x, y])
      ensures forall i, j :: 0 <= i < rows && 0 <= j < cols && (i != x || j != y) ==> board[i, j] == old(board[i, j])
      ensures Cells() == Flip(old(Cells()), x, y)
    {
      ghost var before := Cells();
      board[x, y] := if board[x, y] != 0 then 0 else 1;
      FlipBinary(before, x, y);
      SameGrid(Cells(), Flip(before, x, y));
    }

    /** Computes the next generation into a fresh board from the current one,
        and sets the all-dead flag to whether the CURRENT (pre-step) board has
        no live cell. */
    method NextEpoch()
      requires Valid()
      modifies this
      ensures Valid() && fresh(board)
      ensures Cells() == Step(old(Cells()))
      ensures allDead == AllDead(old(Cells()))
      ensures crtEpoch == old(crtEpoch)
    {
      var current := board;
      ghost var g := Snapshot(current);
      var dead := true;
      var next := new int[rows, cols]((_, _) => 0);
      for i := 0 to rows
        modifies next
        invariant forall r, c :: 0 <= r < i && 0 <= c < cols ==> next[r, c] == NextCell(g, r, c)
        invariant dead <==> forall r, c :: 0 <= r < i && 0 <= c < cols ==> g[r][c] == 0
      {
        var rowDead := NextRow(current, next, i);
        dead := dead && rowDead;
      }
      ghost var h := Step(g);
      assert forall r, c :: 0 <= r < rows && 0 <= c < cols ==> next[r, c] == h[r][c];
      assert dead == AllDead(g);
      allDead := dead;
      board := next;
      SameGrid(Cells(), h);
    }

    /** Clears the board and restarts the counter and the flag. */
    method Reset()
      requires Valid()
      modifies this
      ensures Valid() && fresh(board)
      ensures Cells() == Zeros(rows, cols) && crtEpoch == 0 && !allDead
      ensures Finished() <==> epochs <= 0
    {
      board := new int[rows, cols]((_, _) => 0);
      crtEpoch := 0;
      allDead := false;
      SameGrid(Cells(), Zeros(rows, cols));
    }

    /** One iteration of the run loop.  While the limit is not reached and the
        last step did not start from an empty board, it computes a generation
        and advances the counter by one, and another iteration is scheduled;
        otherwise the game is reset and nothing is scheduled. */
    method LaunchSimulation() returns (scheduled: bool)
      requires Valid()
      modifies this
      ensures Valid() && fresh(board)
      ensures scheduled == old(!Finished())
      ensures scheduled ==> Cells() == Step(old(Cells())) && crtEpoch == old(crtEpoch) + 1
                            && allDead == AllDead(old(Cells()))
      ensures !scheduled ==> Cells() == Zeros(rows, cols) && crtEpoch == 0 && !allDead
    {
      if crtEpoch < epochs && !allDead {
        NextEpoch();
        crtEpoch := crtEpoch + 1;
        scheduled := true;
      } else {
        Reset();
        scheduled := false;
      }
    }

    /** A whole run: iterations of the run loop until one stops scheduling the
        next.  It computes RunLength generations and ends with the game reset. */
    method Run() returns (generations: nat)
      requires Valid()
      modifies this
      ensures Valid()
      ensures generations == RunLength(old(Cells()), old(allDead), old(crtEpoch), epochs)
      ensures generations <= if epochs - old(crtEpoch) < 0 then 0 else epochs - old(crtEpoch)
      ensures IsReset()
    {
      ghost var total := RunLength(Cells(), allDead, crtEpoch, epochs);
      generations := 0;
      var more := RunIteration(total, 0);
      while more
        invariant Valid()
        invariant more ==> crtEpoch <= epochs && generations + 1 + RunLength(Cells(), allDead, crtEpoch, epochs) == total
        invariant !more ==> generations == total && IsReset()
        decreases if more then epochs - crtEpoch + 1 else 0
      {
        generations := generations + 1;
        more := RunIteration(total, generations);
      }
    }

    /** One iteration of the run loop, seen through the generations still to come. */
    method RunIteration(ghost total: nat, ghost done: nat) returns (more: bool)
      requires Valid()
      requires done + RunLength(Cells(), allDead, crtEpoch, epochs) == total
      modifies this
      ensures Valid()
      ensures more ==> crtEpoch == old(crtEpoch) + 1 <= epochs && done + 1 + RunLength(Cells(), allDead, crtEpoch, epochs) == total
      ensures !more ==> done == total && IsReset()
    {
      ghost var g, dead, epoch := Cells(), allDead, crtEpoch;
      more := LaunchSimulation();
      RunLengthAfterIteration(g, dead, epoch, Cells(), allDead, crtEpoch, epochs, done, total);
    }
  }

  /** The contents of a 2D array as a grid, row by row. */
  function Snapshot(b: array2<int>): (g: Grid)
    reads b
    ensures HasShape(g, b.Length0, b.Length1) && Rect(g)
    ensures |g| > 0 ==> Width(g) == b.Length1
    ensures forall i, j :: 0 <= i < b.Length0 && 0 <= j < b.Length1 ==> g[i][j] == b[i, j]
  {
    seq(b.Length0, i requires 0 <= i < b.Length0 reads b => RowOf(b, i))
  }

  /** Fills row i of `next` with the next generation of the board `current`
      and reports whether that row of `current` has no live cell. */
  method NextRow(current: array2<int>, next: array2<int>, i: nat) returns (dead: bool)
    requires current != next && i < current.Length0
    requires next.Length0 == current.Length0 && next.Length1 == current.Length1
    modifies next
    ensures forall c :: 0 <= c < next.Length1 ==> next[i, c] == NextCell(Snapshot(current), i, c)
    ensures forall r, c :: 0 <= r < next.Length0 && r != i && 0 <= c < next.Length1 ==> next[r, c] == old(next[r, c])
    ensures dead <==> forall c :: 0 <= c < current.Length1 ==> current[i, c] == 0
  {
    dead := true;
    ghost var g := Snapshot(current);
    for j := 0 to current.Length1
      modifies next
      invariant forall c :: 0 <= c < j ==> next[i, c] == NextCell(g, i, c)
      invariant forall r, c :: 0 <= r < next.Length0 && r != i && 0 <= c < next.Length1 ==> next[r, c] == old(next[r, c])
      invariant dead <==> forall c :: 0 <= c < j ==> current[i, c] == 0
    {
      next[i, j] := NextCell(Snapshot(current), i, j);
      if current[i, j] != 0 {
        dead := false;
      }
    }
  }

  /** Row i of a 2D array. */
  function RowOf(b: array2<int>, i: nat): (r: seq<int>)
    requires i < b.Length0
    reads b
    ensures |r| == b.Length1 && forall j :: 0 <= j < b.Length1 ==> r[j] == b[i, j]
  {
    seq(b.Length1, j requires 0 <= j < b.Length1 reads b => b[i, j])
  }

  /** Two grids of the same shape that agree cell by cell are equal. */
  lemma SameGrid(a: Grid, b: Grid)
    requires |a| == |b| && forall i :: 0 <= i < |a| ==> |a[i]| == |b[i]|
    requires forall i, j :: 0 <= i < |a| && 0 <= j < |a[i]| ==> a[i][j] == b[i][j]
    ensures a == b
  {
    forall i | 0 <= i < |a| ensures a[i] == b[i] { }
  }
}
