/**
 * The grid manager: owns the 10 by 10 array of cells, applies validated
 * moves in place and reports completion, counting each completion it
 * reports in the shared statistics.
 */
module Grid {
  import opened Validation
  import opened Boards
  import opened Stats

  /** The contents of a two-dimensional array, row by row. */
  ghost function Snapshot(a: array2<int>): (b: Board)
    reads a
    ensures |b| == a.Length0
    ensures forall i :: 0 <= i < a.Length0 ==> |b[i]| == a.Length1
    ensures forall i, j :: 0 <= i < a.Length0 && 0 <= j < a.Length1 ==> b[i][j] == a[i, j]
  {
    seq(a.Length0, (i: int) requires 0 <= i < a.Length0 reads a =>
      seq(a.Length1, (j: int) requires 0 <= j < a.Length1 reads a => a[i, j]))
  }

  class SudokuGrid {
    /** The cells; 0 is an empty cell. */
    const grid: array2<int>
    /** The statistics object standing in for the static GameStats counters. */
    const stats: GameStats

    ghost predicate Valid()
      reads this
    {
      grid.Length0 == GridSize && grid.Length1 == GridSize
    }

    /** The board the grid currently holds. */
    ghost function Cells(): (b: Board)
      reads this, grid
      requires Valid()
      ensures WellFormed(b)
    {
      Snapshot(grid)
    }

    /** Copies the initial board cell by cell into a grid of its own. */
    constructor (initialGrid: array2<int>, stats: GameStats)
      requires initialGrid.Length0 == GridSize && initialGrid.Length1 == GridSize
      ensures Valid() && fresh(grid) && this.stats == stats
      ensures Cells() == Snapshot(initialGrid)
    {
      var g := new int[GridSize, GridSize];
      for i := 0 to GridSize
        invariant forall i', j' :: 0 <= i' < i && 0 <= j' < GridSize ==> g[i', j'] == initialGrid[i', j']
      {
        for j := 0 to GridSize
          invariant forall i', j' :: 0 <= i' < i && 0 <= j' < GridSize ==> g[i', j'] == initialGrid[i', j']
          invariant forall j' :: 0 <= j' < j ==> g[i, j'] == initialGrid[i, j']
        {
          g[i, j] := initialGrid[i, j];
        }
      }
      grid, this.stats := g, stats;
      new;
      BoardsAgree(Snapshot(grid), Snapshot(initialGrid));
    }

    /**
     * An accepted move overwrites exactly its cell, even a filled one;
     * a rejected move leaves every cell as it was.
     */
    method PlaceNumber(row: int, col: int, num: int)
      requires Valid()
      modifies grid
      ensures Cells() == Place(old(Cells()), Move(row, col, num))
      ensures Validate(row, col, num) ==> grid[row, col] == num
      ensures forall i, j :: 0 <= i < GridSize && 0 <= j < GridSize && !(i == row && j == col) ==>
                grid[i, j] == old(grid[i, j])
      ensures !Validate(row, col, num) ==> unchanged(grid)
    {
      if Validate(row, col, num) {
        grid[row, col] := num;
      }
      BoardsAgree(Cells(), Place(old(Cells()), Move(row, col, num)));
    }

    /**
     * Scans for an empty cell. Only when there is none does it count a
     * solved puzzle; the grid itself is never changed.
     */
    method IsSolved() returns (solved: bool)
      requires Valid()
      modifies stats
      ensures solved <==> Full(Cells())
      ensures stats.puzzlesSolved == old(stats.puzzlesSolved) + (if solved then 1 else 0)
      ensures stats.totalMoves == old(stats.totalMoves)
      ensures stats.totalPlayers == old(stats.totalPlayers)
    {
      for i := 0 to GridSize
        invariant forall i', j' :: 0 <= i' < i && 0 <= j' < GridSize ==> grid[i', j'] != Empty
      {
        for j := 0 to GridSize
          invariant forall i', j' :: 0 <= i' < i && 0 <= j' < GridSize ==> grid[i', j'] != Empty
          invariant forall j' :: 0 <= j' < j ==> grid[i, j'] != Empty
        {
          if grid[i, j] == Empty {
            assert Cells()[i][j] == Empty;
            return false;
          }
        }
      }
      stats.IncrementPuzzlesSolved();
      return true;
    }
  }
}
