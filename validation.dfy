/**
 * The move validator of the game: a pure bounds check on a requested
 * write (row, column, number), with no knowledge of the board's contents.
 */
module Validation {

  /** Side length of the board (the grid is a 10 by 10 integer array). */
  const GridSize := 10

  /** The value of an empty cell. */
  const Empty := 0

  /** The largest number the validator admits (one more than a 9 by 9 Sudoku would use). */
  const MaxNumber := 10

  /** A row or column index of the board. */
  predicate IsIndex(i: int)
  {
    0 <= i < GridSize
  }

  /** A value a cell may hold: empty, or a number up to MaxNumber. */
  predicate IsCellValue(v: int)
  {
    Empty <= v <= MaxNumber
  }

  /**
   * ClassicSudokuValidator::validate: a pure bounds check. It accepts exactly
   * the writes that land inside the board and put a non-empty cell value
   * there, so every accepted move is safe to apply to the 10 by 10 array and
   * keeps the cell in range.
   */
  function Validate(row: int, col: int, num: int): (accepted: bool)
    ensures accepted <==> IsIndex(row) && IsIndex(col) && IsCellValue(num) && num != Empty
  {
    row >= 0 && row < 10 && col >= 0 && col < 10 && num >= 1 && num <= 10
  }

  /** The boundary cases: the corners and extreme numbers are accepted, one step outside is not. */
  lemma ValidateBoundaries()
    ensures Validate(0, 0, 1) && Validate(9, 9, 10)
    ensures !Validate(-1, 0, 1) && !Validate(10, 0, 1)
    ensures !Validate(0, -1, 1) && !Validate(0, 10, 1)
    ensures !Validate(0, 0, 0) && !Validate(0, 0, 11)
  {
  }
}
