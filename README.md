# Sudoku console game — a Dafny model

This project models the core of a small console "Sudoku" game. The game holds a
10 by 10 integer grid, where 0 is an empty cell. It reads moves of the form
`R <row> C <col> <num>` and applies each one after a bounds-only check. It keeps
three process-wide counters: total moves, total players and puzzles solved.
There is no solver. "Solved" means only that no cell is empty.

Modules, in the order the program builds on them:

- `Validation`: the move validator (`ClassicSudokuValidator::validate`), a pure bounds predicate.
- `Stats`: the `GameStats` counters. The source keeps them in static fields.
  Here they are one explicitly constructed `GameStats` object that the grid and the player share.
- `Boards`: the board as a value, with `Place` (the effect of one move) and
  `PlaceAll` (the effect of a sequence of moves). The lemmas about sequences of moves live here.
- `Grid`: the `SudokuGrid` class over an `array2<int>`. Its constructor copies the board with
  nested loops, `PlaceNumber` updates one cell in place, and `IsSolved` scans
  with an early return and then bumps the solved counter.
- `Players`: the `Player` class (name, personal move counter).
- `Game`: the command loop of `main`. `Classify` turns an input line into a command.
  `StepSpec` and `Run` give one pass and a whole session as functions on a `State` value.
  The `Session` class holds the loop's own objects, and its `Step` and `Play`
  methods are proved to follow `StepSpec` and `Run`.
- `Wrappers`: an `Option` type.

The loop compares the raw line with `"exit"` (classandobject.cPP:156), so `"exit "`, `" exit"`
and `"Exit"` are ordinary lines; `Game.Classify` and `Game.ExitIsExact` state this.

## Model

| member | source | states |
|---|---|---|
| `Validation.Validate` | classandobject.cPP:39-41 | accepts exactly row and column in [0, 9] (the indices of the 10 by 10 grid) and number in [1, 10] (a non-empty cell value); a pure function, with no side effects |
| `Validation.ValidateBoundaries` | classandobject.cPP:40 | the inclusive bounds: (0,0,1) and (9,9,10) are accepted; row or column -1 or 10, and number 0 or 11, are rejected |
| `Stats.GameStats.constructor` | classandobject.cPP:24-27 | every counter starts at zero |
| `Stats.GameStats.IncrementTotalMoves` | classandobject.cPP:15 | the move total grows by exactly one; the other counters are unchanged |
| `Stats.GameStats.IncrementTotalPlayers` | classandobject.cPP:16 | the player total grows by exactly one; the other counters are unchanged |
| `Stats.GameStats.IncrementPuzzlesSolved` | classandobject.cPP:17 | the solved count grows by exactly one; the other counters are unchanged |
| `Players.Player.constructor` | classandobject.cPP:111-113 | a new player keeps the given name, starts with zero moves, and raises the player total by exactly one, leaving the other totals alone |
| `Players.Player.IncrementMoves` | classandobject.cPP:115-118 | the player's own count and the move total both grow by exactly one, together |
| `Boards.Place` | classandobject.cPP:79-85 | an accepted move puts its number in its cell, even over a filled cell; every other cell keeps its value |
| `Boards.PlaceRejected` | classandobject.cPP:79-84 | a rejected move leaves the whole board unchanged |
| `Boards.PlacePreservesRange` | classandobject.cPP:79-81 | one move keeps every cell in [0, 10] |
| `Boards.PlaceAllPreservesRange` | classandobject.cPP:79-81 | if every cell starts in [0, 10], every cell stays there after any sequence of moves |
| `Boards.PlaceAllUntouched` | classandobject.cPP:79-81 | a cell that no accepted move targets keeps its initial value through any sequence of moves |
| `Boards.LastWriteWins` | classandobject.cPP:79-81 | after a sequence of moves, a cell holds the number of the last accepted move that targeted it |
| `Boards.PlaceAllKeepsFilled` | classandobject.cPP:79-81 | a non-empty cell never becomes empty again, because accepted numbers are at least 1 |
| `Boards.PlaceAllKeepsFull` | classandobject.cPP:91-100 | once no cell is empty, no sequence of moves makes the board unsolved again |
| `Grid.SudokuGrid.constructor` | classandobject.cPP:71-77 | the new grid is a fresh array equal to the initial board cell for cell |
| `Grid.SudokuGrid.PlaceNumber` | classandobject.cPP:79-85 | the grid afterwards is `Place` of the grid before: an accepted move sets exactly its cell, and a rejected move leaves the array unchanged |
| `Grid.SudokuGrid.IsSolved` | classandobject.cPP:91-101 | returns true exactly when no cell is 0; the solved count grows by one when it returns true and is unchanged otherwise; the grid and the other counters are never changed |
| `Game.Classify` | classandobject.cPP:156-164 | a line stops the loop exactly when it equals "exit"; any other line is a parsed command carrying the extracted fields, or a parse failure when extraction failed |
| `Game.ExitIsExact` | classandobject.cPP:156 | "exit" stops the loop; "exit ", " exit" and "Exit" do not |
| `Game.StepSpec` | classandobject.cPP:156-179 | one pass of the loop body on values. Its own contract only keeps the board's shape; the lemmas below state its meaning |
| `Game.Run` | classandobject.cPP:152-180 | the loop over a sequence of lines, stopping once the loop has ended. Its own contract only keeps the board's shape; the lemmas below state its meaning |
| `Game.StepExit` | classandobject.cPP:156-159 | "exit" ends the loop and changes no board cell and no counter |
| `Game.StepIgnoresNonMoves` | classandobject.cPP:164-179 | a parse failure, or parsed literals other than 'R' and 'C', changes neither the board nor any counter |
| `Game.StepRejectedMoveCounted` | classandobject.cPP:165-167 | a move with the right literals that the validator rejects leaves the board unchanged, but still counts one move for the player and in the total |
| `Game.StepSolvedOnlyWhenFull` | classandobject.cPP:170-173 | a step counts a solved puzzle exactly when it places a move and the board is then full, and that step ends the loop |
| `Game.RunCounters` | classandobject.cPP:152-180 | over any input, no counter decreases, the player total stays fixed, and the player's count and the move total advance in lockstep |
| `Game.RunAppliesMovesRead` | classandobject.cPP:152-180 | the final board is the initial board with the moves of the lines read applied in order; the player's count grows by the number of those moves, accepted or not |
| `Game.RunSolvedAtMostOnce` | classandobject.cPP:170-173 | a session counts at most one solved puzzle, and only when it ends with a full board |
| `Game.RunKeepsRange` | classandobject.cPP:164-167 | every cell stays in [0, 10] through a whole session |
| `Game.ExitFirst` | classandobject.cPP:156-159 | "exit" as the first line ends the session with zero moves, zero total moves and zero puzzles solved |
| `Game.SamplePuzzle` | classandobject.cPP:126-137 | the built-in puzzle is a 10 by 10 board with values in range and at least one empty cell |
| `Game.SampleOverwritesFilledCell` | classandobject.cPP:164-167 | "R 0 C 0 5" on the built-in puzzle overwrites cell (0, 0) from 1 to 5 and counts one move |
| `Game.SampleOutOfBoundsCounted` | classandobject.cPP:164-167 | "R 15 C 2 3" on the built-in puzzle leaves the board unchanged but counts one move |
| `Game.Session.constructor` | classandobject.cPP:139-145 | setup gives fresh statistics, one registered player with the given name, and a grid copied from the puzzle: the state `Start` |
| `Game.Session.Step` | classandobject.cPP:156-179 | one pass of the loop body changes the session's state exactly as `StepSpec` says |
| `Game.Session.Play` | classandobject.cPP:152-180 | the loop changes the session's state exactly as `Run` says, and reads exactly `Consumed` lines |

## Left out

- Console output: `SimpleGridPrinter::print`, `SudokuGrid::printGrid` and every message (classandobject.cPP:54-61, 83, 87-89, 148-185). They only present state. The final summary prints the values that `Session.Abstract()` and `player.name` hold.
- Line input and parsing (`getline`, `istringstream` extraction). `Game.Classify` takes the outcome of extracting the five fields as a parameter, and the loop is driven by a finite sequence of already classified lines. The model stops when its sequence of lines is exhausted; the source does not. As written, when the input ends with a newline, every later `getline` yields an empty line, and the loop keeps reporting a format error. When the last line has no final newline, every later `getline` fails and leaves `input` holding that last line, so the loop handles it again on every pass. A last line that is a move with the right literals is then placed and counted again without end.
- Virtual dispatch and destructors of `MoveValidator` and `GridPrinter`. The grid calls the one validator, `Validation.Validate`, directly.
- Getters (`getName`, `getMoves`, `GameStats::get*`). The model reads the fields directly.
- Stats.GameStats: its counters, and `Player`'s move count, are unbounded naturals. The source's `int` counters would overflow after 2^31 - 1 increments, and that is not modelled.
- Game.Fields: row, column and number are unbounded integers. A number too large for an `int` makes the source's extraction fail, which the model leaves to the `extracted` parameter of `Classify`.
