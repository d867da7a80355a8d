/**
 * The process-wide statistics of the game. The source keeps them in static
 * fields of GameStats; here they are one explicitly constructed object that
 * the grid and the players share.
 */
module Stats {

  class GameStats {
    var totalMoves: nat
    var totalPlayers: nat
    var puzzlesSolved: nat

    /** The static initialisation: every counter starts at zero. */
    constructor ()
      ensures totalMoves == 0 && totalPlayers == 0 && puzzlesSolved == 0
    {
      totalMoves, totalPlayers, puzzlesSolved := 0, 0, 0;
    }

    method IncrementTotalMoves()
      modifies this
      ensures totalMoves == old(totalMoves) + 1
      ensures totalPlayers == old(totalPlayers) && puzzlesSolved == old(puzzlesSolved)
    {
      totalMoves := totalMoves + 1;
    }

    method IncrementTotalPlayers()
      modifies this
      ensures totalPlayers == old(totalPlayers) + 1
      ensures totalMoves == old(totalMoves) && puzzlesSolved == old(puzzlesSolved)
    {
      totalPlayers := totalPlayers + 1;
    }

    method IncrementPuzzlesSolved()
      modifies this
      ensures puzzlesSolved == old(puzzlesSolved) + 1
      ensures totalMoves == old(totalMoves) && totalPlayers == old(totalPlayers)
    {
      puzzlesSolved := puzzlesSolved + 1;
    }
  }
}
