/** A player: an immutable name and a personal move counter tied to the shared statistics. */
module Players {
  import opened Stats

  class Player {
    const name: string
    var moves: nat
    /** The statistics object standing in for the static GameStats counters. */
    const stats: GameStats

    /** Registers a new player: its own count starts at zero, the player total grows by one. */
    constructor (playerName: string, stats: GameStats)
      modifies stats
      ensures name == playerName && moves == 0 && this.stats == stats
      ensures stats.totalPlayers == old(stats.totalPlayers) + 1
      ensures stats.totalMoves == old(stats.totalMoves)
      ensures stats.puzzlesSolved == old(stats.puzzlesSolved)
    {
      name, moves, this.stats := playerName, 0, stats;
      new;
      stats.IncrementTotalPlayers();
    }

    /** Counts one move: the player's own counter and the shared total advance together. */
    method IncrementMoves()
      modifies this, stats
      ensures moves == old(moves) + 1
      ensures stats.totalMoves == old(stats.totalMoves) + 1
      ensures stats.totalPlayers == old(stats.totalPlayers)
      ensures stats.puzzlesSolved == old(stats.puzzlesSolved)
    {
      moves := moves + 1;
      stats.IncrementTotalMoves();
    }
  }
}
