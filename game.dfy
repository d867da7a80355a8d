/**
 * The game's command loop: each input line is classified as "exit", a parsed
 * move or a parse failure, and one step of the loop applies it to the grid,
 * the player and the statistics. StepSpec and Run give the meaning of one
 * step and of a whole session on values; Session is the loop's own state,
 * and its methods are proved to follow StepSpec and Run.
 */
module Game {
  import opened Wrappers
  import opened Validation
  import opened Boards
  import opened Stats
  import opened Players
  import opened Grid

  /** The five fields `R <row> C <col> <num>` extracted from a line, before the literals are checked. */
  datatype Fields = Fields(r: char, row: int, c: char, col: int, num: int)

  /** What one input line means to the loop. */
  datatype Command = Exit | Parsed(f: Fields) | ParseFail

  /**
   * Classifies a line. The line stops the loop only when it is exactly "exit";
   * otherwise the outcome of extracting a char, an int, a char, an int and an
   * int from it decides. `extracted` is that outcome (the stream extraction
   * itself is not part of this model).
   */
  function Classify(line: string, extracted: Option<Fields>): (cmd: Command)
    ensures cmd.Exit? <==> line == "exit"
    ensures cmd.Parsed? ==> extracted == Some(cmd.f)
    ensures cmd.ParseFail? ==> extracted.None?
    ensures line != "exit" && extracted.Some? ==> cmd.Parsed?
  {
    if line == "exit" then Exit
    else match extracted
      case Some(f) => Parsed(f)
      case None => ParseFail
  }

  /** Only the exact word stops the loop: surrounding blanks make it an ordinary line. */
  lemma ExitIsExact(extracted: Option<Fields>)
    ensures Classify("exit", extracted) == Exit
    ensures !Classify("exit ", extracted).Exit? && !Classify(" exit", extracted).Exit?
    ensures !Classify("Exit", extracted).Exit?
  {
  }

  /** A parsed line is a move only when its literals are exactly 'R' and 'C'. */
  predicate Counts(cmd: Command)
  {
    cmd.Parsed? && cmd.f.r == 'R' && cmd.f.c == 'C'
  }

  function MoveOf(f: Fields): Move
  {
    Move(f.row, f.col, f.num)
  }

  /** Everything the loop's state determines: the board, the player's count, the three totals, and whether the loop has ended. */
  datatype State = State(board: Board, moves: nat, totalMoves: nat, totalPlayers: nat, puzzlesSolved: nat, exited: bool)

  /** The state right after setup: one player registered, nothing counted yet. */
  function Start(b: Board): State
  {
    State(b, 0, 0, 1, 0, false)
  }

  /**
   * One pass through the loop body. "exit" ends the loop; a move with the
   * right literals is placed and then counted whether or not the validator
   * accepted it, and ends the loop when the board is then full (counting a
   * solved puzzle); anything else changes nothing.
   */
  function StepSpec(s: State, cmd: Command): (t: State)
    requires WellFormed(s.board)
    ensures WellFormed(t.board)
  {
    match cmd
    case Exit => s.(exited := true)
    case ParseFail => s
    case Parsed(f) =>
      if f.r == 'R' && f.c == 'C' then
        var b := Place(s.board, MoveOf(f));
        var counted := s.(board := b, moves := s.moves + 1, totalMoves := s.totalMoves + 1);
        if Full(b) then counted.(puzzlesSolved := s.puzzlesSolved + 1, exited := true) else counted
      else s
  }

  /** The state after feeding `cmds` to the loop; once the loop has ended, further lines are never read. */
  function Run(s: State, cmds: seq<Command>): (t: State)
    requires WellFormed(s.board)
    ensures WellFormed(t.board)
    decreases |cmds|
  {
    if cmds == [] || s.exited then s else Run(StepSpec(s, cmds[0]), cmds[1..])
  }

  /** How many lines of `cmds` the loop reads before it ends or the lines run out. */
  function Consumed(s: State, cmds: seq<Command>): (n: nat)
    requires WellFormed(s.board)
    ensures n <= |cmds|
    ensures s.exited ==> n == 0
    decreases |cmds|
  {
    if cmds == [] || s.exited then 0 else 1 + Consumed(StepSpec(s, cmds[0]), cmds[1..])
  }

  /** The moves that `cmds` submit to the grid, in order. */
  function MovesOf(cmds: seq<Command>): (ms: seq<Move>)
    ensures |ms| <= |cmds|
    decreases |cmds|
  {
    if cmds == [] then []
    else (if Counts(cmds[0]) then [MoveOf(cmds[0].f)] else []) + MovesOf(cmds[1..])
  }

  // ----- one step -----

  /** A line that is not a move with the right literals, and not "exit", changes nothing at all. */
  lemma StepIgnoresNonMoves(s: State, cmd: Command)
    requires WellFormed(s.board) && !Counts(cmd) && !cmd.Exit?
    ensures StepSpec(s, cmd) == s
  {
  }

  /** "exit" ends the loop and counts nothing. */
  lemma StepExit(s: State)
    requires WellFormed(s.board)
    ensures StepSpec(s, Exit) == s.(exited := true)
  {
  }

  /** A move the validator rejects leaves the board as it was, yet is counted for the player and in the total. */
  lemma StepRejectedMoveCounted(s: State, f: Fields)
    requires WellFormed(s.board) && f.r == 'R' && f.c == 'C' && !Validate(f.row, f.col, f.num)
    ensures StepSpec(s, Parsed(f)).board == s.board
    ensures StepSpec(s, Parsed(f)).moves == s.moves + 1
    ensures StepSpec(s, Parsed(f)).totalMoves == s.totalMoves + 1
  {
  }

  /** A solved puzzle is counted only in a step that places a move and leaves the board full, and that step ends the loop. */
  lemma StepSolvedOnlyWhenFull(s: State, cmd: Command)
    requires WellFormed(s.board)
    ensures var t := StepSpec(s, cmd);
      t.puzzlesSolved == s.puzzlesSolved + (if Counts(cmd) && Full(t.board) then 1 else 0) &&
      (t.puzzlesSolved != s.puzzlesSolved ==> t.exited)
  {
  }

  // ----- a whole session -----

  /**
   * Over any input, the counters never decrease, the player total does not
   * change, and the player's count and the move total advance in lockstep.
   */
  lemma {:induction false} RunCounters(s: State, cmds: seq<Command>)
    requires WellFormed(s.board)
    ensures var t := Run(s, cmds);
      t.moves >= s.moves && t.puzzlesSolved >= s.puzzlesSolved &&
      t.totalPlayers == s.totalPlayers &&
      t.totalMoves - t.moves == s.totalMoves - s.moves
    decreases |cmds|
  {
    if cmds != [] && !s.exited {
      RunCounters(StepSpec(s, cmds[0]), cmds[1..]);
    }
  }

  /**
   * The board after a session is the initial board with the moves of the
   * lines read applied in order, and the player's count is the number of
   * those moves, accepted or not.
   */
  lemma {:induction false} RunAppliesMovesRead(s: State, cmds: seq<Command>)
    requires WellFormed(s.board)
    ensures var n := Consumed(s, cmds);
      Run(s, cmds).board == PlaceAll(s.board, MovesOf(cmds[..n])) &&
      Run(s, cmds).moves == s.moves + |MovesOf(cmds[..n])|
    decreases |cmds|
  {
    var n := Consumed(s, cmds);
    if cmds == [] || s.exited {
      assert cmds[..n] == [];
    } else {
      var s', rest := StepSpec(s, cmds[0]), cmds[1..];
      var n' := Consumed(s', rest);
      RunAppliesMovesRead(s', rest);
      assert cmds[..n] == [cmds[0]] + rest[..n'];
      assert ([cmds[0]] + rest[..n'])[1..] == rest[..n'];
      var ms' := MovesOf(rest[..n']);
      if Counts(cmds[0]) {
        var m := MoveOf(cmds[0].f);
        assert MovesOf(cmds[..n]) == [m] + ms';
        assert ([m] + ms')[1..] == ms';
      } else {
        assert MovesOf(cmds[..n]) == [] + ms';
        assert [] + ms' == ms';
      }
    }
  }

  /** Whatever the input, a session counts at most one solved puzzle, and only with a full board. */
  lemma {:induction false} RunSolvedAtMostOnce(s: State, cmds: seq<Command>)
    requires WellFormed(s.board) && !s.exited
    ensures var t := Run(s, cmds);
      t.puzzlesSolved <= s.puzzlesSolved + 1 &&
      (t.puzzlesSolved == s.puzzlesSolved + 1 ==> t.exited && Full(t.board))
    decreases |cmds|
  {
    if cmds != [] {
      var s' := StepSpec(s, cmds[0]);
      if s'.exited {
        assert Run(s', cmds[1..]) == s';
      } else {
        RunSolvedAtMostOnce(s', cmds[1..]);
      }
    }
  }

  /** Every cell stays in [0, 10] through a whole session. */
  lemma {:induction false} RunKeepsRange(s: State, cmds: seq<Command>)
    requires WellFormed(s.board) && InRange(s.board)
    ensures InRange(Run(s, cmds).board)
    decreases |cmds|
  {
    if cmds != [] && !s.exited {
      if Counts(cmds[0]) {
        PlacePreservesRange(s.board, MoveOf(cmds[0].f));
      }
      RunKeepsRange(StepSpec(s, cmds[0]), cmds[1..]);
    }
  }

  /** "exit" as the very first line ends the session with nothing counted. */
  lemma ExitFirst(b: Board, rest: seq<Command>)
    requires WellFormed(b)
    ensures var t := Run(Start(b), [Exit] + rest);
      t == Start(b).(exited := true) && t.moves == 0 && t.totalMoves == 0 && t.puzzlesSolved == 0
  {
    assert ([Exit] + rest)[1..] == rest;
  }

  // ----- the sample puzzle -----

  /** The puzzle the game starts from. */
  function SamplePuzzle(): (b: Board)
    ensures WellFormed(b) && InRange(b) && !Full(b)
  {
    var b := [
      [1, 0, 0, 4, 0, 6, 0, 0, 0, 2],
      [0, 3, 0, 0, 0, 0, 5, 0, 0, 0],
      [0, 0, 7, 0, 0, 0, 0, 0, 6, 0],
      [0, 0, 0, 8, 0, 0, 0, 4, 0, 0],
      [9, 0, 0, 0, 0, 0, 0, 0, 0, 3],
      [0, 4, 0, 0, 0, 7, 0, 0, 0, 0],
      [0, 0, 0, 0, 0, 0, 3, 0, 0, 0],
      [0, 0, 2, 0, 0, 5, 0, 0, 0, 0],
      [0, 6, 0, 0, 0, 0, 0, 1, 0, 0],
      [0, 0, 0, 0, 0, 0, 0, 0, 0, 5]
    ];
    assert b[0][1] == Empty;
    b
  }

  /** "R 0 C 0 5" on the sample puzzle overwrites the filled cell (0, 0) from 1 to 5 and counts one move. */
  lemma SampleOverwritesFilledCell()
    ensures SamplePuzzle()[0][0] == 1
    ensures var t := StepSpec(Start(SamplePuzzle()), Parsed(Fields('R', 0, 'C', 0, 5)));
      t.board[0][0] == 5 && t.moves == 1 && t.totalMoves == 1 && !t.exited
  {
    var t := StepSpec(Start(SamplePuzzle()), Parsed(Fields('R', 0, 'C', 0, 5)));
    assert t.board[0][1] == Empty;
  }

  /** "R 15 C 2 3" on the sample puzzle is rejected: the board is unchanged, but one move is counted. */
  lemma SampleOutOfBoundsCounted()
    ensures var t := StepSpec(Start(SamplePuzzle()), Parsed(Fields('R', 15, 'C', 2, 3)));
      t.board == SamplePuzzle() && t.moves == 1 && t.totalMoves == 1 && !t.exited
  {
  }

  /**
   * The state of one session: the locals of the game's main routine. The
   * loop ends when `exited` is set.
   */
  class Session {
    const stats: GameStats
    const player: Player
    const sudoku: SudokuGrid
    var exited: bool

    ghost predicate Valid()
      reads this, player, sudoku
    {
      player.stats == stats && sudoku.stats == stats && sudoku.Valid()
    }

    /** The session's state as a value. */
    ghost function Abstract(): State
      reads this, stats, player, sudoku, sudoku.grid
      requires Valid()
    {
      State(sudoku.Cells(), player.moves, stats.totalMoves, stats.totalPlayers, stats.puzzlesSolved, exited)
    }

    /** Setup: fresh statistics, the player registered, the grid copied from `puzzle`. */
    constructor (playerName: string, puzzle: array2<int>)
      requires puzzle.Length0 == GridSize && puzzle.Length1 == GridSize
      ensures Valid() && fresh(stats) && fresh(player) && fresh(sudoku) && fresh(sudoku.grid)
      ensures player.name == playerName
      ensures Abstract() == Start(Snapshot(puzzle))
    {
      var st := new GameStats();
      var p := new Player(playerName, st);
      var g := new SudokuGrid(puzzle, st);
      stats, player, sudoku, exited := st, p, g, false;
    }

    /** One pass through the loop body, for a line already classified. */
    method Step(cmd: Command)
      requires Valid() && !exited
      modifies this, stats, player, sudoku.grid
      ensures Valid()
      ensures Abstract() == StepSpec(old(Abstract()), cmd)
    {
      match cmd
      case Exit =>
        exited := true;
      case ParseFail =>
      case Parsed(f) =>
        if f.r == 'R' && f.c == 'C' {
          sudoku.PlaceNumber(f.row, f.col, f.num);
          player.IncrementMoves();
          var solved := sudoku.IsSolved();
          if solved {
            exited := true;
          }
        }
    }

    /** The loop: reads lines until one ends it or the input runs out. */
    method Play(input: seq<Command>) returns (consumed: nat)
      requires Valid()
      modifies this, stats, player, sudoku.grid
      ensures Valid()
      ensures Abstract() == Run(old(Abstract()), input)
      ensures consumed == Consumed(old(Abstract()), input)
    {
      consumed := 0;
      while consumed < |input| && !exited
        invariant Valid() && consumed <= |input|
        invariant Run(old(Abstract()), input) == Run(Abstract(), input[consumed..])
        invariant Consumed(old(Abstract()), input) == consumed + Consumed(Abstract(), input[consumed..])
        decreases |input| - consumed
      {
        assert input[consumed..][1..] == input[consumed + 1..];
        Step(input[consumed]);
        consumed := consumed + 1;
      }
    }
  }
}
