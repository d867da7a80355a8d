/**
 * The contents of the board as a value: a 10 by 10 matrix of integers where
 * 0 marks an empty cell. This is what the grid's array holds at any moment,
 * and what the lemmas about sequences of moves speak of.
 */
module Boards {
  import opened Validation

  type Board = seq<seq<int>>

  /** A requested write of `num` into cell (row, col). */
  datatype Move = Move(row: int, col: int, num: int)

  /** The board has the shape of the grid array. */
  predicate WellFormed(b: Board)
  {
    |b| == GridSize && forall i :: 0 <= i < |b| ==> |b[i]| == GridSize
  }

  /** Every cell is empty or holds a number up to MaxNumber. */
  predicate InRange(b: Board)
    requires WellFormed(b)
  {
    forall i, j :: 0 <= i < GridSize && 0 <= j < GridSize ==> IsCellValue(b[i][j])
  }

  /** "Solved" in the game's sense: no cell is empty (the values are not checked). */
  predicate Full(b: Board)
    requires WellFormed(b)
  {
    forall i, j :: 0 <= i < GridSize && 0 <= j < GridSize ==> b[i][j] != Empty
  }

  /** The move is accepted and writes cell (i, j). */
  predicate Targets(m: Move, i: int, j: int)
  {
    Validate(m.row, m.col, m.num) && m.row == i && m.col == j
  }

  /**
   * What placeNumber does to the board: an accepted move overwrites its cell,
   * whatever the cell held before; a rejected move changes nothing.
   */
  function Place(b: Board, m: Move): (r: Board)
    requires WellFormed(b)
    ensures WellFormed(r)
    ensures Validate(m.row, m.col, m.num) ==> r[m.row][m.col] == m.num
    ensures forall i, j :: 0 <= i < GridSize && 0 <= j < GridSize && !Targets(m, i, j) ==> r[i][j] == b[i][j]
  {
    if Validate(m.row, m.col, m.num) then b[m.row := b[m.row][m.col := m.num]] else b
  }

  /** A rejected move leaves the board exactly as it was. */
  lemma PlaceRejected(b: Board, m: Move)
    requires WellFormed(b) && !Validate(m.row, m.col, m.num)
    ensures Place(b, m) == b
  {
  }

  /** One move keeps every cell in range. */
  lemma PlacePreservesRange(b: Board, m: Move)
    requires WellFormed(b) && InRange(b)
    ensures InRange(Place(b, m))
  {
  }

  /** The board after applying `ms` in order, as successive placeNumber calls do. */
  function PlaceAll(b: Board, ms: seq<Move>): (r: Board)
    requires WellFormed(b)
    ensures WellFormed(r)
    decreases |ms|
  {
    if ms == [] then b else PlaceAll(Place(b, ms[0]), ms[1..])
  }

  /** Applying two runs of moves one after the other is applying their concatenation. */
  lemma {:induction false} PlaceAllAppend(b: Board, xs: seq<Move>, ys: seq<Move>)
    requires WellFormed(b)
    ensures PlaceAll(b, xs + ys) == PlaceAll(PlaceAll(b, xs), ys)
    decreases |xs|
  {
    if xs != [] {
      assert (xs + ys)[1..] == xs[1..] + ys;
      PlaceAllAppend(Place(b, xs[0]), xs[1..], ys);
    } else {
      assert xs + ys == ys;
    }
  }

  /** If every cell starts in [0, 10], every cell stays there after any sequence of moves. */
  lemma {:induction false} PlaceAllPreservesRange(b: Board, ms: seq<Move>)
    requires WellFormed(b) && InRange(b)
    ensures InRange(PlaceAll(b, ms))
    decreases |ms|
  {
    if ms != [] {
      PlacePreservesRange(b, ms[0]);
      PlaceAllPreservesRange(Place(b, ms[0]), ms[1..]);
    }
  }

  /** A cell that no accepted move targets keeps its initial value. */
  lemma {:induction false} PlaceAllUntouched(b: Board, ms: seq<Move>, i: int, j: int)
    requires WellFormed(b) && IsIndex(i) && IsIndex(j)
    requires forall k :: 0 <= k < |ms| ==> !Targets(ms[k], i, j)
    ensures PlaceAll(b, ms)[i][j] == b[i][j]
    decreases |ms|
  {
    if ms != [] {
      PlaceAllUntouched(Place(b, ms[0]), ms[1..], i, j);
    }
  }

  /**
   * The last accepted move that targets a cell decides its value, whether
   * or not the cell was filled before.
   */
  lemma LastWriteWins(b: Board, ms: seq<Move>, k: int, i: int, j: int)
    requires WellFormed(b) && 0 <= k < |ms| && Targets(ms[k], i, j)
    requires forall l :: k < l < |ms| ==> !Targets(ms[l], i, j)
    ensures PlaceAll(b, ms)[i][j] == ms[k].num
  {
    var before, rest := ms[..k], ms[k + 1..];
    assert ms == before + ([ms[k]] + rest);
    PlaceAllAppend(b, before, [ms[k]] + rest);
    var mid := PlaceAll(b, before);
    assert ([ms[k]] + rest)[1..] == rest;
    assert PlaceAll(mid, [ms[k]] + rest) == PlaceAll(Place(mid, ms[k]), rest);
    forall l | 0 <= l < |rest| ensures !Targets(rest[l], i, j) {
      assert rest[l] == ms[k + 1 + l];
    }
    PlaceAllUntouched(Place(mid, ms[k]), rest, i, j);
  }

  /** A filled cell never becomes empty again: moves only write non-empty numbers. */
  lemma {:induction false} PlaceAllKeepsFilled(b: Board, ms: seq<Move>, i: int, j: int)
    requires WellFormed(b) && IsIndex(i) && IsIndex(j) && b[i][j] != Empty
    ensures PlaceAll(b, ms)[i][j] != Empty
    decreases |ms|
  {
    if ms != [] {
      PlaceAllKeepsFilled(Place(b, ms[0]), ms[1..], i, j);
    }
  }

  /** Once the board is full it stays full, whatever moves follow. */
  lemma PlaceAllKeepsFull(b: Board, ms: seq<Move>)
    requires WellFormed(b) && Full(b)
    ensures Full(PlaceAll(b, ms))
  {
    forall i, j | 0 <= i < GridSize && 0 <= j < GridSize
      ensures PlaceAll(b, ms)[i][j] != Empty
    {
      PlaceAllKeepsFilled(b, ms, i, j);
    }
  }

  /** Two well-formed boards with the same cells are the same board. */
  lemma BoardsAgree(b: Board, c: Board)
    requires WellFormed(b) && WellFormed(c)
    requires forall i, j :: 0 <= i < GridSize && 0 <= j < GridSize ==> b[i][j] == c[i][j]
    ensures b == c
  {
    forall i | 0 <= i < GridSize ensures b[i] == c[i] {
      assert forall j :: 0 <= j < GridSize ==> b[i][j] == c[i][j];
    }
  }
}
