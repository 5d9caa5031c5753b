/**
 * One turn of the game loop: the test that keeps the loop going, the
 * "mine" and "free" commands, and what the loop ending means. Reading and
 * parsing the player's input and printing the board are not modelled: a
 * turn receives the row, the column and the command word.
 */
module Game {
  import opened Board
  import opened Minesweeper

  /**
   * The loop guard: the player has not marked as many mines as were asked
   * for, has not stepped on a mine, and more cells are unexplored than
   * there are mines.
   */
  predicate Continues(field: Minefield, mines: int, boom: bool)
    reads field
  {
    field.nMarkedRight != mines && !boom && field.unexplored > mines
  }

  /** The state the loop keeps between turns while no mine went off. */
  ghost predicate Sound(field: Minefield)
    reads field, field.cells
  {
    field.Valid() && field.Partitioned() && field.Counted()
  }

  /** After stepping on a mine: every mined cell is written 'X', nothing else changes. */
  method RevealMines(field: Minefield)
    requires field.Shaped() && field.Partitioned()
    modifies field.cells
    ensures forall i, j | 0 <= i <= field.rows && 0 <= j <= field.cols ::
      field.cells[i, j] == if (i, j) in field.minedCells then MineChar else old(field.cells[i, j])
  {
    var rest := field.minedCells;
    while rest != {}
      invariant rest <= field.minedCells
      invariant forall i, j | 0 <= i <= field.rows && 0 <= j <= field.cols ::
        field.cells[i, j] == if (i, j) in field.minedCells && (i, j) !in rest then MineChar else old(field.cells[i, j])
      decreases rest
    {
      var cell :| cell in rest;
      var (r, c) := cell;
      field.cells[r, c] := MineChar;
      rest := rest - {cell};
    }
  }

  /**
   * The "free" command as main carries it out: a mined cell sets off the
   * mines, any other cell is passed to Free, even one revealed already.
   * On a revealed cell Free still counts one cell less unexplored, so the
   * counter falls below the number of hidden cells.
   */
  method FreeAsWritten(field: Minefield, row: int, col: int) returns (boom: bool)
    requires field.Valid() && field.Partitioned()
    requires 1 <= row <= field.rows && 1 <= col <= field.cols
    modifies field.cells, field`unexplored, field`Hidden, field`Marked
    ensures boom <==> (row, col) in field.minedCells
    ensures FreePlayed(field, row, col, boom)
    ensures !boom ==> field.Valid()
    ensures !boom && old(field.Counted()) ==>
      field.unexplored == |field.Hidden| - (if (row, col) in old(field.Hidden) then 0 else 1)
  {
    if (row, col) in field.minedCells {
      boom := true;
      RevealMines(field);
    } else {
      boom := false;
      field.Free(row, col);
    }
  }

  /**
   * The "free" command with the guard it evidently needs: a cell revealed
   * already is left alone, so the counter keeps matching the hidden cells.
   */
  method FreeCommand(field: Minefield, row: int, col: int) returns (boom: bool)
    requires Sound(field)
    requires 1 <= row <= field.rows && 1 <= col <= field.cols
    modifies field.cells, field`unexplored, field`Hidden, field`Marked
    ensures boom <==> (row, col) in field.minedCells
    ensures boom ==> forall i, j | 0 <= i <= field.rows && 0 <= j <= field.cols ::
      field.cells[i, j] == if (i, j) in field.minedCells then MineChar else old(field.cells[i, j])
    ensures boom ==> unchanged(field`unexplored, field`Hidden, field`Marked)
    ensures !boom ==> Sound(field)
    ensures !boom && (row, col) in old(field.Hidden) ==>
      field.Revealed((row, col), old(field.Hidden), old(field.Marked), old(field.unexplored))
    ensures !boom && (row, col) !in old(field.Hidden) ==>
      unchanged(field.cells) && unchanged(field`unexplored, field`Hidden, field`Marked)
  {
    if (row, col) in field.minedCells {
      boom := true;
      RevealMines(field);
    } else {
      boom := false;
      assert field.Shows((row, col), field.cells[row, col]);
      if IsHidden(field.cells[row, col]) {
        field.Free(row, col);
      }
    }
  }

  /**
   * One turn as main plays it: "mine" toggles the mark on the cell, "free"
   * runs the free command as written, any other word does nothing.
   */
  method Turn(field: Minefield, row: int, col: int, command: string) returns (boom: bool)
    requires field.Valid() && field.Partitioned()
    requires 1 <= row <= field.rows && 1 <= col <= field.cols
    modifies field.cells, field`unexplored, field`Hidden, field`Marked, field`nMarkedRight, field`nMarkedWrong
    ensures boom <==> command == "free" && (row, col) in field.minedCells
    ensures !boom ==> field.Valid() && field.Partitioned()
    ensures command == "mine" ==> MarkPlayed(field, row, col)
    ensures command == "free" ==> FreePlayed(field, row, col, boom)
    ensures !boom && old(field.Counted()) && (command != "free" || (row, col) in old(field.Hidden)) ==> field.Counted()
    ensures command != "mine" && command != "free" ==> unchanged(field) && unchanged(field.cells)
  {
    boom := false;
    assert "mine"[0] != "free"[0];
    if command == "mine" {
      field.Mark(row, col);
    } else if command == "free" {
      boom := FreeAsWritten(field, row, col);
    }
  }

  /**
   * One turn with the corrected free command: the same as Turn except that
   * "free" on a revealed cell changes nothing, so unless a mine went off
   * the loop's state, with unexplored counting the hidden cells, is kept.
   */
  method TurnCorrected(field: Minefield, row: int, col: int, command: string) returns (boom: bool)
    requires Sound(field)
    requires 1 <= row <= field.rows && 1 <= col <= field.cols
    modifies field.cells, field`unexplored, field`Hidden, field`Marked, field`nMarkedRight, field`nMarkedWrong
    ensures boom <==> command == "free" && (row, col) in field.minedCells
    ensures !boom ==> Sound(field)
    ensures command == "mine" ==> MarkPlayed(field, row, col)
    ensures command == "free" && (boom || (row, col) in old(field.Hidden)) ==> FreePlayed(field, row, col, boom)
    ensures command == "free" && !boom && (row, col) !in old(field.Hidden) ==> unchanged(field) && unchanged(field.cells)
    ensures command != "mine" && command != "free" ==> unchanged(field) && unchanged(field.cells)
  {
    boom := false;
    assert "mine"[0] != "free"[0];
    if command == "mine" {
      field.Mark(row, col);
    } else if command == "free" {
      boom := FreeCommand(field, row, col);
    }
  }

  /**
   * What "mine" does to the field: the cell's mark is toggled, no other
   * cell changes, the counter of right or wrong marks moves with it, and
   * nothing is revealed.
   */
  twostate predicate MarkPlayed(field: Minefield, row: int, col: int)
    requires 0 <= row <= field.rows && 0 <= col <= field.cols
    requires field.cells.Length0 == field.rows + 1 && field.cells.Length1 == field.cols + 1
    reads field, field.cells
  {
    && field.cells[row, col] == Toggled(old(field.cells[row, col]))
    && (forall i, j | 0 <= i <= field.rows && 0 <= j <= field.cols && (i, j) != (row, col) :: field.cells[i, j] == old(field.cells[i, j]))
    && field.nMarkedRight == old(field.nMarkedRight) + (if (row, col) in field.minedCells then MarkStep(old(field.cells[row, col])) else 0)
    && field.nMarkedWrong == old(field.nMarkedWrong) + (if (row, col) in field.minedCells then 0 else MarkStep(old(field.cells[row, col])))
    && field.unexplored == old(field.unexplored) && field.Hidden == old(field.Hidden)
  }

  /**
   * What "free" does to the field: on a mine every mined cell shows 'X'
   * and nothing else changes; otherwise the cell is revealed as Free
   * promises, and the counters of marks stay.
   */
  twostate predicate FreePlayed(field: Minefield, row: int, col: int, boom: bool)
    requires field.cells.Length0 == field.rows + 1 && field.cells.Length1 == field.cols + 1
    reads field, field.cells
  {
    && (boom ==> forall i, j | 0 <= i <= field.rows && 0 <= j <= field.cols ::
          field.cells[i, j] == if (i, j) in field.minedCells then MineChar else old(field.cells[i, j]))
    && (boom ==> field.unexplored == old(field.unexplored) && field.Hidden == old(field.Hidden) && field.Marked == old(field.Marked))
    && (!boom ==> field.Revealed((row, col), old(field.Hidden), old(field.Marked), old(field.unexplored)))
    && field.nMarkedRight == old(field.nMarkedRight) && field.nMarkedWrong == old(field.nMarkedWrong)
  }

  /**
   * The loop stops without a mine going off only on a win: while the
   * counter matches the hidden cells, unexplored <= mines means that
   * exactly the mines are left hidden, and nMarkedRight == mines that
   * every mine is marked.
   */
  lemma StopMeansWon(field: Minefield, mines: int)
    requires Sound(field) && |field.minedCells| == mines
    requires !Continues(field, mines, false)
    ensures field.Hidden == field.minedCells || field.minedCells <= field.Marked
  {
    if field.unexplored <= mines {
      WonByCount(field, mines);
    } else {
      WonByMarks(field, mines);
    }
  }

  lemma WonByCount(field: Minefield, mines: int)
    requires Sound(field) && |field.minedCells| == mines && field.unexplored <= mines
    ensures field.Hidden == field.minedCells
  {
    field.MinesHidden();
    SubsetCard(field.minedCells, field.Hidden);
  }

  lemma WonByMarks(field: Minefield, mines: int)
    requires field.Valid() && |field.minedCells| == mines && field.nMarkedRight == mines
    ensures field.minedCells <= field.Marked
  {
    var hit := field.Marked * field.minedCells;
    SubsetCard(hit, field.minedCells);
  }

  /** Freeing a hidden safe cell with a mine around it reveals that cell alone. */
  method FreeBesideMine(field: Minefield, p: Coord)
    requires Sound(field) && 1 <= p.0 <= field.rows && 1 <= p.1 <= field.cols
    requires p in field.Hidden && p !in field.minedCells
    requires MineCount(field.rows, field.cols, field.minedCells, p.0, p.1) != 0
    modifies field.cells, field`unexplored, field`Hidden, field`Marked
    ensures Sound(field) && field.Hidden == old(field.Hidden) - {p}
    ensures field.unexplored == old(field.unexplored) - 1
    ensures field.nMarkedRight == old(field.nMarkedRight)
  {
    ghost var h0, m0, u0 := field.Hidden, field.Marked, field.unexplored;
    var boom := FreeAsWritten(field, p.0, p.1);
    assert field.Revealed(p, h0, m0, u0);
    RemovedOnly(h0, field.Hidden, p);
  }

  /**
   * Freeing as written a cell revealed already that has a mine around it
   * reveals nothing more, yet counts one cell less unexplored.
   */
  method FreeRevealedAgain(field: Minefield, p: Coord)
    requires field.Valid() && field.Partitioned() && 1 <= p.0 <= field.rows && 1 <= p.1 <= field.cols
    requires p !in field.Hidden && MineCount(field.rows, field.cols, field.minedCells, p.0, p.1) != 0
    modifies field.cells, field`unexplored, field`Hidden, field`Marked
    ensures field.Valid() && field.Hidden == old(field.Hidden)
    ensures field.unexplored == old(field.unexplored) - 1
    ensures field.nMarkedRight == old(field.nMarkedRight)
  {
    field.RevealedShowsHint(p);
    ghost var h0, m0, u0 := field.Hidden, field.Marked, field.unexplored;
    var boom := FreeAsWritten(field, p.0, p.1);
    assert field.Revealed(p, h0, m0, u0);
    SubsetCard(field.Hidden, h0);
  }

  /** On a 1x3 board, a safe cell next to the mines. */
  function Beside(mined: set<Coord>): Coord
  {
    if (1, 2) in mined then (1, 1) else (1, 2)
  }

  /** On a 1x3 board, a safe cell other than Beside(mined). */
  function Away(mined: set<Coord>): Coord
  {
    if (1, 3) in mined then (1, 1) else (1, 3)
  }

  /** With one mine on a 1x3 board, Beside and Away are two distinct safe cells, Beside next to the mine. */
  lemma OneMineOfThree(mined: set<Coord>)
    requires mined <= Grid(1, 3) && |mined| == 1
    ensures Beside(mined) in Grid(1, 3) && Beside(mined) !in mined
    ensures MineCount(1, 3, mined, Beside(mined).0, Beside(mined).1) != 0
    ensures Away(mined) in Grid(1, 3) && Away(mined) !in mined && Away(mined) != Beside(mined)
  {
    var mine :| mine in mined;
    assert mined == {mine} by {
      SubsetCard({mine}, mined);
    }
    var p := Beside(mined);
    NeighboursAreAdjacent(1, 3, p.0, p.1);
    assert mine in Neighbours(1, 3, p.0, p.1);
  }

  /**
   * The loop as written can stop on a board where a safe cell is still
   * hidden: on a 1x3 board with one mine, freeing twice the same safe cell
   * next to the mine leaves the counter at one unexplored cell, as many as
   * there are mines, while two cells, one of them safe, are hidden.
   */
  method RepeatedFreeStopsEarly() returns (field: Minefield, safe: Coord)
    ensures field.Valid() && |field.minedCells| == 1
    ensures !Continues(field, 1, false)
    ensures safe in field.Hidden && safe !in field.minedCells
  {
    field := new Minefield(1, 3, 1);
    var runningAfterFirst;
    safe, runningAfterFirst := FreeTwiceBesideMine(field);
  }

  /**
   * The play on a new 1x3 board with one mine: free twice the safe cell
   * next to the mine. runningAfterFirst is the loop guard read between
   * the two frees.
   */
  method FreeTwiceBesideMine(field: Minefield) returns (safe: Coord, runningAfterFirst: bool)
    requires Sound(field) && field.rows == 1 && field.cols == 3 && |field.minedCells| == 1
    requires field.Hidden == Grid(1, 3) && field.unexplored == 3 && field.nMarkedRight == 0
    modifies field.cells, field`unexplored, field`Hidden, field`Marked
    ensures field.Valid() && !Continues(field, 1, false)
    ensures safe in field.Hidden && safe !in field.minedCells
    ensures runningAfterFirst
  {
    var p := Beside(field.minedCells);
    safe := Away(field.minedCells);
    OneMineOfThree(field.minedCells);
    ghost var mined := field.minedCells;
    FreeBesideMine(field, p);
    assert field.minedCells == mined;
    assert field.unexplored == 2;
    runningAfterFirst := Continues(field, 1, false);
    FreeRevealedAgain(field, p);
    assert field.minedCells == mined;
  }
}
