/**
 * The minefield: a character grid indexed 0..rows x 0..cols of which only
 * rows 1..rows and columns 1..cols are played, the set of mined
 * coordinates, and three counters kept beside the grid.
 */
module Minesweeper {
  import opened Board

  /**
   * A flood fill around target: the hidden and marked cells and the
   * counter of unexplored cells when the reveal of target began.
   */
  datatype Flood = Flood(target: Coord, hidden0: set<Coord>, marked0: set<Coord>, unexplored0: int)

  class Minefield {
    const rows: int
    const cols: int
    /** Row 0 and column 0 exist but are not part of the board. */
    const cells: array2<char>
    /** The coordinates left without a mine by construction. */
    var emptyCells: set<Coord>
    var minedCells: set<Coord>
    var nMarkedRight: int
    var nMarkedWrong: int
    var unexplored: int

    /**
     * Ghost mirror of the grid: the board cells not yet revealed (showing
     * '.' or '*') and, among them, those showing a mark.
     */
    ghost var Hidden: set<Coord>
    ghost var Marked: set<Coord>

    /** The grid has one extra row and column in front of the board. */
    predicate Shaped()
    {
      0 <= rows && 0 <= cols && cells.Length0 == rows + 1 && cells.Length1 == cols + 1
    }

    /** The mines lie on the board and the empty cells are the rest of it. */
    ghost predicate Partitioned()
      reads this`minedCells, this`emptyCells
    {
      minedCells <= Grid(rows, cols) && emptyCells == Grid(rows, cols) - minedCells
    }

    /**
     * What board cell p showing c means: it is hidden exactly when c is '.'
     * or '*', marked exactly when c is '*', and once revealed it holds no
     * mine and shows the number of mines around it.
     */
    ghost predicate Shows(p: Coord, c: char)
      reads this`Hidden, this`Marked, this`minedCells
    {
      && (p in Hidden <==> IsHidden(c))
      && (p in Marked <==> c == MarkedChar)
      && (p !in Hidden ==> p !in minedCells && c == HintChar(MineCount(rows, cols, minedCells, p.0, p.1)))
    }

    /**
     * The object invariant: Hidden and Marked are read off the board, every
     * board cell shows what Shows allows, nMarkedRight counts exactly the
     * marked mines, and nMarkedWrong counts at least the marked cells
     * without a mine (revealing a wrongly marked cell does not take it off).
     */
    ghost predicate Valid()
      reads this`Hidden, this`Marked, this`minedCells, this`nMarkedRight, this`nMarkedWrong, cells
    {
      && Drawn()
      && nMarkedRight == |Marked * minedCells|
      && nMarkedRight + nMarkedWrong >= |Marked|
    }

    /** The part of Valid about the grid alone, without the counters of marks. */
    ghost predicate Drawn()
      reads this`Hidden, this`Marked, this`minedCells, cells
    {
      && Shaped()
      && (forall p | p in Hidden :: 1 <= p.0 <= rows && 1 <= p.1 <= cols)
      && Marked <= Hidden
      && (forall i, j | 1 <= i <= rows && 1 <= j <= cols :: Shows((i, j), cells[i, j]))
    }

    /** The counter of unexplored cells agrees with the grid. */
    ghost predicate Counted()
      reads this`unexplored, this`Hidden
    {
      unexplored == |Hidden|
    }

    /**
     * Builds the board with every cell unexplored and places nMines mines
     * on distinct board cells, each chosen among the cells still empty.
     */
    constructor (rows: int, cols: int, nMines: int)
      requires 0 <= rows && 0 <= cols && nMines <= rows * cols
      ensures Valid() && Partitioned() && Counted()
      ensures this.rows == rows && this.cols == cols
      ensures fresh(cells)
      ensures forall i, j :: 0 <= i <= rows && 0 <= j <= cols ==> cells[i, j] == UnexploredChar
      ensures |minedCells| == (if nMines < 0 then 0 else nMines)
      ensures Hidden == Grid(rows, cols) && |Hidden| == rows * cols && Marked == {}
      ensures nMarkedRight == 0 && nMarkedWrong == 0 && unexplored == rows * cols
    {
      this.rows := rows;
      this.cols := cols;
      cells := new char[rows + 1, cols + 1]((i, j) => UnexploredChar);
      minedCells := {};
      nMarkedRight, nMarkedWrong := 0, 0;
      unexplored := rows * cols;
      Hidden, Marked := Grid(rows, cols), {};
      new;
      emptyCells := BoardCells(rows, cols);
      GridSize(rows, cols);
      PlaceMines(nMines);
      FreshBoard();
    }

    /**
     * Moves nMines cells, each chosen freely among those still empty, from
     * the empty cells to the mined ones; the grid is written but keeps
     * showing every cell unexplored.
     */
    method PlaceMines(nMines: int)
      requires Shaped() && minedCells == {} && nMines <= |emptyCells|
      requires forall p | p in emptyCells :: 1 <= p.0 <= rows && 1 <= p.1 <= cols
      requires forall i, j :: 0 <= i <= rows && 0 <= j <= cols ==> cells[i, j] == UnexploredChar
      modifies cells, this`emptyCells, this`minedCells
      ensures minedCells <= old(emptyCells) && emptyCells == old(emptyCells) - minedCells
      ensures |minedCells| == if nMines < 0 then 0 else nMines
      ensures forall i, j :: 0 <= i <= rows && 0 <= j <= cols ==> cells[i, j] == UnexploredChar
    {
      var k := 0;
      while k < nMines
        invariant 0 <= k && (k == 0 || k <= nMines)
        invariant minedCells <= old(emptyCells)
        invariant forall p :: p in emptyCells <==> p in old(emptyCells) && p !in minedCells
        invariant |minedCells| == k && |emptyCells| == |old(emptyCells)| - k
        invariant forall i, j :: 0 <= i <= rows && 0 <= j <= cols ==> cells[i, j] == UnexploredChar
      {
        assert emptyCells != {};
        var cell :| cell in emptyCells;
        var (row, col) := cell;
        cells[row, col] := UnexploredChar;
        assert cell !in minedCells && |emptyCells - {cell}| == |emptyCells| - 1;
        emptyCells := emptyCells - {cell};
        minedCells := minedCells + {cell};
        k := k + 1;
      }
      assert emptyCells == old(emptyCells) - minedCells;
    }

    /** A board whose cells are all unexplored, with no counter set, satisfies every invariant. */
    lemma FreshBoard()
      requires Shaped() && emptyCells == Grid(rows, cols) - minedCells && minedCells <= Grid(rows, cols)
      requires forall i, j :: 0 <= i <= rows && 0 <= j <= cols ==> cells[i, j] == UnexploredChar
      requires Hidden == Grid(rows, cols) && Marked == {}
      requires nMarkedRight == 0 && nMarkedWrong == 0 && unexplored == |Grid(rows, cols)|
      ensures Valid() && Partitioned() && Counted()
    {
      forall i, j | 1 <= i <= rows && 1 <= j <= cols ensures (i, j) in Hidden {
        assert (i, j) in Grid(rows, cols);
      }
    }

    /** The neighbours of (row, col), collected by two nested loops over the clipped block. */
    method CellsAround(row: int, col: int) returns (nearCells: set<Coord>)
      ensures nearCells == Neighbours(rows, cols, row, col)
    {
      nearCells := {};
      var rowMin := if row > 1 then row - 1 else row;
      var rowMax := if row < rows then row + 1 else row;
      var colMin := if col > 1 then col - 1 else col;
      var colMax := if col < cols then col + 1 else col;
      for i := rowMin to rowMax + 1
        invariant nearCells == set r, c | rowMin <= r < i && colMin <= c <= colMax && (r, c) != (row, col) :: (r, c)
      {
        for j := colMin to colMax + 1
          invariant nearCells == (set r, c | rowMin <= r < i && colMin <= c <= colMax && (r, c) != (row, col) :: (r, c))
                                 + (set c | colMin <= c < j && (i, c) != (row, col) :: (i, c))
        {
          if i == row && j == col {
            continue;
          }
          nearCells := nearCells + {(i, j)};
        }
      }
    }

    /** The number of mined neighbours of (row, col), counted one neighbour at a time. */
    method MinesAround(row: int, col: int) returns (mines: nat)
      ensures mines == MineCount(rows, cols, minedCells, row, col)
      ensures mines <= 8
    {
      var near := CellsAround(row, col);
      mines := 0;
      var rest := near;
      ghost var seen: set<Coord> := {};
      while rest != {}
        invariant seen + rest == near && seen !! rest
        invariant mines == |seen * minedCells|
        decreases rest
      {
        var cell :| cell in rest;
        IntersectionAdd(seen, minedCells, cell);
        if cell in minedCells {
          mines := mines + 1;
        }
        rest := rest - {cell};
        seen := seen + {cell};
      }
      assert seen == near;
    }

    /**
     * Toggles the mark on board cell (row, col): an unexplored cell becomes
     * marked and a marked one unexplored, and the counter of right or wrong
     * marks follows; a revealed cell is left alone.
     */
    method Mark(row: int, col: int)
      requires Valid()
      requires 1 <= row <= rows && 1 <= col <= cols
      modifies cells, this`nMarkedRight, this`nMarkedWrong, this`Marked
      ensures Valid()
      ensures cells[row, col] == Toggled(old(cells[row, col]))
      ensures forall i, j | 0 <= i <= rows && 0 <= j <= cols && (i, j) != (row, col) :: cells[i, j] == old(cells[i, j])
      ensures nMarkedRight == old(nMarkedRight) + (if (row, col) in minedCells then MarkStep(old(cells[row, col])) else 0)
      ensures nMarkedWrong == old(nMarkedWrong) + (if (row, col) in minedCells then 0 else MarkStep(old(cells[row, col])))
      ensures |Marked| == old(|Marked|) + MarkStep(old(cells[row, col]))
    {
      if cells[row, col] == UnexploredChar {
        Flip(row, col, MarkedChar);
        if (row, col) in minedCells {
          nMarkedRight := nMarkedRight + 1;
        } else {
          nMarkedWrong := nMarkedWrong + 1;
        }
      } else if cells[row, col] == MarkedChar {
        Flip(row, col, UnexploredChar);
        if (row, col) in minedCells {
          nMarkedRight := nMarkedRight - 1;
        } else {
          nMarkedWrong := nMarkedWrong - 1;
        }
      }
    }

    /** Marking the same cell twice gives back the grid and both counters of marks. */
    method MarkTwice(row: int, col: int)
      requires Valid() && 1 <= row <= rows && 1 <= col <= cols
      modifies cells, this`nMarkedRight, this`nMarkedWrong, this`Marked
      ensures Valid()
      ensures forall i, j | 0 <= i <= rows && 0 <= j <= cols :: cells[i, j] == old(cells[i, j])
      ensures nMarkedRight == old(nMarkedRight) && nMarkedWrong == old(nMarkedWrong)
    {
      ghost var c := cells[row, col];
      Mark(row, col);
      Mark(row, col);
      ToggledTwice(c);
    }

    /**
     * Writes c, the other one of '.' and '*', over the hidden board cell
     * (row, col) and swaps its mark; the counters of marks are left to
     * the caller.
     */
    method Flip(row: int, col: int, c: char)
      requires Drawn() && 1 <= row <= rows && 1 <= col <= cols
      requires IsHidden(cells[row, col]) && c == Toggled(cells[row, col])
      modifies cells, this`Marked
      ensures Drawn() && cells[row, col] == c
      ensures forall i, j | 0 <= i <= rows && 0 <= j <= cols && (i, j) != (row, col) :: cells[i, j] == old(cells[i, j])
      ensures |Marked| == old(|Marked|) + MarkStep(old(cells[row, col]))
      ensures |Marked * minedCells| == old(|Marked * minedCells|) + (if (row, col) in minedCells then MarkStep(old(cells[row, col])) else 0)
    {
      cells[row, col] := c;
      SwapMark((row, col));
      CellRewritten((row, col));
    }

    /** Takes cell out of Marked when it is in, puts it in otherwise. */
    ghost method SwapMark(cell: Coord)
      modifies this`Marked
      ensures forall p :: p in Marked <==> if p == cell then p !in old(Marked) else p in old(Marked)
      ensures |Marked| == old(|Marked|) + (if cell in old(Marked) then -1 else 1)
      ensures |Marked * minedCells| == old(|Marked * minedCells|) + (if cell !in minedCells then 0 else if cell in old(Marked) then -1 else 1)
    {
      if cell in Marked {
        IntersectionRemove(Marked, minedCells, cell);
        Marked := Marked - {cell};
      } else {
        IntersectionAdd(Marked, minedCells, cell);
        Marked := Marked + {cell};
      }
    }

    /**
     * Reveals board cell (row, col), which holds no mine: the cell shows
     * the number of mines around it, or '/' when there are none, in which
     * case every neighbour still hidden is revealed the same way. The
     * counter of unexplored cells goes down once per call, also when the
     * cell was revealed already.
     */
    method Free(row: int, col: int)
      requires Valid()
      requires 1 <= row <= rows && 1 <= col <= cols && (row, col) !in minedCells
      modifies cells, this`unexplored, this`Hidden, this`Marked
      ensures Revealed((row, col), old(Hidden), old(Marked), old(unexplored))
      decreases |Hidden|, if (row, col) in Hidden then 0 else 3
    {
      unexplored := unexplored - 1;
      var around := MinesAround(row, col);
      if around == 0 {
        var near := CellsAround(row, col);
        Show(row, col, EmptyChar);
        ghost var flood := Flood((row, col), old(Hidden), old(Marked), old(unexplored));
        FloodStarts(flood);
        Spread(flood, near);
        FloodEnds(flood);
      } else {
        DigitIsHint(around);
        Show(row, col, ('0' as int + around) as char);
        ShownAlone((row, col), old(Hidden), old(Marked), old(unexplored));
      }
    }

    /**
     * Once a cell with mines around it is shown, and only its own state
     * changed, it is revealed as Revealed promises.
     */
    lemma ShownAlone(t: Coord, h0: set<Coord>, m0: set<Coord>, u0: int)
      requires Valid() && MineCount(rows, cols, minedCells, t.0, t.1) != 0
      requires forall p :: p in Hidden <==> p in h0 && p != t
      requires forall p :: p in Marked <==> p in m0 && p != t
      requires |Hidden| == |h0| - (if t in h0 then 1 else 0)
      requires unexplored == u0 - 1
      ensures Revealed(t, h0, m0, u0)
    {
    }

    /** Once the target of a flood is shown, every neighbour is still to visit. */
    lemma FloodStarts(f: Flood)
      requires Valid()
      requires 1 <= f.target.0 <= rows && 1 <= f.target.1 <= cols && MineCount(rows, cols, minedCells, f.target.0, f.target.1) == 0
      requires forall p :: p in Hidden <==> p in f.hidden0 && p != f.target
      requires forall p :: p in Marked <==> p in f.marked0 && p != f.target
      requires |Hidden| == |f.hidden0| - (if f.target in f.hidden0 then 1 else 0)
      requires unexplored == f.unexplored0 - 1
      ensures Spreading(f, Neighbours(rows, cols, f.target.0, f.target.1))
    {
    }

    /** Once every neighbour is visited, the flood has revealed its target as promised. */
    lemma FloodEnds(f: Flood)
      requires Spreading(f, {})
      ensures Revealed(f.target, f.hidden0, f.marked0, f.unexplored0)
    {
    }

    /**
     * What revealing t promises, against the hidden cells h0, the marked
     * cells m0 and the counter u0 from before: the invariant holds; t and
     * possibly other cells are no longer hidden, and nothing is hidden anew;
     * the cells still hidden keep their marks; unexplored goes down by the
     * number of cells revealed, and by one more when t was revealed
     * already; a cell with mines around it reveals only itself, and one
     * without leaves none of its neighbours hidden; every other cell
     * revealed lies next to a revealed cell without mines around it, and
     * every revealed cell without mines around it has none hidden either.
     */
    ghost predicate Revealed(t: Coord, h0: set<Coord>, m0: set<Coord>, u0: int)
      reads this, cells
    {
      && Valid()
      && Hidden <= h0 && t !in Hidden && |Hidden| + (if t in h0 then 1 else 0) <= |h0|
      && (forall p | p in Hidden :: p in Marked <==> p in m0)
      && unexplored - |Hidden| == u0 - |h0| - (if t in h0 then 0 else 1)
      && (MineCount(rows, cols, minedCells, t.0, t.1) == 0 ==> forall p | p in Neighbours(rows, cols, t.0, t.1) :: p !in Hidden)
      && (MineCount(rows, cols, minedCells, t.0, t.1) != 0 ==> |Hidden| + (if t in h0 then 1 else 0) == |h0|)
      && Reached(t, h0, Hidden)
      && ClosedBut(t, h0, Hidden)
    }

    /**
     * How far a reveal from t may spread, from the hidden cells h0 before
     * it to the hidden cells h after it: every cell it revealed besides t
     * is a neighbour of a cell without mines around it that is t or was
     * revealed by it too.
     */
    ghost predicate Reached(t: Coord, h0: set<Coord>, h: set<Coord>)
      reads this`minedCells
    {
      forall p | p in h0 && p !in h && p != t ::
        exists q | q in Neighbours(rows, cols, p.0, p.1) ::
          (q == t || q in h0) && q !in h && MineCount(rows, cols, minedCells, q.0, q.1) == 0
    }

    /**
     * The flood from t leaves no hole: every cell without mines around it
     * that it revealed, other than t itself, has no hidden neighbour left.
     */
    ghost predicate ClosedBut(t: Coord, h0: set<Coord>, h: set<Coord>)
      reads this`minedCells
    {
      forall p | p in h0 && p != t && p !in h && MineCount(rows, cols, minedCells, p.0, p.1) == 0 ::
        forall q | q in Neighbours(rows, cols, p.0, p.1) :: q !in h
    }

    /**
     * The flood around t stays closed when a neighbour cell of t, hidden
     * when the visit began, is freed in turn and leaves its own flood closed.
     */
    lemma ClosedGrows(t: Coord, cell: Coord, h0: set<Coord>, h1: set<Coord>, h: set<Coord>)
      requires h <= h1 <= h0 && cell in h1 && cell != t
      requires ClosedBut(t, h0, h1) && ClosedBut(cell, h1, h)
      requires MineCount(rows, cols, minedCells, cell.0, cell.1) == 0 ==>
        forall q | q in Neighbours(rows, cols, cell.0, cell.1) :: q !in h
      ensures ClosedBut(t, h0, h)
    {
    }

    /**
     * The flood around t stays within its bounds when a neighbour cell of
     * t, hidden when the visit began, is revealed in turn.
     */
    lemma ReachedGrows(t: Coord, cell: Coord, h0: set<Coord>, h1: set<Coord>, h: set<Coord>)
      requires 1 <= t.0 <= rows && 1 <= t.1 <= cols && MineCount(rows, cols, minedCells, t.0, t.1) == 0
      requires cell in Neighbours(rows, cols, t.0, t.1) && cell in h1
      requires h <= h1 <= h0 && t !in h1
      requires Reached(t, h0, h1) && Reached(cell, h1, h)
      ensures Reached(t, h0, h)
    {
      NeighboursAreAdjacent(rows, cols, t.0, t.1);
      forall p | p in h0 && p !in h && p != t
        ensures exists q | q in Neighbours(rows, cols, p.0, p.1) ::
          (q == t || q in h0) && q !in h && MineCount(rows, cols, minedCells, q.0, q.1) == 0
      {
        if p !in h1 {
          var q :| q in Neighbours(rows, cols, p.0, p.1) && (q == t || q in h0) && q !in h1 && MineCount(rows, cols, minedCells, q.0, q.1) == 0;
        } else if p == cell {
          NeighboursSymmetric(rows, cols, t, cell);
          assert t in Neighbours(rows, cols, p.0, p.1);
        } else {
          var q :| q in Neighbours(rows, cols, p.0, p.1) && (q == cell || q in h1) && q !in h && MineCount(rows, cols, minedCells, q.0, q.1) == 0;
        }
      }
    }

    /**
     * Writes c, the hint of board cell (row, col), which holds no mine, and
     * takes the cell out of Hidden and Marked; a cell revealed already
     * shows c before and after.
     */
    method Show(row: int, col: int, c: char)
      requires Valid()
      requires 1 <= row <= rows && 1 <= col <= cols && (row, col) !in minedCells
      requires c == HintChar(MineCount(rows, cols, minedCells, row, col))
      modifies cells, this`Hidden, this`Marked
      ensures Valid()
      ensures forall p :: p in Hidden <==> p in old(Hidden) && p != (row, col)
      ensures forall p :: p in Marked <==> p in old(Marked) && p != (row, col)
      ensures |Hidden| == old(|Hidden|) - (if (row, col) in old(Hidden) then 1 else 0)
    {
      cells[row, col] := c;
      Forget((row, col));
      CellRewritten((row, col));
    }

    /** Takes a cell without a mine out of Hidden and Marked. */
    ghost method Forget(cell: Coord)
      requires cell !in minedCells
      modifies this`Hidden, this`Marked
      ensures forall p :: p in Hidden <==> p in old(Hidden) && p != cell
      ensures forall p :: p in Marked <==> p in old(Marked) && p != cell
      ensures |Hidden| == old(|Hidden|) - (if cell in old(Hidden) then 1 else 0)
      ensures |Marked| <= old(|Marked|) && |Marked * minedCells| == old(|Marked * minedCells|)
    {
      if cell in Marked {
        IntersectionRemove(Marked, minedCells, cell);
      } else {
        assert Marked - {cell} == Marked;
      }
      if cell in Hidden {
        assert |Hidden - {cell}| == |Hidden| - 1;
      } else {
        assert Hidden - {cell} == Hidden;
      }
      Hidden, Marked := Hidden - {cell}, Marked - {cell};
    }

    /** The loop in Free over the neighbours of a cell without mines around it. */
    method Spread(ghost f: Flood, near: set<Coord>)
      requires Spreading(f, near)
      modifies cells, this`unexplored, this`Hidden, this`Marked
      ensures Spreading(f, {})
      decreases |Hidden|, 2
    {
      var rest := near;
      while rest != {}
        invariant Spreading(f, rest) && |Hidden| <= old(|Hidden|)
        decreases rest
      {
        var cell :| cell in rest;
        Visit(f, rest, cell);
        rest := rest - {cell};
      }
    }

    /**
     * One pass of the loop in Free: the neighbour cell is revealed in turn
     * when it still shows '.' or '*', and passed over otherwise.
     */
    method Visit(ghost f: Flood, ghost rest: set<Coord>, cell: Coord)
      requires Spreading(f, rest) && cell in rest
      modifies cells, this`unexplored, this`Hidden, this`Marked
      ensures Spreading(f, rest - {cell}) && |Hidden| <= old(|Hidden|)
      decreases |Hidden|, 1
    {
      NeighboursAreAdjacent(rows, cols, f.target.0, f.target.1);
      var (r, c) := cell;
      if cells[r, c] == UnexploredChar || cells[r, c] == MarkedChar {
        ghost var h1 := Hidden;
        Free(r, c);
        ReachedGrows(f.target, cell, f.hidden0, h1, Hidden);
        ClosedGrows(f.target, cell, f.hidden0, h1, Hidden);
      }
    }

    /**
     * What holds while the flood fill around f.target is under way: the
     * target has no mine around it and is revealed; against the state the
     * reveal started from, Revealed's promises hold so far; and every
     * neighbour no longer in rest, the neighbours still to visit, is
     * revealed.
     */
    ghost predicate Spreading(f: Flood, rest: set<Coord>)
      reads this, cells
    {
      var t := f.target;
      && Valid()
      && 1 <= t.0 <= rows && 1 <= t.1 <= cols && MineCount(rows, cols, minedCells, t.0, t.1) == 0
      && rest <= Neighbours(rows, cols, t.0, t.1)
      && Hidden <= f.hidden0 && t !in Hidden && |Hidden| + (if t in f.hidden0 then 1 else 0) <= |f.hidden0|
      && (forall p | p in Hidden :: p in Marked <==> p in f.marked0)
      && unexplored - |Hidden| == f.unexplored0 - |f.hidden0| - (if t in f.hidden0 then 0 else 1)
      && (forall p | p in Neighbours(rows, cols, t.0, t.1) && p !in rest :: p !in Hidden)
      && Reached(t, f.hidden0, Hidden)
      && ClosedBut(t, f.hidden0, Hidden)
    }

    /** In a valid state with the mines on the board, every mine is still hidden. */
    lemma MinesHidden()
      requires Valid() && Partitioned()
      ensures minedCells <= Hidden
    {
      forall p | p in minedCells
        ensures p in Hidden
      {
        assert p in Grid(rows, cols);
        assert Shows(p, cells[p.0, p.1]);
      }
    }

    /**
     * A board cell that is no longer hidden holds no mine and shows its
     * hint: '/' with no mine around it, else the digit of their number.
     */
    lemma RevealedShowsHint(p: Coord)
      requires Valid() && 1 <= p.0 <= rows && 1 <= p.1 <= cols && p !in Hidden
      ensures p !in minedCells
      ensures cells[p.0, p.1] == HintChar(MineCount(rows, cols, minedCells, p.0, p.1))
    {
      assert Shows((p.0, p.1), cells[p.0, p.1]);
    }

    /**
     * Between two valid states over the same mines in which cells were only
     * revealed, and the cells still hidden kept their marks, no board cell
     * changed but those revealed in between: the board is determined by
     * the mines, Hidden and Marked.
     */
    twostate lemma OnlyRevealedChange()
      requires old(Valid()) && Valid() && minedCells == old(minedCells)
      requires Hidden <= old(Hidden)
      requires forall p | p in Hidden :: p in Marked <==> p in old(Marked)
      ensures forall i, j | 1 <= i <= rows && 1 <= j <= cols && ((i, j) in Hidden || (i, j) !in old(Hidden)) :: cells[i, j] == old(cells[i, j])
    {
      forall i, j | 1 <= i <= rows && 1 <= j <= cols && ((i, j) in Hidden || (i, j) !in old(Hidden))
        ensures cells[i, j] == old(cells[i, j])
      {
        assert Shows((i, j), cells[i, j]);
        assert old(Shows((i, j), cells[i, j]));
      }
    }

    /**
     * Rewriting one board cell so that it shows what Shows allows, with
     * Hidden and Marked changed on that cell alone, keeps every board cell
     * showing what Shows allows.
     */
    twostate lemma CellRewritten(cell: Coord)
      requires old(Drawn())
      requires 1 <= cell.0 <= rows && 1 <= cell.1 <= cols && minedCells == old(minedCells)
      requires forall i, j | 1 <= i <= rows && 1 <= j <= cols && (i, j) != cell :: cells[i, j] == old(cells[i, j])
      requires forall p | p != cell :: (p in Hidden <==> p in old(Hidden)) && (p in Marked <==> p in old(Marked))
      requires Shows(cell, cells[cell.0, cell.1])
      ensures forall i, j | 1 <= i <= rows && 1 <= j <= cols :: Shows((i, j), cells[i, j])
    {
    }
  }
}
