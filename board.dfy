/**
 * Coordinates, neighbourhoods, mine counts and the characters a minefield
 * cell can show. Everything here is a pure function of the board size and
 * the set of mined coordinates; the mutable minefield is in minefield.dfy.
 */
module Board {

  /** A (row, column) pair. The playing area is rows 1..rows, columns 1..cols. */
  type Coord = (int, int)

  const MineChar := 'X'
  const MarkedChar := '*'
  const EmptyChar := '/'
  const UnexploredChar := '.'

  /** A cell the player has not revealed: unexplored or marked. */
  predicate IsHidden(c: char)
  {
    c == UnexploredChar || c == MarkedChar
  }

  /** Every coordinate of the playing area. */
  function Grid(rows: int, cols: int): set<Coord>
  {
    set i, j | 1 <= i <= rows && 1 <= j <= cols :: (i, j)
  }

  /** Columns 1..n of row i. */
  function RowCells(i: int, n: int): set<Coord>
  {
    set j | 1 <= j <= n :: (i, j)
  }

  lemma {:induction false} RowCellsSize(i: int, n: nat)
    ensures |RowCells(i, n)| == n
  {
    if n > 0 {
      RowCellsSize(i, n - 1);
      assert (i, n) !in RowCells(i, n - 1);
      assert RowCells(i, n) == RowCells(i, n - 1) + {(i, n)};
    } else {
      assert RowCells(i, n) == {};
    }
  }

  /** Adding row `rows` to the board adds cols cells. */
  lemma GridAddRow(rows: nat, cols: nat)
    requires rows > 0
    ensures |Grid(rows, cols)| == |Grid(rows - 1, cols)| + cols
  {
    RowCellsSize(rows, cols);
    assert Grid(rows, cols) == Grid(rows - 1, cols) + RowCells(rows, cols);
    assert Grid(rows - 1, cols) !! RowCells(rows, cols);
  }

  /** The board has rows * cols cells. */
  lemma {:induction false} GridSize(rows: nat, cols: nat)
    ensures |Grid(rows, cols)| == rows * cols
  {
    if rows > 0 {
      GridSize(rows - 1, cols);
      GridAddRow(rows, cols);
      assert rows * cols == (rows - 1) * cols + cols;
    } else {
      assert Grid(rows, cols) == {};
    }
  }

  /** Every board cell, collected row by row. */
  method BoardCells(rows: int, cols: int) returns (cells: set<Coord>)
    ensures cells == Grid(rows, cols)
  {
    cells := {};
    var i := 1;
    while i <= rows
      invariant 1 <= i && (i <= rows + 1 || i == 1)
      invariant cells == Grid(i - 1, cols)
    {
      var j := 1;
      while j <= cols
        invariant 1 <= j && (j <= cols + 1 || j == 1)
        invariant cells == Grid(i - 1, cols) + RowCells(i, j - 1)
      {
        cells := cells + {(i, j)};
        j := j + 1;
      }
      assert Grid(i - 1, cols) + RowCells(i, j - 1) == Grid(i, cols);
      i := i + 1;
    }
    assert Grid(i - 1, cols) == Grid(rows, cols);
  }

  /**
   * The cells around (row, col): the 3x3 block centred on it, clipped at
   * the board's edges, without the cell itself.
   */
  function Neighbours(rows: int, cols: int, row: int, col: int): set<Coord>
  {
    var rowMin := if row > 1 then row - 1 else row;
    var rowMax := if row < rows then row + 1 else row;
    var colMin := if col > 1 then col - 1 else col;
    var colMax := if col < cols then col + 1 else col;
    set i, j | rowMin <= i <= rowMax && colMin <= j <= colMax && (i, j) != (row, col) :: (i, j)
  }

  /** Independent description of a neighbour: on the board, distinct, at most one step away in each axis. */
  predicate Adjacent(rows: int, cols: int, row: int, col: int, p: Coord)
  {
    && 1 <= p.0 <= rows && 1 <= p.1 <= cols
    && p != (row, col) && -1 <= p.0 - row <= 1 && -1 <= p.1 - col <= 1
  }

  /** For a cell on the board, the clipped block is exactly its set of adjacent cells. */
  lemma NeighboursAreAdjacent(rows: int, cols: int, row: int, col: int)
    requires 1 <= row <= rows && 1 <= col <= cols
    ensures forall p :: p in Neighbours(rows, cols, row, col) <==> Adjacent(rows, cols, row, col, p)
  {
  }

  /** Adjacency on the board is symmetric. */
  lemma NeighboursSymmetric(rows: int, cols: int, p: Coord, q: Coord)
    requires 1 <= p.0 <= rows && 1 <= p.1 <= cols && 1 <= q.0 <= rows && 1 <= q.1 <= cols
    ensures q in Neighbours(rows, cols, p.0, p.1) <==> p in Neighbours(rows, cols, q.0, q.1)
  {
    NeighboursAreAdjacent(rows, cols, p.0, p.1);
    NeighboursAreAdjacent(rows, cols, q.0, q.1);
  }

  /** A cell never has more than eight neighbours, whatever its position. */
  lemma NeighboursAtMost8(rows: int, cols: int, row: int, col: int)
    ensures |Neighbours(rows, cols, row, col)| <= 8
  {
    var ring := {(row - 1, col - 1), (row - 1, col), (row - 1, col + 1),
                 (row, col - 1), (row, col + 1),
                 (row + 1, col - 1), (row + 1, col), (row + 1, col + 1)};
    assert Neighbours(rows, cols, row, col) <= ring;
    SubsetCard(Neighbours(rows, cols, row, col), ring);
  }

  /** The number of mined cells among the neighbours of (row, col). */
  function MineCount(rows: int, cols: int, mined: set<Coord>, row: int, col: int): (n: nat)
    ensures n <= |Neighbours(rows, cols, row, col)| <= 8
    ensures n == 0 <==> Neighbours(rows, cols, row, col) !! mined
  {
    var near := Neighbours(rows, cols, row, col);
    NeighboursAtMost8(rows, cols, row, col);
    SubsetCard(near * mined, near);
    DisjointIffEmpty(near, mined);
    |near * mined|
  }

  /** What marking does to a cell: unexplored and marked swap, anything else stays. */
  function Toggled(c: char): (t: char)
    ensures IsHidden(t) <==> IsHidden(c)
  {
    if c == UnexploredChar then MarkedChar
    else if c == MarkedChar then UnexploredChar
    else c
  }

  /**
   * How marking a cell showing c moves the count of marks: one up for an
   * unexplored cell, one down for a marked one, none for a revealed one.
   * That is the change in being marked that the toggle causes.
   */
  function MarkStep(c: char): (d: int)
    ensures d == (if Toggled(c) == MarkedChar then 1 else 0) - (if c == MarkedChar then 1 else 0)
    ensures d == 1 <==> c == UnexploredChar
    ensures d == -1 <==> c == MarkedChar
    ensures d == 0 <==> !IsHidden(c)
  {
    if c == UnexploredChar then 1 else if c == MarkedChar then -1 else 0
  }

  /** Marking twice gives the cell back and undoes the change to the counts. */
  lemma ToggledTwice(c: char)
    ensures Toggled(Toggled(c)) == c
    ensures MarkStep(Toggled(c)) == -MarkStep(c)
  {
  }

  /** The character a revealed cell with n mined neighbours shows: '/' for none, else the digit. */
  function HintChar(n: nat): (c: char)
    requires n <= 8
    ensures c == EmptyChar <==> n == 0
    ensures n > 0 ==> '1' <= c <= '8' && c as int - '0' as int == n
    ensures !IsHidden(c) && c != MineChar
  {
    if n == 0 then EmptyChar else ('0' as int + n) as char
  }

  /** The digit Free writes for a cell with mines around it is that cell's hint. */
  lemma DigitIsHint(n: nat)
    requires 1 <= n <= 8
    ensures ('0' as int + n) as char == HintChar(n)
  {
  }

  /** Marking p adds one to the marked mines if p is mined and to nothing else. */
  lemma IntersectionAdd(marked: set<Coord>, mined: set<Coord>, p: Coord)
    requires p !in marked
    ensures |marked + {p}| == |marked| + 1
    ensures |(marked + {p}) * mined| == |marked * mined| + (if p in mined then 1 else 0)
  {
    if p in mined {
      assert (marked + {p}) * mined == marked * mined + {p};
    } else {
      assert (marked + {p}) * mined == marked * mined;
    }
  }

  /** Unmarking p takes one from the marked mines if p is mined and from nothing else. */
  lemma IntersectionRemove(marked: set<Coord>, mined: set<Coord>, p: Coord)
    requires p in marked
    ensures |marked - {p}| == |marked| - 1
    ensures |(marked - {p}) * mined| == |marked * mined| - (if p in mined then 1 else 0)
  {
    IntersectionAdd(marked - {p}, mined, p);
    assert marked - {p} + {p} == marked;
  }

  /** A subset one element smaller that misses t is the set without t. */
  lemma RemovedOnly<T>(a: set<T>, b: set<T>, t: T)
    requires b <= a && t in a && t !in b && |b| + 1 == |a|
    ensures b == a - {t}
  {
    SubsetCard(b, a - {t});
  }

  lemma SubsetCard<T>(a: set<T>, b: set<T>)
    requires a <= b
    ensures |a| <= |b|
    ensures |a| == |b| ==> a == b
  {
    assert b == a + (b - a);
  }

  lemma DisjointIffEmpty<T>(a: set<T>, b: set<T>)
    ensures a !! b <==> |a * b| == 0
  {
    if a * b != {} {
      var x :| x in a * b;
      assert x in a && x in b;
    } else {
      forall x | x in a ensures x !in b {
        assert x !in a * b;
      }
    }
  }
}
