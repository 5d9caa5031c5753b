# Minesweeper in Dafny

A model of a console Minesweeper game written in Kotlin (`Main.kt`). The
`Minefield` class holds:

- a character grid of `(rows + 1) × (cols + 1)` cells, of which rows
  1..rows and columns 1..cols are played;
- the set of mined coordinates and the set of cells left without a mine;
- three counters: marks on mines, marks on safe cells, and cells still
  unexplored.

A cell shows `.` while unexplored and `*` while marked. Once revealed, it
shows `/` when none of its neighbours holds a mine, or else the digit of
their number. After a mine goes off, every mine shows `X`. The game loop
lets the player mark a cell ("mine") or reveal it ("free"). The loop stops:

- on a mine;
- when as many mines are marked correctly as were asked for;
- when no more cells are unexplored than there are mines.

The project has three modules:

- `board.dfy`, module `Board`: coordinates, the clipped neighbourhood of a
  cell, the mine count around a cell, and the characters a cell shows. It
  is pure functions and lemmas, plus the method `BoardCells` for the loops
  that build the board.
- `minefield.dfy`, module `Minesweeper`: the `Minefield` class.
  - `cells` is an `array2<char>`.
  - Every method updates its fields in place and states its frame.
  - Ghost sets `Hidden` and `Marked` mirror which board cells are
    unrevealed and which carry a mark.
  - The invariant `Valid` ties these sets, the grid and the marks counter
    together.
  - `Counted` says that `unexplored` is the number of hidden cells.
  - `free` is a recursive method with the same loop over the neighbours as
    the source.
- `game.dfy`, module `Game`: the loop guard, the loss branch that writes
  `X` over every mine, the "free" command as written and corrected, one
  turn, and what the loop ending means.

Where the design and the code disagree, the model follows the code:

- The marks counter for safe cells is only an upper bound on the marked
  safe cells. The flood fill reveals marked cells without taking their
  mark off that counter (Main.kt:98-101).
- Nothing rejects a bad mine count or an out-of-range coordinate.
- `free` is not guarded against an already revealed cell: `main` calls it
  on any cell without a mine.

## Model

| member | source | states |
|---|---|---|
| Board.BoardCells | Main.kt:18-22 | the nested loops collect exactly the board cells 1..rows × 1..cols |
| Board.GridSize | Main.kt:14 | the board has rows * cols cells, the initial value of unexplored |
| Board.NeighboursAreAdjacent | Main.kt:43-59 | for a board cell, the clipped 3x3 block without the cell is exactly the set of board cells at most one step away in each axis, other than the cell itself |
| Board.NeighboursSymmetric | Main.kt:43-59 | q is around p exactly when p is around q |
| Board.NeighboursAtMost8 | Main.kt:43-59 | a cell has at most eight neighbours |
| Board.MineCount | Main.kt:33-41 | the mined neighbours number at most the neighbours, so at most 8, and none exactly when no neighbour is mined |
| Board.Toggled | Main.kt:76-84 | marking swaps '.' and '*' and keeps a cell hidden exactly when it was hidden |
| Board.MarkStep | Main.kt:78-89 | the counter moves by the change in being marked ('*') that the toggle causes: up one for '.', down one for '*', none for a revealed cell |
| Board.ToggledTwice | Main.kt:75-91 | toggling twice gives the cell back and undoes the change to the counters |
| Board.HintChar | Main.kt:96-104 | a revealed cell shows '/' exactly when no mine is around it, otherwise the digit '1'..'8' of their number, never '.', '*' or 'X' |
| Minesweeper.Minefield.constructor | Main.kt:8-31 | the mines are exactly nMines distinct board cells (none for a negative count); the empty cells are the rest of the board; every cell shows '.'; no marks; unexplored is rows * cols and counts the hidden cells; the invariant holds |
| Minesweeper.Minefield.PlaceMines | Main.kt:24-30 | each round moves one empty cell to the mines: the mines end up a subset of the empty cells of before, with exactly nMines of them (none for a negative count), the rest stays empty and the grid stays all '.' |
| Minesweeper.Minefield.FreshBoard | Main.kt:9-14 | an all-'.' board with no marks and unexplored = rows * cols satisfies the invariant and the count of hidden cells |
| Minesweeper.Minefield.CellsAround | Main.kt:43-59 | the loops return exactly the clipped neighbourhood |
| Minesweeper.Minefield.MinesAround | Main.kt:33-41 | the loop returns the number of mined neighbours, at most 8 |
| Minesweeper.Minefield.Mark | Main.kt:75-91 | the cell is toggled and no other cell changes; the counter for right or wrong marks moves by +1, -1 or 0 as the cell was '.', '*' or revealed; the invariant is kept |
| Minesweeper.Minefield.MarkTwice | Main.kt:75-91 | marking one cell twice restores every cell and both counters |
| Minesweeper.Minefield.Show | Main.kt:96-104 | writing the hint of a safe cell reveals that cell alone, drops its mark and keeps the invariant |
| Minesweeper.Minefield.Spread | Main.kt:98-102 | the loop visits every neighbour of a cell without mines around it; afterwards none of them is hidden and the reveal keeps the promises of Free |
| Minesweeper.Minefield.Visit | Main.kt:98-101 | a neighbour still showing '.' or '*' is freed in turn; after it, that neighbour is revealed and the flood's promises still hold |
| Minesweeper.Minefield.Free | Main.kt:93-106 | on a safe board cell: it terminates. The invariant is kept, so no mine is ever revealed. The cell is revealed and shows its hint. Only hidden cells are revealed. Cells still hidden keep their marks. unexplored drops by the number of cells revealed, plus one if the cell was revealed already. A cell with mines around it reveals only itself; a cell without leaves none of its neighbours hidden. Every other cell revealed lies next to a revealed cell without mines around it, so no cell is revealed that is not next to a cell without mines. Every cell without mines around it that the flood revealed has no hidden neighbour left, so the region of such cells reached is revealed together with its border |
| Minesweeper.Minefield.ClosedGrows | Main.kt:96-101 | when a neighbour of the target is freed in turn and its own flood leaves no hidden neighbour of a revealed cell without mines, the target's flood still leaves none |
| Minesweeper.Minefield.ReachedGrows | Main.kt:96-101 | when a neighbour of a cell without mines is freed in turn, every cell that second reveal reaches is still next to a revealed cell without mines |
| Minesweeper.Minefield.ShownAlone | Main.kt:103-105 | a cell with mines around it, once written with its digit, is revealed alone as Free promises |
| Minesweeper.Minefield.FloodStarts | Main.kt:96-98 | once a cell without mines around it shows '/', the flood may start with all its neighbours still to visit |
| Minesweeper.Minefield.FloodEnds | Main.kt:98-102 | once every neighbour is visited, the cell is revealed as Free promises |
| Minesweeper.Minefield.RevealedShowsHint | Main.kt:96-104 | a revealed board cell holds no mine and shows '/' or the digit of the mines around it |
| Minesweeper.Minefield.MinesHidden | Main.kt:93-106 | in every valid state every mine is still hidden: free never reveals one |
| Minesweeper.Minefield.OnlyRevealedChange | Main.kt:93-106 | across reveals, every cell that stays hidden or was revealed before is unchanged |
| Game.RevealMines | Main.kt:127-129 | after stepping on a mine every mined cell shows 'X' and every other cell is unchanged |
| Game.FreeAsWritten | Main.kt:124-132 | the command sets off the mines exactly when the cell is mined, writing 'X' over every mine and changing nothing else; otherwise the invariant holds and the cell is freed as Free promises. If unexplored counted the hidden cells before, it still does after a hidden cell, and ends one below them after a cell revealed already |
| Game.FreeCommand | Main.kt:124-132 | with revealed cells skipped: a mine sets off the mines; otherwise the invariant and unexplored = number of hidden cells are kept, a hidden cell is freed as Free promises, and a revealed one changes nothing |
| Game.Turn | Main.kt:120-134 | one turn as main plays it. A mine goes off exactly on "free" on a mined cell. "mine" toggles the cell and moves the counter of right or wrong marks as Mark does. "free" runs the command as written, with its outcome on a mine and on a safe cell. Any other word changes nothing. Unless a mine went off, the invariant holds, and unexplored still counts the hidden cells except after "free" on a cell revealed already |
| Game.TurnCorrected | Main.kt:120-134 | the same turn with the corrected "free": unless a mine went off, the invariant and unexplored = number of hidden cells always hold; "free" on a revealed cell changes nothing |
| Game.StopMeansWon | Main.kt:115 | when the loop stops without a mine going off, either exactly the mines are left hidden or every mine is marked |
| Game.WonByCount | Main.kt:115 | unexplored <= mines leaves exactly the mines hidden |
| Game.WonByMarks | Main.kt:115 | nMarkedRight == mines means every mine is marked |
| Game.FreeBesideMine | Main.kt:93-106 | freeing a hidden safe cell with a mine around it reveals that cell alone and counts one cell less unexplored |
| Game.FreeRevealedAgain | Main.kt:93-106 | freeing as written a revealed cell with a mine around it reveals nothing, yet counts one cell less unexplored |
| Game.OneMineOfThree | Main.kt:24-30 | on a 1x3 board with one mine there are two distinct safe cells, one of them next to the mine |
| Game.FreeTwiceBesideMine | Main.kt:115-131 | on that board, the loop guard read after the first "free" of the cell next to the mine still holds (runningAfterFirst); after the second it fails while the other safe cell is still hidden |
| Game.RepeatedFreeStopsEarly | Main.kt:115-131 | on a new 1x3 board with one mine, freeing the same safe cell twice stops the loop while a safe cell is still hidden |

## Left out

- Printing the board, the prompts and the final messages (Main.kt:61-73, 110-119, 135-141): output only.
- Reading and parsing the player's line (column, row, command word): input only. A turn receives the row, the column and the word.
- The random choice of each mine (Main.kt:25). A mine is chosen nondeterministically among the empty cells, so every property holds for any choice. Uniformity is not modelled.
- The fixed 9×9 board in `main` and in the header of `print`: the model takes any rows and cols.
- Kotlin's 32-bit `Int`: rows * cols and the counters are unbounded integers. They stay small on any board the game builds.
- Minesweeper.Minefield.constructor: requires nMines <= rows * cols. With more mines the source picks from an empty set and throws. A negative count places no mines, as `repeat` does.
- Minesweeper.Minefield.Mark: requires a board cell (1..rows × 1..cols). The Kotlin array also has row 0 and column 0: marking there would toggle and count a cell that is never shown. Beyond the array the source throws.
- Minesweeper.Minefield.Free: requires a board cell without a mine, which `main` checks for mines (Main.kt:125). It states that every revealed cell is next to a revealed cell without mines, but that condition is local: it does not tie the revealed cells to the target through a chain of revealed cells without mines. So the contract also admits revealing, besides the target's region, a separate region of such cells that the flood from the target never reaches. Stating connectedness would need a ghost chain of cells from the target, carried through every level of the recursion.
- Minesweeper.Minefield.Show: states nothing about row 0 and column 0 of the array. No board cell lives there and nothing ever shows them. So after Free those cells are unconstrained in the model, while the source never writes them.
- Minesweeper.Minefield.Free: leaves nMarkedWrong alone when the flood reveals a wrongly marked cell, as the source does. So the invariant only bounds that counter from below, by the number of marked safe cells.
- Game.Turn: requires a board cell, for the same reason as Mark. Game.TurnCorrected also requires that unexplored counts the hidden cells, which the corrected command keeps from the first turn on.
- Game.FreeRevealedAgain: requires a mine around the cell. On a revealed cell without mines around it the flood runs again from there.
- Game.StopMeansWon: proved for the corrected command, where unexplored counts the hidden cells. For the source as written, see Findings.

## Findings

| source | as written | input that shows it | evidently intended | confidence | as-written member | corrected member |
|---|---|---|---|---|---|---|
| Main.kt:131 | `free` is called on every cell without a mine, also on one revealed already, and each call decrements `unexplored` | a 1x3 board whose only mine is at (1,1); the command "free" on (1,2) twice: unexplored becomes 1 = mines while (1,3), which holds no mine, is still hidden, so the loop stops and congratulates the player. On the game's own 9x9 board with 79 mines the same happens: "free" twice on one of the two safe cells takes unexplored from 81 to 79 | a revealed cell is left alone, so `unexplored` keeps counting the hidden cells and the loop stops on the count only once every safe cell is revealed | not executed | Game.RepeatedFreeStopsEarly | Game.TurnCorrected |
