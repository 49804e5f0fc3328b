# Minesweeper game-state engine in Dafny

This project models the `Game` class of the Python Minesweeper program and proves its behaviour. `Game` is the engine behind both the console version (`Minesweeper.py`) and the PyQt version (`Minesweeper_gui_2.py`). The two files hold identical copies of the class: line `n` of `Minesweeper.py` (lines 7-166) matches line `n + 5` of `Minesweeper_gui_2.py` (lines 12-171). The table below cites `Minesweeper.py`, except where a row shows the copy.

The engine keeps two 8 x 8 grids (`MS_SIZE = 8`), stored as lists of rows and indexed `[y][x]`:

- `mine_map` holds `-1` (MINE) for a mine. Every other cell holds the number of mines among its up to eight on-board neighbours.
- `game_board` holds `CLOSE = 0`, `OPEN = 1` or `FLAG = 2`.

Files:

- `grids.dfy`, module `Grids`, defines the board at the level of values:
  - the constants, the mine set of a grid and the clamped mine target;
  - the neighbour count, defined exactly as the `count_mines` loops accumulate it, plus an independent definition as the set of mine neighbours;
  - the one-ring reveal of `open_cell`, defined step by step in the loops' visiting order;
  - the flag toggle and the win predicate;
  - the lemmas that relate these definitions.
- `game.dfy`, module `Minesweeper`, holds the class `Game`:
  - `mineMap` and `gameBoard` are `seq<seq<int>>` fields that the methods reassign, as the Python methods update their nested lists;
  - each Python method becomes a Dafny method with the same loops and branches, proved against the functions of `Grids`;
  - `board_range` and `is_mine` become functions.

Argument order follows the source. `OpenCell` and `FlagCell` take `(x, y)`. `BoardRange` and `IsMine` take `(y, x)`.

Two inner loops are separate read-only or board-only methods in the model, each called from the one place the source runs it; their loops, branches and calls are unchanged:

- the neighbour count of `count_mines` (`Minesweeper.py:57-68`) is `Game.NeighbourMines`, which `CountMines` calls for each non-mine cell;
- the window loop of `open_cell` (`Minesweeper.py:107-114`) is `Game.OpenWindow`, which `OpenCell` calls on a closed safe cell.

Both loops visit the 3 x 3 offsets row offset by row offset. The model defines what they compute the same way: one recursive function for the inner loop over the column offsets (`RowCount`, `RevealRow`) and one for the outer loop over the row offsets (`WindowCount`, `RevealRows`).

Where the program's own documentation and the code disagree, the model follows the code:

- **Flagged mines.** The PyQt front end treats a flag as protection. Before it calls `open_cell`, it ends the game only when the clicked cell is a mine and is not flagged (`Minesweeper_gui_2.py:202`). The comment at `Minesweeper.py:101` likewise describes the test as catching a flag or a mine. The test itself, `mine_map[y][x] != FLAG`, compares the mine map with `FLAG`. A mine cell holds `-1` there, so the test is always true, and through `open_cell` alone a flagged mine still returns `False`. `OpenCell` states this, and `FlaggedMineStillLoses` proves it on a concrete game.
- **`flag_cell` bounds.** `flag_cell` does not check its coordinates. The model requires them to be on the board.

## Model

| member | source | states |
|---|---|---|
| `Minesweeper.Game.constructor` | Minesweeper.py:9-21 | After `init_game_board`, `init_mine_map` and `count_mines`: every cell is CLOSE, the engine invariant holds (every non-mine cell holds its exact neighbour count), the mines are drawn cells, and their number is the clamped request (default 10) unless the draws ran out first |
| `Minesweeper.Game.InitGameBoard` | Minesweeper.py:23-25 | Every cell of the board is CLOSE; the mine map is untouched |
| `Minesweeper.Game.InitMineMap` | Minesweeper.py:27-43 | Rejection sampling: the mines are a subset of the drawn cells, every other cell holds 0, and the number of mines is `min(Target(n), distinct draws)` (the loop invariant: `mine_num` is the number of mines, which are exactly the draws so far, so a mine is never removed) |
| `Grids.Target` | Minesweeper.py:37 | The loop guard's bound: the requested number when it lies in [0, 64], 0 for a non-positive request, 64 above that |
| `Grids.PlaceStep` | Minesweeper.py:38-43 | One draw: the cell becomes a mine iff it was not one, the count grows by exactly that, and the mines become the first k + 1 draws |
| `Grids.MinesAfterPlace` | Minesweeper.py:41-43 | Writing -1 into a non-mine cell adds exactly that cell to the mine set, so the count grows by one |
| `Minesweeper.Game.CountMines` | Minesweeper.py:45-71 | Each mine cell keeps -1 and each non-mine cell receives its neighbour count in the ORIGINAL map; the mine set is unchanged, and the result satisfies the invariant that every non-mine cell holds its count (so overwriting in place was safe) |
| `Minesweeper.Game.NeighbourMines` | Minesweeper.py:57-68 | `mine_sum` after the double loop equals the number of on-board mines among the 8 offsets other than (0, 0), and lies in [0, 8] |
| `Grids.RowMinesMember` | Minesweeper.py:60-68 | After the column offsets -1 .. j - 1 of row offset i, the mines counted are exactly the on-board mines of row y + i in those columns, the centre excluded |
| `Grids.RowCountCounts` | Minesweeper.py:60-68 | The inner loop's partial sum equals the number of distinct mine cells it has visited |
| `Grids.WindowMinesMember` | Minesweeper.py:59-68 | After the row offsets -1 .. i - 1, the mines counted are exactly the on-board mines among those rows of the window, the centre excluded |
| `Grids.RowsDisjoint` | Minesweeper.py:59-68 | A row's mines are not among those of the rows before it, so no cell is counted twice |
| `Grids.WindowCountCounts` | Minesweeper.py:59-68 | The outer loop's partial sum equals the number of distinct mine cells in the rows it has finished |
| `Grids.WindowMinesAll` | Minesweeper.py:59-68 | After all three rows, the cells counted are exactly the independently defined set of mine neighbours |
| `Grids.RowCountBound` | Minesweeper.py:60-68 | Each visited column offset adds at most one, and the centre adds nothing |
| `Grids.NeighbourCountBound` | Minesweeper.py:59-68 | The stored count is at most 8 |
| `Grids.NeighbourCountExact` | Minesweeper.py:71 | The stored count equals the number of on-board mine cells among the eight neighbours (an independently defined set), lies in [0, 8], and is never the -1 sentinel |
| `Grids.RowCountSameMines` | Minesweeper.py:60-68 | A row's partial sum depends only on where the mines are |
| `Grids.WindowCountSameMines` | Minesweeper.py:53-71 | Counts depend only on where the mines are, so replacing non-mine values with other non-mine values changes no count |
| `Grids.CountedStep` | Minesweeper.py:50-71 | Processing cell (y, x) in row-major order extends the counted prefix by one cell and keeps every mine in place |
| `Grids.CountedAll` | Minesweeper.py:49-71 | Once every cell is processed, every non-mine cell holds its own neighbour count and the mine set is the original one |
| `Minesweeper.Game.IsMine` | Minesweeper.py:73-85 | True iff (y, x) is on the board and holds -1; any off-board coordinate gives false (row first, column second) |
| `Minesweeper.Game.OpenCell` | Minesweeper.py:87-115 | Returns false iff the cell is on the board and holds a mine, flagged or not; the board is then unchanged. Off the board, or on a safe cell that is not CLOSE, it returns true and changes nothing. On a closed safe cell the board becomes the one-ring reveal. The mine map never changes |
| `Minesweeper.Game.OpenWindow` | Minesweeper.py:107-114 | The board after the double loop is the reveal of the window around (x, y); the mine map is unchanged |
| `Grids.OpenStepAt` | Minesweeper.py:109-114 | One iteration changes only the visited cell, and that cell only from CLOSE (without a mine) to OPEN |
| `Grids.RevealRowAt` | Minesweeper.py:108-114 | After the column offsets -1 .. j - 1 of row offset i, a cell has been opened by this click iff it lies in row y + i among those columns, holds no mine and was CLOSE; all others are as before |
| `Grids.RevealRowsAt` | Minesweeper.py:107-114 | After the row offsets -1 .. i - 1, a cell has been opened by this click iff it lies in those rows of the window, holds no mine and was CLOSE; all others are as before |
| `Grids.RevealEffect` | Minesweeper.py:107-115 | The whole reveal: inside the 3x3 window every CLOSE non-mine cell becomes OPEN, including the clicked cell; mine cells, FLAG and OPEN cells, and every cell outside the window are unchanged; the board keeps only valid states |
| `Grids.RevealKeepsWin` | Minesweeper.py:107-115 | Opening never closes a cell, so a board that satisfies the win condition still does after a reveal |
| `Minesweeper.Game.BoardRange` | Minesweeper.py:117-130 | True iff both coordinates lie in [0, 8), row first, column second |
| `Minesweeper.Game.FlagCell` | Minesweeper.py:132-143 | The board becomes the flag toggle applied to cell (x, y) only; the mine map is unchanged and the engine invariant is kept |
| `Grids.ToggleSwaps` | Minesweeper.py:136-143 | The toggle maps FLAG to CLOSE and CLOSE to FLAG, fixes OPEN, stays within the three states and is an involution |
| `Grids.FlagAtEffect` | Minesweeper.py:132-143 | Toggling changes only cell (y, x), leaves an OPEN cell's board as it was, and toggling twice restores the board |
| `Minesweeper.Game.IsFinished` | Minesweeper.py:146-166 | Returns true iff every cell is a mine or OPEN, that is, iff every non-mine cell has been opened (the loop's count of mine-or-open cells reaches 64 exactly then) |
| `Grids.WinIgnoresMines` | Minesweeper.py:155-164 | The win condition does not depend on the state (flagged or not) of mine cells, and holds for any board when every cell is a mine |
| `Minesweeper.FlaggedMineStillLoses` | Minesweeper_gui_2.py:106-107 | A game whose single mine is at (2, 3): after flagging (2, 3), opening it still returns false |

## Left out

- Randomness: `random.randint` in `init_mine_map` is replaced by a caller-supplied stream of on-board draws (`draws`). The model does not capture the distribution.
- Minesweeper.Game.InitMineMap: the loop also stops when the finite stream of draws runs out, so the exact count `min(number_of_mines, 64)` is promised only when the stream names at least that many distinct cells. The Python loop retries until it reaches the target, which happens with probability 1 but has no termination measure.
- Minesweeper.Game.FlagCell: requires on-board coordinates. It does not model Python's negative-index wrap-around or the `IndexError` that the console loop swallows.
- Board size: the board is always `MS_SIZE = 8`. Boards of other sizes, such as 1 x 1, are not modelled.
- Text rendering (`print_header`, `print_footer`, `print_mine_map`, `print_game_board`, `Minesweeper.py:168-204`): console output only.
- The console command loop (`Minesweeper.py:206-236`): input parsing and I/O.
- The PyQt front end (`MyPushButton`, `MinesweeperWindow`, `main`, `Minesweeper_gui_2.py:173-300`): widgets and foreign library calls.
