/** Value-level model of the two square grids of the Minesweeper engine.

    `mine_map` holds MINE (-1) for a mine and otherwise the number of mines
    among the cell's up to eight neighbours; `game_board` holds one of the
    visibility states CLOSE, OPEN and FLAG.  Both are lists of rows, so a cell
    is addressed `g[y][x]`: y is the row, x the column.
 */
module Grids {

  /** Side of the board (MS_SIZE). */
  const N: int := 8

  /** Visibility states stored in `game_board`. */
  const CLOSE: int := 0
  const OPEN: int := 1
  const FLAG: int := 2

  /** The sentinel `mine_map` stores for a mine. */
  const MINE: int := -1

  /** A cell coordinate: x is the column, y the row. */
  datatype Pos = Pos(x: int, y: int)

  /** A grid is a list of rows. */
  type Grid = seq<seq<int>>

  /** The grid has N rows of N cells each. */
  predicate IsGrid(g: Grid)
  {
    |g| == N && forall r :: 0 <= r < N ==> |g[r]| == N
  }

  /** (y, x) lies on the board. */
  predicate OnBoard(y: int, x: int)
  {
    0 <= y < N && 0 <= x < N
  }

  predicate IsState(s: int)
  {
    s == CLOSE || s == OPEN || s == FLAG
  }

  /** A `game_board`: every cell holds a visibility state. */
  ghost predicate IsBoard(b: Grid)
  {
    IsGrid(b) && forall y, x :: OnBoard(y, x) ==> IsState(b[y][x])
  }

  /** The grid whose every cell holds v. */
  function Filled(v: int): (g: Grid)
    ensures IsGrid(g)
    ensures forall y, x :: OnBoard(y, x) ==> g[y][x] == v
  {
    seq(N, _ => seq(N, _ => v))
  }

  /** (y, x) is on the board and holds a mine. */
  predicate MineAt(m: Grid, y: int, x: int)
    requires IsGrid(m)
  {
    OnBoard(y, x) && m[y][x] == MINE
  }

  // ---------------------------------------------------------------------------
  // Mine placement

  /** The cells of m that hold a mine. */
  ghost function Mines(m: Grid): set<Pos>
    requires IsGrid(m)
  {
    set y, x | 0 <= y < N && 0 <= x < N && m[y][x] == MINE :: Pos(x, y)
  }

  /** The distinct cells named by a stream of random draws. */
  ghost function Drawn(draws: seq<Pos>): set<Pos>
  {
    set p | p in draws
  }

  /** One more draw adds its cell to the drawn cells. */
  lemma DrawnStep(draws: seq<Pos>, k: int)
    requires 0 <= k < |draws|
    ensures Drawn(draws[..k + 1]) == Drawn(draws[..k]) + {draws[k]}
  {
  }

  /** The number of mines the placement loop aims for: the requested number,
      clamped to [0, N * N]. */
  function Target(numberOfMines: int): (t: int)
    ensures 0 <= t <= N * N
    ensures t == numberOfMines || (numberOfMines < 0 && t == 0) || (numberOfMines > N * N && t == N * N)
  {
    if numberOfMines <= 0 then 0
    else if numberOfMines < N * N then numberOfMines
    else N * N
  }

  function Min(a: int, b: int): int
  {
    if a <= b then a else b
  }

  lemma MinesMember(m: Grid, p: Pos)
    requires IsGrid(m)
    ensures p in Mines(m) <==> MineAt(m, p.y, p.x)
  {
  }

  /** Marking a cell that holds no mine adds exactly that cell to the mines. */
  lemma MinesAfterPlace(m: Grid, x: int, y: int)
    requires IsGrid(m) && OnBoard(y, x) && m[y][x] != MINE
    ensures IsGrid(m[y := m[y][x := MINE]])
    ensures Mines(m[y := m[y][x := MINE]]) == Mines(m) + {Pos(x, y)}
    ensures Pos(x, y) !in Mines(m)
    ensures |Mines(m[y := m[y][x := MINE]])| == |Mines(m)| + 1
  {
  }

  /** Every cell is a mine or still holds the initial 0. */
  ghost predicate MinesOrZero(m: Grid)
    requires IsGrid(m)
  {
    forall y, x :: OnBoard(y, x) ==> m[y][x] == MINE || m[y][x] == 0
  }

  /** One iteration of the placement loop: the k-th draw becomes a mine unless
      it already is one; afterwards the mines are exactly the first k + 1
      draws. */
  lemma PlaceStep(m: Grid, draws: seq<Pos>, k: int)
    requires IsGrid(m) && MinesOrZero(m) && 0 <= k < |draws|
    requires OnBoard(draws[k].y, draws[k].x)
    requires Mines(m) == Drawn(draws[..k])
    ensures var x, y := draws[k].x, draws[k].y;
      var m' := if m[y][x] != MINE then m[y := m[y][x := MINE]] else m;
      IsGrid(m') && MinesOrZero(m') && Mines(m') == Drawn(draws[..k + 1]) &&
      |Mines(m')| == |Mines(m)| + (if m[y][x] != MINE then 1 else 0)
  {
    var x, y := draws[k].x, draws[k].y;
    DrawnStep(draws, k);
    if m[y][x] != MINE {
      MinesAfterPlace(m, x, y);
    } else {
      MinesMember(m, Pos(x, y));
    }
  }

  /** Two grids with mines on the same cells have the same mine set. */
  lemma SameMinesSameSet(m: Grid, m': Grid)
    requires IsGrid(m) && IsGrid(m')
    requires forall y, x :: OnBoard(y, x) ==> (m[y][x] == MINE <==> m'[y][x] == MINE)
    ensures Mines(m) == Mines(m')
  {
  }

  lemma NoMinesInFilled(v: int)
    requires v != MINE
    ensures Mines(Filled(v)) == {}
  {
  }

  /** A subset of a finite set is no larger than it. */
  lemma {:induction false} SubsetCard(a: set<Pos>, b: set<Pos>)
    requires a <= b
    ensures |a| <= |b|
    decreases |b|
  {
    if a != {} {
      var p :| p in a;
      SubsetCard(a - {p}, b - {p});
    }
  }

  // ---------------------------------------------------------------------------
  // The 3x3 window

  /** (cy, cx) is one of the cells of the 3x3 window centred on (y, x). */
  predicate InWindow(cy: int, cx: int, y: int, x: int)
  {
    y - 1 <= cy <= y + 1 && x - 1 <= cx <= x + 1
  }

  // ---------------------------------------------------------------------------
  // Neighbour counts

  /** What visiting the offset (i, j) adds to `mine_sum`: one for an on-board
      mine, nothing at the centre (0, 0), which the loop skips. */
  function Hit(m: Grid, y: int, x: int, i: int, j: int): nat
    requires IsGrid(m)
  {
    if (i != 0 || j != 0) && MineAt(m, y + i, x + j) then 1 else 0
  }

  /** What the inner loop has added to `mine_sum` for the row offset i once it
      has visited the column offsets -1 .. j - 1. */
  ghost function RowCount(m: Grid, y: int, x: int, i: int, j: int): nat
    requires IsGrid(m) && -1 <= j <= 2
    decreases j + 1
  {
    if j == -1 then 0 else RowCount(m, y, x, i, j - 1) + Hit(m, y, x, i, j - 1)
  }

  /** `mine_sum` when the outer loop reaches the row offset i, that is, once
      the row offsets -1 .. i - 1 are done. */
  ghost function WindowCount(m: Grid, y: int, x: int, i: int): nat
    requires IsGrid(m) && -1 <= i <= 2
    decreases i + 1
  {
    if i == -1 then 0 else WindowCount(m, y, x, i - 1) + RowCount(m, y, x, i - 1, 2)
  }

  /** The neighbour count `count_mines` stores for the cell (y, x). */
  ghost function NeighbourCount(m: Grid, y: int, x: int): nat
    requires IsGrid(m)
  {
    WindowCount(m, y, x, 2)
  }

  /** The mine cells among the up to eight on-board neighbours of (y, x). */
  ghost function MineNeighbours(m: Grid, y: int, x: int): set<Pos>
    requires IsGrid(m)
  {
    set cy, cx | y - 1 <= cy <= y + 1 && x - 1 <= cx <= x + 1 && (cy != y || cx != x) && MineAt(m, cy, cx)
      :: Pos(cx, cy)
  }

  /** The mine neighbours the inner loop has counted for the row offset i
      once it has visited the column offsets -1 .. j - 1. */
  ghost function RowMines(m: Grid, y: int, x: int, i: int, j: int): set<Pos>
    requires IsGrid(m) && -1 <= j <= 2
    decreases j + 1
  {
    if j == -1 then {}
    else RowMines(m, y, x, i, j - 1) + (if Hit(m, y, x, i, j - 1) == 1 then {Pos(x + j - 1, y + i)} else {})
  }

  /** The mine neighbours counted once the row offsets -1 .. i - 1 are done. */
  ghost function WindowMines(m: Grid, y: int, x: int, i: int): set<Pos>
    requires IsGrid(m) && -1 <= i <= 2
    decreases i + 1
  {
    if i == -1 then {} else WindowMines(m, y, x, i - 1) + RowMines(m, y, x, i - 1, 2)
  }

  lemma {:induction false} RowMinesMember(m: Grid, y: int, x: int, i: int, j: int, p: Pos)
    requires IsGrid(m) && -1 <= j <= 2
    ensures p in RowMines(m, y, x, i, j) <==>
      p.y == y + i && x - 1 <= p.x < x + j && (p.y != y || p.x != x) && MineAt(m, p.y, p.x)
    decreases j + 1
  {
    if j > -1 {
      RowMinesMember(m, y, x, i, j - 1, p);
    }
  }

  lemma {:induction false} WindowMinesMember(m: Grid, y: int, x: int, i: int, p: Pos)
    requires IsGrid(m) && -1 <= i <= 2
    ensures p in WindowMines(m, y, x, i) <==>
      y - 1 <= p.y < y + i && x - 1 <= p.x <= x + 1 && (p.y != y || p.x != x) && MineAt(m, p.y, p.x)
    decreases i + 1
  {
    if i > -1 {
      WindowMinesMember(m, y, x, i - 1, p);
      RowMinesMember(m, y, x, i - 1, 2, p);
    }
  }

  /** The inner loop's partial sum is the number of distinct mine neighbours
      it has visited: each column offset is visited once. */
  lemma {:induction false} RowCountCounts(m: Grid, y: int, x: int, i: int, j: int)
    requires IsGrid(m) && -1 <= j <= 2
    ensures RowCount(m, y, x, i, j) == |RowMines(m, y, x, i, j)|
    decreases j + 1
  {
    if j > -1 {
      RowCountCounts(m, y, x, i, j - 1);
      RowMinesMember(m, y, x, i, j - 1, Pos(x + j - 1, y + i));
    }
  }

  /** The outer loop's partial sum is the number of distinct mine neighbours
      in the rows it has finished: different rows hold different cells. */
  lemma {:induction false} WindowCountCounts(m: Grid, y: int, x: int, i: int)
    requires IsGrid(m) && -1 <= i <= 2
    ensures WindowCount(m, y, x, i) == |WindowMines(m, y, x, i)|
    decreases i + 1
  {
    if i > -1 {
      WindowCountCounts(m, y, x, i - 1);
      RowCountCounts(m, y, x, i - 1, 2);
      RowsDisjoint(m, y, x, i - 1);
    }
  }

  /** The cells counted in a row are not among those of the rows before it. */
  lemma RowsDisjoint(m: Grid, y: int, x: int, i: int)
    requires IsGrid(m) && -1 <= i <= 1
    ensures WindowMines(m, y, x, i) * RowMines(m, y, x, i, 2) == {}
  {
    forall p | p in RowMines(m, y, x, i, 2)
      ensures p !in WindowMines(m, y, x, i)
    {
      RowMinesMember(m, y, x, i, 2, p);
      WindowMinesMember(m, y, x, i, p);
    }
  }

  /** Each visited column offset adds at most one, and the centre nothing. */
  lemma {:induction false} RowCountBound(m: Grid, y: int, x: int, i: int, j: int)
    requires IsGrid(m) && -1 <= j <= 2
    ensures RowCount(m, y, x, i, j) <= if i == 0 && j >= 1 then j else j + 1
    decreases j + 1
  {
    if j > -1 {
      RowCountBound(m, y, x, i, j - 1);
    }
  }

  /** Once all three rows are done, the counted cells are exactly the mine
      neighbours. */
  lemma WindowMinesAll(m: Grid, y: int, x: int)
    requires IsGrid(m)
    ensures WindowMines(m, y, x, 2) == MineNeighbours(m, y, x)
  {
    forall p
      ensures p in WindowMines(m, y, x, 2) <==> p in MineNeighbours(m, y, x)
    {
      WindowMinesMember(m, y, x, 2, p);
      if y - 1 <= p.y <= y + 1 && x - 1 <= p.x <= x + 1 && (p.y != y || p.x != x) && MineAt(m, p.y, p.x) {
        assert Pos(p.x, p.y) in MineNeighbours(m, y, x);
      }
    }
  }

  /** At most three mines per row and two in the centre row. */
  lemma NeighbourCountBound(m: Grid, y: int, x: int)
    requires IsGrid(m)
    ensures NeighbourCount(m, y, x) <= 8
  {
    RowCountBound(m, y, x, -1, 2);
    RowCountBound(m, y, x, 0, 2);
    RowCountBound(m, y, x, 1, 2);
    assert WindowCount(m, y, x, 0) == RowCount(m, y, x, -1, 2);
    assert WindowCount(m, y, x, 1) == WindowCount(m, y, x, 0) + RowCount(m, y, x, 0, 2);
    assert WindowCount(m, y, x, 2) == WindowCount(m, y, x, 1) + RowCount(m, y, x, 1, 2);
  }

  /** The stored count is exactly the number of on-board mines among the eight
      neighbours, so it lies in [0, 8] and is never the MINE sentinel. */
  lemma NeighbourCountExact(m: Grid, y: int, x: int)
    requires IsGrid(m)
    ensures NeighbourCount(m, y, x) == |MineNeighbours(m, y, x)|
    ensures 0 <= NeighbourCount(m, y, x) <= 8
    ensures NeighbourCount(m, y, x) != MINE
  {
    WindowCountCounts(m, y, x, 2);
    WindowMinesAll(m, y, x);
    NeighbourCountBound(m, y, x);
  }

  /** Counts depend only on where the mines are, row by row. */
  lemma {:induction false} RowCountSameMines(m: Grid, m': Grid, y: int, x: int, i: int, j: int)
    requires IsGrid(m) && IsGrid(m') && -1 <= j <= 2
    requires forall cy, cx :: OnBoard(cy, cx) ==> (m[cy][cx] == MINE <==> m'[cy][cx] == MINE)
    ensures RowCount(m, y, x, i, j) == RowCount(m', y, x, i, j)
    decreases j + 1
  {
    if j > -1 {
      RowCountSameMines(m, m', y, x, i, j - 1);
    }
  }

  /** The count depends only on where the mines are: overwriting non-mine
      cells with other non-mine values leaves every count unchanged, which is
      why `count_mines` may overwrite the grid it is reading. */
  lemma {:induction false} WindowCountSameMines(m: Grid, m': Grid, y: int, x: int, i: int)
    requires IsGrid(m) && IsGrid(m') && -1 <= i <= 2
    requires forall cy, cx :: OnBoard(cy, cx) ==> (m[cy][cx] == MINE <==> m'[cy][cx] == MINE)
    ensures WindowCount(m, y, x, i) == WindowCount(m', y, x, i)
    decreases i + 1
  {
    if i > -1 {
      WindowCountSameMines(m, m', y, x, i - 1);
      RowCountSameMines(m, m', y, x, i - 1, 2);
    }
  }

  /** m has mines on the same cells as m0. */
  ghost predicate SameMines(m: Grid, m0: Grid)
    requires IsGrid(m) && IsGrid(m0)
  {
    forall y, x :: OnBoard(y, x) ==> (m[y][x] == MINE <==> m0[y][x] == MINE)
  }

  /** The progress of `count_mines` over m0: the non-mine cells before (y, x)
      in row-major order hold their count, every other cell is as in m0. */
  ghost predicate CountedBefore(m: Grid, m0: Grid, y: int, x: int)
    requires IsGrid(m) && IsGrid(m0)
  {
    forall cy, cx :: OnBoard(cy, cx) ==>
      m[cy][cx] ==
        if (cy < y || (cy == y && cx < x)) && m0[cy][cx] != MINE then NeighbourCount(m0, cy, cx)
        else m0[cy][cx]
  }

  /** Storing the count of the cell (y, x) advances the progress by one cell
      and keeps the mines where they were. */
  lemma CountedStep(m: Grid, m0: Grid, y: int, x: int)
    requires IsGrid(m) && IsGrid(m0) && OnBoard(y, x)
    requires SameMines(m, m0) && CountedBefore(m, m0, y, x)
    ensures m[y][x] == MINE ==> CountedBefore(m, m0, y, x + 1)
    ensures m[y][x] != MINE ==>
      IsGrid(m[y := m[y][x := NeighbourCount(m0, y, x)]]) &&
      SameMines(m[y := m[y][x := NeighbourCount(m0, y, x)]], m0) &&
      CountedBefore(m[y := m[y][x := NeighbourCount(m0, y, x)]], m0, y, x + 1)
  {
  }

  /** Finishing a row is starting the next one. */
  lemma CountedNextRow(m: Grid, m0: Grid, y: int)
    requires IsGrid(m) && IsGrid(m0)
    ensures CountedBefore(m, m0, y, N) <==> CountedBefore(m, m0, y + 1, 0)
  {
  }

  /** Once every cell is counted, the grid satisfies CountsCorrect. */
  lemma CountedAll(m: Grid, m0: Grid)
    requires IsGrid(m) && IsGrid(m0)
    requires SameMines(m, m0) && CountedBefore(m, m0, N, 0)
    ensures CountsCorrect(m)
    ensures Mines(m) == Mines(m0)
  {
    SameMinesSameSet(m, m0);
    forall y, x | OnBoard(y, x) && m[y][x] != MINE
      ensures m[y][x] == NeighbourCount(m, y, x)
    {
      WindowCountSameMines(m, m0, y, x, 2);
    }
  }

  /** Every non-mine cell holds its neighbour count. */
  ghost predicate CountsCorrect(m: Grid)
    requires IsGrid(m)
  {
    forall y, x :: OnBoard(y, x) ==> m[y][x] == MINE || m[y][x] == NeighbourCount(m, y, x)
  }

  // ---------------------------------------------------------------------------
  // Revealing the window around a clicked cell

  /** One iteration of the window loop of `open_cell`: the cell (y, x) is
      opened when it is on the board, holds no mine, is not flagged and is
      closed. */
  function OpenStep(b: Grid, m: Grid, y: int, x: int): (r: Grid)
    requires IsGrid(b) && IsGrid(m)
    ensures IsGrid(r)
  {
    if !OnBoard(y, x) then b
    else if m[y][x] == MINE || b[y][x] == FLAG then b
    else if b[y][x] == CLOSE then b[y := b[y][x := OPEN]]
    else b
  }

  /** The board after the inner loop of `open_cell(x, y)` has visited the
      column offsets -1 .. j - 1 of the row offset i, starting from b. */
  ghost function RevealRow(b: Grid, m: Grid, x: int, y: int, i: int, j: int): (r: Grid)
    requires IsGrid(b) && IsGrid(m) && -1 <= j <= 2
    ensures IsGrid(r)
    decreases j + 1
  {
    if j == -1 then b
    else OpenStep(RevealRow(b, m, x, y, i, j - 1), m, y + i, x + j - 1)
  }

  /** The board when the outer loop of `open_cell(x, y)` reaches the row
      offset i, that is, once the row offsets -1 .. i - 1 are done. */
  ghost function RevealRows(b: Grid, m: Grid, x: int, y: int, i: int): (r: Grid)
    requires IsGrid(b) && IsGrid(m) && -1 <= i <= 2
    ensures IsGrid(r)
    decreases i + 1
  {
    if i == -1 then b
    else RevealRow(RevealRows(b, m, x, y, i - 1), m, x, y, i - 1, 2)
  }

  /** The board after the whole window loop of `open_cell(x, y)`. */
  ghost function Reveal(b: Grid, m: Grid, x: int, y: int): (r: Grid)
    requires IsGrid(b) && IsGrid(m)
  {
    RevealRows(b, m, x, y, 2)
  }

  /** One window step changes at most the cell it visits. */
  lemma OpenStepAt(b: Grid, m: Grid, py: int, px: int, cy: int, cx: int)
    requires IsGrid(b) && IsGrid(m) && OnBoard(cy, cx)
    ensures OpenStep(b, m, py, px)[cy][cx] ==
      if cy == py && cx == px && m[cy][cx] != MINE && b[cy][cx] == CLOSE then OPEN else b[cy][cx]
  {
  }

  /** After the inner loop has visited the column offsets -1 .. j - 1, a cell
      is open-by-this-click exactly when it lies in row y + i among those
      columns, holds no mine and was closed; every other cell is as before. */
  lemma {:induction false} RevealRowAt(b: Grid, m: Grid, x: int, y: int, i: int, j: int, cy: int, cx: int)
    requires IsGrid(b) && IsGrid(m) && -1 <= j <= 2 && OnBoard(cy, cx)
    ensures RevealRow(b, m, x, y, i, j)[cy][cx] ==
      if cy == y + i && x - 1 <= cx < x + j && m[cy][cx] != MINE && b[cy][cx] == CLOSE then OPEN else b[cy][cx]
    decreases j + 1
  {
    if j > -1 {
      RevealRowAt(b, m, x, y, i, j - 1, cy, cx);
      OpenStepAt(RevealRow(b, m, x, y, i, j - 1), m, y + i, x + j - 1, cy, cx);
    }
  }

  /** After the row offsets -1 .. i - 1, a cell is open-by-this-click exactly
      when it lies in those rows of the window, holds no mine and was
      closed; every other cell is as before. */
  lemma {:induction false} RevealRowsAt(b: Grid, m: Grid, x: int, y: int, i: int, cy: int, cx: int)
    requires IsGrid(b) && IsGrid(m) && -1 <= i <= 2 && OnBoard(cy, cx)
    ensures RevealRows(b, m, x, y, i)[cy][cx] ==
      if y - 1 <= cy < y + i && x - 1 <= cx <= x + 1 && m[cy][cx] != MINE && b[cy][cx] == CLOSE
      then OPEN else b[cy][cx]
    decreases i + 1
  {
    if i > -1 {
      RevealRowsAt(b, m, x, y, i - 1, cy, cx);
      RevealRowAt(RevealRows(b, m, x, y, i - 1), m, x, y, i - 1, 2, cy, cx);
    }
  }

  /** What opening a closed safe cell does to the board: inside the 3x3
      window every closed non-mine cell becomes OPEN, and nothing else
      changes — no mine cell and no flagged cell, and no cell outside the
      window. */
  lemma RevealEffect(b: Grid, m: Grid, x: int, y: int)
    requires IsGrid(b) && IsGrid(m)
    ensures IsGrid(Reveal(b, m, x, y))
    ensures forall cy, cx :: OnBoard(cy, cx) ==>
      Reveal(b, m, x, y)[cy][cx] ==
        if InWindow(cy, cx, y, x) && m[cy][cx] != MINE && b[cy][cx] == CLOSE then OPEN else b[cy][cx]
    ensures OnBoard(y, x) && m[y][x] != MINE && b[y][x] == CLOSE ==> Reveal(b, m, x, y)[y][x] == OPEN
    ensures forall cy, cx :: OnBoard(cy, cx) && m[cy][cx] == MINE ==> Reveal(b, m, x, y)[cy][cx] == b[cy][cx]
    ensures forall cy, cx :: OnBoard(cy, cx) && b[cy][cx] != CLOSE ==> Reveal(b, m, x, y)[cy][cx] == b[cy][cx]
    ensures forall cy, cx :: OnBoard(cy, cx) && !InWindow(cy, cx, y, x) ==> Reveal(b, m, x, y)[cy][cx] == b[cy][cx]
    ensures IsBoard(b) ==> IsBoard(Reveal(b, m, x, y))
  {
    forall cy, cx | OnBoard(cy, cx)
      ensures Reveal(b, m, x, y)[cy][cx] ==
        if InWindow(cy, cx, y, x) && m[cy][cx] != MINE && b[cy][cx] == CLOSE then OPEN else b[cy][cx]
    {
      RevealRowsAt(b, m, x, y, 2, cy, cx);
    }
  }

  /** Opening keeps every cell a visibility state. */
  lemma RevealIsBoard(b: Grid, m: Grid, x: int, y: int)
    requires IsBoard(b) && IsGrid(m)
    ensures IsBoard(Reveal(b, m, x, y))
  {
    RevealEffect(b, m, x, y);
  }

  // ---------------------------------------------------------------------------
  // Flags

  /** The three-state toggle of `flag_cell`: FLAG -> CLOSE, OPEN unchanged,
      anything else -> FLAG. */
  function Toggled(s: int): int
  {
    if s == FLAG then CLOSE
    else if s == OPEN then s
    else FLAG
  }

  /** The toggle swaps CLOSE and FLAG, fixes OPEN, and keeps a visibility state
      a visibility state. */
  lemma ToggleSwaps(s: int)
    requires IsState(s)
    ensures IsState(Toggled(s))
    ensures s == CLOSE <==> Toggled(s) == FLAG
    ensures s == FLAG <==> Toggled(s) == CLOSE
    ensures s == OPEN <==> Toggled(s) == OPEN
    ensures Toggled(Toggled(s)) == s
  {
  }

  /** The board after `flag_cell(x, y)`. */
  function FlagAt(b: Grid, x: int, y: int): (r: Grid)
    requires IsGrid(b) && OnBoard(y, x)
  {
    b[y := b[y][x := Toggled(b[y][x])]]
  }

  /** Toggling a flag changes only the cell (y, x), and toggling twice
      restores the board. */
  lemma FlagAtEffect(b: Grid, x: int, y: int)
    requires IsBoard(b) && OnBoard(y, x)
    ensures IsBoard(FlagAt(b, x, y))
    ensures FlagAt(b, x, y)[y][x] == Toggled(b[y][x])
    ensures forall cy, cx :: OnBoard(cy, cx) && (cy != y || cx != x) ==> FlagAt(b, x, y)[cy][cx] == b[cy][cx]
    ensures b[y][x] == OPEN ==> FlagAt(b, x, y) == b
    ensures FlagAt(FlagAt(b, x, y), x, y) == b
  {
    assert b[y][x := b[y][x]] == b[y];
    ToggleSwaps(b[y][x]);
    var b' := FlagAt(b, x, y);
    assert b'[y][x := Toggled(b'[y][x])] == b[y];
  }

  // ---------------------------------------------------------------------------
  // Winning

  /** The win condition: every cell holds a mine or is OPEN. */
  ghost predicate AllSafeOpen(m: Grid, b: Grid)
    requires IsGrid(m) && IsGrid(b)
  {
    forall y, x :: OnBoard(y, x) ==> m[y][x] == MINE || b[y][x] == OPEN
  }

  /** The win condition looks only at non-mine cells: flags, or any other
      state, on mine cells do not affect it; a board made entirely of mines is
      won whatever is open. */
  lemma WinIgnoresMines(m: Grid, b: Grid, b': Grid)
    requires IsGrid(m) && IsGrid(b) && IsGrid(b')
    requires forall y, x :: OnBoard(y, x) && m[y][x] != MINE ==> b[y][x] == b'[y][x]
    ensures AllSafeOpen(m, b) <==> AllSafeOpen(m, b')
    ensures (forall y, x :: OnBoard(y, x) ==> m[y][x] == MINE) ==> AllSafeOpen(m, b)
  {
  }

  /** Opening never closes a cell, so a won board stays won. */
  lemma RevealKeepsWin(b: Grid, m: Grid, x: int, y: int)
    requires IsGrid(b) && IsGrid(m) && AllSafeOpen(m, b)
    ensures AllSafeOpen(m, Reveal(b, m, x, y))
  {
    RevealEffect(b, m, x, y);
  }
}
