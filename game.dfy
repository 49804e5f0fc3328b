/** The Minesweeper game-state engine: the `Game` class, which owns the mine
    map and the visibility board and changes them in place.
 */
module Minesweeper {
  import opened Grids

  class Game {
    /** MINE for a mine, otherwise the number of neighbouring mines. */
    var mineMap: Grid
    /** CLOSE, OPEN or FLAG for each cell. */
    var gameBoard: Grid

    /** Both grids are N x N. */
    ghost predicate Shaped()
      reads this
    {
      IsGrid(mineMap) && IsGrid(gameBoard)
    }

    /** The engine's invariant once constructed: the board holds visibility
        states and every non-mine cell of the mine map holds its count. */
    ghost predicate Valid()
      reads this
    {
      Shaped() && IsBoard(gameBoard) && CountsCorrect(mineMap)
    }

    /** Builds a game with the requested number of mines (10 by default).
        `draws` stands for the stream of coordinates the random generator
        yields; placement stops early if it runs out before enough distinct
        cells were drawn. */
    constructor (draws: seq<Pos>, numberOfMines: int := 10)
      requires forall i :: 0 <= i < |draws| ==> OnBoard(draws[i].y, draws[i].x)
      ensures Valid()
      ensures forall y, x :: OnBoard(y, x) ==> gameBoard[y][x] == CLOSE
      ensures Mines(mineMap) <= Drawn(draws)
      ensures |Mines(mineMap)| == Min(Target(numberOfMines), |Drawn(draws)|)
    {
      new;
      InitGameBoard();
      InitMineMap(numberOfMines, draws);
      CountMines();
    }

    /** Every cell of the board starts CLOSE. */
    method InitGameBoard()
      modifies this
      ensures mineMap == old(mineMap)
      ensures IsBoard(gameBoard)
      ensures forall y, x :: OnBoard(y, x) ==> gameBoard[y][x] == CLOSE
    {
      gameBoard := Filled(CLOSE);
    }

    /** Rejection-sampled mine placement: a drawn cell becomes a mine unless it
        already is one, until the clamped target is reached. */
    method InitMineMap(numberOfMines: int, draws: seq<Pos>)
      requires forall i :: 0 <= i < |draws| ==> OnBoard(draws[i].y, draws[i].x)
      modifies this
      ensures gameBoard == old(gameBoard)
      ensures IsGrid(mineMap)
      ensures MinesOrZero(mineMap)
      ensures Mines(mineMap) <= Drawn(draws)
      ensures |Mines(mineMap)| == Min(Target(numberOfMines), |Drawn(draws)|)
    {
      var mineNum := 0;
      mineMap := Filled(0);
      NoMinesInFilled(0);
      var k := 0;
      while mineNum < numberOfMines && mineNum < N * N && k < |draws|
        invariant 0 <= k <= |draws|
        invariant gameBoard == old(gameBoard)
        invariant IsGrid(mineMap) && MinesOrZero(mineMap)
        invariant Mines(mineMap) == Drawn(draws[..k])
        invariant mineNum == |Mines(mineMap)| <= Target(numberOfMines)
      {
        var x := draws[k].x;
        var y := draws[k].y;
        PlaceStep(mineMap, draws, k);
        if mineMap[y][x] != MINE {
          mineMap := mineMap[y := mineMap[y][x := MINE]];
          mineNum := mineNum + 1;
        }
        k := k + 1;
      }
      assert draws[..|draws|] == draws;
      SubsetCard(Drawn(draws[..k]), Drawn(draws));
    }

    /** Stores in every non-mine cell the number of mines among its up to
        eight on-board neighbours; mine cells keep MINE. */
    method CountMines()
      requires Shaped()
      modifies this
      ensures Shaped() && gameBoard == old(gameBoard)
      ensures forall y, x :: OnBoard(y, x) ==>
        mineMap[y][x] == if old(mineMap)[y][x] == MINE then MINE else NeighbourCount(old(mineMap), y, x)
      ensures Mines(mineMap) == Mines(old(mineMap))
      ensures CountsCorrect(mineMap)
    {
      ghost var m0 := mineMap;
      for y := 0 to N
        invariant Shaped() && gameBoard == old(gameBoard)
        invariant SameMines(mineMap, m0) && CountedBefore(mineMap, m0, y, 0)
      {
        for x := 0 to N
          invariant Shaped() && gameBoard == old(gameBoard)
          invariant SameMines(mineMap, m0) && CountedBefore(mineMap, m0, y, x)
        {
          CountedStep(mineMap, m0, y, x);
          if mineMap[y][x] != MINE {
            var mineSum := NeighbourMines(y, x);
            WindowCountSameMines(mineMap, m0, y, x, 2);
            mineMap := mineMap[y := mineMap[y][x := mineSum]];
          }
        }
        CountedNextRow(mineMap, m0, y);
      }
      CountedAll(mineMap, m0);
    }

    /** The inner double loop of `count_mines`: the number of mines among the
        eight offsets around (y, x) other than (0, 0), asked of `is_mine`. */
    method NeighbourMines(y: int, x: int) returns (mineSum: int)
      requires IsGrid(mineMap)
      ensures mineSum == NeighbourCount(mineMap, y, x)
      ensures mineSum == |MineNeighbours(mineMap, y, x)|
      ensures 0 <= mineSum <= 8
    {
      mineSum := 0;
      for i := -1 to 2
        invariant mineSum == WindowCount(mineMap, y, x, i)
      {
        for j := -1 to 2
          invariant mineSum == WindowCount(mineMap, y, x, i) + RowCount(mineMap, y, x, i, j)
        {
          if i != 0 || j != 0 {
            var isMine := IsMine(y + i, x + j);
            if isMine {
              mineSum := mineSum + 1;
            }
          }
        }
      }
      NeighbourCountExact(mineMap, y, x);
    }

    /** is_mine(y, x): the coordinates are on the board and the cell holds a
        mine.  Note the (row, column) argument order. */
    function IsMine(y: int, x: int): (r: bool)
      reads this
      requires IsGrid(mineMap)
      ensures r <==> 0 <= y < N && 0 <= x < N && mineMap[y][x] == MINE
    {
      MineAt(mineMap, y, x)
    }

    /** board_range(y, x): the coordinates lie on the board.  Note the
        (row, column) argument order. */
    static function BoardRange(y: int, x: int): (r: bool)
      ensures r <==> 0 <= y < N && 0 <= x < N
    {
      OnBoard(y, x)
    }

    /** open_cell(x, y).  Returns false exactly when (x, y) is on the board
        and holds a mine; the board then stays as it was, flagged or not.  On
        an in-range closed cell without a mine, the cell and the closed,
        unflagged, non-mine cells of its 3x3 window are opened.  In every
        other case nothing changes. */
    method OpenCell(x: int, y: int) returns (r: bool)
      requires Valid()
      modifies this
      ensures Valid() && mineMap == old(mineMap)
      ensures r <==> !(OnBoard(y, x) && mineMap[y][x] == MINE)
      ensures gameBoard ==
        if OnBoard(y, x) && mineMap[y][x] != MINE && old(gameBoard)[y][x] == CLOSE
        then Reveal(old(gameBoard), mineMap, x, y)
        else old(gameBoard)
    {
      if BoardRange(y, x) == false {
        return true;
      }
      if mineMap[y][x] != FLAG && mineMap[y][x] == MINE {
        return false;
      } else if gameBoard[y][x] != CLOSE {
        return true;
      } else {
        OpenWindow(x, y);
        RevealIsBoard(old(gameBoard), mineMap, x, y);
      }
      return true;
    }

    /** The window loop of `open_cell(x, y)`: each cell of the 3x3 window
        around (x, y) that is on the board, holds no mine, is not flagged and
        is closed becomes OPEN, visited row by row. */
    method OpenWindow(x: int, y: int)
      requires Shaped()
      modifies this
      ensures Shaped() && mineMap == old(mineMap)
      ensures gameBoard == Reveal(old(gameBoard), mineMap, x, y)
    {
      for i := -1 to 2
        invariant Shaped() && mineMap == old(mineMap)
        invariant gameBoard == RevealRows(old(gameBoard), mineMap, x, y, i)
      {
        for j := -1 to 2
          invariant Shaped() && mineMap == old(mineMap)
          invariant gameBoard == RevealRow(RevealRows(old(gameBoard), mineMap, x, y, i), mineMap, x, y, i, j)
        {
          ghost var before := gameBoard;
          if BoardRange(y + i, x + j) {
            if mineMap[y + i][x + j] == MINE || gameBoard[y + i][x + j] == FLAG {
            } else if gameBoard[y + i][x + j] == CLOSE {
              gameBoard := gameBoard[y + i := gameBoard[y + i][x + j := OPEN]];
            }
          }
          assert gameBoard == OpenStep(before, mineMap, y + i, x + j);
        }
      }
    }

    /** flag_cell(x, y): FLAG becomes CLOSE, OPEN stays, CLOSE becomes FLAG;
        no other cell changes.  The coordinates must be on the board, since
        the operation does not check them. */
    method FlagCell(x: int, y: int)
      requires Valid() && OnBoard(y, x)
      modifies this
      ensures Valid() && mineMap == old(mineMap)
      ensures gameBoard == FlagAt(old(gameBoard), x, y)
    {
      FlagAtEffect(gameBoard, x, y);
      if gameBoard[y][x] == FLAG {
        gameBoard := gameBoard[y := gameBoard[y][x := CLOSE]];
      } else if gameBoard[y][x] == OPEN {
      } else {
        gameBoard := gameBoard[y := gameBoard[y][x := FLAG]];
      }
    }

    /** is_finished(): counts the cells that hold a mine or are OPEN and
        reports whether that is all N * N of them, i.e. whether every safe
        cell has been opened. */
    method IsFinished() returns (r: bool)
      requires Shaped()
      ensures r <==> AllSafeOpen(mineMap, gameBoard)
    {
      var notMineSum := 0;
      for i := 0 to N
        invariant notMineSum <= i * N
        invariant notMineSum == i * N <==>
          forall cy, cx :: OnBoard(cy, cx) && cy < i ==> mineMap[cy][cx] == MINE || gameBoard[cy][cx] == OPEN
      {
        for j := 0 to N
          invariant notMineSum <= i * N + j
          invariant notMineSum == i * N + j <==>
            forall cy, cx :: OnBoard(cy, cx) && (cy < i || (cy == i && cx < j)) ==>
              mineMap[cy][cx] == MINE || gameBoard[cy][cx] == OPEN
        {
          if mineMap[i][j] == MINE {
            notMineSum := notMineSum + 1;
          } else if gameBoard[i][j] == OPEN {
            notMineSum := notMineSum + 1;
          }
        }
      }
      if notMineSum == N * N {
        return true;
      }
      return false;
    }
  }

  /** Flagging a mine does not protect it: `open_cell` compares the mine map,
      not the board, with FLAG, so opening a flagged mine still loses. */
  method FlaggedMineStillLoses() returns (r: bool)
    ensures !r
  {
    var g := new Game([Pos(2, 3)], 1);
    assert Drawn([Pos(2, 3)]) == {Pos(2, 3)};
    assert Mines(g.mineMap) == {Pos(2, 3)};
    MinesMember(g.mineMap, Pos(2, 3));
    g.FlagCell(2, 3);
    assert g.gameBoard[3][2] == FLAG;
    r := g.OpenCell(2, 3);
  }
}
