/** The mutable board: a BOARD_SIZE x BOARD_SIZE array of cells, the set of
    played positions, the last move and the move counter. Every method keeps
    the board's invariant (a position is played exactly when its cell holds a
    stone, and the counter is the number of played positions) and states its
    effect on the abstract grid `cells`. */
module Boards {
  import opened Consts
  import opened Options
  import opened Grids
  import opened Lines

  class Board {
    const grid: array2<Cell>
    var played: set<Pos>
    var lastMove: Option<Pos>
    var moveCount: int
    /** The grid as a value; the array mirrors it cell by cell. */
    ghost var cells: Grid

    ghost predicate Valid()
      reads this, grid
    {
      && grid.Length0 == BOARD_SIZE && grid.Length1 == BOARD_SIZE
      && WellFormed(cells)
      && (forall r, c :: 0 <= r < BOARD_SIZE && 0 <= c < BOARD_SIZE ==> grid[r, c] == cells[r][c])
      && played == Occupied(cells)
      && moveCount == |played|
    }

    /** A new board: every cell empty, nothing played, no last move. */
    constructor ()
      ensures Valid() && fresh(grid)
      ensures cells == EmptyGrid() && played == {} && lastMove == None && moveCount == 0
    {
      grid := new Cell[BOARD_SIZE, BOARD_SIZE]((_, _) => Empty);
      played := {};
      lastMove := None;
      moveCount := 0;
      cells := EmptyGrid();
      EmptyGridUnoccupied();
    }

    function GetCell(row: int, col: int): (c: Cell)
      reads this, grid
      requires Valid() && InRange((row, col))
      ensures c == At(cells, (row, col))
    {
      grid[row, col]
    }

    /** A move may go to (row, col) exactly when it is on the board and its
        cell is empty; off-board coordinates give false. */
    function IsValidMove(row: int, col: int): (ok: bool)
      reads this, grid
      requires Valid()
      ensures ok <==> InRange((row, col)) && At(cells, (row, col)) == Empty
      ensures ok <==> InRange((row, col)) && (row, col) !in played
    {
      if !(0 <= row < BOARD_SIZE && 0 <= col < BOARD_SIZE) then false
      else grid[row, col] == Empty
    }

    /** Plays `player` at (row, col) when that is a valid move; otherwise
        changes nothing and reports failure. */
    method MakeMove(row: int, col: int, player: Player) returns (ok: bool)
      requires Valid()
      modifies this, grid
      ensures Valid()
      ensures ok <==> Grids.IsValidMove(old(cells), (row, col))
      ensures ok ==> && cells == Place(old(cells), (row, col), player)
                     && played == old(played) + {(row, col)}
                     && lastMove == Some((row, col))
                     && moveCount == old(moveCount) + 1
      ensures !ok ==> && cells == old(cells) && played == old(played)
                      && lastMove == old(lastMove) && moveCount == old(moveCount)
    {
      if !IsValidMove(row, col) {
        return false;
      }
      PlaceStone(cells, (row, col), player);
      grid[row, col] := player;
      played := played + {(row, col)};
      lastMove := Some((row, col));
      moveCount := moveCount + 1;
      cells := Place(cells, (row, col), player);
      return true;
    }

    /** Takes back the stone at (row, col). Nothing is checked: the caller
        undoes only a stone it has just played. The last move is left as it
        was. */
    method UndoMove(row: int, col: int)
      requires Valid() && InRange((row, col)) && At(cells, (row, col)) != Empty
      modifies this, grid
      ensures Valid()
      ensures cells == Place(old(cells), (row, col), Empty)
      ensures played == old(played) - {(row, col)}
      ensures moveCount == old(moveCount) - 1
      ensures lastMove == old(lastMove)
    {
      ClearStone(cells, (row, col));
      grid[row, col] := Empty;
      played := played - {(row, col)};
      moveCount := moveCount - 1;
      cells := Place(cells, (row, col), Empty);
    }

    /** Back to the state of a new board. */
    method Reset()
      requires Valid()
      modifies this, grid
      ensures Valid()
      ensures cells == EmptyGrid() && played == {} && lastMove == None && moveCount == 0
    {
      for row := 0 to BOARD_SIZE
        invariant forall r, c :: 0 <= r < row && 0 <= c < BOARD_SIZE ==> grid[r, c] == Empty
      {
        for col := 0 to BOARD_SIZE
          invariant forall r, c :: 0 <= r < row && 0 <= c < BOARD_SIZE ==> grid[r, c] == Empty
          invariant forall c :: 0 <= c < col ==> grid[row, c] == Empty
        {
          grid[row, col] := Empty;
        }
      }
      played := {};
      lastMove := None;
      moveCount := 0;
      cells := EmptyGrid();
      EmptyGridUnoccupied();
    }

    /** The board counts as full once every cell has been played. */
    function IsFull(): (full: bool)
      reads this, grid
      requires Valid()
      ensures full <==> |Occupied(cells)| >= BOARD_SIZE * BOARD_SIZE
    {
      moveCount >= BOARD_SIZE * BOARD_SIZE
    }

    /** The number of consecutive `player` cells after (row, col) along
        (dr, dc), not counting (row, col) itself. */
    method CountDirection(row: int, col: int, dr: int, dc: int, player: Cell) returns (count: nat)
      requires Valid() && InRange((row, col)) && IsDir((dr, dc))
      ensures count == Run(cells, (row, col), (dr, dc), player)
    {
      count := 0;
      var r, c := row + dr, col + dc;
      ghost var prev: Pos := (row, col);
      while 0 <= r < BOARD_SIZE && 0 <= c < BOARD_SIZE && grid[r, c] == player
        invariant InRange(prev) && r == prev.0 + dr && c == prev.1 + dc
        invariant count + Run(cells, prev, (dr, dc), player) == Run(cells, (row, col), (dr, dc), player)
        decreases Run(cells, prev, (dr, dc), player)
      {
        RunUnfold(cells, prev, (dr, dc), player, (r, c));
        assert IsStone(cells, (r, c), player);
        prev := (r, c);
        count := count + 1;
        r := r + dr;
        c := c + dc;
      }
      RunUnfold(cells, prev, (dr, dc), player, (r, c));
    }

    /** The player at (lastRow, lastCol) when one of the four axes through it
        carries at least WIN_CONDITION of that player's stones in a row;
        none otherwise, and none for an empty cell. */
    method CheckWinner(lastRow: int, lastCol: int) returns (winner: Option<Player>)
      requires Valid() && InRange((lastRow, lastCol))
      ensures winner == Winner(cells, (lastRow, lastCol))
    {
      var player := grid[lastRow, lastCol];
      if player == Empty {
        return None;
      }
      for k := 0 to |DIRECTIONS|
        invariant forall j :: 0 <= j < k ==> !WinsAlong(cells, (lastRow, lastCol), j)
      {
        var (dr, dc) := DIRECTIONS[k];
        var count := 1;
        var forward := CountDirection(lastRow, lastCol, dr, dc, player);
        count := count + forward;
        var backward := CountDirection(lastRow, lastCol, -dr, -dc, player);
        count := count + backward;
        assert count == LineLength(cells, (lastRow, lastCol), DIRECTIONS[k], player);
        if count >= WIN_CONDITION {
          assert WinsAlong(cells, (lastRow, lastCol), k);
          return Some(player);
        }
      }
      return None;
    }

    /** An independent board with the same cells, played set, last move and
        move count. */
    method Clone() returns (copy: Board)
      requires Valid()
      ensures fresh(copy) && fresh(copy.grid) && copy.Valid()
      ensures copy.cells == cells && copy.played == played
      ensures copy.lastMove == lastMove && copy.moveCount == moveCount
    {
      copy := new Board();
      for row := 0 to BOARD_SIZE
        invariant forall r, c :: 0 <= r < row && 0 <= c < BOARD_SIZE ==> copy.grid[r, c] == grid[r, c]
      {
        for col := 0 to BOARD_SIZE
          invariant forall r, c :: 0 <= r < row && 0 <= c < BOARD_SIZE ==> copy.grid[r, c] == grid[r, c]
          invariant forall c :: 0 <= c < col ==> copy.grid[row, c] == grid[row, c]
        {
          copy.grid[row, col] := grid[row, col];
        }
      }
      copy.played := played;
      copy.lastMove := lastMove;
      copy.moveCount := moveCount;
      copy.cells := cells;
    }
  }
}
