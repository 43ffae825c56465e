/** The Connect Four game state: a 6 x 7 board held in a 2-D array (row 0 at the
    top), the player to move, the number of turns taken, the winner and the
    game-over flag. Tokens are dropped with `PlaceToken`; a win is detected locally
    around the token just placed. */
module GameBase {
  import opened Board
  import opened Win

  /** The two ways a placement is refused. */
  datatype PlaceError = InvalidColumn | ColumnFull

  datatype Result<T, E> = Ok(value: T) | Err(error: E)

  /** The player to move after `turn` turns of a game `first` opened. */
  function ToMove(first: Player, turn: nat): (p: Player)
    ensures p == first <==> turn % 2 == 0
  {
    if turn % 2 == 0 then first else Other(first)
  }

  /** Each turn hands the move to the other player. */
  lemma ToMoveNext(first: Player, turn: nat)
    ensures ToMove(first, turn + 1) == Other(ToMove(first, turn))
  {
    match first
    case One =>
    case Two =>
  }

  /** The invariant of a game state, on values: tokens rest on each other; until a
      win, every turn has put exactly one token on the board and nobody has four in a
      row; the players alternate from the first one; a win belongs to the player who
      made it and ends the game; without a winner the game ends exactly when all 42
      cells are taken. */
  ghost predicate Consistent(g: Grid, turn: nat, player: Player, first: Player,
                             winner: Option<Player>, over: bool)
    requires WellShaped(g)
  {
    Gravity(g)
    && turn <= ROWS * COLS
    && Occupied(g) == turn + (if winner.Some? then 1 else 0)
    && player == ToMove(first, turn)
    && (winner.Some? ==> over && winner == Some(player) && ConnectsFour(g, player))
    && (winner.None? ==> !ConnectsFour(g, One) && !ConnectsFour(g, Two)
                         && (over <==> turn == ROWS * COLS))
  }

  /** A fresh game is consistent. */
  lemma NewGameConsistent(first: Player)
    ensures Consistent(EmptyGrid(), 0, first, first, None, false)
  {
    GravityEmpty();
    OccupiedEmpty();
    EmptyNoFour(One);
    EmptyNoFour(Two);
  }

  /** Facts about a token `p` dropped onto the lowest empty cell of column `c`: the
      cell above it is empty, so the local win check decides four in a row. */
  lemma DropFacts(g: Grid, row: nat, c: nat, turn: nat, p: Player, first: Player)
    requires WellShaped(g) && c < COLS && Consistent(g, turn, p, first, None, false)
    requires LowestEmpty(g, c) == Some(row)
    ensures Gravity(Put(g, row, c, p))
    ensures Occupied(Put(g, row, c, p)) == turn + 1
    ensures WinAt(Put(g, row, c, p), p, row, c) <==> FourThrough(Put(g, row, c, p), p, row, c)
  {
    var h := Put(g, row, c, p);
    if row > 0 {
      EmptyAboveLowest(g, c, row - 1);
    }
    GravityPut(g, c, p);
    OccupiedPut(g, row, c, p);
    WinAtIffFourThrough(h, p, row, c);
  }

  /** A drop that `WinAt` accepts makes a consistent state once `p` is recorded as
      the winner and the game is over; the turn and the player stay. */
  lemma WinningDropConsistent(g: Grid, row: nat, c: nat, turn: nat, p: Player, first: Player)
    requires WellShaped(g) && c < COLS && Consistent(g, turn, p, first, None, false)
    requires LowestEmpty(g, c) == Some(row) && WinAt(Put(g, row, c, p), p, row, c)
    ensures Consistent(Put(g, row, c, p), turn, p, first, Some(p), true)
  {
    DropFacts(g, row, c, turn, p, first);
    FourThroughConnects(Put(g, row, c, p), p, row, c);
  }

  /** A drop that `WinAt` rejects leaves nobody with four in a row; one more turn
      is counted, the other player moves and the game is over exactly when the
      board has filled up. */
  lemma QuietDropConsistent(g: Grid, row: nat, c: nat, turn: nat, p: Player, first: Player)
    requires WellShaped(g) && c < COLS && Consistent(g, turn, p, first, None, false)
    requires LowestEmpty(g, c) == Some(row) && !WinAt(Put(g, row, c, p), p, row, c)
    ensures turn + 1 <= ROWS * COLS
    ensures Consistent(Put(g, row, c, p), turn + 1, Other(p), first, None, turn + 1 >= ROWS * COLS)
  {
    DropFacts(g, row, c, turn, p, first);
    LocalCheckSuffices(g, row, c, p);
    ToMoveNext(first, turn);
  }

  class GameState {
    var board: array2<Option<Player>>
    var currentPlayer: Player
    var currentTurn: nat
    var winner: Option<Player>
    var gameOver: bool
    /** The player the game was created with; fixes whose turn each turn is. */
    ghost var firstPlayer: Player

    /** The board as a value; kept equal to the array by every method. */
    ghost var cells: Grid

    ghost predicate WellFormed()
      reads this`board, this`cells, board
    {
      board.Length0 == ROWS && board.Length1 == COLS && WellShaped(cells)
      && forall r, c :: 0 <= r < ROWS && 0 <= c < COLS ==> cells[r][c] == board[r, c]
    }

    /** The state invariant: the array and `cells` agree, and the game state is
        `Consistent`. */
    ghost predicate Valid()
      reads this, board
    {
      WellFormed() && Consistent(cells, currentTurn, currentPlayer, firstPlayer, winner, gameOver)
    }

    /** `new_board`: an empty board with `firstPlayer` to move. */
    constructor NewBoard(firstPlayer: Player)
      ensures Valid() && fresh(board)
      ensures cells == EmptyGrid()
      ensures currentPlayer == firstPlayer && currentTurn == 0
      ensures winner == None && !gameOver
      ensures this.firstPlayer == firstPlayer
    {
      board := new Option<Player>[ROWS, COLS]((r, c) => None);
      currentPlayer := firstPlayer;
      currentTurn := 0;
      winner := None;
      gameOver := false;
      this.firstPlayer := firstPlayer;
      cells := EmptyGrid();
      new;
      NewGameConsistent(firstPlayer);
    }

    /** `count_tokens`: walks from (row, col) along the direction given by the two
        multipliers and counts the current player's consecutive tokens, the start
        cell included. */
    method CountTokens(row: nat, col: nat, rowMult: int, colMult: int) returns (count: nat)
      requires WellFormed() && row < ROWS && col < COLS && Moves(rowMult, colMult)
      ensures count == Count(cells, currentPlayer, row, col, rowMult, colMult)
    {
      count := 1;
      while true
        invariant 1 <= count <= SENTINEL
        invariant RunEnd(cells, currentPlayer, row, col, rowMult, colMult, count)
                  == Count(cells, currentPlayer, row, col, rowMult, colMult)
        decreases SENTINEL - count
      {
        var newRow := if rowMult == -1 then (if row >= count then row - count else SENTINEL)
                      else if rowMult == 1 then row + count
                      else row;
        var newCol := if colMult == -1 then (if col >= count then col - count else SENTINEL)
                      else if colMult == 1 then col + count
                      else col;
        if newRow < board.Length0 && newCol < board.Length1 && board[newRow, newCol] == Some(currentPlayer) {
          count := count + 1;
        } else {
          break;
        }
      }
    }

    /** `check_for_win`: whether the current player's token at (row, col) completes a
        line of four. */
    method CheckForWin(row: nat, col: nat) returns (won: bool)
      requires WellFormed() && row < ROWS && col < COLS
      ensures won == WinAt(cells, currentPlayer, row, col)
      ensures HoldsAt(cells, currentPlayer, row, col) && (row == 0 || cells[row - 1][col] != Some(currentPlayer))
              ==> (won <==> FourThrough(cells, currentPlayer, row, col))
    {
      ghost var g := cells;
      ghost var p := currentPlayer;
      if HoldsAt(g, p, row, col) && (row == 0 || g[row - 1][col] != Some(p)) {
        WinAtIffFourThrough(g, p, row, col);
      }
      won := CheckAxes(row, col);
    }

    method CheckAxes(row: nat, col: nat) returns (won: bool)
      requires WellFormed() && row < ROWS && col < COLS
      ensures won == WinAt(cells, currentPlayer, row, col)
    {
      // Check |
      if ROWS - row >= WIN_LENGTH {
        var down := CountTokens(row, col, 1, 0);
        if down >= WIN_LENGTH {
          return true;
        }
      }
      // Check /
      var downLeft := CountTokens(row, col, 1, -1);
      var upRight := CountTokens(row, col, -1, 1);
      if downLeft + upRight > WIN_LENGTH {
        return true;
      }
      // Check \
      var downRight := CountTokens(row, col, 1, 1);
      var upLeft := CountTokens(row, col, -1, -1);
      if downRight + upLeft > WIN_LENGTH {
        return true;
      }
      // Check -
      var left := CountTokens(row, col, 0, -1);
      var right := CountTokens(row, col, 0, 1);
      if left + right > WIN_LENGTH {
        return true;
      }
      return false;
    }

    /** `next_turn`: hands the move to the other player and counts one more turn. */
    method NextTurn() returns (turn: nat)
      modifies this`currentPlayer, this`currentTurn
      ensures currentPlayer == Other(old(currentPlayer))
      ensures currentTurn == old(currentTurn) + 1 && turn == currentTurn
    {
      match currentPlayer {
        case One => currentPlayer := Two;
        case Two => currentPlayer := One;
      }
      currentTurn := currentTurn + 1;
      turn := currentTurn;
    }

    /** `place_token`: drops the current player's token into the 1-based column `col`.
        `Ok(true)` means the game has ended (a win or a full board), `Ok(false)` that
        it goes on; an error leaves the whole state as it was. */
    method PlaceToken(col: nat) returns (result: Result<bool, PlaceError>)
      requires Valid() && !gameOver
      modifies this, board
      ensures Valid() && board == old(board) && firstPlayer == old(firstPlayer)
      ensures !(1 <= col <= COLS) ==> result == Err(InvalidColumn) && unchanged(this) && unchanged(board)
      ensures 1 <= col <= COLS && LowestEmpty(old(cells), col - 1).None?
              ==> result == Err(ColumnFull) && unchanged(this) && unchanged(board)
      ensures 1 <= col <= COLS && LowestEmpty(old(cells), col - 1).Some? ==>
                var row := LowestEmpty(old(cells), col - 1).value;
                var p := old(currentPlayer);
                cells == Put(old(cells), row, col - 1, p)
                && (WinAt(cells, p, row, col - 1) <==> FourThrough(cells, p, row, col - 1))
                && (WinAt(cells, p, row, col - 1) ==>
                      result == Ok(true) && winner == Some(p) && gameOver
                      && currentPlayer == p && currentTurn == old(currentTurn))
                && (!WinAt(cells, p, row, col - 1) ==>
                      winner == None && currentPlayer == Other(p) && currentTurn == old(currentTurn) + 1
                      && gameOver == (currentTurn >= ROWS * COLS) && result == Ok(gameOver))
    {
      if col < 1 || col > COLS {
        return Err(InvalidColumn);
      }
      var c := col - 1;
      var i := ROWS;
      while i > 0
        invariant 0 <= i <= ROWS
        invariant unchanged(this) && unchanged(board)
        invariant forall k :: i <= k < ROWS ==> board[k, c].Some?
      {
        i := i - 1;
        if board[i, c].None? {
          assert LowestEmpty(cells, c) == Some(i);
          result := Drop(i, c);
          return;
        }
      }
      return Err(ColumnFull);
    }

    /** Stores the current player's token in cell (row, c) of the array and of
        `cells`. */
    method Write(row: nat, c: nat)
      requires WellFormed() && row < ROWS && c < COLS
      modifies this`cells, board
      ensures WellFormed() && cells == Put(old(cells), row, c, currentPlayer)
    {
      board[row, c] := Some(currentPlayer);
      cells := Put(cells, row, c, currentPlayer);
    }

    /** The successful end of `place_token`: the current player's token goes into
        cell (row, c), the lowest empty one of its column; a win is recorded, and
        otherwise the turn passes and the game ends if the board is full. */
    method Drop(row: nat, c: nat) returns (result: Result<bool, PlaceError>)
      requires Valid() && !gameOver && c < COLS && LowestEmpty(cells, c) == Some(row)
      modifies this, board
      ensures Valid() && board == old(board) && firstPlayer == old(firstPlayer)
      ensures cells == Put(old(cells), row, c, old(currentPlayer))
      ensures WinAt(cells, old(currentPlayer), row, c) <==> FourThrough(cells, old(currentPlayer), row, c)
      ensures WinAt(cells, old(currentPlayer), row, c) ==>
                result == Ok(true) && winner == Some(old(currentPlayer)) && gameOver
                && currentPlayer == old(currentPlayer) && currentTurn == old(currentTurn)
      ensures !WinAt(cells, old(currentPlayer), row, c) ==>
                winner == None && currentPlayer == Other(old(currentPlayer))
                && currentTurn == old(currentTurn) + 1
                && gameOver == (currentTurn >= ROWS * COLS) && result == Ok(gameOver)
    {
      ghost var before := cells;
      DropFacts(before, row, c, currentTurn, currentPlayer, firstPlayer);
      Write(row, c);
      var won := CheckForWin(row, c);
      if won {
        RecordWin(before, row, c);
        return Ok(true);
      }
      var over := PassTurn(before, row, c);
      return Ok(over);
    }

    /** A winning drop: the current player becomes the winner and the game ends. */
    method RecordWin(ghost before: Grid, row: nat, c: nat)
      requires WellFormed() && WellShaped(before) && c < COLS
      requires Consistent(before, currentTurn, currentPlayer, firstPlayer, None, false)
      requires LowestEmpty(before, c) == Some(row) && cells == Put(before, row, c, currentPlayer)
      requires WinAt(cells, currentPlayer, row, c)
      modifies this`winner, this`gameOver
      ensures Valid() && winner == Some(currentPlayer) && gameOver
    {
      WinningDropConsistent(before, row, c, currentTurn, currentPlayer, firstPlayer);
      winner := Some(currentPlayer);
      gameOver := true;
    }

    /** A drop that wins nothing: the turn passes, and the game ends when it was the
        last cell. */
    method PassTurn(ghost before: Grid, row: nat, c: nat) returns (over: bool)
      requires WellFormed() && WellShaped(before) && c < COLS
      requires Consistent(before, currentTurn, currentPlayer, firstPlayer, None, false)
      requires LowestEmpty(before, c) == Some(row) && cells == Put(before, row, c, currentPlayer)
      requires !WinAt(cells, currentPlayer, row, c) && winner == None && !gameOver
      modifies this`currentPlayer, this`currentTurn, this`gameOver
      ensures Valid() && currentPlayer == Other(old(currentPlayer))
      ensures currentTurn == old(currentTurn) + 1
      ensures gameOver == (currentTurn >= ROWS * COLS) && over == gameOver
    {
      QuietDropConsistent(before, row, c, currentTurn, currentPlayer, firstPlayer);
      var turn := NextTurn();
      if turn >= COLS * ROWS {
        gameOver := true;
      }
      over := gameOver;
    }
  }
}
