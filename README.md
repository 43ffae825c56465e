# Connect Four engine (`game_base`) in Dafny

This project models the `game_base` module of a Connect Four game written in Rust.
The board has 6 rows and 7 columns, and row 0 is the top row. Two players take turns
dropping tokens into the 1-based columns 1 to 7. A token falls to the lowest empty
cell of its column. After each drop the engine runs a local win check around the new
token. It counts the player's consecutive tokens along the vertical, `/`, `\` and `-`
axes. The game ends with a win, or with a tie once 42 turns have been taken.

Files and modules:

- `board.dfy`, module `Board`:
  - the constants `ROWS`, `COLS` and `WIN_LENGTH`;
  - `Player`;
  - the board as a value (`Grid`);
  - gravity;
  - the lowest empty cell of a column (`LowestEmpty`);
  - the drop of one token (`Put`);
  - the number of occupied cells (`Occupied`).
- `win.dfy`, module `Win`:
  - `Count` is the value `count_tokens` computes. It uses the engine's own index
    arithmetic: an index that would fall below zero becomes the sentinel 8.
  - `WinAt` is the combination of counts that `check_for_win` tests.
  - The lemmas relate both to lines of four cells on the board (`FourInARow`,
    `FourThrough`, `ConnectsFour`). They prove that the local check decides
    "a line of four passes through the new token", and that this check is enough.
- `game.dfy`, module `GameBase`:
  - the class `GameState`. It holds the board in a 2-D array, plus the player to
    move, the turn counter, the winner and the game-over flag;
  - the methods `NewBoard` (constructor), `PlaceToken`, `NextTurn`, `CheckForWin`
    and `CountTokens`, which mirror the Rust functions, with loops where the Rust
    code loops;
  - the value-level invariant `Consistent` and the lemmas showing that every
    placement preserves it.
- `scenarios.dfy`, module `Scenarios`: concrete boards for the engine's boundary
  cases, settled by the counts. The cases are three in a row against four in a row,
  the alternating bottom row, a stack of four and a diagonal staircase.

Two ghost fields support the proofs. `GameState.cells` is the board as a value and is
kept equal to the array. `GameState.firstPlayer` fixes whose turn each turn is. The
invariant `Valid()` ties the array to `cells` and requires `Consistent`:

- gravity holds;
- without a winner, the number of occupied cells equals the turn counter;
- the players alternate from the first one;
- a recorded winner has four in a row, and without a winner nobody has;
- without a winner, the game is over exactly when the board is full.

The `>` against `>=` boundary of `check_for_win` is proved correct, not merely
assumed. Both half-line counts of an axis include the placed cell, so their sum is
one more than the run through the cell. The sum exceeds 4 exactly when a line of four
passes through the cell on that axis (`Win.PairCountIff`). Because of gravity, the
cell above a newly dropped token never holds that player's token. So counting
downward only, with the `ROWS - row >= 4` guard, loses no vertical win
(`Win.VerticalCountIff`). The lemmas found no discrepancy in the source.

## Model

| member | source | states |
|---|---|---|
| Board.Other | src/game.rs:129-132 | The player who moves next is the other one of the two. |
| Board.EmptyGrid | src/game.rs:93 | The new board is 6 × 7 and every cell is empty. |
| Board.GravityEmpty | src/game.rs:93 | The empty board satisfies gravity. |
| Board.LowestEmpty | src/game.rs:105-106 | A result `Some(r)` means cell `r` is empty and every cell below it in the column is occupied. The result is `None` exactly when the whole column is occupied. This is the cell the bottom-up scan finds. |
| Board.LowestEmptyBelow | src/game.rs:105-106 | The same result for the scan restricted to the rows above `i`. |
| Board.EmptyAboveLowest | src/game.rs:105-106 | Under gravity, every cell above the lowest empty cell of a column is empty. |
| Board.Put | src/game.rs:107 | After the write, the chosen cell holds the player and every other cell is unchanged. |
| Board.GravityPut | src/game.rs:105-107 | Dropping a token into the lowest empty cell keeps gravity. |
| Board.RowOccupiedBounds | src/game.rs:115 | A row holds at most as many tokens as it has cells. It holds that many exactly when it is full, and none exactly when it is empty. |
| Board.OccupiedBounds | src/game.rs:115 | The board holds at most 42 tokens, and holds 42 exactly when every cell is taken. |
| Board.RowOccupiedFill | src/game.rs:107 | Filling an empty cell of a row adds one token to the row's count. |
| Board.OccupiedReplaceRow | src/game.rs:107 | Replacing a row changes the board's count by the difference of the two rows' counts. |
| Board.OccupiedPut | src/game.rs:107 | A drop into an empty cell adds exactly one occupied cell. |
| Board.OccupiedEmptyRows | src/game.rs:93 | Rows with no token hold no occupied cell. |
| Board.OccupiedEmpty | src/game.rs:93 | The new board has no occupied cell. |
| Win.Step | src/game.rs:176-185 | The step a multiplier stands for, as the `-1`, `1` and `_` match arms choose it: -1, 1, or no movement. Its use is stated in `Win.ExtendsIsHoldsAt`. |
| Win.Offset | src/game.rs:176-185 | The coordinate `k` steps away as the engine computes it: `checked_sub` with 8 on underflow, addition, or the unchanged coordinate. Its meaning is stated in `Win.ExtendsIsHoldsAt`. |
| Win.Extends | src/game.rs:186-188 | The test that lets the walk go on: the computed cell is on the board and holds the player. `Win.ExtendsIsHoldsAt` states it in board coordinates. |
| Win.ExtendsIsHoldsAt | src/game.rs:176-188 | The unsigned step with the sentinel 8 (`checked_sub(..).unwrap_or_else(\|\| 8)`) tests the same cell as the signed position `k` steps away. An index below zero becomes 8, which is off the board because 8 ≥ 6 and 8 ≥ 7. |
| Win.RunEnd | src/game.rs:174-196 | The walk stops at a distance between its start and the sentinel 8. |
| Win.RunEndStops | src/game.rs:174-196 | Every distance the walk passes extends the run, and the walk stops at the first distance that does not. |
| Win.Count | src/game.rs:174-196 | `count_tokens` returns a value between 1 and 8. |
| Win.CountIsRun | src/game.rs:174-196 | The count is 1 plus the number of consecutive cells at distances 1, 2, … that hold the player, in the engine's index arithmetic. The cell at distance `Count` does not extend the run. |
| Win.CountIsSignedRun | src/game.rs:174-196 | The same in board coordinates. The cells at signed distances 1 … `Count - 1` hold the player. The cell at distance `Count` is off the board, empty or the opponent's. |
| Win.RunReaches | src/game.rs:186-190 | When the first `n - 1` steps all extend the run, the count is at least `n`. |
| Win.CountStopsAt | src/game.rs:186-194 | When the first `n - 1` steps extend the run and step `n` does not, the count is exactly `n`. |
| Win.WinAt | src/game.rs:139-163 | The boolean combination `check_for_win` makes: the guarded downward count tested with `>= 4`, or one of the three half-count sums tested with `> 4`. Its meaning is stated in `Win.WinAtIffFourThrough` and `Win.PairCountIff`. |
| Win.CountBound | src/game.rs:176-187 | The count is at most the number of board cells on its half-line plus 1. |
| Win.ShiftStep | src/game.rs:145-161 | Stepping `j` from the cell `s` steps back along an axis is stepping `j - s` from the cell. |
| Win.ExtendsForward | src/game.rs:176-185 | The walk with multipliers equal to an axis direction tests the cells of that axis ahead. |
| Win.ExtendsBackward | src/game.rs:176-185 | The walk with the negated multipliers tests the cells of that axis behind. This covers the sentinel. |
| Win.PairCountIff | src/game.rs:145-161 | For the `/`, `\` and `-` axes, the two half-line counts sum to more than 4 if and only if a line of four cells holding the player passes through the placed cell on that axis. |
| Win.InRunHolds | src/game.rs:145-161 | Every cell strictly inside the two half-line runs holds the player. |
| Win.PairCountFindsFour | src/game.rs:145-161 | A sum above 4 yields a line of four through the cell. |
| Win.FourMakesPairCount | src/game.rs:145-161 | A line of four through the cell, with the cell in position `s`, makes the forward count exceed `3 - s` and the backward count exceed `s`. |
| Win.VerticalCountIff | src/game.rs:138-143 | When the cell above does not hold the player, the guarded downward test `ROWS - row >= 4 && count >= 4` holds exactly when a vertical line of four passes through the cell. |
| Win.WinAtIffFourThrough | src/game.rs:136-164 | For a token whose upper neighbour is not the same player's, `check_for_win` is true if and only if some line of four of that player passes through it. |
| Win.FourThroughConnects | src/game.rs:136-164 | A line of four through the cell is a line of four on the board. |
| Win.FourAfterPut | src/game.rs:107-108 | A line of four after a drop was already there, or it belongs to the dropping player and passes through the dropped cell. |
| Win.LocalCheckSuffices | src/game.rs:107-108 | When no line of four existed and none passes through the dropped cell, none exists after the drop. So the local check misses no win. |
| Win.EmptyNoFour | src/game.rs:93 | The empty board has no line of four. |
| GameBase.ToMove | src/game.rs:128-134 | The first player moves exactly on even turn counts. |
| GameBase.ToMoveNext | src/game.rs:128-134 | Each turn hands the move to the other player. |
| GameBase.NewGameConsistent | src/game.rs:91-98 | A new game satisfies the invariant. |
| GameBase.DropFacts | src/game.rs:105-108 | A drop into the lowest empty cell keeps gravity and adds one occupied cell. Afterwards `check_for_win` at that cell holds exactly when a line of four passes through it. |
| GameBase.WinningDropConsistent | src/game.rs:108-112 | After a winning drop, recording the winner and ending the game gives a consistent state with the same turn and player. |
| GameBase.QuietDropConsistent | src/game.rs:114-119 | After a drop that wins nothing, the state is consistent once the turn is counted, the player toggled and the game ended exactly when the board is full. Nobody has four in a row. |
| GameBase.GameState.NewBoard | src/game.rs:91-98 | All 42 cells are empty, the turn counter is 0, there is no winner, the game is not over and the given player moves first. The invariant holds. |
| GameBase.GameState.CountTokens | src/game.rs:167-197 | The loop returns `Count`: the run length from the cell along the direction, with the sentinel arithmetic of the source. |
| GameBase.GameState.CheckForWin | src/game.rs:136-164 | The result is `WinAt`. For a just-dropped token it is true exactly when a line of four passes through the token. |
| GameBase.GameState.CheckAxes | src/game.rs:138-163 | The four axis tests with early returns compute `WinAt`. |
| GameBase.GameState.NextTurn | src/game.rs:128-135 | The player toggles, the turn counter grows by one and the new counter is returned. Nothing else changes. |
| GameBase.GameState.PlaceToken | src/game.rs:101-126 | A bad column gives `Err(InvalidColumn)` and a full column `Err(ColumnFull)`, with no change. Otherwise only the lowest empty cell of the column gets the token. A win (exactly a line of four through that cell) records the winner and returns `Ok(true)`. Otherwise the player toggles, the turn grows by one and the result reports whether 42 turns are reached. The invariant is kept. |
| GameBase.GameState.Write | src/game.rs:107 | The array cell and `cells` both receive the current player's token. |
| GameBase.GameState.Drop | src/game.rs:106-121 | The successful branch of `place_token`. It has the same outcomes as `PlaceToken` for the lowest empty cell of the column. |
| GameBase.GameState.RecordWin | src/game.rs:109-112 | The winner is the current player and the game is over. The invariant holds. |
| GameBase.GameState.PassTurn | src/game.rs:114-119 | The turn passes. The game is over exactly when the new turn count reaches 42, and the result reports that. The invariant holds. |
| Scenarios.BottomRow | src/game.rs:105-107 | Builds a well-shaped board by writing the player's token into the given bottom-row cells, one `Put` per column. It does not go through `LowestEmpty`, so a repeated column writes the same cell again. |
| Scenarios.ThreeInARowIsNoWin | src/game.rs:157-161 | For three in a row, the two horizontal counts sum to exactly 4, so the test `> 4` reports no win. |
| Scenarios.FourInARowWins | src/game.rs:157-161 | Four in a row, completed in the second column: the horizontal counts are 2 and 3, their sum exceeds 4, and the placement wins. |
| Scenarios.AlternatingRowIsNoWin | src/game.rs:136-164 | The last drop of the alternating bottom row One, Two, One, Two, One, Two, One fires none of the four checks. |
| Scenarios.AlternatingRowHasNoFour | src/game.rs:136-164 | After all seven drops of that row nobody has four in a row anywhere on the board, so none of the seven drops is a win. |
| Scenarios.StackOfFourWins | src/game.rs:138-143 | Four stacked tokens with the top one at row 2: the guard `ROWS - row >= 4` holds, the downward count is exactly 4, and the placement wins. |
| Scenarios.StaircaseWins | src/game.rs:145-149 | A diagonal staircase completed at its top: the down-left count is 4 and the up-right count 1, so the `/` sum exceeds 4 and the placement wins. |

In more detail, `PlaceToken` states four things:

- A column outside 1..7 returns `Err(InvalidColumn)`, and a full column returns
  `Err(ColumnFull)`. In both cases nothing changes.
- Otherwise exactly the lowest empty cell of the column receives the current
  player's token, and the win check at that cell computes `WinAt`. `WinAt` holds
  exactly when a line of four passes through the cell.
- A win records the winner, ends the game and returns `Ok(true)`. The turn and the
  player stay the same.
- Otherwise the player toggles and the turn counter grows by one. The result is
  `Ok(true)` with the game over exactly when the counter reaches 42, and `Ok(false)`
  otherwise. The invariant is kept.

## Left out

- The `console` module (src/game.rs:201-232) is left out because it is terminal I/O:
  clearing the screen and reading and parsing stdin.
- `src/main.rs` is left out. It is the interactive loop that connects stdin to
  `place_token`.
- `impl fmt::Display for GameState` and `impl fmt::Debug for Player` are left out. They
  are presentation only: the ASCII board, the banners and the X/O tokens.
- The error message strings are modelled as the two cases `InvalidColumn` and
  `ColumnFull`.
- GameBase.GameState.PlaceToken requires `!gameOver`. The Rust method has no such
  guard; its caller stops calling after `Ok(true)`. The model does not state what a
  call after the end of the game does.
- Writes to the public field `current_player` from outside the methods are not
  modelled. `Valid()` requires the player to move to follow from the turn counter
  and the first player, so the model does not say what `place_token` does after such
  a write. `src/main.rs` never writes the field.
- GameBase.GameState.CountTokens requires an anchor cell on the board and a direction
  with at least one multiplier equal to -1 or 1. With both multipliers outside
  {-1, 1}, the Rust loop re-tests the anchor cell at every step. It never ends when
  that cell holds the current player, and otherwise returns 1 at once. The model does
  not cover this case or an off-board anchor. `check_for_win` passes its own cell
  with unit directions. `place_token` calls it only with the cell it has just
  written.
- GameBase.GameState.CheckForWin requires a cell on the board. For a row above 6 the
  Rust subtraction `ROWS - row` panics in a debug build and wraps in a release build.
  The model does not say what the check returns for any off-board cell, row 6
  included. `place_token` only calls it with the cell it has just written.
- `usize` and `isize` are modelled as unbounded `nat` and `int`. `checked_add` never
  overflows for these values, since row or column plus count is at most 14. The turn
  counter is bounded by 42, which the invariant states.
- The board is a Dafny `array2` instead of a `Vec` of row `Vec`s. The bounds tests
  `board.get(..).is_some()` become comparisons with the array's lengths.
- The scan of `place_token` (`iter_mut().enumerate().rev()`) is a `while` loop from the
  bottom row upward. The work after the write lives in the helper methods `Drop`,
  `Write`, `RecordWin` and `PassTurn`. This keeps each proof small.
- The fixed dimensions 6 × 7, the win length 4 and the two players are modelled as the
  code has them. The code has no configurable board size, player count or win length,
  and no error for a call after the game has ended.
