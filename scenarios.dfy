/** Concrete boards for the engine's boundary cases, decided with the
    counts `check_for_win` combines. Row 5 is the bottom row. */
module Scenarios {
  import opened Board
  import opened Win

  /** Player `p`'s token written into the given columns of the bottom row of an
      empty board, one `Put` per column. */
  function BottomRow(cols: seq<nat>, p: Player): (g: Grid)
    requires forall i :: 0 <= i < |cols| ==> cols[i] < COLS
    ensures WellShaped(g)
  {
    if cols == [] then EmptyGrid()
    else Put(BottomRow(cols[..|cols| - 1], p), ROWS - 1, cols[|cols| - 1], p)
  }

  /** Three tokens in a row on the bottom, the middle one just placed: the two
      horizontal counts are 2 and 2, so their sum equals the win length, and
      `check_for_win` with its `>` correctly reports no win. */
  lemma ThreeInARowIsNoWin()
    ensures var g := BottomRow([0, 1, 2], One);
      Count(g, One, 5, 1, 0, -1) + Count(g, One, 5, 1, 0, 1) == WIN_LENGTH
      && !WinAt(g, One, 5, 1)
  {
    var g := BottomRow([0, 1, 2], One);
    assert [0, 1, 2][..2] == [0, 1] && [0, 1][..1] == [0] && [0][..0] == [];
    assert g == Put(Put(Put(EmptyGrid(), 5, 0, One), 5, 1, One), 5, 2, One);
    CountStopsAt(g, One, 5, 1, 1, -1, 1);
    CountStopsAt(g, One, 5, 1, -1, 1, 1);
    CountStopsAt(g, One, 5, 1, 1, 1, 1);
    CountStopsAt(g, One, 5, 1, -1, -1, 1);
    CountStopsAt(g, One, 5, 1, 0, -1, 2);
    CountStopsAt(g, One, 5, 1, 0, 1, 2);
  }

  /** Four tokens in a row on the bottom, the second one just placed: the counts 2
      and 3 sum to 5, above the win length, so the placement wins. */
  lemma FourInARowWins()
    ensures var g := BottomRow([0, 1, 2, 3], One);
      Count(g, One, 5, 1, 0, -1) == 2 && Count(g, One, 5, 1, 0, 1) == 3
      && WinAt(g, One, 5, 1)
  {
    var g := BottomRow([0, 1, 2, 3], One);
    assert [0, 1, 2, 3][..3] == [0, 1, 2] && [0, 1, 2][..2] == [0, 1] && [0, 1][..1] == [0] && [0][..0] == [];
    assert g == Put(Put(Put(Put(EmptyGrid(), 5, 0, One), 5, 1, One), 5, 2, One), 5, 3, One);
    CountStopsAt(g, One, 5, 1, 0, -1, 2);
    CountStopsAt(g, One, 5, 1, 0, 1, 3);
  }

  /** The alternating bottom row One, Two, One, Two, One, Two, One, the last token
      just placed in the rightmost column: One holds columns 0, 2, 4 and 6 but no
      four adjacent cells, and no check fires. */
  lemma AlternatingRowIsNoWin()
    ensures var g := Put(Put(Put(Put(Put(Put(Put(EmptyGrid(),
                 5, 0, One), 5, 1, Two), 5, 2, One), 5, 3, Two), 5, 4, One), 5, 5, Two), 5, 6, One);
      !WinAt(g, One, 5, 6)
  {
    var g := Put(Put(Put(Put(Put(Put(Put(EmptyGrid(),
               5, 0, One), 5, 1, Two), 5, 2, One), 5, 3, Two), 5, 4, One), 5, 5, Two), 5, 6, One);
    CountStopsAt(g, One, 5, 6, 1, -1, 1);
    CountStopsAt(g, One, 5, 6, -1, 1, 1);
    CountStopsAt(g, One, 5, 6, 1, 1, 1);
    CountStopsAt(g, One, 5, 6, -1, -1, 1);
    CountStopsAt(g, One, 5, 6, 0, -1, 1);
    CountStopsAt(g, One, 5, 6, 0, 1, 1);
  }

  /** After all seven drops of the alternating bottom row nobody has four in a row
      anywhere, so none of the seven drops wins: vertically and diagonally a line
      leaves the bottom row, and horizontally neighbouring cells belong to
      different players. */
  lemma AlternatingRowHasNoFour()
    ensures var g := Put(Put(Put(Put(Put(Put(Put(EmptyGrid(),
                 5, 0, One), 5, 1, Two), 5, 2, One), 5, 3, Two), 5, 4, One), 5, 5, Two), 5, 6, One);
      !ConnectsFour(g, One) && !ConnectsFour(g, Two)
  {
    var g := Put(Put(Put(Put(Put(Put(Put(EmptyGrid(),
               5, 0, One), 5, 1, Two), 5, 2, One), 5, 3, Two), 5, 4, One), 5, 5, Two), 5, 6, One);
    forall r, c | 0 <= r < ROWS && 0 <= c < COLS
      ensures g[r][c] == (if r == ROWS - 1 then Some(if c % 2 == 0 then One else Two) else None)
    {
    }
    forall q, r: int, c: int, a
      ensures !FourInARow(g, q, r, c, a)
    {
      assert !(StepHolds(g, q, r, c, a, 0) && StepHolds(g, q, r, c, a, 1)) by {
        match a
        case Vertical =>
        case Slash =>
        case Backslash =>
        case Horizontal =>
      }
    }
  }

  /** Four of One's tokens stacked in column 2, the top one just placed: the
      guard `ROWS - row >= 4` holds and the downward count is exactly the win
      length, so the vertical check fires. */
  lemma StackOfFourWins()
    ensures var g := Put(Put(Put(Put(EmptyGrid(), 5, 2, One), 4, 2, One), 3, 2, One), 2, 2, One);
      ROWS - 2 >= WIN_LENGTH && Count(g, One, 2, 2, 1, 0) == WIN_LENGTH
      && WinAt(g, One, 2, 2)
  {
    var g := Put(Put(Put(Put(EmptyGrid(), 5, 2, One), 4, 2, One), 3, 2, One), 2, 2, One);
    CountStopsAt(g, One, 2, 2, 1, 0, WIN_LENGTH);
  }

  /** A staircase of One's tokens at (5, 0), (4, 1), (3, 2) and (2, 3), resting on
      Two's tokens, completed at (2, 3): the down-left count is 4 and the up-right
      count 1, so the `/` check fires. */
  lemma StaircaseWins()
    ensures var g := Put(Put(Put(Put(Put(Put(Put(Put(Put(Put(EmptyGrid(),
                 5, 0, One), 5, 1, Two), 4, 1, One), 5, 2, Two), 4, 2, Two), 3, 2, One),
                 5, 3, Two), 4, 3, Two), 3, 3, Two), 2, 3, One);
      Count(g, One, 2, 3, 1, -1) == 4 && Count(g, One, 2, 3, -1, 1) == 1
      && Count(g, One, 2, 3, 1, -1) + Count(g, One, 2, 3, -1, 1) > WIN_LENGTH
      && WinAt(g, One, 2, 3)
  {
    var g := Put(Put(Put(Put(Put(Put(Put(Put(Put(Put(EmptyGrid(),
               5, 0, One), 5, 1, Two), 4, 1, One), 5, 2, Two), 4, 2, Two), 3, 2, One),
               5, 3, Two), 4, 3, Two), 3, 3, Two), 2, 3, One);
    CountStopsAt(g, One, 2, 3, 1, -1, 4);
    CountStopsAt(g, One, 2, 3, -1, 1, 1);
  }
}
