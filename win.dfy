/** Win detection of the Connect Four engine. `Count` is the value `count_tokens`
    computes: how far a run of one player's tokens reaches from a cell in one
    direction, with the engine's own index arithmetic (an underflowing index becomes
    the sentinel 8). `WinAt` is the combination `check_for_win` makes of those counts.
    Both are related to the geometry of the board: a line of four cells in a row. */
module Win {
  import opened Board

  /** The index that replaces a coordinate that would fall below zero. */
  const SENTINEL: nat := 8

  /** The step a direction multiplier stands for: -1 and 1 move, anything else stays. */
  function Step(mult: int): int {
    if mult == -1 then -1 else if mult == 1 then 1 else 0
  }

  /** At least one coordinate moves, so the walk leaves the board eventually. */
  predicate Moves(rowMult: int, colMult: int) {
    Step(rowMult) != 0 || Step(colMult) != 0
  }

  /** The coordinate `k` steps from `base`, as the engine computes it. */
  function Offset(base: nat, mult: int, k: nat): nat {
    if mult == -1 then (if base >= k then base - k else SENTINEL)
    else if mult == 1 then base + k
    else base
  }

  /** The cell `k` steps from (row, col) along the direction lies on the board and
      holds `p`: the test that lets the walk go on. */
  predicate Extends(g: Grid, p: Player, row: nat, col: nat, rowMult: int, colMult: int, k: nat)
    requires WellShaped(g)
  {
    var r := Offset(row, rowMult, k);
    var c := Offset(col, colMult, k);
    r < ROWS && c < COLS && g[r][c] == Some(p)
  }

  /** The signed coordinate `k` steps from `base` in the direction of `mult`. */
  function Along(base: nat, mult: int, k: int): int {
    base + k * Step(mult)
  }

  /** The sentinel never names a cell: the engine's unsigned index arithmetic agrees
      with the signed position `k` steps away, which may lie off the board. */
  lemma ExtendsIsHoldsAt(g: Grid, p: Player, row: nat, col: nat, rowMult: int, colMult: int, k: nat)
    requires WellShaped(g)
    ensures Extends(g, p, row, col, rowMult, colMult, k)
            == HoldsAt(g, p, Along(row, rowMult, k), Along(col, colMult, k))
  {
  }

  /** The first distance, from `k` on, at which the walk stops. */
  function RunEnd(g: Grid, p: Player, row: nat, col: nat, rowMult: int, colMult: int, k: nat): (e: nat)
    requires WellShaped(g) && row < ROWS && col < COLS && Moves(rowMult, colMult)
    requires k <= SENTINEL
    ensures k <= e <= SENTINEL
    decreases SENTINEL - k
  {
    if Extends(g, p, row, col, rowMult, colMult, k) then
      assert k < SENTINEL;
      RunEnd(g, p, row, col, rowMult, colMult, k + 1)
    else
      k
  }

  /** The walk from `k` passes every distance before its end and stops at the end. */
  lemma {:induction false} RunEndStops(g: Grid, p: Player, row: nat, col: nat, rowMult: int, colMult: int, k: nat)
    requires WellShaped(g) && row < ROWS && col < COLS && Moves(rowMult, colMult)
    requires k <= SENTINEL
    ensures var e := RunEnd(g, p, row, col, rowMult, colMult, k);
      (forall i :: k <= i < e ==> Extends(g, p, row, col, rowMult, colMult, i))
      && !Extends(g, p, row, col, rowMult, colMult, e)
    decreases SENTINEL - k
  {
    if Extends(g, p, row, col, rowMult, colMult, k) {
      assert k < SENTINEL;
      RunEndStops(g, p, row, col, rowMult, colMult, k + 1);
    }
  }

  /** What `count_tokens` returns. */
  function Count(g: Grid, p: Player, row: nat, col: nat, rowMult: int, colMult: int): (n: nat)
    requires WellShaped(g) && row < ROWS && col < COLS && Moves(rowMult, colMult)
    ensures 1 <= n <= SENTINEL
  {
    RunEnd(g, p, row, col, rowMult, colMult, 1)
  }

  /** `count_tokens` returns 1 plus the number of consecutive cells at distances 1, 2,
      ... that hold `p`: the walk stops at the first empty cell, opponent's cell or
      position off the board. */
  lemma CountIsRun(g: Grid, p: Player, row: nat, col: nat, rowMult: int, colMult: int)
    requires WellShaped(g) && row < ROWS && col < COLS && Moves(rowMult, colMult)
    ensures forall i :: 1 <= i < Count(g, p, row, col, rowMult, colMult) ==> Extends(g, p, row, col, rowMult, colMult, i)
    ensures !Extends(g, p, row, col, rowMult, colMult, Count(g, p, row, col, rowMult, colMult))
  {
    RunEndStops(g, p, row, col, rowMult, colMult, 1);
  }

  /** `count_tokens` in board terms: the cells at signed distances 1, ...,
      `Count - 1` along the direction hold `p`, and the cell at distance `Count` is
      off the board, empty or the opponent's. */
  lemma CountIsSignedRun(g: Grid, p: Player, row: nat, col: nat, rowMult: int, colMult: int)
    requires WellShaped(g) && row < ROWS && col < COLS && Moves(rowMult, colMult)
    ensures var n := Count(g, p, row, col, rowMult, colMult);
      (forall i :: 1 <= i < n ==> HoldsAt(g, p, Along(row, rowMult, i), Along(col, colMult, i)))
      && !HoldsAt(g, p, Along(row, rowMult, n), Along(col, colMult, n))
  {
    var n := Count(g, p, row, col, rowMult, colMult);
    CountIsRun(g, p, row, col, rowMult, colMult);
    forall i | 1 <= i < n
      ensures HoldsAt(g, p, Along(row, rowMult, i), Along(col, colMult, i))
    {
      ExtendsIsHoldsAt(g, p, row, col, rowMult, colMult, i);
    }
    ExtendsIsHoldsAt(g, p, row, col, rowMult, colMult, n);
  }

  /** A walk whose first `n - 1` steps all extend the run counts at least `n`. */
  lemma RunReaches(g: Grid, p: Player, row: nat, col: nat, rowMult: int, colMult: int, n: nat)
    requires WellShaped(g) && row < ROWS && col < COLS && Moves(rowMult, colMult)
    requires forall k :: 1 <= k < n ==> Extends(g, p, row, col, rowMult, colMult, k)
    ensures Count(g, p, row, col, rowMult, colMult) >= n
  {
    CountIsRun(g, p, row, col, rowMult, colMult);
  }

  /** A walk whose first `n - 1` steps extend the run and whose `n`-th does not
      counts exactly `n`. */
  lemma CountStopsAt(g: Grid, p: Player, row: nat, col: nat, rowMult: int, colMult: int, n: nat)
    requires WellShaped(g) && row < ROWS && col < COLS && Moves(rowMult, colMult) && 1 <= n
    requires forall k :: 1 <= k < n ==> Extends(g, p, row, col, rowMult, colMult, k)
    requires !Extends(g, p, row, col, rowMult, colMult, n)
    ensures Count(g, p, row, col, rowMult, colMult) == n
  {
    CountIsRun(g, p, row, col, rowMult, colMult);
    RunReaches(g, p, row, col, rowMult, colMult, n);
  }

  /** A count never exceeds the number of board cells on its half-line plus one. */
  lemma CountBound(g: Grid, p: Player, row: nat, col: nat, rowMult: int, colMult: int)
    requires WellShaped(g) && row < ROWS && col < COLS && Moves(rowMult, colMult)
    ensures Step(rowMult) == 1 ==> Count(g, p, row, col, rowMult, colMult) <= ROWS - row
    ensures Step(rowMult) == -1 ==> Count(g, p, row, col, rowMult, colMult) <= row + 1
    ensures Step(colMult) == 1 ==> Count(g, p, row, col, rowMult, colMult) <= COLS - col
    ensures Step(colMult) == -1 ==> Count(g, p, row, col, rowMult, colMult) <= col + 1
  {
    var n := Count(g, p, row, col, rowMult, colMult);
    CountIsRun(g, p, row, col, rowMult, colMult);
    if n > 1 {
      assert Extends(g, p, row, col, rowMult, colMult, n - 1);
    }
  }

  /** `check_for_win`: the downward count tested with `>=`, and for the three other
      axes the sum of two half-line counts, each counting the placed cell, tested
      with `>`. */
  predicate WinAt(g: Grid, p: Player, row: nat, col: nat)
    requires WellShaped(g) && row < ROWS && col < COLS
  {
    (ROWS - row >= WIN_LENGTH && Count(g, p, row, col, 1, 0) >= WIN_LENGTH)
    || Count(g, p, row, col, 1, -1) + Count(g, p, row, col, -1, 1) > WIN_LENGTH
    || Count(g, p, row, col, 1, 1) + Count(g, p, row, col, -1, -1) > WIN_LENGTH
    || Count(g, p, row, col, 0, -1) + Count(g, p, row, col, 0, 1) > WIN_LENGTH
  }

  // ---------------------------------------------------------------------------
  // Lines of four on the board

  /** The four axes, each named by the direction of the first half-line that
      `check_for_win` counts along it: `|` down, `/` down-left, `\` down-right,
      `-` left. */
  datatype Axis = Vertical | Slash | Backslash | Horizontal

  function DRow(a: Axis): int {
    match a
    case Vertical => 1
    case Slash => 1
    case Backslash => 1
    case Horizontal => 0
  }

  function DCol(a: Axis): int {
    match a
    case Vertical => 0
    case Slash => -1
    case Backslash => 1
    case Horizontal => -1
  }

  /** Row and column of the cell `t` steps (possibly negative) from (r, c) along `a`.
      `Along` is the same signed step written with the engine's multipliers, which
      may be any integer. These two are written with the axis, so the statements
      about lines of four do not mention multipliers. `ExtendsIsHoldsAt` ties the
      engine's walk to `Along`, and `ExtendsForward` and `ExtendsBackward` tie it
      to these. */
  function StepRow(r: int, a: Axis, t: int): int { r + t * DRow(a) }
  function StepCol(c: int, a: Axis, t: int): int { c + t * DCol(a) }

  predicate StepHolds(g: Grid, p: Player, r: int, c: int, a: Axis, t: int)
    requires WellShaped(g)
  {
    HoldsAt(g, p, StepRow(r, a, t), StepCol(c, a, t))
  }

  /** Four cells in a row, starting at (r, c) and stepping along `a`, all hold `p`. */
  ghost predicate FourInARow(g: Grid, p: Player, r: int, c: int, a: Axis)
    requires WellShaped(g)
  {
    forall j :: 0 <= j < WIN_LENGTH ==> StepHolds(g, p, r, c, a, j)
  }

  /** The line of four along `a` whose `s`-th cell (counting from 0) is (r, c). */
  ghost predicate Window(g: Grid, p: Player, r: int, c: int, a: Axis, s: int)
    requires WellShaped(g)
  {
    FourInARow(g, p, StepRow(r, a, -s), StepCol(c, a, -s), a)
  }

  /** Some line of four cells holding `p` passes through (r, c) along `a`. */
  ghost predicate FourThroughOn(g: Grid, p: Player, r: int, c: int, a: Axis)
    requires WellShaped(g)
  {
    exists s :: 0 <= s < WIN_LENGTH && Window(g, p, r, c, a, s)
  }

  /** Some line of four cells holding `p` passes through (r, c). */
  ghost predicate FourThrough(g: Grid, p: Player, r: int, c: int)
    requires WellShaped(g)
  {
    exists a :: FourThroughOn(g, p, r, c, a)
  }

  /** `p` has four in a row somewhere on the board. */
  ghost predicate ConnectsFour(g: Grid, p: Player)
    requires WellShaped(g)
  {
    exists r: int, c: int, a :: FourInARow(g, p, r, c, a)
  }

  /** Stepping `j` from the cell `s` steps back is stepping `j - s` from the cell. */
  lemma ShiftStep(g: Grid, p: Player, r: int, c: int, a: Axis, s: int, j: int)
    requires WellShaped(g)
    ensures StepHolds(g, p, StepRow(r, a, -s), StepCol(c, a, -s), a, j) == StepHolds(g, p, r, c, a, j - s)
  {
    assert StepRow(StepRow(r, a, -s), a, j) == StepRow(r, a, j - s);
    assert StepCol(StepCol(c, a, -s), a, j) == StepCol(c, a, j - s);
  }

  /** The engine's forward walk along an axis tests the cells of that axis. */
  lemma ExtendsForward(g: Grid, p: Player, row: nat, col: nat, a: Axis, k: nat)
    requires WellShaped(g)
    ensures Extends(g, p, row, col, DRow(a), DCol(a), k) == StepHolds(g, p, row, col, a, k)
  {
    match a
    case Vertical =>
    case Slash =>
    case Backslash =>
    case Horizontal =>
  }

  /** The engine's backward walk along an axis, with the sentinel standing for an
      index below zero, tests the cells of that axis on the other side. */
  lemma ExtendsBackward(g: Grid, p: Player, row: nat, col: nat, a: Axis, k: nat)
    requires WellShaped(g)
    ensures Extends(g, p, row, col, -DRow(a), -DCol(a), k) == StepHolds(g, p, row, col, a, -(k as int))
  {
    match a
    case Vertical =>
    case Slash =>
    case Backslash =>
    case Horizontal =>
  }

  /** The sum of the two half-line counts along an axis exceeds the win length exactly
      when a line of four through the cell lies on that axis: both counts include
      the cell itself, so the true run is one shorter than the sum. */
  lemma PairCountIff(g: Grid, p: Player, row: nat, col: nat, a: Axis)
    requires WellShaped(g) && row < ROWS && col < COLS && HoldsAt(g, p, row, col)
    ensures Count(g, p, row, col, DRow(a), DCol(a)) + Count(g, p, row, col, -DRow(a), -DCol(a)) > WIN_LENGTH
            <==> FourThroughOn(g, p, row, col, a)
  {
    if Count(g, p, row, col, DRow(a), DCol(a)) + Count(g, p, row, col, -DRow(a), -DCol(a)) > WIN_LENGTH {
      PairCountFindsFour(g, p, row, col, a);
    }
    if FourThroughOn(g, p, row, col, a) {
      var s :| 0 <= s < WIN_LENGTH && Window(g, p, row, col, a, s);
      FourMakesPairCount(g, p, row, col, a, s);
    }
  }

  /** Every cell strictly inside the two half-line runs through (row, col) holds `p`:
      the steps back are those the backward count passed, the steps ahead those the
      forward count passed. */
  lemma InRunHolds(g: Grid, p: Player, row: nat, col: nat, a: Axis, t: int)
    requires WellShaped(g) && row < ROWS && col < COLS && HoldsAt(g, p, row, col)
    requires -(Count(g, p, row, col, -DRow(a), -DCol(a)) as int) < t < Count(g, p, row, col, DRow(a), DCol(a))
    ensures StepHolds(g, p, row, col, a, t)
  {
    if t < 0 {
      CountIsRun(g, p, row, col, -DRow(a), -DCol(a));
      ExtendsBackward(g, p, row, col, a, -t);
    } else if t == 0 {
      assert StepRow(row, a, 0) == row && StepCol(col, a, 0) == col;
    } else {
      CountIsRun(g, p, row, col, DRow(a), DCol(a));
      ExtendsForward(g, p, row, col, a, t);
    }
  }

  /** A sum of half-line counts above the win length yields a line of four: the one
      reaching as far back as the backward count allows, three cells at most. */
  lemma PairCountFindsFour(g: Grid, p: Player, row: nat, col: nat, a: Axis)
    requires WellShaped(g) && row < ROWS && col < COLS && HoldsAt(g, p, row, col)
    requires Count(g, p, row, col, DRow(a), DCol(a)) + Count(g, p, row, col, -DRow(a), -DCol(a)) > WIN_LENGTH
    ensures FourThroughOn(g, p, row, col, a)
  {
    var fwd := Count(g, p, row, col, DRow(a), DCol(a));
    var bwd := Count(g, p, row, col, -DRow(a), -DCol(a));
    var s := if bwd - 1 < WIN_LENGTH - 1 then bwd - 1 else WIN_LENGTH - 1;
    var r0, c0 := StepRow(row, a, -s), StepCol(col, a, -s);
    forall j | 0 <= j < WIN_LENGTH
      ensures StepHolds(g, p, r0, c0, a, j)
    {
      ShiftStep(g, p, row, col, a, s, j);
      InRunHolds(g, p, row, col, a, j - s);
    }
    assert Window(g, p, row, col, a, s);
  }

  /** A line of four through the cell whose `s`-th cell is the placed one makes the
      forward count exceed `3 - s` and the backward count exceed `s`. */
  lemma FourMakesPairCount(g: Grid, p: Player, row: nat, col: nat, a: Axis, s: int)
    requires WellShaped(g) && row < ROWS && col < COLS
    requires 0 <= s < WIN_LENGTH && Window(g, p, row, col, a, s)
    ensures Count(g, p, row, col, DRow(a), DCol(a)) > WIN_LENGTH - 1 - s
    ensures Count(g, p, row, col, -DRow(a), -DCol(a)) > s
  {
    var dr, dc := DRow(a), DCol(a);
    forall k: nat | 1 <= k < WIN_LENGTH - s
      ensures Extends(g, p, row, col, dr, dc, k)
    {
      ShiftStep(g, p, row, col, a, s, k + s);
      ExtendsForward(g, p, row, col, a, k);
    }
    RunReaches(g, p, row, col, dr, dc, WIN_LENGTH - s);
    var br, bc := -DRow(a), -DCol(a);
    forall k: nat | 1 <= k <= s
      ensures Extends(g, p, row, col, br, bc, k)
    {
      ShiftStep(g, p, row, col, a, s, s - k);
      ExtendsBackward(g, p, row, col, a, k);
    }
    RunReaches(g, p, row, col, br, bc, s + 1);
  }

  /** When the cell above (r, c) does not hold `p`, as gravity guarantees for a token
      just dropped, the downward count alone decides the vertical axis, and the
      guard `ROWS - row >= WIN_LENGTH` excludes no win. */
  lemma VerticalCountIff(g: Grid, p: Player, row: nat, col: nat)
    requires WellShaped(g) && row < ROWS && col < COLS && HoldsAt(g, p, row, col)
    requires row == 0 || g[row - 1][col] != Some(p)
    ensures (ROWS - row >= WIN_LENGTH && Count(g, p, row, col, 1, 0) >= WIN_LENGTH)
            <==> FourThroughOn(g, p, row, col, Vertical)
  {
    PairCountIff(g, p, row, col, Vertical);
    CountBound(g, p, row, col, 1, 0);
    assert !Extends(g, p, row, col, -1, 0, 1);
    CountIsRun(g, p, row, col, -1, 0);
    assert Count(g, p, row, col, -1, 0) == 1;
  }

  /** Win characterisation: for a token just placed, `check_for_win` holds exactly when
      a line of four cells of that player passes through it. */
  lemma WinAtIffFourThrough(g: Grid, p: Player, row: nat, col: nat)
    requires WellShaped(g) && row < ROWS && col < COLS && HoldsAt(g, p, row, col)
    requires row == 0 || g[row - 1][col] != Some(p)
    ensures WinAt(g, p, row, col) <==> FourThrough(g, p, row, col)
  {
    VerticalCountIff(g, p, row, col);
    PairCountIff(g, p, row, col, Slash);
    PairCountIff(g, p, row, col, Backslash);
    PairCountIff(g, p, row, col, Horizontal);
    if FourThrough(g, p, row, col) {
      var a :| FourThroughOn(g, p, row, col, a);
      match a
      case Vertical =>
      case Slash =>
      case Backslash =>
      case Horizontal =>
    }
  }

  /** A line through a cell is a line on the board. */
  lemma FourThroughConnects(g: Grid, p: Player, r: int, c: int)
    requires WellShaped(g) && FourThrough(g, p, r, c)
    ensures ConnectsFour(g, p)
  {
    var a :| FourThroughOn(g, p, r, c, a);
    var s :| 0 <= s < WIN_LENGTH && Window(g, p, r, c, a, s);
    assert FourInARow(g, p, StepRow(r, a, -s), StepCol(c, a, -s), a);
  }

  /** A line of four after a drop at (r, c) was already on the board, or it belongs
      to the player who dropped and passes through (r, c). */
  lemma FourAfterPut(g: Grid, r: nat, c: nat, p: Player, q: Player, r0: int, c0: int, a: Axis)
    requires WellShaped(g) && r < ROWS && c < COLS
    ensures FourInARow(Put(g, r, c, p), q, r0, c0, a)
            ==> FourInARow(g, q, r0, c0, a) || (q == p && FourThrough(Put(g, r, c, p), p, r, c))
  {
    var h := Put(g, r, c, p);
    if FourInARow(h, q, r0, c0, a) {
      if exists j :: 0 <= j < WIN_LENGTH && StepRow(r0, a, j) == r && StepCol(c0, a, j) == c {
        var j :| 0 <= j < WIN_LENGTH && StepRow(r0, a, j) == r && StepCol(c0, a, j) == c;
        assert StepHolds(h, q, r0, c0, a, j);
        assert StepRow(r, a, -j) == r0 && StepCol(c, a, -j) == c0;
        assert Window(h, p, r, c, a, j);
        assert FourThroughOn(h, p, r, c, a);
      } else {
        forall j | 0 <= j < WIN_LENGTH
          ensures StepHolds(g, q, r0, c0, a, j)
        {
          assert StepHolds(h, q, r0, c0, a, j);
        }
      }
    }
  }

  /** Checking only the lines through the placed cell suffices: a board with no line
      of four gains one by a drop at (r, c) only through (r, c). */
  lemma LocalCheckSuffices(g: Grid, r: nat, c: nat, p: Player)
    requires WellShaped(g) && r < ROWS && c < COLS
    requires !ConnectsFour(g, One) && !ConnectsFour(g, Two)
    requires !FourThrough(Put(g, r, c, p), p, r, c)
    ensures !ConnectsFour(Put(g, r, c, p), One) && !ConnectsFour(Put(g, r, c, p), Two)
  {
    forall q, r0: int, c0: int, a
      ensures !FourInARow(Put(g, r, c, p), q, r0, c0, a)
    {
      FourAfterPut(g, r, c, p, q, r0, c0, a);
      assert !FourInARow(g, q, r0, c0, a) by {
        match q
        case One =>
        case Two =>
      }
    }
  }

  /** The empty board has no line of four. */
  lemma EmptyNoFour(p: Player)
    ensures !ConnectsFour(EmptyGrid(), p)
  {
    forall r: int, c: int, a
      ensures !FourInARow(EmptyGrid(), p, r, c, a)
    {
      assert !StepHolds(EmptyGrid(), p, r, c, a, 0);
    }
  }
}
