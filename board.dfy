/** The board of the Connect Four engine as a value: its fixed dimensions, the two
    players, the grid of cells (row 0 at the top), gravity, occupancy and the
    gravity drop of one token. The engine's class keeps the grid in a 2-D array
    and states its contracts in terms of the values defined here. */
module Board {

  /** Fixed board height, width and length of a winning run. */
  const ROWS: nat := 6
  const COLS: nat := 7
  const WIN_LENGTH: nat := 4

  datatype Option<T> = None | Some(value: T)

  datatype Player = One | Two

  /** The player who moves after `p`. */
  function Other(p: Player): (q: Player)
    ensures q != p
  {
    match p
    case One => Two
    case Two => One
  }

  /** A board snapshot: `g[r][c]` is the cell in row `r` (0 = top) and column `c`. */
  type Grid = seq<seq<Option<Player>>>

  predicate WellShaped(g: Grid) {
    |g| == ROWS && forall r :: 0 <= r < ROWS ==> |g[r]| == COLS
  }

  /** The board right after construction. */
  function EmptyGrid(): (g: Grid)
    ensures WellShaped(g)
    ensures forall r, c :: 0 <= r < ROWS && 0 <= c < COLS ==> g[r][c] == None
  {
    seq(ROWS, _ => seq(COLS, _ => None))
  }

  /** Cell (r, c), given as signed coordinates, lies on the board and holds `p`. */
  predicate HoldsAt(g: Grid, p: Player, r: int, c: int)
    requires WellShaped(g)
  {
    0 <= r < ROWS && 0 <= c < COLS && g[r][c] == Some(p)
  }

  // ---------------------------------------------------------------------------
  // Gravity

  /** No column has an empty cell below an occupied one. */
  ghost predicate Gravity(g: Grid)
    requires WellShaped(g)
  {
    forall r, r', c :: 0 <= r <= r' < ROWS && 0 <= c < COLS && g[r][c].Some? ==> g[r'][c].Some?
  }

  lemma GravityEmpty()
    ensures Gravity(EmptyGrid())
  {
  }

  // ---------------------------------------------------------------------------
  // Dropping a token

  /** The empty cell with the largest row index in column `c`, or `None` when the
      column is full. */
  function LowestEmpty(g: Grid, c: nat): (r: Option<nat>)
    requires WellShaped(g) && c < COLS
    ensures r.Some? ==> r.value < ROWS && g[r.value][c] == None
    ensures r.Some? ==> forall k :: r.value < k < ROWS ==> g[k][c].Some?
    ensures r.None? <==> forall k :: 0 <= k < ROWS ==> g[k][c].Some?
  {
    LowestEmptyBelow(g, c, ROWS)
  }

  /** The empty cell with the largest row index smaller than `i` in column `c`. */
  function LowestEmptyBelow(g: Grid, c: nat, i: nat): (r: Option<nat>)
    requires WellShaped(g) && c < COLS && i <= ROWS
    ensures r.Some? ==> r.value < i && g[r.value][c] == None
    ensures r.Some? ==> forall k :: r.value < k < i ==> g[k][c].Some?
    ensures r.None? <==> forall k :: 0 <= k < i ==> g[k][c].Some?
    decreases i
  {
    if i == 0 then None
    else if g[i - 1][c].None? then Some(i - 1)
    else LowestEmptyBelow(g, c, i - 1)
  }

  /** Under gravity, every cell above the lowest empty cell of a column is empty. */
  lemma EmptyAboveLowest(g: Grid, c: nat, k: nat)
    requires WellShaped(g) && Gravity(g) && c < COLS
    requires LowestEmpty(g, c).Some? && k <= LowestEmpty(g, c).value
    ensures g[k][c] == None
  {
  }

  /** The snapshot with cell (r, c) set to `p`; every other cell is unchanged. */
  function Put(g: Grid, r: nat, c: nat, p: Player): (h: Grid)
    requires WellShaped(g) && r < ROWS && c < COLS
    ensures WellShaped(h) && h[r][c] == Some(p)
    ensures forall r', c' :: 0 <= r' < ROWS && 0 <= c' < COLS && (r' != r || c' != c) ==> h[r'][c'] == g[r'][c']
  {
    g[r := g[r][c := Some(p)]]
  }

  /** Dropping a token onto the lowest empty cell of a column keeps gravity. */
  lemma GravityPut(g: Grid, c: nat, p: Player)
    requires WellShaped(g) && Gravity(g) && c < COLS && LowestEmpty(g, c).Some?
    ensures Gravity(Put(g, LowestEmpty(g, c).value, c, p))
  {
    var r := LowestEmpty(g, c).value;
    var h: Grid := Put(g, r, c, p);
    forall r1, r2, c' | 0 <= r1 <= r2 < ROWS && 0 <= c' < COLS && h[r1][c'].Some?
      ensures h[r2][c'].Some?
    {
      if c' == c && r1 == r {
        assert r2 == r || g[r2][c'].Some?;
      }
    }
  }

  // ---------------------------------------------------------------------------
  // Occupancy

  /** The number of occupied cells in one row. */
  function RowOccupied(row: seq<Option<Player>>): nat
  {
    if row == [] then 0
    else RowOccupied(row[..|row| - 1]) + (if row[|row| - 1].Some? then 1 else 0)
  }

  /** A row holds at most as many tokens as it has cells; it holds that many exactly
      when it is full, and none exactly when it is empty. */
  lemma {:induction false} RowOccupiedBounds(row: seq<Option<Player>>)
    ensures RowOccupied(row) <= |row|
    ensures RowOccupied(row) == |row| <==> forall i :: 0 <= i < |row| ==> row[i].Some?
    ensures RowOccupied(row) == 0 <==> forall i :: 0 <= i < |row| ==> row[i].None?
    decreases |row|
  {
    if row != [] {
      var n := |row| - 1;
      RowOccupiedBounds(row[..n]);
      assert forall i :: 0 <= i < n ==> row[..n][i] == row[i];
    }
  }

  /** The number of occupied cells in a snapshot, row by row. */
  function Occupied(g: Grid): nat
  {
    if g == [] then 0
    else Occupied(g[..|g| - 1]) + RowOccupied(g[|g| - 1])
  }

  /** A board of `|g|` full-width rows holds at most `|g| * COLS` tokens, and holds
      that many exactly when every cell is taken. */
  lemma {:induction false} OccupiedBounds(g: Grid)
    requires forall r :: 0 <= r < |g| ==> |g[r]| == COLS
    ensures Occupied(g) <= |g| * COLS
    ensures Occupied(g) == |g| * COLS <==> forall r, c :: 0 <= r < |g| && 0 <= c < COLS ==> g[r][c].Some?
    decreases |g|
  {
    if g != [] {
      var n := |g| - 1;
      OccupiedBounds(g[..n]);
      RowOccupiedBounds(g[n]);
      assert forall r :: 0 <= r < n ==> g[..n][r] == g[r];
    }
  }

  /** Filling one empty cell of a row adds one occupied cell. */
  lemma {:induction false} RowOccupiedFill(row: seq<Option<Player>>, c: nat, p: Player)
    requires c < |row| && row[c] == None
    ensures RowOccupied(row[c := Some(p)]) == RowOccupied(row) + 1
    decreases |row|
  {
    var n := |row| - 1;
    var row' := row[c := Some(p)];
    if c == n {
      assert row'[..n] == row[..n];
    } else {
      assert row'[..n] == row[..n][c := Some(p)];
      RowOccupiedFill(row[..n], c, p);
    }
  }

  /** Replacing row `r` changes the count by the difference of the two rows' counts. */
  lemma {:induction false} OccupiedReplaceRow(g: Grid, r: nat, row: seq<Option<Player>>)
    requires forall i :: 0 <= i < |g| ==> |g[i]| == COLS
    requires r < |g| && |row| == COLS
    ensures Occupied(g[r := row]) + RowOccupied(g[r]) == Occupied(g) + RowOccupied(row)
    decreases |g|
  {
    var n := |g| - 1;
    var g' := g[r := row];
    if r == n {
      assert g'[..n] == g[..n];
    } else {
      assert g'[..n] == g[..n][r := row];
      OccupiedReplaceRow(g[..n], r, row);
    }
  }

  /** Dropping a token into an empty cell adds exactly one occupied cell. */
  lemma OccupiedPut(g: Grid, r: nat, c: nat, p: Player)
    requires WellShaped(g) && r < ROWS && c < COLS && g[r][c] == None
    ensures Occupied(Put(g, r, c, p)) == Occupied(g) + 1
  {
    RowOccupiedFill(g[r], c, p);
    OccupiedReplaceRow(g, r, g[r][c := Some(p)]);
  }

  /** The empty board has no occupied cell. */
  lemma {:induction false} OccupiedEmptyRows(g: Grid)
    requires forall r :: 0 <= r < |g| ==> |g[r]| == COLS
    requires forall r, c :: 0 <= r < |g| && 0 <= c < COLS ==> g[r][c] == None
    ensures Occupied(g) == 0
    decreases |g|
  {
    if g != [] {
      OccupiedEmptyRows(g[..|g| - 1]);
      RowOccupiedBounds(g[|g| - 1]);
    }
  }

  lemma OccupiedEmpty()
    ensures Occupied(EmptyGrid()) == 0
  {
    OccupiedEmptyRows(EmptyGrid());
  }
}
