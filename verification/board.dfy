/**
  The Connect Four board: a 6 x 7 grid filled by gravity, per-column fill
  heights, a move counter, the game state and the winner.

  Row 0 is the row a piece lands on in an empty column; the height of a column
  is the row the next piece in that column will occupy.  The board is an
  immutable value: `MakeMove` and `UndoMove` return the new board instead of
  mutating it.
 */
module Connect4Board {

  const Rows: int := 6
  const Cols: int := 7
  /** Length of a run that wins the game. */
  const ConnectWin: int := 4
  /** Number of cells, the move count at which a board is full. */
  const CellCount: int := 42

  /** The unsigned 8-bit integers the engine uses for counters and depths. */
  type uint8 = x: int | 0 <= x < 256

  /** `None` is also the content of an empty cell. */
  datatype Player = None | First | Second

  datatype GameState = InProgress | FirstWins | SecondWins | Draw

  datatype Board = Board(
    grid: seq<seq<Player>>,   // grid[row][col]
    heights: seq<nat>,        // heights[col]
    moveCount: uint8,
    state: GameState,
    winner: Player)

  predicate InBounds(row: int, col: int) {
    0 <= row < Rows && 0 <= col < Cols
  }

  /** The shape the engine's fixed-size arrays always have; every operation needs it. */
  predicate GridShaped(g: seq<seq<Player>>) {
    |g| == Rows && forall r :: 0 <= r < Rows ==> |g[r]| == Cols
  }

  predicate WellShaped(b: Board) {
    && GridShaped(b.grid)
    && |b.heights| == Cols
    && (forall c :: 0 <= c < Cols ==> b.heights[c] <= Rows)
  }

  /** Pieces sit exactly below the fill height of their column. */
  predicate Gravity(b: Board)
    requires WellShaped(b)
  {
    forall r, c :: 0 <= r < Rows && 0 <= c < Cols ==> (b.grid[r][c] != None <==> r < b.heights[c])
  }

  function SumOf(s: seq<nat>): nat {
    if |s| == 0 then 0 else s[0] + SumOf(s[1..])
  }

  lemma SumOfZeros(s: seq<nat>)
    requires forall i :: 0 <= i < |s| ==> s[i] == 0
    ensures SumOf(s) == 0
  {
  }

  /** The board invariant every operation keeps, when moves are made by a real player. */
  predicate Valid(b: Board) {
    && WellShaped(b)
    && Gravity(b)
    && b.moveCount == SumOf(b.heights)
    && (b.state == InProgress ==> b.moveCount < CellCount && b.winner == None)
    && (b.state == Draw ==> b.winner == None)
    && (b.state == FirstWins ==> b.winner == First)
    && (b.state == SecondWins ==> b.winner == Second)
  }

  /** The state a win by `p` leaves; the engine maps every non-first player to SECOND_WINS. */
  function WinState(p: Player): GameState {
    if p == First then FirstWins else SecondWins
  }

  // ---------------------------------------------------------------------------
  // Win detection anchored at one cell
  // ---------------------------------------------------------------------------

  predicate Holds(g: seq<seq<Player>>, row: int, col: int, p: Player)
    requires GridShaped(g)
  {
    InBounds(row, col) && g[row][col] == p
  }

  predicate IsUnit(d: int) { -1 <= d <= 1 }

  /** Number of consecutive cells of `p` met when stepping from (row, col) by (dr, dc), the anchor excluded. */
  function Ray(g: seq<seq<Player>>, row: int, col: int, dr: int, dc: int, p: Player): nat
    requires GridShaped(g)
    requires IsUnit(dr) && IsUnit(dc) && (dr != 0 || dc != 0)
    decreases if dr > 0 then Rows - row else if dr < 0 then row + 1
              else if dc > 0 then Cols - col else col + 1
  {
    if Holds(g, row + dr, col + dc, p) then 1 + Ray(g, row + dr, col + dc, dr, dc, p) else 0
  }

  /** Length of the run of `p` through (row, col) along the axis (dr, dc), counting the anchor once. */
  function RunThrough(g: seq<seq<Player>>, row: int, col: int, dr: int, dc: int, p: Player): nat
    requires GridShaped(g)
    requires IsUnit(dr) && IsUnit(dc) && (dr != 0 || dc != 0)
  {
    1 + Ray(g, row, col, -dr, -dc, p) + Ray(g, row, col, dr, dc, p)
  }

  /** checkWinAt: the horizontal, vertical, "/" and "\" runs through the anchor, in that order. */
  function CheckWinAt(g: seq<seq<Player>>, row: int, col: int, p: Player): bool
    requires GridShaped(g)
  {
    || RunThrough(g, row, col, 0, 1, p) >= ConnectWin
    || RunThrough(g, row, col, -1, 0, p) >= ConnectWin
    || RunThrough(g, row, col, -1, 1, p) >= ConnectWin
    || RunThrough(g, row, col, -1, -1, p) >= ConnectWin
  }

  /**
    Reference definition: one of the four placements of four consecutive cells
    along the axis (dr, dc) that contain (row, col) is filled with `p`.
   */
  predicate LineOnAxis(g: seq<seq<Player>>, row: int, col: int, dr: int, dc: int, p: Player)
    requires GridShaped(g)
  {
    var b3, b2, b1 := Holds(g, row - 3 * dr, col - 3 * dc, p), Holds(g, row - 2 * dr, col - 2 * dc, p),
                      Holds(g, row - dr, col - dc, p);
    var f1, f2, f3 := Holds(g, row + dr, col + dc, p), Holds(g, row + 2 * dr, col + 2 * dc, p),
                      Holds(g, row + 3 * dr, col + 3 * dc, p);
    Holds(g, row, col, p) && ((b3 && b2 && b1) || (b2 && b1 && f1) || (b1 && f1 && f2) || (f1 && f2 && f3))
  }

  /** Some horizontal, vertical or diagonal four of `p` covers (row, col). */
  predicate LineThrough(g: seq<seq<Player>>, row: int, col: int, p: Player)
    requires GridShaped(g)
  {
    || LineOnAxis(g, row, col, 0, 1, p)
    || LineOnAxis(g, row, col, -1, 0, p)
    || LineOnAxis(g, row, col, -1, 1, p)
    || LineOnAxis(g, row, col, -1, -1, p)
  }

  /** `i` steps of a unit direction `d`, that is `i * d`, kept linear. */
  function Steps(i: int, d: int): int
    requires IsUnit(d)
  {
    if d > 0 then i else if d < 0 then -i else 0
  }

  /** The cell `i` steps from (row, col) along (dr, dc) holds `p`. */
  predicate HoldsAt(g: seq<seq<Player>>, row: int, col: int, dr: int, dc: int, p: Player, i: int)
    requires GridShaped(g)
    requires IsUnit(dr) && IsUnit(dc)
  {
    Holds(g, row + Steps(i, dr), col + Steps(i, dc), p)
  }

  /** The first k cells of the ray from (row, col) along (dr, dc) all hold `p`. */
  predicate PrefixHolds(g: seq<seq<Player>>, row: int, col: int, dr: int, dc: int, p: Player, k: nat)
    requires GridShaped(g)
    requires IsUnit(dr) && IsUnit(dc)
  {
    forall i :: 1 <= i <= k ==> HoldsAt(g, row, col, dr, dc, p, i)
  }

  /** A prefix of k + 1 cells is its first cell followed by a prefix of k cells one step on. */
  lemma PrefixShift(g: seq<seq<Player>>, row: int, col: int, dr: int, dc: int, p: Player, k: nat)
    requires GridShaped(g)
    requires IsUnit(dr) && IsUnit(dc)
    ensures PrefixHolds(g, row, col, dr, dc, p, k + 1) <==>
              Holds(g, row + dr, col + dc, p) && PrefixHolds(g, row + dr, col + dc, dr, dc, p, k)
  {
    var r1, c1 := row + dr, col + dc;
    assert HoldsAt(g, row, col, dr, dc, p, 1) == Holds(g, r1, c1, p);
    forall i | 1 <= i <= k
      ensures HoldsAt(g, r1, c1, dr, dc, p, i) == HoldsAt(g, row, col, dr, dc, p, i + 1)
    {
      assert r1 + Steps(i, dr) == row + Steps(i + 1, dr) && c1 + Steps(i, dc) == col + Steps(i + 1, dc);
    }
    if Holds(g, r1, c1, p) && PrefixHolds(g, r1, c1, dr, dc, p, k) {
      forall i | 1 <= i <= k + 1 ensures HoldsAt(g, row, col, dr, dc, p, i) {
        if i > 1 {
          assert HoldsAt(g, r1, c1, dr, dc, p, i - 1);
        }
      }
    }
  }

  /** A ray reaches length k exactly when its first k cells all hold `p`. */
  lemma {:induction false} RayReaches(g: seq<seq<Player>>, row: int, col: int, dr: int, dc: int, p: Player, k: nat)
    requires GridShaped(g)
    requires IsUnit(dr) && IsUnit(dc) && (dr != 0 || dc != 0)
    ensures Ray(g, row, col, dr, dc, p) >= k <==> PrefixHolds(g, row, col, dr, dc, p, k)
    decreases k
  {
    if k > 0 {
      RayReaches(g, row + dr, col + dc, dr, dc, p, k - 1);
      PrefixShift(g, row, col, dr, dc, p, k - 1);
    }
  }

  /** `RayReaches` for k = 1, 2 and 3, in the multiples of (dr, dc) that `LineOnAxis` uses. */
  lemma RayPrefix(g: seq<seq<Player>>, row: int, col: int, dr: int, dc: int, p: Player)
    requires GridShaped(g)
    requires IsUnit(dr) && IsUnit(dc) && (dr != 0 || dc != 0)
    ensures Ray(g, row, col, dr, dc, p) >= 1 <==> Holds(g, row + dr, col + dc, p)
    ensures Ray(g, row, col, dr, dc, p) >= 2 <==>
              Holds(g, row + dr, col + dc, p) && Holds(g, row + 2 * dr, col + 2 * dc, p)
    ensures Ray(g, row, col, dr, dc, p) >= 3 <==>
              && Holds(g, row + dr, col + dc, p) && Holds(g, row + 2 * dr, col + 2 * dc, p)
              && Holds(g, row + 3 * dr, col + 3 * dc, p)
  {
    RayReaches(g, row, col, dr, dc, p, 1);
    RayReaches(g, row, col, dr, dc, p, 2);
    RayReaches(g, row, col, dr, dc, p, 3);
    assert HoldsAt(g, row, col, dr, dc, p, 1) == Holds(g, row + dr, col + dc, p);
    assert HoldsAt(g, row, col, dr, dc, p, 2) == Holds(g, row + 2 * dr, col + 2 * dc, p);
    assert HoldsAt(g, row, col, dr, dc, p, 3) == Holds(g, row + 3 * dr, col + 3 * dc, p);
  }

  /** Along one axis, a run of length at least four through the anchor is a four covering it. */
  lemma {:induction false} RunIffLine(g: seq<seq<Player>>, row: int, col: int, dr: int, dc: int, p: Player)
    requires GridShaped(g)
    requires IsUnit(dr) && IsUnit(dc) && (dr != 0 || dc != 0)
    requires Holds(g, row, col, p)
    ensures RunThrough(g, row, col, dr, dc, p) >= ConnectWin <==> LineOnAxis(g, row, col, dr, dc, p)
  {
    RayPrefix(g, row, col, dr, dc, p);
    RayPrefix(g, row, col, -dr, -dc, p);
    assert row + -dr == row - dr && col + -dc == col - dc;
    assert row + 2 * -dr == row - 2 * dr && col + 2 * -dc == col - 2 * dc;
    assert row + 3 * -dr == row - 3 * dr && col + 3 * -dc == col - 3 * dc;
    var forward, backward := Ray(g, row, col, dr, dc, p), Ray(g, row, col, -dr, -dc, p);
    assert RunThrough(g, row, col, dr, dc, p) == 1 + backward + forward;
  }

  /** checkWinAt answers exactly whether a four of `p` covers the anchor, when `p` holds it. */
  lemma CheckWinAtIsLine(g: seq<seq<Player>>, row: int, col: int, p: Player)
    requires GridShaped(g)
    requires Holds(g, row, col, p)
    ensures CheckWinAt(g, row, col, p) <==> LineThrough(g, row, col, p)
  {
    RunIffLine(g, row, col, 0, 1, p);
    RunIffLine(g, row, col, -1, 0, p);
    RunIffLine(g, row, col, -1, 1, p);
    RunIffLine(g, row, col, -1, -1, p);
  }

  // ---------------------------------------------------------------------------
  // Operations
  // ---------------------------------------------------------------------------

  /** reset: the empty board, which is a valid starting position. */
  function Reset(): (b: Board)
    ensures Valid(b)
    ensures forall r, c :: 0 <= r < Rows && 0 <= c < Cols ==> b.grid[r][c] == None
    ensures forall c :: 0 <= c < Cols ==> b.heights[c] == 0
    ensures b.moveCount == 0 && b.state == InProgress && b.winner == None
  {
    var b := Board(seq(Rows, _ => seq(Cols, _ => None)), seq(Cols, _ => 0), 0, InProgress, None);
    SumOfZeros(b.heights);
    b
  }

  /** isValidMove: the column exists and is not full. */
  function IsValidMove(b: Board, col: nat): (ok: bool)
    requires WellShaped(b)
    ensures Gravity(b) ==> (ok <==> col < Cols && b.grid[Rows - 1][col] == None)
  {
    col < Cols && b.heights[col] < Rows
  }

  /** A move the engine's makeMove accepts. */
  predicate Legal(b: Board, col: nat)
    requires WellShaped(b)
  {
    IsValidMove(b, col) && b.state == InProgress
  }

  /** The placement step of makeMove before the outcome is decided. */
  function Drop(b: Board, col: nat, p: Player): (d: Board)
    requires WellShaped(b)
    requires IsValidMove(b, col)
    ensures WellShaped(d)
    ensures d.grid[b.heights[col]][col] == p
    ensures forall row, c :: InBounds(row, c) && (row, c) != (b.heights[col], col) ==>
              d.grid[row][c] == b.grid[row][c]
    ensures d.heights == b.heights[col := b.heights[col] + 1]
    ensures d.moveCount == (b.moveCount + 1) % 256
    ensures d.state == b.state && d.winner == b.winner
  {
    var row := b.heights[col];
    b.(grid := b.grid[row := b.grid[row][col := p]],
       heights := b.heights[col := row + 1],
       moveCount := (b.moveCount + 1) % 256)
  }

  /**
    makeMove: rejected (and nothing changes) for an invalid column or a finished
    game; otherwise the piece lands on the column's fill height and the state
    becomes a win exactly when a four through the new piece exists, else a draw
    once the board holds 42 pieces.
   */
  function MakeMove(b: Board, col: nat, p: Player): (r: (bool, Board))
    requires WellShaped(b)
    ensures WellShaped(r.1)
    ensures r.0 <==> Legal(b, col)
    ensures !r.0 ==> r.1 == b
    ensures r.0 ==> && r.1.grid[b.heights[col]][col] == p
                    && r.1.heights == b.heights[col := b.heights[col] + 1]
                    && r.1.moveCount == (b.moveCount + 1) % 256
    ensures r.0 ==> forall row, c :: InBounds(row, c) && (row, c) != (b.heights[col], col) ==>
                      r.1.grid[row][c] == b.grid[row][c]
    ensures r.0 ==> (r.1.state == WinState(p) && r.1.winner == p) || (r.1.state == Draw && r.1.winner == b.winner)
                    || (r.1.state == InProgress && r.1.winner == b.winner)
  {
    if !IsValidMove(b, col) || b.state != InProgress then (false, b)
    else
      var row := b.heights[col];
      var d := Drop(b, col, p);
      var won := CheckWinAt(d.grid, row, col, p);
      (true, d.(state := if won then WinState(p) else if d.moveCount >= CellCount then Draw else d.state,
                winner := if won then p else d.winner))
  }

  /**
    The outcome makeMove records: a win for `p` exactly when a four of `p`
    runs through the new piece, otherwise a draw once the board holds 42
    pieces, otherwise the game goes on.
   */
  lemma MakeMoveOutcome(b: Board, col: nat, p: Player)
    requires WellShaped(b)
    requires Legal(b, col)
    ensures var r := MakeMove(b, col, p).1;
            var line := LineThrough(r.grid, b.heights[col], col, p);
            && (r.state == WinState(p) <==> line)
            && (line ==> r.winner == p)
            && (!line ==> r.winner == b.winner
                          && r.state == (if r.moveCount >= CellCount then Draw else InProgress))
  {
    var r := MakeMove(b, col, p).1;
    CheckWinAtIsLine(r.grid, b.heights[col], col, p);
  }

  /**
    undoMove: a no-op for a column out of range or empty; otherwise the top
    piece of the column is removed and the game is back in progress.
   */
  function UndoMove(b: Board, col: nat): (r: Board)
    requires WellShaped(b)
    ensures WellShaped(r)
    ensures col >= Cols || b.heights[col] == 0 ==> r == b
    ensures col < Cols && b.heights[col] > 0 ==>
              && r.heights == b.heights[col := b.heights[col] - 1]
              && r.grid[b.heights[col] - 1][col] == None
              && r.moveCount == (b.moveCount + 255) % 256
              && r.state == InProgress && r.winner == None
    ensures col < Cols && b.heights[col] > 0 ==>
              forall row, c :: InBounds(row, c) && (row, c) != (b.heights[col] - 1, col) ==>
                r.grid[row][c] == b.grid[row][c]
  {
    if col >= Cols || b.heights[col] == 0 then b
    else
      var row := b.heights[col] - 1;
      Board(b.grid[row := b.grid[row][col := None]],
            b.heights[col := row],
            (b.moveCount + 255) % 256,
            InProgress,
            None)
  }

  /** getCell: NONE outside the grid; on a board obeying gravity, occupied exactly below the fill height. */
  function GetCell(b: Board, row: int, col: int): (p: Player)
    requires WellShaped(b)
    ensures !InBounds(row, col) ==> p == None
    ensures InBounds(row, col) ==> p == b.grid[row][col]
    ensures Gravity(b) ==> (p != None <==> InBounds(row, col) && row < b.heights[col])
  {
    if row < 0 || row >= Rows || col < 0 || col >= Cols then None else b.grid[row][col]
  }

  /** getColumnHeight: 0 outside the grid; on a board obeying gravity, the lowest empty row. */
  function GetColumnHeight(b: Board, col: nat): (h: nat)
    requires WellShaped(b)
    ensures col >= Cols ==> h == 0
    ensures h <= Rows
    ensures Gravity(b) && col < Cols ==>
              && (h < Rows ==> b.grid[h][col] == None)
              && (h > 0 ==> b.grid[h - 1][col] != None)
  {
    if col < Cols then b.heights[col] else 0
  }

  function IsFull(b: Board): bool {
    b.moveCount >= CellCount
  }

  function HasWinner(b: Board): bool {
    b.state == FirstWins || b.state == SecondWins
  }

  function IsDraw(b: Board): bool {
    b.state == Draw
  }

  /** isGameOver: a finished game is won or drawn, and a won game names its winner. */
  function IsGameOver(b: Board): (over: bool)
    ensures over <==> HasWinner(b) || IsDraw(b)
    ensures Valid(b) && HasWinner(b) ==> b.winner != None && over
  {
    b.state != InProgress
  }
}
