/**
  The static evaluation used at the leaves of the search: a score for every
  4-cell window of the board plus a bonus for pieces in the centre column,
  always computed from one named player's point of view.
 */
module Evaluation {
  import opened Connect4Board

  const WinScore: int := 100000
  const ThreeScore: int := 100
  const TwoScore: int := 10
  const CenterScore: int := 3
  /** BOARD_COLS / 2 */
  const CenterCol: int := 3

  /** Number of windows the board is cut into. */
  const WindowCount: int := 69
  /** Bounds of the static evaluation. */
  const EvalFloor: int := -2 * ThreeScore * WindowCount
  const EvalCeil: int := WinScore * WindowCount + CenterScore * Rows

  /** The other player; evaluateWindow treats every non-first player as the first one's opponent. */
  function Opponent(p: Player): (q: Player)
    ensures q != None && q != p
  {
    if p == First then Second else First
  }

  /** Number of occurrences of `x` in `w`. */
  function Count(w: seq<Player>, x: Player): (n: nat)
    ensures n <= |w|
  {
    if |w| == 0 then 0 else (if w[0] == x then 1 else 0) + Count(w[1..], x)
  }

  datatype Tally = Tally(own: nat, opp: nat, empty: nat)

  /** The classification loop of evaluateWindow: each piece is own, opponent or otherwise empty. */
  function TallyOf(pieces: seq<Player>, player: Player, opponent: Player): (t: Tally)
    requires player != opponent
    ensures t.own == Count(pieces, player) && t.opp == Count(pieces, opponent)
    ensures t.own + t.opp + t.empty == |pieces|
  {
    if |pieces| == 0 then Tally(0, 0, 0)
    else
      var t := TallyOf(pieces[1..], player, opponent);
      if pieces[0] == player then t.(own := t.own + 1)
      else if pieces[0] == opponent then t.(opp := t.opp + 1)
      else t.(empty := t.empty + 1)
  }

  /**
    evaluateWindow: exactly one of six scores, decided by how many of the four
    pieces belong to `player` and how many to the opponent.  A window holding
    pieces of both sides scores 0, and so does a window of four opponent pieces.
   */
  function EvaluateWindow(p1: Player, p2: Player, p3: Player, p4: Player, player: Player): (s: int)
    ensures s in {WinScore, ThreeScore, TwoScore, -2 * ThreeScore, -TwoScore, 0}
    ensures var own := Count([p1, p2, p3, p4], player);
            var opp := Count([p1, p2, p3, p4], Opponent(player));
            && (s == WinScore <==> own == 4)
            && (s == ThreeScore <==> own == 3 && opp == 0)
            && (s == TwoScore <==> own == 2 && opp == 0)
            && (s == -2 * ThreeScore <==> opp == 3 && own == 0)
            && (s == -TwoScore <==> opp == 2 && own == 0)
            && (opp == 4 ==> s == 0)
  {
    var t := TallyOf([p1, p2, p3, p4], player, Opponent(player));
    var gain := if t.own == 4 then WinScore
                else if t.own == 3 && t.empty == 1 then ThreeScore
                else if t.own == 2 && t.empty == 2 then TwoScore
                else 0;
    var loss := if t.opp == 3 && t.empty == 1 then ThreeScore * 2
                else if t.opp == 2 && t.empty == 2 then TwoScore
                else 0;
    gain - loss
  }

  // ---------------------------------------------------------------------------
  // Windows
  // ---------------------------------------------------------------------------

  /** The four window shapes, in the order evaluateBoard visits them. */
  datatype Direction = Horizontal | Vertical | Descending | Ascending

  /** A window: its first cell and the direction of the other three. */
  datatype Window = Window(row: int, col: int, dir: Direction)

  /**
    Row of the i-th cell of a window.  Row 0 is the bottom, so `Descending`
    windows go down to the right and `Ascending` ones go up; the engine labels
    them "/" and "\" as if row 0 were at the top.
   */
  function CellRow(w: Window, i: int): int {
    match w.dir
    case Horizontal => w.row
    case Vertical => w.row + i
    case Descending => w.row - i
    case Ascending => w.row + i
  }

  function CellCol(w: Window, i: int): int {
    match w.dir
    case Horizontal => w.col + i
    case Vertical => w.col
    case Descending => w.col + i
    case Ascending => w.col + i
  }

  /** The window lies on the board (its end cells do, hence all four). */
  predicate Fits(w: Window) {
    InBounds(CellRow(w, 0), CellCol(w, 0)) && InBounds(CellRow(w, 3), CellCol(w, 3))
  }

  /** Rows 0..5, columns 0..3, row by row. */
  function HorizontalWindows(): (ws: seq<Window>)
    ensures |ws| == 24
  {
    seq(24, i requires 0 <= i < 24 => Window(i / 4, i % 4, Horizontal))
  }

  /** Rows 0..2, columns 0..6, row by row. */
  function VerticalWindows(): (ws: seq<Window>)
    ensures |ws| == 21
  {
    seq(21, i requires 0 <= i < 21 => Window(i / 7, i % 7, Vertical))
  }

  /** Starting rows 3..5, columns 0..3, row by row. */
  function DescendingWindows(): (ws: seq<Window>)
    ensures |ws| == 12
  {
    seq(12, i requires 0 <= i < 12 => Window(3 + i / 4, i % 4, Descending))
  }

  /** Rows 0..2, columns 0..3, row by row. */
  function AscendingWindows(): (ws: seq<Window>)
    ensures |ws| == 12
  {
    seq(12, i requires 0 <= i < 12 => Window(i / 4, i % 4, Ascending))
  }

  function AllWindows(): seq<Window> {
    HorizontalWindows() + VerticalWindows() + DescendingWindows() + AscendingWindows()
  }

  /** The enumeration visits every window that fits on the board, and only those, each once. */
  lemma WindowsEnumerated()
    ensures |AllWindows()| == WindowCount
    ensures forall w :: w in AllWindows() <==> Fits(w)
    ensures forall i, j :: 0 <= i < j < |AllWindows()| ==> AllWindows()[i] != AllWindows()[j]
  {
    var hs, vs, rs, fs := HorizontalWindows(), VerticalWindows(), DescendingWindows(), AscendingWindows();
    var all := AllWindows();
    assert all == hs + vs + rs + fs;
    forall w | Fits(w) ensures w in all {
      match w.dir
      case Horizontal =>
        assert hs[w.row * 4 + w.col] == w;
        assert all[w.row * 4 + w.col] == w;
      case Vertical =>
        assert vs[w.row * 7 + w.col] == w;
        assert all[24 + w.row * 7 + w.col] == w;
      case Descending =>
        assert rs[(w.row - 3) * 4 + w.col] == w;
        assert all[45 + (w.row - 3) * 4 + w.col] == w;
      case Ascending =>
        assert fs[w.row * 4 + w.col] == w;
        assert all[57 + w.row * 4 + w.col] == w;
    }
    forall i | 0 <= i < |all| ensures Fits(all[i]) {
      if i < 24 {
        assert all[i] == hs[i];
      } else if i < 45 {
        assert all[i] == vs[i - 24];
      } else if i < 57 {
        assert all[i] == rs[i - 45];
      } else {
        assert all[i] == fs[i - 57];
      }
    }
    forall i, j | 0 <= i < j < |all| ensures all[i] != all[j] {
      if all[i].dir == all[j].dir {
        if i < 24 {
          assert all[i] == hs[i] && all[j] == hs[j];
        } else if i < 45 {
          assert all[i] == vs[i - 24] && all[j] == vs[j - 24];
        } else if i < 57 {
          assert all[i] == rs[i - 45] && all[j] == rs[j - 45];
        } else {
          assert all[i] == fs[i - 57] && all[j] == fs[j - 57];
        }
      }
    }
  }

  /** Score of one window, its cells read through getCell. */
  function WindowScore(b: Board, w: Window, player: Player): (s: int)
    requires WellShaped(b)
    ensures -2 * ThreeScore <= s <= WinScore
  {
    EvaluateWindow(GetCell(b, CellRow(w, 0), CellCol(w, 0)), GetCell(b, CellRow(w, 1), CellCol(w, 1)),
                   GetCell(b, CellRow(w, 2), CellCol(w, 2)), GetCell(b, CellRow(w, 3), CellCol(w, 3)),
                   player)
  }

  /**
    Sum of the window scores; every window lies between the opponent-threat
    penalty (-2 * ThreeScore) and the win bonus (WinScore).
   */
  function WindowsScore(b: Board, ws: seq<Window>, player: Player): (s: int)
    requires WellShaped(b)
    ensures -200 * |ws| <= s <= 100000 * |ws|  // -2 * ThreeScore and WinScore per window
  {
    if |ws| == 0 then 0 else WindowScore(b, ws[0], player) + WindowsScore(b, ws[1..], player)
  }

  /** Number of `player` pieces in the centre column, rows `row` and up. */
  function CenterCount(b: Board, player: Player, row: nat): (n: nat)
    requires WellShaped(b)
    ensures row <= Rows ==> n <= Rows - row
    ensures row >= Rows ==> n == 0
    decreases Rows - row
  {
    if row >= Rows then 0
    else (if GetCell(b, row, CenterCol) == player then 1 else 0) + CenterCount(b, player, row + 1)
  }

  /**
    evaluateBoard: the centre bonus plus the sum over all 69 windows.  The score
    always lies between the worst case of 69 opponent threats and the best case
    of 69 own fours with a full centre column.
   */
  function EvaluateBoard(b: Board, player: Player): (s: int)
    requires WellShaped(b)
    ensures EvalFloor <= s <= EvalCeil
  {
    CenterScore * CenterCount(b, player, 0) + WindowsScore(b, AllWindows(), player)
  }

  /** Every other window costs at most the opponent-threat penalty. */
  lemma {:induction false} WindowsScoreAtLeastMember(b: Board, ws: seq<Window>, player: Player, k: nat)
    requires WellShaped(b)
    requires k < |ws|
    ensures WindowsScore(b, ws, player) >= WindowScore(b, ws[k], player) - 200 * (|ws| - 1)
  {
    if k > 0 {
      WindowsScoreAtLeastMember(b, ws[1..], player, k - 1);
    }
  }

  /** A four of `player` anywhere on the board outweighs everything else the evaluation can subtract. */
  lemma OwnFourDominates(b: Board, player: Player, w: Window)
    requires WellShaped(b)
    requires player != None
    requires Fits(w)
    requires forall i :: 0 <= i < 4 ==> GetCell(b, CellRow(w, i), CellCol(w, i)) == player
    ensures EvaluateBoard(b, player) >= WinScore - 2 * ThreeScore * (WindowCount - 1)
  {
    WindowsEnumerated();
    var all := AllWindows();
    var k :| 0 <= k < |all| && all[k] == w;
    assert GetCell(b, CellRow(w, 0), CellCol(w, 0)) == player;
    assert GetCell(b, CellRow(w, 1), CellCol(w, 1)) == player;
    assert GetCell(b, CellRow(w, 2), CellCol(w, 2)) == player;
    assert GetCell(b, CellRow(w, 3), CellCol(w, 3)) == player;
    assert WindowScore(b, w, player) == WinScore;
    WindowsScoreAtLeastMember(b, all, player, k);
  }
}
