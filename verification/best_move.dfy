/**
  The root of the engine: calculateBestMove tries the columns in centre-out
  order, plays a column at once when it wins on the spot, and otherwise keeps
  the column whose reply search scores strictly best.

  `CalculateBestMove` is the driver with the rejected-move check the header's
  contract calls for; `CalculateBestMoveAsWritten` is the loop exactly as the
  engine spells it, which ignores makeMove's result.
 */
module BestMove {
  import opened Connect4Board
  import opened Evaluation
  import opened BoardLemmas
  import opened Search

  /** No move: calculateBestMove's -1. */
  const NoMove: int := -1

  /** The depth calculateBestMove searches: a requested depth of 0 is raised to 1. */
  function EffectiveDepth(depth: uint8): (d: uint8)
    ensures 0 < d
    ensures depth != 0 ==> d == depth
    ensures depth == 0 ==> d == 1
  {
    if depth == 0 then 1 else depth
  }

  // ---------------------------------------------------------------------------
  // What the root loop learns about each column
  // ---------------------------------------------------------------------------

  /** Playing `col` is accepted and wins the game for `p` at once. */
  predicate WinsNow(b: Board, col: nat, p: Player)
    requires WellShaped(b)
  {
    && Legal(b, col)
    && var m := MakeMove(b, col, p).1;
       HasWinner(m) && m.winner == p
  }

  /** Winning on the spot is exactly completing a four through the piece just dropped. */
  lemma WinsNowIsLine(b: Board, col: nat, p: Player)
    requires Valid(b) && p != None
    requires Legal(b, col)
    ensures WinsNow(b, col, p) <==> LineThrough(MakeMove(b, col, p).1.grid, b.heights[col], col, p)
  {
    MakeMoveOutcome(b, col, p);
  }

  /** Score of the root move `col`: the unpruned minimax value of the reply position. */
  function RootScore(b: Board, col: nat, p: Player, depth: uint8): int
    requires WellShaped(b)
    requires 0 < depth
  {
    Minimax(MakeMove(b, col, p).1, Below(depth), false, p)
  }

  /** One column as the root loop sees it: playable, winning on the spot, and its score. */
  datatype Probe = Probe(legal: bool, wins: bool, score: int)

  /** The columns in centre-out order, probed on board `b` for player `p`. */
  function Probes(b: Board, p: Player, depth: uint8): (ps: seq<Probe>)
    requires WellShaped(b)
    requires 0 < depth
    ensures |ps| == |MoveOrder|
    ensures forall j :: 0 <= j < |ps| ==>
              ps[j] == Probe(Legal(b, MoveOrder[j]), WinsNow(b, MoveOrder[j], p), RootScore(b, MoveOrder[j], p, depth))
  {
    seq(|MoveOrder|, j requires 0 <= j < |MoveOrder| =>
      Probe(Legal(b, MoveOrder[j]), WinsNow(b, MoveOrder[j], p), RootScore(b, MoveOrder[j], p, depth)))
  }

  /** Column index k wins on the spot and no column before it does. */
  predicate FirstWin(ps: seq<Probe>, k: int) {
    && 0 <= k < |ps|
    && ps[k].wins
    && forall j :: 0 <= j < k ==> !ps[j].wins
  }

  /**
    Among the playable columns before index n, column index k scores greatest,
    and every playable column before it scores strictly less: the strict
    arg-max with ties going to the earlier column.
   */
  predicate BestAmong(ps: seq<Probe>, k: int, n: int) {
    && 0 <= k < n <= |ps|
    && ps[k].legal
    && (forall j :: 0 <= j < n && ps[j].legal ==> ps[j].score <= ps[k].score)
    && (forall j :: 0 <= j < k && ps[j].legal ==> ps[j].score < ps[k].score)
  }

  /** What every probe of a valid board satisfies: only playable columns win, and scores are real scores. */
  predicate Consistent(ps: seq<Probe>) {
    forall j :: 0 <= j < |ps| ==> (ps[j].wins ==> ps[j].legal) && (ps[j].legal ==> Int32Min < ps[j].score)
  }

  /** The column of a column index, or -1 for none. */
  function ColumnOf(k: int): (c: int)
    requires -1 <= k < |MoveOrder|
    ensures k == -1 ==> c == NoMove
    ensures 0 <= k ==> 0 <= c < Cols
  {
    if k == -1 then NoMove else MoveOrder[k]
  }

  // ---------------------------------------------------------------------------
  // The decision, on probes
  // ---------------------------------------------------------------------------

  /**
    The decision the root loop takes from index i on, given the best index and
    score so far: the first winning column, else the column with the strictly
    best score.
   */
  function Pick(ps: seq<Probe>, i: nat, best: int, bestScore: int): (k: int)
    requires i <= |ps|
    ensures k == best || i <= k < |ps|
    decreases |ps| - i
  {
    if i == |ps| then best
    else if !ps[i].legal then Pick(ps, i + 1, best, bestScore)
    else if ps[i].wins then i
    else if ps[i].score > bestScore then Pick(ps, i + 1, i, ps[i].score)
    else Pick(ps, i + 1, best, bestScore)
  }

  /** The first winning column is picked, whatever the best so far. */
  lemma {:induction false} PickFirstWin(ps: seq<Probe>, i: nat, best: int, bestScore: int, w: int)
    requires Consistent(ps)
    requires i <= |ps|
    requires FirstWin(ps, w) && i <= w
    ensures Pick(ps, i, best, bestScore) == w
    decreases |ps| - i
  {
    if i < w {
      assert !ps[i].wins;
      if ps[i].legal && ps[i].score > bestScore {
        PickFirstWin(ps, i + 1, i, ps[i].score, w);
      } else {
        PickFirstWin(ps, i + 1, best, bestScore, w);
      }
    }
  }

  /**
    With no winning column, the pick is the strict arg-max over all playable
    columns, or -1 when none is playable, provided the best so far is that of
    the columns before i.
   */
  lemma {:induction false} PickBest(ps: seq<Probe>, i: nat, best: int, bestScore: int)
    requires Consistent(ps)
    requires i <= |ps|
    requires forall j :: 0 <= j < |ps| ==> !ps[j].wins
    requires || (best == -1 && bestScore == Int32Min && forall j :: 0 <= j < i ==> !ps[j].legal)
             || (BestAmong(ps, best, i) && bestScore == ps[best].score)
    ensures var k := Pick(ps, i, best, bestScore);
            || (k == -1 && forall j :: 0 <= j < |ps| ==> !ps[j].legal)
            || BestAmong(ps, k, |ps|)
    decreases |ps| - i
  {
    if i < |ps| {
      if !ps[i].legal {
        PickBest(ps, i + 1, best, bestScore);
      } else if ps[i].score > bestScore {
        assert BestAmong(ps, i, i + 1);
        PickBest(ps, i + 1, i, ps[i].score);
      } else {
        assert BestAmong(ps, best, i + 1);
        PickBest(ps, i + 1, best, bestScore);
      }
    }
  }

  /** The pick is -1 exactly when no column is playable. */
  lemma {:induction false} PickNone(ps: seq<Probe>, i: nat, best: int, bestScore: int)
    requires Consistent(ps)
    requires i <= |ps|
    requires best == -1 <==> forall j :: 0 <= j < i ==> !ps[j].legal
    requires best == -1 ==> bestScore == Int32Min
    requires best != -1 ==> 0 <= best < i
    ensures Pick(ps, i, best, bestScore) == -1 <==> forall j :: 0 <= j < |ps| ==> !ps[j].legal
    decreases |ps| - i
  {
    if i < |ps| {
      if !ps[i].legal {
        PickNone(ps, i + 1, best, bestScore);
      } else if !ps[i].wins {
        if ps[i].score > bestScore {
          PickNone(ps, i + 1, i, ps[i].score);
        } else {
          PickNone(ps, i + 1, best, bestScore);
        }
      }
    }
  }

  /**
    The decision from the start of the order: -1 exactly when no column is
    playable, else a playable column; the first winning column when there is
    one; with no winning column, the strict arg-max of the scores.
   */
  lemma PickSpec(ps: seq<Probe>)
    requires Consistent(ps)
    ensures var k := Pick(ps, 0, -1, Int32Min);
            && -1 <= k < |ps|
            && (k == -1 <==> forall j :: 0 <= j < |ps| ==> !ps[j].legal)
            && (k != -1 ==> ps[k].legal)
            && (forall w :: FirstWin(ps, w) ==> k == w)
            && ((forall j :: 0 <= j < |ps| ==> !ps[j].wins) && k != -1 ==> BestAmong(ps, k, |ps|))
  {
    var k := Pick(ps, 0, -1, Int32Min);
    PickNone(ps, 0, -1, Int32Min);
    forall w | FirstWin(ps, w) ensures k == w {
      PickFirstWin(ps, 0, -1, Int32Min, w);
    }
    if forall j :: 0 <= j < |ps| ==> !ps[j].wins {
      PickBest(ps, 0, -1, Int32Min);
    }
    if k != -1 {
      PickLegal(ps, 0, -1, Int32Min);
    }
  }

  /** A picked column is a playable one. */
  lemma {:induction false} PickLegal(ps: seq<Probe>, i: nat, best: int, bestScore: int)
    requires i <= |ps|
    requires best != -1 ==> 0 <= best < |ps| && ps[best].legal
    ensures var k := Pick(ps, i, best, bestScore); k != -1 ==> 0 <= k < |ps| && ps[k].legal
    decreases |ps| - i
  {
    if i < |ps| && ps[i].legal && !ps[i].wins {
      if ps[i].score > bestScore {
        PickLegal(ps, i + 1, i, ps[i].score);
      } else {
        PickLegal(ps, i + 1, best, bestScore);
      }
    } else if i < |ps| && !ps[i].legal {
      PickLegal(ps, i + 1, best, bestScore);
    }
  }

  // ---------------------------------------------------------------------------
  // The driver
  // ---------------------------------------------------------------------------

  /**
    The root loop from MoveOrder[i] on, with the best column and score so far,
    skipping columns whose move makeMove rejects.  The board is threaded
    through make / search / undo as in the engine and comes back unchanged.
   */
  function BestFrom(b: Board, player: Player, depth: uint8, i: nat, bestMove: int, bestScore: int): (r: (int, Board))
    requires WellShaped(b)
    requires 0 < depth && i <= |MoveOrder|
    ensures WellShaped(r.1)
    ensures r.0 == bestMove || exists j :: i <= j < |MoveOrder| && r.0 == MoveOrder[j]
    ensures Valid(b) && player != None ==> r.1 == b
    decreases |MoveOrder| - i
  {
    if i == |MoveOrder| then (bestMove, b)
    else
      var col := MoveOrder[i];
      if !IsValidMove(b, col) then BestFrom(b, player, depth, i + 1, bestMove, bestScore)
      else
        var made := MakeMove(b, col, player);
        if !made.0 then BestFrom(b, player, depth, i + 1, bestMove, bestScore)
        else
          var m := made.1;
          if HasWinner(m) && m.winner == player then
            var back := UndoMove(m, col);
            assert Valid(b) && player != None ==> back == b by {
              if Valid(b) && player != None {
                UndoAfterMake(b, col, player);
              }
            }
            (col, back)
          else
            var s := AlphaBeta(m, Below(depth), Int32Min, Int32Max, false, player);
            var back := UndoMove(s.board, col);
            assert Valid(b) && player != None ==> back == b by {
              if Valid(b) && player != None {
                SearchStepRestores(b, col, player, m);
              }
            }
            if s.value > bestScore then BestFrom(back, player, depth, i + 1, col, s.value)
            else BestFrom(back, player, depth, i + 1, bestMove, bestScore)
  }

  /** calculateBestMove, answering -1 when makeMove accepts no column. */
  function CalculateBestMove(b: Board, player: Player, depth: uint8): (r: (int, Board))
    requires WellShaped(b)
    ensures r.0 == NoMove || r.0 in MoveOrder
    ensures Valid(b) && player != None ==> r.1 == b
  {
    BestFrom(b, player, EffectiveDepth(depth), 0, NoMove, Int32Min)
  }

  // ---------------------------------------------------------------------------
  // What the driver answers
  // ---------------------------------------------------------------------------

  /** One accepted root move that does not win: the search's value is the reply's minimax value, a real score. */
  lemma RootStep(b: Board, player: Player, depth: uint8, col: nat)
    requires Valid(b) && player != None && 0 < depth
    requires Legal(b, col)
    ensures AlphaBeta(MakeMove(b, col, player).1, Below(depth), Int32Min, Int32Max, false, player).value
            == RootScore(b, col, player, depth)
    ensures Int32Min < RootScore(b, col, player, depth)
  {
    var m := MakeMove(b, col, player).1;
    MakeMoveKeepsValid(b, col, player);
    FullWindowIsMinimax(m, Below(depth), false, player);
    MinimaxInScoreRange(m, Below(depth), false, player);
  }

  /** The probes of a valid board are consistent. */
  lemma ProbesConsistent(b: Board, p: Player, depth: uint8)
    requires Valid(b) && p != None && 0 < depth
    ensures Consistent(Probes(b, p, depth))
  {
    var ps := Probes(b, p, depth);
    forall j | 0 <= j < |ps| && ps[j].legal ensures Int32Min < ps[j].score {
      RootStep(b, p, depth, MoveOrder[j]);
    }
  }

  /**
    One column of the root loop on a valid board, in the terms of the
    reference definitions: unplayable columns are skipped, a winning column is
    answered at once, and otherwise the reply's minimax value competes with
    the best so far.
   */
  lemma BestFromStep(b: Board, p: Player, depth: uint8, i: nat, bestMove: int, bestScore: int)
    requires Valid(b) && p != None
    requires 0 < depth && i < |MoveOrder|
    ensures var col := MoveOrder[i];
            var v := RootScore(b, col, p, depth);
            BestFrom(b, p, depth, i, bestMove, bestScore)
            == (if !Legal(b, col) then BestFrom(b, p, depth, i + 1, bestMove, bestScore)
                else if WinsNow(b, col, p) then (col, b)
                else if v > bestScore then BestFrom(b, p, depth, i + 1, col, v)
                else BestFrom(b, p, depth, i + 1, bestMove, bestScore))
  {
    var col := MoveOrder[i];
    if Legal(b, col) {
      var m := MakeMove(b, col, p).1;
      SearchStepRestores(b, col, p, m);
      if !WinsNow(b, col, p) {
        RootStep(b, p, depth, col);
      }
    }
  }

  /** On a valid board the root loop takes exactly the decision `Pick` takes on the board's probes. */
  lemma {:induction false} BestFromIsPick(b: Board, p: Player, depth: uint8, i: nat, best: int, bestScore: int)
    requires Valid(b) && p != None
    requires 0 < depth && i <= |MoveOrder|
    requires -1 <= best < |MoveOrder|
    ensures BestFrom(b, p, depth, i, ColumnOf(best), bestScore).0 == ColumnOf(Pick(Probes(b, p, depth), i, best, bestScore))
    decreases |MoveOrder| - i
  {
    if i < |MoveOrder| {
      var col := MoveOrder[i];
      BestFromStep(b, p, depth, i, ColumnOf(best), bestScore);
      if !Legal(b, col) {
        BestFromIsPick(b, p, depth, i + 1, best, bestScore);
      } else if !WinsNow(b, col, p) {
        BestFromIsPick(b, p, depth, i + 1, i, RootScore(b, col, p, depth));
        BestFromIsPick(b, p, depth, i + 1, best, bestScore);
      }
    }
  }

  /**
    calculateBestMove (with the rejected-move check) on a valid board: the
    board comes back unchanged; the answer is -1 exactly when no column is
    playable, which is exactly when the game is over; otherwise it is the first
    column in centre-out order that wins on the spot, and failing that the
    playable column whose reply scores strictly best, ties going to the earlier
    column.
   */
  lemma CalculateBestMoveSpec(b: Board, p: Player, depth: uint8)
    requires Valid(b) && p != None
    ensures var (move, after) := CalculateBestMove(b, p, depth);
            var ps := Probes(b, p, EffectiveDepth(depth));
            && after == b
            && (move == NoMove <==> forall c :: 0 <= c < Cols ==> !Legal(b, c))
            && (move == NoMove <==> IsGameOver(b))
            && (move != NoMove ==> 0 <= move < Cols && IsValidMove(b, move))
            && (forall k :: FirstWin(ps, k) ==> move == MoveOrder[k])
            && ((forall k :: 0 <= k < |ps| ==> !ps[k].wins) && move != NoMove ==>
                  exists k :: BestAmong(ps, k, |ps|) && move == MoveOrder[k])
  {
    var d := EffectiveDepth(depth);
    var ps := Probes(b, p, d);
    ProbesConsistent(b, p, d);
    BestFromIsPick(b, p, d, 0, -1, Int32Min);
    PickSpec(ps);
    NoPlayableColumn(b, p, d);
  }

  /** No playable column in the order means no playable column at all, which means the game is over. */
  lemma NoPlayableColumn(b: Board, p: Player, depth: uint8)
    requires Valid(b) && p != None && 0 < depth
    ensures var ps := Probes(b, p, depth);
            && ((forall j :: 0 <= j < |ps| ==> !ps[j].legal) <==> forall c :: 0 <= c < Cols ==> !Legal(b, c))
            && ((forall c :: 0 <= c < Cols ==> !Legal(b, c)) <==> IsGameOver(b))
  {
    var ps := Probes(b, p, depth);
    if forall j :: 0 <= j < |ps| ==> !ps[j].legal {
      forall c | 0 <= c < Cols ensures !Legal(b, c) {
        MoveOrderCoversColumns(c);
        var j :| 0 <= j < |MoveOrder| && MoveOrder[j] == c;
        assert !ps[j].legal;
      }
    }
    if b.state == InProgress {
      InProgressHasLegalMove(b);
    }
  }

  // ---------------------------------------------------------------------------
  // The loop as the engine writes it
  // ---------------------------------------------------------------------------

  /**
    The root loop exactly as written: makeMove's answer is ignored, so on a
    finished game the unchanged board is inspected for a winner and then
    undoMove lifts a piece that was never played.
   */
  function BestFromAsWritten(b: Board, player: Player, depth: uint8, i: nat, bestMove: int, bestScore: int): (r: (int, Board))
    requires WellShaped(b)
    requires 0 < depth && i <= |MoveOrder|
    ensures WellShaped(r.1)
    ensures r.0 == bestMove || exists j :: i <= j < |MoveOrder| && r.0 == MoveOrder[j]
    decreases |MoveOrder| - i
  {
    if i == |MoveOrder| then (bestMove, b)
    else
      var col := MoveOrder[i];
      if !IsValidMove(b, col) then BestFromAsWritten(b, player, depth, i + 1, bestMove, bestScore)
      else
        var m := MakeMove(b, col, player).1;
        if HasWinner(m) && m.winner == player then (col, UndoMove(m, col))
        else
          var s := AlphaBeta(m, Below(depth), Int32Min, Int32Max, false, player);
          var back := UndoMove(s.board, col);
          if s.value > bestScore then BestFromAsWritten(back, player, depth, i + 1, col, s.value)
          else BestFromAsWritten(back, player, depth, i + 1, bestMove, bestScore)
  }

  function CalculateBestMoveAsWritten(b: Board, player: Player, depth: uint8): (r: (int, Board))
    requires WellShaped(b)
    ensures r.0 == NoMove || r.0 in MoveOrder
  {
    BestFromAsWritten(b, player, EffectiveDepth(depth), 0, NoMove, Int32Min)
  }

  /**
    One playable column of a game in progress, in both loops: the search hands
    the board back, so the loop goes on with the board it started from.
   */
  lemma LoopsStep(b: Board, p: Player, depth: uint8, i: nat, bestMove: int, bestScore: int)
    requires Valid(b) && b.state == InProgress && p != None
    requires 0 < depth && i < |MoveOrder| && IsValidMove(b, MoveOrder[i])
    ensures var col := MoveOrder[i];
            var m := MakeMove(b, col, p).1;
            var v := AlphaBeta(m, Below(depth), Int32Min, Int32Max, false, p).value;
            && BestFromAsWritten(b, p, depth, i, bestMove, bestScore)
               == (if HasWinner(m) && m.winner == p then (col, UndoMove(m, col))
                   else if v > bestScore then BestFromAsWritten(b, p, depth, i + 1, col, v)
                   else BestFromAsWritten(b, p, depth, i + 1, bestMove, bestScore))
            && BestFrom(b, p, depth, i, bestMove, bestScore)
               == (if HasWinner(m) && m.winner == p then (col, UndoMove(m, col))
                   else if v > bestScore then BestFrom(b, p, depth, i + 1, col, v)
                   else BestFrom(b, p, depth, i + 1, bestMove, bestScore))
  {
    var col := MoveOrder[i];
    var m := MakeMove(b, col, p).1;
    SearchStepRestores(b, col, p, m);
  }

  /** While the game is in progress every valid column is accepted, so the two loops agree. */
  lemma {:induction false} AsWrittenAgreesInProgress(b: Board, p: Player, depth: uint8, i: nat, bestMove: int, bestScore: int)
    requires Valid(b) && b.state == InProgress && p != None
    requires 0 < depth && i <= |MoveOrder|
    ensures BestFromAsWritten(b, p, depth, i, bestMove, bestScore) == BestFrom(b, p, depth, i, bestMove, bestScore)
    decreases |MoveOrder| - i
  {
    if i < |MoveOrder| {
      var col := MoveOrder[i];
      if IsValidMove(b, col) {
        LoopsStep(b, p, depth, i, bestMove, bestScore);
        var v := AlphaBeta(MakeMove(b, col, p).1, Below(depth), Int32Min, Int32Max, false, p).value;
        AsWrittenAgreesInProgress(b, p, depth, i + 1, col, v);
        AsWrittenAgreesInProgress(b, p, depth, i + 1, bestMove, bestScore);
      } else {
        AsWrittenAgreesInProgress(b, p, depth, i + 1, bestMove, bestScore);
      }
    }
  }

  /** On a game in progress calculateBestMove as written gives the corrected driver's answer. */
  lemma CalculateBestMoveAsWrittenInProgress(b: Board, p: Player, depth: uint8)
    requires Valid(b) && b.state == InProgress && p != None
    ensures CalculateBestMoveAsWritten(b, p, depth) == CalculateBestMove(b, p, depth)
  {
    AsWrittenAgreesInProgress(b, p, EffectiveDepth(depth), 0, NoMove, Int32Min);
  }

  /**
    A finished game first won by FIRST: FIRST's four on the bottom row,
    SECOND's three above it, as left by the moves FIRST 0, SECOND 0,
    FIRST 1, SECOND 1, FIRST 2, SECOND 2, FIRST 3.
   */
  function WonBoard(): (b: Board)
    ensures Valid(b) && b.state == FirstWins
  {
    var F, S, N := First, Second, None;
    var b := Board([[F, F, F, F, N, N, N],
                    [S, S, S, N, N, N, N],
                    [N, N, N, N, N, N, N],
                    [N, N, N, N, N, N, N],
                    [N, N, N, N, N, N, N],
                    [N, N, N, N, N, N, N]],
                   [2, 2, 2, 1, 0, 0, 0], 7, FirstWins, First);
    assert SumOf(b.heights) == 7;
    b
  }

  /**
    As written, asked for FIRST's move on that finished game, the loop answers
    column 3, which makeMove refuses, and hands back a board whose column 3
    lost FIRST's winning piece and whose game is back in progress.  The
    corrected driver answers -1 and leaves the board alone.
   */
  lemma AsWrittenCorruptsFinishedGame()
    ensures var b := WonBoard();
            var (move, after) := CalculateBestMoveAsWritten(b, First, 1);
            && move == 3 && !Legal(b, move)
            && after != b && after.state == InProgress && after.grid[0][3] == None
            && CalculateBestMove(b, First, 1) == (NoMove, b)
  {
    var b := WonBoard();
    var m := MakeMove(b, 3, First);
    assert m == (false, b);
    assert IsValidMove(b, 3);
    var after := UndoMove(b, 3);
    assert BestFromAsWritten(b, First, 1, 0, NoMove, Int32Min) == (3, after);
    assert after.grid[0][3] == None;
    CalculateBestMoveSpec(b, First, 1);
  }
}
