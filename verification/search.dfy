/**
  Depth-bounded game-tree search.  `Minimax` is the plain, unpruned reference;
  `AlphaBeta` is the search as the engine runs it: alpha-beta pruning over the
  centre-out column order, on one board that every hypothetical move is made
  on and then undone.  The returned board is the board after the search.
 */
module Search {
  import opened Connect4Board
  import opened Evaluation
  import opened BoardLemmas

  /** Columns from the centre outwards. */
  const MoveOrder: seq<nat> := [3, 2, 4, 1, 5, 0, 6]

  /** INT32_MIN and INT32_MAX: the initial best values and the full search window. */
  const Int32Min: int := -0x8000_0000
  const Int32Max: int := 0x7fff_ffff

  /** Largest depth a uint8 can hold. */
  const Uint8Max: int := 255

  /** Lowest score a search can produce on a valid board: a loss found with the largest depth left. */
  const ScoreFloor: int := -WinScore - Uint8Max

  predicate InInt32(x: int) {
    Int32Min <= x <= Int32Max
  }

  predicate InScoreRange(x: int) {
    ScoreFloor <= x <= EvalCeil
  }

  /** The player to move at a node: the searching player on maximizing nodes. */
  function Mover(maximizing: bool, ai: Player): (p: Player)
    ensures ai != None ==> p != None
  {
    if maximizing then ai else Opponent(ai)
  }

  /** The depth left for the children of a node searched to `depth`. */
  function Below(depth: uint8): (d: uint8)
    requires 0 < depth
    ensures d < depth
  {
    depth - 1
  }

  /** Score of a decided game: wins sooner and losses later are preferred. */
  function OutcomeScore(b: Board, depth: uint8, ai: Player): int {
    if b.winner == ai then WinScore + depth else -WinScore - depth
  }

  /** The clamp of `x` into [lo, hi]: what a search with that window is able to tell about `x`. */
  function Clamp(x: int, lo: int, hi: int): int {
    if x < lo then lo else if x > hi then hi else x
  }

  lemma MoveOrderCoversColumns(c: nat)
    requires c < Cols
    ensures exists j :: 0 <= j < |MoveOrder| && MoveOrder[j] == c
  {
    if c == 0 { assert MoveOrder[5] == c; }
    else if c == 1 { assert MoveOrder[3] == c; }
    else if c == 2 { assert MoveOrder[1] == c; }
    else if c == 3 { assert MoveOrder[0] == c; }
    else if c == 4 { assert MoveOrder[2] == c; }
    else if c == 5 { assert MoveOrder[4] == c; }
    else { assert MoveOrder[6] == c; }
  }

  // ---------------------------------------------------------------------------
  // Reference: minimax without pruning
  // ---------------------------------------------------------------------------

  /** Unpruned minimax with the same terminal checks, leaf evaluation and column order. */
  function Minimax(b: Board, depth: uint8, maximizing: bool, ai: Player): (v: int)
    requires WellShaped(b)
    ensures InInt32(v)
    decreases depth, 1, 0
  {
    if HasWinner(b) then OutcomeScore(b, depth, ai)
    else if IsDraw(b) || depth == 0 then EvaluateBoard(b, ai)
    else MinimaxFrom(b, depth, maximizing, ai, 0, if maximizing then Int32Min else Int32Max)
  }

  /** Best of `best` and the values of the children reached by columns MoveOrder[i..]. */
  function MinimaxFrom(b: Board, depth: uint8, maximizing: bool, ai: Player, i: nat, best: int): (v: int)
    requires WellShaped(b)
    requires 0 < depth && i <= |MoveOrder|
    ensures InInt32(best) ==> InInt32(v)
    ensures maximizing ==> v >= best
    ensures !maximizing ==> v <= best
    decreases depth, 0, |MoveOrder| - i
  {
    if i == |MoveOrder| then best
    else
      var col := MoveOrder[i];
      if !IsValidMove(b, col) then MinimaxFrom(b, depth, maximizing, ai, i + 1, best)
      else
        var v := Minimax(MakeMove(b, col, Mover(maximizing, ai)).1, Below(depth), !maximizing, ai);
        var best' := if maximizing then (if v > best then v else best) else (if v < best then v else best);
        MinimaxFrom(b, depth, maximizing, ai, i + 1, best')
  }

  // ---------------------------------------------------------------------------
  // The engine's search: alpha-beta on one board, make / recurse / undo
  // ---------------------------------------------------------------------------

  datatype Scored = Scored(value: int, board: Board)

  /**
    minimax with alpha-beta pruning.  The score fits the engine's int32, and on
    a valid board the search hands the board back exactly as it found it.
   */
  function AlphaBeta(b: Board, depth: uint8, alpha: int, beta: int, maximizing: bool, ai: Player): (r: Scored)
    requires WellShaped(b)
    ensures WellShaped(r.board)
    ensures InInt32(r.value)
    ensures Valid(b) && ai != None ==> r.board == b
    decreases depth, 1, 0
  {
    if HasWinner(b) then Scored(OutcomeScore(b, depth, ai), b)
    else if IsDraw(b) || depth == 0 then Scored(EvaluateBoard(b, ai), b)
    else AlphaBetaFrom(b, depth, alpha, beta, maximizing, ai, 0, if maximizing then Int32Min else Int32Max)
  }

  /** One make / search / undo step restores a valid board in progress. */
  lemma SearchStepRestores(b: Board, col: nat, p: Player, searched: Board)
    requires Valid(b) && b.state == InProgress && p != None
    requires IsValidMove(b, col)
    requires searched == MakeMove(b, col, p).1
    ensures Valid(searched)
    ensures UndoMove(searched, col) == b
  {
    MakeMoveKeepsValid(b, col, p);
    UndoAfterMake(b, col, p);
  }

  /** The column loop of minimax from MoveOrder[i] on, with the window and best value so far. */
  function AlphaBetaFrom(b: Board, depth: uint8, alpha: int, beta: int, maximizing: bool, ai: Player,
                         i: nat, best: int): (r: Scored)
    requires WellShaped(b)
    requires 0 < depth && i <= |MoveOrder|
    ensures WellShaped(r.board)
    ensures InInt32(best) ==> InInt32(r.value)
    ensures maximizing ==> r.value >= best
    ensures !maximizing ==> r.value <= best
    ensures Valid(b) && b.state == InProgress && ai != None ==> r.board == b
    decreases depth, 0, |MoveOrder| - i
  {
    if i == |MoveOrder| then Scored(best, b)
    else
      var col := MoveOrder[i];
      if !IsValidMove(b, col) then AlphaBetaFrom(b, depth, alpha, beta, maximizing, ai, i + 1, best)
      else
        var child := MakeMove(b, col, Mover(maximizing, ai)).1;
        var s := AlphaBeta(child, Below(depth), alpha, beta, !maximizing, ai);
        var back := UndoMove(s.board, col);
        assert Valid(b) && b.state == InProgress && ai != None ==> back == b by {
          if Valid(b) && b.state == InProgress && ai != None {
            SearchStepRestores(b, col, Mover(maximizing, ai), child);
          }
        }
        if maximizing then
          var best' := if s.value > best then s.value else best;
          var alpha' := if alpha > s.value then alpha else s.value;
          if beta <= alpha' then Scored(best', back)
          else AlphaBetaFrom(back, depth, alpha', beta, true, ai, i + 1, best')
        else
          var best' := if s.value < best then s.value else best;
          var beta' := if beta < s.value then beta else s.value;
          if beta' <= alpha then Scored(best', back)
          else AlphaBetaFrom(back, depth, alpha, beta', false, ai, i + 1, best')
  }

  // ---------------------------------------------------------------------------
  // Pruning never changes the answer
  // ---------------------------------------------------------------------------

  /**
    Alpha-beta is exact inside its window: clamped to [alpha, beta], its value
    is the unpruned minimax value clamped the same way.
   */
  lemma {:induction false} AlphaBetaClamped(b: Board, depth: uint8, alpha: int, beta: int, maximizing: bool, ai: Player)
    requires Valid(b) && ai != None
    requires Int32Min <= alpha < beta <= Int32Max
    ensures Clamp(AlphaBeta(b, depth, alpha, beta, maximizing, ai).value, alpha, beta)
         == Clamp(Minimax(b, depth, maximizing, ai), alpha, beta)
    decreases depth, 1, 0
  {
    if !HasWinner(b) && !IsDraw(b) && depth != 0 {
      if maximizing {
        AlphaBetaFromClamped(b, depth, alpha, beta, true, ai, 0, Int32Min, Int32Min);
      } else {
        AlphaBetaFromClamped(b, depth, alpha, beta, false, ai, 0, Int32Max, Int32Max);
      }
    }
  }

  /**
    The column loop: while no cut-off has happened the best values of both
    searches lie on the losing side of the window, and from there the two loops
    end with the same clamped value.
   */
  lemma {:induction false} AlphaBetaFromClamped(b: Board, depth: uint8, alpha: int, beta: int, maximizing: bool,
                                                ai: Player, i: nat, pruned: int, plain: int)
    requires Valid(b) && b.state == InProgress && ai != None
    requires 0 < depth && i <= |MoveOrder|
    requires Int32Min <= alpha < beta <= Int32Max
    requires maximizing ==> pruned <= alpha && plain <= alpha
    requires !maximizing ==> pruned >= beta && plain >= beta
    ensures Clamp(AlphaBetaFrom(b, depth, alpha, beta, maximizing, ai, i, pruned).value, alpha, beta)
         == Clamp(MinimaxFrom(b, depth, maximizing, ai, i, plain), alpha, beta)
    decreases depth, 0, |MoveOrder| - i, 3
  {
    if i < |MoveOrder| {
      if !IsValidMove(b, MoveOrder[i]) {
        AlphaBetaFromClamped(b, depth, alpha, beta, maximizing, ai, i + 1, pruned, plain);
      } else if maximizing {
        MaxStepClamped(b, depth, alpha, beta, ai, i, pruned, plain);
      } else {
        MinStepClamped(b, depth, alpha, beta, ai, i, pruned, plain);
      }
    }
  }

  /** One column of a maximizing node: the child agrees inside the window, then a cut-off or the rest of the loop. */
  lemma {:induction false} MaxStepClamped(b: Board, depth: uint8, alpha: int, beta: int, ai: Player,
                                          i: nat, pruned: int, plain: int)
    requires Valid(b) && b.state == InProgress && ai != None
    requires 0 < depth && i < |MoveOrder| && IsValidMove(b, MoveOrder[i])
    requires Int32Min <= alpha < beta <= Int32Max
    requires pruned <= alpha && plain <= alpha
    ensures Clamp(AlphaBetaFrom(b, depth, alpha, beta, true, ai, i, pruned).value, alpha, beta)
         == Clamp(MinimaxFrom(b, depth, true, ai, i, plain), alpha, beta)
    decreases depth, 0, |MoveOrder| - i, 2
  {
    var r, w := MaxStepUnfold(b, depth, alpha, beta, ai, i, pruned, plain);
    if beta <= (if alpha > r then alpha else r) {
      MaxCutArith(alpha, beta, r, w, pruned, plain, MinimaxFrom(b, depth, true, ai, i + 1, if w > plain then w else plain));
    } else {
      MaxRestClamped(b, depth, alpha, beta, ai, i, r, w, pruned, plain);
    }
  }

  /**
    One step of both maximizing loops: the child at column MoveOrder[i] has
    alpha-beta value `r` and minimax value `w`, which agree inside the window.
   */
  lemma MaxStepUnfold(b: Board, depth: uint8, alpha: int, beta: int, ai: Player, i: nat, pruned: int, plain: int)
    returns (r: int, w: int)
    requires Valid(b) && b.state == InProgress && ai != None
    requires 0 < depth && i < |MoveOrder| && IsValidMove(b, MoveOrder[i])
    requires Int32Min <= alpha < beta <= Int32Max
    ensures Clamp(r, alpha, beta) == Clamp(w, alpha, beta)
    ensures MinimaxFrom(b, depth, true, ai, i, plain)
            == MinimaxFrom(b, depth, true, ai, i + 1, if w > plain then w else plain)
            >= (if w > plain then w else plain)
    ensures AlphaBetaFrom(b, depth, alpha, beta, true, ai, i, pruned)
            == if beta <= (if alpha > r then alpha else r) then Scored(if r > pruned then r else pruned, b)
               else AlphaBetaFrom(b, depth, if alpha > r then alpha else r, beta, true, ai, i + 1,
                                  if r > pruned then r else pruned)
    decreases depth, 0, |MoveOrder| - i, 1
  {
    r := AlphaBetaStep(b, depth, alpha, beta, true, ai, i, pruned);
    w := MinimaxStep(b, depth, true, ai, i, plain);
    ChildClamped(b, Below(depth), alpha, beta, true, ai, i, r, w);
  }

  /** A maximizing loop that did not cut off after child `i` (value `r`, reference value `w`). */
  lemma {:induction false} MaxRestClamped(b: Board, depth: uint8, alpha: int, beta: int, ai: Player,
                                          i: nat, r: int, w: int, pruned: int, plain: int)
    requires Valid(b) && b.state == InProgress && ai != None
    requires 0 < depth && i < |MoveOrder|
    requires Int32Min <= alpha < beta <= Int32Max
    requires pruned <= alpha && plain <= alpha
    requires Clamp(r, alpha, beta) == Clamp(w, alpha, beta)
    requires (if alpha > r then alpha else r) < beta
    ensures Clamp(AlphaBetaFrom(b, depth, if alpha > r then alpha else r, beta, true, ai, i + 1,
                                if r > pruned then r else pruned).value, alpha, beta)
         == Clamp(MinimaxFrom(b, depth, true, ai, i + 1, if w > plain then w else plain), alpha, beta)
    decreases depth, 0, |MoveOrder| - i, 0
  {
    var alpha' := if alpha > r then alpha else r;
    var pruned' := if r > pruned then r else pruned;
    var plain' := if w > plain then w else plain;
    MaxRestArith(alpha, beta, r, w, pruned, plain);
    AlphaBetaFromClamped(b, depth, alpha', beta, true, ai, i + 1, pruned', plain');
    MaxContinueArith(alpha, alpha', beta, r, w, AlphaBetaFrom(b, depth, alpha', beta, true, ai, i + 1, pruned').value,
                     MinimaxFrom(b, depth, true, ai, i + 1, plain'));
  }

  /** One column of a minimizing node, the mirror image of `MaxStepClamped`. */
  lemma {:induction false} MinStepClamped(b: Board, depth: uint8, alpha: int, beta: int, ai: Player,
                                          i: nat, pruned: int, plain: int)
    requires Valid(b) && b.state == InProgress && ai != None
    requires 0 < depth && i < |MoveOrder| && IsValidMove(b, MoveOrder[i])
    requires Int32Min <= alpha < beta <= Int32Max
    requires pruned >= beta && plain >= beta
    ensures Clamp(AlphaBetaFrom(b, depth, alpha, beta, false, ai, i, pruned).value, alpha, beta)
         == Clamp(MinimaxFrom(b, depth, false, ai, i, plain), alpha, beta)
    decreases depth, 0, |MoveOrder| - i, 2
  {
    var r, w := MinStepUnfold(b, depth, alpha, beta, ai, i, pruned, plain);
    if (if beta < r then beta else r) <= alpha {
      MinCutArith(alpha, beta, r, w, pruned, plain, MinimaxFrom(b, depth, false, ai, i + 1, if w < plain then w else plain));
    } else {
      MinRestClamped(b, depth, alpha, beta, ai, i, r, w, pruned, plain);
    }
  }

  /** One step of both minimizing loops, the mirror image of `MaxStepUnfold`. */
  lemma MinStepUnfold(b: Board, depth: uint8, alpha: int, beta: int, ai: Player, i: nat, pruned: int, plain: int)
    returns (r: int, w: int)
    requires Valid(b) && b.state == InProgress && ai != None
    requires 0 < depth && i < |MoveOrder| && IsValidMove(b, MoveOrder[i])
    requires Int32Min <= alpha < beta <= Int32Max
    ensures Clamp(r, alpha, beta) == Clamp(w, alpha, beta)
    ensures MinimaxFrom(b, depth, false, ai, i, plain)
            == MinimaxFrom(b, depth, false, ai, i + 1, if w < plain then w else plain)
            <= (if w < plain then w else plain)
    ensures AlphaBetaFrom(b, depth, alpha, beta, false, ai, i, pruned)
            == if (if beta < r then beta else r) <= alpha then Scored(if r < pruned then r else pruned, b)
               else AlphaBetaFrom(b, depth, alpha, if beta < r then beta else r, false, ai, i + 1,
                                  if r < pruned then r else pruned)
    decreases depth, 0, |MoveOrder| - i, 1
  {
    r := AlphaBetaStep(b, depth, alpha, beta, false, ai, i, pruned);
    w := MinimaxStep(b, depth, false, ai, i, plain);
    ChildClamped(b, Below(depth), alpha, beta, false, ai, i, r, w);
  }

  /** The column loop of alpha-beta at a playable column: the child's value `r`, then a cut-off or the next column. */
  lemma AlphaBetaStep(b: Board, depth: uint8, alpha: int, beta: int, maximizing: bool, ai: Player, i: nat, best: int)
    returns (r: int)
    requires Valid(b) && b.state == InProgress && ai != None
    requires 0 < depth && i < |MoveOrder| && IsValidMove(b, MoveOrder[i])
    ensures r == AlphaBeta(MakeMove(b, MoveOrder[i], Mover(maximizing, ai)).1, Below(depth), alpha, beta, !maximizing, ai).value
    ensures maximizing ==>
              AlphaBetaFrom(b, depth, alpha, beta, true, ai, i, best)
              == if beta <= (if alpha > r then alpha else r) then Scored(if r > best then r else best, b)
                 else AlphaBetaFrom(b, depth, if alpha > r then alpha else r, beta, true, ai, i + 1,
                                    if r > best then r else best)
    ensures !maximizing ==>
              AlphaBetaFrom(b, depth, alpha, beta, false, ai, i, best)
              == if (if beta < r then beta else r) <= alpha then Scored(if r < best then r else best, b)
                 else AlphaBetaFrom(b, depth, alpha, if beta < r then beta else r, false, ai, i + 1,
                                    if r < best then r else best)
  {
    var child := MakeMove(b, MoveOrder[i], Mover(maximizing, ai)).1;
    SearchStepRestores(b, MoveOrder[i], Mover(maximizing, ai), child);
    r := AlphaBeta(child, Below(depth), alpha, beta, !maximizing, ai).value;
  }

  /** The column loop of minimax at a playable column: the child's value `w` joins the best so far. */
  lemma MinimaxStep(b: Board, depth: uint8, maximizing: bool, ai: Player, i: nat, best: int) returns (w: int)
    requires Valid(b) && b.state == InProgress && ai != None
    requires 0 < depth && i < |MoveOrder| && IsValidMove(b, MoveOrder[i])
    ensures w == Minimax(MakeMove(b, MoveOrder[i], Mover(maximizing, ai)).1, Below(depth), !maximizing, ai)
    ensures maximizing ==>
              MinimaxFrom(b, depth, true, ai, i, best)
              == MinimaxFrom(b, depth, true, ai, i + 1, if w > best then w else best)
              >= (if w > best then w else best)
    ensures !maximizing ==>
              MinimaxFrom(b, depth, false, ai, i, best)
              == MinimaxFrom(b, depth, false, ai, i + 1, if w < best then w else best)
              <= (if w < best then w else best)
  {
    w := Minimax(MakeMove(b, MoveOrder[i], Mover(maximizing, ai)).1, Below(depth), !maximizing, ai);
  }

  /** A minimizing loop that did not cut off after child `i`. */
  lemma {:induction false} MinRestClamped(b: Board, depth: uint8, alpha: int, beta: int, ai: Player,
                                          i: nat, r: int, w: int, pruned: int, plain: int)
    requires Valid(b) && b.state == InProgress && ai != None
    requires 0 < depth && i < |MoveOrder|
    requires Int32Min <= alpha < beta <= Int32Max
    requires pruned >= beta && plain >= beta
    requires Clamp(r, alpha, beta) == Clamp(w, alpha, beta)
    requires alpha < (if beta < r then beta else r)
    ensures Clamp(AlphaBetaFrom(b, depth, alpha, if beta < r then beta else r, false, ai, i + 1,
                                if r < pruned then r else pruned).value, alpha, beta)
         == Clamp(MinimaxFrom(b, depth, false, ai, i + 1, if w < plain then w else plain), alpha, beta)
    decreases depth, 0, |MoveOrder| - i, 0
  {
    var beta' := if beta < r then beta else r;
    var pruned' := if r < pruned then r else pruned;
    var plain' := if w < plain then w else plain;
    MinRestArith(alpha, beta, r, w, pruned, plain);
    AlphaBetaFromClamped(b, depth, alpha, beta', false, ai, i + 1, pruned', plain');
    MinContinueArith(alpha, beta, beta', r, w, AlphaBetaFrom(b, depth, alpha, beta', false, ai, i + 1, pruned').value,
                     MinimaxFrom(b, depth, false, ai, i + 1, plain'));
  }

  /** A child searched with the node's window agrees with its minimax value inside that window. */
  lemma ChildClamped(b: Board, d: uint8, alpha: int, beta: int, maximizing: bool, ai: Player, i: nat, r: int, w: int)
    requires Valid(b) && b.state == InProgress && ai != None
    requires i < |MoveOrder| && IsValidMove(b, MoveOrder[i])
    requires Int32Min <= alpha < beta <= Int32Max
    requires r == AlphaBeta(MakeMove(b, MoveOrder[i], Mover(maximizing, ai)).1, d, alpha, beta, !maximizing, ai).value
    requires w == Minimax(MakeMove(b, MoveOrder[i], Mover(maximizing, ai)).1, d, !maximizing, ai)
    ensures Clamp(r, alpha, beta) == Clamp(w, alpha, beta)
    decreases d, 2, 0
  {
    var child := MakeMove(b, MoveOrder[i], Mover(maximizing, ai)).1;
    SearchStepRestores(b, MoveOrder[i], Mover(maximizing, ai), child);
    AlphaBetaClamped(child, d, alpha, beta, !maximizing, ai);
  }

  /**
    A cut-off at a maximizing node: the child's value reached beta, so both
    loops end at or above beta.
   */
  lemma MaxCutArith(alpha: int, beta: int, r: int, w: int, pruned: int, plain: int, rest: int)
    requires alpha < beta && pruned <= alpha && plain <= alpha
    requires Clamp(r, alpha, beta) == Clamp(w, alpha, beta)
    requires beta <= (if alpha > r then alpha else r)
    requires rest >= (if w > plain then w else plain)
    ensures Clamp(if r > pruned then r else pruned, alpha, beta) == Clamp(rest, alpha, beta)
  {
  }

  /** A cut-off at a minimizing node: the child's value fell to alpha, so both loops end at or below alpha. */
  lemma MinCutArith(alpha: int, beta: int, r: int, w: int, pruned: int, plain: int, rest: int)
    requires alpha < beta && pruned >= beta && plain >= beta
    requires Clamp(r, alpha, beta) == Clamp(w, alpha, beta)
    requires (if beta < r then beta else r) <= alpha
    requires rest <= (if w < plain then w else plain)
    ensures Clamp(if r < pruned then r else pruned, alpha, beta) == Clamp(rest, alpha, beta)
  {
  }

  /** Without a cut-off at a maximizing node both best values stay at or below the raised alpha. */
  lemma MaxRestArith(alpha: int, beta: int, r: int, w: int, pruned: int, plain: int)
    requires alpha < beta && pruned <= alpha && plain <= alpha
    requires Clamp(r, alpha, beta) == Clamp(w, alpha, beta)
    requires (if alpha > r then alpha else r) < beta
    ensures (if r > pruned then r else pruned) <= (if alpha > r then alpha else r)
    ensures (if w > plain then w else plain) <= (if alpha > r then alpha else r)
  {
  }

  /** Without a cut-off at a minimizing node both best values stay at or above the lowered beta. */
  lemma MinRestArith(alpha: int, beta: int, r: int, w: int, pruned: int, plain: int)
    requires alpha < beta && pruned >= beta && plain >= beta
    requires Clamp(r, alpha, beta) == Clamp(w, alpha, beta)
    requires alpha < (if beta < r then beta else r)
    ensures (if r < pruned then r else pruned) >= (if beta < r then beta else r)
    ensures (if w < plain then w else plain) >= (if beta < r then beta else r)
  {
  }

  /** No cut-off at a maximizing node: agreement in the raised window gives agreement in the old one. */
  lemma MaxContinueArith(alpha: int, alpha': int, beta: int, r: int, w: int, out: int, rest: int)
    requires alpha < beta && alpha' == (if alpha > r then alpha else r) && alpha' < beta
    requires Clamp(r, alpha, beta) == Clamp(w, alpha, beta)
    requires out >= r && rest >= w
    requires Clamp(out, alpha', beta) == Clamp(rest, alpha', beta)
    ensures Clamp(out, alpha, beta) == Clamp(rest, alpha, beta)
  {
  }

  /** No cut-off at a minimizing node: agreement in the lowered window gives agreement in the old one. */
  lemma MinContinueArith(alpha: int, beta: int, beta': int, r: int, w: int, out: int, rest: int)
    requires alpha < beta && beta' == (if beta < r then beta else r) && alpha < beta'
    requires Clamp(r, alpha, beta) == Clamp(w, alpha, beta)
    requires out <= r && rest <= w
    requires Clamp(out, alpha, beta') == Clamp(rest, alpha, beta')
    ensures Clamp(out, alpha, beta) == Clamp(rest, alpha, beta)
  {
  }

  /** On a valid board every minimax value is a real score, never an INT32 sentinel. */
  lemma {:induction false} MinimaxInScoreRange(b: Board, depth: uint8, maximizing: bool, ai: Player)
    requires Valid(b) && ai != None
    ensures InScoreRange(Minimax(b, depth, maximizing, ai))
    decreases depth, 1, 0
  {
    if !HasWinner(b) && !IsDraw(b) && depth != 0 {
      InProgressHasLegalMove(b);
      var c :| 0 <= c < Cols && Legal(b, c);
      MoveOrderCoversColumns(c);
      MinimaxFromInScoreRange(b, depth, maximizing, ai, 0, if maximizing then Int32Min else Int32Max);
    }
  }

  lemma {:induction false} MinimaxFromInScoreRange(b: Board, depth: uint8, maximizing: bool, ai: Player,
                                                   i: nat, best: int)
    requires Valid(b) && b.state == InProgress && ai != None
    requires 0 < depth && i <= |MoveOrder|
    requires || InScoreRange(best)
             || (&& best == (if maximizing then Int32Min else Int32Max)
                 && exists j :: i <= j < |MoveOrder| && IsValidMove(b, MoveOrder[j]))
    ensures InScoreRange(MinimaxFrom(b, depth, maximizing, ai, i, best))
    decreases depth, 0, |MoveOrder| - i
  {
    if i < |MoveOrder| {
      var col := MoveOrder[i];
      if IsValidMove(b, col) {
        var child := MakeMove(b, col, Mover(maximizing, ai)).1;
        MakeMoveKeepsValid(b, col, Mover(maximizing, ai));
        MinimaxInScoreRange(child, Below(depth), !maximizing, ai);
      }
      MinimaxFromInScoreRange(b, depth, maximizing, ai, i + 1,
        if !IsValidMove(b, col) then best
        else
          var v := Minimax(MakeMove(b, col, Mover(maximizing, ai)).1, Below(depth), !maximizing, ai);
          if maximizing then (if v > best then v else best) else (if v < best then v else best));
    }
  }

  /**
    With the full window (INT32_MIN, INT32_MAX) that the root search uses,
    alpha-beta returns exactly the unpruned minimax value, and leaves the board
    as it found it.
   */
  lemma FullWindowIsMinimax(b: Board, depth: uint8, maximizing: bool, ai: Player)
    requires Valid(b) && ai != None
    ensures AlphaBeta(b, depth, Int32Min, Int32Max, maximizing, ai).value == Minimax(b, depth, maximizing, ai)
    ensures AlphaBeta(b, depth, Int32Min, Int32Max, maximizing, ai).board == b
  {
    AlphaBetaClamped(b, depth, Int32Min, Int32Max, maximizing, ai);
  }
}
