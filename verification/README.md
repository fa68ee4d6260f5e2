# Connect Four: board state machine and alpha-beta move search

This project models the core of a Connect Four engine. It covers four parts.

- **The board.** A 6 x 7 grid where row 0 is the bottom. It keeps per-column heights, a `uint8` move counter, the game state and the winner. The operations are reset, makeMove, undoMove, the win check around the last piece, and the cell, height and game-over queries.
- **The static evaluation.** Every one of the 69 four-cell windows is scored from one player's point of view. Pieces in the centre column earn a bonus.
- **The depth-limited minimax search with alpha-beta pruning.** It plays each candidate column in centre-out order `3, 2, 4, 1, 5, 0, 6`, recurses, and undoes the move.
- **The root driver, calculateBestMove.** It takes an immediate win when one exists and otherwise the column with the best search score, keeping the earliest column on ties. It answers -1 when no column can be played.

The model is purely functional. The board is an immutable `Board` value. Every operation that the source applies in place returns the new board instead, so make → search → undo is threaded through explicitly.

Each operation is paired with something independent that it is proved against:

- `CheckWinAt` is the source's run-counting win check. It is proved equivalent to `LineThrough`, which says directly that "four of the player's pieces lie in a line through this cell".
- The alpha-beta search (`AlphaBeta`) is proved to agree with a plain minimax (`Minimax`) within the alpha-beta window. With the full int32 window, the two return the same value.
- The root driver is proved against a declarative description of its answer (`CalculateBestMoveSpec`). That description says the answer is the first immediately winning column, otherwise the strict arg-max of the search scores, otherwise -1 exactly when the game is over.
- makeMove and undoMove are proved to keep the board invariant. undoMove is proved to undo makeMove.

Modules:

| module | file | content |
|---|---|---|
| `Connect4Board` | board.dfy | board datatype, invariant, win check, board operations |
| `BoardLemmas` | board_lemmas.dfy | invariant preservation, undo-after-make, full board iff no valid move |
| `Evaluation` | evaluation.dfy | window scoring, window enumeration, board evaluation |
| `Search` | search.dfy | reference minimax, alpha-beta as written, their equivalence |
| `BestMove` | best_move.dfy | calculateBestMove as written and corrected, its specification |

## Model

| member | source | states |
|---|---|---|
| Connect4Board.Reset | src/Connect4Board.h:74-86 | The fresh board has every cell empty, every column height 0, move count 0, the game in progress and no winner, and it satisfies the board invariant. |
| Connect4Board.IsValidMove | src/Connect4Board.h:88-90 | On a board obeying gravity, a column is playable exactly when it exists and its top cell is empty. |
| Connect4Board.Drop | src/Connect4Board.h:97-100 | The piece lands on top of its column. That column's height grows by one and the move counter by one modulo 256. No other cell changes. |
| Connect4Board.MakeMove | src/Connect4Board.h:92-113 | A move is accepted exactly when the game is in progress and the column is playable. A refused move leaves the board unchanged. An accepted move places the piece on top of the column and leaves every other cell alone. The game then ends in a win for the mover, ends in a draw, or continues, and only a win changes the winner. |
| Connect4Board.MakeMoveOutcome | src/Connect4Board.h:102-110 | After an accepted move, the state becomes the mover's win exactly when four of the mover's pieces line up through the new piece, and the winner is then the mover. Otherwise the game is a draw when 42 or more moves have been counted and still in progress when fewer have. |
| Connect4Board.RayReaches | src/Connect4Board.h:37-39 | A one-directional scan counts k or more cells exactly when the first k cells in that direction hold the player's pieces, for every k. |
| Connect4Board.RayPrefix | src/Connect4Board.h:37-39 | The same for k = 1, 2 and 3, which is all a four through the anchor needs, written with the cell offsets the line definition uses. |
| Connect4Board.RunIffLine | src/Connect4Board.h:35-40 | Counting outwards both ways along one axis reaches 4 exactly when one of the four placements of a four-cell line on that axis through the cell is entirely the player's. |
| Connect4Board.CheckWinAtIsLine | src/Connect4Board.h:33-67 | The four-axis run check succeeds exactly when some horizontal, vertical or diagonal line of four of the player's pieces passes through the cell. |
| Connect4Board.UndoMove | src/Connect4Board.h:115-126 | Undoing a column out of range or an empty column changes nothing. Otherwise it empties exactly the column's top cell, lowers its height by one and the move counter by one modulo 256, puts the game back in progress and clears the winner. |
| Connect4Board.GetCell | src/Connect4Board.h:128-133 | Out-of-range coordinates read as empty and in-range ones read the grid. On a board obeying gravity, a cell is occupied exactly when it lies below its column's height. |
| Connect4Board.GetColumnHeight | src/Connect4Board.h:135-137 | An unknown column has height 0. Heights never exceed 6. On a board obeying gravity, the height is the number of occupied cells in the column. |
| Connect4Board.IsGameOver | src/Connect4Board.h:155-165 | The game is over exactly when someone has won or the game is drawn. On a valid board a win names a real player. |
| BoardLemmas.MakeMoveKeepsValid | src/Connect4Board.h:92-113 | makeMove by a real player keeps the invariant: shape, gravity, move count equal to the number of pieces, and a winner recorded exactly for a won state. |
| BoardLemmas.UndoMoveKeepsGravity | src/Connect4Board.h:119-122 | Lifting a column's top piece leaves every piece resting on the one below. |
| BoardLemmas.UndoMoveKeepsValid | src/Connect4Board.h:115-126 | undoMove keeps the board invariant. |
| BoardLemmas.UndoAfterMake | src/Connect4Board.h:92-126 | Undoing the column just played restores the board exactly: grid, heights, counter, state and winner. |
| BoardLemmas.FullIffNoValidMove | src/Connect4Board.h:151-153 | A valid board has 42 pieces exactly when no column is playable. |
| BoardLemmas.InProgressHasLegalMove | src/Connect4Board.h:108-110 | On a valid board with the game in progress, some column accepts a move, because the game is declared drawn once the board is full. |
| Evaluation.Opponent | src/Connect4AI.cpp:6 | The opponent is a real player different from the given one. |
| Evaluation.TallyOf | src/Connect4AI.cpp:13-18 | The classification loop counts exactly the player's pieces and the opponent's pieces, and the three tallies add up to the window size. |
| Evaluation.EvaluateWindow | src/Connect4AI.cpp:4-37 | A window scores the win bonus exactly when it holds four own pieces. It scores +100 or +10 exactly for three or two own pieces with no opponent piece. It scores -200 or -10 exactly for three or two opponent pieces with no own piece. Four opponent pieces score 0. |
| Evaluation.WindowsEnumerated | src/Connect4AI.cpp:50-100 | The four window loops together visit 69 windows. Every window that fits on the board is among them, every visited window fits, and none is visited twice. |
| Evaluation.WindowScore | src/Connect4AI.cpp:53-59 | One window read through getCell scores between -200 and 100000. |
| Evaluation.WindowsScore | src/Connect4AI.cpp:50-100 | A sum of n window scores lies between -200n and 100000n. |
| Evaluation.CenterCount | src/Connect4AI.cpp:42-48 | The centre-column count from a given row upwards is at most the number of rows left, and 0 once no rows are left (from row 6, above the top row, upwards). |
| Evaluation.EvaluateBoard | src/Connect4AI.cpp:39-103 | The evaluation lies between 69 opponent threats (-13800) and 69 own fours plus a full centre column (6900018). |
| Evaluation.WindowsScoreAtLeastMember | src/Connect4AI.cpp:50-100 | The window sum is at least any single window's score minus the largest possible penalty from every other window. |
| Evaluation.OwnFourDominates | src/Connect4AI.cpp:39-103 | When four of the player's pieces line up anywhere on the board, the evaluation is at least 100000 - 200 * 68, whatever else is on the board. |
| Search.Mover | src/Connect4AI.cpp:120-121 | The side to move is a real player whenever the AI player is. |
| Search.MoveOrderCoversColumns | src/Connect4AI.cpp:127 | The centre-out order lists every column. |
| Search.Minimax | src/Connect4AI.cpp:105-167 | Plain minimax without cut-offs. It uses the same terminal scores, evaluation and move order as the source, and its value always fits in int32. |
| Search.MinimaxFrom | src/Connect4AI.cpp:129-142 | Folding over the remaining columns never lowers the maximiser's best or raises the minimiser's best. An int32 start stays in int32. |
| Search.AlphaBeta | src/Connect4AI.cpp:105-167 | The pruned search as written returns an int32 value. On a valid board for a real player it hands back exactly the board it was given, because every make is undone. |
| Search.AlphaBetaFrom | src/Connect4AI.cpp:123-166 | The column loop with cut-offs is monotone in its running best, stays in int32 and restores the board. |
| Search.SearchStepRestores | src/Connect4AI.cpp:134-136 | Undoing the column after a successful make and a search that restored the child board gives back the parent board, and the child board is valid. |
| Search.AlphaBetaClamped | src/Connect4AI.cpp:105-167 | Alpha-beta agrees with plain minimax up to clamping into the window: Clamp(alphaBeta, alpha, beta) == Clamp(minimax, alpha, beta) whenever alpha < beta. |
| Search.AlphaBetaFromClamped | src/Connect4AI.cpp:123-166 | The same agreement for the column loop from any position in the order, with both running bests on the losing side of the window: at most alpha when maximising, at least beta when minimising. Every state the source's loop reaches meets this. |
| Search.MaxStepClamped | src/Connect4AI.cpp:129-143 | The maximiser's loop step (search, update best and alpha, cut when beta <= alpha) keeps the clamped agreement with minimax. |
| Search.MaxStepUnfold | src/Connect4AI.cpp:129-143 | One unfolding of the maximiser's pruned and unpruned loops, with their child values agreeing up to clamping. |
| Search.MaxRestClamped | src/Connect4AI.cpp:139-143 | When the maximiser does not cut, continuing with the raised alpha keeps the clamped agreement. |
| Search.MinStepClamped | src/Connect4AI.cpp:150-164 | The minimiser's loop step (search, update best and beta, cut when beta <= alpha) keeps the clamped agreement with minimax. |
| Search.MinStepUnfold | src/Connect4AI.cpp:150-164 | One unfolding of the minimiser's pruned and unpruned loops, with their child values agreeing up to clamping. |
| Search.MinRestClamped | src/Connect4AI.cpp:160-164 | When the minimiser does not cut, continuing with the lowered beta keeps the clamped agreement. |
| Search.AlphaBetaStep | src/Connect4AI.cpp:131-143 | One pruned loop iteration searches the child one level shallower for the opponent, then either cuts off or continues with the updated bound. |
| Search.ChildClamped | src/Connect4AI.cpp:135 | A child searched with the current window agrees with the child's plain minimax value up to clamping. |
| Search.MinimaxInScoreRange | src/Connect4AI.cpp:108-118 | Every minimax value lies strictly between the int32 sentinels. Terminal scores are ±(100000 + depth), and leaf evaluations stay inside the evaluation bounds. |
| Search.MinimaxFromInScoreRange | src/Connect4AI.cpp:123-144 | The column loop keeps its running best inside that range once one child has been searched. |
| Search.FullWindowIsMinimax | src/Connect4AI.cpp:191-192 | With the full window [INT32_MIN, INT32_MAX], alpha-beta returns exactly the minimax value and the untouched board. |
| BestMove.EffectiveDepth | src/Connect4AI.cpp:170 | Depth 0 is searched as depth 1, and any other depth is kept. |
| BestMove.WinsNowIsLine | src/Connect4AI.cpp:183-186 | A root column wins on the spot exactly when four of the player's pieces then line up through the new piece. |
| BestMove.Pick | src/Connect4AI.cpp:178-198 | The decision over the columns' outcomes picks the incoming best or a column at or after the current one. |
| BestMove.PickFirstWin | src/Connect4AI.cpp:183-189 | The first winning column in the order is the one chosen. |
| BestMove.PickBest | src/Connect4AI.cpp:191-197 | Without a winning column, the choice has a strictly higher score than every earlier playable column and at least the score of every later one. |
| BestMove.PickNone | src/Connect4AI.cpp:172-198 | The choice is -1 exactly when no column is playable. |
| BestMove.PickSpec | src/Connect4AI.cpp:169-201 | From the initial state (-1, INT32_MIN), the choice is -1 exactly when nothing is playable, any other choice is playable, a winning column takes precedence, and otherwise the choice is the first strict maximum. |
| BestMove.PickLegal | src/Connect4AI.cpp:181 | Any column chosen is a playable one. |
| BestMove.BestFrom | src/Connect4AI.cpp:178-198 | The corrected root loop answers the incoming best or a column from the rest of the order, and on a valid board it hands the board back unchanged. |
| BestMove.CalculateBestMove | src/Connect4AI.cpp:169-201 | The corrected driver answers -1 or a column from the move order, and leaves a valid board unchanged. |
| BestMove.RootStep | src/Connect4AI.cpp:191-192 | The root's full-window search of a column equals that column's minimax score, and the score is above INT32_MIN. |
| BestMove.ProbesConsistent | src/Connect4AI.cpp:191-197 | Every playable column's score is above the INT32_MIN start value, so the first playable column always replaces -1. |
| BestMove.BestFromStep | src/Connect4AI.cpp:179-197 | One iteration of the corrected root loop: a refused column is skipped, a winning column is returned, and any other column updates the best on a strictly higher score. |
| BestMove.BestFromIsPick | src/Connect4AI.cpp:178-198 | The corrected root loop chooses the same column as the decision over the columns' outcomes. |
| BestMove.CalculateBestMoveSpec | src/Connect4AI.h:28-30 | On a valid board for a real player, the board comes back unchanged. The answer is -1 exactly when no column is playable, which is exactly when the game is over; any other answer is a playable column. The first column in centre-out order that wins at once is chosen; failing that, the first column with the strictly best search score. |
| BestMove.NoPlayableColumn | src/Connect4AI.cpp:181 | No playable column in the order means no playable column at all, and that happens exactly when the game is over. |
| BestMove.BestFromAsWritten | src/Connect4AI.cpp:178-198 | The root loop as written, which ignores makeMove's answer, still answers the incoming best or a column from the rest of the order. |
| BestMove.CalculateBestMoveAsWritten | src/Connect4AI.cpp:169-201 | The driver as written answers -1 or a column from the move order. |
| BestMove.LoopsStep | src/Connect4AI.cpp:181-192 | While the game is in progress, one iteration of the loop as written and one of the corrected loop do the same thing. |
| BestMove.AsWrittenAgreesInProgress | src/Connect4AI.cpp:178-198 | While the game is in progress, the loop as written and the corrected loop return the same column and board. |
| BestMove.CalculateBestMoveAsWrittenInProgress | src/Connect4AI.cpp:169-201 | On a valid board whose game is in progress, the driver as written and the corrected driver agree. |
| BestMove.WonBoard | src/Connect4Board.h:92-113 | A board reachable by seven alternating moves in which the first player has won along the bottom row is valid. |
| BestMove.AsWrittenCorruptsFinishedGame | src/Connect4AI.cpp:183-189 | On that finished board, the driver as written answers column 3 even though makeMove refuses it. It also returns a board with the game back in progress and the first player's winning piece removed. The corrected driver answers -1 with the board untouched. |

## Left out

- The game wrapper around the board and the AI, console input and output, and the test programs are not part of this model.
- Move ordering beyond the fixed centre-out order, timing and node counts are left out. Node counts are not observable in the return value.
- Fixed-width integers: the move counter and the search depth are `uint8`, a subset type of the integers. The move counter is the one place the source can wrap, and makeMove and undoMove write it modulo 256. The column heights are `nat`. The board invariant keeps them at most 6, so they never approach the source's `uint8_t` width. Search scores use unbounded integers. The model proves they always lie inside int32 (`Search.MinimaxInScoreRange`, `Evaluation.EvaluateBoard`), so int32 overflow cannot arise and is not modelled.
- getCell takes unsigned coordinates in the source. The model takes integers and treats every coordinate outside the board as empty. Negative values cannot reach it, because the win check and the evaluation only ask about cells they have bounds-checked or that lie within the grid.
- Connect4Board.MakeMove: its own contract states the outcome only as "the mover's win, a draw, or in progress, with the winner changed only by a win". The exact rule (win iff a line of four through the new piece; draw iff at least 42 moves) is stated by `Connect4Board.MakeMoveOutcome`.
- BestMove.CalculateBestMove: its own contract states only that the answer is -1 or a column of the move order and that the board is restored. Which column it picks is stated by `BestMove.CalculateBestMoveSpec`.
- BestMove.BestFrom: its own contract does not claim that the answer is playable, because the recursion threads the board through. Playability is stated for the whole driver by `BestMove.CalculateBestMoveSpec`.
- Search.Minimax: it is a reference definition that the source does not contain. It has the same terminal tests, scores, evaluation and move order, and no pruning.
- The invariant-preservation lemmas and the driver's specification assume a real player (FIRST or SECOND). makeMove with player NONE is modelled as the source writes it (an empty piece is "placed"), but nothing is claimed about the board it produces.
- Inside the search tree, as in the source, a column is skipped only when isValidMove rejects it, and makeMove's result is not consulted. On a valid board every node that reaches the loop is still in progress, so makeMove accepts every playable column there.

## Findings

| source | as written | input that shows it | evidently intended | confidence | as-written member | corrected member |
|---|---|---|---|---|---|---|
| src/Connect4AI.cpp:183-192 | calculateBestMove ignores makeMove's return value. On a finished game every makeMove is refused, yet the loop still tests the unchanged board for a winner and calls undoMove on the column. | The board after FIRST plays columns 0, 1, 2, 3 on the bottom row and SECOND plays columns 0, 1, 2 on the row above (FIRST has won), with calculateBestMove(board, FIRST, 1). It returns column 3, and undoMove(3) removes FIRST's winning piece and puts the game back in progress. | Skip a column whose makeMove is refused. The driver then answers -1 on a finished game and leaves the board untouched, as the header's "-1 if no valid move" promises. | not executed | BestMove.AsWrittenCorruptsFinishedGame | BestMove.CalculateBestMoveSpec |
