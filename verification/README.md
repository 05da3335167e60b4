# Chess AI controller: search, evaluation and opening book

A Dafny model of `AIController`, the computer player of a two-player chess
game. Once per turn it either answers from an opening book or picks a move
by depth-bounded minimax with alpha-beta pruning over a static evaluator.
The model is functional. The board is an immutable value. The move
generator and the board's `move`/`undo` are function-valued parameters
(`AlphaBeta.Rules`). The only thing assumed of them is that `undo` reverses
`move` (`AlphaBeta.Reversible`). The search threads the board through every
`move`/`undo` pair, so the claim that it leaves the board as it found it is
proved rather than built in.

Modules:
- `Chess` defines sides, moves, the 64-square board and the 32-bit `IntMin`/`IntMax`.
- `Evaluator` models `evaluateBoard`: material plus piece-square bonuses. It also gives a
  per-square reference sum and a 32-bit range bound.
- `AlphaBeta` models `minimax` as written, `isGameOver`, and the unpruned minimax value
  `GameValue` it is proved against.
- `Book` holds the opening-book tree, `std::find` on its key, and reachability of the cursor.
- `Controller` holds the controller state, the constructor, `turnReady`, `playTurn`,
  `playByBook`, and the root move selection.
- `ForcedLoss` is a concrete line of play that exhibits the finding below.

Behaviour of the code that the model keeps:
- With no moves, `minimax` returns `IntMin` (maximising) or `IntMax` (minimising).
  It does not return a static evaluation. Setting `depth = 1` has no effect, because
  the loops do not run.
- Pruning is fail-soft: the running best is returned, not the bound.
- The code reads fourteen piece-square tables: five per side, plus two King tables per side.
- A nonzero piece whose type bits match no `case` adds the previous piece's value again.
  The `switch` has no `default`, and `pieceValue` outlives the loop body.
  `Evaluator.Scan` keeps this behaviour.
- The sentinel comes back even when legal moves exist (see Findings).

## Model

| member | source | states |
|---|---|---|
| `Evaluator.Occupied` | src/Controllers/AIController.cpp:177-180 | The occupied-square count is at most 64. It is zero exactly when every square is empty. |
| `Evaluator.ScanIsMaterial` | src/Controllers/AIController.cpp:181-223 | On a board whose pieces all decode, the scan from any square adds the per-square contributions of the rest to the running score. The leftover `pieceValue` plays no part. |
| `Evaluator.EvaluateIsMaterial` | src/Controllers/AIController.cpp:172-225 | On a well-formed board the score is the sum over squares: 0 for empty, `+(base + whiteTable[x])` for White, `-(base + blackTable[x])` for Black, with bases 100/320/330/500/900/2000. Kings read the endgame table exactly when fewer than 6 squares are occupied, and the midgame table otherwise. |
| `Evaluator.EmptyBoardScoresZero` | src/Controllers/AIController.cpp:181-182 | An all-empty board scores 0. |
| `Evaluator.EvaluateInRange` | src/Controllers/AIController.cpp:175-224 | If table entries are within ±30,000,000, the score lies strictly between `INT_MIN` and `INT_MAX`. |
| `AlphaBeta.Flatten` | src/Controllers/AIController.cpp:129-130 | The generation-order move list is empty exactly when every per-piece list is empty. |
| `AlphaBeta.IsGameOver` | src/Controllers/AIController.cpp:55-60 | True exactly when every inner move list is empty. An empty outer list counts as game over. |
| `AlphaBeta.Minimax` | src/Controllers/AIController.cpp:115-163 | At depth 0 it returns the static evaluation. At depth 1 or more with no generated moves, it returns `INT_MIN` when maximising and `INT_MAX` when minimising, not an evaluation. In both cases the board is unchanged. |
| `AlphaBeta.MinimaxFailSoft` | src/Controllers/AIController.cpp:115-163 | Take any window `INT_MIN <= alpha < beta <= INT_MAX` and let v be the unpruned minimax value. If `v <= alpha`, the result r satisfies `v <= r <= alpha`. If `v >= beta`, then `beta <= r <= v`. Strictly inside the window, `r == v`. Every `move` is undone, so the board is returned unchanged. |
| `AlphaBeta.MaxLoopFailSoft` | src/Controllers/AIController.cpp:127-143 | The maximising loop keeps the fail-soft bound against the max over the children's values, and restores the board, including when it cuts off at `beta <= alpha`. |
| `AlphaBeta.MinLoopFailSoft` | src/Controllers/AIController.cpp:145-162 | The minimising loop keeps the fail-soft bound against the min over the children's values, and restores the board, including when it cuts off. |
| `AlphaBeta.FullWindowIsExact` | src/Controllers/AIController.cpp:43 | With the full window `(INT_MIN, INT_MAX)` that `playTurn` passes, the search returns exactly the unpruned minimax value and the unchanged board. |
| `Controller.PickBestKeepsUnbeaten` | src/Controllers/AIController.cpp:46-49 | If no value strictly improves on the running best, the running best is kept. |
| `Controller.PickBestIsFirstBest` | src/Controllers/AIController.cpp:40-51 | If some value strictly improves on the running best, keeping only strictly better values ends on the first best value. It is strictly better than all earlier ones and not beaten by any later one. |
| `Controller.RootLoopIsPickBest` | src/Controllers/AIController.cpp:40-51 | The candidate loop, which makes each move, searches it, undoes it and compares, decides exactly as the same comparisons over the unpruned minimax values of the candidates. |
| `Controller.RootLoopRestores` | src/Controllers/AIController.cpp:42-44 | Each candidate's `move` is paired with one `undo`, so the candidate loop leaves the board as it found it. |
| `Controller.RootSearchPicksFirstBest` | src/Controllers/AIController.cpp:30-52 | The search result restores the board. If no candidate's unpruned value is strictly better than `INT_MIN` (White) or `INT_MAX` (Black), the result is the sentinel `{-1,-1,-1,-1,PawnVal}`. Otherwise it is a generated move: the first in generation order with the best value for the AI's side, and that value beats the seed. |
| `Controller.RootSearchFixedPicksFirstBest` | src/Controllers/AIController.cpp:33-51 | The corrected selection returns the sentinel when no move is generated. Otherwise it returns a generated move, the first best candidate, even when its value equals the seed. It restores the board. |
| `Controller.Init` | src/Controllers/AIController.cpp:4-9 | The controller starts with the book on, the cursor at the book's root, and `m_depth == m_difficulty == difficulty`. |
| `Controller.TurnReady` | src/Controllers/AIController.cpp:11-14 | The AI is always ready to play. |
| `Controller.PlayTurn` | src/Controllers/AIController.cpp:19-53 | A turn keeps the side and the difficulty. `m_useBook` never goes from false to true. With the book off, the cursor does not move. |
| `Controller.PlayByBook` | src/Controllers/AIController.cpp:68-98 | A book probe keeps the side and the difficulty. |
| `Controller.SearchWhenBookOff` | src/Controllers/AIController.cpp:21-53 | With the book off, the turn is the root search on the current board, with `m_depth` reset to the difficulty. |
| `Controller.BookOpening` | src/Controllers/AIController.cpp:70-77 | On the game's first move (last move start = -1), the move is `(start, target)` of a node of the cursor. The cursor advances to that node's children, the book stays on, and nothing is searched. |
| `Controller.BookReply` | src/Controllers/AIController.cpp:79-97 | When the opponent's last move matches `(start, target, opponent)` at a node that has children, the move is one of those children. The cursor advances to that child's children, the book stays on, and nothing is searched. |
| `Controller.BookExhausted` | src/Controllers/AIController.cpp:88-93 | A match with no children makes the probe return `{-1,-1}` and switches the book off. The turn is then played by search. |
| `Controller.BookMiss` | src/Controllers/AIController.cpp:81-86 | A miss switches the book off and the turn returns the search result. If that result is the sentinel, `playTurn` searches again on the restored board and gets the same move. |
| `Controller.PlayTurnRestoresBoard` | src/Controllers/AIController.cpp:42-44 | Whichever path a turn takes, the board after it equals the board before it. |
| `Controller.CursorStaysInBook` | src/Controllers/AIController.cpp:75-96 | The cursor is always the book's root list or the children of some book node. Every step goes into a child's children. |
| `Book.FindMatch` | src/Controllers/AIController.cpp:80-82 | The lookup finds nothing exactly when no node has the key `(start, target, color)`. Otherwise it returns the first matching index. Children are never compared. |
| `Book.ReachableStep` | src/Controllers/AIController.cpp:75-96 | Stepping from a reachable cursor into a node's children stays reachable. |
| `ForcedLoss.SentinelDespiteLegalMove` | src/Controllers/AIController.cpp:38-52 | In a concrete line where White has one legal move, the as-written search at difficulty 3 returns the sentinel. The corrected selection returns that move. |

## Left out

- `srand(time(NULL))` and `rand()`: the random number is the parameter `r`, and the chosen index is `r % size` as in the source. On the first-move path an empty cursor would divide by zero; `Controller.Playable` requires a non-empty cursor there.
- The board's internals (`NBoard`) and the move generator (`IGenerate`) are not part of this model. They are the parameters `generate`, `move` and `undo`, with the one assumption that `undo(move(b, m)) == b`. Chess legality, castling and promotion are not modelled.
- The piece encoding (`PawnVal`…`KingVal`, the `White` bit) and the contents of the fourteen tables are in headers that are not part of this model. They are the parameter `Evaluator.Params`. The type code is read as the low three bits, and colour as a single `White` bit. The model assumes that the side enumeration (`WHITE`/`BLACK`) and the piece colour bits (`White`/`Black`) in `playByBook`'s enemy-colour test denote the same side.
- 32-bit overflow: minimax values are mathematical integers. `Evaluator.EvaluateInRange` shows that the evaluator stays in range for tables within ±30,000,000. No evaluation can then reach `INT_MIN`/`INT_MAX`.
- `AlphaBeta.FullWindowIsExact`: assumes table entries within ±30,000,000 (`Bounded`). Without a bound, an evaluation below `INT_MIN` would make the full window no longer exact.
- `Controller.RootSearchPicksFirstBest`: assumes the same table bound, for the same reason.
- `Controller.RootLoopIsPickBest`: assumes the same table bound, for the same reason.
- `Controller.RootSearchFixedPicksFirstBest`: assumes the same table bound, for the same reason.
- `Evaluator.EvaluateIsMaterial`: stated only for boards whose every occupied square decodes to one of the six types. On other boards the stale-value behaviour is modelled in `Evaluator.Scan` but not summarised.
- `Controller.BookOpening`: assumes no book node records start square -1 (`Recorded`). Such a node would be mistaken for "no move" and searched instead.
- `Controller.BookReply`: assumes no book node records start square -1 (`Recorded`). A child with start -1 would be returned as `{-1, target}`. `playTurn` would then search, with the cursor already advanced and `m_useBook` still true.
- Mirror symmetry of the evaluation (swap colours and ranks, score negates) is not claimed. It depends on how the Black tables relate to the White ones, and the tables are not part of this model.
- `Controller.PlayByBook`: its own contract states only that the side and the difficulty are kept. The book rules are stated by `Controller.BookOpening`, `Controller.BookReply`, `Controller.BookExhausted` and `Controller.BookMiss`.
- `m_depth` is kept as a field. It always equals the difficulty when a search starts.
- src/MenuFactory/WhiteAICreator.cpp (menu buttons for difficulty 1 to 5) and include/FileExceptions/HistoryFileException.h (an error dialog) are user-interface code with no logic to model.

## Findings

| source | as written | input that shows it | evidently intended | confidence | as-written member | corrected member |
|---|---|---|---|---|---|---|
| src/Controllers/AIController.cpp:33-51 | `bestMove` starts as the sentinel and changes only on a value strictly better than `INT_MIN` (White) or `INT_MAX` (Black). If every candidate's value equals that seed, `playTurn` returns the sentinel although legal moves exist. This happens when every move allows the opponent to leave the AI with no moves, at difficulty 3 or more. The caller reads the sentinel as "no legal move". | White to move with one legal move, after which Black's only reply leaves White with no moves; difficulty 3 (`ForcedLoss.Line`) | Return a generated move whenever one exists: the first candidate, replaced only by strictly better ones | medium; not executed | `ForcedLoss.SentinelDespiteLegalMove` | `Controller.RootSearchFixedPicksFirstBest` |
