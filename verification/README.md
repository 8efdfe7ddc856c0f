# Tic-tac-toe engine — a Dafny model

This project models the game engine of a browser tic-tac-toe app. It covers two parts.

- **Board model and search** (`js/gameLogic.js`):
  - the fixed table of 8 winning combinations;
  - winner, winning-line, tie and game-over detection;
  - move validation and immutable move application;
  - the ordered list of available moves;
  - board evaluation, full-depth minimax with depth-adjusted scores, and `findBestMove`;
  - row/column ↔ index conversion, the opponent of a mark, the empty board and the alternating starter.
- **CPU difficulty policy** (`js/cpu.js`):
  - easy picks a random available move;
  - medium tries, in order: win now, block now, the centre, a random empty corner, a random move;
  - hard uses `findBestMove`;
  - any other difficulty string behaves like medium.

Files:
- `options.dfy`: the `Option` result type.
- `game_logic.dfy`: module `GameLogic`, the board model.
- `search.dfy`: module `Search`, evaluation, minimax and `findBestMove`.
- `cpu.dfy`: module `Cpu`, the policy.

Modelling choices:
- A board is a `seq<Cell>` of length 9. A `Cell` is `Empty` (the source's `""`) or `Mark(X)` / `Mark(O)`.
- Functions that return `null` or throw in the source return `Option` here.
- Every function is pure. The board is a value, so `makeMove` cannot change its input. This matches the copy the source makes before writing the cell.
- Each `Math.random()` draw becomes a parameter `pick: nat`. The source's `Math.floor(Math.random() * n)` becomes `pick % n`. That value can be every position of the list and nothing outside it (`Cpu.EasyReachesEveryMove`).
- Minimax is a recursive function. Its termination measure is the number of available moves. Each move removes exactly one of them (`GameLogic.MoveRemovesOneAvailable`).
- In minimax's loop, the running `Math.max` / `Math.min` starts at −Infinity / +Infinity. That seed never survives, because minimax returns early when no move is available. The model therefore folds over the non-empty list of child scores (`Search.MaxOf`, `Search.MinOf`).
- `findBestMove` keeps its −Infinity start explicitly, through the `Extended` datatype.
- `findBestMove`'s loop calls `makeMove` and `minimax` inside the loop. The model scores every available move first, then runs the loop over those scores (`Search.FirstBestFrom`). Both functions are pure, so the result is the same.

## Model

| member | source | states |
|---|---|---|
| GameLogic.CheckWinner | js/gameLogic.js:21-32 | checkWinner as the table scan from line 0. What it returns is stated by GameLogic.CheckWinnerIsFirstLineOwner. |
| GameLogic.WinnerFrom | js/gameLogic.js:22-31 | The loop over the winning-combination table from line k, returning the mark of the first complete line. Its meaning is stated by GameLogic.WinnerFromScan. |
| GameLogic.WinnerFromScan | js/gameLogic.js:21-32 | The scan from table line k finds nothing exactly when no line from k on has three equal non-empty cells. Otherwise it returns the owner of the first such line. |
| GameLogic.CheckWinnerIsFirstLineOwner | js/gameLogic.js:2-32 | checkWinner returns a mark only if some line of the 8-line table is complete. The mark is the owner of the first complete line in table order. No complete line means null. |
| GameLogic.CombinationFrom | js/gameLogic.js:59-67 | The loop over the winning-combination table from line k, returning the first complete line. Its meaning is stated by GameLogic.CombinationFromScan. |
| GameLogic.CombinationFromScan | js/gameLogic.js:58-68 | The winning-combination scan from line k finds nothing exactly when no later line is complete. Otherwise it returns the first complete line. |
| GameLogic.GetWinningCombination | js/gameLogic.js:58-68 | getWinningCombination returns null exactly when no line is complete. Otherwise it returns the first complete line of the table. |
| GameLogic.MarkWinsOrUndecided | js/gameLogic.js:21-32 | On a board with no complete line, one new mark leaves checkWinner either null or the player who made the mark. It is null exactly when the new board still has no complete line. |
| GameLogic.WinnerOwnsWinningCombination | js/gameLogic.js:21-68 | checkWinner and getWinningCombination agree: a line is reported exactly when a winner is. That line is complete and its owner is the winner. |
| GameLogic.LineCellsDistinct | js/gameLogic.js:2-14 | Each of the 8 winning combinations names three different cells. |
| GameLogic.CheckTie | js/gameLogic.js:39-42 | checkTie holds exactly when no move is available and no line is complete. |
| GameLogic.IsGameOver | js/gameLogic.js:49-51 | isGameOver holds exactly when some line is complete or the board has no available move. |
| GameLogic.IsValidMove | js/gameLogic.js:232-234 | A move is valid exactly when its index is one of getAvailableMoves. |
| GameLogic.MakeMove | js/gameLogic.js:77-88 | makeMove fails exactly when the move is not valid, that is, outside 0..8 or on an occupied cell. On success, the new board holds `player` at `index` and every other cell is unchanged. |
| GameLogic.MovesBelow | js/gameLogic.js:95-105 | After the loop has visited indices below n, the collected list is strictly ascending. It holds only empty cells below n, and every empty cell below n is in it. |
| GameLogic.AvailableMoves | js/gameLogic.js:95-105 | getAvailableMoves returns exactly the indices of the empty cells, strictly ascending, so without duplicates. |
| GameLogic.AvailableMovesEmptyIffFull | js/gameLogic.js:95-105 | The list of available moves is empty exactly when every cell is occupied. |
| GameLogic.AvailableMovesAtMostNine | js/gameLogic.js:95-105 | A board never has more than nine available moves. |
| GameLogic.MoveRemovesOneAvailable | js/gameLogic.js:140-160 | A valid move leaves exactly one fewer available move. So every recursive minimax call is on a smaller board, and the makeMove calls in its loops succeed. |
| GameLogic.GetOpponent | js/gameLogic.js:241-243 | The opponent of a mark is the other mark. |
| GameLogic.OpponentInvolution | js/gameLogic.js:241-243 | getOpponent applied twice gives back the original mark. |
| GameLogic.CoordinatesToIndex | js/gameLogic.js:202-208 | Fails (the source throws) exactly when row or column is outside 0..2. Otherwise it returns an index in 0..8 whose row is index/3 and whose column is index%3. |
| GameLogic.IndexToCoordinates | js/gameLogic.js:215-224 | Fails (the source throws) exactly when the index is outside 0..8. Otherwise it returns a row and a column in 0..2 with row*3+col equal to the index. |
| GameLogic.CoordinatesRoundTrip | js/gameLogic.js:202-224 | Converting coordinates to an index and back returns the original row and column on the 3x3 grid. |
| GameLogic.IndexRoundTrip | js/gameLogic.js:202-224 | Converting an index to coordinates and back returns the original index on 0..8. |
| GameLogic.ResetBoard | js/gameLogic.js:192-194 | The reset board has all nine moves available and no complete line. |
| GameLogic.GetNextStarter | js/gameLogic.js:286-289 | The next starter is always player1 or player2. After player1 it is player2, and after any other value, including player2 and a missing value, it is player1. |
| GameLogic.NextStarterAlternates | js/gameLogic.js:286-289 | Two steps of getNextStarter return to the same starter. |
| Search.EvaluateBoard | js/gameLogic.js:113-123 | The score is 10 exactly when `player` is the winner, −10 exactly when the opponent is, and 0 exactly when no line is complete. |
| Search.MaxOf | js/gameLogic.js:143-151 | The running maximum over a non-empty list of scores is one of the scores and no score exceeds it. |
| Search.MinOf | js/gameLogic.js:153-161 | The running minimum over a non-empty list of scores is one of the scores and no score is below it. |
| Search.Minimax | js/gameLogic.js:133-163 | A win for `player` scores 10 − depth and a loss scores −10 + depth; both are checked before the full-board check. A full board with no winner scores 0. When the search must end by depth 10, the score lies in [−(10−depth), 10−depth]. An undecided position then lies strictly inside that range. |
| Search.ChildScore | js/gameLogic.js:145-157 | One ply deeper, the score of a move lies in [−(9−depth), 9−depth] whenever the search must end by depth 10. |
| Search.MinimaxIsBestChild | js/gameLogic.js:142-162 | On an undecided board with moves left, minimax equals the score of some available move. On a maximizing ply it is at least every move's score; on a minimizing ply it is at most every move's score. |
| Search.MoveScore | js/gameLogic.js:176-177 | The score findBestMove gives a candidate move: minimax of the board after the move, at depth 0, with the opponent to move. Its bounds are stated by Search.MoveScoreTenIffImmediateWin. |
| Search.MoveScoreTenIffImmediateWin | js/gameLogic.js:133-139 | A candidate move's score is at most 10. It is exactly 10 when the move wins at once. |
| Search.FirstBestFrom | js/gameLogic.js:171-186 | With the loop state carried so far, the loop ends on the position of a maximal score. Every earlier position scores strictly less, because replacement needs a strictly greater score. An empty list gives −1. |
| Search.FindBestMove | js/gameLogic.js:171-186 | findBestMove returns −1 exactly when no move is available. Otherwise it returns an empty cell whose score `minimax(after move, 0, false, player)` is maximal. Every lower-indexed empty cell scores strictly less. |
| Cpu.WithMark | js/cpu.js:44-49 | The board built with slices equals the board with only cell `move` replaced by `player`'s mark. On an empty cell it is the board makeMove returns. |
| Cpu.FirstWinningMove | js/cpu.js:43-66 | Medium's win and block loops: the first listed move whose slice-built board makes the given mark the winner. Its meaning is stated by Cpu.FirstWinningMoveScan and Cpu.FirstWinningIsLowest. |
| Cpu.FirstWinningMoveScan | js/cpu.js:43-53 | The scan from a list position returns the first later move, in list order, that makes `player` the winner. It returns nothing exactly when no listed move from that position does. |
| Cpu.NoWinFound | js/cpu.js:43-53 | If the scan over the available moves finds nothing, `player` has no immediately winning move. |
| Cpu.LowestWinFound | js/cpu.js:43-53 | If the scan over the available moves finds a move, it is the lowest-indexed immediately winning move. |
| Cpu.FirstWinningIsLowest | js/cpu.js:43-66 | Over the available moves, the scan finds nothing exactly when `player` has no immediately winning move. Otherwise it finds the lowest-indexed such move. |
| Cpu.EmptyAmong | js/cpu.js:72 | The corner filter keeps exactly the listed cells that are empty. An ascending list, such as the corners, gives an ascending result, as filter keeps order. |
| Cpu.MakeEasyMove | js/cpu.js:32-34 | The easy tier returns one of the available moves. |
| Cpu.EasyReachesEveryMove | js/cpu.js:32-34 | Every available move is the easy tier's answer for some random draw. |
| Cpu.MakeMediumMove | js/cpu.js:39-78 | The medium tier returns an empty cell, in priority order. (1) If the CPU can win at once, it takes the lowest winning cell. (2) Otherwise, if the opponent could win at once, it takes the lowest such cell. (3) Otherwise, if the centre is empty, it takes the centre. (4) Otherwise it returns a corner exactly when some corner is empty. |
| Cpu.MakeHardMove | js/cpu.js:81-83 | The hard tier returns −1 exactly when no move is available. Otherwise it returns an empty cell with a maximal minimax score, and every lower-indexed empty cell scores strictly less, so ties go to the lowest index. |
| Cpu.MakeCpuMove | js/cpu.js:15-29 | makeCpuMove returns −1 exactly when no move is available, for every difficulty. Every other result is an empty cell. With "hard" the result is findBestMove's. |
| Cpu.UnknownDifficultyIsMedium | js/cpu.js:19-28 | A difficulty other than "easy", "medium" and "hard" gives the same move as "medium". |
| Cpu.ImmediateWinIffScoreTen | js/cpu.js:43-53 | A move passes medium's win test, on the slice-built board, exactly when findBestMove scores it 10. |
| Cpu.BestMoveIsLowestWin | js/gameLogic.js:171-186 | When some move wins at once, findBestMove returns the lowest-indexed winning move. |
| Cpu.UnblockedThreatScore | js/gameLogic.js:133-163 | When the opponent has exactly one immediately winning cell and the CPU has no win, every other move scores at most −9: the minimizing reply takes the threat and wins one ply deeper. |
| Cpu.BlockedThreatScore | js/gameLogic.js:133-163 | In the same position, taking the threatened cell scores at least −8: no opponent reply wins, so the game is a tie or still open one ply deeper. |
| Cpu.HardBlocksSingleThreat | js/gameLogic.js:171-186 | With no win of its own and exactly one opponent threat, findBestMove, and so the hard tier, returns the threatened cell. |
| Cpu.HardTakesImmediateWin | js/cpu.js:19-83 | When the CPU can win at once, the hard tier takes the lowest winning move. That is the same move as the medium tier's. |
| Cpu.NoImmediateWinWithOneMark | js/cpu.js:43-66 | If no line is complete and a player has at most one mark, no single move makes that player win. |
| Cpu.HardBlocksTopRow | js/cpu.js:81-83 | On X X _ / O _ _ / _ _ _ the hard tier playing O blocks at cell 2. |
| Cpu.MediumCornerStep | js/cpu.js:69-74 | With no win, no block and the centre taken, medium returns the empty corner at position `pick % n` of the filtered corners. |
| Cpu.MediumReachesEveryEmptyCorner | js/cpu.js:72-74 | With no win, no block and the centre taken, every empty corner is medium's answer for some random draw. |
| Cpu.MediumBlocksTopRow | js/cpu.js:39-66 | On X X _ / O _ _ / _ _ _ the medium tier playing O blocks at cell 2, whatever the random draw. |
| Cpu.MediumOpensInCentre | js/cpu.js:39-69 | On the empty board the medium tier takes the centre, cell 4, for either mark and any random draw. |

## Left out

- The browser layer is not modelled: DOM rendering, click handlers, the `setTimeout` delay before the CPU moves, modals, sounds, menus and loading screens (`js/screens/*`, `js/utils/*`, `js/app.js`). It is I/O and timers, not engine logic.
- `js/storage.js` and `getDifficulty` / `setDifficulty` are not modelled. They read and write `localStorage`; the difficulty reaches the model as a plain string argument.
- `boardToString` and `getGameStatus` are not modelled. They only format display text.
- `WINNING_COMBINATIONS` is exported as a table. Here it is the constant `GameLogic.WinningCombinations`.
- Math.random is not modelled as a distribution. Only membership and priority are stated.
- Cpu.MakeEasyMove and Cpu.MakeMediumMove: their uniform random choice is an injected `pick`. The model states which moves may be returned, and that every available move (easy) and every empty corner (medium) is returned for some draw. It does not state how likely each is.
- Default arguments are not modelled: `cpuPlayer = "O"` and `difficulty = "medium"` in `makeCpuMove`, and `lastStarter = "player2"` in `getNextStarter`. Callers pass every argument.
- JavaScript values outside the modelled types are not modelled. This covers boards that are not nine cells long, cells or players other than "", "X" and "O", and non-integer indices.
- Cpu.MakeEasyMove and Cpu.MakeMediumMove require a non-empty list of available moves. `makeCpuMove` guarantees this before calling them; with an empty list the source would index past the end and return `undefined`.
- Search.Minimax: the score range is proved only when depth plus the number of available moves is at most 10. This covers every call that starts from `findBestMove`. For a larger starting depth the range does not hold: a loss found at depth d scores −10 + d, which can exceed 10 − depth.
- No "findBestMove never loses" theorem is stated. The code makes no such claim, and proving it would need reasoning over the whole game tree. The model proves two narrower facts. Hard takes an immediate win when one exists. With no win of its own, hard blocks the opponent's only immediate threat (`Cpu.HardBlocksSingleThreat`). Nothing is stated about positions where the opponent has two or more threats.
