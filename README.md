# Five-in-a-row engine: board and alpha-beta search

This project models the core of a 15×15 five-in-a-row (Gomoku / Caro) player. It proves the model against specifications.

The core has two parts:

- **The board.** A mutable grid, the set of played cells, the last move and a move counter.
  - Moves are checked before they are applied, and they can be undone.
  - A win is detected only through the last cell played, by counting the run of equal stones on each side of it along each of four axes.
- **The engine.** It picks the computer's move.
  - On an empty board it plays the centre. Next to a lone stone it plays an adjacent cell.
  - Otherwise it runs a fail-soft alpha-beta minimax over the candidate cells near the stones. It plays and undoes moves on the shared board as it goes.
  - Leaves are scored by a heuristic. The heuristic scores every maximal run of each player along each axis once, by its length and open ends. The position value is the engine's total minus 1.1 times the human's.

Layout:

| file | module | contents |
|---|---|---|
| `consts.dfy` | `Consts` | board size, win length, cell states, search constants, score table, axes |
| `options.dfy` | `Options` | `Option` |
| `grids.dfy` | `Grids` | the grid as a value, placing and clearing a stone, the set of occupied cells |
| `lines.dfy` | `Lines` | runs of equal stones along an axis, the winner through a cell, proved to mean "five in a row through that cell" |
| `board.dfy` | `Boards` | class `Board`: a 2-D array kept equal to an abstract grid, with the played set and counter kept consistent |
| `candidates.dfy` | `MoveGen` | the candidate set, its order by distance to the centre, the reply next to a lone stone |
| `evaluation.dfy` | `Evaluation` | the pattern score, the line score through a cell, the run starts and the per-player total |
| `search.dfy` | `GameTrees` | scores with infinities, game trees, the minimax value, the engine's alpha-beta and root loops |
| `game.dfy` | `Game` | the tree the engine searches from a position, and the move it should return |
| `engine.dfy` | `Engine` | class `AIEngine`: the imperative search, candidate generation and evaluation, proved against the above |

How the engine's methods are specified:

- Each method is proved against a pure specification function: `AlphaBeta` over `GameTree`, `Candidates`, or `PlayerScore`.
- Each method also leaves the board's cells as they were.
- The specification functions carry the lemmas that say what the source promises:
  - alpha-beta equals minimax inside its window;
  - the root picks the first immediate win, or else the first best move;
  - candidates are exactly the nearby empty cells, sorted and without repeats;
  - each run is scored once.

## Model

| member | source | states |
|---|---|---|
| Consts.Symbol | consts.py:18-20 | The empty cell's symbol is the empty string; each stone's symbol is one character. |
| Grids.Place | board.py:111 | Writing a cell changes that cell and no other. |
| Grids.EmptyGrid | board.py:32-35 | The fresh grid holds EMPTY in every cell. |
| Grids.Occupied | board.py:36 | The played positions are exactly the in-range cells that hold a stone. |
| Grids.PlaceStone | board.py:111-114 | Placing on an empty cell adds exactly that cell to the occupied set, so the count rises by one. |
| Grids.ClearStone | board.py:125-127 | Clearing a stone removes exactly that cell from the occupied set, so the count falls by one. |
| Grids.UndoRestores | board.py:111-114 | Placing a stone on an empty cell and then clearing it gives back the same grid and occupied set. |
| Grids.EmptyGridUnoccupied | board.py:36-38 | The fresh grid has no occupied cells, matching the empty played set and zero counter. |
| Lines.RunCells | board.py:200-209 | Every cell counted by the run is the player's stone, and the cell just past the run is not. |
| Lines.RunAtLeast | board.py:203-207 | If k consecutive cells past the start hold the player's stone, the run counts at least k. |
| Lines.WinnerComplete | board.py:165-177 | Five stones of p in a row along any axis through a cell make the winner check report p. |
| Lines.WinnerSound | board.py:161-177 | If the check reports p, the cell holds p and there are five consecutive stones of p through it along some axis. |
| Lines.WinnerIff | board.py:161-177 | The check reports p iff the cell is a stone of p on some five-in-a-row along one of the four axes. Longer runs also win. |
| Boards.Board.constructor | board.py:30-38 | A new board has every cell empty, nothing played, no last move and counter 0. |
| Boards.Board.GetCell | board.py:79 | Returns the content of the in-range cell. |
| Boards.Board.IsValidMove | board.py:92-94 | True iff the position is on the board and its cell is EMPTY. Equivalently, the position is on the board and not played. Out-of-range input gives false. |
| Boards.Board.MakeMove | board.py:108-115 | Succeeds iff the move is valid. On success: that one cell takes the player, the cell joins the played set, it becomes the last move and the counter rises by one. On failure nothing changes. The board invariant is kept. |
| Boards.Board.UndoMove | board.py:125-128 | The cell becomes EMPTY, leaves the played set and the counter falls by one. The last move is not restored. The invariant is kept. |
| Boards.Board.Reset | board.py:130-137 | Every cell becomes empty, the played set is empty, there is no last move and the counter is 0. |
| Boards.Board.IsFull | board.py:139-141 | True iff the number of occupied cells is at least BOARD_SIZE², which the invariant equates with the counter. |
| Boards.Board.CountDirection | board.py:200-209 | Returns the number of consecutive cells of the player past the start in that direction, stopping at the edge. The start cell is not counted. |
| Boards.Board.CheckWinner | board.py:161-177 | Returns None on an empty cell. Otherwise returns its player iff 1 + forward run + backward run ≥ 5 on some axis; this is `Winner`, characterised by `WinnerIff`. |
| Boards.Board.Clone | board.py:222-227 | A freshly allocated board with its own fresh array, equal to the original in cells, played set, last move and counter. |
| MoveGen.CandidateSet | ai.py:95-101 | A cell is a candidate iff it is a valid move within Chebyshev distance 2 of some played cell. |
| MoveGen.SortedByCentre | ai.py:103 | Lists exactly the cells of the set on the board, ordered by Manhattan distance to the centre; ties go in row-major order. |
| MoveGen.IncreasingSorted | ai.py:103 | A list in this order has no repeats and is non-decreasing in distance to the centre. |
| MoveGen.IncreasingUnique | ai.py:103 | Two lists in this order with the same members are equal, so the sorted candidate list is determined by the set. |
| MoveGen.Candidates | ai.py:91-103 | The candidate list holds exactly the candidate cells, once each, in non-decreasing distance from the centre. |
| MoveGen.CandidatesSpec | ai.py:95-103 | Membership iff valid and near a stone; no duplicates; sorted by distance to the centre. |
| MoveGen.CandidatesSorted | ai.py:103 | The candidate list is the sorted rendering of the candidate set. |
| MoveGen.FirstFreeSpec | ai.py:107-109 | The search from offset k finds nothing iff no offset from k on is a valid move. Otherwise it finds the first offset from k on that is a valid move. |
| MoveGen.FirstFreeSkip | ai.py:107-109 | Offsets before k that are not free do not change the first free one. |
| MoveGen.SingleStoneReplyAdjacent | ai.py:105-110 | With one stone on the board the reply is a valid move at one of the six offsets from it. |
| MoveGen.CentreStoneReply | ai.py:105-110 | A lone stone at the centre is answered diagonally down-right of it. |
| Evaluation.PatternScore | ai.py:149-156 | A count of 5 or more scores SCORE_FIVE whatever the open ends. Otherwise no open ends scores 0. The result lies in [0, SCORE_FIVE] and equals SCORE_FIVE iff the count reaches five. |
| Evaluation.PatternScoreMonotone | ai.py:149-156 | For open ends in 0..2, the score never decreases when the count or the number of open ends grows. |
| Evaluation.RunAfterSpec | ai.py:131-137 | The forward walk collects as many cells as the run counts, and it stops at the cell just past the run. |
| Evaluation.WalksMeasureLine | ai.py:127-147 | The two walks give count = 1 + forward run + backward run. The open ends are the in-range EMPTY cells just past each end. |
| Evaluation.LineShift | ai.py:118-124 | Within a run, every cell gives the same length, open ends and score. So the total does not depend on which of its cells is visited first. |
| Evaluation.StartOfIsStart | ai.py:121-124 | The start of the run through a stone is a run start, and the stone lies in that run. |
| Evaluation.StartUnique | ai.py:121-124 | Every cell of the run from a start has that start as its run start, so each run is scored once. |
| Evaluation.RunCountsInTotal | ai.py:115-125 | The player's total is at least the score of every maximal run. |
| Evaluation.DirsAtLeast | ai.py:120-123 | The sum over the axes at a cell is at least the score on any one axis. |
| GameTrees.Max | ai.py:76-77 | The larger of two scores, keeping the first when they are equal. |
| GameTrees.Min | ai.py:86-87 | The smaller of two scores, keeping the first when they are equal. |
| GameTrees.AlphaBetaBounds | ai.py:70-89 | For a non-empty window the pruned value r is fail-soft. When r lies strictly inside (α, β) it is the minimax value. When r ≤ α it is an upper bound of that value, and when r ≥ β a lower bound. |
| GameTrees.MaxLoopBounds | ai.py:71-79 | The maximiser's loop with its break on β ≤ α returns at least the running best. It is a fail-soft bound of the larger of the running best and the best remaining child. |
| GameTrees.MinLoopBounds | ai.py:81-89 | The minimiser's loop with its break on β ≤ α returns at most the running best. It is a fail-soft bound of the smaller of the running best and the worst remaining child. |
| GameTrees.AlphaBetaExact | ai.py:70-89 | Whenever the minimax value lies strictly between α and β, the pruned search returns exactly that value. |
| GameTrees.AlphaBetaFullWindow | ai.py:33-35 | With the window (−∞, +∞) the pruned search returns the minimax value. |
| GameTrees.RootChoice | ai.py:39-55 | The root loop's choice is either the initial choice or an index in range. |
| GameTrees.RootSearchIsChoice | ai.py:39-55 | The root loop with alpha raised after each move picks the same index as the same loop run on the exact minimax values. |
| GameTrees.FirstWinChosen | ai.py:42-44 | If move k is the first that wins at once, the root picks k. |
| GameTrees.ChoiceIsFirstBest | ai.py:49-51 | Without immediate wins, the root picks the first move of strictly highest value above the running best. |
| Game.Mover | ai.py:73-83 | The engine moves on maximising plies, the human on minimising ones. |
| Game.Terminal | ai.py:58-66 | An engine win scores SCORE_FIVE + depth, a human win −SCORE_FIVE − depth, a full board 0, and depth 0 the evaluation. The position is expanded exactly when none of these holds. |
| Game.GameTreeNode | ai.py:68-89 | A non-terminal position's tree is a node with one child per candidate, in order: the candidate played by the mover, one ply shallower, with the other side to move. |
| Game.GameTreeLeaf | ai.py:58-66 | A terminal position's search value is its terminal score. |
| Game.SearchExact | ai.py:57-89 | The pruned search of a position equals its plain minimax value whenever that value lies inside the window. |
| Game.RootWins | ai.py:40-42 | Entry i tells whether candidate i wins at once for the engine. |
| Game.RootTrees | ai.py:40-47 | Entry i is the human-to-move tree after the engine plays candidate i, one ply shallower. |
| Game.RootChoiceMeets | ai.py:39-55 | The root choice is the first immediate win if there is one. Otherwise it is the first candidate of maximal minimax value, or none when every value is −∞. |
| Game.BestMoveSpec | ai.py:24-55 | The chosen move is valid. With two or more stones it meets the root-choice specification above. |
| Engine.RunOf | ai.py:127-147 | The cells of a run from its start, each at its offset along the axis, with the length given by the run. |
| Engine.RunOfMembers | ai.py:121-124 | A cell belongs to the run listed from x iff it is a stone of p whose run starts at x. |
| Engine.CountedSetAxis | ai.py:120-124 | The scan skips an axis at a stone iff the stone was already marked for it, which is iff the stone is not a run start. Scoring a run start marks exactly its run's cells for that axis. |
| Engine.Marks | ai.py:124 | The marks are exactly the listed cells paired with the axis. |
| Engine.MarkRun | ai.py:124 | The visited set grows by exactly the marks of the run's cells. |
| Engine.AIEngine.constructor | ai.py:20-22 | A new engine keeps its depth and has no board. |
| Engine.AIEngine.GetBestMove | ai.py:24-55 | Returns `BestMove` of the board on entry: the centre on an empty board, the reply next to a lone stone, else the root choice. The board's cells are as on entry. |
| Engine.AIEngine.SearchRoot | ai.py:32-55 | The loop over candidates returns the candidate picked by the root choice on immediate wins and minimax values. Every move played is undone, including on the early-return win. |
| Engine.AIEngine.TryRootMove | ai.py:40-47 | Plays candidate i, tests for a win and undoes. win is exactly whether the move wins at once. When it does not, score is the pruned value, with window (alpha, +inf), of the human-to-move tree after that move. The cells are as before. |
| Engine.AIEngine.Minimax | ai.py:57-89 | Returns the alpha-beta value of the searched tree, with the cells unchanged on return. |
| Engine.AIEngine.MaxChildren | ai.py:70-79 | The maximiser's loop returns the alpha-beta value of the node, with the cells unchanged. |
| Engine.AIEngine.MinChildren | ai.py:80-89 | The minimiser's loop returns the alpha-beta value of the node, with the cells unchanged. |
| Engine.AIEngine.PlayChild | ai.py:73-75 | Make, recurse, undo: the child's pruned value, with the cells restored. |
| Engine.AIEngine.CandidateMoves | ai.py:91-103 | Returns exactly `Candidates` of the board. |
| Engine.AIEngine.AddNear | ai.py:96-101 | Scanning the 5×5 square around a stone adds exactly its valid neighbours to the candidate set. |
| Engine.AIEngine.AdjacentToOpponent | ai.py:105-110 | Returns the first free offset around some played stone, or the centre when no stone has one. With one stone this is `AdjacentReply`. |
| Engine.AIEngine.FreeNeighbour | ai.py:107-109 | Returns the first in-range empty cell among the six offsets, or none. |
| Engine.AIEngine.EvaluateBoard | ai.py:112-113 | Returns the engine's total minus 1.1 times the human's. |
| Engine.AIEngine.EvaluatePlayer | ai.py:115-125 | Returns `PlayerScore`: the sum of the pattern scores of every maximal run of the player on every axis, each once. |
| Engine.AIEngine.ScanCell | ai.py:118-124 | One cell of the scan. It adds that cell's run-start scores, and the visited set becomes the marks of all runs started so far. |
| Engine.AIEngine.ScoreStone | ai.py:120-124 | The four axes at one stone: they add the scores of the runs starting there, and the visited set gains the marks of every axis at that stone. |
| Engine.AIEngine.ScoreAxis | ai.py:121-124 | One axis at one stone: it skips a marked pair, and otherwise scores the run and marks its cells. |
| Engine.AIEngine.EvaluateLine | ai.py:127-147 | Returns the line score through the cell. The cell list is the cell, then the forward run, then the backward run. |
| Engine.AIEngine.Walk | ai.py:131-137 | Walks the run of the player past the cell. Returns the run's cells in order, and whether the cell where the walk stops is on the board and EMPTY (an open end). |

## Left out

- The tkinter interface (`gui.py`) and the entry point (`main.py`). They are screen drawing, mouse callbacks, timers and console output.
- The colours, fonts and sizes in `consts.py` (lines 31-46): they serve only the interface.
- `Board.__repr__` (board.py:229-235), a debug text rendering.
- Board properties (board.py:44-62): read-only accessors, so the model reads the fields directly.
- Floating point is modelled with exact rationals:
  - DEFENSE_MULTIPLIER is the real 1.1, not its binary double, so rounding in the evaluation is not modelled.
  - `float('-inf')` and `float('inf')` are the `NegInf` and `PosInf` scores.
- Python set iteration order is not modelled:
  - `MoveGen.SortedByCentre` breaks ties in row-major order. The source's stable sort leaves ties in the unspecified iteration order of a Python set.
  - `Engine.AIEngine.EvaluatePlayer` visits the cells in row-major order, not the played set's iteration order. The total does not depend on this order, because `Evaluation.LineShift` and `Evaluation.StartUnique` show every cell of a run scores it the same and each run is scored once.
  - `Engine.AIEngine.AdjacentToOpponent` tries the played stones in an unspecified order. Its contract names the stone only when there is exactly one, which is the only case in which the engine calls it.
  - `Engine.AIEngine.CandidateMoves` walks the played set in an unspecified order and builds the same set whatever the order.
- Boards.Board.UndoMove requires a stone on the cell. On an empty cell the source would still decrement the counter and break the board's invariant, and the search never does that.
- Boards.Board.GetCell and Boards.Board.CheckWinner require an in-range cell. Python's negative-index wrap-around and its IndexError beyond the edge are not modelled. Every caller passes a just-played or in-range cell.
- Boards.Board.CountDirection requires one of the eight unit directions. A zero direction would loop forever in the source.
- Engine.AIEngine.GetBestMove requires a search depth of at least 1. The source's default depth is 2.
- Engine.AIEngine.GetBestMove states only the stones, not `lastMove`. `undo_move` does not restore the last move, and nothing in the search reads it.
- Engine.AIEngine.ScoreAxis states its running total as `base + DirsScore(...)`, where `base` is the total carried in from earlier cells. It is a ghost parameter used only in the contract.
