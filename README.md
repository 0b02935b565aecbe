# Tic-Tac-Toe engine, minimax players and Q-learner, in Dafny

This project models the core of a small Tic-Tac-Toe AI:

- **the game engine** (`env.py`): a nine-cell board holding 1 (X), -1 (O) or 0 (empty); a `done` flag and a `winner`, changed in place by `reset` and `step`; an occupied cell forfeits the game; a line is checked before a full board.
- **the exhaustive minimax player** (`minimax.py`): it scores every branch on a clone of the engine, +1 / -1 / 0 from the agent's side, and picks the first move of greatest score.
- **the session application's search** (`app.py`): minimax with alpha-beta pruning and depth-sensitive scores (10 - depth for a win, depth - 10 for a loss). It writes each move into the board list and clears it again.
- **the tabular Q-learning agent** (`agent.py`, and its twin in `app.py`): an epsilon-greedy action choice and the one-step Bellman update.

## Modules

- `wrappers.dfy` — `Option`.
- `extended.dfy` — `ExtInt`: integers with `-math.inf` / `math.inf`, Python's order, `max` and `min`.
- `first_max.dfy` — the invariant of the root-move scans, which keep the first position of strictly greatest score.
- `board.dfy` — the board, the eight winning lines, `check_win`, `winning_combo`, `check_draw` and `available_actions`.
- `env.dfy` — the step rule `Transition` on values, and the class `TicTacToeEnv` whose `Step` follows it.
- `minimax.dfy` — `_minimax`, `_evaluate` and `select_move`.
- `alpha_beta.dfy` — the unpruned reference `MinimaxScore`, the pruned value `AlphaBetaValue`, and the in-place methods `AlphaBeta` and `MinimaxMove` on an `array<int>` board. The main theorem is `FullWindow`: pruning does not change the value. `ScoreBounds` shows the scores are depth-sensitive.
- `q_learning.dfy` — the Q-table with its 0.0 default, the greedy set, and the class `QLearningAgent`.

## Model

| member | source | states |
|---|---|---|
| Board.WinsAreTheLines | app.py:189 | the WINS table (and env.py's local `wins`, env.py:77-81) lists eight lines, with no repeats; every entry is a straight line of the grid (a row, a column or a diagonal); every straight line of the grid is an entry |
| Board.CheckDraw | env.py:87-89 | the board is a draw exactly when no cell is 0; the same test is app.py's `check_draw` |
| Board.CheckWin | env.py:75-85 | a player has won exactly when they hold all three cells of one of the eight lines |
| Board.FirstLineFrom | app.py:194-199 | the scan over the WINS table stops at the first line the player holds, or runs off the end when none is held |
| Board.WinningCombo | app.py:194-199 | a line is returned exactly when `check_win` holds, and it is the first line of the table the player holds |
| Board.AvailableActions | env.py:67-69 | exactly the empty cells, strictly ascending; the list is empty exactly when `check_draw` holds |
| Board.ZerosFrom | app.py:204-205 | the empty cells from a position on, in ascending order |
| Board.PlaceDecreasesEmpties | env.py:48-49 | marking an empty cell leaves one empty cell fewer, which is the termination measure of every search |
| Board.PlaceKeepsOtherLines | env.py:49-55 | placing one marker never completes a line for a different marker |
| Env.Transition | env.py:39-63 | the step rule on values: a finished game gives the ValueError and no change; an occupied cell forfeits; otherwise the marker is placed and a line is checked before a full board; its properties are `StepOutcome` and `StepPreservesConsistent` |
| Env.StepLive | env.py:52-63 | whatever state the step rule is applied to, its result is finished or still has a free cell, because a move that fills the board ends the game |
| Env.InitialConsistent | env.py:23-28 | the state after `reset` is consistent: an empty board, not done, no winner, no line |
| Env.StepPreservesConsistent | env.py:32-63 | a player's step keeps the state consistent: cells are in {1, -1, 0}, a winner is set exactly when done, and a running game has no line and a free cell |
| Env.StepOutcome | env.py:39-63 | reward +1 exactly when the mover now holds a line, with info `winner`; -1 exactly on a forfeit, which keeps the board, makes the other player winner and has info `invalid`; 0 with done exactly on a draw, with info `draw`; reward 0, not done and empty info when the move neither completes a line nor fills the board; only the chosen cell changes; the returned state is the new board |
| Env.AvailableMoveNeverForfeits | env.py:42-49 | a move from `available_actions` never takes the forfeit branch and places exactly one marker |
| Env.TicTacToeEnv.constructor | env.py:20-28 | a new engine is in the initial state and consistent |
| Env.TicTacToeEnv.Reset | env.py:23-28 | the board is emptied, done and winner are cleared, and the empty board is returned |
| Env.TicTacToeEnv.Step | env.py:32-63 | the object's new state and the returned tuple are those of the step rule (a finished game refuses the move and changes nothing); consistency is preserved |
| Env.TicTacToeEnv.Clone | env.py:100-105 | a fresh object with the same board, done flag and winner |
| Env.StepOnClone | minimax.py:19-20 | stepping a clone leaves the original engine as it was |
| Minimax.Evaluate | minimax.py:48-54 | +1 exactly when the agent won, -1 exactly when the opponent won, otherwise 0 |
| Minimax.Child | minimax.py:19-20 | the clone's state after `env_copy.step(move, p)`: the step rule applied to a copy |
| Minimax.Minimax | minimax.py:29-46 | `_minimax`: a finished game is scored by `Evaluate`, otherwise the maximizing or minimizing loop over the available moves; its properties are `MinimaxIsMaxMin` and `MinimaxInRange` |
| Minimax.MaxOver | minimax.py:33-39 | the maximizing loop `best = max(best, _minimax(child, False))`, the agent moving on each clone |
| Minimax.MinOver | minimax.py:40-46 | the minimizing loop `best = min(best, _minimax(child, True))`, the opponent moving on each clone |
| Minimax.ChildValue | minimax.py:35-45 | the value of the clone after one move on an empty cell, by the agent when maximizing and by the opponent otherwise |
| Minimax.MaxOverIsMax | minimax.py:33-39 | the maximizing loop returns the greatest of its start value and the children's values, and that value is attained |
| Minimax.MinOverIsMin | minimax.py:40-46 | the minimizing loop returns the least of its start value and the children's values, and that value is attained |
| Minimax.MinimaxIsMaxMin | minimax.py:29-46 | on a running game with a free cell, `_minimax` is the maximum (agent to move) or minimum (opponent to move) over all empty cells of the children's values |
| Minimax.MinimaxInRange | minimax.py:29-54 | from any finished game and any running game with a free cell (so from every state the step rule produces) `_minimax` is finite and lies in {-1, 0, 1} |
| Minimax.RootScore | minimax.py:19-21 | the `score` of a root move: `_minimax` of the clone after the agent's move, the opponent to move next |
| Minimax.RootScoreFinite | minimax.py:18-21 | every root move of a running game scores a finite value |
| Minimax.RootScores | minimax.py:18-21 | the scores of the root moves, in order |
| Minimax.FirstMaxIsBest | minimax.py:23-27 | after the scan, the first strict maximum is an empty cell of greatest score, and every earlier empty cell scores strictly less |
| Minimax.SelectMove | minimax.py:14-27 | on any running engine, or one with no free cell: the engine is left unmodified; None exactly when no cell is free; otherwise the move is the lowest-indexed empty cell of greatest minimax score |
| FirstMax.FirstMaxStep | minimax.py:23-25 | one `if score > best_score` step keeps "best is the first strict maximum so far" |
| AlphaBeta.MinimaxScore | app.py:211-240 | the unpruned reference: the same terminal scores and max/min loops with the alpha/beta updates and cut-offs removed; `ScoreBounds` states its range |
| AlphaBeta.ChildScore | app.py:224-235 | the reference score of the board after one move on an empty cell, one level deeper |
| AlphaBeta.AlphaBetaValue | app.py:211-240 | `minimax` as a function: 10 - depth for an agent line, else depth - 10 for an opponent line, else 0 on a full board, else the pruned loop; `FullWindow` equates it with the reference |
| AlphaBeta.ChildValue | app.py:224-235 | the pruned value of the board after one move on an empty cell, in the loop's current window |
| AlphaBeta.MaxScores | app.py:221-230 | without pruning the maximizing fold is finite once a child is seen |
| AlphaBeta.MinScores | app.py:231-240 | without pruning the minimizing fold is finite once a child is seen |
| AlphaBeta.MaxLoop | app.py:221-230 | the pruned maximizing loop is finite once a child is seen |
| AlphaBeta.MinLoop | app.py:231-240 | the pruned minimizing loop is finite once a child is seen |
| AlphaBeta.MaxStepCut | app.py:227-229 | a cut-off in the maximizing loop returns a value that bounds the true value from below |
| AlphaBeta.MaxStepContinue | app.py:225-228 | without a cut-off the maximizing loop's invariant holds for the next move |
| AlphaBeta.MinStepCut | app.py:237-239 | a cut-off in the minimizing loop returns a value that bounds the true value from above |
| AlphaBeta.MinStepContinue | app.py:235-238 | without a cut-off the minimizing loop's invariant holds for the next move |
| AlphaBeta.MaxScoresAtLeast | app.py:222-225 | the unpruned maximum never falls below its start value |
| AlphaBeta.MinScoresAtMost | app.py:232-235 | the unpruned minimum never rises above its start value |
| AlphaBeta.ChildFailSoft | app.py:224-226 | a child's pruned value is fail-soft against its unpruned score |
| AlphaBeta.MaxLoopFailSoft | app.py:221-230 | the pruned maximizing loop is fail-soft against the unpruned maximum in the node's window |
| AlphaBeta.MinLoopFailSoft | app.py:231-240 | the pruned minimizing loop is fail-soft against the unpruned minimum in the node's window |
| AlphaBeta.FailSoft | app.py:211-240 | for any window alpha < beta: a result at most alpha bounds the unpruned value from above, one at least beta bounds it from below, and one strictly inside is exact |
| AlphaBeta.FullWindow | app.py:211 | with the default window (-inf, +inf) the pruned search returns exactly the unpruned minimax value |
| AlphaBeta.MaxScoresWithin | app.py:221-230 | folding children whose scores lie in [lo, hi] gives a finite score in [lo, hi] |
| AlphaBeta.MinScoresWithin | app.py:231-240 | folding children whose scores lie in [lo, hi] gives a finite score in [lo, hi] |
| AlphaBeta.ScoreBounds | app.py:211-219 | a node at depth d scores in [d - 10, 10 - d]; 10 - d exactly when the agent holds a line; d - 10 exactly when only the opponent does |
| AlphaBeta.ChildScoreBounds | app.py:224-235 | a child, one level deeper, scores in [d - 9, 9 - d] |
| AlphaBeta.EmptiesAtMostNine | app.py:204-205 | a board never has more than nine free cells |
| AlphaBeta.AlphaBeta | app.py:211-240 | the board list comes back unchanged, and the value is the pruned search value of the board the method was called with; the window defaults to (-inf, +inf) as in app.py |
| AlphaBeta.MaxSearch | app.py:221-230 | the maximizing loop restores the board and returns the pruned loop value, breaking when beta <= alpha |
| AlphaBeta.MinSearch | app.py:231-240 | the minimizing loop restores the board and returns the pruned loop value, breaking when beta <= alpha |
| AlphaBeta.RootScore | app.py:246-247 | the `score` of a root move: the unpruned score after the agent's move at depth 0, the opponent to move next; `FullWindow` equates it with the pruned score app.py computes |
| AlphaBeta.RootScores | app.py:245-248 | the scores of the root moves, in order |
| AlphaBeta.FirstMaxIsBestMove | app.py:249-252 | after the scan, the first strict maximum is an empty cell of greatest score, and every earlier empty cell scores strictly less |
| AlphaBeta.MinimaxMove | app.py:242-252 | the board comes back unchanged; None exactly when the board is full; otherwise the lowest-indexed empty cell of greatest unpruned minimax score |
| AlphaBeta.ImmediateWinChosen | app.py:242-252 | when some free cell wins at once, the chosen move wins at once, and no earlier free cell does |
| QLearning.Lookup | agent.py:20 | reading `Q[s][a]` through the two default dictionaries: the stored value, or 0.0 for a pair never written |
| QLearning.MaxQ | agent.py:64 | the greatest Q-value among the actions: an upper bound that some action attains |
| QLearning.Ties | agent.py:41-47 | an action is in the result exactly when it is in the list and has the given value; the result keeps list order by its definition, which `TiesSnoc` states step by step |
| QLearning.BestActions | agent.py:37-47 | `best_actions` at the end of the exploit loop: the ties with the greatest value; `BestActionsAreGreedy` states what it holds |
| QLearning.BestActionsAreGreedy | agent.py:36-49 | the greedy set is non-empty, holds exactly the actions of greatest value, and each member is worth at least as much as any action |
| QLearning.FirstMaxIndex | app.py:268-270 | `max(actions, key=...)` is the first action of greatest value |
| QLearning.FirstMaxIsGreedy | app.py:268-270 | app.py's first maximum is one of agent.py's greedy choices |
| QLearning.Target | agent.py:60-65 | the reward on a terminal step, otherwise the reward plus gamma times the greatest next value |
| QLearning.Blend | agent.py:68 | the old value moved the fraction alpha of the way towards the target; `BlendBetween` states its range |
| QLearning.Updated | agent.py:58-68 | the table after `update`: only `Q[state][action]` is written, with the blend computed on the table before the write; `UpdateChangesOnePair` states this pair by pair |
| QLearning.BlendBetween | agent.py:68 | with a learning rate in [0, 1] the new value lies between the old value and the target; rate 1 gives the target and rate 0 the old value |
| QLearning.UpdateChangesOnePair | agent.py:53-68 | the update writes old + alpha * (target - old) at (state, action); the target is the reward on a terminal step and otherwise reward + gamma * max next value; every other pair reads as before |
| QLearning.MaxQSnoc | agent.py:41-45 | the maximum after one more action |
| QLearning.TiesSnoc | agent.py:41-47 | the greatest-value actions after one more action |
| QLearning.NoTiesAbove | agent.py:43-45 | a value above every value seen so far restarts the tie list |
| QLearning.QLearningAgent.constructor | agent.py:13-24 | the rates are stored, defaulting to (0.5, 0.9, 0.1), and every state-action pair reads 0.0 |
| QLearning.QLearningAgent.ChooseAction | agent.py:28-49 | the result is an available action; below epsilon it is the randomly chosen action; otherwise it is a random one among the actions of greatest value; with epsilon <= 0 it is always greedy |
| QLearning.QLearningAgent.GreedyActions | agent.py:37-47 | the exploit loop ends with exactly the actions of greatest value, in list order |
| QLearning.QLearningAgent.ChooseActionFirstMax | app.py:265-270 | below epsilon, the randomly chosen action; otherwise the first action of greatest value |
| QLearning.QLearningAgent.Update | agent.py:53-68 | the table becomes the updated table: one pair rewritten, as `UpdateChangesOnePair` states |

## Left out

- The user interface of `app.py` (page layout, drawing, buttons, session state) and `render` in `env.py` are not modelled: they are display code.
- `train_q_agent`, `train.py`, `evaluate.py` and `play.py` are not modelled. They are driver loops that play many random games and print results.
- Randomness is a parameter.
  - `random.random()` becomes `draw`, a real in [0, 1).
  - `random.choice` becomes `pick`, taken modulo the length of the list it chooses from. Any position can be picked, but no distribution is modelled.
- Python floats are modelled as exact reals, so rounding is not modelled.
- Epsilon decay is not modelled. The training drivers lower `epsilon` after each episode (train.py:60; app.py:311-312 decays it and then sets it to 0.0), and those drivers are left out. In the model `epsilon` is a public field of `QLearningAgent` that a caller may assign.
- Reading an unseen `Q[s][a]` inserts an empty row or a 0.0 entry into the default dictionaries. The model reads 0.0 without inserting anything. Every lookup gives the same value either way.
- An action is an `Index` (0..8). Python's negative indices and the `IndexError` for an index beyond the board are not modelled.
- The searches require the agent to be 1 or -1, the domain minimax.py:9 documents. With agent 0, Python's `-agent` equals `agent` and a move marks nothing, so the recursion need not terminate. It ends at once only on a board with an all-empty line, which counts as a line for 0.
- Minimax.SelectMove requires an engine that either is running or has no free cell. On a finished game with a free cell, the first clone's `step` raises `ValueError`, and that error is not modelled.
- QLearning.QLearningAgent.ChooseAction requires a non-empty action list, because `random.choice` raises `IndexError` on an empty list. It also requires `draw` to be in [0, 1), the range of `random.random()`.
- QLearning.QLearningAgent.ChooseActionFirstMax has the same requires. On an empty list app.py's `random.choice` raises `IndexError` and `max` raises `ValueError` (app.py:266-269), and this error path is not modelled.
- The `MinimaxAgent` class and its `name` field are folded into the `agent` parameter of the minimax functions.
- app.py's `QLearningAgent` shares the class with agent.py's. Its update is the same, its `choose_action` is `ChooseActionFirstMax`, and its default epsilon of 0.0 is passed as a constructor argument, since the constructor's defaults are agent.py's.
- "The minimax player never loses" is not proved as a statement about whole games. The model proves the local facts:
  - the move chosen has the greatest score;
  - a win is taken at once;
  - the scores prefer sooner wins and later losses.
