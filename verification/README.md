# Connect Four rules engine and alpha-beta agent, in Dafny

This project models the game core of `connect4_agent.py`, a Connect Four
program with a Tkinter front end. The model covers:

- the `Connect4Game` state: a 6 x 7 grid of `' '`, `'You'` and
  `'Opponent(AI)'` cells and the side to move;
- the rules: `is_valid_move`, `make_move`, `toggle_player`,
  `find_empty_row_in_col`, `check_winner` and `check_draw`;
- the heuristic `evaluate`;
- `minimax` with alpha-beta pruning;
- the move choice of `Connect4GUI.ai_move`: an immediate win first, then a
  block, then the alpha-beta fallback.

Modules, one per file. `Rules` imports `Board`, `Heuristic` imports both,
and `Search` imports all three. `Agent` imports `Board`, `Rules` and
`Search`; `InPlace` imports `Board` and `Search`:

- `Board` (board.dfy): cells, sides, the grid type, gravity placement,
  the toggle, `make_move`.
- `Rules` (rules.dfy): line detection, `check_winner`, `check_draw`.
- `Heuristic` (heuristic.dfy): run lengths and `evaluate`.
- `Search` (search.dfy):
  - `AlphaBeta` is `minimax` as written, with the mutate-then-undo step
    modelled as a pure child position;
  - `Minimax` is an unpruned reference search over the same tree;
  - the proof that alpha-beta is fail-soft with respect to it.
- `Agent` (agent.dfy): the three phases of `ai_move` as a pure decision
  function, plus the game state `ai_move` leaves behind.
- `InPlace` (inplace.dfy): `minimax` the way the source runs it, on one
  mutable game whose `array2` board is changed in place by each speculative
  move and restored after it. It is proved equal to the functional
  `AlphaBeta`, and proved to leave the board and the side to move as they
  were, including after a pruning `break`.

The `float('-inf')` and `float('inf')` bounds become the datatype
`ExtInt = NegInf | Fin(n) | PosInf`. Every real score is an integer, and the
search never returns an infinite value.

Behaviour follows the code as written:

- `check_winner` and `evaluate` scan five directions, including the
  redundant leftward `(0, -1)`. `RedundantDirectionIsHarmless` shows that
  the leftward scan never changes which winner `check_winner` reports.
- `check_draw` only looks at the top row and does not rule out a win.
  `DrawDoesNotExcludeWin` exhibits a full grid that is both a draw and won.
- At a leaf with a winner, the score is `+winning_score` when the winner is
  the side to move and `-winning_score` otherwise. Inside the search the
  winner is always the side that just moved (`WinAfterMoveIsLoss`).
- The fallback phase of `ai_move` places the AI's disc and calls
  `minimax(..., False, game)` without toggling the side to move. The first
  ply of that search therefore drops a second AI disc
  (`FallbackSearchMovesAgentTwice`). The model keeps this.
- `is_valid_move` does no range check. Columns are required to lie in
  0..6.

## Model

| member | source | states |
|---|---|---|
| `Board.NewGame` | connect4_agent.py:9-11 | A new game has an empty grid and the human to move. That grid satisfies gravity, and every column accepts a disc. |
| `Board.Toggle` | connect4_agent.py:24-25 | The toggle always yields the other side. There are only two sides, so this maps 'You' to 'Opponent(AI)' and back. |
| `Board.ToggleTwice` | connect4_agent.py:24-25 | Toggling twice gives back the original side. |
| `Board.TogglePlayer` | connect4_agent.py:24-25 | `toggle_player` leaves the grid alone and changes the side to move. |
| `Board.FindEmptyRowFrom` | connect4_agent.py:27-31 | Scanning upwards from a row finds an empty cell at or above it with nothing empty in between. It returns None exactly when every cell from that row to the top is occupied. |
| `Board.FindEmptyRow` | connect4_agent.py:27-31 | `find_empty_row_in_col` returns None exactly when the column has no empty cell. Otherwise it returns the largest empty row, below which every cell is occupied. |
| `Board.FindEmptyRowUnderGravity` | connect4_agent.py:13-31 | Under gravity, `find_empty_row_in_col` finds a row exactly when `is_valid_move` holds. |
| `Board.MakeMove` | connect4_agent.py:16-22 | `make_move` returns True exactly when the top cell of the column is empty. On False the game is unchanged. On True the disc of the side to move lands at the lowest empty row, every other cell is kept, the side to move is kept, and gravity is preserved. |
| `Board.UndoRestores` | connect4_agent.py:81-84 | Writing a disc into an empty cell and then clearing it gives back the original grid. |
| `Rules.AnyLineIff` | connect4_agent.py:38-40 | The loop over the direction list finds four equal cells from a cell exactly when some listed direction gives them. |
| `Rules.WinnerFromSpec` | connect4_agent.py:35-41 | The row-major scan from a cell returns None exactly when no cell at or after it starts a line. Anything it returns is the owner of the first such cell in row-major order. |
| `Rules.CheckWinnerFindsLine` | connect4_agent.py:33-41 | `check_winner` returns None exactly when neither side has four in a row. When it names a side, that side has four in a row. |
| `Rules.CheckWinnerSpec` | connect4_agent.py:33-41 | As `CheckWinnerFindsLine`, and in addition the side named is the owner of the first cell, in row-major order, that starts a line. When both sides have lines, the earlier one decides. |
| `Rules.WinnerOfOneSide` | connect4_agent.py:33-41 | When the other side has no line, `check_winner` returns side s exactly when s has four in a row. |
| `Rules.RedundantDirectionIsHarmless` | connect4_agent.py:34-40 | The five-direction scan returns the same answer as a scan over the four canonical directions, for every grid. |
| `Rules.OnlyTheMoverCanWin` | connect4_agent.py:33-41 | Dropping side s's disc onto a grid without a winner leaves either no winner or s as the winner. |
| `Rules.DrawIffFull` | connect4_agent.py:43-44 | Under gravity, `check_draw` (all 7 top cells occupied) holds exactly when every cell of the grid is occupied. |
| `Rules.DrawDoesNotExcludeWin` | connect4_agent.py:43-44 | Some full grid with gravity is both a draw for `check_draw` and won for `check_winner`. |
| `Heuristic.RunFromSpec` | connect4_agent.py:55-62 | The inner loop of `evaluate`, counted from step i, covers exactly the steps i, i+1, ... that stay on the grid and hold the cell's disc, and stops at the first step that does not (or at step 4). |
| `Heuristic.RunLengthIsLine` | connect4_agent.py:55-62 | `sequence_length` is the length L of the run: 1 to 4, steps 0 to L-1 hold the cell's disc, and step L (when L < 4) does not. L is 4 exactly when the four cells form a line, in the same sense `check_winner` uses. |
| `Heuristic.Contribution` | connect4_agent.py:54-65 | Each (occupied cell, direction) pair adds a positive amount exactly when the cell belongs to `player`. A line adds plus or minus `winning_score`. A shorter run of length L adds plus or minus 10^L, that is 10, 100 or 1000. |
| `Heuristic.EvaluateAntisymmetric` | connect4_agent.py:46-66 | Scoring a grid from the other side's view negates the score. |
| `Heuristic.EvaluateSidesOpposite` | connect4_agent.py:46-66 | `evaluate(b, 'You') == -evaluate(b, 'Opponent(AI)')` for every grid. |
| `Heuristic.EmptyGridScoresZero` | connect4_agent.py:46-66 | The empty grid scores 0 from either side. |
| `Search.Max` | connect4_agent.py:86-87 | `max` on extended scores returns one of its arguments and is at least both. |
| `Search.Min` | connect4_agent.py:101-102 | `min` on extended scores returns one of its arguments and is at most both. |
| `Search.ChildIsMoveThenToggle` | connect4_agent.py:80-82 | The speculative move inside `minimax` equals `make_move` followed by `toggle_player`, and its disc lands on the lowest empty row. |
| `Search.BacktrackRestores` | connect4_agent.py:80-85 | Clearing the speculative cell and toggling back gives back the game the move was made on. |
| `Search.AlphaBeta` | connect4_agent.py:68-105 | `minimax` never returns an infinite bound. |
| `Search.MaxLoop` | connect4_agent.py:76-90 | The maximizing loop returns either a finite score or the running `max_eval` unchanged. It returns a finite score whenever some remaining column is legal. |
| `Search.MinLoop` | connect4_agent.py:91-105 | The minimizing loop returns either a finite score or the running `min_eval` unchanged. It returns a finite score whenever some remaining column is legal. |
| `Search.MaxAllIsMaximum` | connect4_agent.py:76-90 | Without pruning, a maximizing node's value is at least every legal child's value, and equals one of them or the initial bound. |
| `Search.MinAllIsMinimum` | connect4_agent.py:91-105 | Without pruning, a minimizing node's value is at most every legal child's value, and equals one of them or the initial bound. |
| `Search.AlphaBetaFailSoft` | connect4_agent.py:68-105 | For any window with alpha < beta, the pruned value relates to the unpruned value m as follows. It is exact when alpha < m < beta. When m <= alpha, it lies between m and alpha. When m >= beta, it lies between beta and m. |
| `Search.AlphaBetaMatchesMinimax` | connect4_agent.py:68-105 | Called with alpha = -inf and beta = +inf, the pruned search returns exactly the unpruned minimax value of the same tree. |
| `Search.LeafScores` | connect4_agent.py:69-74 | At a node with a winner, the search returns exactly `winning_score` if the winner is the side to move and `-winning_score` otherwise. At depth 0 or on a full top row without a winner, it returns `evaluate(board, current_player)`. |
| `Search.WinAfterMoveIsLoss` | connect4_agent.py:69-83 | A winner that appears right after a speculative move from a winner-free node is scored `-winning_score`. |
| `Agent.Probe` | connect4_agent.py:171-173 | A probe writes the given side's disc at the lowest empty row of a legal column and changes nothing else. |
| `Agent.ProbeUndone` | connect4_agent.py:178-201 | Clearing the probed cell gives back the grid that was probed, as every probe of `ai_move` that does not return does. |
| `Agent.FirstWin` | connect4_agent.py:170-191 | The scan returns the lowest legal column where the given side wins at once. It returns None exactly when no column wins at once. |
| `Agent.FallbackSearchMovesAgentTwice` | connect4_agent.py:196-200 | After the fallback probe, the search's first ply drops another AI disc into the lowest empty row of its column and only then hands the turn to the human. |
| `Agent.ScoresAreMinimax` | connect4_agent.py:196-201 | A column has a score exactly when it is legal. Its score is the unpruned minimax value of the grid after the AI's probe, searched to depth 4 minimizing first with the side to move left as it was (the AI), so the AI's plies minimize and the human's maximize. |
| `Agent.BestFromSpec` | connect4_agent.py:194-204 | Starting from a correct running best, the strict `>` scan ends on the first column of highest score. It ends on None exactly when no column is scored. |
| `Agent.BestColumnIsFirstMaximiser` | connect4_agent.py:193-204 | The fallback picks nothing exactly when every column is full. Otherwise every earlier scored column scores strictly less than the pick, and no later one scores more, so ties keep the lower index. |
| `Agent.SearchScoreIsMinimax` | connect4_agent.py:197-200 | Each fallback score equals the unpruned minimax value of the probed position, so pruning never changes the AI's choice. |
| `Agent.Decide` | connect4_agent.py:168-204 | The AI finds no move exactly when every column is full. Otherwise it plays the lowest immediately winning column if one exists. Failing that, it plays the lowest column where the human would win. Failing both, it plays the first column of highest search score. |
| `Agent.BlockAt` | connect4_agent.py:183-187 | The block as written writes the human's probe, clears it, then writes the AI's disc. The result is the grid with the AI's disc at the lowest empty row. |
| `Agent.AiMoveOutcome` | connect4_agent.py:168-216 | On the AI's turn, either every column is full and the game is untouched, or exactly one AI disc lands at the lowest empty row of the chosen legal column. After a win the AI stays to move and is the winner. After a block the human is to move. After a searched move the turn passes exactly when nobody has won and the top row is not full. Gravity is preserved. |
| `InPlace.GameState.constructor` | connect4_agent.py:9-11 | `Connect4Game()` allocates a fresh 6 x 7 array whose contents, with the side to move, are exactly the functional `NewGame()`: every cell empty and the human to move. |
| `InPlace.GameState.FindEmptyRowInCol` | connect4_agent.py:27-31 | The loop from row 5 up to row 0 over the array returns what the functional `find_empty_row_in_col` returns on the grid the array holds. |
| `InPlace.GameState.Drop` | connect4_agent.py:80-82 | Writing `current_player` at the found row and toggling turns the mutable game into the child position. |
| `InPlace.GameState.Lift` | connect4_agent.py:84-85 | Clearing the cell and toggling back turns the child position into the original game. |
| `InPlace.GameState.SearchChild` | connect4_agent.py:79-85 | One pass through the body of either loop returns the child's search value and leaves the board and the side to move as they were. |
| `InPlace.GameState.MaxSearch` | connect4_agent.py:76-90 | The in-place maximizing loop, break included, returns the functional loop's value and restores the game. |
| `InPlace.GameState.MinSearch` | connect4_agent.py:91-105 | The in-place minimizing loop, break included, returns the functional loop's value and restores the game. |
| `InPlace.GameState.AlphaBeta` | connect4_agent.py:68-105 | In-place `minimax` returns the functional `Search.AlphaBeta` value of the game it is given, with the board array and the side to move back as they were on entry. The leaf test reads the array. |

## Left out

- The Tkinter window, canvas, colours, button, click mapping, `draw_board`,
  `draw_pieces`, `show_winner`, `show_draw` and `main`. These are
  presentation code calling a foreign library. Inside `ai_move`, the drawing
  and announcement calls are dropped; the decision and the resulting game
  are returned instead.
- `handle_click` is not modelled. It is the human's turn handler and is not
  part of the agent.
- The `master.after(500, ...)` delays. They are UI timing with no logical
  content.
- `restart_game` and the `game_count` parity that lets the AI start every
  second game. This logic is tangled with widget resets. `NewGame` models
  `Connect4Game()`.
- The unused `random` and `time` imports.
- Floating point: the infinite alpha-beta bounds are the `ExtInt`
  sentinels, and all finite scores are integers.
- Out-of-range columns: the model requires `0 <= col < 7`, so Python's
  wrap-around of `board[0][-1]` is not modelled.
- The `row is None` branch of `make_move` is not modelled: it is dead,
  because a legal column (empty top cell) always has an empty row.
- The in-place, array-based version covers `minimax` only. The probes of
  `ai_move` are modelled functionally, in `Agent`.
- Agent.AiMoveOutcome: requires the AI to be the side to move. The source
  only ever calls `ai_move` after handing the turn to the AI.
