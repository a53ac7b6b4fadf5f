# Tic-tac-toe move selection, modelled in Dafny

This project models the decision core of a two-player tic-tac-toe game with a
computer opponent. It covers:

- the board primitives;
- the win/draw evaluator;
- the three move strategies: `RandomStrategy`, `OptimalStrategy` (full minimax)
  and `OptimalStrategyAlphaBeta` (minimax with an alpha-beta window);
- the AI turn of the game loop (`make_ai_move`).

The board is nine cells in row-major order. Cell `(row, col)` is index
`3 * row + col`. A cell is `Empty` (the source's `''`) or `Mark(X)` / `Mark(O)`.

Modules, in dependency order:

- `Boards` (boards.dfy): cells, players, the board, positions, placement and
  undo, the number of empty cells, and `get_empty_cells`.
- `Rules` (rules.dfy): the strategies' `check_win(board, player)`, the game's
  `check_win()` winner scan, and the full-board test (`check_draw`, and the
  `all(... != '')` test inside the search).
- `Minimax` (minimax.dfy): the recursive `minimax` value, its two loops, and
  the root selection of `OptimalStrategy.make_move`.
- `AlphaBeta` (alphabeta.dfy): the pruned search with its cutoff loops, the
  window theorem relating it to plain minimax, and the root selection of
  `OptimalStrategyAlphaBeta.make_move`.
- `InPlace` (inplace.dfy): the same searches run the way the source runs them.
  They work on the caller's `array2` grid, placing a marker, recursing and
  clearing the cell again. Each method returns the functional value and
  leaves the grid exactly as it found it, including after alpha-beta's early
  returns.
- `Game` (game.dfy): the random strategy, `is_valid_move`, `update_board`,
  strategy dispatch, and `make_ai_move`.

The search functions are pure and recursive. Each recursive call has one
empty cell fewer, so they terminate on the measure `EmptyCount`. Each loop
of the source is a function over the cell index `k`; the loop's running
variables are parameters. The float sentinels `-inf` and `+inf` are the
integers `NegInf = -2` and `PosInf = 2`. Every real value is in {-1, 0, 1},
so nothing changes.

Two consequences of the code's root loops:

- The root `alpha` and `beta` of the alpha-beta strategy are never updated
  (tic_tac_toe.py:132-139), so every root child is searched with the full
  window. That is why the two optimal strategies agree move for move.
- The strategy does not always block an immediate threat. It keeps the first
  empty cell of strictly greater value, so when every move has value -1 it
  returns the first empty cell (`IsFirstBest`).

## Model

| member | source | states |
|---|---|---|
| `Boards.Opponent` | tic_tac_toe.py:21 | The opponent is the other marker: never the player itself, and 'O' exactly for 'X'. |
| `Boards.PlaceFillsOneCell` | tic_tac_toe.py:47-49 | Placing a marker on an empty cell removes exactly that cell from the empty cells, so the recursive call sees one empty cell fewer. This is the termination measure of every search. |
| `Boards.UndoRestores` | tic_tac_toe.py:48-50 | Placing a marker on an empty cell and then writing `''` back gives the original board. |
| `Boards.EmptyCells` | tic_tac_toe.py:216-223 | `get_empty_cells` lists only valid, empty cells. Every empty cell is on the list, in strictly increasing row-major order, so there are no duplicates. |
| `Boards.EmptyCellsCount` | tic_tac_toe.py:216-223 | The empty-cell list has exactly one entry per empty cell. |
| `Rules.ScanCoversLines` | tic_tac_toe.py:24-32 | check_win's scan covers exactly the 8 lines: row i and column i for i = 0..2, then the two diagonals. |
| `Rules.CheckWinFromScansLines` | tic_tac_toe.py:24-32 | The row/column loop of `check_win` from index i on, followed by the two diagonal tests, succeeds exactly when p owns row j or column j for some j >= i, or a diagonal. |
| `Rules.CheckWinIffHasLine` | tic_tac_toe.py:23-33 | `check_win(board, p)` is true iff p holds all three cells of one of the 3 rows, 3 columns or 2 diagonals. The alpha-beta class carries an identical copy (lines 83-93). |
| `Rules.Winner` | tic_tac_toe.py:186-199 | The game's `check_win()` reports only a player who has a line. It reports no one iff neither player has a line. A player who alone has a line is the one reported. |
| `Rules.IsFullIffNoEmptyCell` | tic_tac_toe.py:201-207 | `check_draw` (and the search's `all(... != '')`) is true iff no cell is empty, that is, iff the empty-cell list is empty. |
| `Minimax.Value` | tic_tac_toe.py:35-62 | `minimax` always returns a game outcome in {-1, 0, 1}, and terminates on the number of empty cells. |
| `Minimax.MaxOverMoves` | tic_tac_toe.py:43-52 | The maximising loop never drops below its starting best. Its result is the starting best or an outcome in {-1, 0, 1}. It is an outcome as soon as some cell from k on is empty. |
| `Minimax.MinOverMoves` | tic_tac_toe.py:53-62 | The minimising loop, mirrored: never above its starting best, and an outcome once some cell from k on is empty. |
| `Minimax.MaxOverMovesIsMaximum` | tic_tac_toe.py:43-52 | The maximising loop's result is at least the value of every child from k on (player fills an empty cell). It equals the starting best or one of those children's values. |
| `Minimax.MinOverMovesIsMinimum` | tic_tac_toe.py:53-62 | The minimising loop's result is at most every child's value (opponent fills an empty cell). It equals the starting best or one of them. |
| `Minimax.MaxPlyValue` | tic_tac_toe.py:43-52 | At an undecided maximising ply, `minimax` is at least every child's value (player fills an empty cell), and some empty cell attains it. |
| `Minimax.MinPlyValue` | tic_tac_toe.py:53-62 | At an undecided minimising ply, `minimax` is at most every child's value (opponent fills an empty cell), and some empty cell attains it. |
| `Minimax.ValueRecurrence` | tic_tac_toe.py:35-62 | The minimax recurrence. The value is +1 if player has a line. Otherwise it is -1 if the opponent has one. Otherwise it is 0 on a full board. Otherwise it is the maximum over player's moves (maximising ply) or the minimum over the opponent's moves (minimising ply), attained by some empty cell. |
| `Minimax.OptimalFromChoosesFirstBest` | tic_tac_toe.py:67-75 | The root loop's invariant: the kept move is the first empty cell seen so far of maximal value. The strict `>` keeps the earlier cell on ties. On completion the result satisfies the selection rule. |
| `Minimax.OptimalMoveIsFirstBest` | tic_tac_toe.py:64-77 | `OptimalStrategy.make_move` returns `(None, None)` iff the board has no empty cell. Otherwise it returns an empty cell of maximal minimax value, and no earlier empty cell in row-major order has that value. |
| `Minimax.FirstBestIsUnique` | tic_tac_toe.py:73-75 | The selection rule determines the move: at most one move satisfies it. |
| `Minimax.ImmediateWinScoresOne` | tic_tac_toe.py:36-37 | Filling a cell that completes one of the player's lines has value +1. |
| `Minimax.WinAvailableMeansWinningMove` | tic_tac_toe.py:64-77 | When the player can complete a line at once, make_move returns a move of value +1. |
| `Minimax.TopRowIsCompleted` | tic_tac_toe.py:64-77 | With X on (0,0) and (0,1) and every other cell empty, make_move for X returns (0,2). |
| `AlphaBeta.SearchAgreesWithValue` | tic_tac_toe.py:95-128 | Window correctness for any NegInf <= alpha < beta <= PosInf. The alpha-beta value equals the minimax value when that value lies strictly inside (alpha, beta). It is <= alpha when the minimax value is <= alpha, and >= beta when the minimax value is >= beta. |
| `AlphaBeta.MaxWithCutoffAgrees` | tic_tac_toe.py:103-115 | The maximising cutoff loop agrees, on the node's window, with the plain maximising loop. This holds while alpha is the node's alpha raised to the running best, and the running bests agree on the window. A beta cutoff keeps this agreement. |
| `AlphaBeta.MinWithCutoffAgrees` | tic_tac_toe.py:116-128 | The same for the minimising cutoff loop and alpha cutoffs. |
| `AlphaBeta.FullWindowIsExact` | tic_tac_toe.py:130-139 | Searched with the root's window (-inf, +inf), the alpha-beta value equals the minimax value exactly. |
| `AlphaBeta.AlphaBetaFromMatchesOptimalFrom` | tic_tac_toe.py:135-143 | From any loop state, the alpha-beta root loop chooses the same move as the plain root loop. |
| `AlphaBeta.AlphaBetaMoveIsOptimalMove` | tic_tac_toe.py:130-145 | `OptimalStrategyAlphaBeta.make_move` returns the same move as `OptimalStrategy.make_move` on every board, so it follows the same selection rule. |
| `InPlace.SetCell` | tic_tac_toe.py:48 | `board[row][col] = c` changes that one cell of the grid and nothing else. |
| `InPlace.MinimaxInPlace` | tic_tac_toe.py:35-42 | The in-place minimax returns the minimax value of the grid it was given and leaves the grid as it found it. |
| `InPlace.MaxPlyInPlace` | tic_tac_toe.py:43-52 | The maximising branch places, recurses and clears each empty cell in row-major order. It returns the maximising loop's value with the grid restored. |
| `InPlace.MinPlyInPlace` | tic_tac_toe.py:53-62 | The minimising branch, likewise, with the opponent's marker. |
| `InPlace.PlayerCellValue` | tic_tac_toe.py:47-50 | Trying player's marker on an empty cell (place, recurse, clear) yields that child's minimax value and leaves the grid as it was. The root loop (lines 69-72) does the same. |
| `InPlace.OpponentCellValue` | tic_tac_toe.py:57-60 | The same for the opponent's marker at a minimising ply. |
| `InPlace.OptimalMakeMove` | tic_tac_toe.py:64-77 | `OptimalStrategy.make_move` on the caller's grid leaves the grid unchanged. It returns the functional root loop's move `Minimax.OptimalMove`, so by `Minimax.OptimalMoveIsFirstBest` it follows the selection rule. |
| `InPlace.AlphaBetaInPlace` | tic_tac_toe.py:95-102 | The in-place alpha-beta minimax returns the alpha-beta value and restores the grid. |
| `InPlace.PlayerCellSearch` | tic_tac_toe.py:107-110 | Trying player's marker on an empty cell under the alpha-beta search yields that child's alpha-beta value for the given window and restores the grid. |
| `InPlace.OpponentCellSearch` | tic_tac_toe.py:120-123 | The same for the opponent's marker. |
| `InPlace.MaxCutoffInPlace` | tic_tac_toe.py:103-115 | The maximising cutoff branch returns the cutoff loop's value. The grid is restored on every path, including the early return after `beta <= alpha`, which comes after the undo. |
| `InPlace.MinCutoffInPlace` | tic_tac_toe.py:116-128 | The minimising cutoff branch, likewise. |
| `InPlace.AlphaBetaMakeMove` | tic_tac_toe.py:130-145 | `OptimalStrategyAlphaBeta.make_move` on the grid leaves it unchanged and returns the same move as `OptimalStrategy.make_move`. |
| `Game.RandomMove` | tic_tac_toe.py:13-17 | `RandomStrategy.make_move` returns an empty cell, or `(None, None)` iff there is no empty cell. With exactly one empty cell it returns that cell. |
| `Game.IsValidMove` | tic_tac_toe.py:225-227 | A move is valid iff the position is on the `get_empty_cells` list. |
| `Game.UpdateBoard` | tic_tac_toe.py:209-214 | `update_board` succeeds iff the cell is empty. On success that cell gets the player's marker, every other cell is unchanged, and one empty cell fewer remains. On failure the board is unchanged. |
| `Game.PlacingHelpsOnlyTheMover` | tic_tac_toe.py:233-234 | Placing p's marker cannot create a line for p's opponent. |
| `Game.ProposeMove` | tic_tac_toe.py:231 | Each strategy proposes an empty cell, and no move iff the board is full. The two optimal strategies propose the move given by the selection rule. |
| `Game.EmptyBoardCells` | tic_tac_toe.py:161 | The board `reset` builds has all nine cells empty, so (by `Boards.EmptyCellsCount`) `get_empty_cells` lists nine cells. |
| `Game.EmptyBoardIsOpen` | tic_tac_toe.py:161-166 | On the board `reset` builds, neither player has a line and the board is not full. The game's `check_win()` reports no one, matching the `winner = None` that `reset` sets. |
| `Game.MakeAiMove` | tic_tac_toe.py:229-236 | `make_ai_move` acts only when a strategy is set and it is the AI's turn. It then places the AI's marker on the proposed empty cell, with one empty cell fewer, and recomputes the winner. The turn passes to the other player iff there is no winner. On a full board nothing changes. A winner after the move on a board without one can only be the AI. |

## Left out

- The pygame window, drawing, fonts, event polling, menus, `show_results`, the main loop with its `pygame.time.wait`, `sys.exit` and `print` (tic_tac_toe.py:147-184, 238-378) are left out. They are user interface and I/O with no algorithmic content.
- The human move in `handle_events` (tic_tac_toe.py:238-249) is left out. Its pixel-to-cell conversion is user interface; its place / check-winner / switch step is the one `Game.MakeAiMove` models.
- `Game.__init__` and the rest of `reset` are left out: they only set the initial fields. The board `reset` builds is `Boards.EmptyBoard`, and `Game.EmptyBoardCells` and `Game.EmptyBoardIsOpen` state that it starts with nine empty cells and no winner.
- The unused `depth` parameter of both `minimax` functions is dropped: it is passed down but never read.
- The float infinities are replaced by the integer sentinels -2 and +2, as described above.
- `Game.RandomMove`: `random.choice` is modelled as an arbitrary choice from the empty-cell list. Its uniform distribution is not stated, because Dafny has no probability model here.
- `Game.UpdateBoard` and `Game.IsValidMove` require 0 <= row, col < 3. Every caller passes such positions. Python's wrap-around for negative list indices is not modelled.
- Rules.Winner: when both players own a line, the scan returns whichever line comes first (rows and columns interleaved, then the diagonals). The contract does not say which player that is. The function follows the scan order, but such a board never arises in play.
- Players are exactly 'X' and 'O'. The source's `opponent` expression maps any marker other than 'X' to 'X'; no other marker is ever passed.
- Self-play from the empty board ending in a draw is not proved: it needs the whole game tree evaluated by the verifier.
- `AlphaBeta.SearchAgreesWithValue` states the three-case window property. The stronger fail-soft bounds (a result <= alpha is an upper bound of the true value; a result >= beta is a lower bound) are not stated.
