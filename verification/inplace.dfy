/**
 The searches as the strategies run them: on the caller's own 3×3 board,
 placing a marker, recursing, and clearing the cell again before moving on.
 Each method leaves the board exactly as it found it, on every return path
 (including alpha-beta's early returns), and computes the value or move of
 the functional definitions.
 */
module InPlace {
  import opened Boards
  import opened Rules
  import opened Minimax
  import opened AlphaBeta

  /** The board[row][col] grid of the strategies. */
  predicate Is3x3(a: array2<Cell>) {
    a.Length0 == 3 && a.Length1 == 3
  }

  /** The grid read in row-major order. */
  function Contents(a: array2<Cell>): (b: Board)
    requires Is3x3(a)
    reads a
    ensures forall row, col | 0 <= row < 3 && 0 <= col < 3 :: b[3 * row + col] == a[row, col]
  {
    [a[0, 0], a[0, 1], a[0, 2], a[1, 0], a[1, 1], a[1, 2], a[2, 0], a[2, 1], a[2, 2]]
  }

  /** `board[row][col] = c`: one cell changes and the rest of the grid stays as it was. */
  method SetCell(a: array2<Cell>, row: int, col: int, c: Cell)
    requires Is3x3(a) && 0 <= row < 3 && 0 <= col < 3
    modifies a
    ensures Contents(a) == Place(old(Contents(a)), 3 * row + col, c)
  {
    a[row, col] := c;
  }

  /** One turn of the maximising loop at cell k, with `value` the child's value when k is empty. */
  lemma MaxOverMovesStep(b: Board, player: Player, k: nat, best: int, value: int)
    requires k < 9
    requires b[k] == Empty ==> value == Value(PlayerChild(b, player, k), player, false)
    ensures b[k] != Empty ==> MaxOverMoves(b, player, k, best) == MaxOverMoves(b, player, k + 1, best)
    ensures b[k] == Empty ==> MaxOverMoves(b, player, k, best) == MaxOverMoves(b, player, k + 1, Max(best, value))
  {
  }

  /** One turn of the minimising loop at cell k. */
  lemma MinOverMovesStep(b: Board, player: Player, k: nat, best: int, value: int)
    requires k < 9
    requires b[k] == Empty ==> value == Value(OpponentChild(b, player, k), player, true)
    ensures b[k] != Empty ==> MinOverMoves(b, player, k, best) == MinOverMoves(b, player, k + 1, best)
    ensures b[k] == Empty ==> MinOverMoves(b, player, k, best) == MinOverMoves(b, player, k + 1, Min(best, value))
  {
  }

  /** One turn of the maximising cutoff loop at cell k: either it stops with the new best or it moves on with the raised alpha. */
  lemma MaxWithCutoffStep(b: Board, player: Player, k: nat, alpha: int, beta: int, best: int, value: int)
    requires k < 9
    requires b[k] == Empty ==> value == Search(PlayerChild(b, player, k), player, alpha, beta, false)
    ensures b[k] != Empty ==> MaxWithCutoff(b, player, k, alpha, beta, best) == MaxWithCutoff(b, player, k + 1, alpha, beta, best)
    ensures b[k] == Empty && beta <= Max(alpha, Max(best, value)) ==> MaxWithCutoff(b, player, k, alpha, beta, best) == Max(best, value)
    ensures b[k] == Empty && beta > Max(alpha, Max(best, value)) ==>
              MaxWithCutoff(b, player, k, alpha, beta, best) == MaxWithCutoff(b, player, k + 1, Max(alpha, Max(best, value)), beta, Max(best, value))
  {
  }

  /** One turn of the minimising cutoff loop at cell k. */
  lemma MinWithCutoffStep(b: Board, player: Player, k: nat, alpha: int, beta: int, best: int, value: int)
    requires k < 9
    requires b[k] == Empty ==> value == Search(OpponentChild(b, player, k), player, alpha, beta, true)
    ensures b[k] != Empty ==> MinWithCutoff(b, player, k, alpha, beta, best) == MinWithCutoff(b, player, k + 1, alpha, beta, best)
    ensures b[k] == Empty && Min(beta, Min(best, value)) <= alpha ==> MinWithCutoff(b, player, k, alpha, beta, best) == Min(best, value)
    ensures b[k] == Empty && Min(beta, Min(best, value)) > alpha ==>
              MinWithCutoff(b, player, k, alpha, beta, best) == MinWithCutoff(b, player, k + 1, alpha, Min(beta, Min(best, value)), Min(best, value))
  {
  }

  /** One turn of make_move's loop at (row, col), with `value` the cell's score when it is empty. */
  lemma OptimalFromStep(b: Board, player: Player, row: int, col: int, bestValue: int, bestMove: Option<Pos>, value: int)
    requires 0 <= row < 3 && 0 <= col < 3
    requires b[3 * row + col] == Empty ==> value == RootValue(b, player, 3 * row + col)
    ensures b[3 * row + col] != Empty ==>
              OptimalFrom(b, player, 3 * row + col, bestValue, bestMove) == OptimalFrom(b, player, 3 * row + col + 1, bestValue, bestMove)
    ensures b[3 * row + col] == Empty && value > bestValue ==>
              OptimalFrom(b, player, 3 * row + col, bestValue, bestMove) == OptimalFrom(b, player, 3 * row + col + 1, value, Some(Pos(row, col)))
    ensures b[3 * row + col] == Empty && value <= bestValue ==>
              OptimalFrom(b, player, 3 * row + col, bestValue, bestMove) == OptimalFrom(b, player, 3 * row + col + 1, bestValue, bestMove)
  {
    PosOfIndex(Pos(row, col));
  }

  /** The same turn of the alpha-beta make_move loop. */
  lemma AlphaBetaFromStep(b: Board, player: Player, row: int, col: int, bestValue: int, bestMove: Option<Pos>, value: int)
    requires 0 <= row < 3 && 0 <= col < 3
    requires b[3 * row + col] == Empty ==> value == Search(PlayerChild(b, player, 3 * row + col), player, NegInf, PosInf, false)
    ensures b[3 * row + col] != Empty ==>
              AlphaBetaFrom(b, player, 3 * row + col, bestValue, bestMove) == AlphaBetaFrom(b, player, 3 * row + col + 1, bestValue, bestMove)
    ensures b[3 * row + col] == Empty && value > bestValue ==>
              AlphaBetaFrom(b, player, 3 * row + col, bestValue, bestMove) == AlphaBetaFrom(b, player, 3 * row + col + 1, value, Some(Pos(row, col)))
    ensures b[3 * row + col] == Empty && value <= bestValue ==>
              AlphaBetaFrom(b, player, 3 * row + col, bestValue, bestMove) == AlphaBetaFrom(b, player, 3 * row + col + 1, bestValue, bestMove)
  {
    PosOfIndex(Pos(row, col));
  }

  /**
   The inner minimax(board, depth, is_maximizing) of OptimalStrategy.make_move,
   run on the grid: it returns the minimax value and restores the grid.
   */
  method MinimaxInPlace(a: array2<Cell>, player: Player, maximizing: bool) returns (value: int)
    requires Is3x3(a)
    modifies a
    ensures Contents(a) == old(Contents(a))
    ensures value == Value(old(Contents(a)), player, maximizing)
    decreases EmptyCount(Contents(a)), 2
  {
    var b := Contents(a);
    if CheckWin(b, player) {
      return 1;
    }
    if CheckWin(b, Opponent(player)) {
      return -1;
    }
    if IsFull(b) {
      return 0;
    }
    if maximizing {
      value := MaxPlyInPlace(a, player);
    } else {
      value := MinPlyInPlace(a, player);
    }
  }

  /**
   Place player's marker on the empty (row, col), score the board with
   minimax(board, depth + 1, False), clear the cell again. This is also the
   body of make_move's own loop.
   */
  method PlayerCellValue(a: array2<Cell>, player: Player, row: int, col: int) returns (value: int)
    requires Is3x3(a) && 0 <= row < 3 && 0 <= col < 3 && a[row, col] == Empty
    modifies a
    ensures Contents(a) == old(Contents(a))
    ensures value == RootValue(old(Contents(a)), player, 3 * row + col)
    decreases EmptyCount(Contents(a)), 0
  {
    var b := Contents(a);
    PlaceFillsOneCell(b, 3 * row + col, player);
    SetCell(a, row, col, Mark(player));
    value := MinimaxInPlace(a, player, false);
    SetCell(a, row, col, Empty);
    UndoRestores(b, 3 * row + col, player);
  }

  /** Place the opponent's marker on the empty (row, col), score with minimax(board, depth + 1, True), clear the cell. */
  method OpponentCellValue(a: array2<Cell>, player: Player, row: int, col: int) returns (value: int)
    requires Is3x3(a) && 0 <= row < 3 && 0 <= col < 3 && a[row, col] == Empty
    modifies a
    ensures Contents(a) == old(Contents(a))
    ensures value == Value(OpponentChild(old(Contents(a)), player, 3 * row + col), player, true)
    decreases EmptyCount(Contents(a)), 0
  {
    var b := Contents(a);
    PlaceFillsOneCell(b, 3 * row + col, Opponent(player));
    SetCell(a, row, col, Mark(Opponent(player)));
    value := MinimaxInPlace(a, player, true);
    SetCell(a, row, col, Empty);
    UndoRestores(b, 3 * row + col, Opponent(player));
  }

  /** The maximising branch of minimax: player tries every empty cell in row-major order. */
  method MaxPlyInPlace(a: array2<Cell>, player: Player) returns (best: int)
    requires Is3x3(a)
    modifies a
    ensures Contents(a) == old(Contents(a))
    ensures best == MaxOverMoves(old(Contents(a)), player, 0, NegInf)
    decreases EmptyCount(Contents(a)), 1
  {
    var b := Contents(a);
    best := NegInf;
    for row := 0 to 3
      invariant Contents(a) == b
      invariant MaxOverMoves(b, player, 3 * row, best) == MaxOverMoves(b, player, 0, NegInf)
    {
      for col := 0 to 3
        invariant Contents(a) == b
        invariant MaxOverMoves(b, player, 3 * row + col, best) == MaxOverMoves(b, player, 0, NegInf)
      {
        if a[row, col] == Empty {
          var value := PlayerCellValue(a, player, row, col);
          MaxOverMovesStep(b, player, 3 * row + col, best, value);
          best := Max(best, value);
        } else {
          MaxOverMovesStep(b, player, 3 * row + col, best, 0);
        }
      }
    }
  }

  /** The minimising branch of minimax: the opponent tries every empty cell in row-major order. */
  method MinPlyInPlace(a: array2<Cell>, player: Player) returns (best: int)
    requires Is3x3(a)
    modifies a
    ensures Contents(a) == old(Contents(a))
    ensures best == MinOverMoves(old(Contents(a)), player, 0, PosInf)
    decreases EmptyCount(Contents(a)), 1
  {
    var b := Contents(a);
    best := PosInf;
    for row := 0 to 3
      invariant Contents(a) == b
      invariant MinOverMoves(b, player, 3 * row, best) == MinOverMoves(b, player, 0, PosInf)
    {
      for col := 0 to 3
        invariant Contents(a) == b
        invariant MinOverMoves(b, player, 3 * row + col, best) == MinOverMoves(b, player, 0, PosInf)
      {
        if a[row, col] == Empty {
          var value := OpponentCellValue(a, player, row, col);
          MinOverMovesStep(b, player, 3 * row + col, best, value);
          best := Min(best, value);
        } else {
          MinOverMovesStep(b, player, 3 * row + col, best, 0);
        }
      }
    }
  }

  /**
   OptimalStrategy.make_move on the grid: the grid is unchanged afterwards and
   the move is the functional root loop's, the first empty cell of maximal
   value, or none on a full board.
   */
  method OptimalMakeMove(a: array2<Cell>, player: Player) returns (move: Option<Pos>)
    requires Is3x3(a)
    modifies a
    ensures Contents(a) == old(Contents(a))
    ensures move == OptimalMove(old(Contents(a)), player)
  {
    var b := Contents(a);
    move := None;
    var bestValue := NegInf;
    for row := 0 to 3
      invariant Contents(a) == b
      invariant OptimalFrom(b, player, 3 * row, bestValue, move) == OptimalMove(b, player)
    {
      for col := 0 to 3
        invariant Contents(a) == b
        invariant OptimalFrom(b, player, 3 * row + col, bestValue, move) == OptimalMove(b, player)
      {
        if a[row, col] == Empty {
          var value := PlayerCellValue(a, player, row, col);
          OptimalFromStep(b, player, row, col, bestValue, move, value);
          if value > bestValue {
            bestValue, move := value, Some(Pos(row, col));
          }
        } else {
          OptimalFromStep(b, player, row, col, bestValue, move, 0);
        }
      }
    }
  }

  /**
   The inner minimax(board, depth, alpha, beta, is_maximizing) of
   OptimalStrategyAlphaBeta.make_move on the grid: it returns the alpha-beta
   value and restores the grid.
   */
  method AlphaBetaInPlace(a: array2<Cell>, player: Player, alpha: int, beta: int, maximizing: bool) returns (value: int)
    requires Is3x3(a)
    modifies a
    ensures Contents(a) == old(Contents(a))
    ensures value == Search(old(Contents(a)), player, alpha, beta, maximizing)
    decreases EmptyCount(Contents(a)), 2
  {
    var b := Contents(a);
    if CheckWin(b, player) {
      return 1;
    }
    if CheckWin(b, Opponent(player)) {
      return -1;
    }
    if IsFull(b) {
      return 0;
    }
    if maximizing {
      value := MaxCutoffInPlace(a, player, alpha, beta);
    } else {
      value := MinCutoffInPlace(a, player, alpha, beta);
    }
  }

  /** Place player's marker on the empty (row, col), run the alpha-beta minimax with window (alpha, beta), clear the cell. */
  method PlayerCellSearch(a: array2<Cell>, player: Player, row: int, col: int, alpha: int, beta: int) returns (value: int)
    requires Is3x3(a) && 0 <= row < 3 && 0 <= col < 3 && a[row, col] == Empty
    modifies a
    ensures Contents(a) == old(Contents(a))
    ensures value == Search(PlayerChild(old(Contents(a)), player, 3 * row + col), player, alpha, beta, false)
    decreases EmptyCount(Contents(a)), 0
  {
    var b := Contents(a);
    PlaceFillsOneCell(b, 3 * row + col, player);
    SetCell(a, row, col, Mark(player));
    value := AlphaBetaInPlace(a, player, alpha, beta, false);
    SetCell(a, row, col, Empty);
    UndoRestores(b, 3 * row + col, player);
  }

  /** Place the opponent's marker on the empty (row, col), run the alpha-beta minimax, clear the cell. */
  method OpponentCellSearch(a: array2<Cell>, player: Player, row: int, col: int, alpha: int, beta: int) returns (value: int)
    requires Is3x3(a) && 0 <= row < 3 && 0 <= col < 3 && a[row, col] == Empty
    modifies a
    ensures Contents(a) == old(Contents(a))
    ensures value == Search(OpponentChild(old(Contents(a)), player, 3 * row + col), player, alpha, beta, true)
    decreases EmptyCount(Contents(a)), 0
  {
    var b := Contents(a);
    PlaceFillsOneCell(b, 3 * row + col, Opponent(player));
    SetCell(a, row, col, Mark(Opponent(player)));
    value := AlphaBetaInPlace(a, player, alpha, beta, true);
    SetCell(a, row, col, Empty);
    UndoRestores(b, 3 * row + col, Opponent(player));
  }

  /**
   The maximising branch of the alpha-beta minimax. A cutoff returns only
   after the cell just tried has been cleared, so the grid is restored on
   every path.
   */
  method MaxCutoffInPlace(a: array2<Cell>, player: Player, alpha: int, beta: int) returns (best: int)
    requires Is3x3(a)
    modifies a
    ensures Contents(a) == old(Contents(a))
    ensures best == MaxWithCutoff(old(Contents(a)), player, 0, alpha, beta, NegInf)
    decreases EmptyCount(Contents(a)), 1
  {
    var b := Contents(a);
    best := NegInf;
    var lo := alpha;
    for row := 0 to 3
      invariant Contents(a) == b
      invariant MaxWithCutoff(b, player, 3 * row, lo, beta, best) == MaxWithCutoff(b, player, 0, alpha, beta, NegInf)
    {
      for col := 0 to 3
        invariant Contents(a) == b
        invariant MaxWithCutoff(b, player, 3 * row + col, lo, beta, best) == MaxWithCutoff(b, player, 0, alpha, beta, NegInf)
      {
        if a[row, col] == Empty {
          var value := PlayerCellSearch(a, player, row, col, lo, beta);
          MaxWithCutoffStep(b, player, 3 * row + col, lo, beta, best, value);
          best := Max(best, value);
          lo := Max(lo, best);
          if beta <= lo {
            return best;
          }
        } else {
          MaxWithCutoffStep(b, player, 3 * row + col, lo, beta, best, 0);
        }
      }
    }
  }

  /** The minimising branch of the alpha-beta minimax, with the same restore-before-return discipline. */
  method MinCutoffInPlace(a: array2<Cell>, player: Player, alpha: int, beta: int) returns (best: int)
    requires Is3x3(a)
    modifies a
    ensures Contents(a) == old(Contents(a))
    ensures best == MinWithCutoff(old(Contents(a)), player, 0, alpha, beta, PosInf)
    decreases EmptyCount(Contents(a)), 1
  {
    var b := Contents(a);
    best := PosInf;
    var hi := beta;
    for row := 0 to 3
      invariant Contents(a) == b
      invariant MinWithCutoff(b, player, 3 * row, alpha, hi, best) == MinWithCutoff(b, player, 0, alpha, beta, PosInf)
    {
      for col := 0 to 3
        invariant Contents(a) == b
        invariant MinWithCutoff(b, player, 3 * row + col, alpha, hi, best) == MinWithCutoff(b, player, 0, alpha, beta, PosInf)
      {
        if a[row, col] == Empty {
          var value := OpponentCellSearch(a, player, row, col, alpha, hi);
          MinWithCutoffStep(b, player, 3 * row + col, alpha, hi, best, value);
          best := Min(best, value);
          hi := Min(hi, best);
          if hi <= alpha {
            return best;
          }
        } else {
          MinWithCutoffStep(b, player, 3 * row + col, alpha, hi, best, 0);
        }
      }
    }
  }

  /**
   OptimalStrategyAlphaBeta.make_move on the grid: the root window stays
   (-inf, +inf); the grid is unchanged afterwards and the move is the one
   OptimalStrategy.make_move returns.
   */
  method AlphaBetaMakeMove(a: array2<Cell>, player: Player) returns (move: Option<Pos>)
    requires Is3x3(a)
    modifies a
    ensures Contents(a) == old(Contents(a))
    ensures move == AlphaBetaMove(old(Contents(a)), player)
    ensures move == OptimalMove(old(Contents(a)), player)
  {
    var b := Contents(a);
    move := None;
    var bestValue := NegInf;
    for row := 0 to 3
      invariant Contents(a) == b
      invariant AlphaBetaFrom(b, player, 3 * row, bestValue, move) == AlphaBetaMove(b, player)
    {
      for col := 0 to 3
        invariant Contents(a) == b
        invariant AlphaBetaFrom(b, player, 3 * row + col, bestValue, move) == AlphaBetaMove(b, player)
      {
        if a[row, col] == Empty {
          var value := PlayerCellSearch(a, player, row, col, NegInf, PosInf);
          AlphaBetaFromStep(b, player, row, col, bestValue, move, value);
          if value > bestValue {
            bestValue, move := value, Some(Pos(row, col));
          }
        } else {
          AlphaBetaFromStep(b, player, row, col, bestValue, move, 0);
        }
      }
    }
    AlphaBetaFromMatchesOptimalFrom(b, player, 0, NegInf, None);
  }
}
