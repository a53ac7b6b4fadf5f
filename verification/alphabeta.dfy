/**
 The alpha-beta search of OptimalStrategyAlphaBeta. It has the same terminal
 tests and the same move order as the plain minimax, and it carries a window
 (alpha, beta). A maximising ply raises alpha to its best value so far and
 stops once beta <= alpha; a minimising ply lowers beta the same way. A
 cutoff returns the best value so far, so the search is fail-soft.
 */
module AlphaBeta {
  import opened Boards
  import opened Rules
  import opened Minimax

  /** minimax(board, depth, alpha, beta, is_maximizing) of OptimalStrategyAlphaBeta, without the unused depth. */
  function Search(b: Board, player: Player, alpha: int, beta: int, maximizing: bool): (v: int)
    decreases EmptyCount(b), 10
  {
    if CheckWin(b, player) then 1
    else if CheckWin(b, Opponent(player)) then -1
    else if IsFull(b) then 0
    else if maximizing then MaxWithCutoff(b, player, k := 0, alpha := alpha, beta := beta, best := NegInf)
    else MinWithCutoff(b, player, k := 0, alpha := alpha, beta := beta, best := PosInf)
  }

  /**
   The maximising loop from cell k on: after each child,
   `best_value = max(best_value, value)`, `alpha = max(alpha, best_value)`,
   and the loop returns best_value as soon as `beta <= alpha`.
   */
  function MaxWithCutoff(b: Board, player: Player, k: nat, alpha: int, beta: int, best: int): int
    requires k <= 9
    decreases EmptyCount(b), 9 - k
  {
    if k == 9 then best
    else if b[k] != Empty then MaxWithCutoff(b, player, k + 1, alpha, beta, best)
    else
      PlaceFillsOneCell(b, k, player);
      var value := Search(PlayerChild(b, player, k), player, alpha, beta, false);
      var best' := Max(best, value);
      var alpha' := Max(alpha, best');
      if beta <= alpha' then best'
      else MaxWithCutoff(b, player, k + 1, alpha', beta, best')
  }

  /**
   The minimising loop from cell k on: `best_value = min(best_value, value)`,
   `beta = min(beta, best_value)`, and a return as soon as `beta <= alpha`.
   */
  function MinWithCutoff(b: Board, player: Player, k: nat, alpha: int, beta: int, best: int): int
    requires k <= 9
    decreases EmptyCount(b), 9 - k
  {
    if k == 9 then best
    else if b[k] != Empty then MinWithCutoff(b, player, k + 1, alpha, beta, best)
    else
      PlaceFillsOneCell(b, k, Opponent(player));
      var value := Search(OpponentChild(b, player, k), player, alpha, beta, true);
      var best' := Min(best, value);
      var beta' := Min(beta, best');
      if beta' <= alpha then best'
      else MinWithCutoff(b, player, k + 1, alpha, beta', best')
  }

  /** x clipped to the window [lo, hi]. */
  ghost function Clamp(x: int, lo: int, hi: int): int {
    Max(lo, Min(hi, x))
  }

  /**
   Window correctness of a search result x for the true value t: x is exact
   when t lies strictly inside (alpha, beta), at most alpha when t is, and at
   least beta when t is.
   */
  ghost predicate WindowAgrees(x: int, t: int, alpha: int, beta: int) {
    && (t <= alpha ==> x <= alpha)
    && (alpha < t < beta ==> x == t)
    && (beta <= t ==> beta <= x)
  }

  /** Window correctness is the same as agreeing once both values are clipped to the window. */
  lemma WindowAgreesIffClamp(x: int, t: int, alpha: int, beta: int)
    requires alpha < beta
    ensures WindowAgrees(x, t, alpha, beta) <==> Clamp(x, alpha, beta) == Clamp(t, alpha, beta)
  {
  }

  /**
   One step of the maximising loop keeps the two best-so-far values in
   agreement on the node's window (alpha0, beta), given that the child's two
   values agree on the narrower window (alpha, beta) the child was searched with.
   */
  lemma ClampMaxStep(alpha0: int, alpha: int, beta: int, best: int, trueBest: int, value: int, trueValue: int)
    requires alpha0 < beta && alpha == Max(alpha0, best) && best < beta
    requires Clamp(best, alpha0, beta) == Clamp(trueBest, alpha0, beta)
    requires Clamp(value, alpha, beta) == Clamp(trueValue, alpha, beta)
    ensures Clamp(Max(best, value), alpha0, beta) == Clamp(Max(trueBest, trueValue), alpha0, beta)
  {
  }

  /** The minimising counterpart of ClampMaxStep. */
  lemma ClampMinStep(alpha: int, beta0: int, beta: int, best: int, trueBest: int, value: int, trueValue: int)
    requires alpha < beta0 && beta == Min(beta0, best) && alpha < best
    requires Clamp(best, alpha, beta0) == Clamp(trueBest, alpha, beta0)
    requires Clamp(value, alpha, beta) == Clamp(trueValue, alpha, beta)
    ensures Clamp(Min(best, value), alpha, beta0) == Clamp(Min(trueBest, trueValue), alpha, beta0)
  {
  }

  /**
   Fail-soft correctness: with NegInf <= alpha < beta <= PosInf the alpha-beta
   value agrees with the plain minimax value on the window (alpha, beta).
   */
  lemma {:induction false} SearchAgreesWithValue(b: Board, player: Player, alpha: int, beta: int, maximizing: bool)
    requires NegInf <= alpha < beta <= PosInf
    ensures WindowAgrees(Search(b, player, alpha, beta, maximizing), Value(b, player, maximizing), alpha, beta)
    decreases EmptyCount(b), 10
  {
    if !Terminal(b, player) {
      if maximizing {
        MaxWithCutoffAgrees(b, player, 0, alpha, alpha, beta, NegInf, NegInf);
      } else {
        MinWithCutoffAgrees(b, player, 0, alpha, beta, beta, PosInf, PosInf);
      }
    }
    WindowAgreesIffClamp(Search(b, player, alpha, beta, maximizing), Value(b, player, maximizing), alpha, beta);
  }

  /**
   The maximising loop, entered with window (alpha0, beta): `alpha` is alpha0
   raised to the alpha-beta best so far (`best`), which is still below beta,
   and `best` agrees on the window with the plain loop's best so far
   (`trueBest`). Then the two loops' results agree on the window.
   */
  lemma {:induction false} MaxWithCutoffAgrees(b: Board, player: Player, k: nat, alpha0: int, alpha: int, beta: int,
                                               best: int, trueBest: int)
    requires k <= 9
    requires NegInf <= alpha0 < beta <= PosInf
    requires alpha == Max(alpha0, best) && best < beta
    requires Clamp(best, alpha0, beta) == Clamp(trueBest, alpha0, beta)
    ensures Clamp(MaxWithCutoff(b, player, k, alpha, beta, best), alpha0, beta)
         == Clamp(MaxOverMoves(b, player, k, trueBest), alpha0, beta)
    decreases EmptyCount(b), 9 - k
  {
    if k < 9 {
      if b[k] != Empty {
        MaxWithCutoffAgrees(b, player, k + 1, alpha0, alpha, beta, best, trueBest);
      } else {
        var child := PlayerChild(b, player, k);
        PlaceFillsOneCell(b, k, player);
        SearchAgreesWithValue(child, player, alpha, beta, false);
        var value := Search(child, player, alpha, beta, false);
        var trueValue := Value(child, player, false);
        WindowAgreesIffClamp(value, trueValue, alpha, beta);
        var best' := Max(best, value);
        var trueBest' := Max(trueBest, trueValue);
        ClampMaxStep(alpha0, alpha, beta, best, trueBest, value, trueValue);
        assert MaxOverMoves(b, player, k, trueBest) == MaxOverMoves(b, player, k + 1, trueBest');
        var alpha' := Max(alpha, best');
        if beta <= alpha' {
          assert MaxWithCutoff(b, player, k, alpha, beta, best) == best';
        } else {
          assert MaxWithCutoff(b, player, k, alpha, beta, best) == MaxWithCutoff(b, player, k + 1, alpha', beta, best');
          MaxWithCutoffAgrees(b, player, k + 1, alpha0, alpha', beta, best', trueBest');
        }
      }
    }
  }

  /** The minimising loop, entered with window (alpha, beta0), mirrored. */
  lemma {:induction false} MinWithCutoffAgrees(b: Board, player: Player, k: nat, alpha: int, beta0: int, beta: int,
                                               best: int, trueBest: int)
    requires k <= 9
    requires NegInf <= alpha < beta0 <= PosInf
    requires beta == Min(beta0, best) && alpha < best
    requires Clamp(best, alpha, beta0) == Clamp(trueBest, alpha, beta0)
    ensures Clamp(MinWithCutoff(b, player, k, alpha, beta, best), alpha, beta0)
         == Clamp(MinOverMoves(b, player, k, trueBest), alpha, beta0)
    decreases EmptyCount(b), 9 - k
  {
    if k < 9 {
      if b[k] != Empty {
        MinWithCutoffAgrees(b, player, k + 1, alpha, beta0, beta, best, trueBest);
      } else {
        var child := OpponentChild(b, player, k);
        PlaceFillsOneCell(b, k, Opponent(player));
        SearchAgreesWithValue(child, player, alpha, beta, true);
        var value := Search(child, player, alpha, beta, true);
        var trueValue := Value(child, player, true);
        WindowAgreesIffClamp(value, trueValue, alpha, beta);
        var best' := Min(best, value);
        var trueBest' := Min(trueBest, trueValue);
        ClampMinStep(alpha, beta0, beta, best, trueBest, value, trueValue);
        assert MinOverMoves(b, player, k, trueBest) == MinOverMoves(b, player, k + 1, trueBest');
        var beta' := Min(beta, best');
        if beta' <= alpha {
          assert MinWithCutoff(b, player, k, alpha, beta, best) == best';
        } else {
          assert MinWithCutoff(b, player, k, alpha, beta, best) == MinWithCutoff(b, player, k + 1, alpha, beta', best');
          MinWithCutoffAgrees(b, player, k + 1, alpha, beta0, beta', best', trueBest');
        }
      }
    }
  }

  /** With the full window (-inf, +inf) the alpha-beta search returns exactly the minimax value. */
  lemma FullWindowIsExact(b: Board, player: Player, maximizing: bool)
    ensures Search(b, player, NegInf, PosInf, maximizing) == Value(b, player, maximizing)
  {
    SearchAgreesWithValue(b, player, NegInf, PosInf, maximizing);
  }

  /**
   The root loop of OptimalStrategyAlphaBeta.make_move: the root alpha and
   beta stay at -inf and +inf, so every root child is searched with the full
   window; selection is by strict `>` as in OptimalStrategy.
   */
  function AlphaBetaFrom(b: Board, player: Player, k: nat, bestValue: int, bestMove: Option<Pos>): Option<Pos>
    requires k <= 9
    decreases 9 - k
  {
    if k == 9 then bestMove
    else if b[k] != Empty then AlphaBetaFrom(b, player, k + 1, bestValue, bestMove)
    else
      var value := Search(PlayerChild(b, player, k), player, NegInf, PosInf, false);
      if value > bestValue then AlphaBetaFrom(b, player, k + 1, value, Some(PosOf(k)))
      else AlphaBetaFrom(b, player, k + 1, bestValue, bestMove)
  }

  /** OptimalStrategyAlphaBeta.make_move. */
  function AlphaBetaMove(b: Board, player: Player): Option<Pos> {
    AlphaBetaFrom(b, player, 0, NegInf, None)
  }

  lemma {:induction false} AlphaBetaFromMatchesOptimalFrom(b: Board, player: Player, k: nat, bestValue: int, bestMove: Option<Pos>)
    requires k <= 9
    ensures AlphaBetaFrom(b, player, k, bestValue, bestMove) == OptimalFrom(b, player, k, bestValue, bestMove)
    decreases 9 - k
  {
    if k < 9 {
      if b[k] != Empty {
        AlphaBetaFromMatchesOptimalFrom(b, player, k + 1, bestValue, bestMove);
      } else {
        FullWindowIsExact(PlayerChild(b, player, k), player, false);
        AlphaBetaFromMatchesOptimalFrom(b, player, k + 1, bestValue, bestMove);
        AlphaBetaFromMatchesOptimalFrom(b, player, k + 1, RootValue(b, player, k), Some(PosOf(k)));
      }
    }
  }

  /** Pruning never changes the choice: both optimal strategies return the same move on every board. */
  lemma AlphaBetaMoveIsOptimalMove(b: Board, player: Player)
    ensures AlphaBetaMove(b, player) == OptimalMove(b, player)
    ensures IsFirstBest(b, player, AlphaBetaMove(b, player))
  {
    AlphaBetaFromMatchesOptimalFrom(b, player, 0, NegInf, None);
    OptimalMoveIsFirstBest(b, player);
  }
}
