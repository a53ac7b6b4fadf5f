/**
 The full minimax search of OptimalStrategy. The value of a position is
 taken from the point of view of `player` (the side the strategy moves
 for): +1 if player has a line, -1 if the opponent has one, 0 on a full
 board, and otherwise the maximum (player to move) or minimum (opponent to
 move) over the children reached by filling one empty cell, the cells being
 tried in row-major order.
 */
module Minimax {
  import opened Boards
  import opened Rules

  /** Integer stand-ins for -float('inf') and float('inf'): every real value lies strictly between them. */
  const NegInf: int := -2
  const PosInf: int := 2

  function Max(a: int, b: int): int { if a >= b then a else b }
  function Min(a: int, b: int): int { if a <= b then a else b }

  /** Some empty cell has index at least k. */
  ghost predicate HasEmptyFrom(b: Board, k: nat) {
    exists j | k <= j < 9 :: b[j] == Empty
  }

  /** The position is decided: someone has a line or the board is full. */
  ghost predicate Terminal(b: Board, player: Player) {
    CheckWin(b, player) || CheckWin(b, Opponent(player)) || IsFull(b)
  }

  /**
   minimax(board, depth, is_maximizing) of OptimalStrategy; the unused depth
   is dropped. Every value is a game outcome: -1, 0 or +1.
   */
  function Value(b: Board, player: Player, maximizing: bool): (v: int)
    ensures -1 <= v <= 1
    decreases EmptyCount(b), 10
  {
    if CheckWin(b, player) then 1
    else if CheckWin(b, Opponent(player)) then -1
    else if IsFull(b) then 0
    else if maximizing then MaxOverMoves(b, player, 0, NegInf)
    else MinOverMoves(b, player, 0, PosInf)
  }

  /** The child in which `player` has filled the empty cell k. */
  function PlayerChild(b: Board, player: Player, k: nat): Board
    requires k < 9
  {
    Place(b, k, Mark(player))
  }

  /** The child in which the opponent has filled the empty cell k. */
  function OpponentChild(b: Board, player: Player, k: nat): Board
    requires k < 9
  {
    Place(b, k, Mark(Opponent(player)))
  }

  /**
   The maximising loop from cell k on, with best_value = best so far:
   `best_value = max(best_value, value)` over the empty cells k..8. The result
   is never below best; it is best or a game outcome; and it is a game
   outcome once some cell from k on is empty.
   */
  function MaxOverMoves(b: Board, player: Player, k: nat, best: int): (r: int)
    requires k <= 9
    ensures best <= r
    ensures r == best || -1 <= r <= 1
    ensures HasEmptyFrom(b, k) ==> -1 <= r
    ensures r <= Max(best, 1)
    decreases EmptyCount(b), 9 - k
  {
    if k == 9 then best
    else if b[k] != Empty then MaxOverMoves(b, player, k + 1, best)
    else
      PlaceFillsOneCell(b, k, player);
      var value := Value(PlayerChild(b, player, k), player, false);
      MaxOverMoves(b, player, k + 1, Max(best, value))
  }

  /**
   The minimising loop from cell k on: `best_value = min(best_value, value)`
   over the empty cells k..8, the opponent filling each in turn.
   */
  function MinOverMoves(b: Board, player: Player, k: nat, best: int): (r: int)
    requires k <= 9
    ensures r <= best
    ensures r == best || -1 <= r <= 1
    ensures HasEmptyFrom(b, k) ==> r <= 1
    ensures Min(best, -1) <= r
    decreases EmptyCount(b), 9 - k
  {
    if k == 9 then best
    else if b[k] != Empty then MinOverMoves(b, player, k + 1, best)
    else
      PlaceFillsOneCell(b, k, Opponent(player));
      var value := Value(OpponentChild(b, player, k), player, true);
      MinOverMoves(b, player, k + 1, Min(best, value))
  }

  /**
   The maximising loop from k computes the best of `best` and the values of
   the children reached from the empty cells k..8: it is at least each of
   them and equal to one of them.
   */
  lemma {:induction false} MaxOverMovesIsMaximum(b: Board, player: Player, k: nat, best: int)
    requires k <= 9
    ensures forall j | k <= j < 9 && b[j] == Empty :: Value(PlayerChild(b, player, j), player, false) <= MaxOverMoves(b, player, k, best)
    ensures MaxOverMoves(b, player, k, best) == best
            || exists j | k <= j < 9 && b[j] == Empty :: MaxOverMoves(b, player, k, best) == Value(PlayerChild(b, player, j), player, false)
    decreases 9 - k
  {
    if k < 9 {
      if b[k] == Empty {
        var value := Value(PlayerChild(b, player, k), player, false);
        MaxOverMovesIsMaximum(b, player, k + 1, Max(best, value));
      } else {
        MaxOverMovesIsMaximum(b, player, k + 1, best);
      }
    }
  }

  /** The minimising loop from k computes the least of `best` and the children's values from k on. */
  lemma {:induction false} MinOverMovesIsMinimum(b: Board, player: Player, k: nat, best: int)
    requires k <= 9
    ensures forall j | k <= j < 9 && b[j] == Empty :: MinOverMoves(b, player, k, best) <= Value(OpponentChild(b, player, j), player, true)
    ensures MinOverMoves(b, player, k, best) == best
            || exists j | k <= j < 9 && b[j] == Empty :: MinOverMoves(b, player, k, best) == Value(OpponentChild(b, player, j), player, true)
    decreases 9 - k
  {
    if k < 9 {
      if b[k] == Empty {
        var value := Value(OpponentChild(b, player, k), player, true);
        MinOverMovesIsMinimum(b, player, k + 1, Min(best, value));
      } else {
        MinOverMovesIsMinimum(b, player, k + 1, best);
      }
    }
  }

  /** At a maximising ply that is not decided, the value is the largest child value, and some empty cell attains it. */
  lemma MaxPlyValue(b: Board, player: Player)
    requires !Terminal(b, player)
    ensures forall j | 0 <= j < 9 && b[j] == Empty :: Value(PlayerChild(b, player, j), player, false) <= Value(b, player, true)
    ensures exists j | 0 <= j < 9 && b[j] == Empty :: Value(b, player, true) == Value(PlayerChild(b, player, j), player, false)
  {
    assert Value(b, player, true) == MaxOverMoves(b, player, 0, NegInf);
    MaxOverMovesIsMaximum(b, player, 0, NegInf);
  }

  /** At a minimising ply that is not decided, the value is the smallest child value, and some empty cell attains it. */
  lemma MinPlyValue(b: Board, player: Player)
    requires !Terminal(b, player)
    ensures forall j | 0 <= j < 9 && b[j] == Empty :: Value(b, player, false) <= Value(OpponentChild(b, player, j), player, true)
    ensures exists j | 0 <= j < 9 && b[j] == Empty :: Value(b, player, false) == Value(OpponentChild(b, player, j), player, true)
  {
    assert Value(b, player, false) == MinOverMoves(b, player, 0, PosInf);
    MinOverMovesIsMinimum(b, player, 0, PosInf);
  }

  /**
   The minimax recurrence: +1 if player has a line, otherwise -1 if the
   opponent has one, otherwise 0 on a full board, otherwise the maximum over
   the player's moves (player to move) or the minimum over the opponent's
   moves (opponent to move), each attained by some empty cell.
   */
  lemma ValueRecurrence(b: Board, player: Player, maximizing: bool)
    ensures HasLine(b, player) ==> Value(b, player, maximizing) == 1
    ensures !HasLine(b, player) && HasLine(b, Opponent(player)) ==> Value(b, player, maximizing) == -1
    ensures !HasLine(b, player) && !HasLine(b, Opponent(player)) && EmptySet(b) == {} ==> Value(b, player, maximizing) == 0
    ensures !HasLine(b, player) && !HasLine(b, Opponent(player)) && EmptySet(b) != {} && maximizing ==>
              (forall j | 0 <= j < 9 && b[j] == Empty :: Value(PlayerChild(b, player, j), player, false) <= Value(b, player, true))
              && (exists j | 0 <= j < 9 && b[j] == Empty :: Value(b, player, true) == Value(PlayerChild(b, player, j), player, false))
    ensures !HasLine(b, player) && !HasLine(b, Opponent(player)) && EmptySet(b) != {} && !maximizing ==>
              (forall j | 0 <= j < 9 && b[j] == Empty :: Value(b, player, false) <= Value(OpponentChild(b, player, j), player, true))
              && (exists j | 0 <= j < 9 && b[j] == Empty :: Value(b, player, false) == Value(OpponentChild(b, player, j), player, true))
  {
    CheckWinIffHasLine(b, player);
    CheckWinIffHasLine(b, Opponent(player));
    IsFullIffNoEmptyCell(b);
    if !Terminal(b, player) {
      if maximizing {
        MaxPlyValue(b, player);
      } else {
        MinPlyValue(b, player);
      }
    }
  }

  /** The value make_move sees for filling the empty cell k: minimax(board, 0, False) after the placement. */
  function RootValue(b: Board, player: Player, k: nat): int
    requires k < 9
  {
    Value(PlayerChild(b, player, k), player, false)
  }

  /**
   The move-selection rule: no move exactly when no cell is empty; otherwise
   an empty cell whose root value is maximal, and the first such cell in
   row-major order.
   */
  ghost predicate IsFirstBest(b: Board, player: Player, move: Option<Pos>) {
    match move
    case None => EmptySet(b) == {}
    case Some(pos) =>
      && ValidPos(pos)
      && b[Index(pos)] == Empty
      && (forall j | 0 <= j < 9 && b[j] == Empty :: RootValue(b, player, j) <= RootValue(b, player, Index(pos)))
      && (forall j | 0 <= j < Index(pos) && b[j] == Empty :: RootValue(b, player, j) < RootValue(b, player, Index(pos)))
  }

  /** The state of the root loop before cell k: the first best cell among 0..k-1 and its value. */
  ghost predicate FirstBestBelow(b: Board, player: Player, k: nat, bestValue: int, bestMove: Option<Pos>)
    requires k <= 9
  {
    match bestMove
    case None => bestValue == NegInf && forall j | 0 <= j < k :: b[j] != Empty
    case Some(pos) =>
      && ValidPos(pos)
      && Index(pos) < k
      && b[Index(pos)] == Empty
      && bestValue == RootValue(b, player, Index(pos))
      && (forall j | 0 <= j < k && b[j] == Empty :: RootValue(b, player, j) <= bestValue)
      && (forall j | 0 <= j < Index(pos) && b[j] == Empty :: RootValue(b, player, j) < bestValue)
  }

  /**
   The root loop of OptimalStrategy.make_move from cell k on: each empty cell
   is scored and replaces the current choice only when its value is strictly
   greater (`if value > best_value`).
   */
  function OptimalFrom(b: Board, player: Player, k: nat, bestValue: int, bestMove: Option<Pos>): Option<Pos>
    requires k <= 9
    decreases 9 - k
  {
    if k == 9 then bestMove
    else if b[k] != Empty then OptimalFrom(b, player, k + 1, bestValue, bestMove)
    else
      var value := Value(PlayerChild(b, player, k), player, false);
      if value > bestValue then OptimalFrom(b, player, k + 1, value, Some(PosOf(k)))
      else OptimalFrom(b, player, k + 1, bestValue, bestMove)
  }

  /** OptimalStrategy.make_move, starting from best_move = (None, None) and best_value = -inf. */
  function OptimalMove(b: Board, player: Player): Option<Pos> {
    OptimalFrom(b, player, 0, NegInf, None)
  }

  /** A full cell leaves the root loop's state as it was. */
  lemma FirstBestBelowSkip(b: Board, player: Player, k: nat, bestValue: int, bestMove: Option<Pos>)
    requires k < 9 && b[k] != Empty
    requires FirstBestBelow(b, player, k, bestValue, bestMove)
    ensures FirstBestBelow(b, player, k + 1, bestValue, bestMove)
  {
  }

  /** An empty cell scoring no more than the best so far leaves the earlier choice in place. */
  lemma FirstBestBelowKeep(b: Board, player: Player, k: nat, bestValue: int, bestMove: Option<Pos>)
    requires k < 9 && b[k] == Empty && RootValue(b, player, k) <= bestValue
    requires FirstBestBelow(b, player, k, bestValue, bestMove)
    ensures FirstBestBelow(b, player, k + 1, bestValue, bestMove)
  {
  }

  /** An empty cell scoring strictly more than every earlier cell becomes the choice. */
  lemma FirstBestBelowTake(b: Board, player: Player, k: nat, bestValue: int, bestMove: Option<Pos>)
    requires k < 9 && b[k] == Empty && RootValue(b, player, k) > bestValue
    requires FirstBestBelow(b, player, k, bestValue, bestMove)
    ensures FirstBestBelow(b, player, k + 1, RootValue(b, player, k), Some(PosOf(k)))
  {
  }

  /** After the last cell the root loop's state is the selection rule. */
  lemma FirstBestBelowDone(b: Board, player: Player, bestValue: int, bestMove: Option<Pos>)
    requires FirstBestBelow(b, player, 9, bestValue, bestMove)
    ensures IsFirstBest(b, player, bestMove)
  {
    assert forall j: nat :: j !in EmptySet(b) || bestMove.Some?;
  }

  /**
   The root loop's invariant: when the state before cell k is the first best
   cell among 0..k-1, the loop ends with the first best cell of the board.
   */
  lemma {:induction false} OptimalFromChoosesFirstBest(b: Board, player: Player, k: nat, bestValue: int, bestMove: Option<Pos>)
    requires k <= 9
    requires FirstBestBelow(b, player, k, bestValue, bestMove)
    ensures IsFirstBest(b, player, OptimalFrom(b, player, k, bestValue, bestMove))
    decreases 9 - k
  {
    if k == 9 {
      FirstBestBelowDone(b, player, bestValue, bestMove);
    } else if b[k] != Empty {
      FirstBestBelowSkip(b, player, k, bestValue, bestMove);
      OptimalFromChoosesFirstBest(b, player, k + 1, bestValue, bestMove);
    } else {
      var value := RootValue(b, player, k);
      if value > bestValue {
        FirstBestBelowTake(b, player, k, bestValue, bestMove);
        OptimalFromChoosesFirstBest(b, player, k + 1, value, Some(PosOf(k)));
      } else {
        FirstBestBelowKeep(b, player, k, bestValue, bestMove);
        OptimalFromChoosesFirstBest(b, player, k + 1, bestValue, bestMove);
      }
    }
  }

  /**
   OptimalStrategy.make_move returns no move iff the board has no empty cell,
   and otherwise the first empty cell, in row-major order, of maximal value.
   */
  lemma OptimalMoveIsFirstBest(b: Board, player: Player)
    ensures IsFirstBest(b, player, OptimalMove(b, player))
  {
    OptimalFromChoosesFirstBest(b, player, 0, NegInf, None);
  }

  /** The selection rule leaves no freedom: at most one move satisfies it. */
  lemma FirstBestIsUnique(b: Board, player: Player, m1: Option<Pos>, m2: Option<Pos>)
    requires IsFirstBest(b, player, m1) && IsFirstBest(b, player, m2)
    ensures m1 == m2
  {
    assert forall p: Pos | ValidPos(p) && b[Index(p)] == Empty :: Index(p) in EmptySet(b);
    if m1.Some? && m2.Some? {
      var p1, p2 := m1.value, m2.value;
      assert Index(p1) == Index(p2);
      assert p1 == PosOf(Index(p1)) && p2 == PosOf(Index(p2));
    }
  }

  /** Filling a cell that completes one of the player's lines scores +1, the best possible value. */
  lemma ImmediateWinScoresOne(b: Board, player: Player, k: nat)
    requires k < 9 && b[k] == Empty
    requires HasLine(PlayerChild(b, player, k), player)
    ensures RootValue(b, player, k) == 1
  {
  }

  /**
   When the player can complete a line at once, make_move returns a move of
   value +1: a move after which the player wins whatever the opponent does.
   */
  lemma WinAvailableMeansWinningMove(b: Board, player: Player, k: nat)
    requires k < 9 && b[k] == Empty
    requires HasLine(PlayerChild(b, player, k), player)
    ensures OptimalMove(b, player).Some?
    ensures var pos := OptimalMove(b, player).value; ValidPos(pos) && RootValue(b, player, Index(pos)) == 1
  {
    var move := OptimalMove(b, player);
    OptimalMoveIsFirstBest(b, player);
    ImmediateWinScoresOne(b, player, k);
    assert k in EmptySet(b);
    assert move.Some?;
    assert RootValue(b, player, k) <= RootValue(b, player, Index(move.value));
  }

  /**
   X holds (0, 0) and (0, 1) and every other cell is empty: make_move for X
   returns (0, 2), which completes the top row.
   */
  lemma TopRowIsCompleted()
    ensures OptimalMove([Mark(X), Mark(X), Empty, Empty, Empty, Empty, Empty, Empty, Empty], X) == Some(Pos(0, 2))
  {
    var b: Board := [Mark(X), Mark(X), Empty, Empty, Empty, Empty, Empty, Empty, Empty];
    assert OwnsLine(PlayerChild(b, X, 2), Lines[0], X);
    ImmediateWinScoresOne(b, X, 2);
    assert IsFirstBest(b, X, Some(Pos(0, 2)));
    OptimalMoveIsFirstBest(b, X);
    FirstBestIsUnique(b, X, OptimalMove(b, X), Some(Pos(0, 2)));
  }
}
