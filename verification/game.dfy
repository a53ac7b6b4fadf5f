/**
 The game's board primitives and the AI turn: the random strategy, the
 dispatch over the three strategies, move validation and placement, and
 make_ai_move's place / check-winner / switch-turn step.
 */
module Game {
  import opened Boards
  import opened Rules
  import opened Minimax
  import opened AlphaBeta

  /** The three interchangeable move strategies. */
  datatype Strategy = RandomStrategy | OptimalStrategy | OptimalStrategyAlphaBeta

  /** The part of the Game object the AI turn reads and writes. */
  datatype GameState = GameState(board: Board, current: Player, ai: Player, strategy: Option<Strategy>, winner: Option<Player>)

  /**
   RandomStrategy.make_move: some cell of the empty-cell list (random.choice
   is any choice here), or no move when the list is empty. With exactly one
   empty cell there is nothing to choose.
   */
  method RandomMove(b: Board, player: Player) returns (move: Option<Pos>)
    ensures move.None? <==> EmptySet(b) == {}
    ensures move.Some? ==> ValidPos(move.value) && b[Index(move.value)] == Empty
    ensures EmptyCount(b) == 1 ==> forall k | 0 <= k < 9 && b[k] == Empty :: move == Some(PosOf(k))
  {
    var cells := EmptyCells(b);
    EmptyCellsCount(b);
    if |cells| > 0 {
      var i :| 0 <= i < |cells|;
      move := Some(cells[i]);
      assert Index(cells[i]) in EmptySet(b);
      if EmptyCount(b) == 1 {
        assert i == 0;
        forall k | 0 <= k < 9 && b[k] == Empty
          ensures move == Some(PosOf(k))
        {
          assert PosOf(k) in cells;
        }
      }
    } else {
      move := None;
    }
  }

  /** is_valid_move(row, col): the cell is empty, that is, (row, col) is on get_empty_cells' list. */
  function IsValidMove(b: Board, pos: Pos): (r: bool)
    requires ValidPos(pos)
    ensures r <==> pos in EmptyCells(b)
  {
    PosOfIndex(pos);
    b[Index(pos)] == Empty
  }

  /**
   update_board(row, col, player): succeeds iff the cell is empty. On success
   that cell holds the player's marker, every other cell is unchanged and
   there is one empty cell fewer; on failure the board is unchanged.
   */
  function UpdateBoard(b: Board, pos: Pos, p: Player): (r: (bool, Board))
    requires ValidPos(pos)
    ensures r.0 <==> Index(pos) in EmptySet(b)
    ensures r.0 ==> r.1[Index(pos)] == Mark(p) && forall k | 0 <= k < 9 && k != Index(pos) :: r.1[k] == b[k]
    ensures r.0 ==> EmptySet(r.1) == EmptySet(b) - {Index(pos)} && EmptyCount(r.1) == EmptyCount(b) - 1
    ensures !r.0 ==> r.1 == b
  {
    if IsValidMove(b, pos) then
      PlaceFillsOneCell(b, Index(pos), p);
      (true, Place(b, Index(pos), Mark(p)))
    else (false, b)
  }

  /**
   Filling an empty cell with p's marker cannot give the other player a line:
   any line the opponent owns afterwards it already owned before.
   */
  lemma PlacingHelpsOnlyTheMover(b: Board, k: nat, p: Player)
    requires k < 9 && b[k] == Empty
    ensures HasLine(Place(b, k, Mark(p)), Opponent(p)) ==> HasLine(b, Opponent(p))
  {
    var b' := Place(b, k, Mark(p));
    if HasLine(b', Opponent(p)) {
      var n :| 0 <= n < |Lines| && OwnsLine(b', Lines[n], Opponent(p));
      assert OwnsLine(b, Lines[n], Opponent(p));
    }
  }

  /** On the board reset builds, every cell from k on is still empty. */
  lemma {:induction false} EmptyBoardFrom(k: nat)
    requires k <= 9
    ensures |EmptySetFrom(EmptyBoard, k)| == 9 - k
    decreases 9 - k
  {
    if k < 9 {
      EmptyBoardFrom(k + 1);
      EmptySetFromStep(EmptyBoard, k);
    } else {
      assert EmptySetFrom(EmptyBoard, k) == {};
    }
  }

  /** The board reset builds has every cell empty: nine cells to choose from. */
  lemma EmptyBoardCells()
    ensures forall k | 0 <= k < 9 :: k in EmptySet(EmptyBoard)
    ensures EmptyCount(EmptyBoard) == 9
  {
    EmptyBoardFrom(0);
    assert EmptySetFrom(EmptyBoard, 0) == EmptySet(EmptyBoard);
  }

  /** The board reset builds is undecided: no line for either player, not a draw, and no winner reported. */
  lemma EmptyBoardIsOpen()
    ensures !HasLine(EmptyBoard, X) && !HasLine(EmptyBoard, O) && !IsFull(EmptyBoard)
    ensures Winner(EmptyBoard).None?
  {
    assert EmptyBoard[0] == Empty;
  }

  /**
   The strategy's make_move(board, player). Every strategy proposes an empty
   cell, and no move only on a full board; both optimal strategies return
   the first best cell of the minimax search.
   */
  method ProposeMove(s: Strategy, b: Board, player: Player) returns (move: Option<Pos>)
    ensures move.None? <==> EmptySet(b) == {}
    ensures move.Some? ==> ValidPos(move.value) && b[Index(move.value)] == Empty
    ensures s != RandomStrategy ==> move == OptimalMove(b, player) && IsFirstBest(b, player, move)
  {
    assert forall pos: Pos | ValidPos(pos) && b[Index(pos)] == Empty :: Index(pos) in EmptySet(b);
    match s
    case RandomStrategy =>
      move := RandomMove(b, player);
    case OptimalStrategy =>
      OptimalMoveIsFirstBest(b, player);
      move := OptimalMove(b, player);
    case OptimalStrategyAlphaBeta =>
      AlphaBetaMoveIsOptimalMove(b, player);
      move := AlphaBetaMove(b, player);
  }

  /**
   make_ai_move: when a strategy is set and it is the AI's turn, the AI's
   marker goes on the proposed cell, the winner is recomputed, and the turn
   passes to the other player unless there is now a winner. Otherwise, and
   on a full board, nothing changes. On a board without a winner, a winner
   after the move can only be the AI.
   */
  method MakeAiMove(g: GameState) returns (g': GameState, move: Option<Pos>)
    ensures !(g.strategy.Some? && g.current == g.ai) ==> move.None?
    ensures g.strategy.Some? && g.current == g.ai ==> (move.None? <==> EmptySet(g.board) == {})
    ensures move.None? ==> g' == g
    ensures move.Some? ==>
              && ValidPos(move.value)
              && g.board[Index(move.value)] == Empty
              && g'.board == Place(g.board, Index(move.value), Mark(g.ai))
              && EmptyCount(g'.board) == EmptyCount(g.board) - 1
              && g'.winner == Winner(g'.board)
              && g'.current == (if g'.winner.None? then Opponent(g.current) else g.current)
              && g'.ai == g.ai && g'.strategy == g.strategy
    ensures move.Some? && g.strategy != Some(RandomStrategy) ==> move == OptimalMove(g.board, g.ai)
    ensures move.Some? && Winner(g.board).None? && g'.winner.Some? ==> g'.winner == Some(g.ai)
  {
    g', move := g, None;
    if g.strategy.Some? && g.current == g.ai {
      move := ProposeMove(g.strategy.value, g.board, g.ai);
      if move.Some? {
        var (_, board) := UpdateBoard(g.board, move.value, g.ai);
        var winner := Winner(board);
        var current := if winner.None? then Opponent(g.current) else g.current;
        PlacingHelpsOnlyTheMover(g.board, Index(move.value), g.ai);
        g' := g.(board := board, winner := winner, current := current);
      }
    }
  }
}
