/**
 The win/draw evaluator: whether a player has three in a row, which player
 (if any) the game loop reports as the winner, and whether the board is full.
 These are the only sources of terminal-state truth for the search.
 */
module Rules {
  import opened Boards

  /** The cells of row i and of column i, and the two diagonals, as index triples. */
  function Row(i: nat): (nat, nat, nat) requires i < 3 { (3 * i, 3 * i + 1, 3 * i + 2) }
  function Column(i: nat): (nat, nat, nat) requires i < 3 { (i, 3 + i, 6 + i) }
  const Diagonal: (nat, nat, nat) := (0, 4, 8)
  const AntiDiagonal: (nat, nat, nat) := (2, 4, 6)

  /** The 8 lines of the board: 3 rows, 3 columns, 2 diagonals. */
  const Lines: seq<(nat, nat, nat)> :=
    [Row(0), Row(1), Row(2), Column(0), Column(1), Column(2), Diagonal, AntiDiagonal]

  /** All three cells of the line hold p's marker. */
  ghost predicate OwnsLine(b: Board, line: (nat, nat, nat), p: Player)
    requires line.0 < 9 && line.1 < 9 && line.2 < 9
  {
    b[line.0] == Mark(p) && b[line.1] == Mark(p) && b[line.2] == Mark(p)
  }

  /** Reference definition of a win: p owns one of the 8 lines. */
  ghost predicate HasLine(b: Board, p: Player) {
    exists n | 0 <= n < |Lines| :: OwnsLine(b, Lines[n], p)
  }

  /** p owns row j or column j for some j >= i, or one of the two diagonals. */
  ghost predicate OwnsLineFrom(b: Board, p: Player, i: nat)
    requires i <= 3
  {
    (exists j | i <= j < 3 :: OwnsLine(b, Row(j), p) || OwnsLine(b, Column(j), p))
    || OwnsLine(b, Diagonal, p) || OwnsLine(b, AntiDiagonal, p)
  }

  /** Scanning rows and columns together, then the diagonals, visits exactly the 8 lines. */
  lemma ScanCoversLines(b: Board, p: Player)
    ensures OwnsLineFrom(b, p, 0) <==> HasLine(b, p)
  {
    if HasLine(b, p) {
      var n :| 0 <= n < |Lines| && OwnsLine(b, Lines[n], p);
      if n < 3 {
        assert OwnsLine(b, Row(n), p);
      } else if n < 6 {
        assert OwnsLine(b, Column(n - 3), p);
      }
    }
    if OwnsLineFrom(b, p, 0) {
      if j :| 0 <= j < 3 && (OwnsLine(b, Row(j), p) || OwnsLine(b, Column(j), p)) {
        if OwnsLine(b, Row(j), p) {
          assert Lines[j] == Row(j);
        } else {
          assert Lines[3 + j] == Column(j);
        }
      } else if OwnsLine(b, Diagonal, p) {
        assert Lines[6] == Diagonal;
      } else {
        assert Lines[7] == AntiDiagonal;
      }
    }
  }

  /**
   The scan of check_win(board, player) from i on: row i, then column i, for
   i = 0, 1, 2, then the main diagonal and the anti-diagonal.
   */
  function CheckWinFrom(b: Board, p: Player, i: nat): bool
    requires i <= 3
    decreases 3 - i
  {
    if i == 3 then
      if b[0] == b[4] == b[8] == Mark(p) then true
      else if b[2] == b[4] == b[6] == Mark(p) then true
      else false
    else if b[3 * i] == b[3 * i + 1] == b[3 * i + 2] == Mark(p) then true
    else if b[i] == b[3 + i] == b[6 + i] == Mark(p) then true
    else CheckWinFrom(b, p, i + 1)
  }

  /** The scan from i on succeeds exactly when p owns one of the lines it still visits. */
  lemma {:induction false} CheckWinFromScansLines(b: Board, p: Player, i: nat)
    requires i <= 3
    ensures CheckWinFrom(b, p, i) <==> OwnsLineFrom(b, p, i)
    decreases 3 - i
  {
    if i < 3 {
      CheckWinFromScansLines(b, p, i + 1);
      if CheckWinFrom(b, p, i) {
        if b[3 * i] == b[3 * i + 1] == b[3 * i + 2] == Mark(p) {
          assert OwnsLine(b, Row(i), p);
        } else if b[i] == b[3 + i] == b[6 + i] == Mark(p) {
          assert OwnsLine(b, Column(i), p);
        }
      }
      if OwnsLineFrom(b, p, i) && !OwnsLine(b, Row(i), p) && !OwnsLine(b, Column(i), p) {
        assert OwnsLineFrom(b, p, i + 1);
      }
    }
  }

  /** check_win(board, player), the copy both optimal strategies carry. */
  function CheckWin(b: Board, p: Player): bool {
    CheckWinFrom(b, p, 0)
  }

  /** check_win(board, player) is true iff p owns one of the 3 rows, 3 columns or 2 diagonals. */
  lemma CheckWinIffHasLine(b: Board, p: Player)
    ensures CheckWin(b, p) <==> HasLine(b, p)
  {
    CheckWinFromScansLines(b, p, 0);
    ScanCoversLines(b, p);
  }

  /**
   The Game's check_win(): the first line, in the same scan order, whose three
   cells are equal and non-empty; its owner is the winner.
   */
  function WinnerFrom(b: Board, i: nat): (w: Option<Player>)
    requires i <= 3
    ensures w.Some? ==> OwnsLineFrom(b, w.value, i)
    ensures w.None? ==> !OwnsLineFrom(b, X, i) && !OwnsLineFrom(b, O, i)
    decreases 3 - i
  {
    if i == 3 then
      if b[0] == b[4] == b[8] != Empty then
        assert OwnsLine(b, Diagonal, b[0].owner);
        assert OwnsLineFrom(b, b[0].owner, i);
        Some(b[0].owner)
      else if b[2] == b[4] == b[6] != Empty then
        assert OwnsLine(b, AntiDiagonal, b[2].owner);
        assert OwnsLineFrom(b, b[2].owner, i);
        Some(b[2].owner)
      else None
    else if b[3 * i] == b[3 * i + 1] == b[3 * i + 2] != Empty then
      assert OwnsLine(b, Row(i), b[3 * i].owner);
      assert OwnsLineFrom(b, b[3 * i].owner, i);
      Some(b[3 * i].owner)
    else if b[i] == b[3 + i] == b[6 + i] != Empty then
      assert OwnsLine(b, Column(i), b[i].owner);
      assert OwnsLineFrom(b, b[i].owner, i);
      Some(b[i].owner)
    else WinnerFrom(b, i + 1)
  }

  /**
   Game.check_win: a reported winner has a line; no winner is reported iff
   neither player has a line; a player who alone has a line is reported.
   */
  function Winner(b: Board): (w: Option<Player>)
    ensures w.Some? ==> HasLine(b, w.value)
    ensures w.None? <==> !HasLine(b, X) && !HasLine(b, O)
    ensures forall p :: HasLine(b, p) && !HasLine(b, Opponent(p)) ==> w == Some(p)
  {
    ScanCoversLines(b, X);
    ScanCoversLines(b, O);
    var w := WinnerFrom(b, 0);
    assert w.Some? ==> w.value == X || w.value == O;
    w
  }

  /** check_draw, and the `all(board[row][col] != '')` test of the search. */
  predicate IsFull(b: Board) {
    forall k | 0 <= k < 9 :: b[k] != Empty
  }

  /** The board is full iff it has no empty cell, that is, iff get_empty_cells returns an empty list. */
  lemma IsFullIffNoEmptyCell(b: Board)
    ensures IsFull(b) <==> EmptySet(b) == {}
    ensures IsFull(b) <==> |EmptyCells(b)| == 0
  {
    EmptyCellsCount(b);
    if !IsFull(b) {
      var k :| 0 <= k < 9 && b[k] == Empty;
      assert k in EmptySet(b);
    }
  }
}
