/**
 Board state of the tic-tac-toe game: a 3×3 grid of cells, each '' (empty)
 or holding one player's marker. The grid is flattened in row-major order,
 so cell (row, col) lives at index 3 * row + col.
 */
module Boards {

  /** The two markers, 'X' and 'O'. */
  datatype Player = X | O

  /** A cell is '' (Empty) or holds the marker of one player. */
  datatype Cell = Empty | Mark(owner: Player)

  /** The other player: 'O' if player == 'X' else 'X'. */
  function Opponent(p: Player): (q: Player)
    ensures q != p
    ensures p == X <==> q == O
  {
    if p == X then O else X
  }

  /** Exactly nine cells; (row, col) is stored at index 3 * row + col. */
  type Board = b: seq<Cell> | |b| == 9
    witness [Empty, Empty, Empty, Empty, Empty, Empty, Empty, Empty, Empty]

  /** The board a new game starts with. */
  const EmptyBoard: Board := [Empty, Empty, Empty, Empty, Empty, Empty, Empty, Empty, Empty]

  /** An optional value: a move or no move, a winner or none. */
  datatype Option<T> = None | Some(value: T)

  /** A (row, col) pair as the game and the strategies exchange it. */
  datatype Pos = Pos(row: int, col: int)

  predicate ValidPos(p: Pos) {
    0 <= p.row < 3 && 0 <= p.col < 3
  }

  function Index(p: Pos): (k: nat)
    requires ValidPos(p)
    ensures k < 9
  {
    3 * p.row + p.col
  }

  function PosOf(k: nat): (p: Pos)
    requires k < 9
    ensures ValidPos(p) && Index(p) == k
  {
    Pos(k / 3, k % 3)
  }

  /** Index and PosOf are inverse: every valid (row, col) has exactly one index. */
  lemma PosOfIndex(p: Pos)
    requires ValidPos(p)
    ensures PosOf(Index(p)) == p
  {
  }

  /** `board[row][col] = c` at index k: used both to place a marker and to undo it. */
  function Place(b: Board, k: nat, c: Cell): (b': Board)
    requires k < 9
    ensures b'[k] == c
    ensures forall j | 0 <= j < 9 && j != k :: b'[j] == b[j]
  {
    b[k := c]
  }

  /** The indices of the empty cells. */
  function EmptySet(b: Board): set<nat> {
    set k: nat | k < 9 && b[k] == Empty
  }

  /** The number of empty cells: the measure on which every search recursion decreases. */
  function EmptyCount(b: Board): nat {
    |EmptySet(b)|
  }

  /** Placing a marker on an empty cell removes exactly that cell from the empty ones. */
  lemma PlaceFillsOneCell(b: Board, k: nat, p: Player)
    requires k < 9 && b[k] == Empty
    ensures EmptySet(Place(b, k, Mark(p))) == EmptySet(b) - {k}
    ensures EmptyCount(Place(b, k, Mark(p))) == EmptyCount(b) - 1
  {
    assert k in EmptySet(b);
  }

  /** Undoing a placement on a cell that was empty gives back the board before it. */
  lemma UndoRestores(b: Board, k: nat, p: Player)
    requires k < 9 && b[k] == Empty
    ensures Place(Place(b, k, Mark(p)), k, Empty) == b
  {
    assert forall j | 0 <= j < 9 :: Place(Place(b, k, Mark(p)), k, Empty)[j] == b[j];
  }

  /** The empty cells with index at least k, in row-major order. */
  function EmptyCellsFrom(b: Board, k: nat): (cells: seq<Pos>)
    requires k <= 9
    ensures forall i | 0 <= i < |cells| :: ValidPos(cells[i]) && k <= Index(cells[i]) && b[Index(cells[i])] == Empty
    ensures forall j | k <= j < 9 && b[j] == Empty :: PosOf(j) in cells
    ensures forall i, j | 0 <= i < j < |cells| :: Index(cells[i]) < Index(cells[j])
    decreases 9 - k
  {
    if k == 9 then []
    else if b[k] == Empty then [PosOf(k)] + EmptyCellsFrom(b, k + 1)
    else EmptyCellsFrom(b, k + 1)
  }

  /** get_empty_cells: every empty cell, once each, in row-major order. */
  function EmptyCells(b: Board): (cells: seq<Pos>)
    ensures forall i | 0 <= i < |cells| :: ValidPos(cells[i]) && b[Index(cells[i])] == Empty
    ensures forall k | 0 <= k < 9 && b[k] == Empty :: PosOf(k) in cells
    ensures forall i, j | 0 <= i < j < |cells| :: Index(cells[i]) < Index(cells[j])
  {
    EmptyCellsFrom(b, 0)
  }

  /** The empty cells with index at least k. */
  function EmptySetFrom(b: Board, k: nat): set<nat> {
    set j: nat | k <= j < 9 && b[j] == Empty
  }

  /** Stepping the scan start past cell k removes k, and only k, from the empty cells still ahead. */
  lemma EmptySetFromStep(b: Board, k: nat)
    requires k < 9
    ensures b[k] == Empty ==> |EmptySetFrom(b, k)| == |EmptySetFrom(b, k + 1)| + 1
    ensures b[k] != Empty ==> EmptySetFrom(b, k) == EmptySetFrom(b, k + 1)
  {
    var rest := EmptySetFrom(b, k + 1);
    assert k !in rest;
    if b[k] == Empty {
      assert EmptySetFrom(b, k) == rest + {k};
    }
  }

  /** The empty-cell list has one entry per empty cell. */
  lemma {:induction false} EmptyCellsFromCount(b: Board, k: nat)
    requires k <= 9
    ensures |EmptyCellsFrom(b, k)| == |EmptySetFrom(b, k)|
    decreases 9 - k
  {
    if k < 9 {
      EmptyCellsFromCount(b, k + 1);
      EmptySetFromStep(b, k);
      if b[k] == Empty {
        assert EmptyCellsFrom(b, k) == [PosOf(k)] + EmptyCellsFrom(b, k + 1);
      } else {
        assert EmptyCellsFrom(b, k) == EmptyCellsFrom(b, k + 1);
      }
    } else {
      assert EmptySetFrom(b, k) == {};
    }
  }

  lemma EmptyCellsCount(b: Board)
    ensures |EmptyCells(b)| == EmptyCount(b)
  {
    EmptyCellsFromCount(b, 0);
    assert EmptySetFrom(b, 0) == EmptySet(b);
  }
}
