/**
  The tic-tac-toe board of the `TicTacToe` class: nine cells read row by row,
  each empty or holding a player's mark, plus the side to move.
  Boards are immutable values; the source's in-place `make_move` and
  `unmake_move` become functions returning the updated board.
 */
module TicTacToe {
  import opened Wrappers

  /** A cell: `' '`, `'X'` or `'O'` in the source. */
  datatype Cell = Empty | X | O

  /** A mark a player places; never the empty cell. */
  type Player = c: Cell | c != Empty witness X

  /** The nine cells, indices 0..8 row by row. */
  type Board = b: seq<Cell> | |b| == 9
    witness [Empty, Empty, Empty, Empty, Empty, Empty, Empty, Empty, Empty]

  /** The value `get_state` returns: the board together with the side to move.
      Equality is structural, so states serve as dictionary keys. */
  datatype State = State(board: Board, toMove: Player)

  /** The outcome of `make_move`: whether it succeeded, and the board afterwards. */
  datatype MoveResult = MoveResult(ok: bool, board: Board)

  /** The position a new game starts from: every cell empty, X to move. */
  function NewGame(): (g: State)
    ensures forall k :: 0 <= k < 9 ==> g.board[k] == Empty
    ensures g.toMove == X
  {
    State([Empty, Empty, Empty, Empty, Empty, Empty, Empty, Empty, Empty], X)
  }

  /** The other player: `'O' if p == 'X' else 'X'`. */
  function Opponent(p: Player): (q: Player)
    ensures q != p
  {
    if p == X then O else X
  }

  /** `switch_player`: the same board with the other side to move. */
  function SwitchPlayer(g: State): (r: State)
    ensures r.board == g.board
    ensures r.toMove != g.toMove
  {
    g.(toMove := Opponent(g.toMove))
  }

  lemma SwitchPlayerTwice(g: State)
    ensures SwitchPlayer(SwitchPlayer(g)) == g
  {
  }

  /** Indices `k` with `i <= k < 9` whose cell is empty, in ascending order. */
  function EmptyFrom(b: Board, i: nat): (r: seq<nat>)
    requires i <= 9
    ensures forall k: int :: k in r <==> i <= k < 9 && b[k] == Empty
    decreases 9 - i
  {
    if i == 9 then []
    else if b[i] == Empty then [i] + EmptyFrom(b, i + 1)
    else EmptyFrom(b, i + 1)
  }

  /** `available_moves`: exactly the empty cells, at most nine of them. */
  function AvailableMoves(b: Board): (r: seq<nat>)
    ensures forall k: int :: k in r <==> 0 <= k < 9 && b[k] == Empty
    ensures |r| <= 9
  {
    var r := EmptyFrom(b, 0);
    CountEmptyFromBound(b, 0);
    r
  }

  /** The scan from `i` lists its cells in strictly ascending order, all at
      least `i`. */
  lemma {:induction false} EmptyFromAscending(b: Board, i: nat)
    requires i <= 9
    ensures forall j, k :: 0 <= j < k < |EmptyFrom(b, i)| ==> EmptyFrom(b, i)[j] < EmptyFrom(b, i)[k]
    decreases 9 - i
  {
    if i < 9 {
      EmptyFromAscending(b, i + 1);
      var rest := EmptyFrom(b, i + 1);
      assert forall k :: 0 <= k < |rest| ==> rest[k] in rest;
    }
  }

  /** `available_moves` lists the empty cells in enumeration order, strictly
      ascending. */
  lemma AvailableMovesAscending(b: Board)
    ensures forall j, k :: 0 <= j < k < |AvailableMoves(b)| ==> AvailableMoves(b)[j] < AvailableMoves(b)[k]
  {
    EmptyFromAscending(b, 0);
  }

  lemma {:induction false} CountEmptyFromBound(b: Board, i: nat)
    requires i <= 9
    ensures |EmptyFrom(b, i)| <= 9 - i
    decreases 9 - i
  {
    if i < 9 {
      CountEmptyFromBound(b, i + 1);
    }
  }

  /** `make_move`: succeeds exactly on an in-range empty cell, and then
      changes that cell alone; on failure the board is untouched. */
  function MakeMove(b: Board, position: int, mark: Cell): (r: MoveResult)
    ensures r.ok <==> 0 <= position < 9 && b[position] == Empty
    ensures r.ok ==> r.board[position] == mark
    ensures forall k :: 0 <= k < 9 && k != position ==> r.board[k] == b[k]
    ensures !r.ok ==> r.board == b
  {
    if 0 <= position < |b| && b[position] == Empty then MoveResult(true, b[position := mark])
    else MoveResult(false, b)
  }

  /** `unmake_move`: clears the indexed cell. Python indexing admits -9..-1,
      counted from the end; anything else raises IndexError. */
  function UnmakeMove(b: Board, position: int): (r: Board)
    requires -9 <= position < 9
    ensures r[(position + 9) % 9] == Empty
    ensures forall k :: 0 <= k < 9 && k != (position + 9) % 9 ==> r[k] == b[k]
  {
    var i := if position < 0 then position + 9 else position;
    b[i := Empty]
  }

  /** Undoing a successful move restores the board it was made on. */
  lemma MakeUnmakeRoundTrip(b: Board, position: int, mark: Cell)
    requires MakeMove(b, position, mark).ok
    ensures UnmakeMove(MakeMove(b, position, mark).board, position) == b
  {
    var r := UnmakeMove(MakeMove(b, position, mark).board, position);
    assert forall k :: 0 <= k < 9 ==> r[k] == b[k];
  }

  /** The eight lines in the order the source examines them:
      rows, then columns, then the two diagonals. */
  const Lines: seq<(nat, nat, nat)> :=
    [(0, 1, 2), (3, 4, 5), (6, 7, 8),
     (0, 3, 6), (1, 4, 7), (2, 5, 8),
     (0, 4, 8), (2, 4, 6)]

  /** Cells `i`, `j`, `k` hold one and the same non-empty mark. */
  predicate Uniform(b: Board, i: nat, j: nat, k: nat)
    requires i < 9 && j < 9 && k < 9
  {
    b[i] == b[j] && b[j] == b[k] && b[k] != Empty
  }

  /** Line number `n` of `Lines` is taken by one player. */
  predicate LineWon(b: Board, n: nat)
    requires n < 8
  {
    Uniform(b, Lines[n].0, Lines[n].1, Lines[n].2)
  }

  /** The mark of the first line, from number `n` on, taken by one player. */
  function WinnerFrom(b: Board, n: nat): Option<Player>
    requires n <= 8
    decreases 8 - n
  {
    if n == 8 then None
    else if LineWon(b, n) then Some(b[Lines[n].0])
    else WinnerFrom(b, n + 1)
  }

  /** `check_winner`: the rows, columns and diagonals in turn; the mark of the
      first uniform non-empty line, or None when there is none. */
  function CheckWinner(b: Board): Option<Player>
  {
    WinnerFrom(b, 0)
  }

  /** The scan from line `n` on finds nothing exactly when no later line is
      won, and otherwise reports the mark of the first won line. */
  lemma {:induction false} WinnerFromFirstLine(b: Board, n: nat)
    requires n <= 8
    ensures WinnerFrom(b, n).None? <==> forall m :: n <= m < 8 ==> !LineWon(b, m)
    ensures WinnerFrom(b, n).Some? ==>
              exists w :: n <= w < 8 && LineWon(b, w) && b[Lines[w].0] == WinnerFrom(b, n).value
                          && forall m :: n <= m < w ==> !LineWon(b, m)
    decreases 8 - n
  {
    if n < 8 {
      if LineWon(b, n) {
        assert WinnerFrom(b, n) == Some(b[Lines[n].0]);
      } else {
        WinnerFromFirstLine(b, n + 1);
      }
    }
  }

  /** `check_winner` reports None exactly when no line is won, and otherwise
      the mark of the first won line in the source's order. */
  lemma CheckWinnerFirstLine(b: Board)
    ensures CheckWinner(b).None? <==> forall n :: 0 <= n < 8 ==> !LineWon(b, n)
    ensures CheckWinner(b).Some? ==>
              exists n :: 0 <= n < 8 && LineWon(b, n) && b[Lines[n].0] == CheckWinner(b).value
                          && forall m :: 0 <= m < n ==> !LineWon(b, m)
  {
    WinnerFromFirstLine(b, 0);
  }

  /** `is_full`: no empty cell remains. */
  function IsFull(b: Board): (r: bool)
    ensures r <==> forall k :: 0 <= k < 9 ==> b[k] != Empty
  {
    Empty !in b
  }

  /** A board is full exactly when it has no legal move. */
  lemma FullIffNoMoves(b: Board)
    ensures IsFull(b) <==> |AvailableMoves(b)| == 0
  {
    var moves := AvailableMoves(b);
    assert |moves| > 0 ==> moves[0] in moves;
  }

  /** Marking an empty cell takes exactly one move off the list. */
  lemma {:induction false} EmptyFromFill(b: Board, i: nat, p: nat, mark: Player)
    requires i <= 9 && p < 9 && b[p] == Empty
    ensures |EmptyFrom(b[p := mark], i)| == |EmptyFrom(b, i)| - (if i <= p then 1 else 0)
    decreases 9 - i
  {
    if i < 9 {
      EmptyFromFill(b, i + 1, p, mark);
    }
  }

  lemma FillReducesMoves(b: Board, p: nat, mark: Player)
    requires p < 9 && b[p] == Empty
    ensures |AvailableMoves(b[p := mark])| == |AvailableMoves(b)| - 1
  {
    EmptyFromFill(b, 0, p, mark);
  }
}
