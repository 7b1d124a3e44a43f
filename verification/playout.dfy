/**
  `MCTS.simulate`: a random playout from a position, on a private copy of the
  board. The side to move places a mark on a randomly chosen empty cell, the
  sides alternate, and the playout stops at the first completed line or when
  the board is full. The outcome is 1 when O completed a line, -1 when X did,
  and 0 otherwise.

  `random.choice` is the oracle `draw`: the `k`-th choice of the playout picks
  `moves[draw(k) % |moves|]` from the list of legal moves.
 */
module Playout {
  import opened Wrappers
  import opened TicTacToe

  /** Every entry is a cell index. */
  predicate InRange(moves: seq<nat>)
  {
    forall k :: 0 <= k < |moves| ==> moves[k] < 9
  }

  /** The mark placed by move number `k` (from 0) of a playout that `first`
      starts: the sides alternate. */
  function MarkAt(first: Player, k: nat): Player
    decreases k
  {
    if k == 0 then first else MarkAt(Opponent(first), k - 1)
  }

  /** Each move's mark is the opponent of the previous move's. */
  lemma {:induction false} MarkAtNext(first: Player, k: nat)
    ensures MarkAt(first, k + 1) == Opponent(MarkAt(first, k))
    decreases k
  {
    if k > 0 {
      MarkAtNext(Opponent(first), k - 1);
    }
  }

  /** `b` after `moves` are marked in turn, `first` marking the first of them
      and the two sides alternating. */
  function Replay(b: Board, first: Player, moves: seq<nat>): Board
    requires InRange(moves)
    decreases |moves|
  {
    if |moves| == 0 then b
    else Replay(b[moves[0] := first], Opponent(first), moves[1..])
  }

  /** Replaying one more move marks its cell with that move's mark. */
  lemma {:induction false} ReplayStep(b: Board, first: Player, moves: seq<nat>, m: nat)
    requires InRange(moves) && m < 9
    ensures InRange(moves + [m])
    ensures Replay(b, first, moves + [m]) == Replay(b, first, moves)[m := MarkAt(first, |moves|)]
    decreases |moves|
  {
    var ext := moves + [m];
    if |moves| == 0 {
      assert ext[1..] == [];
    } else {
      assert ext[0] == moves[0] && ext[1..] == moves[1..] + [m];
      ReplayStep(b[moves[0] := first], Opponent(first), moves[1..], m);
    }
  }

  /** On board `b`, still undecided and with a legal move, the draw `pick`
      selects the move `m` as `random.choice` would. */
  predicate FairStep(b: Board, pick: nat, m: nat)
  {
    var legal := AvailableMoves(b);
    CheckWinner(b).None? && |legal| > 0 && m == Choose(legal, pick)
  }

  /** `random.choice(legal)` when the oracle draws `pick`: the entry at
      position `pick`, counting round the list as often as needed. */
  function Choose(legal: seq<nat>, pick: nat): (m: nat)
    requires |legal| > 0
    ensures m in legal
    decreases pick
  {
    if pick < |legal| then legal[pick] else Choose(legal, pick - |legal|)
  }

  /** The pick is the entry at position `pick % |legal|`. */
  lemma {:induction false} ChooseIsMod(legal: seq<nat>, pick: nat)
    requires |legal| > 0
    ensures Choose(legal, pick) == legal[pick % |legal|]
    decreases pick
  {
    if pick >= |legal| {
      ChooseIsMod(legal, pick - |legal|);
      ModShift(pick, |legal|);
    }
  }

  /** Subtracting the modulus once keeps the remainder. */
  lemma ModShift(a: nat, n: nat)
    requires 0 < n <= a
    ensures (a - n) % n == a % n
  {
    var q, r := a / n, a % n;
    assert a == q * n + r && 0 <= r < n;
    assert a - n == (q - 1) * n + r;
    ModUnique(a - n, n, q - 1, r);
  }

  /** Euclidean division has a single remainder. */
  lemma ModUnique(x: int, n: int, q: int, r: int)
    requires 0 < n && 0 <= r < n && x == q * n + r
    ensures x % n == r
  {
    var d := q - x / n;
    assert d * n == x % n - r;
    MulAwayFromZero(d, n);
  }

  /** A non-zero multiple of a positive `n` is at least `n` away from 0. */
  lemma MulAwayFromZero(d: int, n: int)
    requires 0 < n
    ensures d == 0 || d * n >= n || d * n <= -n
  {
    if d > 0 {
      MulAtLeast(d, n);
    } else if d < 0 {
      MulAtLeast(-d, n);
      assert d * n == -((-d) * n);
    }
  }

  /** A positive multiple of `n` is at least `n`. */
  lemma {:induction false} MulAtLeast(d: nat, n: nat)
    requires 0 < d
    ensures d * n >= n
    decreases d
  {
    if d > 1 {
      MulAtLeast(d - 1, n);
      assert d * n == (d - 1) * n + n;
    }
  }

  /** The first `n` draws of the oracle. */
  function Draws(draw: nat -> nat, n: nat): (r: seq<nat>)
    ensures |r| == n && forall i :: 0 <= i < n ==> r[i] == draw(i)
  {
    seq(n, i requires 0 <= i < n => draw(i))
  }

  /** `moves` is a sequence of turns the loop of `simulate` can take from
      board `b` with `p` to move, when its successive choices draw `picks`:
      before each move the board is undecided and has a legal move, and the
      move is the pick among the legal moves. */
  predicate PlayoutFrom(b: Board, p: Player, picks: seq<nat>, moves: seq<nat>)
    requires |picks| == |moves|
    decreases |moves|
  {
    || |moves| == 0
    || (&& moves[0] < 9
        && FairStep(b, picks[0], moves[0])
        && PlayoutFrom(b[moves[0] := p], Opponent(p), picks[1..], moves[1..]))
  }

  /** `moves` is a playout `simulate` can perform from `s` when its `k`-th
      choice draws `draw(k)`. */
  predicate IsPlayout(s: State, draw: nat -> nat, moves: seq<nat>)
  {
    PlayoutFrom(s.board, s.toMove, Draws(draw, |moves|), moves)
  }

  /** A playout extended by the pick on the board it reached is again a
      playout. */
  lemma {:induction false} ExtendPlayout(b: Board, p: Player, picks: seq<nat>, moves: seq<nat>, reached: Board, pick: nat, m: nat)
    requires |picks| == |moves| && InRange(moves) && PlayoutFrom(b, p, picks, moves) && m < 9
    requires reached == Replay(b, p, moves) && FairStep(reached, pick, m)
    ensures PlayoutFrom(b, p, picks + [pick], moves + [m])
    decreases |moves|
  {
    var ext := moves + [m];
    var pext := picks + [pick];
    if |moves| == 0 {
      assert ext[0] == m && ext[1..] == [] && pext[0] == pick && pext[1..] == [];
    } else {
      var b' := b[moves[0] := p];
      SplitAppend(moves, m);
      SplitAppend(picks, pick);
      ExtendPlayout(b', Opponent(p), picks[1..], moves[1..], reached, pick, m);
    }
  }

  /** Appending to a non-empty sequence keeps its head and appends to its tail. */
  lemma SplitAppend(s: seq<nat>, x: nat)
    requires |s| > 0
    ensures (s + [x])[0] == s[0] && (s + [x])[1..] == s[1..] + [x]
  {
    assert (s + [x])[1..] == s[1..] + [x];
  }

  /** One more draw extends the drawn prefix by the next draw. */
  lemma DrawsStep(draw: nat -> nat, n: nat)
    ensures Draws(draw, n + 1) == Draws(draw, n) + [draw(n)]
  {
    assert forall i :: 0 <= i < n + 1 ==> Draws(draw, n + 1)[i] == (Draws(draw, n) + [draw(n)])[i];
  }

  /** One turn of the playout loop: the oracle's pick is a legal move, and
      marking it extends the playout by one move and the board accordingly. */
  lemma PlayoutStep(s: State, draw: nat -> nat, played: seq<nat>, board: Board, player: Player, move: nat)
    requires InRange(played) && IsPlayout(s, draw, played) && board == Replay(s.board, s.toMove, played)
    requires player == MarkAt(s.toMove, |played|)
    requires |played| + |AvailableMoves(board)| == |AvailableMoves(s.board)|
    requires CheckWinner(board).None? && |AvailableMoves(board)| > 0
    requires move == Choose(AvailableMoves(board), draw(|played|))
    ensures move < 9 && board[move] == Empty
    ensures InRange(played + [move]) && IsPlayout(s, draw, played + [move])
    ensures MakeMove(board, move, player) == MoveResult(true, board[move := player])
    ensures board[move := player] == Replay(s.board, s.toMove, played + [move])
    ensures Opponent(player) == MarkAt(s.toMove, |played + [move]|)
    ensures |played + [move]| + |AvailableMoves(board[move := player])| == |AvailableMoves(s.board)|
  {
    var moves := AvailableMoves(board);
    assert move in moves;
    assert FairStep(board, draw(|played|), move);
    FillReducesMoves(board, move, player);
    ExtendPlayout(s.board, s.toMove, Draws(draw, |played|), played, board, draw(|played|), move);
    DrawsStep(draw, |played|);
    ReplayStep(s.board, s.toMove, played, move);
    MarkAtNext(s.toMove, |played|);
  }

  /** The signed outcome of a decided or drawn position: 1 for an O line,
      -1 for an X line, 0 for no line. */
  function Score(w: Option<Player>): (r: int)
    ensures r == 1 <==> w == Some(O)
    ensures r == -1 <==> w == Some(X)
    ensures r == 0 <==> w.None?
  {
    match w
    case None => 0
    case Some(p) => if p == O then 1 else -1
  }

  /** `simulate`: the outcome, the board the playout ends on, and the moves
      it made. */
  method Simulate(s: State, draw: nat -> nat) returns (result: int, final: Board, played: seq<nat>)
    ensures result == -1 || result == 0 || result == 1
    ensures InRange(played) && IsPlayout(s, draw, played) && final == Replay(s.board, s.toMove, played)
    ensures |played| <= |AvailableMoves(s.board)| <= 9
    ensures IsFull(s.board) || CheckWinner(s.board).Some? ==> result == 0 && played == []
    ensures CheckWinner(s.board).None? ==> result == Score(CheckWinner(final))
    ensures CheckWinner(s.board).None? && result == 0 ==> IsFull(final)
  {
    var board := s.board;
    var player := s.toMove;
    played := [];
    while !IsFull(board) && CheckWinner(board).None?
      invariant InRange(played) && IsPlayout(s, draw, played)
      invariant board == Replay(s.board, s.toMove, played)
      invariant player == MarkAt(s.toMove, |played|)
      invariant |played| + |AvailableMoves(board)| == |AvailableMoves(s.board)|
      invariant |played| > 0 ==> CheckWinner(board).None?
      invariant |played| > 0 ==> !IsFull(s.board) && CheckWinner(s.board).None?
      decreases |AvailableMoves(board)|
    {
      var moves := AvailableMoves(board);
      if |moves| == 0 {
        FullIffNoMoves(board);
        break;
      }
      var move := Choose(moves, draw(|played|));
      PlayoutStep(s, draw, played, board, player, move);
      var made := MakeMove(board, move, player);
      board := made.board;
      played := played + [move];
      var winner := CheckWinner(board);
      if winner.Some? {
        result := Score(winner);
        final := board;
        return;
      }
      player := Opponent(player);
    }
    result := 0;
    final := board;
  }
}
