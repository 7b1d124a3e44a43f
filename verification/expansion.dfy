/**
  `MCTS.expand`: add one child to a node of the search tree.

  The source shuffles the node's legal moves and takes the first move whose
  resulting state is not yet a key of the node's children. Two details of
  the code are kept as written:
  - the membership test builds its key with the side to move switched, while
    the key actually stored keeps the side unchanged, so the test never finds
    a stored key and the first shuffled move is always taken;
  - storing that key again for a move that already has a child replaces the
    prev entry, which leaves the old child and its counters unreachable.
 */
module Expansion {
  import opened Wrappers
  import opened TicTacToe
  import opened Dict
  import opened Tree

  /** The result of `expand`: the updated tree and the new child, if any. */
  datatype Expanded = Expanded(tree: Arena, child: Option<nat>)

  /** `order` is what `random.shuffle` may leave in the list of legal moves:
      a permutation of it. */
  predicate IsShuffleOf(order: seq<nat>, moves: seq<nat>)
  {
    multiset(order) == multiset(moves)
  }

  lemma ShuffledMovesAreEmpty(b: Board, order: seq<nat>)
    requires IsShuffleOf(order, AvailableMoves(b))
    ensures forall j :: 0 <= j < |order| ==> order[j] < 9 && b[order[j]] == Empty
  {
    forall j | 0 <= j < |order|
      ensures order[j] < 9 && b[order[j]] == Empty
    {
      assert order[j] in multiset(order);
      assert order[j] in AvailableMoves(b);
    }
  }

  /** The key the membership test builds for move `m`: the board with the
      side to move placed on `m`, and the other side to move. */
  function ProbeKey(s: State, m: nat): (k: State)
    requires m < 9
    ensures k.board[m] == s.toMove
    ensures forall i :: 0 <= i < 9 && i != m ==> k.board[i] == s.board[i]
    ensures k.toMove != s.toMove
  {
    State(s.board[m := s.toMove], Opponent(s.toMove))
  }

  /** The position in `order`, at or after `from`, of the first move whose
      probe key is absent from `children`. */
  function FirstFresh(children: Dict<State, nat>, s: State, order: seq<nat>, from: nat): (r: Option<nat>)
    requires from <= |order|
    requires forall j :: 0 <= j < |order| ==> order[j] < 9
    ensures r.None? ==> forall j :: from <= j < |order| ==> Contains(children, ProbeKey(s, order[j]))
    ensures r.Some? ==> from <= r.value < |order|
                        && !Contains(children, ProbeKey(s, order[r.value]))
                        && forall j :: from <= j < r.value ==> Contains(children, ProbeKey(s, order[j]))
    decreases |order| - from
  {
    if from == |order| then None
    else if !Contains(children, ProbeKey(s, order[from])) then Some(from)
    else FirstFresh(children, s, order, from + 1)
  }

  /** `expand(node)` with the shuffled legal moves `order`. When a child is
      created it is appended to the arena: its parent is `node`, its move is
      an empty cell of `node`'s board, its state is that board with `node`'s
      side placed there and the same side to move, and it starts with no
      counters. `node`'s children gain at most one entry (none when the key
      was already present), and no other node changes. */
  function Expand(t: Arena, node: nat, order: seq<nat>): (r: Expanded)
    requires Shaped(t) && node < |t|
    requires IsShuffleOf(order, AvailableMoves(t[node].state.board))
    ensures r.child.None? ==> r.tree == t
    ensures r.child.None? ==> forall j :: 0 <= j < |order| ==>
              order[j] < 9 && Contains(t[node].children, ProbeKey(t[node].state, order[j]))
    ensures r.child.Some? ==> r.child.value == |t| && |r.tree| == |t| + 1
    ensures r.child.Some? ==>
      var c := r.tree[|t|];
      && c.parent == Some(node) && c.move.Some? && c.move.value in order && c.move.value < 9
      && Derived(t[node].state, c.move.value, c.state)
      && c.children == [] && c.visits == 0 && c.wins == 0
      && r.tree[node] == t[node].(children := Put(t[node].children, c.state, |t|))
      && (|r.tree[node].children| == |t[node].children| <==> Contains(t[node].children, c.state))
    ensures |r.tree[node].children| <= |t[node].children| + 1
    ensures |r.tree| >= |t| && forall j :: 0 <= j < |t| && j != node ==> r.tree[j] == t[j]
    ensures Shaped(r.tree)
    ensures StatsBounded(t) ==> StatsBounded(r.tree)
  {
    var s := t[node].state;
    ShuffledMovesAreEmpty(s.board, order);
    match FirstFresh(t[node].children, s, order, 0)
    case None => Expanded(t, None)
    case Some(k) =>
      var m := order[k];
      var placed := MakeMove(s.board, m, s.toMove);
      var key := State(placed.board, s.toMove);
      var updated := t[node].(children := Put(t[node].children, key, |t|));
      var t' := t[node := updated] + [NewNode(key, Some(node), Some(m))];
      assert placed.board == s.board[m := s.toMove];
      assert GrownBy(t, node, m, t');
      GrownByFacts(t, node, m, t');
      Expanded(t', Some(|t|))
  }

  /** What growing the tree by one child for move `m` does to each node. */
  lemma GrownByFacts(t: Arena, node: nat, m: nat, t': Arena)
    requires Shaped(t) && node < |t| && m < 9 && t[node].state.board[m] == Empty
    requires GrownBy(t, node, m, t')
    ensures |t'| == |t| + 1
    ensures var c := t'[|t|];
      && c.parent == Some(node) && c.move == Some(m)
      && Derived(t[node].state, m, c.state)
      && c.children == [] && c.visits == 0 && c.wins == 0
      && t'[node] == t[node].(children := Put(t[node].children, c.state, |t|))
      && (|t'[node].children| == |t[node].children| <==> Contains(t[node].children, c.state))
    ensures |t'[node].children| <= |t[node].children| + 1
    ensures forall j :: 0 <= j < |t| && j != node ==> t'[j] == t[j]
    ensures Shaped(t')
    ensures StatsBounded(t) ==> StatsBounded(t')
  {
    var s := t[node].state;
    var key := State(s.board[m := s.toMove], s.toMove);
    var d := t[node].children;
    assert |Keys(Put(d, key, |t|))| == |Put(d, key, |t|)|;
    assert |Keys(d)| == |d|;
    ExpandKeepsShape(t, node, m, t');
  }

  /** The tree `Expand` builds when it places the side to move on `m`. */
  predicate GrownBy(t: Arena, node: nat, m: nat, t': Arena)
    requires node < |t| && m < 9
  {
    var s := t[node].state;
    var key := State(s.board[m := s.toMove], s.toMove);
    t' == t[node := t[node].(children := Put(t[node].children, key, |t|))]
          + [NewNode(key, Some(node), Some(m))]
  }

  lemma ExpandKeepsShape(t: Arena, node: nat, m: nat, t': Arena)
    requires Shaped(t) && node < |t| && m < 9 && t[node].state.board[m] == Empty
    requires GrownBy(t, node, m, t')
    ensures Shaped(t')
  {
    ExpandKeepsParents(t, node, m, t');
    ExpandKeepsLinks(t, node, m, t');
    ExpandKeepsDerivation(t, node, m, t');
  }

  lemma ExpandKeepsParents(t: Arena, node: nat, m: nat, t': Arena)
    requires Rooted(t) && ParentsPrecede(t) && node < |t| && m < 9
    requires GrownBy(t, node, m, t')
    ensures Rooted(t') && ParentsPrecede(t')
  {
    assert forall i :: 0 <= i < |t| ==> t'[i].parent == t[i].parent;
  }

  lemma ExpandKeepsDerivation(t: Arena, node: nat, m: nat, t': Arena)
    requires ParentsPrecede(t) && MovesDerived(t) && node < |t| && m < 9 && t[node].state.board[m] == Empty
    requires GrownBy(t, node, m, t')
    ensures MovesDerived(t')
  {
    forall i | 0 <= i < |t'|
      ensures DerivedAt(t', i)
    {
      if i < |t| {
        assert DerivedAt(t, i);
      }
    }
  }

  lemma ExpandKeepsLinks(t: Arena, node: nat, m: nat, t': Arena)
    requires ChildrenLinked(t) && node < |t| && m < 9
    requires GrownBy(t, node, m, t')
    ensures ChildrenLinked(t')
  {
    var s := t[node].state;
    var key := State(s.board[m := s.toMove], s.toMove);
    assert forall i :: 0 <= i < |t| ==> t'[i].state == t[i].state && t'[i].parent == t[i].parent;
    forall i | 0 <= i < |t'|
      ensures LinkedAt(t', i)
    {
      if i < |t| {
        assert LinkedAt(t, i);
      }
      if i == node {
        forall e | e in t'[i].children
          ensures i < e.1 < |t'| && t'[e.1].parent == Some(i) && t'[e.1].state == e.0
        {
          if e != (key, |t|) {
            assert e in t[node].children;
          }
        }
      } else if i < |t| {
        assert t'[i].children == t[i].children;
      }
    }
  }

  /** No stored key ever matches the membership test's key: stored keys keep
      the node's side to move, the test's key has the other side. */
  lemma ProbeNeverStored(t: Arena, node: nat, m: nat)
    requires Shaped(t) && node < |t| && m < 9
    ensures !Contains(t[node].children, ProbeKey(t[node].state, m))
  {
    var d := t[node].children;
    assert LinkedAt(t, node);
    forall i | 0 <= i < |d|
      ensures Keys(d)[i] != ProbeKey(t[node].state, m)
    {
      assert d[i] in d;
      assert DerivedAt(t, d[i].1);
    }
  }

  /** Because of the switched side in the membership test, `expand` always
      takes the first move of the shuffled list, and fails only when the node
      has no legal move at all. */
  lemma {:induction false} ExpandTakesFirstShuffledMove(t: Arena, node: nat, order: seq<nat>)
    requires Shaped(t) && node < |t|
    requires IsShuffleOf(order, AvailableMoves(t[node].state.board))
    ensures |order| == 0 <==> Expand(t, node, order).child.None?
    ensures |order| > 0 ==> Expand(t, node, order).tree[|t|].move == Some(order[0])
  {
    ShuffledMovesAreEmpty(t[node].state.board, order);
    if |order| > 0 {
      ProbeNeverStored(t, node, order[0]);
    }
  }

  /** Expanding a move whose resulting state is already a child's key replaces
      that entry: the count of children stays the same and the old child is no
      longer among them, though it remains in the arena with its counters. */
  lemma ReexpandDropsOldChild(t: Arena, node: nat, order: seq<nat>)
    requires Shaped(t) && node < |t|
    requires IsShuffleOf(order, AvailableMoves(t[node].state.board))
    requires |order| > 0
    requires order[0] < 9
    requires Contains(t[node].children, State(t[node].state.board[order[0] := t[node].state.toMove], t[node].state.toMove))
    ensures var r := Expand(t, node, order);
            var key := State(t[node].state.board[order[0] := t[node].state.toMove], t[node].state.toMove);
            var prev := Get(t[node].children, key).value;
            && |r.tree[node].children| == |t[node].children|
            && prev !in Values(r.tree[node].children)
            && prev < |t| && r.tree[prev] == t[prev]
  {
    ExpandTakesFirstShuffledMove(t, node, order);
    var s := t[node].state;
    var key := State(s.board[order[0] := s.toMove], s.toMove);
    var d := t[node].children;
    var prev := Get(d, key).value;
    assert LinkedAt(t, node);
    forall i | 0 <= i < |d| && d[i].1 == prev
      ensures d[i].0 == key
    {
      var j :| 0 <= j < |d| && d[j] == (key, prev);
      assert d[i] in d && d[j] in d;
    }
    var j :| 0 <= j < |d| && d[j] == (key, prev);
    assert d[j] in d;
    PutOverwrites(d, key, |t|);
    var r := Expand(t, node, order);
    assert r.tree[|t|].state == key;
    assert r.tree[node].children == Put(d, key, |t|);
  }
}
