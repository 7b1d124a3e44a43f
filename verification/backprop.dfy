/**
  `MCTS.backpropagate`: walk from a node along `parent` links to the root,
  adding one visit to every node on the way, and one win to those whose
  parent's side to move is the side the outcome favours.
 */
module Backprop {
  import opened Wrappers
  import opened TicTacToe
  import opened Tree

  /** The side a signed outcome favours: O for 1, X for -1, nobody otherwise. */
  function Favoured(result: int): (r: Option<Player>)
    ensures r == Some(O) <==> result == 1
    ensures r == Some(X) <==> result == -1
    ensures r.None? <==> result != 1 && result != -1
  {
    if result == 1 then Some(O) else if result == -1 then Some(X) else None
  }

  /** Backpropagating `result` credits a win to node `j`: `j` has a parent,
      the parent's side to move is the side `result` favours, and `result`
      is not a draw. */
  predicate Credited(t: Arena, j: nat, result: int)
    requires ParentsPrecede(t) && j < |t|
  {
    t[j].parent.Some? && Some(t[t[j].parent.value].state.toMove) == Favoured(result) && result != 0
  }

  /** Node `j` after one backpropagation of `result` passed through it,
      if `reached`, and unchanged otherwise. */
  function Touched(t: Arena, j: nat, reached: bool, result: int): Node
    requires ParentsPrecede(t) && j < |t|
  {
    if reached then
      t[j].(visits := t[j].visits + 1, wins := t[j].wins + if Credited(t, j, result) then 1 else 0)
    else t[j]
  }

  /** `backpropagate(node, result)`: exactly the nodes on the path from
      `node` to the root gain one visit, each of them at most one win, and
      every other field of every node is left alone. */
  method Backpropagate(t: Arena, node: nat, result: int) returns (t': Arena)
    requires ParentsPrecede(t) && node < |t|
    ensures |t'| == |t|
    ensures forall j :: 0 <= j < |t| ==>
              t'[j].visits == t[j].visits + (if j in Ancestors(t, node) then 1 else 0)
    ensures forall j {:trigger t'[j]} :: 0 <= j < |t| ==>
              t'[j].wins == t[j].wins + (if j in Ancestors(t, node) && Credited(t, j, result) then 1 else 0)
    ensures forall j :: 0 <= j < |t| ==>
              t'[j] == t[j].(visits := t'[j].visits, wins := t'[j].wins)
    ensures forall j :: 0 <= j < |t| && (result == 0 || t[j].parent.None?) ==> t'[j].wins == t[j].wins
    ensures StatsBounded(t) ==> StatsBounded(t')
  {
    t' := t;
    var cur: Option<nat> := Some(node);
    ghost var done: set<nat> := {};
    while cur.Some?
      invariant |t'| == |t|
      invariant cur.Some? ==> cur.value < |t| && Ancestors(t, node) == done + Ancestors(t, cur.value)
      invariant cur.Some? ==> forall a :: a in done ==> a > cur.value
      invariant cur.None? ==> done == Ancestors(t, node)
      invariant forall j {:trigger t'[j]} :: 0 <= j < |t| ==> t'[j] == Touched(t, j, j in done, result)
      decreases if cur.Some? then cur.value + 1 else 0
    {
      var i := cur.value;
      var n := t'[i];
      var credit := n.parent.Some? && Some(t'[n.parent.value].state.toMove) == Favoured(result) && result != 0;
      t' := t'[i := n.(visits := n.visits + 1, wins := if credit then n.wins + 1 else n.wins)];
      done := done + {i};
      cur := n.parent;
    }
  }

  /** Every node on the path carries the root's side to move, so a win is
      credited at a node other than the root exactly when the outcome favours
      the root's side: with X to move at the root, only X's wins are counted. */
  lemma CreditFollowsRootSide(t: Arena, j: nat, result: int)
    requires Shaped(t) && j < |t|
    ensures Credited(t, j, result) <==> j != 0 && Favoured(result) == Some(t[0].state.toMove)
  {
    if j != 0 {
      AllNodesCarryRootSide(t, t[j].parent.value);
    }
  }
}
