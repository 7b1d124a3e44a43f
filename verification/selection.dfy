/**
  The two places where the search picks among a node's children:
  `MCTS._select_child` during selection, and the final scan in `MCTS.run`
  that turns the root's children into a recommended move.

  Children are enumerated in the order of the children dictionary. The UCB
  formula, which uses floating-point square roots and logarithms, is left
  abstract: where the source picks the visited child with the largest UCB
  value, the model takes whichever child the oracle `ucbPick` names.
 */
module Selection {
  import opened Wrappers
  import opened TicTacToe
  import opened Dict
  import opened Tree

  /** The children of `node`, in enumeration order. */
  function Kids(t: Arena, node: nat): seq<nat>
    requires node < |t|
  {
    Values(t[node].children)
  }

  /** `c` is a node of the tree that has never been visited. */
  predicate Unvisited(t: Arena, c: nat)
  {
    c < |t| && t[c].visits == 0
  }

  /** The position in `kids`, at or after `from`, of the first unvisited child. */
  function FirstUnvisited(t: Arena, kids: seq<nat>, from: nat): (r: Option<nat>)
    requires from <= |kids|
    ensures r.None? <==> forall k :: from <= k < |kids| ==> !Unvisited(t, kids[k])
    ensures r.Some? ==> from <= r.value < |kids| && Unvisited(t, kids[r.value])
                        && forall k :: from <= k < r.value ==> !Unvisited(t, kids[k])
    decreases |kids| - from
  {
    if from == |kids| then None
    else if Unvisited(t, kids[from]) then Some(from)
    else FirstUnvisited(t, kids, from + 1)
  }

  /** `_select_child(node)`. With no visits at `node`, `random.choice` picks
      any child, here the one `choice` names. Otherwise the first unvisited
      child in enumeration order is taken; failing that, a child chosen by
      UCB. A node without children yields None. The source crashes on a node
      with neither visits nor children, which is excluded. */
  function SelectChild(t: Arena, node: nat, choice: nat, ucbPick: nat): (r: Option<nat>)
    requires Shaped(t) && node < |t|
    requires t[node].visits > 0 || |t[node].children| > 0
    ensures r.None? <==> |Kids(t, node)| == 0
    ensures r.Some? ==> r.value in Kids(t, node) && node < r.value < |t| && t[r.value].parent == Some(node)
    ensures t[node].visits == 0 ==> r == Some(Kids(t, node)[choice % |Kids(t, node)|])
    ensures t[node].visits > 0 && (exists k :: 0 <= k < |Kids(t, node)| && Unvisited(t, Kids(t, node)[k])) ==>
              exists k :: 0 <= k < |Kids(t, node)| && r == Some(Kids(t, node)[k]) && Unvisited(t, Kids(t, node)[k])
                          && forall j :: 0 <= j < k ==> !Unvisited(t, Kids(t, node)[j])
  {
    var kids := Kids(t, node);
    assert LinkedAt(t, node);
    assert forall k :: 0 <= k < |kids| ==> t[node].children[k] in t[node].children;
    if t[node].visits == 0 then Some(kids[choice % |kids|])
    else match FirstUnvisited(t, kids, 0)
      case Some(k) => Some(kids[k])
      case None => if |kids| == 0 then None else Some(kids[ucbPick % |kids|])
  }

  /** The win rate the final scan compares: wins over visits, 0 when the node
      has no visits. */
  function WinRate(n: Node): (r: real)
    ensures r >= 0.0
    ensures n.visits > 0 && n.wins <= n.visits ==> r <= 1.0
  {
    if n.visits > 0 then n.wins as real / n.visits as real else 0.0
  }

  /** The win rate of node `c`, when it is in the tree. */
  function RateOf(t: Arena, c: nat): real
  {
    if c < |t| then WinRate(t[c]) else 0.0
  }

  /** Position `k` holds the first child with the highest win rate. */
  predicate FirstBest(t: Arena, kids: seq<nat>, k: nat)
  {
    && k < |kids|
    && (forall j :: 0 <= j < |kids| ==> RateOf(t, kids[j]) <= RateOf(t, kids[k]))
    && (forall j :: 0 <= j < k ==> RateOf(t, kids[j]) < RateOf(t, kids[k]))
  }

  /** The scan at the end of `run`: the first root child with the highest
      win rate, and its move; None when the root has no children. */
  method BestChild(t: Arena, root: nat) returns (best: Option<nat>, move: Option<nat>)
    requires Shaped(t) && root < |t|
    ensures best.None? <==> |Kids(t, root)| == 0
    ensures best.Some? ==> exists k :: 0 <= k < |Kids(t, root)| && FirstBest(t, Kids(t, root), k) && Kids(t, root)[k] == best.value
    ensures best.Some? ==> best.value < |t| && move == t[best.value].move && move.Some?
    ensures best.None? ==> move.None?
  {
    var kids := Kids(t, root);
    assert LinkedAt(t, root);
    best := None;
    var bestRate: real := -1.0;
    ghost var bestAt: nat := 0;
    var i := 0;
    while i < |kids|
      invariant 0 <= i <= |kids|
      invariant i == 0 <==> best.None?
      invariant i == 0 ==> bestRate == -1.0
      invariant i > 0 ==> bestAt < i && best == Some(kids[bestAt]) && bestRate == RateOf(t, kids[bestAt])
      invariant i > 0 ==> forall j :: 0 <= j < i ==> RateOf(t, kids[j]) <= bestRate
      invariant i > 0 ==> forall j :: 0 <= j < bestAt ==> RateOf(t, kids[j]) < bestRate
    {
      var c := kids[i];
      assert t[root].children[i] in t[root].children;
      var rate := if t[c].visits > 0 then t[c].wins as real / t[c].visits as real else 0.0;
      assert rate == RateOf(t, c);
      if rate > bestRate {
        bestRate := rate;
        best := Some(c);
        bestAt := i;
      }
      i := i + 1;
    }
    if best.Some? {
      assert FirstBest(t, kids, bestAt);
      var c := best.value;
      assert t[root].children[bestAt] in t[root].children;
      assert DerivedAt(t, c);
      move := t[c].move;
    } else {
      move := None;
    }
  }
}
