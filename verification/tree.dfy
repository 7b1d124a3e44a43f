/**
  The search tree of `Node` objects, held as an arena: a sequence of nodes in
  creation order, where a node names its parent and its children by index.
  Index 0 is the root created from the game's state when a search starts.
 */
module Tree {
  import opened Wrappers
  import opened TicTacToe
  import opened Dict

  /** `Node`: the position it stands for, its parent (None only at the root),
      the move that produced it, its children keyed by their states, and its
      visit and win counters. */
  datatype Node = Node(state: State, parent: Option<nat>, move: Option<nat>,
                       children: Dict<State, nat>, visits: nat, wins: nat)

  type Arena = seq<Node>

  /** Every parent was created before its child, so parent chains end. */
  predicate ParentsPrecede(t: Arena)
  {
    forall i :: 0 <= i < |t| && t[i].parent.Some? ==> t[i].parent.value < i
  }

  /** Node 0 is the only node without a parent. */
  predicate Rooted(t: Arena)
  {
    && |t| > 0
    && t[0].parent.None?
    && forall i :: 0 < i < |t| ==> t[i].parent.Some?
  }

  /** Each entry of a node's children is keyed by the state of a later node
      whose parent is that node; keys are distinct as in a dictionary. */
  predicate ChildrenLinked(t: Arena)
  {
    forall i :: 0 <= i < |t| ==> LinkedAt(t, i)
  }

  predicate LinkedAt(t: Arena, i: nat)
    requires i < |t|
  {
    && DistinctKeys(t[i].children)
    && forall e :: e in t[i].children ==>
         i < e.1 < |t| && t[e.1].parent == Some(i) && t[e.1].state == e.0
  }

  /** Every non-root node is its parent's board with the parent's side placed
      on a cell that was empty, and it keeps the parent's side to move. */
  predicate MovesDerived(t: Arena)
  {
    forall i :: 0 <= i < |t| ==> DerivedAt(t, i)
  }

  predicate DerivedAt(t: Arena, i: nat)
    requires i < |t|
  {
    t[i].parent.Some? && t[i].parent.value < |t| ==>
      && t[i].move.Some? && t[i].move.value < 9
      && Derived(t[t[i].parent.value].state, t[i].move.value, t[i].state)
  }

  /** `child` is `s` after the side to move marks the empty cell `m`,
      with the side to move left as it was. */
  predicate Derived(s: State, m: nat, child: State)
    requires m < 9
  {
    s.board[m] == Empty && child == State(s.board[m := s.toMove], s.toMove)
  }

  /** The shape every tree built by the search has. */
  predicate Shaped(t: Arena)
  {
    Rooted(t) && ParentsPrecede(t) && ChildrenLinked(t) && MovesDerived(t)
  }

  /** `0 <= wins <= visits` at every node. */
  predicate StatsBounded(t: Arena)
  {
    forall i :: 0 <= i < |t| ==> t[i].wins <= t[i].visits
  }

  /** A fresh node: no children, no visits, no wins. */
  function NewNode(state: State, parent: Option<nat>, move: Option<nat>): (n: Node)
    ensures n.children == [] && n.visits == 0 && n.wins == 0
    ensures n.state == state && n.parent == parent && n.move == move
  {
    Node(state, parent, move, [], 0, 0)
  }

  /** The tree a search starts from: the root alone. */
  function NewTree(s: State): (t: Arena)
    ensures Shaped(t) && StatsBounded(t)
    ensures |t| == 1 && t[0].state == s && t[0].visits == 0
  {
    [NewNode(s, None, None)]
  }

  /** `is_fully_expanded`: as many children as legal moves. */
  predicate IsFullyExpanded(n: Node)
  {
    |n.children| == |AvailableMoves(n.state.board)|
  }

  /** The nodes `node`, its parent, its grandparent, ... up to the root:
      the nodes a walk along `parent` links visits. */
  function Ancestry(t: Arena, node: nat): (path: seq<nat>)
    requires ParentsPrecede(t) && node < |t|
    ensures |path| > 0 && path[0] == node
    ensures forall j, k :: 0 <= j < k < |path| ==> path[j] > path[k]
    ensures forall k {:trigger t[path[k]]} :: 0 <= k < |path| - 1 ==> t[path[k]].parent == Some(path[k + 1])
    ensures t[path[|path| - 1]].parent.None?
    decreases node
  {
    match t[node].parent
    case None => [node]
    case Some(p) =>
      var up := Ancestry(t, p);
      assert forall k :: 0 < k < |up| ==> up[0] > up[k];
      [node] + up
  }

  /** The same nodes as `Ancestry(t, node)`, as a set. */
  function Ancestors(t: Arena, node: nat): (r: set<nat>)
    requires ParentsPrecede(t) && node < |t|
    ensures node in r
    ensures forall a :: a in r ==> a <= node
    decreases node
  {
    match t[node].parent
    case None => {node}
    case Some(p) => {node} + Ancestors(t, p)
  }

  /** The walk visits each node once: the path's set of nodes is
      `Ancestors`, and the path has no repeated node. */
  lemma {:induction false} AncestryVisitsEachOnce(t: Arena, node: nat)
    requires ParentsPrecede(t) && node < |t|
    ensures forall a :: a in Ancestry(t, node) <==> a in Ancestors(t, node)
    ensures |Ancestry(t, node)| == |Ancestors(t, node)|
    decreases node
  {
    match t[node].parent
    case None =>
    case Some(p) =>
      AncestryVisitsEachOnce(t, p);
      assert node !in Ancestors(t, p);
  }

  /** No switching inside the tree: every node has the root's side to move. */
  lemma {:induction false} AllNodesCarryRootSide(t: Arena, i: nat)
    requires Shaped(t) && i < |t|
    ensures t[i].state.toMove == t[0].state.toMove
    decreases i
  {
    if i > 0 {
      assert DerivedAt(t, i);
      AllNodesCarryRootSide(t, t[i].parent.value);
    }
  }

  /** A node that is not fully expanded still has a legal move. */
  lemma NotFullyExpandedHasMove(t: Arena, i: nat)
    requires Shaped(t) && i < |t|
    requires !IsFullyExpanded(t[i])
    ensures |AvailableMoves(t[i].state.board)| > 0
  {
    if |t[i].children| > 0 {
      var e := t[i].children[0];
      assert LinkedAt(t, i) && e in t[i].children;
      assert DerivedAt(t, e.1);
      assert t[e.1].move.value in AvailableMoves(t[i].state.board);
    }
  }

  /** No value occurs twice in `s`. */
  predicate NoRepeats(s: seq<nat>)
  {
    forall j, k :: 0 <= j < k < |s| ==> s[j] != s[k]
  }

  /** A sequence without repeats drawn from `pool` is no longer than `pool`. */
  lemma {:induction false} NoRepeatsBound(s: seq<nat>, pool: set<nat>)
    requires NoRepeats(s)
    requires forall k :: 0 <= k < |s| ==> s[k] in pool
    ensures |s| <= |pool|
    decreases |s|
  {
    if |s| > 0 {
      var last := s[|s| - 1];
      var rest := s[..|s| - 1];
      assert forall k :: 0 <= k < |rest| ==> rest[k] == s[k] && rest[k] != last;
      NoRepeatsBound(rest, pool - {last});
    }
  }

  /** The moves that produced the children of node `i`, in enumeration order. */
  function ChildMoves(t: Arena, i: nat): (ms: seq<nat>)
    requires Shaped(t) && i < |t|
    ensures |ms| == |t[i].children|
    ensures forall k :: 0 <= k < |ms| ==> ms[k] in AvailableMoves(t[i].state.board)
    ensures NoRepeats(ms)
  {
    var d := t[i].children;
    assert LinkedAt(t, i);
    assert forall k :: 0 <= k < |d| ==> d[k] in d && DerivedAt(t, d[k].1);
    seq(|d|, k requires 0 <= k < |d| => t[d[k].1].move.value)
  }

  /** Children keys are distinct states, and distinct moves from one node
      give distinct states, so a node never has more children than legal
      moves: `is_fully_expanded` is the point where the count reaches its
      maximum. */
  lemma ChildrenBoundedByMoves(t: Arena, i: nat)
    requires Shaped(t) && i < |t|
    ensures |t[i].children| <= |AvailableMoves(t[i].state.board)|
    ensures IsFullyExpanded(t[i]) <==> !(|t[i].children| < |AvailableMoves(t[i].state.board)|)
  {
    var moves := AvailableMoves(t[i].state.board);
    var ms := ChildMoves(t, i);
    NoRepeatsBound(ms, Elems(moves));
    ElemsBound(moves);
  }

  /** The values occurring in `s`. */
  function Elems(s: seq<nat>): set<nat>
  {
    set m | m in s
  }

  /** A sequence has at most as many distinct values as entries. */
  lemma {:induction false} ElemsBound(s: seq<nat>)
    ensures |Elems(s)| <= |s|
    decreases |s|
  {
    if |s| > 0 {
      ElemsBound(s[1..]);
      assert Elems(s) == Elems(s[1..]) + {s[0]};
    }
  }
}
