# Tic-tac-toe with Monte Carlo Tree Search, in Dafny

A model of the engine in `mst.py`:

- the `TicTacToe` board class;
- the `Node` search-tree node;
- the core steps of `MCTS`:
  - `expand`, which adds one child;
  - `simulate`, a random playout;
  - `backpropagate`, which updates the counters along the parent chain;
  - the zero-visit branches of `_select_child`;
  - the final best-child scan of `run`.

The model is written as functions on immutable values, with properties proved about them.

Modules, in dependency order:

- `Wrappers`: `Option`.
- `TicTacToe` (`tictactoe.dfy`):
  - a board is nine cells, each `Empty`, `X` or `O`;
  - a `State` is a board together with the side to move. It is what `get_state` returns and what keys a node's children;
  - `make_move` and `unmake_move` return new boards instead of updating one in place.
- `Dict` (`dict.dfy`): a Python `dict` as an association list that keeps insertion order.
  - Assigning to a key already present replaces its value in place.
  - A new key is appended.
  - `values()` enumerates in this order, and that order decides which child `_select_child` and the best-child scan pick.
- `Tree` (`tree.dfy`): the search tree as an arena. This is a sequence of nodes in creation order; a node names its parent and its children by index. The invariant `Shaped` says four things:
  - node 0 is the only root;
  - parents precede their children;
  - every children entry is keyed by the state of a node whose parent is this node;
  - every child is its parent's board with the parent's side placed on an empty cell, keeping the same side to move.
- `Expansion` (`expansion.dfy`): `expand`. The list `random.shuffle` produces is a parameter `order`, which must be a permutation of the legal moves.
- `Playout` (`playout.dfy`): `simulate`. `random.choice` is an oracle `draw: nat -> nat`; the `k`-th choice picks `moves[draw(k) % |moves|]`.
- `Backprop` (`backprop.dfy`): `backpropagate`.
- `Selection` (`selection.dfy`): `_select_child` and the final scan of `run`.

Two behaviours of the code are modelled as written:

- **The membership key in `expand` does not match the stored key.** The test at mst.py:116-118 builds its key with the side to move switched. The key stored at mst.py:119-122 comes from `get_state()` after `make_move`, which does not switch sides.
  - So the test never finds a stored key, and `expand` always takes the first shuffled move (`Expansion.ExpandTakesFirstShuffledMove`).
  - Expanding a move that already has a child overwrites that entry. The old child drops out of the children, and its counters with it (`Expansion.ReexpandDropsOldChild`).
- **The side to move never changes inside the tree.** Every node carries the root's side to move (`Tree.AllNodesCarryRootSide`). So `backpropagate` credits wins only when the outcome favours the root's side (`Backprop.CreditFollowsRootSide`).

## Model

| member | source | states |
|---|---|---|
| TicTacToe.NewGame | mst.py:8-10 | a new game has nine empty cells and X to move |
| TicTacToe.AvailableMoves | mst.py:12-13 | the result holds exactly the indices 0..8 whose cell is empty, at most nine of them |
| TicTacToe.AvailableMovesAscending | mst.py:12-13 | the legal moves come in strictly ascending order, the order `enumerate` visits the cells |
| TicTacToe.MakeMove | mst.py:15-19 | succeeds iff the position is in 0..8 and its cell is empty; on success that cell becomes the mark and only that cell changes; on failure the board is unchanged |
| TicTacToe.UnmakeMove | mst.py:21-22 | clears the indexed cell, counting negative positions -9..-1 from the end as Python does, and leaves every other cell alone |
| TicTacToe.MakeUnmakeRoundTrip | mst.py:15-22 | unmaking a successful move restores the board it was made on |
| TicTacToe.WinnerFromFirstLine | mst.py:24-35 | the scan from line n finds None iff no later line is uniform and non-empty, else the mark of the first such line |
| TicTacToe.CheckWinnerFirstLine | mst.py:24-35 | `check_winner` returns None iff none of the eight rows, columns and diagonals is uniform and non-empty; otherwise it returns the mark of the first such line in source order |
| TicTacToe.IsFull | mst.py:37-38 | a board is full iff no cell is empty |
| TicTacToe.FullIffNoMoves | mst.py:37-38 | a board is full iff it has no legal move |
| TicTacToe.SwitchPlayer | mst.py:43-44 | same board, the other side to move |
| TicTacToe.SwitchPlayerTwice | mst.py:43-44 | switching twice is the identity |
| TicTacToe.FillReducesMoves | mst.py:140-141 | marking an empty cell takes exactly one move off the legal-move list |
| Dict.Get | mst.py:118 | finds a key iff it is present, and then returns the value stored with it |
| Dict.Put | mst.py:122 | an existing key keeps its position and gets the new value; an absent key is appended; every other entry is kept; keys stay distinct and the key then maps to the new value |
| Dict.PutOverwrites | mst.py:122 | assigning to a present key keeps the size and removes the value it held |
| Tree.NewNode | mst.py:47-53 | a fresh node has the given state, parent and move, no children and zero counters |
| Tree.NewTree | mst.py:157-158 | the initial tree is the root alone, with the game's state and no visits, and satisfies the tree invariants |
| Tree.Ancestry | mst.py:150-154 | the walk along parent links starts at the node, strictly descends in creation order, follows each parent link, and ends at a node without a parent |
| Tree.Ancestors | mst.py:150-154 | the set of nodes on that walk contains the node and nothing created after it |
| Tree.AncestryVisitsEachOnce | mst.py:150-154 | the walk visits exactly the ancestor set, with no node twice |
| Tree.AllNodesCarryRootSide | mst.py:119-121 | every node of a tree has the root's side to move |
| Tree.NotFullyExpandedHasMove | mst.py:55-63 | a node that is not fully expanded still has a legal move |
| Tree.ChildrenBoundedByMoves | mst.py:55-63 | a node never has more children than legal moves, so it is fully expanded exactly when the child count is no longer below the move count |
| Expansion.ShuffledMovesAreEmpty | mst.py:109-110 | every move of the shuffled list is an empty cell of the node's board |
| Expansion.ProbeKey | mst.py:114-116 | the key tested places the side to move on the cell, changes nothing else, and has the other side to move |
| Expansion.FirstFresh | mst.py:113-118 | finds the first shuffled move whose tested key is absent, or None when every tested key is present |
| Expansion.Expand | mst.py:103-130 | with no child made the tree is unchanged. A new child is appended with the node as parent, a shuffled empty cell as move and the node's board with the node's side on it as state, and starts with zero counters. The node's children grow by at most one entry. No other node changes, and the tree invariants and wins <= visits are kept |
| Expansion.GrownByFacts | mst.py:119-122 | adding the child node and its dictionary entry keeps the tree invariants and wins <= visits, and changes no other node |
| Expansion.ProbeNeverStored | mst.py:116-118 | a tested key is never among a node's stored keys |
| Expansion.ExpandTakesFirstShuffledMove | mst.py:113-125 | `expand` makes a child iff the node has a legal move, and the child's move is always the first shuffled move |
| Expansion.ReexpandDropsOldChild | mst.py:120-122 | when the first shuffled move already has a child, the child count stays the same and the old child is no longer among the children, though it stays in the arena unchanged |
| Playout.Choose | mst.py:140 | the move the oracle's draw picks is one of the legal moves |
| Playout.ChooseIsMod | mst.py:140 | the pick for draw `d` among `n` legal moves is the one at position `d % n` |
| Playout.ExtendPlayout | mst.py:136-145 | a playout followed by the oracle's pick on the board it reached is again a playout |
| Playout.PlayoutStep | mst.py:137-141 | on an undecided board with moves, the oracle's pick is an empty cell, and marking it extends the playout and its replayed board by exactly that move |
| Playout.Score | mst.py:143-147 | 1 exactly for an O line, -1 exactly for an X line, 0 exactly for no winner |
| Playout.Simulate | mst.py:132-147 | the result is in {-1, 0, 1}. The moves played are a playout the oracle can drive, at most as many as the legal moves and so at most nine. A start that is already full or won gives 0 with no moves played. Otherwise the result is the score of the final board's winner, and 0 only on a full final board |
| Backprop.Favoured | mst.py:152 | 1 favours O, -1 favours X, and any other result favours nobody |
| Backprop.Backpropagate | mst.py:149-154 | visits rise by exactly one on the nodes from the node to the root and nowhere else. Wins rise by one exactly on those of them whose parent's side to move is the favoured side, so never at the root and never for result 0. No other field changes, and wins <= visits is kept |
| Backprop.CreditFollowsRootSide | mst.py:152 | a node is credited iff it is not the root and the outcome favours the root's side to move |
| Selection.FirstUnvisited | mst.py:93-95 | finds the first child with zero visits from a position on, or None iff there is none |
| Selection.SelectChild | mst.py:87-101 | None iff the node has no children, else one of its children. With zero visits it is the child the random choice names; with visits, it is the first unvisited child in enumeration order when one exists |
| Selection.WinRate | mst.py:191 | the rate is non-negative, and at most 1 when wins <= visits |
| Selection.BestChild | mst.py:188-196 | None iff the root has no children; otherwise the first child, in enumeration order, whose win rate is maximal, where an unvisited child rates 0; the move returned is that child's move |

## Left out

- `TicTacToeGUI` and `main` (mst.py:198-274): widgets, callbacks, message boxes and the event loop are user interface and I/O.
- `MCTS.select` and the iteration loop of `MCTS.run` (mst.py:71-85, 156-186) are not modelled; only the steps they call are.
  - `run` tests the board that `select` has just restored, which is the root's board, not the selected node's (mst.py:166-170).
  - `select` stops only on a winner (mst.py:78). A full board with no winner counts as fully expanded with zero children, so the next `_select_child` call on it returns None or fails.
- Selection.SelectChild: when every child has been visited, the source picks the child with the largest UCB value, computed with floating-point `math.sqrt` and `math.log` (mst.py:97-100). The model takes whichever child the `ucbPick` parameter names, so it states only that the result is one of the children.
- Selection.SelectChild: the source fails in `random.choice` on a node with neither visits nor children (mst.py:91). The model makes this a precondition.
- Selection.BestChild: win rates are exact rationals, not floating-point quotients, so rounding is not modelled.
- The save/restore of `self.game.board` and `current_player` around each phase, and the `deepcopy` in `simulate` (mst.py:56-62, 72-84, 104-128, 133). Boards are immutable values here, so nothing needs restoring.
- The randomness source itself. `random.shuffle` becomes the permutation parameter `order`, `random.choice` the oracle `draw` and the index `choice`.
- `get_state` (mst.py:40-41) is the `State` value itself, built from the board and the side to move.
- Node identity: a Python node is an object; here it is its index in the arena. A child dropped from its parent's dictionary stays in the arena.
- `MCTS.__init__` (mst.py:66-69): the iteration count and exploration constant are used only by the loop and the UCB formula, both left out.
- Search-quality claims, for example how often the engine finds a winning move, are statistical and out of scope.
