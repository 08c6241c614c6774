# Nim decision engine

A Dafny model of the move-decision core of a computer Nim player. The
player runs on a board of piles, and `NimBoard::getNextMove` picks a move
for the variant being played:

- **Misère end game**: when at most one pile holds two or more objects, a
  parity rule picks the move, or a random move when the position is lost.
- **Closed-form rule**: in misère play outside the end game, and in normal
  play with the `ALGO` player, the first pile that shrinks when XOR-ed with
  the board's nim-sum is reduced to that size. Bouton's strategy falls back
  to a random move when no pile qualifies.
- **Tree search**: in normal play with the `ALPHABETA` player,
  `buildTree`/`buildLayer` expand every (pile, amount) reduction `depth`
  plies deep, scoring each position with the static `evaluator`. The
  fail-hard `alphaBeta` search (`AlphaBeta.cpp`) then searches the tree,
  and `getMaxMove` reads the move back from the first child of the root
  whose score equals the search value.

Modules, in dependency order:

| file | module | contents |
|---|---|---|
| `bits.dfy` | `Bits` | XOR on natural numbers, its bit-wise characterisation, Bouton's reduction step |
| `board.dfy` | `Board` | piles, moves, nim-sum, `update`, `isValidMove`, `isGameOver`, `isEndGame` |
| `gametree.dfy` | `GameTree` | `Node`, `Tree`, `AddChild`, subtree sizes |
| `builder.dfy` | `Builder` | `evaluator`, `buildLayer`, `buildTree`, and the shape every built tree has |
| `search.dfy` | `Search` | `alphaBeta`, a plain minimax reference, the window theorem, cut-offs |
| `strategy.dfy` | `Strategy` | `getNextMove`, the nim-sum scan, `getRandomMove`, the end-game rule, `getMaxMove` |

## Modelling choices

- Piles are `seq<nat>`. The source's `update` does not check the move and
  would store a negative pile when the amount exceeds the pile; the model's
  `Board.Update` requires `amount <= pile` instead (see "Left out"). The
  source's `^` becomes `Bits.Xor` on `nat`.
- The tree is an immutable recursive value. The builder is written as three
  mutually recursive functions, `BuildLayer`, `Expansions` and
  `PileExpansions`: one for the layer, one for the loop over piles and one
  for the loop over removal amounts. Each returns the children it made and
  the node count `buildLayer` accumulates.
- `Builder.WellBuilt` is the shape `buildLayer` promises:
  - no children at level 0, otherwise exactly `Sum(piles)` children;
  - the child leaving `t` objects in pile `i` sits at position
    `Sum(piles[..i]) + t`;
  - every child is a successor position, carries its own `evaluator`
    score, and is well built one level down.
- `getRandomMove` picks a non-empty pile by nondeterministic choice; the
  source retries `rand()` until it draws one. The second `rand()` is the
  `roll` parameter.
- `getMaxMove` dereferences a null pointer when no child carries the search
  value. The model returns `Strategy.NoMatchingChild` there instead.
- The root of the tree search is searched with the window `(INT_MIN, 0)`,
  not `(INT_MIN, INT_MAX)`. Inside the `ALPHABETA` case of `getNextMove`, a
  local `int max = 0` shadows the member that holds `INT_MAX`, and that
  local is what the call receives (`NimBoard.cpp:93-96`).

## The root window

- **With the full window** (`Search.FullWindowIsMinimax`), the search of a
  built tree returns its minimax value. This holds because every score is
  a 32-bit `int` (`Search.BuiltTreeBounded`, `Search.AlphaBetaExact`).
- **With the window the code uses**, one ply deep always lands on a child
  (`Strategy.RootSearchOnePly`).
- **Two plies deep, on piles `[1, 1]`**, the search returns 0:
  - the first min node stops at its starting bound 0;
  - the root then cuts off;
  - the minimax value is 100;
  - no child scores 0, so `getMaxMove` finds no child.

  `Strategy.RootSearchMissesEveryChild` proves this.
- Passing `INT_MAX` would not repair the read-back. The minimax value of a
  deeper search is a backed-up value, and `getMaxMove` compares it with the
  children's static scores. So the model keeps the call as written and
  reports the missing child as `NoMatchingChild`.

## Model

| member | source | states |
|---|---|---|
| Bits.Xor | NimBoard.cpp:22 | the `^` of the board code on non-negative piles; `Bits.XorBit` states its meaning digit by digit |
| Bits.XorBit | NimBoard.cpp:22 | binary digit `k` of `a ^ b` is set exactly when digit `k` differs between `a` and `b` |
| Bits.XorBelow | NimBoard.cpp:59-60 | if the highest set digit of `x` is set in `p`, then `p ^ x < p` (Bouton's reduction step) |
| Board.NimSum | NimBoard.cpp:18-25 | the XOR of all piles as a left fold; its meaning is stated by `Board.NimSumBits` (digit `k` set iff an odd number of piles have digit `k`) and `Board.NimSumOfEmptyBoard` (0 on an all-empty board) |
| Board.NimSumBits | NimBoard.cpp:18-25 | digit `k` of the nim-sum is set iff an odd number of piles have digit `k` set |
| Board.GetNimSum | NimBoard.cpp:18-25 | the loop computes the XOR of all piles; digit `k` of the result is set iff an odd number of piles have digit `k`; an all-empty board gives 0 |
| Board.NimSumReplace | NimBoard.cpp:15-25 | replacing one pile by `v` changes the nim-sum to `nimSum ^ pile ^ v` |
| Board.NonZeroNimSumHasReducingPile | NimBoard.cpp:58-64 | when the nim-sum is not 0, some pile shrinks when XOR-ed with it, so the scan finds a target |
| Board.ReduceToZeroNimSum | NimBoard.cpp:59-63 | reducing the chosen pile to `pile ^ nimSum` leaves a board of nim-sum 0 |
| Board.ZeroNimSumEveryMoveUnbalances | NimBoard.cpp:69-71 | from nim-sum 0, every legal move leaves a non-zero nim-sum, so no winning move exists there and the random fallback gives nothing away |
| Board.MaxPile | NimBoard.cpp:131 | the `*std::max_element` of the piles (also at lines 45 and 256); `Board.MaxPileIsMaximum` states it bounds every pile and is one of them |
| Board.MaxPileIsMaximum | NimBoard.cpp:131 | the `max_element` value bounds every pile and is one of them on a board with piles |
| Board.FirstIndexOf | NimBoard.cpp:51-52 | `std::find` gives the first index holding the value |
| Board.Update | NimBoard.cpp:15-17 | the move's pile drops by the amount; every other pile and the length are unchanged |
| Board.IsValidMove | NimBoard.cpp:136-144 | `isValidMove`; `Board.ValidMoveIsSuccessor` states what it accepts |
| Board.ValidMoveIsSuccessor | NimBoard.cpp:136-144 | `isValidMove` holds iff `1 <= amount <= pile`; a valid move gives a successor position with `amount` fewer objects; a move whose result is a successor position is valid |
| Board.IsGameOver | NimBoard.cpp:127-135 | `isGameOver`, the largest pile is 0; `Board.GameOverIffAllEmpty` states its meaning |
| Board.GameOverIffAllEmpty | NimBoard.cpp:127-135 | the game is over iff every pile is empty, iff no object is left |
| Board.IsEndGame | NimBoard.cpp:169-183 | `isEndGame`, at most one pile above 1; `Board.EndGameIffOneBigPile` states its meaning |
| Board.CountBig | NimBoard.cpp:173-177 | the `endGamePileCount` loop, the number of piles above 1; `Board.NoBigPile` and `Board.EndGameIffOneBigPile` state its meaning |
| Board.EndGameIffOneBigPile | NimBoard.cpp:169-183 | the end-game test holds iff no two distinct piles both exceed 1 |
| Board.CountNonEmpty | NimBoard.cpp:41-43 | the `movesLeft` loop, the number of non-empty piles; `Board.CountNonEmptyReplace` and `Board.CountNonEmptyZero` state its meaning |
| Board.CountNonEmptyReplace | NimBoard.cpp:41-43 | replacing one pile changes the count of non-empty piles (`movesLeft`) by the change in that pile's emptiness |
| Board.SuccessorShrinks | NimBoard.cpp:210-211 | a successor position holds strictly fewer objects, which bounds the tree expansion |
| GameTree.AddChild | AlphaBeta.cpp:15-20 | one child is appended at the end; the earlier children, the node's score and its piles are unchanged |
| GameTree.AddChildSize | AlphaBeta.cpp:15-20 | appending a child adds that child's whole subtree to the node count |
| Builder.Evaluator | NimBoard.cpp:247-264 | the score is one of 100, 50 and `INT_MIN`; `Builder.EvaluatorScores` says which |
| Builder.EvaluatorScores | NimBoard.cpp:247-264 | 100 when every pile is empty, 50 for a non-empty board of nim-sum 0, `INT_MIN` otherwise; never 0 |
| Builder.Child | NimBoard.cpp:210-214 | the child made for "leave `t` objects in pile `i`" has those piles and their `evaluator` score |
| Builder.BuildLayerShape | NimBoard.cpp:196-222 | expanding a childless node yields a well-built subtree with the node's own score and piles; level 0 leaves it alone and counts 0 |
| Builder.ExpansionWellBuilt | NimBoard.cpp:207-216 | every child the loops make is a successor position, carries its own score and is well built one level down |
| Builder.BuildLayer | NimBoard.cpp:196-222 | keeps the parent's score and piles and its existing children as a prefix; `Builder.BuildLayerShape` and `Builder.BuildLayerCount` state the shape and count |
| Builder.BuildLayerAddsChildren | NimBoard.cpp:207-216 | the layer's new children are exactly those the repeated `AddChild` calls append, in creation order |
| Builder.Expansions | NimBoard.cpp:207-219 | the outer loop over piles from `pile` on makes one child per object in piles `pile` onwards; `Builder.ExpansionsAt` places each child |
| Builder.PileExpansions | NimBoard.cpp:208-216 | the inner loop over removal amounts makes exactly `remove` children; `Builder.PileExpansionsAt` says which, in order |
| Builder.BuildLayerCount | NimBoard.cpp:200-221 | the count `buildLayer` returns is exactly the number of nodes it added below the parent |
| Builder.PileExpansionsAt | NimBoard.cpp:208-216 | the inner loop makes `remove` children, leaving `pile - remove`, ..., `pile - 1` objects, in that order |
| Builder.ExpansionsAt | NimBoard.cpp:207-219 | the child leaving `t` objects in pile `i` sits at position `Sum(piles[..i]) + t` |
| Builder.SlotOf | NimBoard.cpp:207-208 | every sibling position belongs to a (pile, objects left) pair, so the layout covers all children |
| Builder.BuildTree | NimBoard.cpp:184-195 | the root carries the board and `INT_MIN`, the tree is well built to `depth`, and the recorded size is the number of nodes below the root |
| Search.AlphaBeta | AlphaBeta.cpp:33-68 | fail-hard: once children are searched, a max node answers at least `alpha` and a min node at most `beta`; `Search.AlphaBetaWindow` relates it to minimax |
| Search.MaxLoop | AlphaBeta.cpp:41-53 | the maximiser's running best never drops below its start; `Search.MaxLoopWindow` and `Search.MaxLoopCutoff` state the rest |
| Search.MinLoop | AlphaBeta.cpp:54-66 | the minimiser's running best never rises above its start; `Search.MinLoopWindow` and `Search.MinLoopCutoff` state the rest |
| Search.AlphaBetaWindow | AlphaBeta.cpp:33-68 | for `alpha < beta`: a result strictly inside the window is the minimax value; at or below `alpha` the minimax value is at most `alpha`; at or above `beta` it is at least `beta` |
| Search.MaxLoopWindow | AlphaBeta.cpp:41-53 | the maximiser's loop below `beta` equals the unpruned maximum of its start and the children; a cut-off result bounds that maximum from below |
| Search.MinLoopWindow | AlphaBeta.cpp:54-66 | the minimiser's loop above `alpha` equals the unpruned minimum; a cut-off result bounds it from above |
| Search.MaxLoopCutoff | AlphaBeta.cpp:45-52 | when the maximiser stops before the last child, its best has reached `beta` and the unexamined children never affect the result |
| Search.MinLoopCutoff | AlphaBeta.cpp:58-65 | when the minimiser stops early, its best is at most `alpha` and the unexamined children never affect the result |
| Search.MinimaxInRange | AlphaBeta.cpp:33-68 | the minimax value lies within any bounds on every score in the tree |
| Search.AlphaBetaInRange | AlphaBeta.cpp:33-68 | with the window inside the tree's bounds, the search result is inside them too |
| Search.AlphaBetaExact | AlphaBeta.cpp:33-68 | when the window bounds every score in the tree, pruning does not change the answer: the result is the minimax value |
| Search.BuiltTreeBounded | NimBoard.cpp:247-264 | every score in a built tree is a 32-bit `int` |
| Search.FullWindowIsMinimax | AlphaBeta.cpp:33-68 | searching a built tree with `(INT_MIN, INT_MAX)` yields its minimax value |
| Search.MaxLoopOnePly | AlphaBeta.cpp:41-53 | one ply deep the maximiser returns its start or some child's score; below `beta` it is at least every child's score |
| Strategy.ScanForReduction | NimBoard.cpp:58-71 | finds the first pile with `pile ^ nimSum < pile` and removes `pile - (pile ^ nimSum)`, or reports 0 iff no pile qualifies; with the board's true nim-sum, it finds one iff the nim-sum is non-zero, and the move leaves nim-sum 0 |
| Strategy.ScanOrRandom | NimBoard.cpp:77-91 | the scan followed by the random fallback always yields a legal move: the scan's move (first pile with `pile ^ nimSum < pile`, reduced to `pile ^ nimSum`) whenever some pile qualifies, otherwise `1 + roll % size` objects from a non-empty pile; a nim-sum-0 board after it when the true nim-sum was non-zero |
| Strategy.ScanMoveUnique | NimBoard.cpp:58-71 | the scan's move is unique: two moves that both take the first qualifying pile down to `pile ^ nimSum` are equal |
| Strategy.ScanMoveExample | NimBoard.cpp:58-71 | on `[1, 3, 5, 6]` with its true nim-sum (1, by `Strategy.ExampleNimSum`) the only scan move takes one object from pile 0 |
| Strategy.GetRandomMove | NimBoard.cpp:146-167 | a non-empty pile and `1 + roll % size` objects, a legal move (the clamp never fires) |
| Strategy.EndGameLost | NimBoard.cpp:44-46 | the lost misère end game: an odd number of non-empty piles, none above 1; outside it `Strategy.GetNextMove` plays the end-game rule, which `Strategy.EndGameMoveWins` shows wins |
| Strategy.EndGameMove | NimBoard.cpp:39-55 | the end-game rule's move targets the first largest pile; `Strategy.EndGameMoveWins` states that it wins |
| Strategy.EndGameMoveWins | NimBoard.cpp:39-55 | in a misère end game that is not lost, the move takes from the first largest pile, is legal, and leaves only piles of at most 1 with an odd number non-empty |
| Strategy.FirstMatch | NimBoard.cpp:229-234 | the index of the first child whose score equals the value, or the number of children when none does |
| Strategy.FirstDifference | NimBoard.cpp:236-243 | the first index where the child's piles differ from the board, or the board's length when none does |
| Strategy.GetMaxMove | NimBoard.cpp:223-246 | no matching child iff no child carries the value; otherwise the move is read off the first matching child at the first differing pile, and for a successor child it is legal and reproduces that child |
| Strategy.ReadBackSuccessor | NimBoard.cpp:236-243 | from a successor position the read-back finds the changed pile, and the move is legal and reproduces the position |
| Strategy.GetNextMove | NimBoard.cpp:27-104 | by path: end-game rule or random; on the scan paths the scan's move whenever a pile qualifies and the random move (`1 + roll % size` from a non-empty pile) only when none does, leaving nim-sum 0 when the true nim-sum was non-zero; tree search, read back from the first child matching the search value. Every chosen move on a live board is legal; only the tree-search path can fail, and never one ply deep |
| Strategy.RootSearch | NimBoard.cpp:93-96 | the root call `alphaBeta(root, depth, INT_MIN, 0, true)`; `Strategy.RootSearchInRange`, `Strategy.RootSearchOnePly` and `Strategy.RootSearchMissesEveryChild` state what it returns |
| Strategy.RootSearchInRange | NimBoard.cpp:93-96 | the root search with window `(INT_MIN, 0)` returns a 32-bit `int` |
| Strategy.RootSearchOnePly | NimBoard.cpp:93-97 | one ply deep, on a board that is not over, the search value is carried by some child of the root |
| Strategy.RootSearchMissesEveryChild | NimBoard.cpp:93-97 | on `[1, 1]` two plies deep the search value is 0 while the minimax value is 100, and no child of the root carries 0 |

## Left out

- `main.cpp`, the console driver, is not part of this model. It holds an
  older, inconsistent copy of `NimBoard`.
- `NimBoard::print`, `makeNodeName` with the node labels, and all console
  logging (node creation, destruction and cut-off messages) produce output
  only.
- The destructor `~Node` and `delete root` are memory management, which
  immutable values make unnecessary. For the same reason `alphaBeta` cannot
  change the tree it searches.
- `rand()` is left out. `getRandomMove` picks any non-empty pile, and the
  amount's random number is a parameter, so the distribution is not
  modelled.
- `AlphaBeta.h` declares a `Node` without piles and no `Tree`. The model
  follows `AlphaBeta.cpp`.
- The constructor's `maxObjects` is used only by `print`. The constructor's
  `max_element` needs at least one pile, which `Strategy.GetNextMove`
  requires.
- Board.Update: requires the amount not to exceed the pile. The source's
  `update` checks nothing and would store a negative pile, which `seq<nat>`
  cannot hold.
- Board.IsValidMove: requires the pile index to be in range. The source
  indexes the vector unchecked there.
- Builder.BuildTree: the node count is an unbounded `nat`. The source's
  `int` counter would overflow on trees with more than `INT_MAX` nodes.
- Strategy.GetNextMove: requires that the board is not over on the normal
  closed-form path. There the source's random fallback retries forever.
  The misère path on a finished board is modelled, and yields `{0, 0}`.
  The nim-sum argument is a `nat`, since the caller passes `getNimSum()`.
- Strategy.GetMaxMove: requires every child to have at least as many piles
  as the board. The source reads `maxChild->piles[idx]` unchecked; built
  trees satisfy this.
