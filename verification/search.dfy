/**
 * The alpha-beta search of `AlphaBeta.cpp` over the game tree, and the plain
 * minimax value it is compared against.
 *
 * The search is fail-hard at the node it starts from: a max node starts its
 * running best at `alpha` and a min node at `beta`, so the result of a node
 * with children examined never leaves the window on that side.
 */
module Search {
  import opened Board
  import opened GameTree
  import opened Builder

  function Max(a: int, b: int): int { if a < b then b else a }
  function Min(a: int, b: int): int { if b < a then b else a }

  /**
   * `alphaBeta`: the node's own value at depth 0 or at a leaf; otherwise the
   * children are searched in order, as the maximiser or the minimiser. A
   * negative depth never reaches 0, so the search then runs to the leaves.
   * The search is fail-hard: once children are searched, a max node never
   * answers below `alpha` and a min node never above `beta`.
   */
  function AlphaBeta(n: Node, depth: int, alpha: int, beta: int, isMax: bool): (r: int)
    ensures depth != 0 && |n.children| > 0 ==> if isMax then alpha <= r else r <= beta
    decreases n, 1
  {
    if depth == 0 || |n.children| == 0 then n.value
    else if isMax then MaxLoop(n.children, depth, alpha, beta)
    else MinLoop(n.children, depth, alpha, beta)
  }

  /**
   * The maximiser's loop: each child is searched as a min node with window
   * `(best, beta)`, `best` becomes `std::max(best, childValue)`, and the loop
   * stops once `beta <= best`. The running best never drops below its start.
   */
  function MaxLoop(kids: seq<Node>, depth: int, best: int, beta: int): (r: int)
    ensures best <= r
    decreases kids, 0
  {
    if |kids| == 0 then best
    else
      var b := Max(best, AlphaBeta(kids[0], depth - 1, best, beta, false));
      if beta <= b then b else MaxLoop(kids[1..], depth, b, beta)
  }

  /**
   * The minimiser's loop: each child is searched as a max node with window
   * `(alpha, best)`, `best` becomes `std::min(best, childValue)`, and the loop
   * stops once `best <= alpha`. The running best never rises above its start.
   */
  function MinLoop(kids: seq<Node>, depth: int, alpha: int, best: int): (r: int)
    ensures r <= best
    decreases kids, 0
  {
    if |kids| == 0 then best
    else
      var b := Min(best, AlphaBeta(kids[0], depth - 1, alpha, best, true));
      if b <= alpha then b else MinLoop(kids[1..], depth, alpha, b)
  }

  /** Minimax value of a node searched `depth` plies deep, with no pruning. */
  function Minimax(n: Node, depth: int, isMax: bool): int
    decreases n, 1
  {
    if depth == 0 || |n.children| == 0 then n.value
    else if isMax then MaxOf(n.children, depth)
    else MinOf(n.children, depth)
  }

  /** The largest minimax value among the children. */
  function MaxOf(kids: seq<Node>, depth: int): (r: int)
    requires |kids| > 0
    ensures forall k :: 0 <= k < |kids| ==> Minimax(kids[k], depth - 1, false) <= r
    ensures exists k :: 0 <= k < |kids| && Minimax(kids[k], depth - 1, false) == r
    decreases kids, 0
  {
    var v := Minimax(kids[0], depth - 1, false);
    if |kids| == 1 then v
    else
      var rest := MaxOf(kids[1..], depth);
      assert forall k :: 1 <= k < |kids| ==> kids[k] == kids[1..][k - 1];
      Max(v, rest)
  }

  /** The smallest minimax value among the children. */
  function MinOf(kids: seq<Node>, depth: int): (r: int)
    requires |kids| > 0
    ensures forall k :: 0 <= k < |kids| ==> r <= Minimax(kids[k], depth - 1, true)
    ensures exists k :: 0 <= k < |kids| && Minimax(kids[k], depth - 1, true) == r
    decreases kids, 0
  {
    var v := Minimax(kids[0], depth - 1, true);
    if |kids| == 1 then v
    else
      var rest := MinOf(kids[1..], depth);
      assert forall k :: 1 <= k < |kids| ==> kids[k] == kids[1..][k - 1];
      Min(v, rest)
  }

  /** What the maximiser's loop computes without pruning: the best so far against every remaining child. */
  function MaxTarget(kids: seq<Node>, depth: int, best: int): int
  {
    if |kids| == 0 then best else Max(best, MaxOf(kids, depth))
  }

  /** What the minimiser's loop computes without pruning. */
  function MinTarget(kids: seq<Node>, depth: int, best: int): int
  {
    if |kids| == 0 then best else Min(best, MinOf(kids, depth))
  }

  /**
   * The alpha-beta window theorem: inside the window the search returns the
   * exact minimax value; a result at or below `alpha` only says the minimax
   * value is at most `alpha`, and one at or above `beta` that it is at least
   * `beta`.
   */
  lemma {:induction false} AlphaBetaWindow(n: Node, depth: int, alpha: int, beta: int, isMax: bool)
    requires alpha < beta
    ensures var r := AlphaBeta(n, depth, alpha, beta, isMax);
      var m := Minimax(n, depth, isMax);
      && (alpha < r < beta ==> r == m)
      && (r <= alpha ==> m <= alpha)
      && (beta <= r ==> beta <= m)
    decreases n, 1
  {
    if depth != 0 && |n.children| != 0 {
      if isMax {
        MaxLoopWindow(n.children, depth, alpha, beta);
      } else {
        MinLoopWindow(n.children, depth, alpha, beta);
      }
    }
  }

  /**
   * The maximiser's loop below `beta` equals the unpruned maximum; a cut-off
   * result at or above `beta` only says that the unpruned maximum is too.
   */
  lemma {:induction false} MaxLoopWindow(kids: seq<Node>, depth: int, best: int, beta: int)
    requires best < beta
    ensures var r := MaxLoop(kids, depth, best, beta);
      && (r < beta ==> r == MaxTarget(kids, depth, best))
      && (beta <= r ==> beta <= MaxTarget(kids, depth, best))
    decreases kids, 0
  {
    if |kids| > 0 {
      var v := AlphaBeta(kids[0], depth - 1, best, beta, false);
      var b := Max(best, v);
      AlphaBetaWindow(kids[0], depth - 1, best, beta, false);
      if b < beta {
        MaxLoopWindow(kids[1..], depth, b, beta);
      }
    }
  }

  /** The minimiser's loop, symmetric to `MaxLoopWindow`. */
  lemma {:induction false} MinLoopWindow(kids: seq<Node>, depth: int, alpha: int, best: int)
    requires alpha < best
    ensures var r := MinLoop(kids, depth, alpha, best);
      && (alpha < r ==> r == MinTarget(kids, depth, best))
      && (r <= alpha ==> MinTarget(kids, depth, best) <= alpha)
    decreases kids, 0
  {
    if |kids| > 0 {
      var v := AlphaBeta(kids[0], depth - 1, alpha, best, true);
      var b := Min(best, v);
      AlphaBetaWindow(kids[0], depth - 1, alpha, best, true);
      if alpha < b {
        MinLoopWindow(kids[1..], depth, alpha, b);
      }
    }
  }

  /** Number of children the maximiser's loop searches before it stops. */
  function MaxExamined(kids: seq<Node>, depth: int, best: int, beta: int): (e: nat)
    ensures e <= |kids|
    ensures |kids| > 0 ==> e > 0
    decreases kids
  {
    if |kids| == 0 then 0
    else
      var b := Max(best, AlphaBeta(kids[0], depth - 1, best, beta, false));
      if beta <= b then 1 else 1 + MaxExamined(kids[1..], depth, b, beta)
  }

  /** Number of children the minimiser's loop searches before it stops. */
  function MinExamined(kids: seq<Node>, depth: int, alpha: int, best: int): (e: nat)
    ensures e <= |kids|
    ensures |kids| > 0 ==> e > 0
    decreases kids
  {
    if |kids| == 0 then 0
    else
      var b := Min(best, AlphaBeta(kids[0], depth - 1, alpha, best, true));
      if b <= alpha then 1 else 1 + MinExamined(kids[1..], depth, alpha, b)
  }

  /**
   * The maximiser's cut-off: when it stops before the last child, the running
   * best has reached `beta`, and the children after the last one searched
   * never influence the result, whatever they are.
   */
  lemma {:induction false} MaxLoopCutoff(kids: seq<Node>, rest: seq<Node>, depth: int, best: int, beta: int)
    requires MaxExamined(kids, depth, best, beta) < |kids|
    ensures beta <= MaxLoop(kids, depth, best, beta)
    ensures MaxLoop(kids[..MaxExamined(kids, depth, best, beta)] + rest, depth, best, beta)
      == MaxLoop(kids, depth, best, beta)
    decreases kids
  {
    var b := Max(best, AlphaBeta(kids[0], depth - 1, best, beta, false));
    var e := MaxExamined(kids, depth, best, beta);
    assert (kids[..e] + rest)[0] == kids[0];
    if b < beta {
      MaxLoopCutoff(kids[1..], rest, depth, b, beta);
      assert (kids[..e] + rest)[1..] == kids[1..][..e - 1] + rest;
    }
  }

  /** The minimiser's cut-off, symmetric to `MaxLoopCutoff`. */
  lemma {:induction false} MinLoopCutoff(kids: seq<Node>, rest: seq<Node>, depth: int, alpha: int, best: int)
    requires MinExamined(kids, depth, alpha, best) < |kids|
    ensures MinLoop(kids, depth, alpha, best) <= alpha
    ensures MinLoop(kids[..MinExamined(kids, depth, alpha, best)] + rest, depth, alpha, best)
      == MinLoop(kids, depth, alpha, best)
    decreases kids
  {
    var b := Min(best, AlphaBeta(kids[0], depth - 1, alpha, best, true));
    var e := MinExamined(kids, depth, alpha, best);
    assert (kids[..e] + rest)[0] == kids[0];
    if alpha < b {
      MinLoopCutoff(kids[1..], rest, depth, alpha, b);
      assert (kids[..e] + rest)[1..] == kids[1..][..e - 1] + rest;
    }
  }

  /** Every value in the subtree lies in `[lo, hi]`. */
  predicate Bounded(n: Node, lo: int, hi: int)
    decreases n
  {
    && lo <= n.value <= hi
    && forall k :: 0 <= k < |n.children| ==> Bounded(n.children[k], lo, hi)
  }

  /** The minimax value is one of the values in the tree, so it shares their bounds. */
  lemma {:induction false} MinimaxInRange(n: Node, depth: int, isMax: bool, lo: int, hi: int)
    requires Bounded(n, lo, hi)
    ensures lo <= Minimax(n, depth, isMax) <= hi
    decreases n
  {
    if depth != 0 && |n.children| != 0 {
      var kids := n.children;
      var k: int;
      if isMax {
        k :| 0 <= k < |kids| && Minimax(kids[k], depth - 1, false) == MaxOf(kids, depth);
      } else {
        k :| 0 <= k < |kids| && Minimax(kids[k], depth - 1, true) == MinOf(kids, depth);
      }
      assert Bounded(kids[k], lo, hi);
      MinimaxInRange(kids[k], depth - 1, !isMax, lo, hi);
    }
  }

  /** A search whose window lies inside the tree's bounds returns a value inside them. */
  lemma {:induction false} AlphaBetaInRange(n: Node, depth: int, alpha: int, beta: int, isMax: bool, lo: int, hi: int)
    requires Bounded(n, lo, hi) && lo <= alpha <= hi && lo <= beta <= hi
    ensures lo <= AlphaBeta(n, depth, alpha, beta, isMax) <= hi
    decreases n, 1
  {
    if depth != 0 && |n.children| != 0 {
      if isMax {
        MaxLoopInRange(n.children, depth, alpha, beta, lo, hi);
      } else {
        MinLoopInRange(n.children, depth, alpha, beta, lo, hi);
      }
    }
  }

  lemma {:induction false} MaxLoopInRange(kids: seq<Node>, depth: int, best: int, beta: int, lo: int, hi: int)
    requires forall k :: 0 <= k < |kids| ==> Bounded(kids[k], lo, hi)
    requires lo <= best <= hi && lo <= beta <= hi
    ensures lo <= MaxLoop(kids, depth, best, beta) <= hi
    decreases kids, 0
  {
    if |kids| > 0 {
      AlphaBetaInRange(kids[0], depth - 1, best, beta, false, lo, hi);
      var b := Max(best, AlphaBeta(kids[0], depth - 1, best, beta, false));
      if b < beta {
        MaxLoopInRange(kids[1..], depth, b, beta, lo, hi);
      }
    }
  }

  lemma {:induction false} MinLoopInRange(kids: seq<Node>, depth: int, alpha: int, best: int, lo: int, hi: int)
    requires forall k :: 0 <= k < |kids| ==> Bounded(kids[k], lo, hi)
    requires lo <= alpha <= hi && lo <= best <= hi
    ensures lo <= MinLoop(kids, depth, alpha, best) <= hi
    decreases kids, 0
  {
    if |kids| > 0 {
      AlphaBetaInRange(kids[0], depth - 1, alpha, best, true, lo, hi);
      var b := Min(best, AlphaBeta(kids[0], depth - 1, alpha, best, true));
      if alpha < b {
        MinLoopInRange(kids[1..], depth, alpha, b, lo, hi);
      }
    }
  }

  /**
   * When the window covers every value in the tree, pruning never changes the
   * answer: the search returns the minimax value.
   */
  lemma AlphaBetaExact(n: Node, depth: int, alpha: int, beta: int, isMax: bool)
    requires alpha < beta && Bounded(n, alpha, beta)
    ensures AlphaBeta(n, depth, alpha, beta, isMax) == Minimax(n, depth, isMax)
  {
    AlphaBetaWindow(n, depth, alpha, beta, isMax);
    AlphaBetaInRange(n, depth, alpha, beta, isMax, alpha, beta);
    MinimaxInRange(n, depth, isMax, alpha, beta);
  }

  /** Every score in a tree the builder makes with `Evaluator` is a 32-bit `int`. */
  lemma {:induction false} BuiltTreeBounded(n: Node, level: int)
    requires WellBuilt(n, level, Evaluator) && IntMin <= n.value <= IntMax
    ensures Bounded(n, IntMin, IntMax)
    decreases n
  {
    forall k | 0 <= k < |n.children|
      ensures Bounded(n.children[k], IntMin, IntMax)
    {
      assert ChildAt(n, k, level, Evaluator);
      BuiltTreeBounded(n.children[k], level - 1);
    }
  }

  /** Searched with the full `int` window, the built tree yields its minimax value. */
  lemma FullWindowIsMinimax(piles: Piles, depth: int)
    ensures var root := BuildTree(piles, depth).root;
      AlphaBeta(root, depth, IntMin, IntMax, true) == Minimax(root, depth, true)
  {
    var root := BuildTree(piles, depth).root;
    BuiltTreeBounded(root, depth);
    AlphaBetaExact(root, depth, IntMin, IntMax, true);
  }

  /**
   * One ply deep, the maximiser's loop returns its starting value or the value
   * of one of the children; below `beta` it is at least every child's value.
   */
  lemma {:induction false} MaxLoopOnePly(kids: seq<Node>, best: int, beta: int)
    ensures var r := MaxLoop(kids, 1, best, beta);
      && best <= r
      && (r == best || exists k :: 0 <= k < |kids| && kids[k].value == r)
      && (r < beta ==> forall k :: 0 <= k < |kids| ==> kids[k].value <= r)
    decreases kids
  {
    if |kids| > 0 {
      assert AlphaBeta(kids[0], 0, best, beta, false) == kids[0].value;
      var b := Max(best, kids[0].value);
      if b < beta {
        MaxLoopOnePly(kids[1..], b, beta);
        var r := MaxLoop(kids, 1, best, beta);
        assert r == MaxLoop(kids[1..], 1, b, beta);
        assert forall k :: 1 <= k < |kids| ==> kids[k] == kids[1..][k - 1];
        if r != best && r != b {
          var j :| 0 <= j < |kids[1..]| && kids[1..][j].value == r;
          assert kids[j + 1].value == r;
        }
      }
    }
  }
}
