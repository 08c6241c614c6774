/**
 * Game-tree construction of `NimBoard`: the static `evaluator`, `buildLayer`
 * (one ply per level, every pile and every removal amount) and `buildTree`.
 *
 * The layer builder takes the scoring function as a parameter; `BuildTree`
 * passes `Evaluator`, which is the function the source calls on every child.
 */
module Builder {
  import opened Board
  import opened GameTree

  /** Score of a position for the player who just moved into it. */
  const WinScore: int := 100
  const BalancedScore: int := 50

  /**
   * `evaluator`: 100 when the last object has been taken, 50 when the
   * nim-sum is 0, and `INT_MIN` otherwise.
   */
  function Evaluator(piles: Piles): (r: int)
    ensures r == WinScore || r == BalancedScore || r == IntMin
  {
    if MaxPile(piles) == 0 then WinScore
    else if NimSum(piles) == 0 then BalancedScore
    else IntMin
  }

  /**
   * The three scores: a win once every pile is empty, the balanced score for
   * a non-empty position of nim-sum 0, and `INT_MIN` for any other position.
   * No position scores 0.
   */
  lemma EvaluatorScores(piles: Piles)
    ensures AllEmpty(piles) ==> Evaluator(piles) == WinScore
    ensures !AllEmpty(piles) && NimSum(piles) == 0 ==> Evaluator(piles) == BalancedScore
    ensures !AllEmpty(piles) && NimSum(piles) != 0 ==> Evaluator(piles) == IntMin
    ensures Evaluator(piles) != 0
  {
    GameOverIffAllEmpty(piles);
  }

  /**
   * `buildLayer`: below `parent`, add one child per (pile, amount) reduction,
   * score it, expand it `level - 1` further plies, and count the nodes
   * created. Level 0 adds nothing. A negative level never reaches 0, so
   * expansion then runs until the piles are exhausted, as in the source.
   * The children the loops create are appended after the existing ones in
   * creation order, one `AddChild` at a time (`BuildLayerAddsChildren`).
   */
  function BuildLayer(parent: Node, level: int, score: Piles -> int): (r: (Node, nat))
    ensures r.0.value == parent.value && r.0.piles == parent.piles
    ensures |parent.children| <= |r.0.children| && r.0.children[..|parent.children|] == parent.children
    decreases Sum(parent.piles), 2, 0
  {
    if level == 0 then (parent, 0)
    else
      var made := Expansions(parent.piles, level, score, 0);
      (Node(parent.value, parent.piles, parent.children + made.0), made.1)
  }

  /**
   * The outer loop of `buildLayer` from pile `pile` on: the children made for
   * each pile, in index order, and the number of nodes created.
   */
  function Expansions(piles: Piles, level: int, score: Piles -> int, pile: nat): (r: (seq<Node>, nat))
    requires pile <= |piles|
    ensures |r.0| + Sum(piles[..pile]) == Sum(piles)
    decreases Sum(piles), 1, |piles| - pile
  {
    if pile == |piles| then
      assert piles[..pile] == piles;
      ([], 0)
    else
      assert piles[..pile + 1][..pile] == piles[..pile];
      var here := PileExpansions(piles, level, score, pile, piles[pile]);
      var later := Expansions(piles, level, score, pile + 1);
      (here.0 + later.0, here.1 + later.1)
  }

  /**
   * The inner loop of `buildLayer` for one pile: removal amounts `remove`,
   * `remove - 1`, ..., 1. Each child is scored and expanded before the next
   * one is made, and counts itself plus its descendants.
   */
  function PileExpansions(piles: Piles, level: int, score: Piles -> int, pile: nat, remove: nat): (r: (seq<Node>, nat))
    requires pile < |piles| && remove <= piles[pile]
    ensures |r.0| == remove
    decreases Sum(piles), 0, remove
  {
    if remove == 0 then ([], 0)
    else
      var newPiles := piles[pile := piles[pile] - remove];
      SumReplace(piles, pile, piles[pile] - remove);
      var child := BuildLayer(Leaf(score(newPiles), newPiles), level - 1, score);
      var rest := PileExpansions(piles, level, score, pile, remove - 1);
      ([child.0] + rest.0, child.1 + 1 + rest.1)
  }

  /**
   * `buildTree`: a root scored `INT_MIN` over the board, expanded `depth`
   * plies with `Evaluator` scores; the recorded size is the number of nodes
   * below the root.
   */
  function BuildTree(piles: Piles, depth: int): (t: Tree)
    ensures t.root.piles == piles && t.root.value == IntMin
    ensures WellBuilt(t.root, depth, Evaluator)
    ensures t.nodeCount + 1 == Size(t.root)
  {
    var built := BuildLayer(Leaf(IntMin, piles), depth, Evaluator);
    BuildLayerShape(Leaf(IntMin, piles), depth, Evaluator);
    BuildLayerCount(Leaf(IntMin, piles), depth, Evaluator);
    Tree(built.0, built.1)
  }

  /** Position among its siblings of the child that leaves `t` objects in pile `i`. */
  function Slot(piles: Piles, i: int, t: int): int
    requires 0 <= i <= |piles|
  {
    Sum(piles[..i]) + t
  }

  /**
   * The shape `buildLayer` gives every node: no children at level 0;
   * otherwise one child per object that can be removed, ordered by pile
   * index and then by amount removed, largest first (so the pile left
   * behind grows from 0); every child a successor position carrying its own
   * score and well built one level down.
   */
  ghost predicate WellBuilt(n: Node, level: int, score: Piles -> int)
    decreases n, 1
  {
    && (level == 0 ==> n.children == [])
    && (level != 0 ==> |n.children| == Sum(n.piles))
    && (level != 0 ==>
          forall i, t :: 0 <= i < |n.piles| && 0 <= t < n.piles[i] ==>
            0 <= Slot(n.piles, i, t) < |n.children| &&
            n.children[Slot(n.piles, i, t)].piles == n.piles[i := t])
    && forall k :: 0 <= k < |n.children| ==> ChildAt(n, k, level, score)
  }

  ghost predicate ChildAt(n: Node, k: int, level: int, score: Piles -> int)
    requires 0 <= k < |n.children|
    decreases n, 0
  {
    var c := n.children[k];
    && IsSuccessor(n.piles, c.piles)
    && c.value == score(c.piles)
    && WellBuilt(c, level - 1, score)
  }

  /**
   * The child the builder makes for the position that leaves `t` objects in
   * pile `i`: scored, then expanded one level less.
   */
  function Child(piles: Piles, i: int, t: nat, level: int, score: Piles -> int): (c: Node)
    requires 0 <= i < |piles|
    ensures c.piles == piles[i := t] && c.value == score(piles[i := t])
  {
    var q := piles[i := t];
    BuildLayer(Leaf(score(q), q), level - 1, score).0
  }

  /**
   * Expanding a childless node gives a well-built subtree that keeps the
   * node's own score and piles; level 0 leaves the node alone.
   */
  lemma {:induction false} BuildLayerShape(parent: Node, level: int, score: Piles -> int)
    requires parent.children == []
    ensures var r := BuildLayer(parent, level, score);
      && WellBuilt(r.0, level, score)
      && (level == 0 ==> r == (parent, 0))
    decreases Sum(parent.piles), 1
  {
    if level != 0 {
      var r := BuildLayer(parent, level, score);
      var p := parent.piles;
      var made := Expansions(p, level, score, 0);
      assert r.0.children == made.0;
      assert p[..0] == [];
      forall k | 0 <= k < |r.0.children|
        ensures ChildAt(r.0, k, level, score)
      {
        ExpansionWellBuilt(p, level, score, k);
      }
      forall i, t | 0 <= i < |p| && 0 <= t < p[i]
        ensures 0 <= Slot(p, i, t) < |r.0.children|
        ensures r.0.children[Slot(p, i, t)].piles == p[i := t]
      {
        ExpansionsAt(p, level, score, 0, i, t);
      }
    }
  }

  /** Each child of a layer is a successor position, carries its own score and is well built below. */
  lemma {:induction false} ExpansionWellBuilt(piles: Piles, level: int, score: Piles -> int, k: int)
    requires 0 <= k < |Expansions(piles, level, score, 0).0|
    ensures var c := Expansions(piles, level, score, 0).0[k];
      IsSuccessor(piles, c.piles) && c.value == score(c.piles) && WellBuilt(c, level - 1, score)
    decreases Sum(piles), 0
  {
    assert piles[..0] == [];
    var i, t := SlotOf(piles, k);
    ExpansionsAt(piles, level, score, 0, i, t);
    var q := piles[i := t];
    assert IsSuccessor(piles, q) by {
      assert q == piles[i := q[i]];
    }
    SuccessorShrinks(piles, q);
    BuildLayerShape(Leaf(score(q), q), level - 1, score);
  }

  /**
   * The count `buildLayer` returns is the number of nodes it created: the
   * node's subtree grows by exactly that many.
   */
  lemma {:induction false} BuildLayerCount(parent: Node, level: int, score: Piles -> int)
    ensures var r := BuildLayer(parent, level, score);
      r.1 + SizeAll(parent.children) == SizeAll(r.0.children)
    decreases Sum(parent.piles), 2, 0
  {
    if level != 0 {
      var made := Expansions(parent.piles, level, score, 0);
      ExpansionsCount(parent.piles, level, score, 0);
      SizeAllAppend(parent.children, made.0);
    }
  }

  lemma {:induction false} ExpansionsCount(piles: Piles, level: int, score: Piles -> int, pile: nat)
    requires pile <= |piles|
    ensures var r := Expansions(piles, level, score, pile); r.1 == SizeAll(r.0)
    decreases Sum(piles), 1, |piles| - pile
  {
    if pile < |piles| {
      var here := PileExpansions(piles, level, score, pile, piles[pile]);
      var later := Expansions(piles, level, score, pile + 1);
      PileExpansionsCount(piles, level, score, pile, piles[pile]);
      ExpansionsCount(piles, level, score, pile + 1);
      SizeAllAppend(here.0, later.0);
    }
  }

  lemma {:induction false} PileExpansionsCount(piles: Piles, level: int, score: Piles -> int, pile: nat, remove: nat)
    requires pile < |piles| && remove <= piles[pile]
    ensures var r := PileExpansions(piles, level, score, pile, remove); r.1 == SizeAll(r.0)
    decreases Sum(piles), 0, remove
  {
    if remove > 0 {
      var q := piles[pile := piles[pile] - remove];
      SumReplace(piles, pile, piles[pile] - remove);
      var leaf := Leaf(score(q), q);
      var child := BuildLayer(leaf, level - 1, score);
      var rest := PileExpansions(piles, level, score, pile, remove - 1);
      BuildLayerCount(leaf, level - 1, score);
      PileExpansionsCount(piles, level, score, pile, remove - 1);
      SizeAllAppend([child.0], rest.0);
      assert [child.0][..0] == [];
    }
  }

  /** Every sibling position is the slot of a (pile, pile left behind) pair. */
  lemma {:induction false} SlotOf(piles: Piles, k: int) returns (i: nat, t: nat)
    requires 0 <= k < Sum(piles)
    ensures i < |piles| && t < piles[i] && Slot(piles, i, t) == k
    decreases |piles|
  {
    var n := |piles| - 1;
    if k < Sum(piles[..n]) {
      i, t := SlotOf(piles[..n], k);
      assert piles[..n][..i] == piles[..i];
    } else {
      i, t := n, k - Sum(piles[..n]);
    }
  }

  /** The inner loop makes `remove` children, the pile left behind ascending from `piles[pile] - remove`. */
  lemma {:induction false} PileExpansionsAt(piles: Piles, level: int, score: Piles -> int, pile: nat, remove: nat, j: int)
    requires pile < |piles| && remove <= piles[pile]
    ensures |PileExpansions(piles, level, score, pile, remove).0| == remove
    ensures 0 <= j < remove ==>
      PileExpansions(piles, level, score, pile, remove).0[j] == Child(piles, pile, piles[pile] - remove + j, level, score)
    decreases remove
  {
    if remove > 0 {
      PileExpansionsAt(piles, level, score, pile, remove - 1, j - 1);
    }
  }

  /** The outer loop from `pile` on puts the child leaving `t` objects in pile `j` at its slot. */
  lemma {:induction false} ExpansionsAt(piles: Piles, level: int, score: Piles -> int, pile: nat, j: int, t: nat)
    requires pile <= j < |piles| && t < piles[j]
    ensures 0 <= Slot(piles, j, t) - Sum(piles[..pile]) < |Expansions(piles, level, score, pile).0|
    ensures Expansions(piles, level, score, pile).0[Slot(piles, j, t) - Sum(piles[..pile])]
      == Child(piles, j, t, level, score)
    decreases |piles| - pile
  {
    var here := PileExpansions(piles, level, score, pile, piles[pile]);
    PileExpansionsAt(piles, level, score, pile, piles[pile], t);
    assert piles[..pile + 1][..pile] == piles[..pile];
    if j != pile {
      ExpansionsAt(piles, level, score, pile + 1, j, t);
    }
  }

  /** The children a layer adds are the ones `AddChild` would append, one after another, in creation order. */
  lemma BuildLayerAddsChildren(parent: Node, level: int, score: Piles -> int)
    requires level != 0
    ensures BuildLayer(parent, level, score).0 == AddChildren(parent, Expansions(parent.piles, level, score, 0).0)
  {
    AddChildrenAppends(parent, Expansions(parent.piles, level, score, 0).0);
  }
}
