/**
 * The game tree of `AlphaBeta.cpp`: a node owns its children outright, so the
 * tree is an immutable recursive value. The source's owning pointers, the
 * recursive destructor and the debug label are not needed here.
 */
module GameTree {
  import opened Board

  /** One reachable position: its score, its pile snapshot and its children in creation order. */
  datatype Node = Node(value: int, piles: Piles, children: seq<Node>)

  /** `Tree`: the root (`nodes()`) paired with the node count recorded by the builder (`size()`). */
  datatype Tree = Tree(root: Node, nodeCount: nat)

  /** A freshly created node has no children. */
  function Leaf(value: int, piles: Piles): Node
  {
    Node(value, piles, [])
  }

  /**
   * `Node::AddChild`: append one child after the existing ones. The source
   * creates the child and then completes its score and subtree through the
   * returned pointer; on values the completed child is appended in one step.
   */
  function AddChild(n: Node, child: Node): (r: Node)
    ensures r.value == n.value && r.piles == n.piles
    ensures |r.children| == |n.children| + 1
    ensures r.children[..|n.children|] == n.children
    ensures r.children[|n.children|] == child
  {
    Node(n.value, n.piles, n.children + [child])
  }

  /** Append each of `kids` with `AddChild`, first to last. */
  function AddChildren(n: Node, kids: seq<Node>): Node
    decreases |kids|
  {
    if |kids| == 0 then n else AddChildren(AddChild(n, kids[0]), kids[1..])
  }

  /** Appending children one at a time leaves the node's score and piles and extends its children by `kids`. */
  lemma {:induction false} AddChildrenAppends(n: Node, kids: seq<Node>)
    ensures AddChildren(n, kids) == Node(n.value, n.piles, n.children + kids)
    decreases |kids|
  {
    if |kids| > 0 {
      AddChildrenAppends(AddChild(n, kids[0]), kids[1..]);
      assert n.children + [kids[0]] + kids[1..] == n.children + kids;
    }
  }

  /** Adding a child adds the child's whole subtree to the node count. */
  lemma AddChildSize(n: Node, child: Node)
    ensures Size(AddChild(n, child)) == Size(n) + Size(child)
  {
    var r := AddChild(n, child);
    assert r.children[..|r.children| - 1] == n.children;
  }

  /** Number of nodes in the subtree rooted at `n`, `n` included. */
  function Size(n: Node): nat
    decreases n
  {
    1 + SizeAll(n.children)
  }

  /** Number of nodes in a forest. */
  function SizeAll(kids: seq<Node>): nat
    decreases kids
  {
    if |kids| == 0 then 0 else SizeAll(kids[..|kids| - 1]) + Size(kids[|kids| - 1])
  }

  /** The size of two forests laid side by side is the sum of their sizes. */
  lemma {:induction false} SizeAllAppend(a: seq<Node>, b: seq<Node>)
    ensures SizeAll(a + b) == SizeAll(a) + SizeAll(b)
    decreases |b|
  {
    if |b| == 0 {
      assert a + b == a;
    } else {
      var n := |b| - 1;
      SizeAllAppend(a, b[..n]);
      assert (a + b)[..|a + b| - 1] == a + b[..n];
    }
  }
}
