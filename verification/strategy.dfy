/**
 * The decision procedure of `NimBoard`: `getNextMove` with its three paths
 * (the misère end-game rule, the nim-sum scan with a random fallback, and
 * the alpha-beta tree search read back through `getMaxMove`).
 */
module Strategy {
  import opened Bits
  import opened Board
  import opened GameTree
  import opened Builder
  import opened Search

  /** `NimBoard`: the piles, the search depth and the decision path chosen at construction. */
  datatype NimBoard = NimBoard(piles: Piles, depth: int, ai: AiType)

  /**
   * What `getNextMove` produces: a move, or, on the tree-search path, the
   * search value that no child of the root carries. The source then reads
   * through a null child pointer; the model reports it instead.
   */
  datatype Decision = Chosen(move: Move) | NoMatchingChild(searchValue: int)

  /** Some pile shrinks when XOR-ed with `nimSum`. */
  predicate HasReducingPile(piles: Piles, nimSum: nat)
  {
    exists i :: 0 <= i < |piles| && Xor(piles[i], nimSum) < piles[i]
  }

  /**
   * The move the nim-sum scan settles on: the first pile that shrinks when
   * XOR-ed with `nimSum`, reduced to that XOR.
   */
  predicate IsScanMove(piles: Piles, nimSum: nat, m: Move)
  {
    && 0 <= m.pile < |piles|
    && Xor(piles[m.pile], nimSum) < piles[m.pile]
    && (forall j :: 0 <= j < m.pile ==> piles[j] <= Xor(piles[j], nimSum))
    && m.amount == piles[m.pile] - Xor(piles[m.pile], nimSum)
  }

  /** At most one move is the scan's: the first shrinking pile is unique. */
  lemma {:induction false} ScanMoveUnique(piles: Piles, nimSum: nat, m1: Move, m2: Move)
    requires IsScanMove(piles, nimSum, m1) && IsScanMove(piles, nimSum, m2)
    ensures m1 == m2
  {
    assert m1.pile == m2.pile;
  }

  /** The nim-sum of `[1, 3, 5, 6]`, folded pile by pile. */
  lemma ExampleNimSum()
    ensures NimSum([1, 3, 5, 6]) == 1
  {
    var piles: Piles := [1, 3, 5, 6];
    assert NimSum([1]) == 1 by { assert [1][..0] == []; }
    assert NimSum([1, 3]) == 2 by { assert [1, 3][..1] == [1]; assert Xor(1, 3) == 2; }
    assert NimSum([1, 3, 5]) == 7 by { assert [1, 3, 5][..2] == [1, 3]; assert Xor(2, 5) == 7; }
    assert piles[..3] == [1, 3, 5];
    assert Xor(7, 6) == 1;
  }

  /** On the board `[1, 3, 5, 6]` the scan takes the one object of pile 0. */
  lemma ScanMoveExample(m: Move)
    requires IsScanMove([1, 3, 5, 6], NimSum([1, 3, 5, 6]), m)
    ensures m == Move(0, 1)
  {
    ExampleNimSum();
    assert Xor(1, 1) == 0;
    ScanMoveUnique([1, 3, 5, 6], 1, m, Move(0, 1));
  }

  /**
   * The nim-sum scan of `getNextMove`: the first pile whose size drops when
   * XOR-ed with `nimSum`, reduced to that size. `removeAmount` stays 0 when
   * no pile qualifies, which sends the caller to the random fallback.
   */
  method ScanForReduction(piles: Piles, nimSum: nat) returns (move: Move, removeAmount: int)
    ensures removeAmount == 0 <==> forall i :: 0 <= i < |piles| ==> piles[i] <= Xor(piles[i], nimSum)
    ensures removeAmount == 0 ==> move == Move(0, 0)
    ensures removeAmount != 0 ==>
      && IsScanMove(piles, nimSum, move)
      && move.amount == removeAmount
      && IsValidMove(piles, move)
    ensures nimSum == 0 ==> removeAmount == 0
    ensures nimSum == NimSum(piles) && nimSum != 0 ==> removeAmount != 0
    ensures removeAmount != 0 && nimSum == NimSum(piles) ==> NimSum(Update(piles, move)) == 0
  {
    move := Move(0, 0);
    removeAmount := 0;
    var targetPile := 0;
    while targetPile < |piles|
      invariant 0 <= targetPile <= |piles|
      invariant forall j :: 0 <= j < targetPile ==> piles[j] <= Xor(piles[j], nimSum)
    {
      var targetSize := Xor(piles[targetPile], nimSum);
      if targetSize < piles[targetPile] {
        removeAmount := piles[targetPile] - targetSize;
        move := Move(targetPile, removeAmount);
        break;
      }
      targetPile := targetPile + 1;
    }
    if nimSum == 0 {
      forall i | 0 <= i < |piles|
        ensures Xor(piles[i], nimSum) == piles[i]
      {
        XorZero(piles[i]);
      }
    } else if nimSum == NimSum(piles) {
      NonZeroNimSumHasReducingPile(piles);
    }
    if removeAmount != 0 && nimSum == NimSum(piles) {
      assert Update(piles, move) == piles[move.pile := Xor(piles[move.pile], NimSum(piles))];
      ReduceToZeroNimSum(piles, move.pile);
    }
  }

  /**
   * `getRandomMove`: any non-empty pile (the source retries random piles until
   * it draws one) and `1 + roll % size` objects from it, `roll` standing for
   * the second `rand()`. The clamp to the pile size never changes the amount.
   */
  method GetRandomMove(piles: Piles, roll: nat) returns (move: Move)
    requires !AllEmpty(piles)
    ensures 0 <= move.pile < |piles| && piles[move.pile] > 0
    ensures move.amount == 1 + roll % piles[move.pile]
    ensures IsValidMove(piles, move)
  {
    var pile :| 0 <= pile < |piles| && piles[pile] > 0;
    var size := piles[pile];
    var amount := 1 + roll % size;
    move := Move(pile, if amount > size then size else amount);
  }

  /** The misère end game with no winning move: an odd number of piles left, none larger than 1. */
  predicate EndGameLost(piles: Piles)
  {
    CountNonEmpty(piles) % 2 == 1 && MaxPile(piles) == 1
  }

  /**
   * The misère end-game rule: from the first largest pile, take all of it, or
   * all but one when an odd number of piles is non-empty.
   */
  function EndGameMove(piles: Piles): (m: Move)
    requires |piles| > 0
    ensures 0 <= m.pile < |piles| && piles[m.pile] == MaxPile(piles)
    ensures forall j :: 0 <= j < m.pile ==> piles[j] < piles[m.pile]
  {
    MaxPileIsMaximum(piles);
    var pileMax := MaxPile(piles);
    var isOdd := CountNonEmpty(piles) % 2 == 1;
    Move(FirstIndexOf(piles, pileMax), pileMax - if isOdd then 1 else 0)
  }

  /**
   * In a misère end game that is not lost, the rule's move is legal, targets
   * the first largest pile, and leaves only piles of at most one object, an
   * odd number of them non-empty, so the opponent takes the last object.
   */
  lemma EndGameMoveWins(piles: Piles)
    requires IsEndGame(piles) && !IsGameOver(piles) && !EndGameLost(piles)
    ensures var m := EndGameMove(piles);
      && 0 <= m.pile < |piles|
      && piles[m.pile] == MaxPile(piles)
      && (forall j :: 0 <= j < m.pile ==> piles[j] < piles[m.pile])
      && IsValidMove(piles, m)
      && var after := Update(piles, m);
        && (forall j :: 0 <= j < |after| ==> after[j] <= 1)
        && CountNonEmpty(after) % 2 == 1
  {
    MaxPileIsMaximum(piles);
    var m := EndGameMove(piles);
    var i := m.pile;
    var after := Update(piles, m);
    CountNonEmptyReplace(piles, i, after[i]);
    EndGameIffOneBigPile(piles);
    forall j | 0 <= j < |after|
      ensures after[j] <= 1
    {
      if j < i {
        assert piles[i] > 1 ==> piles[j] <= 1;
      } else if j > i {
        assert piles[i] > 1 ==> piles[j] <= 1;
      }
    }
  }

  /** Index of the first child whose value is `m`, or the number of children when none is. */
  function FirstMatch(kids: seq<Node>, m: int): (k: nat)
    ensures k <= |kids|
    ensures k < |kids| ==> kids[k].value == m
    ensures forall j :: 0 <= j < k ==> kids[j].value != m
  {
    if |kids| == 0 then 0
    else if kids[0].value == m then 0
    else
      var k := FirstMatch(kids[1..], m);
      assert forall j :: 1 <= j < k + 1 ==> kids[j] == kids[1..][j - 1];
      1 + k
  }

  /** Index of the first pile where `c` differs from `piles`, or `|piles|` when none does. */
  function FirstDifference(piles: Piles, c: Piles): (k: nat)
    requires |piles| <= |c|
    ensures k <= |piles|
    ensures k < |piles| ==> piles[k] != c[k]
    ensures forall j :: 0 <= j < k ==> piles[j] == c[j]
  {
    if |piles| == 0 then 0
    else if piles[0] != c[0] then 0
    else
      var k := FirstDifference(piles[1..], c[1..]);
      assert forall j :: 1 <= j < k + 1 ==> piles[j] == piles[1..][j - 1] && c[j] == c[1..][j - 1];
      1 + k
  }

  /**
   * `getMaxMove`: the first child of the root whose value is `m`, read back
   * as the move on the first pile where the child differs from the board
   * (`{0, 0}` when it differs nowhere). Reading a successor position gives
   * the legal move that produces it.
   */
  method GetMaxMove(piles: Piles, root: Node, m: int) returns (d: Decision)
    requires forall k :: 0 <= k < |root.children| ==> |piles| <= |root.children[k].piles|
    ensures d.NoMatchingChild? <==> FirstMatch(root.children, m) == |root.children|
    ensures d.NoMatchingChild? ==> d.searchValue == m
    ensures d.Chosen? ==>
      var c := root.children[FirstMatch(root.children, m)].piles;
      var j := FirstDifference(piles, c);
      && d.move == (if j < |piles| then Move(j, piles[j] as int - c[j] as int) else Move(0, 0))
      && (IsSuccessor(piles, c) ==> IsValidMove(piles, d.move) && Update(piles, d.move) == c)
  {
    var kids := root.children;
    var idx := 0;
    while idx < |kids| && kids[idx].value != m
      invariant 0 <= idx <= |kids|
      invariant forall j :: 0 <= j < idx ==> kids[j].value != m
    {
      idx := idx + 1;
    }
    if idx == |kids| {
      return NoMatchingChild(m);
    }
    var c := kids[idx].piles;
    var move := Move(0, 0);
    var p := 0;
    while p < |piles|
      invariant 0 <= p <= |piles|
      invariant forall j :: 0 <= j < p ==> piles[j] == c[j]
    {
      if piles[p] != c[p] {
        move := Move(p, piles[p] as int - c[p] as int);
        break;
      }
      p := p + 1;
    }
    d := Chosen(move);
    ReadBackSuccessor(piles, c);
  }

  /** The move read back from a successor position is legal and reproduces it. */
  lemma ReadBackSuccessor(piles: Piles, c: Piles)
    requires |piles| <= |c|
    ensures IsSuccessor(piles, c) ==>
      var j := FirstDifference(piles, c);
      && j < |piles| && c[j] < piles[j]
      && var m := Move(j, piles[j] as int - c[j] as int);
        IsValidMove(piles, m) && Update(piles, m) == c
  {
    if IsSuccessor(piles, c) {
      var i :| 0 <= i < |piles| && c[i] < piles[i] && c == piles[i := c[i]];
      var j := FirstDifference(piles, c);
      assert piles[i] != c[i];
      assert j == i;
    }
  }

  /**
   * The root call of the tree-search path. Inside that branch a local
   * `max = 0` shadows the member holding `INT_MAX`, so the root is searched
   * with the window `(INT_MIN, 0)`.
   */
  function RootSearch(piles: Piles, depth: int): int
  {
    AlphaBeta(BuildTree(piles, depth).root, depth, IntMin, 0, true)
  }

  /** The root search answers a 32-bit `int`. */
  lemma RootSearchInRange(piles: Piles, depth: int)
    ensures IntMin <= RootSearch(piles, depth) <= IntMax
  {
    var root := BuildTree(piles, depth).root;
    BuiltTreeBounded(root, depth);
    AlphaBetaInRange(root, depth, IntMin, 0, true, IntMin, IntMax);
  }

  /** The paths of `getNextMove` that run the nim-sum scan. */
  predicate ScansNimSum(board: NimBoard, gameType: GameType)
  {
    || (gameType == Normal && board.ai == Algo)
    || (gameType == Misere && !IsEndGame(board.piles))
  }

  /** The nim-sum scan followed, when it finds nothing, by the random fallback. */
  method ScanOrRandom(piles: Piles, nimSum: nat, roll: nat) returns (move: Move)
    requires !AllEmpty(piles)
    ensures 0 <= move.pile < |piles| && IsValidMove(piles, move)
    ensures nimSum == NimSum(piles) && nimSum != 0 ==> NimSum(Update(piles, move)) == 0
    ensures HasReducingPile(piles, nimSum) ==> IsScanMove(piles, nimSum, move)
    ensures !HasReducingPile(piles, nimSum) ==>
      piles[move.pile] > 0 && move.amount == 1 + roll % piles[move.pile]
  {
    var removeAmount;
    move, removeAmount := ScanForReduction(piles, nimSum);
    if removeAmount == 0 {
      move := GetRandomMove(piles, roll);
    }
  }

  /**
   * `getNextMove`. Misère end game: the end-game rule, or a random move when
   * the position is lost. Misère otherwise, and normal play with the
   * closed-form rule: the nim-sum scan, falling back to a random move.
   * Normal play with tree search: build the tree, search it from the root,
   * and read back the first child carrying the search value.
   */
  method GetNextMove(board: NimBoard, gameType: GameType, nimSum: nat, roll: nat) returns (d: Decision)
    requires |board.piles| > 0
    requires gameType == Normal && board.ai == Algo ==> !IsGameOver(board.piles)
    ensures d.Chosen? && !IsGameOver(board.piles) ==>
      0 <= d.move.pile < |board.piles| && IsValidMove(board.piles, d.move)
    ensures gameType == Misere && IsEndGame(board.piles) && !EndGameLost(board.piles) ==>
      d == Chosen(EndGameMove(board.piles))
    ensures gameType == Misere && IsGameOver(board.piles) ==> d == Chosen(Move(0, 0))
    ensures gameType == Misere || board.ai == Algo ==> d.Chosen?
    ensures ScansNimSum(board, gameType) && nimSum == NimSum(board.piles) && nimSum != 0 ==>
      NimSum(Update(board.piles, d.move)) == 0
    ensures ScansNimSum(board, gameType) && HasReducingPile(board.piles, nimSum) ==>
      d.Chosen? && IsScanMove(board.piles, nimSum, d.move)
    ensures ScansNimSum(board, gameType) && !HasReducingPile(board.piles, nimSum) ==>
      && d.Chosen? && 0 <= d.move.pile < |board.piles| && board.piles[d.move.pile] > 0
      && d.move.amount == 1 + roll % board.piles[d.move.pile]
    ensures gameType == Normal && board.ai == AlphaBetaSearch ==>
      var root := BuildTree(board.piles, board.depth).root;
      var k := FirstMatch(root.children, RootSearch(board.piles, board.depth));
      && (d.NoMatchingChild? <==> k == |root.children|)
      && (d.Chosen? ==>
        && 0 <= d.move.pile < |board.piles| && IsValidMove(board.piles, d.move)
        && Update(board.piles, d.move) == root.children[k].piles)
    ensures gameType == Normal && board.ai == AlphaBetaSearch && board.depth == 1 && !IsGameOver(board.piles) ==>
      d.Chosen?
  {
    var piles := board.piles;
    GameOverIffAllEmpty(piles);
    match gameType {
      case Misere =>
        if IsEndGame(piles) {
          if EndGameLost(piles) {
            var move := GetRandomMove(piles, roll);
            d := Chosen(move);
          } else {
            if !IsGameOver(piles) {
              EndGameMoveWins(piles);
            } else {
              CountNonEmptyZero(piles);
              assert piles[0] == 0;
            }
            d := Chosen(EndGameMove(piles));
          }
        } else {
          // A pile above 1 exists, so the board is not empty, as `ScanOrRandom` needs.
          var big := SomeBigPile(piles);
          var move := ScanOrRandom(piles, nimSum, roll);
          d := Chosen(move);
        }
      case Normal =>
        if board.ai == Algo {
          var move := ScanOrRandom(piles, nimSum, roll);
          d := Chosen(move);
        } else {
          var tree := BuildTree(piles, board.depth);
          var root := tree.root;
          var max := AlphaBeta(root, board.depth, IntMin, 0, true);
          forall k | 0 <= k < |root.children|
            ensures |piles| <= |root.children[k].piles|
          {
            assert ChildAt(root, k, board.depth, Evaluator);
          }
          d := GetMaxMove(piles, root, max);
          if d.Chosen? {
            assert ChildAt(root, FirstMatch(root.children, max), board.depth, Evaluator);
            ValidMoveIsSuccessor(piles, d.move);
          }
          if board.depth == 1 && !IsGameOver(piles) {
            RootSearchOnePly(piles);
          }
        }
    }
  }

  /**
   * One ply deep, the tree search always lands on a child: its value is the
   * first score of 0 or more, or `INT_MIN` when every child scores that.
   */
  lemma RootSearchOnePly(piles: Piles)
    requires !IsGameOver(piles)
    ensures var root := BuildTree(piles, 1).root;
      FirstMatch(root.children, RootSearch(piles, 1)) < |root.children|
  {
    var root := BuildTree(piles, 1).root;
    var kids := root.children;
    var r := RootSearch(piles, 1);
    GameOverIffAllEmpty(piles);
    assert |kids| == Sum(piles) > 0;
    MaxLoopOnePly(kids, IntMin, 0);
    assert r == MaxLoop(kids, 1, IntMin, 0);
    if r == IntMin {
      assert ChildAt(root, 0, 1, Evaluator);
      EvaluatorScores(kids[0].piles);
      assert kids[0].value == r;
    } else {
      var k :| 0 <= k < |kids| && kids[k].value == r;
    }
  }

  /** The only position below `[0, 1]` and `[1, 0]`: both piles empty, scored as a win. */
  function EmptyPair(): Node
  {
    Node(WinScore, [0, 0], [])
  }

  /** Expanding the position `[0, 1]` one ply gives the one reply that empties the board. */
  lemma ExpandZeroOne()
    ensures BuildLayer(Leaf(Evaluator([0, 1]), [0, 1]), 1, Evaluator).0
      == Node(IntMin, [0, 1], [EmptyPair()])
  {
    var e := Evaluator;
    EvaluatorScores([0, 0]);
    EvaluatorScores([0, 1]);
    assert NimSum([0, 1]) == 1 by {
      assert [0, 1][..1] == [0];
      assert [0][..0] == [];
    }
    assert [0, 1][1 := 0] == [0, 0];
    assert BuildLayer(Leaf(e([0, 0]), [0, 0]), 0, e).0 == EmptyPair();
    assert PileExpansions([0, 1], 1, e, 0, 0).0 == [];
    assert PileExpansions([0, 1], 1, e, 1, 1).0 == [EmptyPair()];
    assert Expansions([0, 1], 1, e, 2).0 == [];
    assert Expansions([0, 1], 1, e, 1).0 == [EmptyPair()];
    assert Expansions([0, 1], 1, e, 0).0 == [EmptyPair()];
  }

  /** Expanding the position `[1, 0]` one ply gives the one reply that empties the board. */
  lemma ExpandOneZero()
    ensures BuildLayer(Leaf(Evaluator([1, 0]), [1, 0]), 1, Evaluator).0
      == Node(IntMin, [1, 0], [EmptyPair()])
  {
    var e := Evaluator;
    EvaluatorScores([0, 0]);
    EvaluatorScores([1, 0]);
    assert NimSum([1, 0]) == 1 by {
      assert [1, 0][..1] == [1];
      assert [1][..0] == [];
    }
    assert [1, 0][0 := 0] == [0, 0];
    assert BuildLayer(Leaf(e([0, 0]), [0, 0]), 0, e).0 == EmptyPair();
    assert PileExpansions([1, 0], 1, e, 0, 1).0 == [EmptyPair()];
    assert PileExpansions([1, 0], 1, e, 1, 0).0 == [];
    assert Expansions([1, 0], 1, e, 2).0 == [];
    assert Expansions([1, 0], 1, e, 1).0 == [];
    assert Expansions([1, 0], 1, e, 0).0 == [EmptyPair()];
  }

  /** The two-ply tree for `[1, 1]`: two replies, each followed by the move that empties the board. */
  lemma TreeOneOne()
    ensures BuildTree([1, 1], 2).root == Node(IntMin, [1, 1], [
      Node(IntMin, [0, 1], [EmptyPair()]),
      Node(IntMin, [1, 0], [EmptyPair()])])
  {
    var e := Evaluator;
    ExpandZeroOne();
    ExpandOneZero();
    var left := Node(IntMin, [0, 1], [EmptyPair()]);
    var right := Node(IntMin, [1, 0], [EmptyPair()]);
    assert [1, 1][0 := 0] == [0, 1] && [1, 1][1 := 0] == [1, 0];
    assert PileExpansions([1, 1], 2, e, 0, 1).0 == [left];
    assert PileExpansions([1, 1], 2, e, 1, 1).0 == [right];
    assert Expansions([1, 1], 2, e, 2).0 == [];
    assert Expansions([1, 1], 2, e, 1).0 == [right];
    assert Expansions([1, 1], 2, e, 0).0 == [left, right];
  }

  /**
   * Two plies deep the root window `(INT_MIN, 0)` can hide every child. On
   * piles `[1, 1]` each reply leaves one object, which the opponent takes
   * (score 100), so minimax gives 100; but the first min node stops at its
   * starting bound 0, the root cuts off on it and returns 0, and no child
   * carries the value 0, so no move can be read back.
   */
  lemma RootSearchMissesEveryChild()
    ensures var root := BuildTree([1, 1], 2).root;
      && RootSearch([1, 1], 2) == 0
      && Minimax(root, 2, true) == WinScore
      && FirstMatch(root.children, 0) == |root.children|
  {
    TreeOneOne();
    var left := Node(IntMin, [0, 1], [EmptyPair()]);
    var right := Node(IntMin, [1, 0], [EmptyPair()]);
    assert MinLoop([EmptyPair()], 1, IntMin, 0) == 0;
    assert AlphaBeta(left, 1, IntMin, 0, false) == 0;
    assert MaxLoop([left, right], 2, IntMin, 0) == 0;
    assert Minimax(left, 1, false) == WinScore && Minimax(right, 1, false) == WinScore;
    assert MaxOf([left, right], 2) == WinScore by {
      assert [left, right][1..] == [right];
    }
  }
}
