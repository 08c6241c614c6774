/**
 * The Nim board: a row of piles, the move record, and the board queries of
 * `NimBoard` (nim-sum, game over, move legality, the misère end-game test).
 */
module Board {
  import opened Bits

  /** Pile sizes, one per index; a pile of 0 is empty but keeps its index. */
  type Piles = seq<nat>

  /** Play variant: in misère play, taking the last object loses. */
  datatype GameType = Misere | Normal

  /** Decision path of the computer player: closed-form nim-sum rule or tree search. */
  datatype AiType = Algo | AlphaBetaSearch

  /** A move removes `amount` objects from pile `pile` (both plain `int`s in the source). */
  datatype Move = Move(pile: int, amount: int)

  /** `std::numeric_limits<int>::min()` and `max()` of a 32-bit `int`. */
  const IntMin: int := -0x8000_0000
  const IntMax: int := 0x7FFF_FFFF

  /** Total number of objects on the board. */
  function Sum(piles: Piles): nat
  {
    if |piles| == 0 then 0 else Sum(piles[..|piles| - 1]) + piles[|piles| - 1]
  }

  /** The nim-sum: the left-to-right `^` fold of the pile sizes, starting from 0. */
  function NimSum(piles: Piles): nat
  {
    if |piles| == 0 then 0 else Xor(NimSum(piles[..|piles| - 1]), piles[|piles| - 1])
  }

  /** Number of piles whose binary digit `k` is set. */
  function CountBit(piles: Piles, k: nat): nat
  {
    if |piles| == 0 then 0
    else CountBit(piles[..|piles| - 1], k) + (if Bit(piles[|piles| - 1], k) then 1 else 0)
  }

  /** Number of non-empty piles (`movesLeft` in the misère end-game rule). */
  function CountNonEmpty(piles: Piles): nat
  {
    if |piles| == 0 then 0
    else CountNonEmpty(piles[..|piles| - 1]) + (if piles[|piles| - 1] > 0 then 1 else 0)
  }

  /** Number of piles holding two or more objects. */
  function CountBig(piles: Piles): nat
  {
    if |piles| == 0 then 0
    else CountBig(piles[..|piles| - 1]) + (if piles[|piles| - 1] > 1 then 1 else 0)
  }

  /** `getNimSum`: XOR every pile into an accumulator that starts at 0. */
  method GetNimSum(piles: Piles) returns (result: nat)
    ensures result == NimSum(piles)
    ensures forall k: nat :: Bit(result, k) <==> CountBit(piles, k) % 2 == 1
    ensures AllEmpty(piles) ==> result == 0
  {
    result := 0;
    var i := 0;
    while i < |piles|
      invariant 0 <= i <= |piles|
      invariant result == NimSum(piles[..i])
    {
      assert piles[..i + 1][..i] == piles[..i];
      result := Xor(result, piles[i]);
      i := i + 1;
    }
    assert piles[..i] == piles;
    forall k: nat
      ensures Bit(result, k) <==> CountBit(piles, k) % 2 == 1
    {
      NimSumBits(piles, k);
    }
    if AllEmpty(piles) {
      NimSumOfEmptyBoard(piles);
    }
  }

  /** Digit `k` of the nim-sum is set exactly when an odd number of piles have digit `k` set. */
  lemma {:induction false} NimSumBits(piles: Piles, k: nat)
    ensures Bit(NimSum(piles), k) <==> CountBit(piles, k) % 2 == 1
  {
    if |piles| == 0 {
      ZeroHasNoBits(k);
    } else {
      var n := |piles| - 1;
      NimSumBits(piles[..n], k);
      XorBit(NimSum(piles[..n]), piles[n], k);
      var c := CountBit(piles[..n], k);
      if Bit(piles[n], k) {
        assert CountBit(piles, k) == c + 1;
        assert (c + 1) % 2 == 1 <==> c % 2 == 0;
      } else {
        assert CountBit(piles, k) == c;
      }
    }
  }

  /** A board of empty piles has nim-sum 0. */
  lemma {:induction false} NimSumOfEmptyBoard(piles: Piles)
    requires AllEmpty(piles)
    ensures NimSum(piles) == 0
  {
    if |piles| > 0 {
      NimSumOfEmptyBoard(piles[..|piles| - 1]);
    }
  }

  /** Replacing one pile by `v` changes the nim-sum by `^ piles[i] ^ v`. */
  lemma {:induction false} NimSumReplace(piles: Piles, i: int, v: nat)
    requires 0 <= i < |piles|
    ensures NimSum(piles[i := v]) == Xor(Xor(NimSum(piles), piles[i]), v)
    decreases |piles|
  {
    var n := |piles| - 1;
    var front := piles[..n];
    assert piles[i := v][..n] == if i == n then front else front[i := v];
    if i == n {
      XorAssoc(NimSum(front), piles[n], piles[n]);
      XorSelf(piles[n]);
      XorZero(NimSum(front));
    } else {
      NimSumReplace(front, i, v);
      var a, b, c, d := NimSum(front), piles[n], piles[i], v;
      // (((a ^ c) ^ d) ^ b) == (((a ^ b) ^ c) ^ d)
      XorAssoc(Xor(a, c), d, b);
      XorComm(d, b);
      XorAssoc(Xor(a, c), b, d);
      XorAssoc(a, c, b);
      XorComm(c, b);
      XorAssoc(a, b, c);
    }
  }

  /** A set digit of the nim-sum is set in some pile. */
  lemma {:induction false} NimSumBitHasPile(piles: Piles, k: nat) returns (i: int)
    requires Bit(NimSum(piles), k)
    ensures 0 <= i < |piles| && Bit(piles[i], k)
  {
    var n := |piles| - 1;
    if n < 0 {
      ZeroHasNoBits(k);
    }
    XorBit(NimSum(piles[..n]), piles[n], k);
    if Bit(piles[n], k) {
      i := n;
    } else {
      i := NimSumBitHasPile(piles[..n], k);
    }
  }

  /**
   * Bouton's theorem, the half the strategy relies on: when the nim-sum is not
   * zero some pile shrinks when XORed with it.
   */
  lemma NonZeroNimSumHasReducingPile(piles: Piles)
    requires NimSum(piles) != 0
    ensures exists i :: 0 <= i < |piles| && Xor(piles[i], NimSum(piles)) < piles[i]
  {
    var x := NimSum(piles);
    var k := HighBit(x);
    var i := NimSumBitHasPile(piles, k);
    XorBelow(piles[i], x, k);
  }

  /** Setting the chosen pile to `pile ^ nimSum` leaves a board of nim-sum 0. */
  lemma ReduceToZeroNimSum(piles: Piles, i: int)
    requires 0 <= i < |piles|
    ensures NimSum(piles[i := Xor(piles[i], NimSum(piles))]) == 0
  {
    var x, p := NimSum(piles), piles[i];
    NimSumReplace(piles, i, Xor(p, x));
    XorComm(p, x);
    XorAssoc(Xor(x, p), x, p);
    XorAssoc(x, p, x);
    XorComm(p, x);
    XorAssoc(x, x, p);
    XorSelf(x);
    XorZero(p);
    XorSelf(Xor(x, p));
    XorComm(x, p);
  }

  /** Every pile is empty. */
  predicate AllEmpty(piles: Piles)
  {
    forall i :: 0 <= i < |piles| ==> piles[i] == 0
  }

  /**
   * The largest pile (`*std::max_element`). The source never asks this of a
   * board without piles (dereferencing the end iterator is undefined); the
   * model answers 0 there.
   */
  function MaxPile(piles: Piles): nat
  {
    if |piles| == 0 then 0
    else
      var m := MaxPile(piles[..|piles| - 1]);
      if m < piles[|piles| - 1] then piles[|piles| - 1] else m
  }

  /** `MaxPile` is one of the piles and no pile exceeds it. */
  lemma {:induction false} MaxPileIsMaximum(piles: Piles)
    ensures forall i :: 0 <= i < |piles| ==> piles[i] <= MaxPile(piles)
    ensures |piles| > 0 ==> MaxPile(piles) in piles
  {
    var n := |piles| - 1;
    if n >= 0 {
      MaxPileIsMaximum(piles[..n]);
      assert forall i :: 0 <= i < n ==> piles[..n][i] == piles[i];
    }
  }

  /** Index of the first pile equal to `v` (`std::find`). */
  function FirstIndexOf(piles: Piles, v: nat): (i: nat)
    requires v in piles
    ensures i < |piles| && piles[i] == v
    ensures forall j :: 0 <= j < i ==> piles[j] != v
  {
    if piles[0] == v then 0 else 1 + FirstIndexOf(piles[1..], v)
  }

  /** `update`: take `m.amount` objects off pile `m.pile`. */
  function Update(piles: Piles, m: Move): (r: Piles)
    requires 0 <= m.pile < |piles| && m.amount <= piles[m.pile]
    ensures |r| == |piles|
    ensures r[m.pile] + m.amount == piles[m.pile]
    ensures forall j :: 0 <= j < |piles| && j != m.pile ==> r[j] == piles[j]
  {
    piles[m.pile := piles[m.pile] - m.amount]
  }

  /** `isValidMove`: the amount is positive and no larger than the target pile. */
  predicate IsValidMove(piles: Piles, m: Move)
    requires 0 <= m.pile < |piles|
  {
    if m.amount < 1 then false
    else m.amount <= piles[m.pile]
  }

  /** `child` is `parent` with exactly one pile reduced by a positive amount. */
  ghost predicate IsSuccessor(parent: Piles, child: Piles)
  {
    && |child| == |parent|
    && exists i :: 0 <= i < |parent| && child[i] < parent[i] && child == parent[i := child[i]]
  }

  /**
   * A legal move shrinks exactly its pile, keeps it non-negative, and removes
   * `amount` objects from the board; the moves that pass `IsValidMove` are
   * exactly those whose result is a successor position.
   */
  lemma {:induction false} ValidMoveIsSuccessor(piles: Piles, m: Move)
    requires 0 <= m.pile < |piles|
    ensures IsValidMove(piles, m) <==> 1 <= m.amount <= piles[m.pile]
    ensures IsValidMove(piles, m) ==>
      IsSuccessor(piles, Update(piles, m)) && Sum(Update(piles, m)) + m.amount == Sum(piles)
    ensures m.amount <= piles[m.pile] && IsSuccessor(piles, Update(piles, m)) ==> IsValidMove(piles, m)
  {
    if IsValidMove(piles, m) {
      var r := Update(piles, m);
      assert r == piles[m.pile := r[m.pile]];
      SumReplace(piles, m.pile, r[m.pile]);
    }
    if m.amount <= piles[m.pile] && IsSuccessor(piles, Update(piles, m)) {
      var r := Update(piles, m);
      var i :| 0 <= i < |piles| && r[i] < piles[i] && r == piles[i := r[i]];
      assert i == m.pile;
    }
  }

  /** Replacing one pile changes the total by the difference. */
  lemma {:induction false} SumReplace(piles: Piles, i: int, v: nat)
    requires 0 <= i < |piles|
    ensures Sum(piles[i := v]) + piles[i] == Sum(piles) + v
    decreases |piles|
  {
    var n := |piles| - 1;
    assert piles[i := v][..n] == if i == n then piles[..n] else piles[..n][i := v];
    if i < n {
      SumReplace(piles[..n], i, v);
    }
  }

  /** Replacing one pile changes the number of non-empty piles by the difference. */
  lemma {:induction false} CountNonEmptyReplace(piles: Piles, i: int, v: nat)
    requires 0 <= i < |piles|
    ensures CountNonEmpty(piles[i := v]) + (if piles[i] > 0 then 1 else 0)
      == CountNonEmpty(piles) + (if v > 0 then 1 else 0)
    decreases |piles|
  {
    var n := |piles| - 1;
    assert piles[i := v][..n] == if i == n then piles[..n] else piles[..n][i := v];
    if i < n {
      CountNonEmptyReplace(piles[..n], i, v);
    }
  }

  /** No pile is counted as non-empty exactly when every pile is empty. */
  lemma {:induction false} CountNonEmptyZero(piles: Piles)
    ensures CountNonEmpty(piles) == 0 <==> AllEmpty(piles)
  {
    if |piles| > 0 {
      var n := |piles| - 1;
      assert forall i :: 0 <= i < n ==> piles[..n][i] == piles[i];
      CountNonEmptyZero(piles[..n]);
    }
  }

  /**
   * Bouton's theorem, the other half: from a position of nim-sum 0 every
   * legal move leaves a non-zero nim-sum, so the scan finds nothing there.
   */
  lemma ZeroNimSumEveryMoveUnbalances(piles: Piles, m: Move)
    requires 0 <= m.pile < |piles| && IsValidMove(piles, m)
    requires NimSum(piles) == 0
    ensures NimSum(Update(piles, m)) != 0
  {
    var i := m.pile;
    var v := piles[i] - m.amount;
    assert Update(piles, m) == piles[i := v];
    NimSumReplace(piles, i, v);
    XorZero(piles[i]);
    XorZeroIffEqual(piles[i], v);
  }

  /** A successor position holds strictly fewer objects. */
  lemma {:induction false} SuccessorShrinks(parent: Piles, child: Piles)
    requires IsSuccessor(parent, child)
    ensures Sum(child) < Sum(parent)
  {
    var i :| 0 <= i < |parent| && child[i] < parent[i] && child == parent[i := child[i]];
    SumReplace(parent, i, child[i]);
  }

  /** `isGameOver`: the largest pile is empty. */
  predicate IsGameOver(piles: Piles)
  {
    MaxPile(piles) == 0
  }

  /** The game is over exactly when every pile is empty, that is, when no object is left. */
  lemma {:induction false} GameOverIffAllEmpty(piles: Piles)
    ensures IsGameOver(piles) <==> AllEmpty(piles)
    ensures IsGameOver(piles) <==> Sum(piles) == 0
  {
    MaxPileIsMaximum(piles);
    SumZeroIffEmpty(piles);
  }

  lemma {:induction false} SumZeroIffEmpty(piles: Piles)
    ensures Sum(piles) == 0 <==> AllEmpty(piles)
  {
    if |piles| > 0 {
      SumZeroIffEmpty(piles[..|piles| - 1]);
    }
  }

  /** `isEndGame`: at most one pile holds two or more objects. */
  predicate IsEndGame(piles: Piles)
  {
    CountBig(piles) <= 1
  }

  /** The end-game test holds exactly when no two distinct piles both exceed 1. */
  lemma {:induction false} EndGameIffOneBigPile(piles: Piles)
    ensures IsEndGame(piles) <==>
      forall i, j :: 0 <= i < j < |piles| && piles[i] > 1 ==> piles[j] <= 1
  {
    if |piles| > 0 {
      var n := |piles| - 1;
      var front := piles[..n];
      assert forall i :: 0 <= i < n ==> front[i] == piles[i];
      EndGameIffOneBigPile(front);
      if piles[n] > 1 {
        if CountBig(front) >= 1 {
          var i := SomeBigPile(front);
          assert piles[i] > 1 && piles[n] > 1;
        } else {
          NoBigPile(front);
        }
      }
    }
  }

  /** No pile exceeds 1 exactly when the count of such piles is 0. */
  lemma {:induction false} NoBigPile(piles: Piles)
    ensures CountBig(piles) == 0 <==> forall i :: 0 <= i < |piles| ==> piles[i] <= 1
  {
    if |piles| > 0 {
      var n := |piles| - 1;
      assert forall i :: 0 <= i < n ==> piles[..n][i] == piles[i];
      NoBigPile(piles[..n]);
    }
  }

  lemma {:induction false} SomeBigPile(piles: Piles) returns (i: int)
    requires CountBig(piles) >= 1
    ensures 0 <= i < |piles| && piles[i] > 1
  {
    var n := |piles| - 1;
    if piles[n] > 1 {
      i := n;
    } else {
      i := SomeBigPile(piles[..n]);
    }
  }
}
