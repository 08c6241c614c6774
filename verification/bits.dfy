/**
 * Bitwise exclusive-or on natural numbers.
 *
 * Pile sizes are non-negative, so the `^` of the board code is modelled on
 * `nat`: `Xor` works on the lowest bit and recurses on the halves, and `Bit`
 * reads one binary digit. Every algebraic fact about `Xor` is derived from the
 * bit-wise characterisation `XorBit` and the extensionality lemma `BitsDetermine`.
 */
module Bits {

  /** Binary digit `k` of `a` (digit 0 is the lowest). */
  predicate Bit(a: nat, k: nat)
    decreases k
  {
    if k == 0 then a % 2 == 1 else Bit(a / 2, k - 1)
  }

  /** Bitwise exclusive-or of two natural numbers. */
  function Xor(a: nat, b: nat): nat
    decreases a + b
  {
    if a == 0 then b
    else if b == 0 then a
    else 2 * Xor(a / 2, b / 2) + (if a % 2 == b % 2 then 0 else 1)
  }

  /** The recursive step of `Xor` holds for every pair, zero operands included. */
  lemma XorStep(a: nat, b: nat)
    ensures Xor(a, b) == 2 * Xor(a / 2, b / 2) + (if a % 2 == b % 2 then 0 else 1)
  {
    if a == 0 {
      assert Xor(a / 2, b / 2) == b / 2;
    } else if b == 0 {
      assert Xor(a / 2, b / 2) == a / 2;
    }
  }

  /** Zero has no set bit. */
  lemma {:induction false} ZeroHasNoBits(k: nat)
    ensures !Bit(0, k)
  {
    if k > 0 {
      ZeroHasNoBits(k - 1);
    }
  }

  /** Digit `k` of `a ^ b` is set exactly when digit `k` differs between `a` and `b`. */
  lemma {:induction false} XorBit(a: nat, b: nat, k: nat)
    ensures Bit(Xor(a, b), k) <==> (Bit(a, k) != Bit(b, k))
    decreases k
  {
    XorStep(a, b);
    var x := Xor(a, b);
    assert x / 2 == Xor(a / 2, b / 2) && x % 2 == (if a % 2 == b % 2 then 0 else 1);
    if k > 0 {
      XorBit(a / 2, b / 2, k - 1);
    }
  }

  /** Two numbers with the same binary digits are equal. */
  lemma {:induction false} BitsDetermine(a: nat, b: nat)
    requires forall k: nat :: Bit(a, k) == Bit(b, k)
    ensures a == b
    decreases a + b
  {
    assert Bit(a, 0) == Bit(b, 0);
    if a != 0 || b != 0 {
      forall k: nat
        ensures Bit(a / 2, k) == Bit(b / 2, k)
      {
        assert Bit(a, k + 1) == Bit(b, k + 1);
      }
      BitsDetermine(a / 2, b / 2);
    }
  }

  lemma XorZero(a: nat)
    ensures Xor(a, 0) == a && Xor(0, a) == a
  {
  }

  lemma {:induction false} XorSelf(a: nat)
    ensures Xor(a, a) == 0
  {
    forall k: nat
      ensures Bit(Xor(a, a), k) == Bit(0, k)
    {
      XorBit(a, a, k);
      ZeroHasNoBits(k);
    }
    BitsDetermine(Xor(a, a), 0);
  }

  /** Two numbers cancel under exclusive-or exactly when they are equal. */
  lemma {:induction false} XorZeroIffEqual(a: nat, b: nat)
    ensures Xor(a, b) == 0 <==> a == b
  {
    if Xor(a, b) == 0 {
      forall k: nat
        ensures Bit(a, k) == Bit(b, k)
      {
        XorBit(a, b, k);
        ZeroHasNoBits(k);
      }
      BitsDetermine(a, b);
    } else if a == b {
      XorSelf(a);
    }
  }

  lemma {:induction false} XorComm(a: nat, b: nat)
    ensures Xor(a, b) == Xor(b, a)
  {
    forall k: nat
      ensures Bit(Xor(a, b), k) == Bit(Xor(b, a), k)
    {
      XorBit(a, b, k);
      XorBit(b, a, k);
    }
    BitsDetermine(Xor(a, b), Xor(b, a));
  }

  lemma XorAssoc(a: nat, b: nat, c: nat)
    ensures Xor(Xor(a, b), c) == Xor(a, Xor(b, c))
  {
    forall k: nat
      ensures Bit(Xor(Xor(a, b), c), k) == Bit(Xor(a, Xor(b, c)), k)
    {
      XorBit(Xor(a, b), c, k);
      XorBit(a, b, k);
      XorBit(a, Xor(b, c), k);
      XorBit(b, c, k);
    }
    BitsDetermine(Xor(Xor(a, b), c), Xor(a, Xor(b, c)));
  }

  /** A number with no set digit above `k` and digit `k` set has `k` as its highest digit. */
  ghost predicate TopBit(x: nat, k: nat)
  {
    Bit(x, k) && forall j: nat :: j > k ==> !Bit(x, j)
  }

  /** Position of the highest set digit of a positive number. */
  function HighBit(x: nat): (k: nat)
    requires x > 0
    ensures TopBit(x, k)
  {
    if x == 1 then
      assert forall j: nat :: j > 0 ==> !Bit(x, j) by {
        forall j: nat | j > 0
          ensures !Bit(x, j)
        {
          ZeroHasNoBits(j - 1);
        }
      }
      0
    else
      var k := HighBit(x / 2);
      TopBitOfHalf(x, k);
      k + 1
  }

  /** Shifting a number right by one moves its highest set digit down by one. */
  lemma TopBitOfHalf(x: nat, k: nat)
    requires x > 1 && TopBit(x / 2, k)
    ensures TopBit(x, k + 1)
  {
    assert Bit(x, k + 1) == Bit(x / 2, k);
    forall j: nat | j > k + 1
      ensures !Bit(x, j)
    {
      assert Bit(x, j) == Bit(x / 2, j - 1);
    }
  }

  /** A number whose only set digit is digit 0 is 1. */
  lemma OnlyLowBit(x: nat)
    requires TopBit(x, 0)
    ensures x == 1
  {
    forall k: nat
      ensures Bit(x / 2, k) == Bit(0, k)
    {
      assert !Bit(x, k + 1);
      ZeroHasNoBits(k);
    }
    BitsDetermine(x / 2, 0);
  }

  /**
   * Bouton's reduction step: if `x`'s highest set digit `k` is also set in `p`,
   * then `p ^ x` is strictly smaller than `p`.
   */
  lemma {:induction false} XorBelow(p: nat, x: nat, k: nat)
    requires Bit(p, k) && TopBit(x, k)
    ensures Xor(p, x) < p
    decreases k
  {
    if k == 0 {
      OnlyLowBit(x);
      XorStep(p, x);
      XorZero(p / 2);
    } else {
      if p == 0 {
        ZeroHasNoBits(k);
      }
      assert Bit(x / 2, k - 1);
      forall j: nat | j > k - 1
        ensures !Bit(x / 2, j)
      {
        assert !Bit(x, j + 1);
      }
      XorBelow(p / 2, x / 2, k - 1);
      XorStep(p, x);
    }
  }
}
