/**
 Unsigned machine words as numbers, with the bitwise operators defined on the binary digits.
 */
module Bits {

  function Pow2(n: nat): (p: nat)
    ensures p > 0
  {
    if n == 0 then 1 else 2 * Pow2(n - 1)
  }

  /** Digit i of w. */
  predicate Bit(w: nat, i: nat) {
    if i == 0 then w % 2 == 1 else Bit(w / 2, i - 1)
  }

  function And(a: nat, b: nat): nat {
    if a == 0 then 0 else (if a % 2 == 1 && b % 2 == 1 then 1 else 0) + 2 * And(a / 2, b / 2)
  }

  function AndNot(a: nat, b: nat): nat {
    if a == 0 then 0 else (if a % 2 == 1 && b % 2 == 0 then 1 else 0) + 2 * AndNot(a / 2, b / 2)
  }

  function Or(a: nat, b: nat): nat
    decreases a + b
  {
    if a == 0 && b == 0 then 0 else (if a % 2 == 1 || b % 2 == 1 then 1 else 0) + 2 * Or(a / 2, b / 2)
  }

  /** The number of digits, 64 minus the leading zeros of a 64-bit word. */
  function BitLen(w: nat): nat {
    if w == 0 then 0 else 1 + BitLen(w / 2)
  }

  function TrailingZeros(w: nat): nat
    requires w > 0
  {
    if w % 2 == 1 then 0 else 1 + TrailingZeros(w / 2)
  }

  lemma {:induction false} ZeroHasNoBits(i: nat)
    ensures !Bit(0, i)
  {
    if i > 0 {
      ZeroHasNoBits(i - 1);
    }
  }

  lemma HalfOfAnd(a: nat, b: nat)
    ensures And(a, b) / 2 == And(a / 2, b / 2) && (And(a, b) % 2 == 1 <==> a % 2 == 1 && b % 2 == 1)
  {
    if a > 0 {
      var d, rest := if a % 2 == 1 && b % 2 == 1 then 1 else 0, And(a / 2, b / 2);
      assert And(a, b) == d + 2 * rest;
    }
  }

  lemma {:induction false} BitOfAnd(a: nat, b: nat, i: nat)
    ensures Bit(And(a, b), i) <==> Bit(a, i) && Bit(b, i)
    decreases i
  {
    if a == 0 {
      ZeroHasNoBits(i);
    } else {
      HalfOfAnd(a, b);
      if i > 0 {
        BitOfAnd(a / 2, b / 2, i - 1);
      }
    }
  }

  lemma HalfOfAndNot(a: nat, b: nat)
    ensures AndNot(a, b) / 2 == AndNot(a / 2, b / 2) && (AndNot(a, b) % 2 == 1 <==> a % 2 == 1 && b % 2 == 0)
  {
    if a > 0 {
      var d, rest := if a % 2 == 1 && b % 2 == 0 then 1 else 0, AndNot(a / 2, b / 2);
      assert AndNot(a, b) == d + 2 * rest;
    }
  }

  lemma {:induction false} BitOfAndNot(a: nat, b: nat, i: nat)
    ensures Bit(AndNot(a, b), i) <==> Bit(a, i) && !Bit(b, i)
    decreases i
  {
    if a == 0 {
      ZeroHasNoBits(i);
    } else {
      HalfOfAndNot(a, b);
      if i > 0 {
        BitOfAndNot(a / 2, b / 2, i - 1);
      }
    }
  }

  lemma HalfOfOr(a: nat, b: nat)
    ensures Or(a, b) / 2 == Or(a / 2, b / 2) && (Or(a, b) % 2 == 1 <==> a % 2 == 1 || b % 2 == 1)
  {
    if a > 0 || b > 0 {
      var d, rest := if a % 2 == 1 || b % 2 == 1 then 1 else 0, Or(a / 2, b / 2);
      assert Or(a, b) == d + 2 * rest;
    }
  }

  lemma {:induction false} BitOfOr(a: nat, b: nat, i: nat)
    ensures Bit(Or(a, b), i) <==> Bit(a, i) || Bit(b, i)
    decreases i
  {
    if a == 0 && b == 0 {
      ZeroHasNoBits(i);
    } else {
      HalfOfOr(a, b);
      if i > 0 {
        BitOfOr(a / 2, b / 2, i - 1);
      }
    }
  }

  lemma {:induction false} BitOfPow2(k: nat, i: nat)
    ensures Bit(Pow2(k), i) <==> i == k
    decreases i
  {
    if k == 0 {
      if i > 0 {
        ZeroHasNoBits(i - 1);
      }
    } else if i > 0 {
      BitOfPow2(k - 1, i - 1);
      assert Pow2(k) / 2 == Pow2(k - 1);
    }
  }

  lemma {:induction false} BitOfLowMask(n: nat, i: nat)
    ensures Bit(Pow2(n) - 1, i) <==> i < n
    decreases i
  {
    if n == 0 {
      ZeroHasNoBits(i);
    } else if i > 0 {
      BitOfLowMask(n - 1, i - 1);
      assert (Pow2(n) - 1) / 2 == Pow2(n - 1) - 1;
    }
  }

  lemma {:induction false} AndIsSmaller(a: nat, b: nat)
    ensures And(a, b) <= a && AndNot(a, b) <= a
  {
    if a > 0 {
      AndIsSmaller(a / 2, b / 2);
    }
  }

  lemma {:induction false} OrKeepsWidth(a: nat, b: nat, n: nat)
    requires a < Pow2(n) && b < Pow2(n)
    ensures Or(a, b) < Pow2(n)
    decreases n
  {
    if n > 0 && (a > 0 || b > 0) {
      OrKeepsWidth(a / 2, b / 2, n - 1);
    }
  }

  lemma {:induction false} Pow2Grows(k: nat, n: nat)
    requires k <= n
    ensures Pow2(k) <= Pow2(n) && (k < n ==> Pow2(k) < Pow2(n))
    decreases n - k
  {
    if k < n {
      Pow2Grows(k, n - 1);
    }
  }

  lemma {:induction false} Pow2Sum(a: nat, b: nat)
    ensures Pow2(a + b) == Pow2(a) * Pow2(b)
    decreases a
  {
    if a > 0 {
      Pow2Sum(a - 1, b);
    }
  }

  /** The highest set bit of a word is one below its length. */
  lemma {:induction false} HighestBit(w: nat, i: nat)
    ensures w > 0 ==> BitLen(w) > 0 && Bit(w, BitLen(w) - 1)
    ensures i >= BitLen(w) ==> !Bit(w, i)
    decreases w
  {
    if w == 0 {
      ZeroHasNoBits(i);
    } else if w == 1 {
      if i > 0 {
        ZeroHasNoBits(i - 1);
      }
    } else {
      HighestBit(w / 2, if i > 0 then i - 1 else 0);
    }
  }

  lemma {:induction false} BitLenBound(w: nat, n: nat)
    requires w < Pow2(n)
    ensures BitLen(w) <= n
    decreases n
  {
    if n > 0 && w > 0 {
      BitLenBound(w / 2, n - 1);
    }
  }

  /** The lowest set bit of a word is the number of its trailing zeros. */
  lemma {:induction false} LowestBit(w: nat, i: nat)
    requires w > 0
    ensures Bit(w, TrailingZeros(w))
    ensures i < TrailingZeros(w) ==> !Bit(w, i)
    decreases w
  {
    if w % 2 == 0 {
      LowestBit(w / 2, if i > 0 then i - 1 else 0);
    }
  }
}
