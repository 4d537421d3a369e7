/** Unbounded binary naturals: the bitwise operators of Python's `int` on
    non-negative operands, defined digit by digit, and the facts that let a
    proof reason about one bit position at a time. */
module Bits {

  function Pow2(n: nat): (r: nat)
    ensures r > 0
  {
    if n == 0 then 1 else 2 * Pow2(n - 1)
  }

  lemma {:induction false} Pow2Add(a: nat, b: nat)
    ensures Pow2(a + b) == Pow2(a) * Pow2(b)
  {
    if a > 0 {
      Pow2Add(a - 1, b);
      DoubleProduct(Pow2(a - 1), Pow2(b));
    }
  }

  lemma DoubleProduct(x: nat, y: nat)
    ensures 2 * (x * y) == (2 * x) * y
  {
  }

  /** `(m >> i) & 1 == 1` */
  predicate Bit(m: nat, i: nat) {
    if i == 0 then m % 2 == 1 else Bit(m / 2, i - 1)
  }

  /** `a & b` */
  function And(a: nat, b: nat): nat {
    if a == 0 || b == 0 then 0
    else 2 * And(a / 2, b / 2) + (if a % 2 == 1 && b % 2 == 1 then 1 else 0)
  }

  /** `a | b` */
  function Or(a: nat, b: nat): nat {
    if a == 0 then b
    else if b == 0 then a
    else 2 * Or(a / 2, b / 2) + (if a % 2 == 1 || b % 2 == 1 then 1 else 0)
  }

  /** `a ^ b` */
  function Xor(a: nat, b: nat): nat {
    if a == 0 then b
    else if b == 0 then a
    else 2 * Xor(a / 2, b / 2) + (if a % 2 != b % 2 then 1 else 0)
  }

  /** `m >> k` */
  function Shr(m: nat, k: nat): nat {
    if k == 0 then m else Shr(m / 2, k - 1)
  }

  lemma ZeroHasNoBits(i: nat)
    ensures !Bit(0, i)
  {
    if i > 0 { ZeroHasNoBits(i - 1); }
  }

  lemma {:induction false} AndBit(a: nat, b: nat, i: nat)
    ensures Bit(And(a, b), i) <==> Bit(a, i) && Bit(b, i)
  {
    if a == 0 || b == 0 {
      ZeroHasNoBits(i);
    } else if i > 0 {
      AndBit(a / 2, b / 2, i - 1);
    }
  }

  lemma {:induction false} OrBit(a: nat, b: nat, i: nat)
    ensures Bit(Or(a, b), i) <==> Bit(a, i) || Bit(b, i)
  {
    if a == 0 || b == 0 {
      ZeroHasNoBits(i);
    } else if i > 0 {
      OrBit(a / 2, b / 2, i - 1);
    }
  }

  lemma {:induction false} XorBit(a: nat, b: nat, i: nat)
    ensures Bit(Xor(a, b), i) <==> Bit(a, i) != Bit(b, i)
  {
    if a == 0 || b == 0 {
      ZeroHasNoBits(i);
    } else if i > 0 {
      XorBit(a / 2, b / 2, i - 1);
    }
  }

  lemma {:induction false} ShrBit(m: nat, k: nat, i: nat)
    ensures Bit(Shr(m, k), i) == Bit(m, i + k)
  {
    if k > 0 { ShrBit(m / 2, k - 1, i); }
  }

  lemma {:induction false} Pow2Bit(k: nat, i: nat)
    ensures Bit(Pow2(k), i) <==> i == k
  {
    if k == 0 {
      if i > 0 { ZeroHasNoBits(i - 1); }
    } else if i > 0 {
      Pow2Bit(k - 1, i - 1);
    }
  }

  /** `(1 << n) - 1` has exactly the bits below `n`. */
  lemma {:induction false} FullMaskBit(n: nat, i: nat)
    ensures Bit(Pow2(n) - 1, i) <==> i < n
  {
    if n == 0 {
      ZeroHasNoBits(i);
    } else if i > 0 {
      assert (Pow2(n) - 1) / 2 == Pow2(n - 1) - 1;
      FullMaskBit(n - 1, i - 1);
    }
  }

  /** A non-zero natural has a set bit. */
  lemma {:induction false} SomeBit(m: nat) returns (i: nat)
    requires m != 0
    ensures Bit(m, i)
    ensures Pow2(i) <= m
  {
    if m % 2 == 1 {
      i := 0;
    } else {
      var j := SomeBit(m / 2);
      i := j + 1;
    }
  }

  /** A number is below 2^n exactly when it has no bit at n or above. */
  lemma {:induction false} HighBitsClear(m: nat, n: nat, i: nat)
    requires m < Pow2(n) && i >= n
    ensures !Bit(m, i)
  {
    if n == 0 {
      ZeroHasNoBits(i);
    } else {
      HighBitsClear(m / 2, n - 1, i - 1);
    }
  }

  /** Two naturals with the same bits are equal. */
  lemma {:induction false} SameBits(a: nat, b: nat)
    requires forall i: nat :: Bit(a, i) == Bit(b, i)
    ensures a == b
  {
    if a == 0 {
      if b != 0 {
        var i := SomeBit(b);
        ZeroHasNoBits(i);
        assert false;
      }
    } else {
      assert Bit(a, 0) == Bit(b, 0);
      forall i: nat ensures Bit(a / 2, i) == Bit(b / 2, i) {
        assert Bit(a, i + 1) == Bit(b, i + 1);
      }
      SameBits(a / 2, b / 2);
    }
  }

  /** Clearing a set bit with `^` subtracts its weight. */
  lemma {:induction false} ClearBit(m: nat, i: nat)
    requires Bit(m, i)
    ensures Pow2(i) <= m
    ensures Xor(m, Pow2(i)) == m - Pow2(i)
  {
    if m == 0 {
      ZeroHasNoBits(i);
    } else if i == 0 {
      assert Pow2(0) == 1 && Xor(m / 2, 0) == m / 2;
    } else {
      var half := Pow2(i - 1);
      ClearBit(m / 2, i - 1);
      ClearHigher(m, half);
    }
  }

  /** One step up from clearing a bit of the half. */
  lemma ClearHigher(m: nat, half: nat)
    requires half > 0 && half <= m / 2 && Xor(m / 2, half) == m / 2 - half
    ensures 2 * half <= m && Xor(m, 2 * half) == m - 2 * half
  {
    assert (2 * half) / 2 == half && (2 * half) % 2 == 0;
    assert m == 2 * (m / 2) + m % 2;
    assert Xor(m, 2 * half) == 2 * Xor(m / 2, half) + (if m % 2 != 0 then 1 else 0);
  }
}
