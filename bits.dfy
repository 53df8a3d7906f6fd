/** Visited-set bitmasks: a natural number whose bit k is set when city k is
    in the set. The Held-Karp scripts build them with `1 << k`, test them with
    `mask & (1 << k)`, grow them with `mask | (1 << k)` and shrink them with
    `mask & ~(1 << k)`; the functions below give those single-bit operations
    their exact arithmetic meaning on unbounded naturals. */
module Bits {

  /** `1 << k` */
  function Pow2(k: nat): (r: nat)
    ensures r >= 1
  {
    if k == 0 then 1 else 2 * Pow2(k - 1)
  }

  /** `mask & (1 << k) != 0`: the k-th binary digit of mask is 1. */
  predicate Bit(mask: nat, k: nat)
  {
    if k == 0 then mask % 2 == 1 else Bit(mask / 2, k - 1)
  }

  /** `mask | (1 << k)` */
  function SetBit(mask: nat, k: nat): (r: nat)
    ensures Bit(r, k)
    ensures forall i :: i != k ==> (Bit(r, i) <==> Bit(mask, i))
    ensures !Bit(mask, k) ==> r == mask + Pow2(k)
    ensures Bit(mask, k) ==> r == mask
  {
    if Bit(mask, k) then
      mask
    else
      AllBitsOfSum(mask, k);
      mask + Pow2(k)
  }

  /** `mask & ~(1 << k)` */
  function ClearBit(mask: nat, k: nat): (r: nat)
    ensures !Bit(r, k)
    ensures forall i :: i != k ==> (Bit(r, i) <==> Bit(mask, i))
    ensures Bit(mask, k) ==> r == mask - Pow2(k) && r < mask
    ensures !Bit(mask, k) ==> r == mask
  {
    if Bit(mask, k) then
      BitLowerBound(mask, k);
      AllBitsOfDifference(mask, k);
      mask - Pow2(k)
    else
      mask
  }

  /** The mask with bits 0..n-1 set: `(1 << n) - 1`. */
  function Full(n: nat): nat
  {
    Pow2(n) - 1
  }

  lemma {:induction false} NoBitOfZero(k: nat)
    ensures !Bit(0, k)
  {
    if k > 0 {
      NoBitOfZero(k - 1);
    }
  }

  /** A set bit k contributes 2^k, so the mask is at least that. */
  lemma {:induction false} BitLowerBound(mask: nat, k: nat)
    requires Bit(mask, k)
    ensures mask >= Pow2(k)
  {
    if k > 0 {
      BitLowerBound(mask / 2, k - 1);
    }
  }

  /** Adding 2^k to a mask whose bit k is clear sets exactly bit k. */
  lemma {:induction false} BitOfSum(mask: nat, k: nat, i: nat)
    requires !Bit(mask, k)
    ensures Bit(mask + Pow2(k), i) <==> Bit(mask, i) || i == k
    decreases k
  {
    if k == 0 {
      if i > 0 {
        assert (mask + 1) / 2 == mask / 2;
      }
    } else {
      var half := Pow2(k - 1);
      assert (mask + Pow2(k)) / 2 == mask / 2 + half;
      assert (mask + Pow2(k)) % 2 == mask % 2;
      if i > 0 {
        BitOfSum(mask / 2, k - 1, i - 1);
      }
    }
  }

  lemma AllBitsOfSum(mask: nat, k: nat)
    requires !Bit(mask, k)
    ensures forall i :: Bit(mask + Pow2(k), i) <==> Bit(mask, i) || i == k
  {
    forall i ensures Bit(mask + Pow2(k), i) <==> Bit(mask, i) || i == k {
      BitOfSum(mask, k, i);
    }
  }

  /** Subtracting 2^k from a mask whose bit k is set clears exactly bit k. */
  lemma {:induction false} BitOfDifference(mask: nat, k: nat, i: nat)
    requires Bit(mask, k)
    ensures mask >= Pow2(k)
    ensures Bit(mask - Pow2(k), i) <==> Bit(mask, i) && i != k
    decreases k
  {
    BitLowerBound(mask, k);
    if k == 0 {
      if i > 0 {
        assert (mask - 1) / 2 == mask / 2;
      }
    } else {
      var half := Pow2(k - 1);
      BitLowerBound(mask / 2, k - 1);
      assert (mask - Pow2(k)) / 2 == mask / 2 - half;
      assert (mask - Pow2(k)) % 2 == mask % 2;
      if i > 0 {
        BitOfDifference(mask / 2, k - 1, i - 1);
      }
    }
  }

  lemma AllBitsOfDifference(mask: nat, k: nat)
    requires Bit(mask, k)
    ensures mask >= Pow2(k)
    ensures forall i :: Bit(mask - Pow2(k), i) <==> Bit(mask, i) && i != k
  {
    BitLowerBound(mask, k);
    forall i ensures Bit(mask - Pow2(k), i) <==> Bit(mask, i) && i != k {
      BitOfDifference(mask, k, i);
    }
  }

  /** Setting a bit k < n of a mask below 2^n keeps it below 2^n. */
  lemma {:induction false} SetBitBound(mask: nat, n: nat, k: nat)
    requires mask < Pow2(n) && k < n && !Bit(mask, k)
    ensures mask + Pow2(k) < Pow2(n)
    decreases k
  {
    var half, low := mask / 2, mask % 2;
    assert mask == 2 * half + low && low <= 1;
    assert Pow2(n) == 2 * Pow2(n - 1);
    if k == 0 {
      assert low == 0;
    } else {
      assert Pow2(k) == 2 * Pow2(k - 1);
      assert !Bit(half, k - 1);
      SetBitBound(half, n - 1, k - 1);
    }
  }

  /** `(1 << n) - 1` has exactly the bits 0..n-1. */
  lemma {:induction false} FullBits(n: nat, k: nat)
    ensures Bit(Full(n), k) <==> k < n
    decreases n
  {
    if n == 0 {
      NoBitOfZero(k);
    } else if k > 0 {
      assert Full(n) / 2 == Full(n - 1);
      FullBits(n - 1, k - 1);
    }
  }

  /** Two masks below 2^n with the same bits 0..n-1 are equal. */
  lemma {:induction false} BitsDetermineMask(a: nat, b: nat, n: nat)
    requires a < Pow2(n) && b < Pow2(n)
    requires forall k :: 0 <= k < n ==> (Bit(a, k) <==> Bit(b, k))
    ensures a == b
    decreases n
  {
    if n > 0 {
      assert Bit(a, 0) <==> Bit(b, 0);
      forall k | 0 <= k < n - 1 ensures Bit(a / 2, k) <==> Bit(b / 2, k) {
        assert Bit(a, k + 1) <==> Bit(b, k + 1);
      }
      BitsDetermineMask(a / 2, b / 2, n - 1);
    }
  }
}
