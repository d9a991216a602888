// The bit operations of src/wintun/ipset.rs, written as arithmetic on naturals:
// `x & !((1 << k) - 1)`, `trailing_ones` and `trailing_zeros`, and the one fact
// about aligned addresses that everything else rests on.
module Bits {
  import opened Common

  function Pow2(k: nat): (p: nat)
    ensures p >= 1
  {
    if k == 0 then 1 else 2 * Pow2(k - 1)
  }

  lemma Pow2Word()
    ensures Pow2(32) == WORD
  {
    assert Pow2(10) == 0x400 && Pow2(20) == 0x10_0000 && Pow2(30) == 0x4000_0000;
  }

  // The k low bits of x are clear.
  predicate Aligned(x: nat, k: nat)
  {
    k == 0 || (x % 2 == 0 && Aligned(x / 2, k - 1))
  }

  // x & !((1 << k) - 1)
  function ClearLow(x: nat, k: nat): nat
  {
    if k == 0 then x else 2 * ClearLow(x / 2, k - 1)
  }

  // Number of trailing ones / zeros of a `width`-bit word.
  function TrailingOnes(x: nat, width: nat): nat
  {
    if width == 0 || x % 2 == 0 then 0 else 1 + TrailingOnes(x / 2, width - 1)
  }

  function TrailingZeros(x: nat, width: nat): nat
  {
    if width == 0 || x % 2 == 1 then 0 else 1 + TrailingZeros(x / 2, width - 1)
  }

  lemma {:induction false} ClearLowAligned(x: nat, k: nat)
    ensures Aligned(ClearLow(x, k), k)
    ensures ClearLow(x, k) <= x < ClearLow(x, k) + Pow2(k)
  {
    if k > 0 { ClearLowAligned(x / 2, k - 1); }
  }

  // Clearing no bits of an aligned number changes nothing.
  lemma {:induction false} AlignedIsClear(x: nat, k: nat)
    requires Aligned(x, k)
    ensures ClearLow(x, k) == x
  {
    if k > 0 { AlignedIsClear(x / 2, k - 1); }
  }

  // Two aligned numbers are equal or at least one block apart.
  lemma {:induction false} AlignedApart(x: nat, y: nat, k: nat)
    requires Aligned(x, k) && Aligned(y, k) && x < y
    ensures x + Pow2(k) <= y
  {
    if k > 0 { AlignedApart(x / 2, y / 2, k - 1); }
  }

  lemma AlignedApartIfLess(x: nat, y: nat, k: nat)
    requires Aligned(x, k) && Aligned(y, k)
    ensures x < y ==> x + Pow2(k) <= y
  {
    if x < y { AlignedApart(x, y, k); }
  }

  lemma Doubled(q: nat, k: nat)
    requires k > 0
    ensures q * Pow2(k) == 2 * (q * Pow2(k - 1))
  {
    Twice(q, Pow2(k - 1));
  }

  lemma Twice(q: nat, p: nat)
    ensures q * (2 * p) == 2 * (q * p)
  {}

  // Aligned means divisible.
  lemma {:induction false} AlignedIsDivisible(x: nat, k: nat)
    ensures Aligned(x, k) <==> exists q: nat :: x == q * Pow2(k)
  {
    if k == 0 {
      var q: nat := x;
      assert Pow2(k) == 1 && q * Pow2(k) == q * 1 == x;
    } else {
      AlignedIsDivisible(x / 2, k - 1);
      if Aligned(x, k) {
        var q: nat :| x / 2 == q * Pow2(k - 1);
        Doubled(q, k);
        assert x == q * Pow2(k);
      }
      if q: nat :| x == q * Pow2(k) {
        Doubled(q, k);
        assert x / 2 == q * Pow2(k - 1);
      }
    }
  }

  lemma {:induction false} AlignedWeaken(x: nat, k: nat, j: nat)
    requires Aligned(x, k) && j <= k
    ensures Aligned(x, j)
  {
    if j > 0 { AlignedWeaken(x / 2, k - 1, j - 1); }
  }

  lemma {:induction false} AlignedShift(x: nat, k: nat, j: nat)
    requires Aligned(x, j) && j <= k
    ensures Aligned(x + Pow2(k), j)
    ensures x >= Pow2(k) ==> Aligned(x - Pow2(k), j)
  {
    if j > 0 {
      AlignedShift(x / 2, k - 1, j - 1);
      assert (x + Pow2(k)) / 2 == x / 2 + Pow2(k - 1);
      assert x >= Pow2(k) ==> (x - Pow2(k)) / 2 == x / 2 - Pow2(k - 1);
    }
  }

  lemma {:induction false} Pow2Monotone(j: nat, k: nat)
    requires j <= k
    ensures Pow2(j) <= Pow2(k)
    ensures j < k ==> 2 * Pow2(j) <= Pow2(k)
  {
    if j < k { Pow2Monotone(j, k - 1); }
  }

  // With s trailing ones, [x with the s low bits clear, x] is an aligned block,
  // and the next bit up is clear as well.
  lemma {:induction false} TrailingOnesBlock(x: nat, width: nat)
    requires x < Pow2(width)
    ensures var s := TrailingOnes(x, width);
            && s <= width
            && ClearLow(x, s) + Pow2(s) == x + 1
            && Aligned(ClearLow(x, s), s)
            && (s == width <==> x + 1 == Pow2(width))
            && (s < width ==> Aligned(ClearLow(x, s), s + 1))
  {
    if width > 0 && x % 2 == 1 {
      TrailingOnesBlock(x / 2, width - 1);
      var t := TrailingOnes(x / 2, width - 1);
      assert ClearLow(x, t + 1) == 2 * ClearLow(x / 2, t) && Pow2(t + 1) == 2 * Pow2(t);
      assert 2 * ClearLow(x / 2, t) / 2 == ClearLow(x / 2, t);
    }
  }

  // The aligned block of size 2^k around x is unique.
  lemma ClearLowUnique(x: nat, y: nat, k: nat)
    requires Aligned(y, k) && y <= x < y + Pow2(k)
    ensures ClearLow(x, k) == y
  {
    var z := ClearLow(x, k);
    ClearLowAligned(x, k);
    if y < z { AlignedApart(y, z, k); }
    if z < y { AlignedApart(z, y, k); }
  }

  // If x + 1 is aligned to 2^k then x ends in at least k ones.
  lemma {:induction false} TrailingOnesAtLeast(x: nat, width: nat, k: nat)
    requires Aligned(x + 1, k) && k <= width
    ensures TrailingOnes(x, width) >= k
  {
    if k > 0 {
      assert (x + 1) / 2 == x / 2 + 1;
      TrailingOnesAtLeast(x / 2, width - 1, k - 1);
    }
  }

  // With s trailing zeros, x is aligned to 2^s but not to 2^(s+1).
  lemma {:induction false} TrailingZerosBlock(x: nat, width: nat)
    requires 0 < x < Pow2(width)
    ensures var s := TrailingZeros(x, width);
            && s < width
            && Aligned(x, s)
            && Pow2(s) <= x
            && !Aligned(x, s + 1)
            && Aligned(x - Pow2(s), s + 1)
  {
    if width > 0 && x % 2 == 0 {
      TrailingZerosBlock(x / 2, width - 1);
      var s := TrailingZeros(x, width);
      assert (x - Pow2(s)) / 2 == x / 2 - Pow2(s - 1);
    }
  }

  lemma {:induction false} TrailingZerosAtLeast(x: nat, width: nat, k: nat)
    requires Aligned(x, k) && k <= width
    ensures TrailingZeros(x, width) >= k
  {
    if k > 0 { TrailingZerosAtLeast(x / 2, width - 1, k - 1); }
  }
}
