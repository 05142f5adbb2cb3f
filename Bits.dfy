/** Bit masks as non-negative integers: `BIT(x)` is `Pow2(x)` and a bit test
    halves the mask `k` times. Both the partial-update `change` word and the
    per-equalizer biquad masks are built by setting one bit at a time. */
module Bits {

  function Pow2(k: nat): (r: nat)
    ensures r >= 1
  {
    if k == 0 then 1 else 2 * Pow2(k - 1)
  }

  lemma Pow2Of16()
    ensures Pow2(16) == 0x1_0000
  {
    assert Pow2(2) == 4;
    assert Pow2(4) == 16;
    assert Pow2(6) == 64;
    assert Pow2(8) == 256;
    assert Pow2(10) == 1024;
    assert Pow2(12) == 4096;
    assert Pow2(14) == 16384;
  }

  /** Bit `k` of `m`. */
  predicate Bit(m: nat, k: nat)
  {
    if k == 0 then m % 2 == 1 else Bit(m / 2, k - 1)
  }

  lemma {:induction false} Pow2Monotone(j: nat, k: nat)
    requires j <= k
    ensures Pow2(j) <= Pow2(k)
  {
    if j < k {
      Pow2Monotone(j, k - 1);
    }
  }

  /** A mask below `2^j` has no bit at or above `j`. */
  lemma {:induction false} BitBelow(m: nat, j: nat, k: nat)
    requires m < Pow2(j) && j <= k
    ensures !Bit(m, k)
  {
    if k == 0 {
      assert m == 0;
    } else if j == 0 {
      assert m == 0;
      BitBelow(m / 2, 0, k - 1);
    } else {
      BitBelow(m / 2, j - 1, k - 1);
    }
  }

  /** Setting a clear bit `j` (`m |= BIT(j)`) adds `2^j`, sets exactly that
      bit and leaves every other bit as it was. */
  lemma {:induction false} BitSet(m: nat, j: nat, k: nat)
    requires !Bit(m, j)
    ensures Bit(m + Pow2(j), k) <==> (k == j || Bit(m, k))
  {
    if j == 0 {
      assert (m + 1) / 2 == m / 2;
    } else if k == 0 {
      assert (m + Pow2(j)) % 2 == m % 2;
    } else {
      assert (m + Pow2(j)) / 2 == m / 2 + Pow2(j - 1);
      BitSet(m / 2, j - 1, k - 1);
    }
  }

  /** Number of set bits among bits `0 .. c - 1` of `m`. */
  function Pop(m: nat, c: nat): (r: nat)
    ensures r <= c
  {
    if c == 0 then 0 else Pop(m, c - 1) + (if Bit(m, c - 1) then 1 else 0)
  }

  /** Bits at or above `c` do not change the count below `d`, when none of
      the bits between `c` and `d` is set. */
  lemma {:induction false} PopUpTo(m: nat, c: nat, d: nat)
    requires c <= d && forall k :: c <= k < d ==> !Bit(m, k)
    ensures Pop(m, d) == Pop(m, c)
    decreases d
  {
    if c < d {
      PopUpTo(m, c, d - 1);
    }
  }

  /** A mask with no set bit below `c` counts none; one with a set bit
      counts at least one. */
  lemma {:induction false} PopZero(m: nat, c: nat)
    ensures Pop(m, c) == 0 <==> forall k :: 0 <= k < c ==> !Bit(m, k)
    decreases c
  {
    if c > 0 {
      PopZero(m, c - 1);
      assert Pop(m, c) == Pop(m, c - 1) + (if Bit(m, c - 1) then 1 else 0);
    }
  }

  /** Masks with the same bits below `c` count the same. */
  lemma {:induction false} PopAgree(m1: nat, m2: nat, c: nat)
    requires forall k :: 0 <= k < c ==> (Bit(m1, k) <==> Bit(m2, k))
    ensures Pop(m1, c) == Pop(m2, c)
  {
    if c > 0 {
      PopAgree(m1, m2, c - 1);
    }
  }
}
