/**
 Powers of two, right shifts and row widths: the index arithmetic of a binary tree.

 `Shr(x, k)` is `x >> k` on an unsigned machine integer, and `HalvesUp(n, k)` is
 `ceil(n / 2^k)`, the number of stored nodes in row `k` of a tree with `n` leaves.
 */
module Binary {

  function Pow2(n: nat): (r: nat)
    ensures r > 0
  {
    if n == 0 then 1 else 2 * Pow2(n - 1)
  }

  function Shr(x: nat, k: nat): nat {
    if k == 0 then x else Shr(x, k - 1) / 2
  }

  /** Bit `k` of `x`. */
  predicate Bit(x: nat, k: nat) {
    Shr(x, k) % 2 == 1
  }

  function HalvesUp(n: nat, k: nat): nat {
    if k == 0 then n else (HalvesUp(n, k - 1) + 1) / 2
  }

  lemma {:induction false} Pow2Add(a: nat, b: nat)
    ensures Pow2(a + b) == Pow2(a) * Pow2(b)
  {
    if b > 0 {
      Pow2Add(a, b - 1);
      assert Pow2(a + b) == 2 * Pow2(a + b - 1);
    }
  }

  lemma {:induction false} Pow2Monotone(a: nat, b: nat)
    requires a <= b
    ensures Pow2(a) <= Pow2(b)
  {
    if a < b {
      Pow2Monotone(a, b - 1);
    }
  }

  lemma MulMonotone(a: int, b: int, p: nat)
    requires a <= b
    ensures a * p <= b * p
  {}

  lemma MulAssociates(a: int, b: int, c: int)
    ensures (a * b) * c == a * (b * c)
  {}

  lemma MulDistributes(a: int, b: int, c: int)
    ensures (a + b) * c == a * c + b * c
  {}

  lemma HalveBounds(x: nat, s: nat, q: nat, p: nat)
    requires 2 * q <= s <= 2 * q + 1
    requires s * p <= x < (s + 1) * p
    ensures q * (2 * p) <= x < (q + 1) * (2 * p)
  {
    MulMonotone(2 * q, s, p);
    MulMonotone(s + 1, 2 * q + 2, p);
    assert (2 * q) * p == q * (2 * p);
    assert (2 * q + 2) * p == (q + 1) * (2 * p);
  }

  /** Shifting drops exactly the low `k` bits: the remainder is below `2^k`. */
  lemma {:induction false} ShrSplits(x: nat, k: nat)
    ensures Shr(x, k) * Pow2(k) <= x < (Shr(x, k) + 1) * Pow2(k)
  {
    if k > 0 {
      ShrSplits(x, k - 1);
      HalveBounds(x, Shr(x, k - 1), Shr(x, k), Pow2(k - 1));
    }
  }

  lemma QuotientUnique(x: int, q: int, s: int, p: nat)
    requires q * p <= x < (q + 1) * p
    requires s * p <= x < (s + 1) * p
    ensures q == s
  {
    if s < q {
      MulMonotone(s + 1, q, p);
    } else if q < s {
      MulMonotone(q + 1, s, p);
    }
  }

  lemma DivSplits(x: nat, p: nat)
    requires p > 0
    ensures (x / p) * p <= x < (x / p + 1) * p
  {
    assert x == (x / p) * p + x % p;
    assert (x / p + 1) * p == (x / p) * p + p;
  }

  lemma ShrIsDiv(x: nat, k: nat)
    ensures Shr(x, k) == x / Pow2(k)
  {
    ShrSplits(x, k);
    DivSplits(x, Pow2(k));
    QuotientUnique(x, Shr(x, k), x / Pow2(k), Pow2(k));
  }

  lemma {:induction false} ShrShr(x: nat, a: nat, b: nat)
    ensures Shr(Shr(x, a), b) == Shr(x, a + b)
  {
    if b > 0 {
      ShrShr(x, a, b - 1);
    }
  }

  /** A number below `2^k` shifts to zero, and no other does. */
  lemma ShrZero(x: nat, k: nat)
    ensures Shr(x, k) == 0 <==> x < Pow2(k)
  {
    ShrSplits(x, k);
    if Shr(x, k) > 0 {
      MulMonotone(1, Shr(x, k), Pow2(k));
    }
  }

  lemma {:induction false} ShrMonotone(x: nat, y: nat, k: nat)
    requires x <= y
    ensures Shr(x, k) <= Shr(y, k)
  {
    if k > 0 {
      ShrMonotone(x, y, k - 1);
    }
  }

  /** The row over `n + 1` leaves ends at the ancestor of leaf `n`. */
  lemma {:induction false} HalvesUpSucc(n: nat, k: nat)
    ensures HalvesUp(n + 1, k) == Shr(n, k) + 1
  {
    if k > 0 {
      HalvesUpSucc(n, k - 1);
    }
  }

  lemma {:induction false} HalvesUpOfZero(k: nat)
    ensures HalvesUp(0, k) == 0
  {
    if k > 0 {
      HalvesUpOfZero(k - 1);
    }
  }

  /** The ancestor of the next free leaf is at or just past the end of its row. */
  lemma HalvesUpBounds(n: nat, k: nat)
    ensures Shr(n, k) <= HalvesUp(n, k) <= Shr(n, k) + 1
    ensures n > 0 ==> HalvesUp(n, k) > 0
  {
    if n == 0 {
      HalvesUpOfZero(k);
    } else {
      HalvesUpSucc(n - 1, k);
      ShrMonotone(n - 1, n, k);
      ShrSuccStep(n - 1, k);
    }
  }

  lemma {:induction false} ShrSuccStep(n: nat, k: nat)
    ensures Shr(n + 1, k) <= Shr(n, k) + 1
  {
    if k > 0 {
      ShrSuccStep(n, k - 1);
    }
  }

  /** At most `2^d` leaves leave at most one node in the top row. */
  lemma HalvesUpTop(n: nat, d: nat)
    requires n <= Pow2(d)
    ensures HalvesUp(n, d) == if n == 0 then 0 else 1
  {
    if n == 0 {
      HalvesUpOfZero(d);
    } else {
      HalvesUpSucc(n - 1, d);
      ShrZero(n - 1, d);
    }
  }

  lemma PowersOfTwo()
    ensures Pow2(16) == 0x1_0000 && Pow2(31) == 0x8000_0000 && Pow2(32) == 0x1_0000_0000
  {
    assert Pow2(6) == 64;
    assert Pow2(8) == 256;
    Pow2Add(8, 8);
    Pow2Add(16, 16);
    assert Pow2(32) == 2 * Pow2(31);
  }

  lemma Pow2Succ(k: nat)
    ensures Pow2(k + 1) == 2 * Pow2(k)
  {}

  /** `ceil(log2 x)`. */
  function CeilLog2(x: nat): nat {
    if x <= 1 then 0 else 1 + CeilLog2((x + 1) / 2)
  }

  lemma {:induction false} CeilLog2Covers(x: nat)
    ensures x <= Pow2(CeilLog2(x))
  {
    if x > 1 {
      CeilLog2Covers((x + 1) / 2);
    }
  }

  /** The least power of two at or above `x`, for `x` in the upper half below `2^(k + 1)`. */
  lemma {:induction false} CeilLog2Exact(x: nat, k: nat)
    requires Pow2(k) < x <= Pow2(k + 1)
    ensures CeilLog2(x) == k + 1
  {
    if k > 0 {
      CeilLog2Exact((x + 1) / 2, k - 1);
    } else {
      assert x == 2 && CeilLog2(2) == 1 + CeilLog2(1);
    }
  }
}
