/** Bitwise `|` and `&` on unsigned integers, and when they are plain arithmetic. */
module BitOps {
  import opened Binary

  function Or(a: nat, b: nat): nat {
    if a == 0 then b else if b == 0 then a
    else (if a % 2 == 1 || b % 2 == 1 then 1 else 0) + 2 * Or(a / 2, b / 2)
  }

  function And(a: nat, b: nat): nat {
    if a == 0 || b == 0 then 0
    else (if a % 2 == 1 && b % 2 == 1 then 1 else 0) + 2 * And(a / 2, b / 2)
  }

  /** Numbers with no bit in common are or-ed by adding them. */
  lemma {:induction false} OrDisjoint(low: nat, high: nat, k: nat)
    requires low < Pow2(k)
    ensures Or(low, high * Pow2(k)) == low + high * Pow2(k)
  {
    if k == 0 {
    } else if low != 0 && high != 0 {
      OrDisjoint(low / 2, high, k - 1);
      HalfOfShift(high, k);
    }
  }

  lemma HalfOfShift(high: nat, k: nat)
    requires k > 0
    ensures high * Pow2(k) == 2 * (high * Pow2(k - 1))
  {}

  lemma MaskHalves(k: nat)
    requires k > 0
    ensures (Pow2(k) - 1) % 2 == 1 && (Pow2(k) - 1) / 2 == Pow2(k - 1) - 1
  {}

  /** Masking with `2^k - 1` keeps the remainder modulo `2^k`. */
  lemma {:induction false} AndMask(a: nat, k: nat)
    ensures And(a, Pow2(k) - 1) == a % Pow2(k)
  {
    hide Pow2;
    if k == 0 {
      PowZero();
    } else if a > 0 {
      MaskHalves(k);
      AndMask(a / 2, k - 1);
      ModHalves(a, k);
    } else {
      RemainderUnique(0, 0, 0, Pow2(k));
    }
  }

  lemma PowZero()
    ensures Pow2(0) == 1
  {}

  lemma DoubleSplit(a: nat, q: nat, r: nat, p: nat)
    requires a / 2 == q * p + r
    ensures a == q * (2 * p) + (a % 2 + 2 * r)
  {
    assert q * (2 * p) == 2 * (q * p);
  }

  lemma ModHalves(a: nat, k: nat)
    requires k > 0
    ensures a % Pow2(k) == a % 2 + 2 * ((a / 2) % Pow2(k - 1))
  {
    var p, h := Pow2(k - 1), a / 2;
    assert Pow2(k) == 2 * p;
    hide Pow2;
    assert h == (h / p) * p + h % p;
    DoubleSplit(a, h / p, h % p, p);
    RemainderUnique(a, h / p, a % 2 + 2 * (h % p), 2 * p);
  }

  /** The quotient and remainder of a division are unique. */
  lemma RemainderUnique(a: nat, q: nat, r: nat, p: nat)
    requires a == q * p + r && r < p
    ensures a / p == q && a % p == r
  {
    DivSplits(a, p);
    assert (q + 1) * p == q * p + p;
    QuotientUnique(a, q, a / p, p);
    assert a == (a / p) * p + a % p;
  }
}
