/** Windows of a 256-bit scalar held in four 64-bit limbs. */
module ScalarWindows {
  import opened Binary
  import opened BitOps

  /** `2^64`. */
  const WORD: nat := 0x1_0000_0000_0000_0000

  /** Little-endian limbs. */
  type Limbs = seq<nat>

  ghost predicate AreLimbs(limbs: Limbs) {
    forall i | 0 <= i < |limbs| :: limbs[i] < WORD
  }

  function Value(limbs: Limbs): nat {
    if limbs == [] then 0 else limbs[0] + WORD * Value(limbs[1..])
  }

  /** `words.get(i).copied().unwrap_or(0)`. */
  function Limb(limbs: Limbs, i: nat): nat {
    if i < |limbs| then limbs[i] else 0
  }

  /** `word << k` on 64 bits. */
  function ShlWord(word: nat, k: nat): nat {
    (word * Pow2(k)) % WORD
  }

  /** `scalar_window`: `width` bits from `startBit` up, across at most one limb boundary. */
  function ScalarWindow(limbs: Limbs, startBit: nat, width: nat): nat {
    var limb, shift := startBit / 64, startBit % 64;
    var low := Shr(Limb(limbs, limb), shift);
    var value := if shift != 0 && shift + width > 64
                 then Or(low, ShlWord(Limb(limbs, limb + 1), 64 - shift))
                 else low;
    And(value, Pow2(width) - 1)
  }

  /** The bits `startBit .. startBit + width` of the integer. */
  function Bits(n: nat, startBit: nat, width: nat): nat {
    Shr(n, startBit) % Pow2(width)
  }

  // ----- arithmetic -----

  lemma WordIsPower()
    ensures WORD == Pow2(64)
  {
    PowersOfTwo();
    Pow2Add(32, 32);
  }

  lemma WordSplits(k: nat)
    requires k <= 64
    ensures Pow2(64 - k) * Pow2(k) == WORD
  {
    hide Pow2;
    WordIsPower();
    Pow2Add(64 - k, k);
  }

  lemma ModOfSum(a: nat, b: nat, p: nat)
    requires p > 0
    ensures (a + b * p) % p == a % p
  {
    assert a == (a / p) * p + a % p;
    assert a + b * p == (a / p + b) * p + a % p by {
      assert (a / p + b) * p == (a / p) * p + b * p;
    }
    RemainderUnique(a + b * p, a / p + b, a % p, p);
  }

  /** Shifting a sum whose second part has the shifted bits clear. */
  lemma {:induction false} ShrOfSum(a: nat, b: nat, k: nat)
    ensures Shr(a + b * Pow2(k), k) == Shr(a, k) + b
  {
    hide Pow2, Shr;
    ShrSplits(a, k);
    ShrSplits(a + b * Pow2(k), k);
    var s, p := Shr(a, k), Pow2(k);
    MulDistributes(s, b, p);
    MulDistributes(s + b, 1, p);
    MulDistributes(s, 1, p);
    QuotientUnique(a + b * p, Shr(a + b * p, k), s + b, p);
  }

  lemma ShrBound(a: nat, k: nat, bits: nat)
    requires k <= bits && a < Pow2(bits)
    ensures Shr(a, k) < Pow2(bits - k)
  {
    ShrZero(a, bits);
    ShrShr(a, k, bits - k);
    ShrZero(Shr(a, k), bits - k);
  }

  // ----- the window is the integer's bits -----

  lemma ValueSplits(limbs: Limbs)
    requires limbs != []
    ensures Value(limbs) == limbs[0] + Value(limbs[1..]) * WORD
  {}

  lemma {:induction false} DropLimbs(limbs: Limbs, n: nat)
    requires AreLimbs(limbs)
    ensures Shr(Value(limbs), 64 * n) == if n <= |limbs| then Value(limbs[n..]) else 0
  {
    hide Pow2, Shr, Value;
    if n == 0 {
      assert limbs[0..] == limbs;
      ShrNothing(Value(limbs));
    } else if limbs == [] {
      NoLimbs();
      ShrZero(0, 64 * n);
    } else {
      var rest := limbs[1..];
      DropLimbs(rest, n - 1);
      ValueSplits(limbs);
      WordIsPower();
      ShrOfSum(limbs[0], Value(rest), 64);
      ShrZero(limbs[0], 64);
      ShrShr(Value(limbs), 64, 64 * (n - 1));
      assert n <= |limbs| ==> rest[n - 1..] == limbs[n..];
    }
  }

  lemma ShrNothing(n: nat)
    ensures Shr(n, 0) == n
  {}

  lemma NoLimbs()
    ensures Value([]) == 0
  {}

  /** The limbs above the one after `n`. */
  function Above(limbs: Limbs, n: nat): nat {
    if n + 2 <= |limbs| then Value(limbs[n + 2..]) else 0
  }

  function Stacked(a: nat, b: nat, rest: nat): nat {
    a + (b + rest * WORD) * WORD
  }

  /** From a limb boundary up, the integer is that limb, the next one, and higher bits. */
  lemma TwoLimbs(limbs: Limbs, n: nat)
    requires AreLimbs(limbs)
    ensures Shr(Value(limbs), 64 * n) == Stacked(Limb(limbs, n), Limb(limbs, n + 1), Above(limbs, n))
    ensures Limb(limbs, n) < WORD && Limb(limbs, n + 1) < WORD
  {
    hide Pow2, Shr, Value;
    DropLimbs(limbs, n);
    NoLimbs();
    if n < |limbs| {
      var tail := limbs[n..];
      ValueSplits(tail);
      if n + 1 < |limbs| {
        assert tail[1..] == limbs[n + 1..] && tail[1..][1..] == limbs[n + 2..];
        ValueSplits(tail[1..]);
      } else {
        assert tail[1..] == [];
      }
    } else if n == |limbs| {
      assert limbs[n..] == [];
    }
  }

  /** A multiple of `2^64`, as a multiple of a smaller power. */
  lemma Lift(n: nat, k: nat)
    requires k <= 64
    ensures n * WORD == (n * Pow2(64 - k)) * Pow2(k)
  {
    WordSplits(k);
    MulAssociates(n, Pow2(64 - k), Pow2(k));
  }

  lemma ShrStacked(a: nat, high: nat, shift: nat)
    requires shift <= 64
    ensures Shr(a + high * WORD, shift) == Shr(a, shift) + high * Pow2(64 - shift)
  {
    hide Pow2, Shr;
    Lift(high, shift);
    ShrOfSum(a, high * Pow2(64 - shift), shift);
  }

  lemma ModStacked(a: nat, high: nat, width: nat)
    requires width <= 64
    ensures (a + high * WORD) % Pow2(width) == a % Pow2(width)
  {
    hide Pow2;
    Lift(high, width);
    ModOfSum(a, high * Pow2(64 - width), Pow2(width));
  }

  /** Inside one limb. */
  lemma OneLimbWindow(a: nat, above: nat, shift: nat, width: nat)
    requires shift + width <= 64
    ensures Shr(a + above * WORD, shift) % Pow2(width) == Shr(a, shift) % Pow2(width)
  {
    hide Pow2, Shr;
    ShrStacked(a, above, shift);
    Pow2Add(64 - shift - width, width);
    MulAssociates(above, Pow2(64 - shift - width), Pow2(width));
    ModOfSum(Shr(a, shift), above * Pow2(64 - shift - width), Pow2(width));
  }

  /** Across a limb boundary. */
  lemma TwoLimbWindow(a: nat, b: nat, rest: nat, shift: nat, width: nat)
    requires 0 < shift < 64 < shift + width && width <= 64 && a < WORD && b < WORD
    ensures Shr(Stacked(a, b, rest), shift) % Pow2(width) == Or(Shr(a, shift), ShlWord(b, 64 - shift)) % Pow2(width)
  {
    hide Pow2, Shr, Or, ShlWord;
    WordIsPower();
    ShrBound(a, shift, 64);
    HighPart(b, 64 - shift, shift);
    OrDisjoint(Shr(a, shift), b % Pow2(shift), 64 - shift);
    ShrStacked(a, b + rest * WORD, shift);
    SplitHigh(b, rest, 64 - shift, shift);
    ModStacked(Shr(a, shift) + (b % Pow2(shift)) * Pow2(64 - shift), Lifted(b, rest, shift), width);
  }

  /** The part of the upper bits that lies past the 64-bit word. */
  function Lifted(b: nat, rest: nat, shift: nat): nat
    requires shift <= 64
  {
    Shr(b, shift) + rest * Pow2(64 - shift)
  }

  /** Multiplying a split number by `p`. */
  lemma SplitTimes(b: nat, p: nat, q: nat)
    requires q > 0
    ensures b * p == (b / q) * (p * q) + (b % q) * p
  {
    assert b == (b / q) * q + b % q;
    MulDistributes((b / q) * q, b % q, p);
    MulAssociates(b / q, q, p);
  }

  lemma ProductRemainder(b: nat, p: nat, q: nat, w: nat)
    requires p > 0 && q > 0 && p * q == w
    ensures (b * p) % w == (b % q) * p
  {
    SplitTimes(b, p, q);
    MulMonotone(b % q + 1, q, p);
    MulDistributes(b % q, 1, p);
    RemainderUnique(b * p, b / q, (b % q) * p, w);
  }

  /** Shifting left by `gap` in 64 bits drops all but the low `64 - gap` bits. */
  lemma HighPart(b: nat, gap: nat, shift: nat)
    requires gap + shift == 64
    ensures ShlWord(b, gap) == (b % Pow2(shift)) * Pow2(gap)
  {
    hide Pow2;
    WordSplits(shift);
    ProductRemainder(b, Pow2(gap), Pow2(shift), WORD);
  }

  lemma SplitHigh(b: nat, rest: nat, gap: nat, shift: nat)
    requires gap + shift == 64
    ensures (b + rest * WORD) * Pow2(gap) == (b % Pow2(shift)) * Pow2(gap) + Lifted(b, rest, shift) * WORD
  {
    WordSplits(shift);
    ShrIsDiv(b, shift);
    hide Pow2, Shr;
    var p := Pow2(gap);
    SplitTimes(b, p, Pow2(shift));
    MulDistributes(b, rest * WORD, p);
    MulDistributes(b / Pow2(shift), rest * p, WORD);
    MulAssociates(rest, WORD, p);
    MulAssociates(rest, p, WORD);
  }

  /** `scalar_window` reads the integer's bits, limb boundary or not, and zero past the top limb. */
  lemma WindowIsBits(limbs: Limbs, startBit: nat, width: nat)
    requires AreLimbs(limbs) && width <= 64
    ensures ScalarWindow(limbs, startBit, width) == Bits(Value(limbs), startBit, width)
  {
    hide Pow2, Shr, Or, And, Value, Limb, Above, ShlWord;
    var limb, shift := startBit / 64, startBit % 64;
    TwoLimbs(limbs, limb);
    var a, b, rest := Limb(limbs, limb), Limb(limbs, limb + 1), Above(limbs, limb);
    ShrShr(Value(limbs), 64 * limb, shift);
    AndMask(Shr(a, shift), width);
    AndMask(Or(Shr(a, shift), ShlWord(b, 64 - shift)), width);
    if shift != 0 && shift + width > 64 {
      TwoLimbWindow(a, b, rest, shift, width);
    } else {
      OneLimbWindow(a, b + rest * WORD, shift, width);
    }
  }
}
