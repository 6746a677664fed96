/**
 Signed-digit recoding of a scalar: the random-access digit equals the sequential one, every
 digit is balanced, and the digits add up to the scalar.
 */
module SignedDigits {
  import opened Binary
  import opened BitOps
  import opened ScalarWindows
  import NodeHash

  /** The BN254 scalar field modulus, and the number of its bits. */
  const SCALAR_MODULUS: nat := NodeHash.MODULUS
  const MODULUS_BITS: nat := 254

  /** The unsigned radix-`2^width` digit at `window`. */
  function Raw(n: nat, width: nat, window: nat): nat {
    Bits(n, window * width, width)
  }

  function Radix(width: nat): nat {
    Pow2(width)
  }

  function Midpoint(width: nat): nat
    requires width > 0
  {
    Pow2(width - 1)
  }

  /** The carry entering `window` when digits are balanced from the bottom up. */
  function Carry(n: nat, width: nat, window: nat): (carry: nat)
    requires width > 0
    ensures carry <= 1
  {
    if window == 0 then 0
    else if Raw(n, width, window - 1) + Carry(n, width, window - 1) >= Midpoint(width) then 1
    else 0
  }

  /** The balanced digit: at or above the midpoint a radix is borrowed from the next window. */
  function Digit(n: nat, width: nat, window: nat): int
    requires width > 0
  {
    var unsigned := Raw(n, width, window) + Carry(n, width, window);
    if unsigned >= Midpoint(width) then unsigned - Radix(width) else unsigned
  }

  /** `for_each_signed_window`: one pass, carrying upwards. */
  method SignedWindows(limbs: Limbs, width: nat, windows: nat) returns (digits: seq<int>, carry: nat)
    requires AreLimbs(limbs) && 3 <= width <= 16
    ensures |digits| == windows
    ensures forall k | 0 <= k < windows :: digits[k] == Digit(Value(limbs), width, k)
    ensures carry == Carry(Value(limbs), width, windows)
  {
    hide Bits, ScalarWindow, Value, Pow2;
    digits, carry := [], 0;
    for window := 0 to windows
      invariant |digits| == window && carry == Carry(Value(limbs), width, window)
      invariant forall k | 0 <= k < window :: digits[k] == Digit(Value(limbs), width, k)
    {
      WindowIsBits(limbs, window * width, width);
      var unsigned := ScalarWindow(limbs, window * width, width) + carry;
      if unsigned >= Midpoint(width) {
        carry := 1;
        digits := digits + [unsigned - Radix(width)];
      } else {
        carry := 0;
        digits := digits + [unsigned];
      }
    }
  }

  /** Only the raw digit `midpoint - 1` lets a carry through. */
  lemma CarryStep(n: nat, width: nat, window: nat)
    requires width > 0
    ensures Raw(n, width, window) != Midpoint(width) - 1 ==>
      Carry(n, width, window + 1) == if Raw(n, width, window) >= Midpoint(width) then 1 else 0
    ensures Raw(n, width, window) == Midpoint(width) - 1 ==> Carry(n, width, window + 1) == Carry(n, width, window)
  {
    hide Raw, Midpoint;
  }

  /** `signed_window_digit`: the digit of one window, found by walking back to the last decided carry. */
  method SignedWindowDigit(limbs: Limbs, width: nat, window: nat) returns (digit: int)
    requires AreLimbs(limbs) && 3 <= width <= 16
    ensures digit == Digit(Value(limbs), width, window)
  {
    hide Bits, ScalarWindow, Value, Pow2;
    var radix, midpoint := Radix(width), Midpoint(width);
    var carry := 0;
    if window != 0 {
      var prior: nat := window - 1;
      while true
        invariant 0 <= prior < window && carry == 0
        invariant Carry(Value(limbs), width, window) == Carry(Value(limbs), width, prior + 1)
        decreases prior
      {
        WindowIsBits(limbs, prior * width, width);
        CarryStep(Value(limbs), width, prior);
        var raw := ScalarWindow(limbs, prior * width, width);
        if raw != midpoint - 1 {
          carry := if raw >= midpoint then 1 else 0;
          break;
        }
        if prior == 0 {
          break;
        }
        prior := prior - 1;
      }
    }
    WindowIsBits(limbs, window * width, width);
    var unsigned := ScalarWindow(limbs, window * width, width) + carry;
    digit := if unsigned >= midpoint then unsigned - radix else unsigned;
  }

  lemma RawBound(n: nat, width: nat, window: nat)
    ensures Raw(n, width, window) < Radix(width)
  {}

  /** Every digit lies in `[-2^(width-1), 2^(width-1))`, and so fits `i16` for widths up to 16. */
  lemma DigitRange(n: nat, width: nat, window: nat)
    requires 0 < width <= 16
    ensures 0 <= Digit(n, width, window) + Midpoint(width) < Radix(width)
    ensures -0x8000 <= Digit(n, width, window) <= 0x7fff
  {
    RawBound(n, width, window);
    assert Radix(width) == 2 * Midpoint(width);
    Pow2Monotone(width - 1, 15);
    assert Pow2(15) == 0x8000 by { PowersOfTwo(); assert Pow2(16) == 2 * Pow2(15); }
    hide Raw, Carry, Pow2;
  }

  /** `sum over k < windows of Digit(k) * 2^(width * k)`. */
  function DigitSum(n: nat, width: nat, windows: nat): int
    requires width > 0
  {
    if windows == 0 then 0
    else DigitSum(n, width, windows - 1) + Digit(n, width, windows - 1) * Pow2((windows - 1) * width)
  }

  lemma Recompose(t: nat, u: nat, r: nat, low: nat, high: nat)
    requires r < low && u < high
    ensures (t * high + u) * low + r == t * (low * high) + (r + u * low)
    ensures r + u * low < low * high
    ensures 0 <= u * low
  {
    MulDistributes(t * high, u, low);
    MulAssociates(t, high, low);
    MulMonotone(u + 1, high, low);
    MulDistributes(u, 1, low);
  }

  lemma RemainderSplits(n: nat, low: nat, high: nat)
    requires low > 0 && high > 0
    ensures n % (low * high) == n % low + ((n / low) % high) * low
  {
    var q := n / low;
    DivSplits(n, low);
    DivSplits(q, high);
    Recompose(q / high, q % high, n % low, low, high);
    RemainderUnique(n, q / high, n % low + (q % high) * low, low * high);
  }

  /** The low bits of `n`, one window at a time. */
  lemma LowBits(n: nat, width: nat, window: nat)
    ensures n % Pow2(window * width + width) == n % Pow2(window * width) + Raw(n, width, window) * Pow2(window * width)
  {
    hide Pow2, Shr;
    Pow2Add(window * width, width);
    ShrIsDiv(n, window * width);
    RemainderSplits(n, Pow2(window * width), Pow2(width));
  }

  /** Up to any window the digits and the pending carry represent the low bits exactly. */
  lemma {:induction false} PartialSum(n: nat, width: nat, windows: nat)
    requires width > 0
    ensures DigitSum(n, width, windows) + Carry(n, width, windows) * Pow2(windows * width) == n % Pow2(windows * width)
  {
    if windows == 0 {
      assert Pow2(0 * width) == 1;
    } else {
      PartialSum(n, width, windows - 1);
      LowBits(n, width, windows - 1);
      Pow2Add((windows - 1) * width, width);
      MulDistributes(windows - 1, 1, width);
      BorrowAndCarry(Digit(n, width, windows - 1), Raw(n, width, windows - 1), Carry(n, width, windows - 1),
                     Carry(n, width, windows), Radix(width), Pow2((windows - 1) * width));
    }
  }

  lemma BorrowAndCarry(digit: int, raw: nat, carryIn: nat, carryOut: nat, radix: nat, low: nat)
    requires digit == raw + carryIn - carryOut * radix
    ensures digit * low + carryOut * (low * radix) == raw * low + carryIn * low
  {
    assert (carryOut * radix) * low == carryOut * (low * radix);
    assert digit * low == raw * low + carryIn * low - (carryOut * radix) * low;
  }

  /** `MODULUS_BIT_SIZE.div_ceil(width)`. */
  function WindowCount(width: nat): nat
    requires width > 0
  {
    (MODULUS_BITS + width - 1) / width
  }

  lemma ModulusBounds()
    ensures SCALAR_MODULUS < 7 * Pow2(251)
    ensures SCALAR_MODULUS < 25 * Pow2(249)
    ensures SCALAR_MODULUS < Pow2(254)
  {
    PowersOfTwo();
    EightBits();
    hide Pow2;
    Pow2Add(32, 32);
    Pow2Add(64, 64);
    Pow2Add(128, 64);
    Pow2Add(192, 32);
    Pow2Add(224, 16);
    Pow2Add(240, 8);
    Pow2Succ(248);
    Pow2Succ(249);
    Pow2Succ(250);
    Pow2Succ(251);
    Pow2Succ(252);
    Pow2Succ(253);
  }

  lemma EightBits()
    ensures Pow2(8) == 256
  {
    assert Pow2(6) == 64;
  }

  /** The top window's raw digit, when the padded windows leave `bits` bits of it. */
  lemma TopRaw(n: nat, width: nat, low: nat, bits: nat)
    requires n < SCALAR_MODULUS && low + bits == MODULUS_BITS && 0 < bits < width && width <= 16
    ensures Shr(n, low) < Pow2(bits) && Shr(n, low) % Pow2(width) == Shr(n, low)
    ensures bits >= 3 ==> Shr(n, low) < 7 * Pow2(bits - 3)
  {
    ModulusBounds();
    ShrBound(n, low, 254);
    Pow2Monotone(bits, width);
    RemainderUnique(Shr(n, low), 0, Shr(n, low), Pow2(width));
    if bits >= 3 {
      Pow2Add(bits - 3, low);
      ShrSplits(n, low);
      hide Pow2, Shr;
      MulAssociates(7, Pow2(bits - 3), Pow2(low));
      if Shr(n, low) >= 7 * Pow2(bits - 3) {
        MulMonotone(7 * Pow2(bits - 3), Shr(n, low), Pow2(low));
      }
    }
  }

  lemma RoomForCarry(value: nat, bits: nat, width: nat)
    requires 0 < bits < width && width >= 4 && value < Pow2(bits)
    requires bits >= 3 ==> value < 7 * Pow2(bits - 3)
    ensures value + 1 < Pow2(width - 1)
  {
    hide Pow2;
    if bits == width - 1 {
      Pow2Succ(bits - 3);
      Pow2Succ(bits - 2);
      Pow2Succ(bits - 1);
    } else {
      Pow2Succ(bits);
      Pow2Monotone(bits + 1, width - 1);
    }
  }

  /** The last window absorbs the carry for every scalar below the modulus, at every allowed width. */
  lemma FinalCarry(n: nat, width: nat)
    requires n < SCALAR_MODULUS && 3 <= width <= 16
    ensures Carry(n, width, WindowCount(width)) == 0
  {
    var top := WindowCount(width) - 1;
    TopWindow(width);
    if width == 3 {
      ThreeBitTop(n);
    } else {
      hide Pow2, Shr, WindowCount;
      var low, bits := top * width, MODULUS_BITS - top * width;
      TopRaw(n, width, low, bits);
      RoomForCarry(Shr(n, low), bits, width);
    }
  }

  lemma TopWindow(width: nat)
    requires 3 <= width <= 16
    ensures WindowCount(width) > 0
    ensures 0 < MODULUS_BITS - (WindowCount(width) - 1) * width < width
  {}

  /**
   At width 3 the top raw digit can be the ambiguous `midpoint - 1`; the modulus then forces
   the digit below it to zero, so no carry arrives.
   */
  lemma ThreeBitTop(n: nat)
    requires n < SCALAR_MODULUS
    ensures Carry(n, 3, 85) == 0
  {
    TopThreeBits(n);
    SmallPowers();
    hide Pow2, Shr;
    CarryStep(n, 3, 83);
    CarryStep(n, 3, 84);
  }

  lemma SmallPowers()
    ensures Midpoint(3) == 4 && Pow2(3) == 8
  {}

  lemma ShrThree(n: nat)
    ensures Shr(n, 3) == n / 8
  {
    SmallPowers();
    ShrIsDiv(n, 3);
  }

  /** Below the modulus, bits 249 and up read at most 24: either the top digit is below 3, or the next is 0. */
  lemma TopThreeBits(n: nat)
    requires n < SCALAR_MODULUS
    ensures Raw(n, 3, 84) <= 3
    ensures Raw(n, 3, 84) == 3 ==> Raw(n, 3, 83) == 0
  {
    SmallPowers();
    ModulusBounds();
    hide Pow2, Shr;
    ShrSplits(n, 249);
    var top := Shr(n, 249);
    if top >= 25 {
      MulMonotone(25, top, Pow2(249));
    }
    ShrShr(n, 249, 3);
    ShrThree(top);
    assert Raw(n, 3, 83) == top % 8;
    assert Raw(n, 3, 84) == (top / 8) % 8;
  }

  /** The digits of a scalar below the modulus add up to it exactly, as integers. */
  lemma DigitsReconstruct(n: nat, width: nat)
    requires n < SCALAR_MODULUS && 3 <= width <= 16
    ensures DigitSum(n, width, WindowCount(width)) == n
  {
    var windows := WindowCount(width);
    FinalCarry(n, width);
    PartialSum(n, width, windows);
    TopWindow(width);
    assert windows * width == (windows - 1) * width + width;
    ModulusBounds();
    Pow2Monotone(254, windows * width);
    RemainderUnique(n, 0, n, Pow2(windows * width));
  }
}
