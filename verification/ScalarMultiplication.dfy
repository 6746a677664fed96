/**
 The two double-and-add ladders: both compute the scalar multiple, for every scalar they accept.
 */
module ScalarMultiplication {
  import opened Binary
  import opened Bytes
  import opened AbelianGroup
  import opened LittleEndianBytes

  /** One bit of the scalar: `s * a == (s / 2) * (a + a)`, plus `a` when the bit is set. */
  lemma HalfScalar(s: nat, a: G)
    requires Abelian()
    ensures Times(s, a) == if s % 2 == 1 then Add(Times(s / 2, Add(a, a)), a) else Times(s / 2, Add(a, a))
  {
    hide Abelian;
    TimesOfSum(s / 2, a, a);
    TimesSum(s / 2, s / 2, a);
    TimesNext(s / 2 + s / 2, a);
    hide Times;
    assert s == s / 2 + s / 2 + s % 2;
  }

  /** The number of significant bits. */
  function BitLength(e: nat): nat {
    if e == 0 then 0 else 1 + BitLength(e / 2)
  }

  lemma {:induction false} BitLengthBounds(e: nat)
    ensures e < Pow2(BitLength(e))
  {
    if e > 0 {
      BitLengthBounds(e / 2);
    }
  }

  /** `mul_point_escalar`: low bit first, for a scalar of any size. */
  method MulPointEscalar(base: G, e: nat) returns (product: G)
    requires Abelian()
    ensures product == Times(e, base)
  {
    hide Abelian, Times;
    product := IDENTITY;
    var exp := base;
    AddUnit(Times(e, base));
    for i := 0 to BitLength(e)
      invariant Add(product, Times(Shr(e, i), exp)) == Times(e, base)
    {
      HalfScalar(Shr(e, i), exp);
      if Bit(e, i) {
        AddComm(Times(Shr(e, i + 1), Add(exp, exp)), exp);
        AddAssoc(product, exp, Times(Shr(e, i + 1), Add(exp, exp)));
        product := Add(product, exp);
      }
      exp := Add(exp, exp);
    }
    BitLengthBounds(e);
    ShrZero(e, BitLength(e));
    TimesSmall(exp);
    AddUnit(product);
  }

  /** `base_mul`: all 256 bits of a 32-byte scalar, high bit first, selecting each sum after computing it. */
  method BaseMul(bytes: seq<Byte>, base: G) returns (point: G)
    requires Abelian() && |bytes| == 32
    ensures point == Times(LittleEndianValue(bytes), base)
  {
    hide Abelian, Times, Pow2, LittleEndianValue;
    var scalar := LittleEndianValue(bytes);
    LittleEndianBound(bytes);
    ShrZero(scalar, 256);
    point := IDENTITY;
    TimesSmall(base);
    for bit := 256 downto 0
      invariant point == Times(Shr(scalar, bit), base)
    {
      var high := Shr(scalar, bit + 1);
      TimesSum(high, high, base);
      TimesNext(high + high, base);
      var doubled := Add(point, point);
      var added := Add(doubled, base);
      point := if Bit(scalar, bit) then added else doubled;
    }
  }
}
