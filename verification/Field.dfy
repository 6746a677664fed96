/**
 An arbitrary field. It is uninterpreted; its laws are the hypothesis `FieldLaws()`, each
 law wrapped in a predicate so that it is instantiated only where a proof asks for it.
 */
module Field {

  type F(==, 0, !new)

  const FZERO: F
  const FONE: F
  const FPLUS: (F, F) -> F
  const FMINUS: F -> F
  const FTIMES: (F, F) -> F
  const FINVERSE: F -> F

  function FAdd(a: F, b: F): F { FPLUS(a, b) }

  function FNeg(a: F): F { FMINUS(a) }

  function FMul(a: F, b: F): F { FTIMES(a, b) }

  function FInv(a: F): F { FINVERSE(a) }

  function FSub(a: F, b: F): F { FAdd(a, FNeg(b)) }

  ghost predicate AddAssociates(a: F, b: F, c: F) { FAdd(FAdd(a, b), c) == FAdd(a, FAdd(b, c)) }

  ghost predicate AddCommutes(a: F, b: F) { FAdd(a, b) == FAdd(b, a) }

  ghost predicate AddHasUnit(a: F) { FAdd(a, FZERO) == a }

  ghost predicate AddHasInverse(a: F) { FAdd(a, FNeg(a)) == FZERO }

  ghost predicate MulAssociates(a: F, b: F, c: F) { FMul(FMul(a, b), c) == FMul(a, FMul(b, c)) }

  ghost predicate MulCommutes(a: F, b: F) { FMul(a, b) == FMul(b, a) }

  ghost predicate MulHasUnit(a: F) { FMul(a, FONE) == a }

  ghost predicate MulHasInverse(a: F) { a != FZERO ==> FMul(a, FInv(a)) == FONE }

  ghost predicate Distributes(a: F, b: F, c: F) { FMul(a, FAdd(b, c)) == FAdd(FMul(a, b), FMul(a, c)) }

  ghost predicate FieldLaws() {
    && (forall a, b, c :: AddAssociates(a, b, c))
    && (forall a, b :: AddCommutes(a, b))
    && (forall a :: AddHasUnit(a))
    && (forall a :: AddHasInverse(a))
    && (forall a, b, c :: MulAssociates(a, b, c))
    && (forall a, b :: MulCommutes(a, b))
    && (forall a :: MulHasUnit(a))
    && (forall a :: MulHasInverse(a))
    && (forall a, b, c :: Distributes(a, b, c))
    && FONE != FZERO
  }

  lemma FAddAssoc(a: F, b: F, c: F)
    requires FieldLaws()
    ensures FAdd(FAdd(a, b), c) == FAdd(a, FAdd(b, c))
  {
    assert AddAssociates(a, b, c);
  }

  lemma FAddComm(a: F, b: F)
    requires FieldLaws()
    ensures FAdd(a, b) == FAdd(b, a)
  {
    assert AddCommutes(a, b);
  }

  lemma FAddZero(a: F)
    requires FieldLaws()
    ensures FAdd(a, FZERO) == a && FAdd(FZERO, a) == a
  {
    assert AddHasUnit(a) && AddCommutes(a, FZERO);
  }

  lemma FAddNeg(a: F)
    requires FieldLaws()
    ensures FAdd(a, FNeg(a)) == FZERO && FAdd(FNeg(a), a) == FZERO
  {
    assert AddHasInverse(a) && AddCommutes(a, FNeg(a));
  }

  lemma FMulAssoc(a: F, b: F, c: F)
    requires FieldLaws()
    ensures FMul(FMul(a, b), c) == FMul(a, FMul(b, c))
  {
    assert MulAssociates(a, b, c);
  }

  lemma FMulComm(a: F, b: F)
    requires FieldLaws()
    ensures FMul(a, b) == FMul(b, a)
  {
    assert MulCommutes(a, b);
  }

  lemma FMulOne(a: F)
    requires FieldLaws()
    ensures FMul(a, FONE) == a && FMul(FONE, a) == a
  {
    assert MulHasUnit(a) && MulCommutes(a, FONE);
  }

  lemma FMulInv(a: F)
    requires FieldLaws() && a != FZERO
    ensures FMul(a, FInv(a)) == FONE && FMul(FInv(a), a) == FONE
  {
    assert MulHasInverse(a) && MulCommutes(a, FInv(a));
  }

  lemma FDistrib(a: F, b: F, c: F)
    requires FieldLaws()
    ensures FMul(a, FAdd(b, c)) == FAdd(FMul(a, b), FMul(a, c))
    ensures FMul(FAdd(b, c), a) == FAdd(FMul(b, a), FMul(c, a))
  {
    assert Distributes(a, b, c) && MulCommutes(a, b) && MulCommutes(a, c) && MulCommutes(a, FAdd(b, c));
  }

  lemma FAddCancel(a: F, b: F, c: F)
    requires FieldLaws() && FAdd(a, c) == FAdd(b, c)
    ensures a == b
  {
    FAddAssoc(a, c, FNeg(c));
    FAddAssoc(b, c, FNeg(c));
    FAddNeg(c);
    FAddZero(a);
    FAddZero(b);
  }

  lemma FMulZero(a: F)
    requires FieldLaws()
    ensures FMul(a, FZERO) == FZERO && FMul(FZERO, a) == FZERO
  {
    FDistrib(a, FZERO, FZERO);
    FAddZero(FZERO);
    FAddZero(FMul(a, FZERO));
    FAddCancel(FMul(a, FZERO), FZERO, FMul(a, FZERO));
    FMulComm(a, FZERO);
  }

  /** A field has no zero divisors. */
  lemma FNonZeroProduct(a: F, b: F)
    requires FieldLaws() && a != FZERO && b != FZERO
    ensures FMul(a, b) != FZERO
  {
    if FMul(a, b) == FZERO {
      FMulAssoc(FInv(a), a, b);
      FMulInv(a);
      FMulOne(b);
      FMulZero(FInv(a));
    }
  }

  /** `a - b` vanishes exactly when `a == b`. */
  lemma FSubZero(a: F, b: F)
    requires FieldLaws()
    ensures FSub(a, b) == FZERO <==> a == b
  {
    FAddNeg(b);
    FAddNeg(a);
    if FSub(a, b) == FZERO {
      FAddCancel(a, b, FNeg(b));
    }
  }

  /** The inverse is the only multiplicative inverse. */
  lemma FInvUnique(a: F, b: F)
    requires FieldLaws() && FMul(b, a) == FONE
    ensures a != FZERO && b == FInv(a)
  {
    FMulZero(b);
    if a != FZERO {
      FMulAssoc(b, a, FInv(a));
      FMulInv(a);
      FMulOne(b);
      FMulOne(FInv(a));
    }
  }

  lemma FNegMul(a: F, b: F)
    requires FieldLaws()
    ensures FMul(FNeg(a), b) == FNeg(FMul(a, b))
  {
    FDistrib(b, a, FNeg(a));
    FAddNeg(a);
    FMulZero(b);
    FAddNeg(FMul(a, b));
    FAddComm(FMul(a, b), FMul(FNeg(a), b));
    FAddComm(FMul(a, b), FNeg(FMul(a, b)));
    FAddCancel(FMul(FNeg(a), b), FNeg(FMul(a, b)), FMul(a, b));
  }

  lemma FNegSum(a: F, b: F)
    requires FieldLaws()
    ensures FNeg(FAdd(a, b)) == FAdd(FNeg(a), FNeg(b))
  {
    FExchange(FNeg(a), FNeg(b), a, b);
    FAddNeg(a);
    FAddNeg(b);
    FAddZero(FZERO);
    FAddNeg(FAdd(a, b));
    FAddCancel(FNeg(FAdd(a, b)), FAdd(FNeg(a), FNeg(b)), FAdd(a, b));
  }

  /** `(a + b) + (c + d) == (a + c) + (b + d)`. */
  lemma FExchange(a: F, b: F, c: F, d: F)
    requires FieldLaws()
    ensures FAdd(FAdd(a, b), FAdd(c, d)) == FAdd(FAdd(a, c), FAdd(b, d))
  {
    FAddAssoc(a, b, FAdd(c, d));
    FAddAssoc(b, c, d);
    FAddComm(b, c);
    FAddAssoc(c, b, d);
    FAddAssoc(a, c, FAdd(b, d));
  }

  // ----- differences -----

  lemma FNegNeg(a: F)
    requires FieldLaws()
    ensures FNeg(FNeg(a)) == a
  {
    FAddNeg(a);
    FAddNeg(FNeg(a));
    FAddCancel(FNeg(FNeg(a)), a, FNeg(a));
  }

  lemma FNegSub(a: F, b: F)
    requires FieldLaws()
    ensures FNeg(FSub(a, b)) == FSub(b, a)
  {
    FNegSum(a, FNeg(b));
    FNegNeg(b);
    FAddComm(FNeg(a), b);
  }

  /** `(a - b) + (b - c) == a - c`. */
  lemma FSubChain(a: F, b: F, c: F)
    requires FieldLaws()
    ensures FAdd(FSub(a, b), FSub(b, c)) == FSub(a, c)
  {
    FAddAssoc(a, FNeg(b), FSub(b, c));
    FAddAssoc(FNeg(b), b, FNeg(c));
    FAddNeg(b);
    FAddZero(FNeg(c));
  }

  /** `(a - c) - (b - c) == a - b`. */
  lemma FSubShift(a: F, b: F, c: F)
    requires FieldLaws()
    ensures FSub(FSub(a, c), FSub(b, c)) == FSub(a, b)
  {
    FNegSub(b, c);
    FSubChain(a, c, b);
  }

  /** `(a + b) - (c + d) == (a - c) + (b - d)`. */
  lemma FSubPairs(a: F, b: F, c: F, d: F)
    requires FieldLaws()
    ensures FSub(FAdd(a, b), FAdd(c, d)) == FAdd(FSub(a, c), FSub(b, d))
  {
    FNegSum(c, d);
    FExchange(a, b, FNeg(c), FNeg(d));
  }

  lemma FSubAdd(a: F, b: F)
    requires FieldLaws()
    ensures FAdd(FSub(a, b), b) == a && FSub(FAdd(a, b), b) == a
  {
    FAddAssoc(a, FNeg(b), b);
    FAddAssoc(a, b, FNeg(b));
    FAddNeg(b);
    FAddZero(a);
  }

  lemma FMulSub(a: F, b: F, c: F)
    requires FieldLaws()
    ensures FMul(a, FSub(b, c)) == FSub(FMul(a, b), FMul(a, c))
    ensures FMul(FSub(b, c), a) == FSub(FMul(b, a), FMul(c, a))
  {
    FDistrib(a, b, FNeg(c));
    FNegMul(c, a);
    FMulComm(a, FNeg(c));
    FMulComm(c, a);
  }

  lemma FNegSquare(a: F)
    requires FieldLaws()
    ensures FMul(FNeg(a), FNeg(a)) == FMul(a, a)
  {
    FNegMul(a, FNeg(a));
    FMulComm(a, FNeg(a));
    FNegMul(a, a);
    FNegNeg(FMul(a, a));
  }

  lemma FMulCancel(a: F, b: F, c: F)
    requires FieldLaws() && c != FZERO && FMul(a, c) == FMul(b, c)
    ensures a == b
  {
    FMulAssoc(a, c, FInv(c));
    FMulAssoc(b, c, FInv(c));
    FMulInv(c);
    FMulOne(a);
    FMulOne(b);
  }

  /** `a^2 - b^2 == (a - b) (a + b)`. */
  lemma FSquareDifference(a: F, b: F)
    requires FieldLaws()
    ensures FSub(FMul(a, a), FMul(b, b)) == FMul(FSub(a, b), FAdd(a, b))
  {
    FDistrib(FSub(a, b), a, b);
    FMulSub(a, a, b);
    FMulSub(b, a, b);
    FMulComm(a, b);
    FSubChain(FMul(a, a), FMul(b, a), FMul(b, b));
  }

  /** `a^3 - b^3 == (a - b) (a^2 + a b + b^2)`. */
  lemma FCubeDifference(a: F, b: F)
    requires FieldLaws()
    ensures FSub(FMul(FMul(a, a), a), FMul(FMul(b, b), b))
         == FMul(FSub(a, b), FAdd(FAdd(FMul(a, a), FMul(a, b)), FMul(b, b)))
  {
    var (d, aa, ab, bb) := (FSub(a, b), FMul(a, a), FMul(a, b), FMul(b, b));
    FDistrib(d, FAdd(aa, ab), bb);
    FDistrib(d, aa, ab);
    FMulSub(aa, a, b);
    FMulSub(ab, a, b);
    FMulSub(bb, a, b);
    FMulComm(a, aa);
    FMulComm(b, bb);
    FMulAssoc(a, a, b);
    FMulComm(b, aa);
    FMulComm(b, ab);
    FMulAssoc(a, b, b);
    FSubChain(FMul(aa, a), FMul(b, aa), FMul(b, ab));
    FSubChain(FMul(aa, a), FMul(b, ab), FMul(bb, b));
  }
}
