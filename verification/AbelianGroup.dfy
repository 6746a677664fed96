/**
 An arbitrary abelian group and integer multiples in it.

 The group is uninterpreted; its laws are the hypothesis `Abelian()`, each law wrapped in a
 predicate so that it is instantiated only where a proof asks for it.
 */
module AbelianGroup {

  type G(==, 0, !new)

  const IDENTITY: G
  const PLUS: (G, G) -> G
  const MINUS: G -> G

  function Add(a: G, b: G): G {
    PLUS(a, b)
  }

  function Neg(a: G): G {
    MINUS(a)
  }

  ghost predicate Associates(a: G, b: G, c: G) {
    Add(Add(a, b), c) == Add(a, Add(b, c))
  }

  ghost predicate Commutes(a: G, b: G) {
    Add(a, b) == Add(b, a)
  }

  ghost predicate HasUnit(a: G) {
    Add(a, IDENTITY) == a
  }

  ghost predicate HasInverse(a: G) {
    Add(a, Neg(a)) == IDENTITY
  }

  ghost predicate Abelian() {
    && (forall a, b, c :: Associates(a, b, c))
    && (forall a, b :: Commutes(a, b))
    && (forall a :: HasUnit(a))
    && (forall a :: HasInverse(a))
  }

  lemma AddAssoc(a: G, b: G, c: G)
    requires Abelian()
    ensures Add(Add(a, b), c) == Add(a, Add(b, c))
  {
    assert Associates(a, b, c);
  }

  lemma AddComm(a: G, b: G)
    requires Abelian()
    ensures Add(a, b) == Add(b, a)
  {
    assert Commutes(a, b);
  }

  lemma AddUnit(a: G)
    requires Abelian()
    ensures Add(a, IDENTITY) == a && Add(IDENTITY, a) == a
  {
    assert HasUnit(a) && Commutes(a, IDENTITY);
  }

  lemma AddInverse(a: G)
    requires Abelian()
    ensures Add(a, Neg(a)) == IDENTITY
  {
    assert HasInverse(a);
  }

  /** `(a + b) + (c + d) == (a + c) + (b + d)`. */
  lemma Exchange(a: G, b: G, c: G, d: G)
    requires Abelian()
    ensures Add(Add(a, b), Add(c, d)) == Add(Add(a, c), Add(b, d))
  {
    AddAssoc(a, b, Add(c, d));
    AddAssoc(b, c, d);
    AddComm(b, c);
    AddAssoc(c, b, d);
    AddAssoc(a, c, Add(b, d));
  }

  /** `(a + b) + c == (a + c) + b`. */
  lemma SwapLast(a: G, b: G, c: G)
    requires Abelian()
    ensures Add(Add(a, b), c) == Add(Add(a, c), b)
  {
    AddAssoc(a, b, c);
    AddAssoc(a, c, b);
    AddComm(b, c);
  }

  lemma Cancel(a: G, b: G, c: G)
    requires Abelian() && Add(a, c) == Add(b, c)
    ensures a == b
  {
    AddAssoc(a, c, Neg(c));
    AddAssoc(b, c, Neg(c));
    AddInverse(c);
    AddUnit(a);
    AddUnit(b);
  }

  lemma NegOfSum(a: G, b: G)
    requires Abelian()
    ensures Neg(Add(a, b)) == Add(Neg(a), Neg(b))
  {
    Exchange(a, b, Neg(a), Neg(b));
    AddInverse(a);
    AddInverse(b);
    AddUnit(IDENTITY);
    AddInverse(Add(a, b));
    AddComm(Add(a, b), Neg(Add(a, b)));
    AddComm(Add(a, b), Add(Neg(a), Neg(b)));
    Cancel(Neg(Add(a, b)), Add(Neg(a), Neg(b)), Add(a, b));
  }

  lemma NegOfIdentity()
    requires Abelian()
    ensures Neg(IDENTITY) == IDENTITY
  {
    AddInverse(IDENTITY);
    AddUnit(Neg(IDENTITY));
  }

  // ----- multiples -----

  /** `n * a` by repeated addition. */
  function Multiple(n: nat, a: G): G {
    if n == 0 then IDENTITY else Add(Multiple(n - 1, a), a)
  }

  /** `z * a` for a signed `z`. */
  function Times(z: int, a: G): G {
    if z >= 0 then Multiple(z, a) else Neg(Multiple(-z, a))
  }

  /** Adding one more copy, on either side of zero. */
  lemma TimesNext(z: int, a: G)
    requires Abelian()
    ensures Times(z + 1, a) == Add(Times(z, a), a)
  {
    if z == -1 {
      AddUnit(a);
      AddInverse(a);
      AddComm(a, Neg(a));
      assert Multiple(1, a) == Add(IDENTITY, a);
    } else if z < -1 {
      var m := Multiple(-z - 1, a);
      NegOfSum(m, a);
      AddAssoc(Neg(m), Neg(a), a);
      AddInverse(a);
      AddComm(a, Neg(a));
      AddUnit(Neg(m));
    }
  }

  lemma TimesPrevious(z: int, a: G)
    requires Abelian()
    ensures Times(z - 1, a) == Add(Times(z, a), Neg(a))
  {
    hide Times;
    TimesNext(z - 1, a);
    AddAssoc(Times(z - 1, a), a, Neg(a));
    AddInverse(a);
    AddUnit(Times(z - 1, a));
  }

  /** `(y + z) * a == y * a + z * a`. */
  lemma {:induction false} TimesSum(y: int, z: int, a: G)
    requires Abelian()
    ensures Times(y + z, a) == Add(Times(y, a), Times(z, a))
    decreases if z >= 0 then z else -z
  {
    if z == 0 {
      AddUnit(Times(y, a));
    } else if z > 0 {
      TimesSum(y, z - 1, a);
      hide Times;
      TimesNext(y + z - 1, a);
      TimesNext(z - 1, a);
      AddAssoc(Times(y, a), Times(z - 1, a), a);
    } else {
      TimesSum(y, z + 1, a);
      hide Times;
      TimesPrevious(y + z + 1, a);
      TimesPrevious(z + 1, a);
      AddAssoc(Times(y, a), Times(z + 1, a), Neg(a));
    }
  }

  /** `z * (a + b) == z * a + z * b`. */
  lemma {:induction false} TimesOfSum(z: int, a: G, b: G)
    requires Abelian()
    ensures Times(z, Add(a, b)) == Add(Times(z, a), Times(z, b))
    decreases if z >= 0 then z else -z
  {
    if z == 0 {
      AddUnit(IDENTITY);
    } else if z > 0 {
      TimesOfSum(z - 1, a, b);
      hide Times;
      TimesNext(z - 1, a);
      TimesNext(z - 1, b);
      TimesNext(z - 1, Add(a, b));
      Exchange(Times(z - 1, a), Times(z - 1, b), a, b);
    } else {
      TimesOfSum(z + 1, a, b);
      hide Times;
      TimesPrevious(z + 1, a);
      TimesPrevious(z + 1, b);
      TimesPrevious(z + 1, Add(a, b));
      NegOfSum(a, b);
      Exchange(Times(z + 1, a), Times(z + 1, b), Neg(a), Neg(b));
    }
  }

  /** `(y * z) * a == y * (z * a)` for a natural `y`. */
  lemma {:induction false} TimesProduct(y: nat, z: int, a: G)
    requires Abelian()
    ensures Times(y * z, a) == Times(y, Times(z, a))
  {
    if y > 0 {
      TimesProduct(y - 1, z, a);
      TimesSum((y - 1) * z, z, a);
      hide Times;
      TimesNext(y - 1, Times(z, a));
      assert (y - 1) * z + z == y * z;
    }
  }

  lemma TimesSmall(a: G)
    requires Abelian()
    ensures Times(0, a) == IDENTITY && Times(1, a) == a && Times(2, a) == Add(a, a) && Times(-1, a) == Neg(a)
  {
    AddUnit(a);
    assert Multiple(1, a) == Add(Multiple(0, a), a);
    assert Multiple(2, a) == Add(Multiple(1, a), a);
  }

  /** `z * (-a) == -(z * a)`. */
  lemma TimesOfNeg(z: int, a: G)
    requires Abelian() && z >= 0
    ensures Times(z, Neg(a)) == Times(-z, a)
  {
    TimesSmall(a);
    TimesProduct(z, -1, a);
    assert z * -1 == -z;
  }

  lemma {:induction false} TimesIdentity(z: int)
    requires Abelian()
    ensures Times(z, IDENTITY) == IDENTITY
  {
    MultipleIdentity(if z >= 0 then z else -z);
    NegOfIdentity();
  }

  lemma {:induction false} MultipleIdentity(n: nat)
    requires Abelian()
    ensures Multiple(n, IDENTITY) == IDENTITY
  {
    AddUnit(IDENTITY);
    if n > 0 {
      MultipleIdentity(n - 1);
    }
  }
}
