/**
 Affine short-Weierstrass points, their chord-and-tangent sum, and the abelian group they
 represent.

 From the field laws and odd characteristic: the sum is on the curve, does not depend on the
 order, and is the reflected third point of the chord or tangent. `PointValue` maps a curve point
 to its group element; that the sum is the group operation is the hypothesis `CurveLaws()`.
 */
module CurvePoints {
  import opened Field
  import opened AbelianGroup

  datatype Affine = Identity | At(x: F, y: F)

  /** The curve's coefficients. */
  const COEFF_A: F
  const COEFF_B: F

  function Square(a: F): F { FMul(a, a) }

  function Double(a: F): F { FAdd(a, a) }

  predicate OnCurve(p: Affine) {
    match p
    case Identity => true
    case At(x, y) => Square(y) == FAdd(FAdd(FMul(Square(x), x), FMul(COEFF_A, x)), COEFF_B)
  }

  function NegPoint(p: Affine): Affine {
    match p
    case Identity => Identity
    case At(x, y) => At(x, FNeg(y))
  }

  /** The third point of the line of slope `lambda` through `(x1, y1)` and a point over `x2`, reflected. */
  function LinePoint(lambda: F, x1: F, y1: F, x2: F): Affine {
    var x := FSub(FSub(Square(lambda), x1), x2);
    At(x, FSub(FMul(lambda, FSub(x1, x)), y1))
  }

  function ChordSlope(x1: F, y1: F, x2: F, y2: F): F {
    FMul(FSub(y2, y1), FInv(FSub(x2, x1)))
  }

  function TangentSlope(x: F, y: F): F {
    FMul(FAdd(FAdd(Double(Square(x)), Square(x)), COEFF_A), FInv(Double(y)))
  }

  /** Chord-and-tangent addition. */
  function AffineAdd(p: Affine, q: Affine): Affine {
    match (p, q)
    case (Identity, _) => q
    case (_, Identity) => p
    case (At(x1, y1), At(x2, y2)) =>
      if x1 != x2 then LinePoint(ChordSlope(x1, y1, x2, y2), x1, y1, x2)
      else if y1 == y2 && y1 != FZERO then LinePoint(TangentSlope(x1, y1), x1, y1, x1)
      else Identity
  }

  /** The field has odd characteristic. */
  ghost predicate DoublesNonZero(a: F) {
    a != FZERO ==> Double(a) != FZERO
  }

  /** The field laws, and odd characteristic. */
  ghost predicate OddField() {
    FieldLaws() && forall a :: DoublesNonZero(a)
  }

  // ----- the sum is the reflected third point of the line, and on the curve -----

  function Cubic(x: F): F {
    FAdd(FAdd(FMul(Square(x), x), FMul(COEFF_A, x)), COEFF_B)
  }

  /** `3 x^2 + a`. */
  function CubicSlope(x: F): F {
    FAdd(FAdd(Double(Square(x)), Square(x)), COEFF_A)
  }

  /** `r` is the point over the line's third root, reflected: stated without any division. */
  ghost predicate ThirdPoint(x1: F, y1: F, x2: F, rise: F, run: F, r: Affine) {
    && r.At?
    && FMul(FAdd(FAdd(r.x, x1), x2), Square(run)) == Square(rise)
    && FMul(FSub(FNeg(r.y), y1), run) == FMul(rise, FSub(r.x, x1))
  }

  /**
   What the sum of two points is: the other point for the identity, the reflected third point of
   the chord or of the tangent, and the identity for opposite points.
   */
  ghost predicate IsSum(p: Affine, q: Affine, r: Affine) {
    match (p, q)
    case (Identity, _) => r == q
    case (_, Identity) => r == p
    case (At(x1, y1), At(x2, y2)) =>
      if x1 != x2 then ThirdPoint(x1, y1, x2, FSub(y2, y1), FSub(x2, x1), r)
      else if y1 == y2 && y1 != FZERO then ThirdPoint(x1, y1, x1, CubicSlope(x1), Double(y1), r)
      else r == Identity
  }

  /** A slope `rise / run` gives the third point of the line through `(x1, y1)`. */
  lemma LineThirdPoint(x1: F, y1: F, x2: F, rise: F, run: F)
    requires FieldLaws() && run != FZERO
    ensures ThirdPoint(x1, y1, x2, rise, run, LinePoint(FMul(rise, FInv(run)), x1, y1, x2))
  {
    var lambda := FMul(rise, FInv(run));
    var r := LinePoint(lambda, x1, y1, x2);
    FMulAssoc(rise, FInv(run), run);
    FMulInv(run);
    FMulOne(rise);
    assert FMul(lambda, run) == rise;
    // the roots add up to the squared slope
    FSubAdd(FSub(Square(lambda), x1), x2);
    FSubAdd(Square(lambda), x1);
    FAddAssoc(r.x, x1, x2);
    FAddComm(x1, x2);
    FAddAssoc(r.x, x2, x1);
    SquareOfProduct(lambda, run);
    // the reflected point lies on the line
    LineHeight(lambda, x1, y1, r.x);
    FMulComm(lambda, FSub(r.x, x1));
    FMulAssoc(FSub(r.x, x1), lambda, run);
    FMulComm(FSub(r.x, x1), rise);
  }

  lemma SquareOfProduct(a: F, b: F)
    requires FieldLaws()
    ensures Square(FMul(a, b)) == FMul(Square(a), Square(b))
  {
    FMulAssoc(a, b, FMul(a, b));
    FMulComm(b, FMul(a, b));
    FMulAssoc(a, b, b);
    FMulAssoc(a, a, Square(b));
  }

  /** `-(lambda (x1 - x) - y1) - y1 == lambda (x - x1)`. */
  lemma LineHeight(lambda: F, x1: F, y1: F, x: F)
    requires FieldLaws()
    ensures var y := FSub(FMul(lambda, FSub(x1, x)), y1);
      && FSub(FNeg(y), y1) == FMul(lambda, FSub(x, x1))
      && FNeg(y) == FAdd(y1, FMul(lambda, FSub(x, x1)))
  {
    var drop := FMul(lambda, FSub(x1, x));
    FNegSub(drop, y1);
    FNegSub(x1, x);
    FNegMul(FSub(x1, x), lambda);
    FMulComm(FSub(x1, x), lambda);
    FMulComm(FSub(x, x1), lambda);
    assert FNeg(drop) == FMul(lambda, FSub(x, x1));
    FAddComm(y1, FNeg(drop));
    FSubAdd(FNeg(drop), y1);
  }

  /** The division-free description has exactly one solution. */
  lemma ThirdPointUnique(x1: F, y1: F, x2: F, rise: F, run: F, r: Affine, s: Affine)
    requires FieldLaws() && run != FZERO
    requires ThirdPoint(x1, y1, x2, rise, run, r) && ThirdPoint(x1, y1, x2, rise, run, s)
    ensures r == s
  {
    FNonZeroProduct(run, run);
    FMulCancel(FAdd(FAdd(r.x, x1), x2), FAdd(FAdd(s.x, x1), x2), Square(run));
    FAddCancel(FAdd(r.x, x1), FAdd(s.x, x1), x2);
    FAddCancel(r.x, s.x, x1);
    FMulCancel(FSub(FNeg(r.y), y1), FSub(FNeg(s.y), y1), run);
    FAddCancel(FNeg(r.y), FNeg(s.y), FNeg(y1));
    FNegNeg(r.y);
    FNegNeg(s.y);
  }

  lemma RunsNonZero(p: Affine, q: Affine)
    requires OddField() && p.At? && q.At?
    ensures p.x != q.x ==> FSub(q.x, p.x) != FZERO
    ensures p.y != FZERO ==> Double(p.y) != FZERO
  {
    FSubZero(q.x, p.x);
    assert DoublesNonZero(p.y);
  }

  /** Chord-and-tangent addition computes the sum, and nothing else is one. */
  lemma AddIsSum(p: Affine, q: Affine, r: Affine)
    requires OddField()
    ensures IsSum(p, q, r) <==> r == AffineAdd(p, q)
  {
    hide FieldLaws, ThirdPoint, LinePoint;
    if p.At? && q.At? {
      RunsNonZero(p, q);
      var s := AffineAdd(p, q);
      if p.x != q.x {
        LineThirdPoint(p.x, p.y, q.x, FSub(q.y, p.y), FSub(q.x, p.x));
        if IsSum(p, q, r) {
          ThirdPointUnique(p.x, p.y, q.x, FSub(q.y, p.y), FSub(q.x, p.x), r, s);
        }
      } else if p.y == q.y && p.y != FZERO {
        LineThirdPoint(p.x, p.y, p.x, CubicSlope(p.x), Double(p.y));
        if IsSum(p, q, r) {
          ThirdPointUnique(p.x, p.y, p.x, CubicSlope(p.x), Double(p.y), r, s);
        }
      }
    }
  }

  // ----- closure -----

  /** What is left of `Cubic(x) - L(x)^2` after the factor `x - x1`, for the line `L` through `(x1, y1)`. */
  function Quotient(lambda: F, x1: F, y1: F, x: F): F {
    FSub(FAdd(FAdd(FAdd(Square(x), FMul(x, x1)), Square(x1)), COEFF_A),
         FMul(lambda, FAdd(Double(y1), FMul(lambda, FSub(x, x1)))))
  }

  function LineAt(lambda: F, x1: F, y1: F, x: F): F {
    FAdd(y1, FMul(lambda, FSub(x, x1)))
  }

  lemma CubicDifference(x: F, x1: F)
    requires FieldLaws()
    ensures FSub(Cubic(x), Cubic(x1))
         == FMul(FSub(x, x1), FAdd(FAdd(FAdd(Square(x), FMul(x, x1)), Square(x1)), COEFF_A))
  {
    var (c, c1, d) := (FMul(Square(x), x), FMul(Square(x1), x1), FSub(x, x1));
    FSubPairs(FAdd(c, FMul(COEFF_A, x)), COEFF_B, FAdd(c1, FMul(COEFF_A, x1)), COEFF_B);
    FAddNeg(COEFF_B);
    FAddZero(FSub(FAdd(c, FMul(COEFF_A, x)), FAdd(c1, FMul(COEFF_A, x1))));
    FSubPairs(c, FMul(COEFF_A, x), c1, FMul(COEFF_A, x1));
    FCubeDifference(x, x1);
    FMulSub(COEFF_A, x, x1);
    FMulComm(COEFF_A, d);
    FDistrib(d, FAdd(FAdd(Square(x), FMul(x, x1)), Square(x1)), COEFF_A);
  }

  lemma LineSquareDifference(lambda: F, x1: F, y1: F, x: F)
    requires FieldLaws()
    ensures FSub(Square(LineAt(lambda, x1, y1, x)), Square(y1))
         == FMul(FSub(x, x1), FMul(lambda, FAdd(Double(y1), FMul(lambda, FSub(x, x1)))))
  {
    var (d, l) := (FSub(x, x1), FMul(lambda, FSub(x, x1)));
    var sum := FAdd(Double(y1), l);
    FSquareDifference(FAdd(y1, l), y1);
    FAddComm(y1, l);
    FSubAdd(l, y1);
    FAddAssoc(l, y1, y1);
    FAddComm(l, Double(y1));
    FMulComm(lambda, d);
    FMulAssoc(d, lambda, sum);
  }

  /** On the line through a curve point, cubic and squared height differ by `x - x1` times the quotient. */
  lemma Factor(lambda: F, x1: F, y1: F, x: F)
    requires FieldLaws() && OnCurve(At(x1, y1))
    ensures FSub(Cubic(x), Square(LineAt(lambda, x1, y1, x))) == FMul(FSub(x, x1), Quotient(lambda, x1, y1, x))
  {
    CubicDifference(x, x1);
    LineSquareDifference(lambda, x1, y1, x);
    FSubShift(Cubic(x), Square(LineAt(lambda, x1, y1, x)), Square(y1));
    FMulSub(FSub(x, x1), FAdd(FAdd(FAdd(Square(x), FMul(x, x1)), Square(x1)), COEFF_A),
            FMul(lambda, FAdd(Double(y1), FMul(lambda, FSub(x, x1)))));
  }

  /** The quotient takes one value at any two places whose sum with `x1` is the squared slope. */
  lemma QuotientAtThird(lambda: F, x1: F, y1: F, x2: F)
    requires FieldLaws()
    ensures var x3 := FSub(FSub(Square(lambda), x1), x2);
      Quotient(lambda, x1, y1, x3) == Quotient(lambda, x1, y1, x2)
  {
    var x3 := FSub(FSub(Square(lambda), x1), x2);
    QuotientDifference(lambda, x1, y1, x3, x2);
    // x3 + x2 + x1 is the squared slope
    FSubAdd(FSub(Square(lambda), x1), x2);
    FSubAdd(Square(lambda), x1);
    FAddNeg(Square(lambda));
    FMulZero(FSub(x3, x2));
    FSubZero(Quotient(lambda, x1, y1, x3), Quotient(lambda, x1, y1, x2));
  }

  lemma QuotientDifference(lambda: F, x1: F, y1: F, x: F, z: F)
    requires FieldLaws()
    ensures FSub(Quotient(lambda, x1, y1, x), Quotient(lambda, x1, y1, z))
         == FMul(FSub(x, z), FSub(FAdd(FAdd(x, z), x1), Square(lambda)))
  {
    PolynomialPart(x1, x, z);
    LinePart(lambda, x1, y1, x, z);
    var (s, t) := (FAdd(FAdd(FAdd(Square(x), FMul(x, x1)), Square(x1)), COEFF_A),
                   FAdd(FAdd(FAdd(Square(z), FMul(z, x1)), Square(x1)), COEFF_A));
    var (l, m) := (FMul(lambda, FAdd(Double(y1), FMul(lambda, FSub(x, x1)))),
                   FMul(lambda, FAdd(Double(y1), FMul(lambda, FSub(z, x1)))));
    FSubPairs(s, FNeg(l), t, FNeg(m));
    FNegSum(l, FNeg(m));
    FMulSub(FSub(x, z), FAdd(FAdd(x, z), x1), Square(lambda));
    assert FSub(FNeg(l), FNeg(m)) == FNeg(FSub(l, m));
  }

  lemma PolynomialPart(x1: F, x: F, z: F)
    requires FieldLaws()
    ensures FSub(FAdd(FAdd(FAdd(Square(x), FMul(x, x1)), Square(x1)), COEFF_A),
                 FAdd(FAdd(FAdd(Square(z), FMul(z, x1)), Square(x1)), COEFF_A))
         == FMul(FSub(x, z), FAdd(FAdd(x, z), x1))
  {
    var (s, t) := (FAdd(Square(x), FMul(x, x1)), FAdd(Square(z), FMul(z, x1)));
    FSubPairs(FAdd(s, Square(x1)), COEFF_A, FAdd(t, Square(x1)), COEFF_A);
    FSubPairs(s, Square(x1), t, Square(x1));
    FAddNeg(COEFF_A);
    FAddNeg(Square(x1));
    FAddZero(FSub(FAdd(s, Square(x1)), FAdd(t, Square(x1))));
    FAddZero(FSub(s, t));
    FSubPairs(Square(x), FMul(x, x1), Square(z), FMul(z, x1));
    FSquareDifference(x, z);
    FMulSub(x1, x, z);
    FDistrib(FSub(x, z), FAdd(x, z), x1);
  }

  lemma LinePart(lambda: F, x1: F, y1: F, x: F, z: F)
    requires FieldLaws()
    ensures FSub(FMul(lambda, FAdd(Double(y1), FMul(lambda, FSub(x, x1)))),
                 FMul(lambda, FAdd(Double(y1), FMul(lambda, FSub(z, x1)))))
         == FMul(FSub(x, z), Square(lambda))
  {
    var (d, e, w) := (FMul(lambda, FSub(x, x1)), FMul(lambda, FSub(z, x1)), Double(y1));
    FMulSub(lambda, FAdd(w, d), FAdd(w, e));
    FSubPairs(w, d, w, e);
    FAddNeg(w);
    FAddZero(FSub(d, e));
    FMulSub(lambda, FSub(x, x1), FSub(z, x1));
    FSubShift(x, z, x1);
    FMulAssoc(lambda, lambda, FSub(x, z));
    FMulComm(Square(lambda), FSub(x, z));
  }

  /** A line that meets the curve in `(x1, y1)` and, with the quotient vanishing, over `x2` meets it in the third point. */
  lemma LineCloses(lambda: F, x1: F, y1: F, x2: F)
    requires FieldLaws() && OnCurve(At(x1, y1)) && Quotient(lambda, x1, y1, x2) == FZERO
    ensures OnCurve(LinePoint(lambda, x1, y1, x2))
  {
    hide FieldLaws, Quotient;
    var r := LinePoint(lambda, x1, y1, x2);
    QuotientAtThird(lambda, x1, y1, x2);
    Factor(lambda, x1, y1, r.x);
    FMulZero(FSub(r.x, x1));
    FSubZero(Cubic(r.x), Square(LineAt(lambda, x1, y1, r.x)));
    LineHeight(lambda, x1, y1, r.x);
    FNegSquare(r.y);
  }

  lemma ChordQuotient(x1: F, y1: F, x2: F, y2: F)
    requires FieldLaws() && OnCurve(At(x1, y1)) && OnCurve(At(x2, y2)) && x1 != x2
    ensures Quotient(ChordSlope(x1, y1, x2, y2), x1, y1, x2) == FZERO
  {
    hide FieldLaws, Quotient;
    var lambda, run := ChordSlope(x1, y1, x2, y2), FSub(x2, x1);
    FSubZero(x2, x1);
    FMulAssoc(FSub(y2, y1), FInv(run), run);
    FMulInv(run);
    FMulOne(FSub(y2, y1));
    FSubAdd(y2, y1);
    FAddComm(y1, FSub(y2, y1));
    assert LineAt(lambda, x1, y1, x2) == y2;
    Factor(lambda, x1, y1, x2);
    FAddNeg(Cubic(x2));
    if Quotient(lambda, x1, y1, x2) != FZERO {
      FNonZeroProduct(run, Quotient(lambda, x1, y1, x2));
    }
  }

  lemma TangentQuotient(x: F, y: F)
    requires FieldLaws() && Double(y) != FZERO
    ensures Quotient(TangentSlope(x, y), x, y, x) == FZERO
  {
    var lambda, w := TangentSlope(x, y), Double(y);
    FMulAssoc(CubicSlope(x), FInv(w), w);
    FMulInv(w);
    FMulOne(CubicSlope(x));
    FAddNeg(x);
    FMulZero(lambda);
    FAddZero(w);
    FAddNeg(CubicSlope(x));
  }

  /** The sum of two curve points is a curve point. */
  lemma AddCloses(p: Affine, q: Affine)
    requires OddField() && OnCurve(p) && OnCurve(q)
    ensures OnCurve(AffineAdd(p, q))
  {
    hide FieldLaws, Quotient, LinePoint, ChordSlope, TangentSlope;
    if p.At? && q.At? {
      RunsNonZero(p, q);
      if p.x != q.x {
        ChordQuotient(p.x, p.y, q.x, q.y);
        LineCloses(ChordSlope(p.x, p.y, q.x, q.y), p.x, p.y, q.x);
      } else if p.y == q.y && p.y != FZERO {
        TangentQuotient(p.x, p.y);
        LineCloses(TangentSlope(p.x, p.y), p.x, p.y, p.x);
      }
    }
  }

  lemma NegCloses(p: Affine)
    requires FieldLaws() && OnCurve(p)
    ensures OnCurve(NegPoint(p))
  {
    if p.At? {
      FNegSquare(p.y);
    }
  }

  /** Either point may come first. */
  lemma SumCommutes(p: Affine, q: Affine)
    requires OddField()
    ensures AffineAdd(p, q) == AffineAdd(q, p)
  {
    hide FieldLaws, ThirdPoint, LinePoint;
    AddIsSum(p, q, AffineAdd(p, q));
    AddIsSum(q, p, AffineAdd(p, q));
    if p.At? && q.At? && p.x != q.x {
      ThirdPointCommutes(p, q, AffineAdd(p, q));
    }
  }

  lemma ThirdPointCommutes(p: Affine, q: Affine, r: Affine)
    requires FieldLaws() && p.At? && q.At?
    requires ThirdPoint(p.x, p.y, q.x, FSub(q.y, p.y), FSub(q.x, p.x), r)
    ensures ThirdPoint(q.x, q.y, p.x, FSub(p.y, q.y), FSub(p.x, q.x), r)
  {
    var (rise, run) := (FSub(q.y, p.y), FSub(q.x, p.x));
    FNegSub(q.y, p.y);
    FNegSub(q.x, p.x);
    FNegSquare(rise);
    FNegSquare(run);
    FAddAssoc(r.x, p.x, q.x);
    FAddComm(p.x, q.x);
    FAddAssoc(r.x, q.x, p.x);
    // (-r.y - q.y) run == (-r.y - p.y) run - rise run == rise (r.x - p.x) - rise run
    var (down, across) := (FSub(FNeg(r.y), q.y), FSub(r.x, q.x));
    FSubChain(FNeg(r.y), q.y, p.y);
    FSubChain(r.x, q.x, p.x);
    FDistrib(run, down, rise);
    FDistrib(rise, across, run);
    FAddCancel(FMul(down, run), FMul(rise, across), FMul(rise, run));
    FNegMul(run, down);
    FMulComm(FNeg(run), down);
    FMulComm(run, down);
    FNegMul(rise, across);
  }

  // ----- the group the points represent -----

  const POINT_VALUE: Affine -> G

  /** The group element a point represents. */
  function PointValue(p: Affine): G {
    POINT_VALUE(p)
  }

  ghost predicate AddsUp(p: Affine, q: Affine) {
    OnCurve(p) && OnCurve(q) ==> PointValue(AffineAdd(p, q)) == Add(PointValue(p), PointValue(q))
  }

  ghost predicate CurveLaws() {
    && OddField()
    && Abelian()
    && PointValue(Identity) == IDENTITY
    && (forall p, q :: AddsUp(p, q))
  }

  lemma AddValue(p: Affine, q: Affine)
    requires CurveLaws() && OnCurve(p) && OnCurve(q)
    ensures OnCurve(AffineAdd(p, q)) && PointValue(AffineAdd(p, q)) == Add(PointValue(p), PointValue(q))
  {
    hide FieldLaws, OnCurve, AffineAdd, Abelian;
    AddCloses(p, q);
    assert AddsUp(p, q);
  }

  /** A point and its reflection add up to the identity, so they are opposite in the group. */
  lemma NegValue(p: Affine)
    requires CurveLaws() && OnCurve(p)
    ensures OnCurve(NegPoint(p)) && PointValue(NegPoint(p)) == Neg(PointValue(p))
  {
    hide FieldLaws, OnCurve, AffineAdd, Abelian;
    NegCloses(p);
    OppositesVanish(p);
    assert AddsUp(NegPoint(p), p);
    AddInverse(PointValue(p));
    AddComm(PointValue(p), Neg(PointValue(p)));
    Cancel(PointValue(NegPoint(p)), Neg(PointValue(p)), PointValue(p));
  }

  lemma OppositesVanish(p: Affine)
    requires OddField()
    ensures AffineAdd(NegPoint(p), p) == Identity
  {
    hide LinePoint;
    if p.At? {
      FAddNeg(p.y);
      FNegNeg(p.y);
      assert DoublesNonZero(p.y);
      assert FNeg(p.y) == p.y ==> Double(p.y) == FZERO;
    }
  }
}
