/**
 One field inversion for a whole batch of affine additions (Montgomery's trick), on batches
 whose targets are pairwise distinct.
 */
module BatchInversion {
  import opened Field
  import opened CurvePoints

  /** How a scheduled addition resolves: the chord, the tangent, or the identity. */
  datatype Step = Chord | Tangent | Vanish

  datatype PendingAdd = PendingAdd(bucket: nat, step: Step, prefix: F, point: Affine)

  /** Every entry adds a finite point to a finite bucket, and no two entries share a bucket. */
  ghost predicate Independent(batch: seq<PendingAdd>, buckets: seq<Affine>) {
    && (forall i | 0 <= i < |batch| :: batch[i].bucket < |buckets| && batch[i].point.At? && buckets[batch[i].bucket].At?)
    && (forall i, j | 0 <= i < j < |batch| :: batch[i].bucket != batch[j].bucket)
  }

  function StepOf(bucket: Affine, point: Affine): Step
    requires bucket.At? && point.At?
  {
    if bucket.x != point.x then Chord else if bucket.y == point.y && bucket.y != FZERO then Tangent else Vanish
  }

  function Denominator(bucket: Affine, point: Affine): F
    requires bucket.At? && point.At?
  {
    match StepOf(bucket, point)
    case Chord => FSub(point.x, bucket.x)
    case Tangent => Double(bucket.y)
    case Vanish => FONE
  }

  /** The product of the denominators of the first `n` entries. */
  function Product(batch: seq<PendingAdd>, buckets: seq<Affine>, n: nat): F
    requires Independent(batch, buckets) && n <= |batch|
  {
    if n == 0 then FONE
    else
      var entry := batch[n - 1];
      if StepOf(buckets[entry.bucket], entry.point).Vanish? then Product(batch, buckets, n - 1)
      else FMul(Product(batch, buckets, n - 1), Denominator(buckets[entry.bucket], entry.point))
  }

  lemma DenominatorNonZero(bucket: Affine, point: Affine)
    requires OddField() && bucket.At? && point.At?
    ensures Denominator(bucket, point) != FZERO
  {
    FSubZero(point.x, bucket.x);
    assert DoublesNonZero(bucket.y);
  }

  /** Every denominator is non-zero by construction, so the shared product is invertible. */
  lemma {:induction false} ProductNonZero(batch: seq<PendingAdd>, buckets: seq<Affine>, n: nat)
    requires OddField() && Independent(batch, buckets) && n <= |batch|
    ensures Product(batch, buckets, n) != FZERO
  {
    if n > 0 {
      ProductNonZero(batch, buckets, n - 1);
      var entry := batch[n - 1];
      DenominatorNonZero(buckets[entry.bucket], entry.point);
      FNonZeroProduct(Product(batch, buckets, n - 1), Denominator(buckets[entry.bucket], entry.point));
    }
  }

  /** Peeling one inverse off the running product. */
  lemma PeelInverse(inverse: F, prefix: F, denominator: F)
    requires FieldLaws() && FMul(inverse, FMul(prefix, denominator)) == FONE
    ensures FMul(inverse, prefix) == FInv(denominator)
    ensures FMul(FMul(inverse, denominator), prefix) == FONE
  {
    FMulAssoc(inverse, prefix, denominator);
    FInvUnique(denominator, FMul(inverse, prefix));
    FMulComm(prefix, denominator);
    FMulAssoc(inverse, denominator, prefix);
  }

  /** The forward pass: classify each entry and record the product before it. */
  method Classify(batch: seq<PendingAdd>, buckets: seq<Affine>) returns (classified: seq<PendingAdd>, product: F)
    requires Independent(batch, buckets)
    ensures |classified| == |batch|
    ensures forall i | 0 <= i < |batch| ::
      classified[i] == batch[i].(step := StepOf(buckets[batch[i].bucket], batch[i].point), prefix := Product(batch, buckets, i))
    ensures product == Product(batch, buckets, |batch|)
  {
    product, classified := FONE, batch;
    for i := 0 to |batch|
      invariant |classified| == |batch| && product == Product(batch, buckets, i)
      invariant forall j | 0 <= j < i ::
        classified[j] == batch[j].(step := StepOf(buckets[batch[j].bucket], batch[j].point), prefix := Product(batch, buckets, j))
      invariant forall j | i <= j < |batch| :: classified[j] == batch[j]
    {
      var pending := classified[i];
      var bucket := buckets[pending.bucket];
      var before := product;
      var step;
      if bucket.x != pending.point.x {
        step := Chord;
        product := FMul(product, FSub(pending.point.x, bucket.x));
      } else if bucket.y == pending.point.y && bucket.y != FZERO {
        step := Tangent;
        product := FMul(product, Double(bucket.y));
      } else {
        step := Vanish;
      }
      classified := classified[i := pending.(step := step, prefix := before)];
    }
  }

  /** The slope computed from the peeled inverse is the slope of the group law. */
  function SlopeSum(bucket: Affine, point: Affine, step: Step, inverse: F): Affine
    requires bucket.At? && point.At?
  {
    match step
    case Chord => LinePoint(FMul(FSub(point.y, bucket.y), inverse), bucket.x, bucket.y, point.x)
    case Tangent =>
      LinePoint(FMul(FAdd(FAdd(Double(Square(bucket.x)), Square(bucket.x)), COEFF_A), inverse), bucket.x, bucket.y, point.x)
    case Vanish => Identity
  }

  lemma SlopeSumIsAdd(bucket: Affine, point: Affine)
    requires bucket.At? && point.At?
    ensures SlopeSum(bucket, point, StepOf(bucket, point), FInv(Denominator(bucket, point))) == AffineAdd(bucket, point)
  {}

  /** One step of the backward pass: the sum of the last open entry, and the inverse for the rest. */
  lemma PeelEntry(batch: seq<PendingAdd>, buckets: seq<Affine>, i: nat, inverse: F)
    requires FieldLaws() && Independent(batch, buckets) && i < |batch|
    requires FMul(inverse, Product(batch, buckets, i + 1)) == FONE
    ensures var (bucket, point) := (buckets[batch[i].bucket], batch[i].point);
      var (step, prefix) := (StepOf(bucket, point), Product(batch, buckets, i));
      && SlopeSum(bucket, point, step, FMul(inverse, prefix)) == AffineAdd(bucket, point)
      && FMul(if step.Vanish? then inverse else FMul(inverse, Denominator(bucket, point)), prefix) == FONE
  {
    hide FieldLaws, LinePoint;
    var bucket, point := buckets[batch[i].bucket], batch[i].point;
    SlopeSumIsAdd(bucket, point);
    if !StepOf(bucket, point).Vanish? {
      PeelInverse(inverse, Product(batch, buckets, i), Denominator(bucket, point));
    }
  }

  /**
   `apply_batch`: with one inversion, every target bucket becomes the sum of its old value and its
   point, on the curve if both are; no other bucket changes.
   */
  method ApplyAll(batch: seq<PendingAdd>, buckets: seq<Affine>) returns (sums: seq<Affine>)
    requires OddField() && Independent(batch, buckets)
    ensures |sums| == |buckets|
    ensures forall i | 0 <= i < |batch| :: sums[batch[i].bucket] == AffineAdd(buckets[batch[i].bucket], batch[i].point)
    ensures forall i | 0 <= i < |batch| :: IsSum(buckets[batch[i].bucket], batch[i].point, sums[batch[i].bucket])
    ensures forall i | 0 <= i < |batch| && OnCurve(buckets[batch[i].bucket]) && OnCurve(batch[i].point) ::
      OnCurve(sums[batch[i].bucket])
    ensures forall b | 0 <= b < |buckets| && (forall i | 0 <= i < |batch| :: batch[i].bucket != b) :: sums[b] == buckets[b]
  {
    hide FieldLaws, AffineAdd, SlopeSum, Product, StepOf, IsSum, OnCurve;
    var classified, product := Classify(batch, buckets);
    ProductNonZero(batch, buckets, |batch|);
    FMulInv(product);
    var inverse := FInv(product);
    sums := buckets;
    for i := |batch| downto 0
      invariant |sums| == |buckets|
      invariant FMul(inverse, Product(batch, buckets, i)) == FONE
      invariant forall j | i <= j < |batch| :: sums[batch[j].bucket] == AffineAdd(buckets[batch[j].bucket], batch[j].point)
      invariant forall j | 0 <= j < i :: sums[batch[j].bucket] == buckets[batch[j].bucket]
      invariant forall b | 0 <= b < |buckets| && (forall j | 0 <= j < |batch| :: batch[j].bucket != b) :: sums[b] == buckets[b]
    {
      var pending := classified[i];
      var bucket := sums[pending.bucket];
      PeelEntry(batch, buckets, i, inverse);
      var sum := SlopeSum(bucket, pending.point, pending.step, FMul(inverse, pending.prefix));
      inverse := if pending.step.Vanish? then inverse else FMul(inverse, Denominator(bucket, pending.point));
      sums := sums[pending.bucket := sum];
    }
    forall i | 0 <= i < |batch|
      ensures IsSum(buckets[batch[i].bucket], batch[i].point, sums[batch[i].bucket])
      ensures OnCurve(buckets[batch[i].bucket]) && OnCurve(batch[i].point) ==> OnCurve(sums[batch[i].bucket])
    {
      var bucket, point := buckets[batch[i].bucket], batch[i].point;
      AddIsSum(bucket, point, AffineAdd(bucket, point));
      if OnCurve(bucket) && OnCurve(point) {
        AddCloses(bucket, point);
      }
    }
  }
}
