/**
 The signed-window multi-scalar multiplication: recoding, bucket accumulation in either form,
 running-sum and Horner reduction give `sum of s_i * P_i`.
 */
module MultiScalarMultiplication {
  import opened Binary
  import opened TreeErrors
  import opened ScalarWindows
  import opened SignedDigits
  import opened AbelianGroup
  import opened Field
  import opened CurvePoints
  import opened RunningSums
  import opened WindowBuckets

  datatype Accumulation = Xyzz | BatchAffine

  const BATCH_AFFINE_MIN_POINTS: nat := 4096

  function Min(a: nat, b: nat): nat {
    if a <= b then a else b
  }

  function Size(bases: seq<Affine>, scalars: seq<Limbs>): nat {
    Min(|bases|, |scalars|)
  }

  /** What a multi-scalar multiplication is for: `sum over i < n of s_i * P_i`. */
  function MsmSum(bases: seq<Affine>, scalars: seq<Limbs>, n: nat): G
    requires n <= |bases| && n <= |scalars|
  {
    if n == 0 then IDENTITY
    else Add(MsmSum(bases, scalars, n - 1), Times(Value(scalars[n - 1]), PointValue(bases[n - 1])))
  }

  /** Canonical scalars and points on the curve. */
  ghost predicate Canonical(bases: seq<Affine>, scalars: seq<Limbs>) {
    && (forall i | 0 <= i < |bases| :: OnCurve(bases[i]))
    && (forall i | 0 <= i < |scalars| :: AreLimbs(scalars[i]) && InField(scalars[i]))
  }

  ghost predicate InField(scalar: Limbs) {
    Value(scalar) < SCALAR_MODULUS
  }

  // ----- digits of many scalars -----

  function DigitOf(scalar: Limbs, width: nat, window: nat): int
    requires width > 0
  {
    Digit(Value(scalar), width, window)
  }

  function DigitsAt(scalars: seq<Limbs>, width: nat, window: nat): seq<int>
    requires width > 0
  {
    seq(|scalars|, i requires 0 <= i < |scalars| => DigitOf(scalars[i], width, window))
  }

  function Points(bases: seq<Affine>): seq<G> {
    seq(|bases|, i requires 0 <= i < |bases| => PointValue(bases[i]))
  }

  /** `sum over k in from .. windows of Digit(k) * 2^(width * (k - from))`. */
  function HighDigits(n: nat, width: nat, windows: nat, from: nat): int
    requires width > 0 && from <= windows
    decreases windows - from
  {
    if from == windows then 0 else Radix(width) * HighDigits(n, width, windows, from + 1) + Digit(n, width, from)
  }

  lemma ShiftedStep(digits: int, high: int, digit: int, low: nat, radix: nat)
    ensures digits + (radix * high + digit) * low == (digits + digit * low) + high * (low * radix)
  {
    assert (radix * high + digit) * low == (radix * high) * low + digit * low;
    assert (radix * high) * low == high * (low * radix);
  }

  lemma {:induction false} DigitSumSplits(n: nat, width: nat, windows: nat, from: nat)
    requires width > 0 && from <= windows
    ensures DigitSum(n, width, windows) == DigitSum(n, width, from) + HighDigits(n, width, windows, from) * Pow2(from * width)
    decreases windows - from
  {
    hide Digit, Pow2, Radix;
    if from < windows {
      DigitSumSplits(n, width, windows, from + 1);
      MulDistributes(from, 1, width);
      Pow2Add(from * width, width);
      assert Pow2(width) == Radix(width) by { RadixIsPower(width); }
      ShiftedStep(DigitSum(n, width, from), HighDigits(n, width, windows, from + 1), Digit(n, width, from),
                  Pow2(from * width), Radix(width));
    }
  }

  lemma RadixIsPower(width: nat)
    ensures Radix(width) == Pow2(width)
  {}

  function HighOf(scalar: Limbs, width: nat, windows: nat, from: nat): int
    requires width > 0 && from <= windows
  {
    HighDigits(Value(scalar), width, windows, from)
  }

  function HighPartsOf(scalars: seq<Limbs>, width: nat, windows: nat, from: nat): seq<int>
    requires width > 0 && from <= windows
  {
    seq(|scalars|, i requires 0 <= i < |scalars| => HighOf(scalars[i], width, windows, from))
  }

  /** All digits of a scalar below the modulus rebuild it. */
  lemma AllDigits(scalar: Limbs, width: nat)
    requires InField(scalar) && 3 <= width <= 16
    ensures HighOf(scalar, width, WindowCount(width), 0) == Value(scalar)
  {
    hide Value, Digit, WindowCount;
    DigitsReconstruct(Value(scalar), width);
    DigitSumSplits(Value(scalar), width, WindowCount(width), 0);
    assert 0 * width == 0 && Pow2(0) == 1;
  }

  lemma {:induction false} CombinationIsMsm(bases: seq<Affine>, scalars: seq<Limbs>, width: nat, n: nat)
    requires n <= |bases| && n <= |scalars| && 3 <= width <= 16
    requires forall i | 0 <= i < |scalars| :: InField(scalars[i])
    ensures Combination(HighPartsOf(scalars, width, WindowCount(width), 0), Points(bases), n) == MsmSum(bases, scalars, n)
  {
    hide Times, Value, InField, HighOf, WindowCount;
    if n > 0 {
      CombinationIsMsm(bases, scalars, width, n - 1);
      AllDigits(scalars[n - 1], width);
    }
  }

  // ----- one window -----

  lemma DigitFits(scalar: Limbs, width: nat, window: nat)
    requires 3 <= width <= 16
    ensures 0 <= DigitOf(scalar, width, window) + Pow2(width - 1)
    ensures DigitOf(scalar, width, window) <= Pow2(width - 1)
  {
    DigitRange(Value(scalar), width, window);
    RadixIsPower(width);
    Pow2Succ(width - 1);
    hide Digit, Value;
  }

  /** One base added to, or subtracted from, the bucket of its digit. */
  method XyzzAdd(buckets: seq<G>, digit: int, point: G) returns (after: seq<G>)
    requires Abelian() && 0 <= digit + |buckets| && digit <= |buckets|
    ensures |after| == |buckets|
    ensures Weighted(after, 0) == Add(Weighted(buckets, 0), Times(digit, point))
  {
    hide Abelian, Times, Weighted;
    after := buckets;
    if digit > 0 {
      after := buckets[digit - 1 := Add(buckets[digit - 1], point)];
      WeightedUpdate(buckets, after, digit - 1, point, 0);
    } else if digit < 0 {
      after := buckets[-digit - 1 := Add(buckets[-digit - 1], Neg(point))];
      WeightedUpdate(buckets, after, -digit - 1, Neg(point), 0);
      TimesOfNeg(-digit, point);
    } else {
      TimesSmall(point);
      AddUnit(Weighted(buckets, 0));
    }
  }

  /** `signed_window_sum`: XYZZ buckets add or subtract each base at its digit, then reduce. */
  method XyzzWindow(bases: seq<Affine>, scalars: seq<Limbs>, width: nat, window: nat) returns (sum: G)
    requires CurveLaws() && Canonical(bases, scalars) && |bases| == |scalars| && 3 <= width <= 16
    ensures sum == Combination(DigitsAt(scalars, width, window), Points(bases), |scalars|)
  {
    hide FieldLaws, OnCurve, AddsUp, Abelian, Times, Weighted, Pow2, DigitOf, Value, AreLimbs, InField;
    var buckets := seq(Pow2(width - 1), _ => IDENTITY);
    WeightedZero(Pow2(width - 1), 0);
    ghost var digits, points := DigitsAt(scalars, width, window), Points(bases);
    for i := 0 to |scalars|
      invariant |buckets| == Pow2(width - 1)
      invariant Weighted(buckets, 0) == Combination(digits, points, i)
    {
      var digit := SignedWindowDigit(scalars[i], width, window);
      DigitFits(scalars[i], width, window);
      assert digit == digits[i] by { DigitOfIs(scalars[i], width, window); }
      buckets := XyzzAdd(buckets, digit, PointValue(bases[i]));
    }
    sum := RunningSums.WindowSum(buckets);
  }

  lemma DigitOfIs(scalar: Limbs, width: nat, window: nat)
    requires width > 0
    ensures DigitOf(scalar, width, window) == Digit(Value(scalar), width, window)
  {}

  /** The same window through the batch-affine scheduler. */
  method BatchAffineWindow(bases: seq<Affine>, scalars: seq<Limbs>, width: nat, batchSize: nat, window: nat) returns (sum: G)
    requires CurveLaws() && Canonical(bases, scalars) && |bases| == |scalars| && 3 <= width <= 16
    ensures sum == Combination(DigitsAt(scalars, width, window), Points(bases), |scalars|)
  {
    hide FieldLaws, OnCurve, AddsUp, Abelian, Times, Weighted, Pow2, DigitOf, Value, AreLimbs, InField;
    var buckets := new AffineBuckets(Pow2(width - 1), batchSize);
    EmptySums(buckets);
    ghost var digits, points := DigitsAt(scalars, width, window), Points(bases);
    for i := 0 to |scalars|
      invariant buckets.Valid() && |buckets.buckets| == Pow2(width - 1)
      invariant Weighted(buckets.Sums(), 0) == Combination(digits, points, i)
    {
      var digit := SignedWindowDigit(scalars[i], width, window);
      DigitFits(scalars[i], width, window);
      DigitOfIs(scalars[i], width, window);
      buckets.AddDigit(digit, bases[i]);
    }
    ghost var before := buckets.Sums();
    buckets.Finish();
    assert buckets.Sums() == before;
    sum := buckets.WindowSum();
  }

  lemma EmptySums(buckets: AffineBuckets)
    requires Abelian()
    requires forall b | 0 <= b < |buckets.buckets| :: buckets.Sum(b) == IDENTITY
    ensures Weighted(buckets.Sums(), 0) == IDENTITY
  {
    hide Weighted, Abelian;
    WeightedZero(|buckets.buckets|, 0);
    assert buckets.Sums() == seq(|buckets.buckets|, _ => IDENTITY);
  }

  // ----- all windows -----

  /** `total` doubled `width` times is `2^width * total`. */
  method DoubleTimes(total: G, width: nat) returns (doubled: G)
    requires Abelian()
    ensures doubled == Times(Radix(width), total)
  {
    hide Times, Abelian, Pow2;
    doubled := total;
    TimesSmall(total);
    assert Pow2(0) == 1 by { PowZeroIsOne(); }
    for i := 0 to width
      invariant doubled == Times(Pow2(i), total)
    {
      Pow2Succ(i);
      TimesSum(Pow2(i), Pow2(i), total);
      doubled := Add(doubled, doubled);
    }
  }

  lemma PowZeroIsOne()
    ensures Pow2(0) == 1
  {}

  /** `reduce_msm_window_sums`: Horner over the windows, the top one first. */
  method ReduceWindowSums(sums: seq<G>, width: nat, ghost scalars: seq<Limbs>, ghost points: seq<G>) returns (total: G)
    requires Abelian() && width > 0 && |scalars| <= |points|
    requires forall k | 0 <= k < |sums| :: sums[k] == Combination(DigitsAt(scalars, width, k), points, |scalars|)
    ensures total == Combination(HighPartsOf(scalars, width, |sums|, 0), points, |scalars|)
  {
    hide Times, Abelian, Radix, DigitOf, HighOf, Combination;
    total := IDENTITY;
    NothingAbove(scalars, width, |sums|);
    CombinationZero(HighPartsOf(scalars, width, |sums|, |sums|), points, |scalars|);
    for k := |sums| downto 0
      invariant total == Combination(HighPartsOf(scalars, width, |sums|, k), points, |scalars|)
    {
      var doubled := DoubleTimes(total, width);
      OneMoreWindow(scalars, width, |sums|, k);
      CombinationStep(HighPartsOf(scalars, width, |sums|, k + 1), DigitsAt(scalars, width, k),
                      HighPartsOf(scalars, width, |sums|, k), points, |scalars|, Radix(width));
      total := Add(doubled, sums[k]);
    }
  }

  lemma NothingAbove(scalars: seq<Limbs>, width: nat, windows: nat)
    requires width > 0
    ensures forall i | 0 <= i < |scalars| :: HighPartsOf(scalars, width, windows, windows)[i] == 0
  {}

  lemma OneMoreWindow(scalars: seq<Limbs>, width: nat, windows: nat, k: nat)
    requires width > 0 && k < windows
    ensures forall i | 0 <= i < |scalars| ::
      HighPartsOf(scalars, width, windows, k)[i] ==
      Radix(width) * HighPartsOf(scalars, width, windows, k + 1)[i] + DigitsAt(scalars, width, k)[i]
  {
    hide Radix, Value, Digit;
  }

  /** `batch_size`: a quarter of the buckets, between 32 and 1024. */
  function DefaultBatchSize(width: nat): nat
    requires width > 0
  {
    var quarter := Pow2(width - 1) / 4;
    if quarter < 32 then 32 else if quarter > 1024 then 1024 else quarter
  }

  /** For every input, width, accumulator and batch size: the sum over the shorter length. */
  method MsmWithAccumulation(bases: seq<Affine>, scalars: seq<Limbs>, width: nat, accumulation: Accumulation, batch: Option<nat>)
    returns (total: G)
    requires CurveLaws() && Canonical(bases, scalars) && 3 <= width <= 16
    ensures total == MsmSum(bases, scalars, Size(bases, scalars))
  {
    hide FieldLaws, OnCurve, AddsUp, Abelian, Times, Pow2, DigitOf, HighOf, Value, AreLimbs, InField, WindowCount, Combination;
    var size := Size(bases, scalars);
    if size == 0 {
      return IDENTITY;
    }
    var bases', scalars' := bases[..size], scalars[..size];
    var sums: seq<G> := [];
    for window := 0 to WindowCount(width)
      invariant |sums| == window
      invariant forall k | 0 <= k < window :: sums[k] == Combination(DigitsAt(scalars', width, k), Points(bases'), size)
    {
      var sum;
      match accumulation {
        case Xyzz => sum := XyzzWindow(bases', scalars', width, window);
        case BatchAffine =>
          sum := BatchAffineWindow(bases', scalars', width, batch.UnwrapOr(DefaultBatchSize(width)), window);
      }
      sums := sums + [sum];
    }
    total := ReduceWindowSums(sums, width, scalars', Points(bases'));
    CombinationIsMsm(bases', scalars', width, size);
    MsmPrefix(bases, scalars, size, size);
  }

  lemma {:induction false} MsmPrefix(bases: seq<Affine>, scalars: seq<Limbs>, size: nat, n: nat)
    requires n <= size <= |bases| && size <= |scalars|
    ensures MsmSum(bases[..size], scalars[..size], n) == MsmSum(bases, scalars, n)
  {
    if n > 0 {
      MsmPrefix(bases, scalars, size, n - 1);
    }
  }

  // ----- window and batch policy, trivial scalars -----

  function SerialWindowBits(points: nat): nat {
    if points < 32 then 3 else Min(CeilLog2(points) * 69 / 100 + 2, 16)
  }

  function AdaptiveWindowBits(points: nat): nat {
    if points <= 31 then 3
    else if points <= 255 then 5
    else if points <= 1023 then 7
    else if points <= 4095 then 8
    else if points <= 16383 then 10
    else if points <= 524288 then 12
    else 14
  }

  function ResidentWindowBits(points: nat, parallel: bool): nat {
    if parallel then AdaptiveWindowBits(points) else SerialWindowBits(points)
  }

  /** Either policy stays within the widths the recoding is proved for. */
  lemma WindowBitsAllowed(points: nat, parallel: bool)
    ensures 3 <= ResidentWindowBits(points, parallel) <= 16
  {
    assert Pow2(4) == 16;
    if CeilLog2(points) <= 4 {
      Pow2Monotone(CeilLog2(points), 4);
    }
    CeilLog2Covers(points);
  }

  method MsmWithWindow(bases: seq<Affine>, scalars: seq<Limbs>, width: nat) returns (total: G)
    requires CurveLaws() && Canonical(bases, scalars) && 3 <= width <= 16
    ensures total == MsmSum(bases, scalars, Size(bases, scalars))
  {
    var accumulation := if Size(bases, scalars) >= BATCH_AFFINE_MIN_POINTS then BatchAffine else Xyzz;
    total := MsmWithAccumulation(bases, scalars, width, accumulation, None);
  }

  const ZERO_SCALAR: Limbs := [0, 0, 0, 0]
  const ONE_SCALAR: Limbs := [1, 0, 0, 0]

  predicate Trivial(scalar: Limbs) {
    scalar == ZERO_SCALAR || scalar == ONE_SCALAR
  }

  function TrivialCount(scalars: seq<Limbs>, n: nat): nat
    requires n <= |scalars|
  {
    if n == 0 then 0 else TrivialCount(scalars, n - 1) + if Trivial(scalars[n - 1]) then 1 else 0
  }

  /** The bases whose scalar is one. */
  function OnesSum(bases: seq<Affine>, scalars: seq<Limbs>, n: nat): G
    requires n <= |bases| && n <= |scalars|
  {
    if n == 0 then IDENTITY
    else if scalars[n - 1] == ONE_SCALAR then Add(OnesSum(bases, scalars, n - 1), PointValue(bases[n - 1]))
    else OnesSum(bases, scalars, n - 1)
  }

  lemma TrivialValues()
    ensures Value(ZERO_SCALAR) == 0 && Value(ONE_SCALAR) == 1
  {
    assert ZERO_SCALAR[1..] == [0, 0, 0] && ONE_SCALAR[1..] == [0, 0, 0];
    assert Value([0]) == 0 && [0, 0][1..] == [0] && [0, 0, 0][1..] == [0, 0];
  }

  lemma MsmSnoc(bases: seq<Affine>, scalars: seq<Limbs>, base: Affine, scalar: Limbs)
    requires |bases| == |scalars|
    ensures MsmSum(bases + [base], scalars + [scalar], |bases| + 1) ==
      Add(MsmSum(bases, scalars, |bases|), Times(Value(scalar), PointValue(base)))
  {
    hide Times, Value;
    MsmPrefix(bases + [base], scalars + [scalar], |bases|, |bases|);
    assert (bases + [base])[..|bases|] == bases && (scalars + [scalar])[..|bases|] == scalars;
  }

  /** One more pair, wherever it goes, keeps `rest + ones` the whole sum. */
  lemma SplitStep(bases: seq<Affine>, scalars: seq<Limbs>, restBases: seq<Affine>, restScalars: seq<Limbs>, i: nat)
    requires Abelian() && i < |bases| && i < |scalars| && |restBases| == |restScalars|
    requires Add(MsmSum(restBases, restScalars, |restBases|), OnesSum(bases, scalars, i)) == MsmSum(bases, scalars, i)
    ensures Trivial(scalars[i]) ==>
      Add(MsmSum(restBases, restScalars, |restBases|), OnesSum(bases, scalars, i + 1)) == MsmSum(bases, scalars, i + 1)
    ensures !Trivial(scalars[i]) ==>
      Add(MsmSum(restBases + [bases[i]], restScalars + [scalars[i]], |restBases| + 1), OnesSum(bases, scalars, i + 1)) ==
      MsmSum(bases, scalars, i + 1)
  {
    hide Times, Value, Abelian;
    TrivialValues();
    var rest, ones, p := MsmSum(restBases, restScalars, |restBases|), OnesSum(bases, scalars, i), PointValue(bases[i]);
    if scalars[i] == ONE_SCALAR {
      TimesSmall(p);
      AddAssoc(rest, ones, p);
    } else if scalars[i] == ZERO_SCALAR {
      TimesSmall(p);
      AddUnit(MsmSum(bases, scalars, i));
    } else {
      MsmSnoc(restBases, restScalars, bases[i], scalars[i]);
      SwapLast(rest, Times(Value(scalars[i]), p), ones);
    }
  }

  /** When an eighth of the scalars is 0 or 1, summing those apart gives the same total. */
  method SplitTrivialScalars(bases: seq<Affine>, scalars: seq<Limbs>, parallel: bool) returns (sum: Option<G>)
    requires CurveLaws() && Canonical(bases, scalars)
    ensures sum.None? <==> TrivialCount(scalars, |scalars|) * 8 < |scalars|
    ensures sum.Some? ==> sum.value == MsmSum(bases, scalars, Size(bases, scalars))
  {
    hide FieldLaws, OnCurve, AddsUp, Abelian, Value, AreLimbs, InField, ResidentWindowBits, OnesSum, MsmSum, Trivial;
    var count := 0;
    for i := 0 to |scalars|
      invariant count == TrivialCount(scalars, i)
    {
      count := if Trivial(scalars[i]) then count + 1 else count;
    }
    if count * 8 < |scalars| {
      return None;
    }
    var size := Size(bases, scalars);
    var restBases: seq<Affine>, restScalars: seq<Limbs> := [], [];
    EmptySplit(bases, scalars);
    for i := 0 to size
      invariant |restBases| == |restScalars| && Canonical(restBases, restScalars)
      invariant Add(MsmSum(restBases, restScalars, |restBases|), OnesSum(bases, scalars, i)) == MsmSum(bases, scalars, i)
    {
      SplitStep(bases, scalars, restBases, restScalars, i);
      if !Trivial(scalars[i]) {
        restBases, restScalars := restBases + [bases[i]], restScalars + [scalars[i]];
      }
    }
    var rest := IDENTITY;
    if |restScalars| != 0 {
      WindowBitsAllowed(|restScalars|, parallel);
      rest := MsmWithWindow(restBases, restScalars, ResidentWindowBits(|restScalars|, parallel));
    }
    var ones := SumOnes(bases, scalars);
    EmptySplit(restBases, restScalars);
    sum := Some(Add(rest, ones));
  }

  method SumOnes(bases: seq<Affine>, scalars: seq<Limbs>) returns (ones: G)
    ensures ones == OnesSum(bases, scalars, Size(bases, scalars))
  {
    ones := IDENTITY;
    for i := 0 to Size(bases, scalars)
      invariant ones == OnesSum(bases, scalars, i)
    {
      if scalars[i] == ONE_SCALAR {
        ones := Add(ones, PointValue(bases[i]));
      }
    }
  }

  lemma EmptySplit(bases: seq<Affine>, scalars: seq<Limbs>)
    requires Abelian()
    ensures MsmSum([], [], 0) == IDENTITY && OnesSum(bases, scalars, 0) == IDENTITY && MsmSum(bases, scalars, 0) == IDENTITY
    ensures Add(IDENTITY, IDENTITY) == IDENTITY
  {
    AddUnit(IDENTITY);
  }

  /** `msm_bigint`, with (`simd`) or without the split of trivial scalars. */
  method MsmBigint(bases: seq<Affine>, scalars: seq<Limbs>, simd: bool, parallel: bool) returns (total: G)
    requires CurveLaws() && Canonical(bases, scalars)
    ensures total == MsmSum(bases, scalars, Size(bases, scalars))
  {
    hide FieldLaws, OnCurve, AddsUp, Abelian, Value, AreLimbs, InField, ResidentWindowBits, Times;
    var size := Size(bases, scalars);
    if size == 0 {
      return IDENTITY;
    }
    var bases', scalars' := bases[..size], scalars[..size];
    MsmPrefix(bases, scalars, size, size);
    if simd && size >= BATCH_AFFINE_MIN_POINTS {
      var sum := SplitTrivialScalars(bases', scalars', parallel);
      if sum.Some? {
        return sum.value;
      }
    }
    WindowBitsAllowed(size, parallel);
    total := MsmWithWindow(bases', scalars', ResidentWindowBits(size, parallel));
  }
}
