/**
 Weighted sums in the group: the running-sum reduction of one window's buckets, and linear
 combinations of points.
 */
module RunningSums {
  import opened AbelianGroup

  /** `sum over k >= from of (k + 1) * buckets[k]`. */
  function Weighted(buckets: seq<G>, from: nat): G
    requires from <= |buckets|
    decreases |buckets| - from
  {
    if from == |buckets| then IDENTITY else Add(Weighted(buckets, from + 1), Times(from + 1, buckets[from]))
  }

  /** `sum over k >= from of buckets[k]`. */
  function Tail(buckets: seq<G>, from: nat): G
    requires from <= |buckets|
    decreases |buckets| - from
  {
    if from == |buckets| then IDENTITY else Add(Tail(buckets, from + 1), buckets[from])
  }

  /** Adding `p` to bucket `k` adds `(k + 1) * p` to the weighted sum. */
  lemma {:induction false} WeightedUpdate(before: seq<G>, after: seq<G>, k: nat, p: G, from: nat)
    requires Abelian() && |before| == |after| && k < |before| && from <= |before|
    requires forall b | 0 <= b < |before| :: after[b] == if b == k then Add(before[b], p) else before[b]
    ensures Weighted(after, from) == if from <= k then Add(Weighted(before, from), Times(k + 1, p)) else Weighted(before, from)
    decreases |before| - from
  {
    if from < |before| {
      WeightedUpdate(before, after, k, p, from + 1);
      hide Times, Abelian;
      if from == k {
        TimesOfSum(k + 1, before[k], p);
        AddAssoc(Weighted(before, from + 1), Times(k + 1, before[k]), Times(k + 1, p));
      } else if from < k {
        SwapLast(Weighted(before, from + 1), Times(k + 1, p), Times(from + 1, before[from]));
      }
    }
  }

  lemma {:induction false} WeightedZero(count: nat, from: nat)
    requires Abelian() && from <= count
    ensures Weighted(seq(count, _ => IDENTITY), from) == IDENTITY
    decreases count - from
  {
    hide Times;
    if from < count {
      WeightedZero(count, from + 1);
      TimesIdentity(from + 1);
      AddUnit(IDENTITY);
    }
  }

  /** One bucket folded into the running sums: `sum + from * running` is the weighted sum so far. */
  lemma RunningStep(buckets: seq<G>, from: nat, sum: G)
    requires Abelian() && from < |buckets|
    requires Add(sum, Times(from + 1, Tail(buckets, from + 1))) == Weighted(buckets, from + 1)
    ensures Add(Add(sum, Tail(buckets, from)), Times(from, Tail(buckets, from))) == Weighted(buckets, from)
  {
    hide Times, Abelian;
    var tail, here := Tail(buckets, from + 1), buckets[from];
    TimesOfSum(from + 1, tail, here);
    AddAssoc(sum, Times(from + 1, tail), Times(from + 1, here));
    TimesNext(from, Add(tail, here));
    AddComm(Times(from, Add(tail, here)), Add(tail, here));
    AddAssoc(sum, Add(tail, here), Times(from, Add(tail, here)));
  }

  /** `xyzz_window_sum`: two running sums from the top bucket down compute the weighted sum. */
  method WindowSum(buckets: seq<G>) returns (sum: G)
    requires Abelian()
    ensures sum == Weighted(buckets, 0)
  {
    hide Times, Abelian;
    sum := IDENTITY;
    var running := IDENTITY;
    TimesIdentity(|buckets|);
    AddUnit(IDENTITY);
    for i := |buckets| downto 0
      invariant running == Tail(buckets, i)
      invariant Add(sum, Times(i, running)) == Weighted(buckets, i)
    {
      RunningStep(buckets, i, sum);
      running := Add(running, buckets[i]);
      sum := Add(sum, running);
    }
    TimesSmall(running);
    AddUnit(sum);
  }

  // ----- linear combinations -----

  /** `sum over i < n of coefficients[i] * points[i]`. */
  function Combination(coefficients: seq<int>, points: seq<G>, n: nat): G
    requires n <= |coefficients| && n <= |points|
  {
    if n == 0 then IDENTITY
    else Add(Combination(coefficients, points, n - 1), Times(coefficients[n - 1], points[n - 1]))
  }

  /** `radix * (a . P) + (b . P) == (radix * a + b) . P`. */
  lemma {:induction false} CombinationStep(a: seq<int>, b: seq<int>, c: seq<int>, points: seq<G>, n: nat, radix: nat)
    requires Abelian() && n <= |a| == |b| == |c| <= |points|
    requires forall i | 0 <= i < |a| :: c[i] == radix * a[i] + b[i]
    ensures Add(Times(radix, Combination(a, points, n)), Combination(b, points, n)) == Combination(c, points, n)
  {
    hide Times, Abelian;
    if n == 0 {
      TimesIdentity(radix);
      AddUnit(IDENTITY);
    } else {
      CombinationStep(a, b, c, points, n - 1, radix);
      var i, p := n - 1, points[n - 1];
      TimesOfSum(radix, Combination(a, points, i), Times(a[i], p));
      TimesProduct(radix, a[i], p);
      Exchange(Times(radix, Combination(a, points, i)), Times(radix * a[i], p), Combination(b, points, i), Times(b[i], p));
      TimesSum(radix * a[i], b[i], p);
    }
  }

  lemma {:induction false} CombinationZero(a: seq<int>, points: seq<G>, n: nat)
    requires Abelian() && n <= |a| && n <= |points|
    requires forall i | 0 <= i < n :: a[i] == 0
    ensures Combination(a, points, n) == IDENTITY
  {
    if n > 0 {
      CombinationZero(a, points, n - 1);
      AddUnit(IDENTITY);
    }
  }
}
