/**
 Polynomials over the field by their coefficients, discrete Fourier transforms, and the
 duality that moves a transform from one side of an inner product to the other.
 */
module Polynomials {
  import opened Field

  /** Horner evaluation. */
  function Eval(p: seq<F>, x: F): F {
    if p == [] then FZERO else FAdd(p[0], FMul(x, Eval(p[1..], x)))
  }

  function Pow(x: F, k: nat): F {
    if k == 0 then FONE else FMul(x, Pow(x, k - 1))
  }

  lemma {:induction false} PowAdd(x: F, a: nat, b: nat)
    requires FieldLaws()
    ensures Pow(x, a + b) == FMul(Pow(x, a), Pow(x, b))
  {
    hide FieldLaws;
    if a == 0 {
      FMulOne(Pow(x, b));
    } else {
      PowAdd(x, a - 1, b);
      FMulAssoc(x, Pow(x, a - 1), Pow(x, b));
    }
  }

  lemma {:induction false} PowSquare(x: F, k: nat)
    requires FieldLaws()
    ensures Pow(FMul(x, x), k) == Pow(x, 2 * k)
  {
    hide FieldLaws;
    if k > 0 {
      PowSquare(x, k - 1);
      FMulAssoc(x, x, Pow(x, 2 * k - 2));
      assert Pow(x, 2 * k) == FMul(x, Pow(x, 2 * k - 1));
    }
  }

  /** `u + v`, the shorter one padded with zeros. */
  function Plus(u: seq<F>, v: seq<F>): (r: seq<F>)
    ensures |r| == if |u| >= |v| then |u| else |v|
  {
    if u == [] then v else if v == [] then u else [FAdd(u[0], v[0])] + Plus(u[1..], v[1..])
  }

  function Scaled(c: F, p: seq<F>): (r: seq<F>)
    ensures |r| == |p|
  {
    seq(|p|, i requires 0 <= i < |p| => FMul(c, p[i]))
  }

  function Product(a: seq<F>, b: seq<F>): (r: seq<F>)
    ensures |a| > 0 && |b| > 0 ==> |r| == |a| + |b| - 1
  {
    if a == [] then [] else Plus(Scaled(a[0], b), [FZERO] + Product(a[1..], b))
  }

  function Negated(p: seq<F>): (r: seq<F>)
    ensures |r| == |p|
  {
    seq(|p|, i requires 0 <= i < |p| => FNeg(p[i]))
  }

  lemma {:induction false} EvalPlus(u: seq<F>, v: seq<F>, x: F)
    requires FieldLaws()
    ensures Eval(Plus(u, v), x) == FAdd(Eval(u, x), Eval(v, x))
  {
    hide FieldLaws;
    FAddZero(Eval(u, x));
    FAddZero(Eval(v, x));
    if u != [] && v != [] {
      EvalPlus(u[1..], v[1..], x);
      assert Plus(u, v)[1..] == Plus(u[1..], v[1..]);
      FDistrib(x, Eval(u[1..], x), Eval(v[1..], x));
      FExchange(u[0], v[0], FMul(x, Eval(u[1..], x)), FMul(x, Eval(v[1..], x)));
    }
  }

  /** `x * (c * y) == c * (x * y)`. */
  lemma SwapFactors(x: F, c: F, y: F)
    requires FieldLaws()
    ensures FMul(x, FMul(c, y)) == FMul(c, FMul(x, y))
  {
    FMulAssoc(x, c, y);
    FMulComm(x, c);
    FMulAssoc(c, x, y);
  }

  lemma {:induction false} EvalScaled(c: F, p: seq<F>, x: F)
    requires FieldLaws()
    ensures Eval(Scaled(c, p), x) == FMul(c, Eval(p, x))
  {
    hide FieldLaws;
    if p == [] {
      FMulZero(c);
    } else {
      EvalScaled(c, p[1..], x);
      assert Scaled(c, p)[1..] == Scaled(c, p[1..]);
      FDistrib(c, p[0], FMul(x, Eval(p[1..], x)));
      SwapFactors(x, c, Eval(p[1..], x));
    }
  }

  lemma {:induction false} EvalNegated(p: seq<F>, x: F)
    requires FieldLaws()
    ensures Eval(Negated(p), x) == FNeg(Eval(p, x))
  {
    hide FieldLaws;
    if p == [] {
      FAddNeg(FZERO);
      FAddZero(FNeg(FZERO));
    } else {
      var rest := Eval(p[1..], x);
      EvalNegated(p[1..], x);
      assert Negated(p)[1..] == Negated(p[1..]);
      FNegMul(rest, x);
      FMulComm(x, FNeg(rest));
      FMulComm(x, rest);
      FNegSum(p[0], FMul(x, rest));
    }
  }

  /** The product of polynomials evaluates to the product of the values. */
  lemma {:induction false} EvalProduct(a: seq<F>, b: seq<F>, x: F)
    requires FieldLaws()
    ensures Eval(Product(a, b), x) == FMul(Eval(a, x), Eval(b, x))
  {
    hide FieldLaws;
    if a == [] {
      FMulZero(Eval(b, x));
    } else {
      var rest := [FZERO] + Product(a[1..], b);
      EvalProduct(a[1..], b, x);
      assert rest[1..] == Product(a[1..], b);
      FAddZero(FMul(x, Eval(rest[1..], x)));
      EvalPlus(Scaled(a[0], b), rest, x);
      EvalScaled(a[0], b, x);
      FDistrib(Eval(b, x), a[0], FMul(x, Eval(a[1..], x)));
      FMulAssoc(x, Eval(a[1..], x), Eval(b, x));
    }
  }

  // ----- transforms -----

  function EvalAtPower(p: seq<F>, g: F, k: nat): F {
    Eval(p, Pow(g, k))
  }

  /** The values at the first `n` powers of `g`. */
  function Fft(p: seq<F>, g: F, n: nat): (values: seq<F>)
    ensures |values| == n
  {
    seq(n, k requires 0 <= k < n => EvalAtPower(p, g, k))
  }

  /** `p[i]` times `c * g^i`. */
  function Distributed(p: seq<F>, g: F, c: F): (r: seq<F>)
    ensures |r| == |p|
    decreases |p|
  {
    if p == [] then [] else [FMul(p[0], c)] + Distributed(p[1..], g, FMul(c, g))
  }

  lemma {:induction false} DistributedAt(p: seq<F>, g: F, c: F, i: nat)
    requires FieldLaws() && i < |p|
    ensures Distributed(p, g, c)[i] == FMul(p[i], FMul(c, Pow(g, i)))
  {
    hide FieldLaws;
    FMulOne(c);
    if i > 0 {
      DistributedAt(p[1..], g, FMul(c, g), i - 1);
      FMulAssoc(c, g, Pow(g, i - 1));
    }
  }

  /** Distributing the powers of `g` moves the evaluation point by a factor `g`. */
  lemma {:induction false} EvalDistributed(p: seq<F>, g: F, c: F, x: F)
    requires FieldLaws()
    ensures Eval(Distributed(p, g, c), x) == FMul(c, Eval(p, FMul(g, x)))
  {
    hide FieldLaws;
    if p == [] {
      FMulZero(c);
    } else {
      var d, rest := Distributed(p, g, c), Eval(p[1..], FMul(g, x));
      EvalDistributed(p[1..], g, FMul(c, g), x);
      assert d[1..] == Distributed(p[1..], g, FMul(c, g));
      FMulAssoc(c, g, rest);
      SwapFactors(x, c, FMul(g, rest));
      FMulAssoc(x, g, rest);
      FMulComm(x, g);
      FDistrib(c, p[0], FMul(FMul(g, x), rest));
      FMulComm(p[0], c);
    }
  }

  // ----- inner products -----

  function Dot(u: seq<F>, v: seq<F>): F
    requires |u| == |v|
  {
    if u == [] then FZERO else FAdd(FMul(u[0], v[0]), Dot(u[1..], v[1..]))
  }

  /** An inner product whose left side is `c + w[k] * v[k]`. */
  lemma {:induction false} DotAffine(u: seq<F>, v: seq<F>, w: seq<F>, l: seq<F>, m: seq<F>, c: F)
    requires FieldLaws() && |u| == |v| == |w| == |l| == |m|
    requires forall k | 0 <= k < |u| :: u[k] == FAdd(c, FMul(w[k], v[k])) && m[k] == FMul(l[k], w[k])
    ensures Dot(u, l) == FAdd(FMul(c, Eval(l, FONE)), Dot(v, m))
  {
    hide FieldLaws;
    if u == [] {
      FMulZero(c);
      FAddZero(FZERO);
    } else {
      DotAffine(u[1..], v[1..], w[1..], l[1..], m[1..], c);
      var rest := Eval(l[1..], FONE);
      FMulOne(rest);
      FDistrib(c, l[0], rest);
      FDistrib(l[0], c, FMul(w[0], v[0]));
      FMulAssoc(v[0], l[0], w[0]);
      FMulComm(v[0], FMul(l[0], w[0]));
      FMulAssoc(l[0], w[0], v[0]);
      FMulComm(FMul(w[0], v[0]), l[0]);
      FExchange(FMul(c, l[0]), FMul(v[0], m[0]), FMul(c, rest), Dot(v[1..], m[1..]));
    }
  }

  lemma FftAt(p: seq<F>, g: F, n: nat, k: nat)
    requires k < n
    ensures Fft(p, g, n)[k] == Eval(p, Pow(g, k))
  {}

  /** Distributing powers shifts the transform by one. */
  lemma FftShift(l: seq<F>, g: F, n: nat)
    requires FieldLaws()
    ensures Fft(Distributed(l, g, FONE), g, n) == Fft(l, g, n + 1)[1..]
  {
    forall j | 0 <= j < n
      ensures Fft(Distributed(l, g, FONE), g, n)[j] == Fft(l, g, n + 1)[1..][j]
    {
      hide FieldLaws, Eval, Distributed, Fft;
      FftAt(Distributed(l, g, FONE), g, n, j);
      FftAt(l, g, n + 1, j + 1);
      EvalDistributed(l, g, FONE, Pow(g, j));
      FMulOne(Eval(l, FMul(g, Pow(g, j))));
    }
  }

  /** Splitting the constant term off one side of the inner product. */
  lemma DotFftStep(p: seq<F>, l: seq<F>, g: F)
    requires FieldLaws() && p != []
    ensures var m := Distributed(l, g, FONE);
      Dot(Fft(p, g, |l|), l) == FAdd(FMul(p[0], Eval(l, FONE)), Dot(Fft(p[1..], g, |m|), m))
  {
    hide FieldLaws, Dot, Distributed;
    var m := Distributed(l, g, FONE);
    var w := seq(|l|, k requires 0 <= k < |l| => Pow(g, k));
    forall k | 0 <= k < |l|
      ensures Fft(p, g, |l|)[k] == FAdd(p[0], FMul(w[k], Fft(p[1..], g, |l|)[k])) && m[k] == FMul(l[k], w[k])
    {
      DistributedAt(l, g, FONE, k);
      FMulOne(Pow(g, k));
    }
    DotAffine(Fft(p, g, |l|), Fft(p[1..], g, |l|), w, l, m, p[0]);
  }

  /** A transform moves across an inner product: `<Fft p, l> == <p, Fft l>`. */
  lemma {:induction false} FftDual(p: seq<F>, l: seq<F>, g: F)
    requires FieldLaws()
    ensures Dot(Fft(p, g, |l|), l) == Dot(p, Fft(l, g, |p|))
    decreases |p|
  {
    if p == [] {
      DotZeros(Fft(p, g, |l|), l);
    } else {
      hide FieldLaws, Eval, Distributed;
      var m := Distributed(l, g, FONE);
      FftDual(p[1..], m, g);
      DotFftStep(p, l, g);
      FftShift(l, g, |p| - 1);
      FftAt(l, g, |p|, 0);
      hide Fft;
    }
  }

  lemma {:induction false} DotZeros(u: seq<F>, v: seq<F>)
    requires FieldLaws() && |u| == |v| && forall k | 0 <= k < |u| :: u[k] == FZERO
    ensures Dot(u, v) == FZERO
  {
    if u != [] {
      DotZeros(u[1..], v[1..]);
      FMulZero(v[0]);
      FAddZero(FZERO);
    }
  }
}
