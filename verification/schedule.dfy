/** The noise schedule of the diffusion model, over exact reals: `alphas`,
    their cumulative product, its right-shifted copy, and the posterior
    variance of `q(x_{t-1} | x_t, x_0)`. */
module Schedule {
  import opened Reals

  /** Every `beta[t]` lies strictly between 0 and 1. */
  predicate ValidBetas(betas: seq<real>) {
    forall t :: 0 <= t < |betas| ==> 0.0 < betas[t] < 1.0
  }

  /** Every entry lies strictly between 0 and 1. */
  predicate InUnit(s: seq<real>) {
    forall t :: 0 <= t < |s| ==> 0.0 < s[t] < 1.0
  }

  /** `alphas = 1. - betas`. */
  function Alphas(betas: seq<real>): (a: seq<real>)
    ensures |a| == |betas|
    ensures forall t :: 0 <= t < |a| ==> a[t] + betas[t] == 1.0
    ensures ValidBetas(betas) ==> InUnit(a)
  {
    seq(|betas|, t requires 0 <= t < |betas| => 1.0 - betas[t])
  }

  /** The product of all entries: the reference for the cumulative product. */
  function Prod(s: seq<real>): real {
    if s == [] then 1.0 else s[0] * Prod(s[1..])
  }

  /** Running products of `a`, each scaled by `acc`. */
  function RunningProduct(acc: real, a: seq<real>): (r: seq<real>)
    ensures |r| == |a|
    decreases |a|
  {
    if a == [] then [] else [acc * a[0]] + RunningProduct(acc * a[0], a[1..])
  }

  /** `torch.cumprod(alphas, axis=0)`. */
  function CumProd(a: seq<real>): (c: seq<real>)
    ensures |c| == |a|
  {
    RunningProduct(1.0, a)
  }

  lemma {:induction false} RunningProductIsProduct(acc: real, a: seq<real>, t: nat)
    requires t < |a|
    ensures RunningProduct(acc, a)[t] == acc * Prod(a[..t + 1])
    decreases t
  {
    if t > 0 {
      RunningProductIsProduct(acc * a[0], a[1..], t - 1);
      assert a[..t + 1] == [a[0]] + a[1..][..t];
      assert a[..t + 1][1..] == a[1..][..t];
    }
  }

  /** Entry `t` of the cumulative product is the product of the first `t + 1`
      alphas. */
  lemma CumProdIsProduct(a: seq<real>, t: nat)
    requires t < |a|
    ensures CumProd(a)[t] == Prod(a[..t + 1])
  {
    RunningProductIsProduct(1.0, a, t);
  }

  /** The product of a prefix one longer gains one factor. */
  lemma {:induction false} ProdSnoc(s: seq<real>, x: real)
    ensures Prod(s + [x]) == Prod(s) * x
  {
    if s != [] {
      ProdSnoc(s[1..], x);
      assert (s + [x])[1..] == s[1..] + [x];
    }
  }

  /** The cumulative product obeys `c[0] = a[0]` and `c[t + 1] = c[t] * a[t + 1]`. */
  lemma CumProdStep(a: seq<real>, t: nat)
    requires t + 1 < |a|
    ensures CumProd(a)[0] == a[0]
    ensures CumProd(a)[t + 1] == CumProd(a)[t] * a[t + 1]
  {
    CumProdIsProduct(a, 0);
    CumProdIsProduct(a, t);
    CumProdIsProduct(a, t + 1);
    assert a[..t + 2] == a[..t + 1] + [a[t + 1]];
    ProdSnoc(a[..t + 1], a[t + 1]);
    assert a[..1] == [a[0]];
  }

  lemma {:induction false} ProdInUnit(s: seq<real>)
    requires InUnit(s) && s != []
    ensures 0.0 < Prod(s) < 1.0
  {
    if |s| > 1 {
      ProdInUnit(s[1..]);
      Shrink(s[0], Prod(s[1..]));
    }
  }

  /** A product of two numbers in (0, 1) is in (0, 1) and below each factor. */
  lemma Shrink(x: real, y: real)
    requires 0.0 < x < 1.0 && 0.0 < y < 1.0
    ensures 0.0 < x * y < y && x * y < x
  {
  }

  /** Every cumulative product lies in (0, 1), and the sequence strictly
      decreases. */
  lemma CumProdBounds(betas: seq<real>)
    requires ValidBetas(betas)
    ensures InUnit(CumProd(Alphas(betas)))
    ensures forall t :: 0 <= t < |betas| - 1 ==> CumProd(Alphas(betas))[t + 1] < CumProd(Alphas(betas))[t]
  {
    var a := Alphas(betas);
    var c := CumProd(a);
    forall t | 0 <= t < |c| ensures 0.0 < c[t] < 1.0 {
      CumProdIsProduct(a, t);
      ProdInUnit(a[..t + 1]);
    }
    forall t | 0 <= t < |betas| - 1 ensures c[t + 1] < c[t] {
      CumProdStep(a, t);
      assert c[t + 1] == c[t] * a[t + 1];
      assert 0.0 < c[t] < 1.0 && 0.0 < a[t + 1] < 1.0;
      Shrink(c[t], a[t + 1]);
    }
  }

  /** `F.pad(alphas_cumprod[:-1], (1, 0), value=1.0)`: drop the last entry and
      put a 1 in front. */
  function ShiftRight(c: seq<real>): (p: seq<real>)
    ensures |p| == if c == [] then 1 else |c|
    ensures p[0] == 1.0
    ensures forall t :: 1 <= t < |c| ==> p[t] == c[t - 1]
  {
    if c == [] then [1.0] else [1.0] + c[..|c| - 1]
  }

  /** The shift undoes one cumulative step: `alphas_cumprod[t]` equals
      `alphas_cumprod_prev[t] * alphas[t]` at every step. */
  lemma ShiftedProductStep(betas: seq<real>, t: nat)
    requires t < |betas|
    ensures CumProd(Alphas(betas))[t] == ShiftRight(CumProd(Alphas(betas)))[t] * Alphas(betas)[t]
  {
    var a := Alphas(betas);
    if t == 0 {
      CumProdStep(a + [1.0], 0);
      assert CumProd(a)[0] == a[0] by {
        CumProdIsProduct(a, 0);
        assert a[..1] == [a[0]];
      }
    } else {
      CumProdStep(a, t - 1);
    }
  }

  /** Entry `t` of `posterior_variance = betas * (1. - alphas_cumprod_prev) / (1. - alphas_cumprod)`. */
  function PosteriorAt(betas: seq<real>, t: nat): (v: real)
    requires ValidBetas(betas) && t < |betas|
    ensures v * (1.0 - CumProd(Alphas(betas))[t]) == betas[t] * (1.0 - ShiftRight(CumProd(Alphas(betas)))[t])
  {
    var c := CumProd(Alphas(betas));
    CumProdBounds(betas);
    var n, d := betas[t] * (1.0 - ShiftRight(c)[t]), 1.0 - c[t];
    Quotient(n / d, n, d);
    n / d
  }

  /** `posterior_variance`; the bounds on the cumulative product make every
      denominator positive. */
  function PosteriorVariance(betas: seq<real>): (v: seq<real>)
    requires ValidBetas(betas)
    ensures |v| == |betas|
    ensures forall t :: 0 <= t < |v| ==> v[t] == PosteriorAt(betas, t)
  {
    seq(|betas|, t requires 0 <= t < |betas| => PosteriorAt(betas, t))
  }

  /** The posterior variance vanishes at the first step, and at every later
      step it is positive and strictly below `beta[t]`. */
  lemma PosteriorVarianceBounds(betas: seq<real>)
    requires ValidBetas(betas)
    ensures |betas| > 0 ==> PosteriorVariance(betas)[0] == 0.0
    ensures forall t :: 1 <= t < |betas| ==> 0.0 < PosteriorVariance(betas)[t] < betas[t]
  {
    if |betas| > 0 {
      PosteriorVarianceFirst(betas);
    }
    forall t | 1 <= t < |betas| ensures 0.0 < PosteriorVariance(betas)[t] < betas[t] {
      PosteriorVarianceLater(betas, t);
    }
  }

  lemma PosteriorVarianceFirst(betas: seq<real>)
    requires ValidBetas(betas) && |betas| > 0
    ensures PosteriorVariance(betas)[0] == 0.0
  {
    var c := CumProd(Alphas(betas));
    var v := PosteriorAt(betas, 0);
    CumProdBounds(betas);
    var d := 1.0 - c[0];
    assert d > 0.0;
    assert ShiftRight(c)[0] == 1.0;
    assert v * d == betas[0] * 0.0;
    ZeroProduct(v, d);
  }

  lemma PosteriorVarianceLater(betas: seq<real>, t: nat)
    requires ValidBetas(betas) && 1 <= t < |betas|
    ensures 0.0 < PosteriorVariance(betas)[t] < betas[t]
  {
    var c := CumProd(Alphas(betas));
    var v := PosteriorAt(betas, t);
    var n, d := 1.0 - c[t - 1], 1.0 - c[t];
    assert 0.0 < n < d by {
      CumProdBounds(betas);
    }
    assert v * d == betas[t] * n by {
      assert ShiftRight(c)[t] == c[t - 1];
    }
    ShrinkingRatio(v, betas[t], n, d);
  }

  lemma ZeroProduct(x: real, d: real)
    requires d != 0.0 && x * d == 0.0
    ensures x == 0.0
  {
  }

  /** If `v * d == b * n` with `0 < n < d`, then `v` lies in `(0, b)`. */
  lemma ShrinkingRatio(v: real, b: real, n: real, d: real)
    requires 0.0 < b && 0.0 < n < d && v * d == b * n
    ensures 0.0 < v < b
  {
    if v <= 0.0 {
      MulMono(v, 0.0, d);
    }
    if v >= b {
      MulMono(b, v, d);
      StrictMono(n, d, b);
    }
  }

  lemma MulMono(x: real, y: real, d: real)
    requires x <= y && d > 0.0
    ensures x * d <= y * d
  {
  }

  lemma StrictMono(x: real, y: real, b: real)
    requires x < y && b > 0.0
    ensures b * x < b * y
  {
  }

  /** Each cumulative product is the previous one times the current alpha. */
  predicate StepsAgree(c: seq<real>, prev: seq<real>, a: seq<real>) {
    |c| == |a| <= |prev| && forall t :: 0 <= t < |c| ==> c[t] == prev[t] * a[t]
  }

  lemma ShiftedProductSteps(betas: seq<real>)
    ensures StepsAgree(CumProd(Alphas(betas)), ShiftRight(CumProd(Alphas(betas))), Alphas(betas))
  {
    forall t | 0 <= t < |betas|
      ensures CumProd(Alphas(betas))[t] == ShiftRight(CumProd(Alphas(betas)))[t] * Alphas(betas)[t]
    {
      ShiftedProductStep(betas, t);
    }
  }

  /** All the tensors of the schedule derived from `betas`. */
  datatype Derived = Derived(
    alphas: seq<real>,
    alphasCumprod: seq<real>,
    alphasCumprodPrev: seq<real>,
    posteriorVariance: seq<real>)

  /** The per-step tensors derived from the noise schedule: `1 - β`, its
      running product, that product shifted right by one with a leading 1,
      and the posterior variance. The square-root tensors are not modelled. */
  function Derive(betas: seq<real>): (d: Derived)
    requires ValidBetas(betas)
    ensures |d.alphas| == |d.alphasCumprod| == |d.posteriorVariance| == |betas|
    ensures InUnit(d.alphas) && InUnit(d.alphasCumprod)
    ensures |d.alphasCumprodPrev| == if |betas| == 0 then 1 else |betas|
    ensures d.alphasCumprodPrev[0] == 1.0
    ensures StepsAgree(d.alphasCumprod, d.alphasCumprodPrev, d.alphas)
    ensures forall t :: 0 <= t < |betas| ==> 0.0 <= d.posteriorVariance[t] <= betas[t]
  {
    var a := Alphas(betas);
    var c := CumProd(a);
    CumProdBounds(betas);
    PosteriorVarianceBounds(betas);
    ShiftedProductSteps(betas);
    Derived(a, c, ShiftRight(c), PosteriorVariance(betas))
  }
}
