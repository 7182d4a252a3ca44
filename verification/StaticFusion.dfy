/** Inverse-variance fusion of independent scalar measurements: the loop, and the
    proof that it is the best linear unbiased combination. */
module StaticFusion {
  import opened Reals

  datatype FuseStatus = Fused | NoMeasurements | BadVariance

  ghost predicate AllPositive(vs: seq<real>) {
    forall i :: 0 <= i < |vs| ==> vs[i] > 0.0
  }

  ghost function SumInverse(vs: seq<real>): real
    requires AllPositive(vs)
  {
    if vs == [] then 0.0 else SumInverse(vs[..|vs| - 1]) + 1.0 / vs[|vs| - 1]
  }

  ghost function SumScaled(ms: seq<real>, vs: seq<real>): real
    requires |ms| == |vs| && AllPositive(vs)
  {
    var n := |ms| - 1;
    if ms == [] then 0.0 else SumScaled(ms[..n], vs[..n]) + Times(ms[n], 1.0 / vs[n])
  }

  ghost function Sum(ws: seq<real>): real {
    if ws == [] then 0.0 else Sum(ws[..|ws| - 1]) + ws[|ws| - 1]
  }

  /** The value of the linear estimate with weights `ws`. */
  ghost function Combine(ws: seq<real>, ms: seq<real>): real
    requires |ws| == |ms|
  {
    var n := |ws| - 1;
    if ws == [] then 0.0 else Combine(ws[..n], ms[..n]) + Times(ws[n], ms[n])
  }

  /** The variance of that estimate when the measurements are independent. */
  ghost function VarianceOf(ws: seq<real>, vs: seq<real>): real
    requires |ws| == |vs|
  {
    var n := |ws| - 1;
    if ws == [] then 0.0 else VarianceOf(ws[..n], vs[..n]) + Times(Times(ws[n], ws[n]), vs[n])
  }

  /** `c` is the inverse of `s`, and `mean` is `t / s`. */
  ghost predicate Inverts(c: real, s: real, t: real, mean: real) {
    c * s == 1.0 && mean == t * c
  }

  method Fuse(means: seq<real>, variances: seq<real>)
    returns (st: FuseStatus, mean: real, variance: real)
    requires |means| == |variances|
    ensures st == NoMeasurements <==> means == []
    ensures st == BadVariance <==> exists i :: 0 <= i < |means| && variances[i] <= 0.0
    ensures st == Fused ==>
              && AllPositive(variances)
              && Inverts(variance, SumInverse(variances), SumScaled(means, variances), mean)
  {
    hide Times;
    mean, variance := 0.0, 0.0;
    if |means| == 0 { return NoMeasurements, mean, variance; }
    var sumInverse, sumScaled := 0.0, 0.0;
    for i := 0 to |means|
      invariant AllPositive(variances[..i])
      invariant sumInverse == SumInverse(variances[..i]) && (i > 0 ==> sumInverse > 0.0)
      invariant sumScaled == SumScaled(means[..i], variances[..i])
    {
      if variances[i] <= 0.0 { return BadVariance, mean, variance; }
      var w := 1.0 / variances[i];
      assert variances[..i + 1][..i] == variances[..i] && means[..i + 1][..i] == means[..i];
      assert sumInverse >= 0.0 && w > 0.0;
      TimesIs(means[i], w);
      sumInverse := sumInverse + w;
      sumScaled := sumScaled + means[i] * w;
    }
    assert variances[..|means|] == variances && means[..|means|] == means;
    Quotient(sumScaled, sumInverse);
    return Fused, sumScaled / sumInverse, 1.0 / sumInverse;
  }

  lemma TimesIs(a: real, b: real)
    ensures Times(a, b) == a * b
  {
  }

  lemma Quotient(a: real, b: real)
    requires b != 0.0
    ensures a / b == a * (1.0 / b) && 1.0 / b * b == 1.0
  {
    var q, r := a / b, 1.0 / b;
    assert q * b == a && r * b == 1.0;
    assert a * r == q * (b * r);
  }

  /** The weights the loop uses, once divided by their sum. */
  ghost function FusedWeights(vs: seq<real>, variance: real): (ws: seq<real>)
    requires AllPositive(vs)
    ensures |ws| == |vs|
  {
    if vs == [] then [] else FusedWeights(vs[..|vs| - 1], variance) + [Times(variance, 1.0 / vs[|vs| - 1])]
  }

  lemma {:induction false} FusedSums(ms: seq<real>, vs: seq<real>, c: real)
    requires |ms| == |vs| && AllPositive(vs)
    ensures Sum(FusedWeights(vs, c)) == Times(c, SumInverse(vs))
    ensures Combine(FusedWeights(vs, c), ms) == Times(SumScaled(ms, vs), c)
    ensures VarianceOf(FusedWeights(vs, c), vs) == Times(Times(c, c), SumInverse(vs))
  {
    if vs != [] {
      var n := |vs| - 1;
      FusedSums(ms[..n], vs[..n], c);
      hide Times;
      var ws := FusedWeights(vs, c);
      assert ws[..n] == FusedWeights(vs[..n], c);
      FusedTerm(c, 1.0 / vs[n], vs[n], ms[n], SumInverse(vs[..n]), SumScaled(ms[..n], vs[..n]), ws[n]);
    }
  }

  lemma FusedTerm(c: real, w: real, v: real, m: real, s: real, t: real, x: real)
    requires v > 0.0 && w == 1.0 / v && x == Times(c, w)
    ensures Times(c, s) + x == Times(c, s + w)
    ensures Times(t, c) + Times(x, m) == Times(t + Times(m, w), c)
    ensures Times(Times(c, c), s) + Times(Times(x, x), v) == Times(Times(c, c), s + w)
  {
    assert x * x * v == c * c * w * (w * v);
  }

  /** Each term contributes a nonnegative square `(w - c/v)^2 v`. */
  lemma {:induction false} Squares(ws: seq<real>, vs: seq<real>, c: real)
    requires |ws| == |vs| && AllPositive(vs)
    ensures VarianceOf(ws, vs) >= Bound(c, Sum(ws), SumInverse(vs))
  {
    if ws != [] {
      var n := |ws| - 1;
      Squares(ws[..n], vs[..n], c);
      hide Times, Bound;
      BoundStep(ws[n], vs[n], c, Sum(ws[..n]), SumInverse(vs[..n]), VarianceOf(ws[..n], vs[..n]));
    }
  }

  /** The tangent lower bound at the weights `c / v`. */
  ghost function Bound(c: real, s: real, t: real): real {
    2.0 * c * s - c * c * t
  }

  lemma BoundStep(w: real, v: real, c: real, s: real, t: real, q: real)
    requires v > 0.0 && q >= Bound(c, s, t)
    ensures q + Times(Times(w, w), v) >= Bound(c, s + w, t + 1.0 / v)
  {
    Tangent(w, v, 1.0 / v, c);
    assert Bound(c, s + w, t + 1.0 / v) == Bound(c, s, t) + Bound(c, w, 1.0 / v);
  }

  lemma Tangent(w: real, v: real, r: real, c: real)
    requires v > 0.0 && r * v == 1.0
    ensures Times(Times(w, w), v) >= Bound(c, w, r)
  {
    var d := w - c * r;
    assert d * d >= 0.0;
    assert d * d * v >= 0.0;
    assert d * d * v == w * w * v - 2.0 * c * w * (r * v) + c * c * r * (r * v);
  }

  lemma Normalised(c: real, s: real, t: real, mean: real)
    requires Inverts(c, s, t, mean)
    ensures Times(c, s) == 1.0 && Times(t, c) == mean && Times(Times(c, c), s) == c && Bound(c, 1.0, s) == c
  {
    assert c * c * s == c * (c * s);
  }

  /** The fused estimate is a linear combination with weights summing to one, its
      reported variance is the variance of that combination, and no other
      unbiased linear combination has a smaller variance. */
  lemma FusionIsOptimal(ms: seq<real>, vs: seq<real>, mean: real, variance: real, others: seq<real>)
    requires |ms| == |vs| == |others| && AllPositive(vs)
    requires Inverts(variance, SumInverse(vs), SumScaled(ms, vs), mean)
    requires Sum(others) == 1.0
    ensures var ws := FusedWeights(vs, variance);
            Sum(ws) == 1.0 && Combine(ws, ms) == mean && VarianceOf(ws, vs) == variance
    ensures variance <= VarianceOf(others, vs)
  {
    hide Times, Bound, Inverts;
    FusedSums(ms, vs, variance);
    Normalised(variance, SumInverse(vs), SumScaled(ms, vs), mean);
    Squares(others, vs, variance);
  }

  /** In particular the fused variance is below every single measurement's. */
  lemma FusionBeatsEachMeasurement(ms: seq<real>, vs: seq<real>, variance: real, k: nat)
    requires |ms| == |vs| && k < |vs| && AllPositive(vs)
    requires variance * SumInverse(vs) == 1.0
    ensures variance <= vs[k]
  {
    var alone := Only(|vs|, k);
    OnlySums(vs, k, |vs|);
    assert vs[..|vs|] == vs;
    Squares(alone, vs, variance);
    Normalised(variance, SumInverse(vs), 0.0, 0.0);
  }

  ghost function Only(n: nat, k: nat): (ws: seq<real>)
    ensures |ws| == n && forall i :: 0 <= i < n ==> ws[i] == if i == k then 1.0 else 0.0
  {
    seq(n, i => if i == k then 1.0 else 0.0)
  }

  lemma {:induction false} OnlySums(vs: seq<real>, k: nat, n: nat)
    requires k < |vs| && n <= |vs|
    ensures Sum(Only(n, k)) == if k < n then 1.0 else 0.0
    ensures VarianceOf(Only(n, k), vs[..n]) == if k < n then vs[k] else 0.0
  {
    if n > 0 {
      OnlySums(vs, k, n - 1);
      assert Only(n, k)[..n - 1] == Only(n - 1, k) && vs[..n][..n - 1] == vs[..n - 1];
    }
  }
}
