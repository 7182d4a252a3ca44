/** The filter as it is stored and updated: mean and covariance in flat arrays,
    matrix products by accumulating loops over local 4x4 arrays. Every method is
    tied to the exact-arithmetic functions of module Estimator. */
module KalmanFilter {
  import opened Reals
  import opened Matrix
  import opened Estimator

  ghost function OfArray2(a: array2<real>): M4
    requires a.Length0 == 4 && a.Length1 == 4
    reads a
  {
    M4(V4(a[0, 0], a[0, 1], a[0, 2], a[0, 3]), V4(a[1, 0], a[1, 1], a[1, 2], a[1, 3]),
       V4(a[2, 0], a[2, 1], a[2, 2], a[2, 3]), V4(a[3, 0], a[3, 1], a[3, 2], a[3, 3]))
  }

  ghost function OfArray(a: array<real>): V4
    requires a.Length == 4
    reads a
  {
    V4(a[0], a[1], a[2], a[3])
  }

  ghost function OfFlat(a: array<real>): M4
    requires a.Length == 16
    reads a
  {
    M4(V4(a[0], a[1], a[2], a[3]), V4(a[4], a[5], a[6], a[7]),
       V4(a[8], a[9], a[10], a[11]), V4(a[12], a[13], a[14], a[15]))
  }

  /** The accumulator of an inner product after `n` terms, in the order of the loops. */
  ghost function Partial(u: V4, v: V4, n: nat): real
    requires n <= 4
  {
    if n == 0 then 0.0 else Partial(u, v, n - 1) + At(u, n - 1) * At(v, n - 1)
  }

  lemma PartialIsDot(u: V4, v: V4)
    ensures Partial(u, v, 4) == Dot(u, v)
  {
    assert Partial(u, v, 1) == u.x0 * v.x0;
    assert Partial(u, v, 2) == u.x0 * v.x0 + u.x1 * v.x1;
  }

  lemma Array2Is(a: array2<real>, m: M4)
    requires a.Length0 == 4 && a.Length1 == 4
    requires forall i: Index, j: Index :: a[i, j] == Entry(m, i, j)
    ensures OfArray2(a) == m
  {
    SameEntries(OfArray2(a), m);
  }

  lemma EntriesOf(a: array2<real>)
    requires a.Length0 == 4 && a.Length1 == 4
    ensures forall i: Index, j: Index :: a[i, j] == Entry(OfArray2(a), i, j)
  {
  }

  method Multiply(a: array2<real>, b: array2<real>) returns (c: array2<real>)
    requires a.Length0 == 4 && a.Length1 == 4 && b.Length0 == 4 && b.Length1 == 4
    ensures fresh(c) && c.Length0 == 4 && c.Length1 == 4
    ensures OfArray2(c) == Mul(OfArray2(a), OfArray2(b))
  {
    hide Mul, Dot;
    c := new real[4, 4];
    ghost var ma, mb := OfArray2(a), OfArray2(b);
    for i := 0 to 4
      invariant forall p: Index, q: Index :: p < i ==> c[p, q] == Entry(Mul(ma, mb), p, q)
    {
      for j := 0 to 4
        invariant forall p: Index, q: Index :: p < i ==> c[p, q] == Entry(Mul(ma, mb), p, q)
        invariant forall q: Index :: q < j ==> c[i, q] == Entry(Mul(ma, mb), i, q)
      {
        c[i, j] := 0.0;
        for k := 0 to 4
          invariant forall p: Index, q: Index :: p < i ==> c[p, q] == Entry(Mul(ma, mb), p, q)
          invariant forall q: Index :: q < j ==> c[i, q] == Entry(Mul(ma, mb), i, q)
          invariant c[i, j] == Partial(Row(ma, i), Col(mb, j), k)
        {
          c[i, j] := c[i, j] + a[i, k] * b[k, j];
        }
        PartialIsDot(Row(ma, i), Col(mb, j));
        MulEntry(ma, mb, i, j);
      }
    }
    Array2Is(c, Mul(ma, mb));
  }

  method MultiplyTransposed(a: array2<real>, b: array2<real>) returns (c: array2<real>)
    requires a.Length0 == 4 && a.Length1 == 4 && b.Length0 == 4 && b.Length1 == 4
    ensures fresh(c) && c.Length0 == 4 && c.Length1 == 4
    ensures OfArray2(c) == Mul(OfArray2(a), Transpose(OfArray2(b)))
  {
    hide Mul, Dot;
    c := new real[4, 4];
    ghost var ma, mb := OfArray2(a), Transpose(OfArray2(b));
    for i := 0 to 4
      invariant forall p: Index, q: Index :: p < i ==> c[p, q] == Entry(Mul(ma, mb), p, q)
    {
      for j := 0 to 4
        invariant forall p: Index, q: Index :: p < i ==> c[p, q] == Entry(Mul(ma, mb), p, q)
        invariant forall q: Index :: q < j ==> c[i, q] == Entry(Mul(ma, mb), i, q)
      {
        c[i, j] := 0.0;
        for k := 0 to 4
          invariant forall p: Index, q: Index :: p < i ==> c[p, q] == Entry(Mul(ma, mb), p, q)
          invariant forall q: Index :: q < j ==> c[i, q] == Entry(Mul(ma, mb), i, q)
          invariant c[i, j] == Partial(Row(ma, i), Col(mb, j), k)
        {
          c[i, j] := c[i, j] + a[i, k] * b[j, k];
        }
        PartialIsDot(Row(ma, i), Col(mb, j));
        MulEntry(ma, mb, i, j);
      }
    }
    Array2Is(c, Mul(ma, mb));
  }

  method ApplyTo(f: array2<real>, v: array<real>) returns (x: array<real>)
    requires f.Length0 == 4 && f.Length1 == 4 && v.Length == 4
    ensures fresh(x) && x.Length == 4 && OfArray(x) == Apply(OfArray2(f), OfArray(v))
  {
    hide Dot;
    ghost var m, w := OfArray2(f), OfArray(v);
    x := new real[4];
    for i := 0 to 4
      invariant forall r: Index :: r < i ==> x[r] == Dot(Row(m, r), w)
    {
      x[i] := 0.0;
      for j := 0 to 4
        invariant forall r: Index :: r < i ==> x[r] == Dot(Row(m, r), w)
        invariant x[i] == Partial(Row(m, i), w, j)
      {
        x[i] := x[i] + f[i, j] * v[j];
      }
      PartialIsDot(Row(m, i), w);
    }
    assert x[0] == Dot(Row(m, 0), w) && x[1] == Dot(Row(m, 1), w);
    assert x[2] == Dot(Row(m, 2), w) && x[3] == Dot(Row(m, 3), w);
  }

  class KalmanState {
    var initialized: bool
    const mean: array<real>
    const covariance: array<real>
    var lastUpdate: int

    ghost predicate Valid()
      reads this
    {
      mean.Length == 4 && covariance.Length == 16 && mean != covariance
    }

    ghost function Value(): Kf
      requires Valid()
      reads this, mean, covariance
    {
      Kf(initialized, OfArray(mean), OfFlat(covariance), lastUpdate)
    }

    constructor ()
      ensures Valid() && fresh(mean) && fresh(covariance) && !initialized
    {
      initialized := false;
      mean := new real[4](_ => 0.0);
      covariance := new real[16](_ => 0.0);
      lastUpdate := 0;
    }

    method Init(p: Params, x0: real, y0: real, time: int)
      requires Valid()
      modifies this, mean, covariance
      ensures Valid() && Value() == Initial(p, x0, y0, time)
    {
      mean[0] := x0;
      mean[1] := y0;
      mean[2] := 0.0;
      mean[3] := 0.0;
      ghost var m := Initial(p, x0, y0, time).cov;
      for i := 0 to 4
        invariant OfArray(mean) == V4(x0, y0, 0.0, 0.0)
        invariant forall r: Index, c: Index :: r < i ==> covariance[4 * r + c] == Entry(m, r, c)
      {
        for j := 0 to 4
          invariant OfArray(mean) == V4(x0, y0, 0.0, 0.0)
          invariant forall r: Index, c: Index :: r < i ==> covariance[4 * r + c] == Entry(m, r, c)
          invariant forall c: Index :: c < j ==> covariance[4 * i + c] == Entry(m, i, c)
        {
          covariance[4 * i + j] :=
            if i != j then 0.0 else if i < 2 then p.initialPositionVariance else p.initialVelocityVariance;
        }
      }
      FlatIs(m);
      lastUpdate := time;
      initialized := true;
    }

    lemma FlatIs(m: M4)
      requires Valid()
      requires forall r: Index, c: Index :: covariance[4 * r + c] == Entry(m, r, c)
      ensures OfFlat(covariance) == m
    {
      forall r: Index, c: Index
        ensures Entry(OfFlat(covariance), r, c) == Entry(m, r, c)
      {
        assert covariance[4 * r + c] == Entry(m, r, c);
      }
      SameEntries(OfFlat(covariance), m);
    }

    /** Copies the stored covariance to a local matrix. */
    method LoadCovariance() returns (p: array2<real>)
      requires Valid()
      ensures fresh(p) && p.Length0 == 4 && p.Length1 == 4 && OfArray2(p) == OfFlat(covariance)
    {
      p := new real[4, 4];
      for i := 0 to 4
        invariant forall r: Index, c: Index :: r < i ==> p[r, c] == covariance[4 * r + c]
      {
        for j := 0 to 4
          invariant forall r: Index, c: Index :: r < i ==> p[r, c] == covariance[4 * r + c]
          invariant forall c: Index :: c < j ==> p[i, c] == covariance[4 * i + c]
        {
          p[i, j] := covariance[4 * i + j];
        }
      }
      forall i: Index, j: Index
        ensures p[i, j] == Entry(OfFlat(covariance), i, j)
      {
        assert p[i, j] == covariance[4 * i + j];
      }
      Array2Is(p, OfFlat(covariance));
    }

    /** Stores a local matrix plus a diagonal `(d0, d0, d1, d1)`. */
    method StoreCovariance(p: array2<real>, d0: real, d1: real)
      requires Valid() && p.Length0 == 4 && p.Length1 == 4
      modifies covariance
      ensures OfFlat(covariance) == AddM(old(OfArray2(p)), Diagonal(V4(d0, d0, d1, d1)))
      ensures OfArray(mean) == old(OfArray(mean))
    {
      ghost var m := AddM(OfArray2(p), Diagonal(V4(d0, d0, d1, d1)));
      for i := 0 to 4
        invariant OfArray(mean) == old(OfArray(mean))
        invariant forall r: Index, c: Index :: r < i ==> covariance[4 * r + c] == Entry(m, r, c)
      {
        for j := 0 to 4
          invariant OfArray(mean) == old(OfArray(mean))
          invariant forall r: Index, c: Index :: r < i ==> covariance[4 * r + c] == Entry(m, r, c)
          invariant forall c: Index :: c < j ==> covariance[4 * i + c] == Entry(m, i, c)
        {
          var q := 0.0;
          if i == j { q := if i < 2 then d0 else d1; }
          covariance[4 * i + j] := p[i, j] + q;
        }
      }
      FlatIs(m);
    }

    method Predict(p: Params, time: int) returns (st: Status)
      requires Valid()
      modifies this, mean, covariance
      ensures Valid() && (Value(), st) == Predicted(old(Value()), p, time)
    {
      hide OfFlat, OfArray, Sandwich, Apply, AddM, ProcessNoise, Transition;
      if !initialized { return InvalidArgument; }
      if time == lastUpdate { return Ok; }
      var dt := (time - lastUpdate) as real / NANOSECONDS;
      assert dt == Elapsed(Value(), time);
      if dt < 0.0 { return BadTiming; }
      if p.maxPredictionGap > 0.0 && dt > p.maxPredictionGap { return BadTiming; }
      Propagate(p, dt);
      lastUpdate := time;
      return Ok;
    }

    /** Carries mean and covariance across an interval. */
    method Propagate(p: Params, dt: real)
      requires Valid()
      modifies mean, covariance
      ensures OfArray(mean) == Apply(Transition(dt), old(OfArray(mean)))
      ensures OfFlat(covariance) == AddM(Sandwich(Transition(dt), old(OfFlat(covariance))), ProcessNoise(p, dt))
    {
      hide Mul, Apply, AddM, Diagonal, Transpose;
      var (d0, d1) := (p.processNoisePosition * dt, p.processNoiseVelocity * dt);
      NoiseIs(p, dt, d0, d1);
      hide ProcessNoise;
      var f := new real[4, 4]((i, j) => if i == j then 1.0 else if j == i + 2 then dt else 0.0);
      assert OfArray2(f) == Transition(dt);
      hide Transition;
      var cov := LoadCovariance();
      var x := ApplyTo(f, mean);
      var fp := Multiply(f, cov);
      var fpft := MultiplyTransposed(fp, f);
      StoreCovariance(fpft, d0, d1);
      CopyMean(x);
    }

    method CopyMean(x: array<real>)
      requires Valid() && x.Length == 4 && x != mean && x != covariance
      modifies mean
      ensures OfArray(mean) == OfArray(x) && OfFlat(covariance) == old(OfFlat(covariance))
    {
      for i := 0 to 4
        invariant OfFlat(covariance) == old(OfFlat(covariance)) && OfArray(x) == old(OfArray(x))
        invariant forall r: Index :: r < i ==> mean[r] == x[r]
      {
        mean[i] := x[i];
      }
    }

    method UpdatePosition(p: Params, time: int, zx: real, zy: real, r: M2) returns (st: Status)
      requires Valid()
      modifies this, mean, covariance
      ensures Valid() && (Value(), st) == Updated(old(Value()), p, time, V2(zx, zy), r)
    {
      hide OfFlat, Predicted, Joseph, Corrected, Inverse, OptimalGain;
      st := Predict(p, time);
      if st != Ok { return; }
      var cov := LoadCovariance();
      ghost var mc := OfArray2(cov);
      var y := V2(zx - mean[0], zy - mean[1]);
      var s := M2(cov[0, 0] + r.m00, cov[0, 1] + r.m01, cov[1, 0] + r.m10, cov[1, 1] + r.m11);
      assert s == Innovation(mc, r);
      var det := s.m00 * s.m11 - s.m01 * s.m10;
      assert det == Det(s);
      if Abs(det) < SINGULAR_BELOW { return BadCovariance; }
      ghost var g := OptimalGain(mc, s);
      var k := ComputeGain(cov, s, det);
      CorrectMean(k, y, g, V2(zx, zy));
      JosephForm(cov, k, r, g);
    }

    /** The gain `P HT S^-1` as a 4x2 array. */
    static method ComputeGain(cov: array2<real>, s: M2, det: real) returns (k: array2<real>)
      requires cov.Length0 == 4 && cov.Length1 == 4 && det == Det(s) && det != 0.0
      ensures fresh(k) && k.Length0 == 4 && k.Length1 == 2
      ensures GainIs(k, OptimalGain(OfArray2(cov), s))
    {
      var inv := M2(s.m11 / det, -s.m01 / det, -s.m10 / det, s.m00 / det);
      assert inv == Inverse(s);
      hide Inverse, Det, OptimalGain;
      k := GainRows(cov, inv, s);
    }

    static method GainRows(cov: array2<real>, inv: M2, ghost s: M2) returns (k: array2<real>)
      requires cov.Length0 == 4 && cov.Length1 == 4 && Det(s) != 0.0 && inv == Inverse(s)
      ensures fresh(k) && k.Length0 == 4 && k.Length1 == 2
      ensures GainIs(k, OptimalGain(OfArray2(cov), s))
    {
      EntriesOf(cov);
      hide *;
      ghost var g := OptimalGain(OfArray2(cov), s);
      k := new real[4, 2];
      for i := 0 to 4
        invariant forall n: Index :: n < i ==> k[n, 0] == At(g.k0, n) && k[n, 1] == At(g.k1, n)
      {
        var (k0, k1) := (Lin(cov[i, 0], inv.m00, cov[i, 1], inv.m10), Lin(cov[i, 0], inv.m01, cov[i, 1], inv.m11));
        GainAt(OfArray2(cov), s, inv, i, cov[i, 0], cov[i, 1], k0, k1);
        k[i, 0] := k0;
        k[i, 1] := k1;
      }
    }

    static lemma GainAt(cov: M4, s: M2, inv: M2, n: Index, p0: real, p1: real, k0: real, k1: real)
      requires Det(s) != 0.0 && inv == Inverse(s) && p0 == Entry(cov, n, 0) && p1 == Entry(cov, n, 1)
      requires k0 == Lin(p0, inv.m00, p1, inv.m10) && k1 == Lin(p0, inv.m01, p1, inv.m11)
      ensures At(OptimalGain(cov, s).k0, n) == k0 && At(OptimalGain(cov, s).k1, n) == k1
    {
      hide Inverse, Det, At, Add, Scale;
      CombinedAt(inv.m00, Col(cov, 0), inv.m10, Col(cov, 1), n);
      CombinedAt(inv.m01, Col(cov, 0), inv.m11, Col(cov, 1), n);
      ColumnAt(cov, n, 0);
      ColumnAt(cov, n, 1);
    }

    static ghost predicate GainIs(k: array2<real>, g: Gain)
      requires k.Length0 == 4 && k.Length1 == 2
      reads k
    {
      forall n: Index :: k[n, 0] == At(g.k0, n) && k[n, 1] == At(g.k1, n)
    }

    method CorrectMean(k: array2<real>, y: V2, ghost g: Gain, ghost z: V2)
      requires Valid() && k.Length0 == 4 && k.Length1 == 2 && GainIs(k, g)
      requires y == V2(z.a - mean[0], z.b - mean[1])
      modifies mean
      ensures OfArray(mean) == Corrected(old(OfArray(mean)), g, z)
      ensures OfFlat(covariance) == old(OfFlat(covariance))
    {
      hide Corrected;
      ghost var m0, target := OfArray(mean), Corrected(OfArray(mean), g, z);
      for i := 0 to 4
        invariant OfFlat(covariance) == old(OfFlat(covariance))
        invariant forall n: Index :: n < i ==> mean[n] == At(target, n)
        invariant forall n: Index :: i <= n ==> mean[n] == At(m0, n)
      {
        var correction := k[i, 0] * y.a + k[i, 1] * y.b;
        CorrectedAt(m0, g, z, i, k[i, 0], k[i, 1], y.a, y.b, correction);
        mean[i] := mean[i] + correction;
      }
      assert mean[0] == At(target, 0) && mean[1] == At(target, 1);
      assert mean[2] == At(target, 2) && mean[3] == At(target, 3);
    }

    /** The Joseph update of the stored covariance, given the gain array. */
    method JosephForm(cov: array2<real>, k: array2<real>, r: M2, ghost g: Gain)
      requires Valid() && cov.Length0 == 4 && cov.Length1 == 4 && k.Length0 == 4 && k.Length1 == 2
      requires GainIs(k, g)
      modifies covariance
      ensures OfFlat(covariance) == Joseph(old(OfArray2(cov)), g, r) && OfArray(mean) == old(OfArray(mean))
    {
      hide Mul, Transpose, Spread, Residual, AddM, OfArray2, OfFlat, OfArray;
      var ikh := BuildResidual(k, g);
      var tmp := Multiply(ikh, cov);
      var pNew := MultiplyTransposed(tmp, ikh);
      AddSpread(pNew, k, r, g);
      AddNothing(OfArray2(pNew));
      StoreCovariance(pNew, 0.0, 0.0);
    }

    static method BuildResidual(k: array2<real>, ghost g: Gain) returns (ikh: array2<real>)
      requires k.Length0 == 4 && k.Length1 == 2 && GainIs(k, g)
      ensures fresh(ikh) && ikh.Length0 == 4 && ikh.Length1 == 4 && OfArray2(ikh) == Residual(g)
    {
      hide Residual, Entry, At;
      ikh := new real[4, 4];
      for i := 0 to 4
        invariant forall n: Index, m: Index :: n < i ==> ikh[n, m] == Entry(Residual(g), n, m)
      {
        for j := 0 to 4
          invariant forall n: Index, m: Index :: n < i ==> ikh[n, m] == Entry(Residual(g), n, m)
          invariant forall m: Index :: m < j ==> ikh[i, m] == Entry(Residual(g), i, m)
        {
          var kh := if j == 0 then k[i, 0] else if j == 1 then k[i, 1] else 0.0;
          ikh[i, j] := (if i == j then 1.0 else 0.0) - kh;
          ResidualAt(g, i, j);
        }
      }
      Array2Is(ikh, Residual(g));
    }

    /** Adds `K R KT` in place. */
    static method AddSpread(pNew: array2<real>, k: array2<real>, r: M2, ghost g: Gain)
      requires pNew.Length0 == 4 && pNew.Length1 == 4 && k.Length0 == 4 && k.Length1 == 2
      requires GainIs(k, g) && pNew != k
      modifies pNew
      ensures OfArray2(pNew) == AddM(old(OfArray2(pNew)), Spread(g, r))
    {
      hide Spread, AddM;
      ghost var before := OfArray2(pNew);
      EntriesOf(pNew);
      hide At, Entry;
      ghost var target := AddM(before, Spread(g, r));
      for i := 0 to 4
        invariant forall n: Index, m: Index :: n < i ==> pNew[n, m] == Entry(target, n, m)
        invariant forall n: Index, m: Index :: i <= n ==> pNew[n, m] == Entry(before, n, m)
      {
        var kr0 := k[i, 0] * r.m00 + k[i, 1] * r.m10;
        var kr1 := k[i, 0] * r.m01 + k[i, 1] * r.m11;
        for j := 0 to 4
          invariant forall n: Index, m: Index :: n < i ==> pNew[n, m] == Entry(target, n, m)
          invariant forall m: Index :: m < j ==> pNew[i, m] == Entry(target, i, m)
          invariant forall n: Index, m: Index :: i < n || (n == i && j <= m) ==> pNew[n, m] == Entry(before, n, m)
        {
          var krk := kr0 * k[j, 0] + kr1 * k[j, 1];
          SpreadAt(g, r, i, j, k[i, 0], k[i, 1], k[j, 0], k[j, 1], kr0, kr1, krk);
          AddEntry(before, Spread(g, r), i, j);
          pNew[i, j] := pNew[i, j] + krk;
        }
      }
      Array2Is(pNew, target);
    }

    static lemma ResidualAt(g: Gain, i: Index, j: Index)
      ensures Entry(Residual(g), i, j)
           == (if i == j then 1.0 else 0.0) - (if j == 0 then At(g.k0, i) else if j == 1 then At(g.k1, i) else 0.0)
    {
    }

    static lemma SpreadAt(g: Gain, r: M2, i: Index, j: Index,
                          a: real, b: real, c: real, d: real, kr0: real, kr1: real, krk: real)
      requires a == At(g.k0, i) && b == At(g.k1, i) && c == At(g.k0, j) && d == At(g.k1, j)
      requires kr0 == a * r.m00 + b * r.m10 && kr1 == a * r.m01 + b * r.m11
      requires krk == kr0 * c + kr1 * d
      ensures Entry(Spread(g, r), i, j) == krk
    {
      hide Spread, Entry, At;
      SpreadEntry(g, r, i, j);
      SpreadScalarIs(r, a, b, c, d, kr0, kr1);
    }

    static lemma SpreadScalarIs(r: M2, a: real, b: real, c: real, d: real, kr0: real, kr1: real)
      requires kr0 == a * r.m00 + b * r.m10 && kr1 == a * r.m01 + b * r.m11
      ensures SpreadScalar(r, a, b, c, d) == kr0 * c + kr1 * d
    {
    }

    static lemma CorrectedAt(m: V4, g: Gain, z: V2, n: Index, a: real, b: real, ya: real, yb: real, c: real)
      requires a == At(g.k0, n) && b == At(g.k1, n) && ya == z.a - m.x0 && yb == z.b - m.x1
      requires c == a * ya + b * yb
      ensures At(Corrected(m, g, z), n) == At(m, n) + c
    {
      hide At, Add, Scale;
      CombinedAt(ya, g.k0, yb, g.k1, n);
      AddAt(m, Add(Scale(ya, g.k0), Scale(yb, g.k1)), n);
      assert Corrected(m, g, z) == Add(m, Add(Scale(ya, g.k0), Scale(yb, g.k1)));
    }

    static lemma NoiseIs(p: Params, dt: real, d0: real, d1: real)
      requires d0 == p.processNoisePosition * dt && d1 == p.processNoiseVelocity * dt
      ensures ProcessNoise(p, dt) == Diagonal(V4(d0, d0, d1, d1))
    {
    }

    static lemma AddAt(u: V4, v: V4, n: Index)
      ensures At(Add(u, v), n) == At(u, n) + At(v, n)
    {
    }

    static lemma AddNothing(m: M4)
      ensures AddM(m, Diagonal(V4(0.0, 0.0, 0.0, 0.0))) == m
    {
    }
  }
}
