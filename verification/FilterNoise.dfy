/** Exactly which measurement covariances keep the filter's covariance positive semi-definite,
    and what that asks of the observations a broker is fed. */
module FilterNoise {
  import opened Machine
  import opened Reals
  import opened Matrix
  import opened Estimator
  import Covariance
  import ObservationCheck
  import WireObservation
  import Broker

  // --------------------------------------------- a covariance that is equal in all directions

  function Isotropic(m: real): M4 {
    Diagonal(V4(m, m, m, m))
  }

  lemma IsotropicPsd(m: real)
    requires m >= 0.0
    ensures Psd(Isotropic(m))
  {
    DiagonalPsd(V4(m, m, m, m));
  }

  /** `R w`. */
  function Image(r: M2, w: V2): V2 {
    V2(Lin(r.m00, w.a, r.m01, w.b), Lin(r.m10, w.a, r.m11, w.b))
  }

  function ScaleV2(m: real, w: V2): V2 {
    V2(m * w.a, m * w.b)
  }

  function Norm(w: V2): real {
    w.a * w.a + w.b * w.b
  }

  /** A solution is the only one. */
  lemma Solve2(s: M2, o: V2, w: V2)
    requires Det(s) != 0.0
    requires Lin(s.m00, o.a, s.m10, o.b) == Lin(s.m00, w.a, s.m10, w.b)
    requires Lin(s.m01, o.a, s.m11, o.b) == Lin(s.m01, w.a, s.m11, w.b)
    ensures o == w
  {
    var (x, y) := (o.a - w.a, o.b - w.b);
    assert Lin(s.m00, x, s.m10, y) == 0.0 && Lin(s.m01, x, s.m11, y) == 0.0;
    ZeroSolution(s.m00, s.m10, s.m01, s.m11, x, y);
  }

  lemma ZeroSolution(a: real, b: real, c: real, d: real, x: real, y: real)
    requires a * d - c * b != 0.0 && a * x + b * y == 0.0 && c * x + d * y == 0.0
    ensures x == 0.0 && y == 0.0
  {
    assert (a * d - c * b) * x == d * (a * x + b * y) - b * (c * x + d * y);
    assert (a * d - c * b) * y == a * (c * x + d * y) - c * (a * x + b * y);
  }

  /** What an update keeps of the noise in the direction `w`, from a covariance `m I`. */
  function Kept(r: M2, w: V2, m: real): real {
    m * (m * Quad2(r, w) + Norm(Image(r, w)))
  }

  /** A direction that the noise counts as negative is still negative after an update. */
  lemma NegativeNoiseSurvives(r: M2, w: V2, m: real)
    requires r.m01 == r.m10 && Det(Innovation(Isotropic(m), r)) != 0.0
    ensures var s := Innovation(Isotropic(m), r);
            var g := Image(s, w);
            Quad(Joseph(Isotropic(m), OptimalGain(Isotropic(m), s), r), V4(g.a, g.b, 0.0, 0.0)) == Kept(r, w, m)
  {
    var (cov, s) := (Isotropic(m), Innovation(Isotropic(m), r));
    var g := Image(s, w);
    var x := V4(g.a, g.b, 0.0, 0.0);
    var (o, top) := (ScaleV2(m, w), ScaleV2(m, g));
    IsotropicFacts(m, r, g.a, g.b);
    WeightsAre(r, w, m);
    hide *;
    QuadJoseph(cov, OptimalGain(cov, s), r, x);
    VarianceIs(cov, r, s, x, o, top);
    Scaled(s, w, m);
    CompleteSquare(s, top, o, o);
    SelfQuad(s, o);
    Arrange(r, w, m, s);
  }

  lemma VarianceIs(cov: M4, r: M2, s: M2, x: V4, o: V2, top: V2)
    requires s == Innovation(cov, r) && top == V2(Dot(cov.r0, x), Dot(cov.r1, x))
    ensures VarianceAfter(cov, r, x, o) == Quad(cov, x) - 2.0 * Cross(o, top) + Quad2(s, o)
  {
    hide Quad, Cross, Quad2, Innovation, Dot;
  }

  lemma WeightsAre(r: M2, w: V2, m: real)
    requires r.m01 == r.m10 && Det(Innovation(Isotropic(m), r)) != 0.0
    ensures var s := Innovation(Isotropic(m), r);
            var g := Image(s, w);
            Weights(OptimalGain(Isotropic(m), s), V4(g.a, g.b, 0.0, 0.0)) == ScaleV2(m, w)
  {
    var (cov, s) := (Isotropic(m), Innovation(Isotropic(m), r));
    var g := Image(s, w);
    var x := V4(g.a, g.b, 0.0, 0.0);
    IsotropicFacts(m, r, g.a, g.b);
    hide *;
    NormalEquations(cov, s, x);
    Scaled(s, w, m);
    Solve2(s, Weights(OptimalGain(cov, s), x), ScaleV2(m, w));
  }

  lemma IsotropicFacts(m: real, r: M2, a: real, b: real)
    ensures var s := Innovation(Isotropic(m), r);
            var x := V4(a, b, 0.0, 0.0);
            && s == M2(m + r.m00, r.m01, r.m10, m + r.m11) && Symmetric(Isotropic(m))
            && V2(Dot(Isotropic(m).r0, x), Dot(Isotropic(m).r1, x)) == ScaleV2(m, V2(a, b))
            && Quad(Isotropic(m), x) == Times(m, Norm(V2(a, b)))
  {
  }

  /** `S (m w) == m S w` for a symmetric matrix. */
  lemma Scaled(s: M2, w: V2, m: real)
    requires s.m01 == s.m10
    ensures var g := Image(s, w);
            var (o, top) := (ScaleV2(m, w), ScaleV2(m, g));
            Lin(s.m00, o.a, s.m10, o.b) == top.a && Lin(s.m01, o.a, s.m11, o.b) == top.b
  {
  }

  lemma SelfQuad(s: M2, o: V2)
    ensures Quad2(s, V2(o.a - o.a, o.b - o.b)) == 0.0
  {
  }

  lemma Arrange(r: M2, w: V2, m: real, s: M2)
    requires s == M2(m + r.m00, r.m01, r.m10, m + r.m11)
    ensures var g := Image(s, w); Times(m, Norm(g)) - Cross(ScaleV2(m, w), ScaleV2(m, g)) == Kept(r, w, m)
  {
    var (g, u) := (Image(s, w), Image(r, w));
    assert g.a == m * w.a + u.a && g.b == m * w.b + u.b;
    assert Quad2(r, w) == w.a * u.a + w.b * u.b;
    Expand(m, w.a, w.b, u.a, u.b, g.a, g.b);
  }

  lemma Expand(m: real, wa: real, wb: real, ua: real, ub: real, ga: real, gb: real)
    requires ga == m * wa + ua && gb == m * wb + ub
    ensures m * (ga * ga + gb * gb) - (m * wa * (m * ga) + m * wb * (m * gb))
         == m * (m * (wa * ua + wb * ub) + (ua * ua + ub * ub))
  {
    assert ga * ga - m * wa * ga == ga * ua && gb * gb - m * wb * gb == gb * ub;
    assert ga * ua == m * (wa * ua) + ua * ua && gb * ub == m * (wb * ub) + ub * ub;
  }

  /** Asymmetric noise leaves an asymmetric covariance. */
  lemma AsymmetrySurvives(r: M2, m: real)
    requires r.m01 != r.m10 && m > 0.0 && Det(Innovation(Isotropic(m), r)) != 0.0
    ensures var s := Innovation(Isotropic(m), r); !Symmetric(Joseph(Isotropic(m), OptimalGain(Isotropic(m), s), r))
  {
    var (cov, s) := (Isotropic(m), Innovation(Isotropic(m), r));
    var k := OptimalGain(cov, s);
    SandwichSymmetric(k, m);
    GainCorner(m, s);
    hide Sandwich, Residual, Spread, OptimalGain, Innovation, Isotropic, Symmetric, Entry, AddM, SpreadScalar;
    var (a, b) := (Sandwich(Residual(k), cov), Spread(k, r));
    AddEntry(a, b, 0, 1);
    AddEntry(a, b, 1, 0);
    ColumnAt(a, 0, 1);
    SpreadEntry(k, r, 0, 1);
    SpreadEntry(k, r, 1, 0);
    SpreadGap(r, k.k0.x0, k.k1.x0, k.k0.x1, k.k1.x1);
    if Symmetric(AddM(a, b)) {
      ColumnAt(AddM(a, b), 0, 1);
      assert false;
    }
  }

  lemma SandwichSymmetric(k: Gain, m: real)
    requires m > 0.0
    ensures Symmetric(Sandwich(Residual(k), Isotropic(m)))
  {
    IsotropicPsd(m);
    hide Sandwich, Residual, Isotropic, Symmetric;
    SandwichPsd(Residual(k), Isotropic(m));
  }

  lemma SpreadGap(r: M2, a: real, b: real, c: real, d: real)
    requires r.m01 != r.m10 && Det(M2(a, b, c, d)) != 0.0
    ensures SpreadScalar(r, a, b, c, d) != SpreadScalar(r, c, d, a, b)
  {
    var det := a * d - b * c;
    assert SpreadScalar(r, a, b, c, d) - SpreadScalar(r, c, d, a, b) == (r.m01 - r.m10) * det;
  }

  /** The corner of the gain is invertible. */
  lemma GainCorner(m: real, s: M2)
    requires m > 0.0 && Det(s) != 0.0
    ensures var k := OptimalGain(Isotropic(m), s); Det(M2(k.k0.x0, k.k1.x0, k.k0.x1, k.k1.x1)) != 0.0
  {
    var (cov, k) := (Isotropic(m), OptimalGain(Isotropic(m), s));
    GainEquation(cov, s);
    hide OptimalGain, Add, Scale, Lin, At, Det;
    CombinedAt(s.m00, k.k0, s.m10, k.k1, 0);
    CombinedAt(s.m00, k.k0, s.m10, k.k1, 1);
    CombinedAt(s.m01, k.k0, s.m11, k.k1, 0);
    CombinedAt(s.m01, k.k0, s.m11, k.k1, 1);
    IsotropicColumns(m, k);
    Determinants(m, s.m00, s.m10, s.m01, s.m11, k.k0.x0, k.k1.x0, k.k0.x1, k.k1.x1);
  }

  lemma IsotropicColumns(m: real, k: Gain)
    ensures var (c, d) := (Col(Isotropic(m), 0), Col(Isotropic(m), 1));
            At(c, 0) == m && At(c, 1) == 0.0 && At(d, 0) == 0.0 && At(d, 1) == m
    ensures At(k.k0, 0) == k.k0.x0 && At(k.k0, 1) == k.k0.x1 && At(k.k1, 0) == k.k1.x0 && At(k.k1, 1) == k.k1.x1
  {
  }

  /** The determinants of two matrices whose product is `m` times the identity. */
  lemma Determinants(m: real, s: real, t: real, u: real, v: real, a: real, b: real, c: real, d: real)
    requires m > 0.0
    requires Lin(s, a, t, b) == m && Lin(s, c, t, d) == 0.0 && Lin(u, a, v, b) == 0.0 && Lin(u, c, v, d) == m
    ensures Det(M2(a, b, c, d)) != 0.0
  {
    var (e, f) := (s * v - u * t, a * d - b * c);
    assert e * d == s * m by { assert u * (s * c + t * d) == 0.0; }
    assert e * c == -(t * m) by { assert v * (s * c + t * d) == 0.0; }
    assert e * f == (e * d) * a - (e * c) * b;
    assert (e * d) * a - (e * c) * b == m * (s * a + t * b);
    var square := m * m;
    Positive(m, m, square);
    NotZero(e, f, square);
  }

  lemma Positive(m: real, n: real, product: real)
    requires m > 0.0 && n > 0.0 && product == m * n
    ensures product > 0.0
  {
  }

  lemma NotZero(e: real, f: real, product: real)
    requires product > 0.0 && e * f == product
    ensures f != 0.0
  {
  }

  /** An innovation covariance that dominates the noise is far from singular. */
  lemma Dominates(r: M2, m: real)
    requires m >= 1.0 + Abs(r.m00) + Abs(r.m01) + Abs(r.m10) + Abs(r.m11)
    ensures Det(Innovation(Isotropic(m), r)) >= 1.0
  {
    var (x, y) := (Abs(r.m01), Abs(r.m10));
    OneAndMore(m + r.m00, m + r.m11, x, y);
    assert r.m01 * r.m10 <= x * y;
  }

  lemma OneAndMore(u: real, v: real, x: real, y: real)
    requires x >= 0.0 && y >= 0.0 && u >= 1.0 + x + y && v >= 1.0 + x + y
    ensures u * v - x * y >= 1.0
  {
    var w := 1.0 + x + y;
    assert u * v >= w * v;
    assert w * v >= w * w;
    assert w * w == 1.0 + 2.0 * (x + y) + x * x + y * y + 2.0 * (x * y);
    assert x * x >= 0.0 && y * y >= 0.0 && x * y >= 0.0;
  }

  /** For any noise that is not positive semi-definite there is a covariance that an update spoils. */
  lemma BadNoiseSpoils(r: M2) returns (m: real)
    requires !Psd2(r)
    ensures m > 0.0 && Det(Innovation(Isotropic(m), r)) >= 1.0
    ensures !Psd(Joseph(Isotropic(m), OptimalGain(Isotropic(m), Innovation(Isotropic(m), r)), r))
  {
    var base := 1.0 + Abs(r.m00) + Abs(r.m01) + Abs(r.m10) + Abs(r.m11);
    hide Joseph, OptimalGain, Innovation, Isotropic, Det, Quad, Quad2, Image;
    if r.m01 != r.m10 {
      m := base;
      Dominates(r, m);
      AsymmetrySurvives(r, m);
    } else {
      var w: V2 :| Quad2(r, w) < 0.0;
      NormNonNegative(Image(r, w));
      hide Norm, Abs, Psd2;
      var (q, e) := (Quad2(r, w), Norm(Image(r, w)));
      var more := e / -q;
      Enough(e, q, more, base);
      m := base + more;
      Dominates(r, m);
      NegativeNoiseSurvives(r, w, m);
      assert Kept(r, w, m) == m * (m * q + e) < 0.0;
    }
  }

  lemma NormNonNegative(w: V2)
    ensures Norm(w) >= 0.0
  {
    assert w.a * w.a >= 0.0 && w.b * w.b >= 0.0;
  }

  lemma Enough(e: real, q: real, more: real, base: real)
    requires q < 0.0 && e >= 0.0 && more == e / -q && base > 0.0
    ensures more >= 0.0 && (base + more) * q + e < 0.0 && (base + more) * ((base + more) * q + e) < 0.0
  {
    assert more * -q == e;
    assert (base + more) * q == base * q - e;
    assert base * q < 0.0;
  }

  // ------------------------------------------------------------------------ over runs

  ghost predicate OnlyNoise(calls: seq<Call>, r: M2) {
    forall c :: c in calls && c.Update? ==> c.r == r
  }

  /** Whatever the parameters and the calls, with this measurement covariance the filter's stays semi-definite. */
  ghost predicate KeepsPsd(r: M2) {
    forall s: Kf, p: Params, calls: seq<Call> ::
      GoodParams(p) && !s.initialized && OnlyNoise(calls, r) ==> EndsPsd(Run(s, p, calls))
  }

  ghost predicate EndsPsd(s: Kf) {
    s.initialized ==> Psd(s.cov)
  }

  /** Runs stay positive semi-definite exactly for positive semi-definite measurement covariances. */
  lemma NoiseMustBePsd(r: M2)
    ensures KeepsPsd(r) <==> Psd2(r)
  {
    if Psd2(r) {
      forall s: Kf, p: Params, calls: seq<Call> | GoodParams(p) && !s.initialized && OnlyNoise(calls, r)
        ensures EndsPsd(Run(s, p, calls))
      {
        ReachablePsd(s, p, calls);
      }
    } else {
      var m := BadNoiseSpoils(r);
      var s, p, calls := SpoiltRun(r, m);
      assert !EndsPsd(Run(s, p, calls));
    }
  }

  /** The shortest run: initialise, then one update at the same time. */
  lemma SpoiltRun(r: M2, m: real) returns (s: Kf, p: Params, calls: seq<Call>)
    requires m > 0.0 && Det(Innovation(Isotropic(m), r)) >= 1.0
    ensures GoodParams(p) && !s.initialized && OnlyNoise(calls, r) && |calls| == 2
    ensures var e := Run(s, p, calls);
            e.initialized && e.cov == Joseph(Isotropic(m), OptimalGain(Isotropic(m), Innovation(Isotropic(m), r)), r)
  {
    s := Kf(false, V4(0.0, 0.0, 0.0, 0.0), Isotropic(0.0), 0);
    p := Params(0.0, 0.0, m, m, 0.0);
    var (a, b) := (Init(0.0, 0.0, 0), Update(0, V2(0.0, 0.0), r));
    calls := [a, b];
    hide Joseph, OptimalGain, Innovation, Det;
    assert calls[..1] == [a] && [a][..0] == [];
    assert Run(s, p, []) == s;
    assert Run(s, p, [a]) == Initial(p, 0.0, 0.0, 0);
    assert Run(s, p, calls) == Step(Initial(p, 0.0, 0.0, 0), p, b);
  }

  // ------------------------------------------------------- what admission makes of noise

  /** A position observation that passed validation. */
  ghost predicate SoundPosition(f: ObservationCheck.Floats, o: Broker.Observation) {
    f.Good() && ObservationCheck.Sound(f, o) && o.shape == ObservationCheck.SHAPE_POSITION_2D
  }

  /** The validated matrix of a position observation, row by row. */
  lemma ProblemEntries(f: ObservationCheck.Floats, o: Broker.Observation)
    requires SoundPosition(f, o)
    ensures ObservationCheck.CovarianceCounted(o) && ObservationCheck.AllFinite(f, ObservationCheck.Matrix(o))
    ensures var (p, r) := (ObservationCheck.Problem(f, o), Broker.Noise(f, o));
            p.Valid() && p.dim == 2 && p.cov == [r.m00, r.m01, r.m10, r.m11]
  {
    assert !ObservationCheck.Has(f, o, ObservationCheck.CovarianceCountOutOfRange);
    assert !ObservationCheck.Has(f, o, ObservationCheck.NonFiniteCovariance);
    var m := ObservationCheck.Matrix(o);
    assert |m| == 4 && forall i :: 0 <= i < 4 ==> m[i] == o.covariance[i];
  }

  lemma EntriesOfTwo(p: Covariance.Problem, r: M2)
    requires p.Valid() && p.dim == 2 && p.cov == [r.m00, r.m01, r.m10, r.m11]
    ensures Covariance.Entry(p, 0, 0) == r.m00 && Covariance.Entry(p, 0, 1) == r.m01
    ensures Covariance.Entry(p, 1, 0) == r.m10 && Covariance.Entry(p, 1, 1) == r.m11
    ensures Covariance.Symmetric(p) <==> r.m01 == r.m10
  {
    if r.m01 == r.m10 {
      forall i: nat, j: nat | i < 2 && j < 2
        ensures Covariance.Entry(p, i, j) == Covariance.Entry(p, j, i)
      {
        assert (i == 0 || i == 1) && (j == 0 || j == 1);
      }
    }
  }

  lemma FormOfTwo(p: Covariance.Problem, r: M2, x: seq<real>)
    requires p.Valid() && p.dim == 2 && p.cov == [r.m00, r.m01, r.m10, r.m11] && |x| == 2
    ensures Covariance.QuadraticForm(p, x, 0, 0) == Quad2(r, V2(x[0], x[1]))
  {
    EntriesOfTwo(p, r);
    RowOfTwo(p, 0, x);
    RowOfTwo(p, 1, x);
    hide Covariance.Entry, Covariance.Symmetric, Covariance.RowTimes, Times, Quad2;
    Quad2ByRows(r, x[0], x[1]);
    assert Covariance.QuadraticForm(p, x, 2, 0) == 0.0;
    assert Covariance.QuadraticForm(p, x, 1, 0) == Times(x[1], Covariance.RowTimes(p, 1, x, 0));
  }

  lemma Quad2ByRows(r: M2, a: real, b: real)
    ensures Times(a, Times(r.m00, a) + Times(r.m01, b)) + Times(b, Times(r.m10, a) + Times(r.m11, b)) == Quad2(r, V2(a, b))
  {
  }

  lemma RowOfTwo(p: Covariance.Problem, i: nat, x: seq<real>)
    requires p.Valid() && p.dim == 2 && i < 2 && |x| == 2
    ensures Covariance.RowTimes(p, i, x, 0) == Times(Covariance.Entry(p, i, 0), x[0]) + Times(Covariance.Entry(p, i, 1), x[1])
  {
    hide Covariance.Entry, Times;
    assert Covariance.RowTimes(p, i, x, 2) == 0.0;
    assert Covariance.RowTimes(p, i, x, 1) == Times(Covariance.Entry(p, i, 1), x[1]);
  }

  /** The validated matrix and the estimator's noise are semi-definite together. */
  lemma NoiseIsProblem(p: Covariance.Problem, r: M2)
    requires p.Valid() && p.dim == 2 && p.cov == [r.m00, r.m01, r.m10, r.m11]
    ensures Covariance.Psd(p) <==> Psd2(r)
  {
    EntriesOfTwo(p, r);
    hide Covariance.Symmetric, Quad2, Covariance.QuadraticForm;
    forall x: seq<real> | |x| == 2
      ensures Covariance.QuadraticForm(p, x, 0, 0) == Quad2(r, V2(x[0], x[1]))
    {
      FormOfTwo(p, r, x);
    }
    if Covariance.Psd(p) {
      forall w: V2
        ensures Quad2(r, w) >= 0.0
      {
        var x := [w.a, w.b];
        assert Covariance.QuadraticForm(p, x, 0, 0) >= 0.0;
      }
    }
  }

  /** A valid position observation keeps the filter semi-definite in every run exactly when its
      matrix is symmetric and elimination without a threshold skips only zeros. */
  lemma SoundNoiseKeepsPsdIff(f: ObservationCheck.Floats, o: Broker.Observation)
    requires SoundPosition(f, o)
    ensures ObservationCheck.CovarianceCounted(o) && ObservationCheck.AllFinite(f, ObservationCheck.Matrix(o))
    ensures var p := ObservationCheck.Problem(f, o);
            && p.Valid() && Covariance.Exact(p).Valid()
            && (KeepsPsd(Broker.Noise(f, o)) <==> Covariance.Symmetric(p) && Covariance.CleanSkips(Covariance.Exact(p)))
  {
    ProblemEntries(f, o);
    var (p, r) := (ObservationCheck.Problem(f, o), Broker.Noise(f, o));
    NoiseMustBePsd(r);
    NoiseIsProblem(p, r);
    if Covariance.Symmetric(p) { Covariance.PsdExactly(p); }
  }

  /** A broker's filter is semi-definite whenever the observations it is fed are. */
  lemma {:induction false} LiveIsPsd(f: ObservationCheck.Floats, p: Params, names: seq<Bytes>, ws: seq<Broker.Window>)
    requires GoodParams(p)
    requires forall k :: 0 <= k < |ws| && ws[k].admitted ==> Psd2(Broker.Noise(f, ws[k].obs))
    ensures var e := Broker.Live(f, p, names, ws); e.Ready? ==> e.kf.initialized && Psd(e.kf.cov)
  {
    hide Psd, Psd2, Initial, Updated, Broker.Noise, Broker.Position, Broker.Configured;
    if ws != [] {
      var (front, w) := (ws[..|ws| - 1], ws[|ws| - 1]);
      LiveIsPsd(f, p, names, front);
      var est := Broker.Live(f, p, names, front);
      var (z, r) := (Broker.Position(f, w.obs), Broker.Noise(f, w.obs));
      if w.admitted {
        match est
        case NotReady =>
          StepKeepsPsd(Kf(false, V4(0.0, 0.0, 0.0, 0.0), Isotropic(0.0), 0), p, Init(z.a, z.b, w.obs.sampleTime));
        case Ready(kf) => StepKeepsPsd(kf, p, Update(w.obs.sampleTime, z, r));
      }
    }
  }

  // -------------------------------------------------------------- a valid one that fails

  /** A position observation with these patterns for the entries of its covariance. */
  function Example(zero: u64, one: u64): Broker.Observation {
    WireObservation.Blank().(
    structSize := WireObservation.OBSERVATION_SIZE, sensorId := [0x41] + Zeros(WireObservation.SENSOR_ID_LEN - 1),
    timeUncertainty := zero, frame := 1, units := 1, shape := ObservationCheck.SHAPE_POSITION_2D,
    payloadCount := 2, payload := seq(WireObservation.MAX_PAYLOAD, _ => zero),
    covCount := 4, covariance := [zero, one, one, zero] + seq(WireObservation.MAX_COV - 4, _ => zero))
  }

  /** Noise `[[0, 1], [1, 0]]` passes validation, and after `P = 10 I` it leaves a covariance
      that is negative in the direction (1, -1, 0, 0). */
  lemma ValidNoiseSpoils(f: ObservationCheck.Floats, zero: u64, one: u64)
    requires f.Good() && f.num(zero) == ObservationCheck.Finite(0.0) && f.num(one) == ObservationCheck.Finite(1.0)
    ensures SoundPosition(f, Example(zero, one)) && Broker.Noise(f, Example(zero, one)) == M2(0.0, 1.0, 1.0, 0.0)
    ensures var r := Broker.Noise(f, Example(zero, one));
            var s := Innovation(Isotropic(10.0), r);
            Det(s) == 99.0 && Quad(Joseph(Isotropic(10.0), OptimalGain(Isotropic(10.0), s), r), V4(9.0, -9.0, 0.0, 0.0)) == -180.0
    ensures !KeepsPsd(Broker.Noise(f, Example(zero, one)))
  {
    var r := M2(0.0, 1.0, 1.0, 0.0);
    ExampleIsSound(f, zero, one);
    SwappingNoiseSpoils(r);
    hide *;
    NoiseMustBePsd(r);
  }

  lemma SwappingNoiseSpoils(r: M2)
    requires r == M2(0.0, 1.0, 1.0, 0.0)
    ensures !Psd2(r)
    ensures var s := Innovation(Isotropic(10.0), r);
            Det(s) == 99.0 && Quad(Joseph(Isotropic(10.0), OptimalGain(Isotropic(10.0), s), r), V4(9.0, -9.0, 0.0, 0.0)) == -180.0
  {
    var w := V2(1.0, -1.0);
    var s := Innovation(Isotropic(10.0), r);
    assert Quad2(r, w) < 0.0;
    assert s == M2(10.0, 1.0, 1.0, 10.0) && Det(s) == 99.0;
    assert Image(s, w) == V2(9.0, -9.0) && Kept(r, w, 10.0) == -180.0;
    hide *;
    NegativeNoiseSurvives(r, w, 10.0);
  }

  lemma ExampleIsSound(f: ObservationCheck.Floats, zero: u64, one: u64)
    requires f.Good() && f.num(zero) == ObservationCheck.Finite(0.0) && f.num(one) == ObservationCheck.Finite(1.0)
    ensures SoundPosition(f, Example(zero, one)) && Broker.Noise(f, Example(zero, one)) == M2(0.0, 1.0, 1.0, 0.0)
  {
    var o := Example(zero, one);
    var m := ObservationCheck.Matrix(o);
    assert m == [zero, one, one, zero];
    assert o.payload[..2] == [zero, zero];
    assert ObservationCheck.AllFinite(f, m) && ObservationCheck.AllFinite(f, o.payload[..2]);
    var p := ObservationCheck.Problem(f, o);
    assert p.cov == [0.0, 1.0, 1.0, 0.0];
    Covariance.SkippedPivotHidesIndefiniteness(p, 1.0, 0.0);
    forall i: nat, j: nat | i < p.dim && j < p.dim
      ensures ObservationCheck.Close(Covariance.Entry(p, i, j), Covariance.Entry(p, j, i))
    {
      assert Covariance.Entry(p, i, j) == Covariance.Entry(p, j, i);
    }
    assert o.sensorId[0] == 0x41 && o.sensorId[1] == 0;
    hide Covariance.Accepted, Covariance.Entry, ObservationCheck.Close, ObservationCheck.AllFinite, Covariance.Symmetric;
    forall issue: ObservationCheck.Issue
      ensures !ObservationCheck.Has(f, o, issue)
    {
    }
  }
}
