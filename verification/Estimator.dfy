/** The constant-velocity Kalman filter over [px, py, vx, vy], in exact real
    arithmetic: what one predict or update does to the mean and covariance. */
module Estimator {
  import opened Reals
  import opened Matrix

  datatype Params = Params(
    processNoisePosition: real,
    processNoiseVelocity: real,
    initialPositionVariance: real,
    initialVelocityVariance: real,
    maxPredictionGap: real)

  datatype Status = Ok | InvalidArgument | NonFinite | BadTiming | BadCovariance

  /** The abstract value of a filter. Times are in nanoseconds. */
  datatype Kf = Kf(initialized: bool, mean: V4, cov: M4, time: int)

  datatype V2 = V2(a: real, b: real)
  datatype M2 = M2(m00: real, m01: real, m10: real, m11: real)

  /** The 4x2 gain, by columns. */
  datatype Gain = Gain(k0: V4, k1: V4)

  const SINGULAR_BELOW: real := 0.000000000000001
  const NANOSECONDS: real := 1000000000.0

  function Quad2(m: M2, w: V2): real {
    w.a * (m.m00 * w.a + m.m01 * w.b) + w.b * (m.m10 * w.a + m.m11 * w.b)
  }

  ghost predicate Psd2(m: M2) {
    m.m01 == m.m10 && forall w: V2 :: Quad2(m, w) >= 0.0
  }

  // ---------------------------------------------------------------- prediction

  function Initial(p: Params, x: real, y: real, t: int): Kf {
    Kf(true, V4(x, y, 0.0, 0.0),
       Diagonal(V4(p.initialPositionVariance, p.initialPositionVariance,
                   p.initialVelocityVariance, p.initialVelocityVariance)), t)
  }

  function Transition(dt: real): M4 {
    M4(V4(1.0, 0.0, dt, 0.0), V4(0.0, 1.0, 0.0, dt), V4(0.0, 0.0, 1.0, 0.0), V4(0.0, 0.0, 0.0, 1.0))
  }

  function ProcessNoise(p: Params, dt: real): M4 {
    var qPos := p.processNoisePosition * dt;
    var qVel := p.processNoiseVelocity * dt;
    Diagonal(V4(qPos, qPos, qVel, qVel))
  }

  function Elapsed(s: Kf, t: int): real {
    (t - s.time) as real / NANOSECONDS
  }

  /** What a call of predict leaves behind, and its status. */
  function Predicted(s: Kf, p: Params, t: int): (Kf, Status) {
    if !s.initialized then (s, InvalidArgument)
    else if t == s.time then (s, Ok)
    else
      var dt := Elapsed(s, t);
      if dt < 0.0 || (p.maxPredictionGap > 0.0 && dt > p.maxPredictionGap) then (s, BadTiming)
      else
        var f := Transition(dt);
        (Kf(true, Apply(f, s.mean), AddM(Sandwich(f, s.cov), ProcessNoise(p, dt)), t), Ok)
  }

  // -------------------------------------------------------------------- update

  /** Innovation covariance `H P HT + R`. */
  function Innovation(cov: M4, r: M2): M2 {
    M2(cov.r0.x0 + r.m00, cov.r0.x1 + r.m01, cov.r1.x0 + r.m10, cov.r1.x1 + r.m11)
  }

  function Det(s: M2): real {
    s.m00 * s.m11 - s.m01 * s.m10
  }

  function Inverse(s: M2): M2
    requires Det(s) != 0.0
  {
    var d := Det(s);
    M2(s.m11 / d, -s.m01 / d, -s.m10 / d, s.m00 / d)
  }

  /** `P HT S^-1`. */
  function OptimalGain(cov: M4, s: M2): Gain
    requires Det(s) != 0.0
  {
    var i := Inverse(s);
    Gain(Add(Scale(i.m00, Col(cov, 0)), Scale(i.m10, Col(cov, 1))),
         Add(Scale(i.m01, Col(cov, 0)), Scale(i.m11, Col(cov, 1))))
  }

  function Scale(c: real, v: V4): V4 {
    V4(v.x0 * c, v.x1 * c, v.x2 * c, v.x3 * c)
  }

  /** `I - K H`. */
  function Residual(k: Gain): M4 {
    M4(V4(1.0 - k.k0.x0, 0.0 - k.k1.x0, 0.0, 0.0),
       V4(0.0 - k.k0.x1, 1.0 - k.k1.x1, 0.0, 0.0),
       V4(0.0 - k.k0.x2, 0.0 - k.k1.x2, 1.0, 0.0),
       V4(0.0 - k.k0.x3, 0.0 - k.k1.x3, 0.0, 1.0))
  }

  function Outer(u: V4, v: V4): M4 {
    M4(Scale(u.x0, v), Scale(u.x1, v), Scale(u.x2, v), Scale(u.x3, v))
  }

  /** `K M KT` for a 2x2 matrix `m`. */
  function Spread(k: Gain, m: M2): M4 {
    AddM(Outer(Add(Scale(m.m00, k.k0), Scale(m.m10, k.k1)), k.k0),
         Outer(Add(Scale(m.m01, k.k0), Scale(m.m11, k.k1)), k.k1))
  }

  /** `(I - K H) P (I - K H)T + K R KT`, for any gain. */
  function Joseph(cov: M4, k: Gain, r: M2): M4 {
    AddM(Sandwich(Residual(k), cov), Spread(k, r))
  }

  function Corrected(mean: V4, k: Gain, z: V2): V4 {
    Add(mean, Add(Scale(z.a - mean.x0, k.k0), Scale(z.b - mean.x1, k.k1)))
  }

  /** What a call of update leaves behind. A singular innovation is reported
      after the prediction has already been stored. */
  function Updated(s: Kf, p: Params, t: int, z: V2, r: M2): (Kf, Status) {
    var (q, st) := Predicted(s, p, t);
    if st != Ok then (q, st)
    else
      var inn := Innovation(q.cov, r);
      if Abs(Det(inn)) < SINGULAR_BELOW then (q, BadCovariance)
      else
        var k := OptimalGain(q.cov, inn);
        (q.(mean := Corrected(q.mean, k, z), cov := Joseph(q.cov, k, r)), Ok)
  }

  // ------------------------------------------------------- the Joseph identity

  /** `KT x`, the image of a state direction under the gain. */
  function Weights(k: Gain, x: V4): V2 {
    V2(Dot(k.k0, x), Dot(k.k1, x))
  }

  /** Sums of two products, named so that proofs can treat them as units. */
  function Lin(a: real, p: real, b: real, q: real): real {
    a * p + b * q
  }

  lemma QuadOuter(u: V4, v: V4, x: V4)
    ensures Quad(Outer(u, v), x) == Dot(u, x) * Dot(v, x)
  {
    ScaledDot(u.x0, v, x);
    ScaledDot(u.x1, v, x);
    ScaledDot(u.x2, v, x);
    ScaledDot(u.x3, v, x);
    FactorOut(x, u, Dot(v, x));
  }

  lemma ScaledDot(c: real, v: V4, x: V4)
    ensures Dot(Scale(c, v), x) == c * Dot(v, x)
  {
  }

  lemma FactorOut(x: V4, u: V4, d: real)
    ensures Dot(x, V4(u.x0 * d, u.x1 * d, u.x2 * d, u.x3 * d)) == Dot(u, x) * d
  {
  }

  lemma QuadOuters(u0: V4, v0: V4, u1: V4, v1: V4, x: V4)
    ensures Quad(AddM(Outer(u0, v0), Outer(u1, v1)), x) == Lin(Dot(u0, x), Dot(v0, x), Dot(u1, x), Dot(v1, x))
  {
    hide Dot, Quad, Outer, AddM;
    QuadAdd(Outer(u0, v0), Outer(u1, v1), x);
    QuadOuter(u0, v0, x);
    QuadOuter(u1, v1, x);
  }

  lemma DotScaled(a: real, u: V4, b: real, v: V4, x: V4)
    ensures Dot(Add(Scale(a, u), Scale(b, v)), x) == Lin(a, Dot(u, x), b, Dot(v, x))
  {
    DotRowAdd(Scale(a, u), Scale(b, v), x);
    ScaledDot(a, u, x);
    ScaledDot(b, v, x);
  }

  lemma QuadSpread(k: Gain, m: M2, x: V4)
    ensures Quad(Spread(k, m), x) == Quad2(m, Weights(k, x))
  {
    hide Dot, Quad, Lin, Quad2;
    QuadOuters(Add(Scale(m.m00, k.k0), Scale(m.m10, k.k1)), k.k0,
               Add(Scale(m.m01, k.k0), Scale(m.m11, k.k1)), k.k1, x);
    DotScaled(m.m00, k.k0, m.m10, k.k1, x);
    DotScaled(m.m01, k.k0, m.m11, k.k1, x);
    Quad2ByColumns(m, Dot(k.k0, x), Dot(k.k1, x));
  }

  lemma Quad2ByColumns(m: M2, a: real, b: real)
    ensures Lin(Lin(m.m00, a, m.m10, b), a, Lin(m.m01, a, m.m11, b), b) == Quad2(m, V2(a, b))
  {
  }

  lemma SpreadSymmetric(k: Gain, m: M2)
    requires m.m01 == m.m10
    ensures Symmetric(Spread(k, m))
  {
    forall i: Index, j: Index
      ensures Entry(Spread(k, m), i, j) == Entry(Spread(k, m), j, i)
    {
      hide SpreadScalar, Spread, At, Entry;
      SpreadEntry(k, m, i, j);
      SpreadEntry(k, m, j, i);
      Swap2(m, At(k.k0, i), At(k.k1, i), At(k.k0, j), At(k.k1, j));
    }
    SameEntries(Transpose(Spread(k, m)), Spread(k, m));
  }

  /** An entry of `K M KT`, from the gain's rows `(a, b)` and `(c, d)`. */
  function SpreadScalar(m: M2, a: real, b: real, c: real, d: real): real {
    Lin(Lin(m.m00, a, m.m10, b), c, Lin(m.m01, a, m.m11, b), d)
  }

  lemma Swap2(m: M2, a: real, b: real, c: real, d: real)
    requires m.m01 == m.m10
    ensures SpreadScalar(m, a, b, c, d) == SpreadScalar(m, c, d, a, b)
  {
  }

  lemma SpreadEntry(k: Gain, m: M2, i: Index, j: Index)
    ensures Entry(Spread(k, m), i, j) == SpreadScalar(m, At(k.k0, i), At(k.k1, i), At(k.k0, j), At(k.k1, j))
  {
    hide Outer, Entry, At, AddM, Scale, Add, Lin;
    OuterEntries(Add(Scale(m.m00, k.k0), Scale(m.m10, k.k1)), k.k0,
                 Add(Scale(m.m01, k.k0), Scale(m.m11, k.k1)), k.k1, i, j);
    CombinedAt(m.m00, k.k0, m.m10, k.k1, i);
    CombinedAt(m.m01, k.k0, m.m11, k.k1, i);
  }

  lemma OuterEntry(u: V4, v: V4, i: Index, j: Index)
    ensures Entry(Outer(u, v), i, j) == At(u, i) * At(v, j)
  {
    assert Row(Outer(u, v), i) == Scale(At(u, i), v);
    ScaledAt(At(u, i), v, j);
  }

  lemma OuterEntries(u0: V4, v0: V4, u1: V4, v1: V4, i: Index, j: Index)
    ensures Entry(AddM(Outer(u0, v0), Outer(u1, v1)), i, j) == Lin(At(u0, i), At(v0, j), At(u1, i), At(v1, j))
  {
    hide Outer, Entry, At, AddM;
    AddEntry(Outer(u0, v0), Outer(u1, v1), i, j);
    OuterEntry(u0, v0, i, j);
    OuterEntry(u1, v1, i, j);
  }

  lemma ScaledAt(c: real, v: V4, j: Index)
    ensures At(Scale(c, v), j) == c * At(v, j)
  {
  }

  lemma CombinedAt(a: real, u: V4, b: real, v: V4, i: Index)
    ensures At(Add(Scale(a, u), Scale(b, v)), i) == Lin(a, At(u, i), b, At(v, i))
  {
  }

  lemma AddEntry(a: M4, b: M4, i: Index, j: Index)
    ensures Entry(AddM(a, b), i, j) == Entry(a, i, j) + Entry(b, i, j)
  {
  }

  /** The Joseph form is symmetric and positive semi-definite whatever the gain. */
  lemma JosephPsd(cov: M4, k: Gain, r: M2)
    requires Psd(cov) && Psd2(r)
    ensures Psd(Joseph(cov, k, r))
  {
    SandwichPsd(Residual(k), cov);
    SpreadSymmetric(k, r);
    forall x: V4
      ensures Quad(Spread(k, r), x) >= 0.0
    {
      QuadSpread(k, r, x);
    }
    AddPsd(Sandwich(Residual(k), cov), Spread(k, r));
  }

  lemma InnovationPsd(cov: M4, r: M2)
    requires Psd(cov) && Psd2(r)
    ensures Psd2(Innovation(cov, r))
  {
    var s := Innovation(cov, r);
    assert cov.r0.x1 == cov.r1.x0 by { assert Transpose(cov).r0.x1 == cov.r1.x0; }
    forall w: V2
      ensures Quad2(s, w) >= 0.0
    {
      var x := V4(w.a, w.b, 0.0, 0.0);
      assert Quad(cov, x) >= 0.0 && Quad2(r, w) >= 0.0;
      assert Quad2(s, w) == Quad(cov, x) + Quad2(r, w);
    }
  }

  /** `x - H^T KT x`: where the residual map sends a direction. */
  lemma ResidualDirection(k: Gain, x: V4)
    ensures Apply(Transpose(Residual(k)), x)
         == V4(x.x0 - Weights(k, x).a, x.x1 - Weights(k, x).b, x.x2, x.x3)
  {
  }

  lemma QuadShift(cov: M4, x: V4, w: V2)
    requires Symmetric(cov)
    ensures Quad(cov, V4(x.x0 - w.a, x.x1 - w.b, x.x2, x.x3))
         == Quad(cov, x) - 2.0 * Cross(w, V2(Dot(cov.r0, x), Dot(cov.r1, x)))
            + Quad2(M2(cov.r0.x0, cov.r0.x1, cov.r1.x0, cov.r1.x1), w)
  {
    var y := V4(x.x0 - w.a, x.x1 - w.b, x.x2, x.x3);
    var neg := V4(-w.a, -w.b, 0.0, 0.0);
    var (px, pn) := (Apply(cov, x), Apply(cov, neg));
    ShiftedImage(cov, x, w);
    ShiftedDot(x, w, px);
    ShiftedDot(x, w, pn);
    CrossTerm(cov, x, w);
    CornerQuad(cov, w);
    hide Apply, Dot, Quad2, Add;
    DotAdd(y, px, pn);
  }

  lemma ShiftedImage(cov: M4, x: V4, w: V2)
    ensures Apply(cov, V4(x.x0 - w.a, x.x1 - w.b, x.x2, x.x3)) == Add(Apply(cov, x), Apply(cov, V4(-w.a, -w.b, 0.0, 0.0)))
  {
  }

  lemma ShiftedDot(x: V4, w: V2, p: V4)
    ensures Dot(V4(x.x0 - w.a, x.x1 - w.b, x.x2, x.x3), p) == Dot(x, p) - (w.a * p.x0 + w.b * p.x1)
  {
  }

  lemma CornerQuad(cov: M4, w: V2)
    ensures var pn := Apply(cov, V4(-w.a, -w.b, 0.0, 0.0));
            -(w.a * pn.x0 + w.b * pn.x1) == Quad2(M2(cov.r0.x0, cov.r0.x1, cov.r1.x0, cov.r1.x1), w)
  {
  }

  lemma CrossTerm(cov: M4, x: V4, w: V2)
    requires Symmetric(cov)
    ensures Dot(x, Apply(cov, V4(-w.a, -w.b, 0.0, 0.0))) == -(w.a * Dot(cov.r0, x) + w.b * Dot(cov.r1, x))
  {
    assert Col(cov, 0) == cov.r0 && Col(cov, 1) == cov.r1 by {
      assert Transpose(cov).r0 == Col(cov, 0) && Transpose(cov).r1 == Col(cov, 1);
    }
    var n := V4(-w.a, -w.b, 0.0, 0.0);
    assert Apply(cov, n) == V4(-w.a * Col(cov, 0).x0 - w.b * Col(cov, 1).x0,
                               -w.a * Col(cov, 0).x1 - w.b * Col(cov, 1).x1,
                               -w.a * Col(cov, 0).x2 - w.b * Col(cov, 1).x2,
                               -w.a * Col(cov, 0).x3 - w.b * Col(cov, 1).x3);
  }

  /** The variance left in direction `x` by a gain `k` with `KT x == w`. */
  function VarianceAfter(cov: M4, r: M2, x: V4, w: V2): real {
    Quad(cov, x) - 2.0 * Cross(w, V2(Dot(cov.r0, x), Dot(cov.r1, x))) + Quad2(Innovation(cov, r), w)
  }

  function Cross(w: V2, g: V2): real {
    w.a * g.a + w.b * g.b
  }

  lemma Quad2Innovation(cov: M4, r: M2, w: V2)
    ensures Quad2(Innovation(cov, r), w)
         == Quad2(M2(cov.r0.x0, cov.r0.x1, cov.r1.x0, cov.r1.x1), w) + Quad2(r, w)
  {
  }

  /** After an update with any gain `k`, the variance in direction `x` is a
      quadratic function of `KT x` alone. */
  lemma QuadJoseph(cov: M4, k: Gain, r: M2, x: V4)
    requires Symmetric(cov)
    ensures Quad(Joseph(cov, k, r), x) == VarianceAfter(cov, r, x, Weights(k, x))
  {
    hide Quad, Dot, Quad2, Innovation, Spread, Sandwich, Residual, Cross;
    var w := Weights(k, x);
    var a := Residual(k);
    QuadAdd(Sandwich(a, cov), Spread(k, r), x);
    QuadSandwich(a, cov, x);
    ResidualDirection(k, x);
    QuadShift(cov, x, w);
    QuadSpread(k, r, x);
    Quad2Innovation(cov, r, w);
  }

  /** One row of `K S == P HT`, in scalars. */
  lemma InverseRow(s: M2, g0: real, g1: real)
    requires Det(s) != 0.0
    ensures var i := Inverse(s);
            var (k0, k1) := (Lin(i.m00, g0, i.m10, g1), Lin(i.m01, g0, i.m11, g1));
            Lin(s.m00, k0, s.m10, k1) == g0 && Lin(s.m01, k0, s.m11, k1) == g1
  {
    var d, i := Det(s), Inverse(s);
    var e := 1.0 / d;
    assert i == M2(s.m11 * e, -s.m01 * e, -s.m10 * e, s.m00 * e) by {
      ByReciprocal(s.m11, d);
      ByReciprocal(-s.m01, d);
      ByReciprocal(-s.m10, d);
      ByReciprocal(s.m00, d);
    }
    Cramer(s.m00, s.m01, s.m10, s.m11, e, g0, g1);
  }

  lemma ByReciprocal(p: real, d: real)
    requires d != 0.0
    ensures p / d == p * (1.0 / d)
  {
    var q := p / d;
    assert q * d == p;
    var e := 1.0 / d;
    assert e * d == 1.0;
    assert p * e == q * (d * e);
  }

  lemma Cramer(a: real, b: real, c: real, d: real, e: real, g0: real, g1: real)
    requires (a * d - b * c) * e == 1.0
    ensures (g0 * (d * e) + g1 * (-c * e)) * a + (g0 * (-b * e) + g1 * (a * e)) * c == g0
    ensures (g0 * (d * e) + g1 * (-c * e)) * b + (g0 * (-b * e) + g1 * (a * e)) * d == g1
  {
    assert (g0 * (d * e) + g1 * (-c * e)) * a + (g0 * (-b * e) + g1 * (a * e)) * c
        == g0 * ((a * d - b * c) * e);
    assert (g0 * (d * e) + g1 * (-c * e)) * b + (g0 * (-b * e) + g1 * (a * e)) * d
        == g1 * ((a * d - b * c) * e);
  }

  /** The gain the code computes solves `K S == P HT`. */
  lemma GainEquation(cov: M4, s: M2)
    requires Det(s) != 0.0
    ensures var k := OptimalGain(cov, s);
            && Add(Scale(s.m00, k.k0), Scale(s.m10, k.k1)) == Col(cov, 0)
            && Add(Scale(s.m01, k.k0), Scale(s.m11, k.k1)) == Col(cov, 1)
  {
    hide Inverse, At, Col, Add, Scale, Lin;
    var c0, c1, i := Col(cov, 0), Col(cov, 1), Inverse(s);
    var k := OptimalGain(cov, s);
    forall n: Index
      ensures At(Add(Scale(s.m00, k.k0), Scale(s.m10, k.k1)), n) == At(c0, n)
      ensures At(Add(Scale(s.m01, k.k0), Scale(s.m11, k.k1)), n) == At(c1, n)
    {
      InverseRow(s, At(c0, n), At(c1, n));
      CombinedAt(i.m00, c0, i.m10, c1, n);
      CombinedAt(i.m01, c0, i.m11, c1, n);
      CombinedAt(s.m00, k.k0, s.m10, k.k1, n);
      CombinedAt(s.m01, k.k0, s.m11, k.k1, n);
    }
    SameVector(Add(Scale(s.m00, k.k0), Scale(s.m10, k.k1)), c0);
    SameVector(Add(Scale(s.m01, k.k0), Scale(s.m11, k.k1)), c1);
  }

  lemma SameVector(u: V4, v: V4)
    requires forall n: Index :: At(u, n) == At(v, n)
    ensures u == v
  {
    assert At(u, 0) == At(v, 0) && At(u, 1) == At(v, 1) && At(u, 2) == At(v, 2) && At(u, 3) == At(v, 3);
  }

  /** The normal equations `S (KT x) == H P x` in each direction. */
  lemma NormalEquations(cov: M4, s: M2, x: V4)
    requires Symmetric(cov) && s.m01 == s.m10 && Det(s) != 0.0
    ensures var w := Weights(OptimalGain(cov, s), x);
            && Lin(s.m00, w.a, s.m10, w.b) == Dot(cov.r0, x)
            && Lin(s.m01, w.a, s.m11, w.b) == Dot(cov.r1, x)
  {
    hide Dot, OptimalGain, Scale, Add, Lin;
    var k := OptimalGain(cov, s);
    GainEquation(cov, s);
    DotScaled(s.m00, k.k0, s.m10, k.k1, x);
    DotScaled(s.m01, k.k0, s.m11, k.k1, x);
    assert Transpose(cov).r0 == Col(cov, 0) && Transpose(cov).r1 == Col(cov, 1);
  }

  /** Completing the square: the excess of any choice over the optimum. */
  lemma CompleteSquare(s: M2, g: V2, o: V2, w: V2)
    requires s.m01 == s.m10
    requires Lin(s.m00, o.a, s.m10, o.b) == g.a && Lin(s.m01, o.a, s.m11, o.b) == g.b
    ensures Quad2(s, w) - 2.0 * Cross(w, g)
         == Quad2(s, V2(w.a - o.a, w.b - o.b)) - Quad2(s, o)
    ensures Quad2(s, o) == Cross(o, g)
  {
    assert w.a * g.a == w.a * (s.m00 * o.a + s.m10 * o.b);
    assert w.b * g.b == w.b * (s.m01 * o.a + s.m11 * o.b);
  }

  /** With the gain the code computes, the Joseph form equals `P - K S KT`. */
  lemma JosephIsShortForm(cov: M4, r: M2)
    requires Symmetric(cov) && r.m01 == r.m10 && Det(Innovation(cov, r)) != 0.0
    ensures var s := Innovation(cov, r);
            var k := OptimalGain(cov, s);
            AddM(Joseph(cov, k, r), Spread(k, s)) == cov
  {
    var s := Innovation(cov, r);
    var k := OptimalGain(cov, s);
    var whole := AddM(Joseph(cov, k, r), Spread(k, s));
    assert cov.r0.x1 == cov.r1.x0 by { assert Transpose(cov).r0.x1 == cov.r1.x0; }
    GainEquation(cov, s);
    forall i: Index, j: Index
      ensures Entry(whole, i, j) == Entry(cov, i, j)
    {
      ShortFormEntry(cov, r, k, i, j);
    }
    SameEntries(whole, cov);
  }

  lemma ShortFormEntry(cov: M4, r: M2, k: Gain, i: Index, j: Index)
    requires Symmetric(cov) && r.m01 == r.m10
    requires var s := Innovation(cov, r);
             && Add(Scale(s.m00, k.k0), Scale(s.m10, k.k1)) == Col(cov, 0)
             && Add(Scale(s.m01, k.k0), Scale(s.m11, k.k1)) == Col(cov, 1)
    ensures Entry(Joseph(cov, k, r), i, j) + Entry(Spread(k, Innovation(cov, r)), i, j) == Entry(cov, i, j)
  {
    hide Sandwich, Residual, Spread, At, Entry, Add, Scale, AddM, Row, Col, Transpose, Lin, SpreadScalar;
    var s := Innovation(cov, r);
    AddEntry(Sandwich(Residual(k), cov), Spread(k, r), i, j);
    EntryOfSandwich(cov, k, i, j);
    SpreadEntry(k, r, i, j);
    SpreadEntry(k, s, i, j);
    CombinedAt(s.m00, k.k0, s.m10, k.k1, i);
    CombinedAt(s.m01, k.k0, s.m11, k.k1, i);
    CombinedAt(s.m00, k.k0, s.m10, k.k1, j);
    CombinedAt(s.m01, k.k0, s.m11, k.k1, j);
    ColumnAt(cov, i, 0);
    ColumnAt(cov, i, 1);
    ColumnAt(cov, j, 0);
    ColumnAt(cov, j, 1);
    Corner(cov);
    ColumnAt(cov, 0, 1);
    Balance(Entry(cov, i, j), Entry(cov, i, 0), Entry(cov, i, 1), Entry(cov, 0, j), Entry(cov, 1, j),
            M2(cov.r0.x0, cov.r0.x1, cov.r1.x0, cov.r1.x1), r, s,
            At(k.k0, i), At(k.k1, i), At(k.k0, j), At(k.k1, j));
  }

  lemma ColumnAt(m: M4, i: Index, j: Index)
    ensures At(Col(m, j), i) == Entry(m, i, j)
    ensures Symmetric(m) ==> Entry(m, i, j) == Entry(m, j, i)
  {
    assert Entry(Transpose(m), j, i) == Entry(m, i, j);
  }

  lemma Corner(m: M4)
    ensures Entry(m, 0, 0) == m.r0.x0 && Entry(m, 0, 1) == m.r0.x1
    ensures Entry(m, 1, 0) == m.r1.x0 && Entry(m, 1, 1) == m.r1.x1
  {
  }

  lemma EntryOfSandwich(cov: M4, k: Gain, i: Index, j: Index)
    ensures Entry(Sandwich(Residual(k), cov), i, j)
         == ResidualEntry(cov, k, i, j)
            - Lin(ResidualEntry(cov, k, i, 0), At(k.k0, j), ResidualEntry(cov, k, i, 1), At(k.k1, j))
  {
    hide Mul, Dot, Lin;
    var a := Residual(k);
    var m := Mul(a, cov);
    MulEntry(m, Transpose(a), i, j);
    MulEntry(a, cov, i, 0);
    MulEntry(a, cov, i, 1);
    MulEntry(a, cov, i, j);
    assert Col(Transpose(a), j) == Row(a, j);
    ResidualRow(k, Row(m, i), j);
    ResidualRow(k, Col(cov, 0), i);
    ResidualRow(k, Col(cov, 1), i);
    ResidualRow(k, Col(cov, j), i);
    DotCommutes(Row(a, i), Col(cov, 0));
    DotCommutes(Row(a, i), Col(cov, 1));
    DotCommutes(Row(a, i), Col(cov, j));
  }

  lemma ResidualRow(k: Gain, v: V4, j: Index)
    ensures Dot(v, Row(Residual(k), j)) == At(v, j) - Lin(v.x0, At(k.k0, j), v.x1, At(k.k1, j))
  {
  }

  /** An entry of `(I - K H) P`. */
  function ResidualEntry(cov: M4, k: Gain, i: Index, j: Index): real {
    Entry(cov, i, j) - Lin(Entry(cov, 0, j), At(k.k0, i), Entry(cov, 1, j), At(k.k1, i))
  }

  lemma Balance(p: real, pi0: real, pi1: real, p0j: real, p1j: real, c: M2, r: M2, s: M2,
                ki0: real, ki1: real, kj0: real, kj1: real)
    requires r.m01 == r.m10 && c.m01 == c.m10
    requires s == M2(c.m00 + r.m00, c.m01 + r.m01, c.m10 + r.m10, c.m11 + r.m11)
    requires Lin(s.m00, ki0, s.m10, ki1) == pi0 && Lin(s.m01, ki0, s.m11, ki1) == pi1
    requires Lin(s.m00, kj0, s.m10, kj1) == p0j && Lin(s.m01, kj0, s.m11, kj1) == p1j
    ensures p - Lin(p0j, ki0, p1j, ki1)
            - Lin(pi0 - Lin(c.m00, ki0, c.m10, ki1), kj0, pi1 - Lin(c.m01, ki0, c.m11, ki1), kj1)
            + SpreadScalar(r, ki0, ki1, kj0, kj1) + SpreadScalar(s, ki0, ki1, kj0, kj1) == p
  {
    assert pi0 - Lin(c.m00, ki0, c.m10, ki1) == Lin(r.m00, ki0, r.m10, ki1);
    assert pi1 - Lin(c.m01, ki0, c.m11, ki1) == Lin(r.m01, ki0, r.m11, ki1);
    assert Lin(p0j, ki0, p1j, ki1) == SpreadScalar(s, kj0, kj1, ki0, ki1);
    Swap2(s, kj0, kj1, ki0, ki1);
  }

  // -------------------------------------------------------------- main results

  /** No gain leaves less variance, in any direction, than the gain the code uses. */
  lemma GainIsOptimal(cov: M4, r: M2, other: Gain, x: V4)
    requires Psd(cov) && Psd2(r) && Det(Innovation(cov, r)) != 0.0
    ensures Quad(Joseph(cov, OptimalGain(cov, Innovation(cov, r)), r), x) <= Quad(Joseph(cov, other, r), x)
  {
    hide Quad, Dot, Quad2, Innovation, OptimalGain, Weights, Joseph, Cross, Lin;
    var s := Innovation(cov, r);
    var k := OptimalGain(cov, s);
    var o, w := Weights(k, x), Weights(other, x);
    var g := V2(Dot(cov.r0, x), Dot(cov.r1, x));
    InnovationPsd(cov, r);
    NormalEquations(cov, s, x);
    QuadJoseph(cov, k, r, x);
    QuadJoseph(cov, other, r, x);
    CompleteSquare(s, g, o, w);
    assert Quad2(s, V2(w.a - o.a, w.b - o.b)) >= 0.0;
  }

  /** A successful update never increases the variance in any direction, and
      takes away exactly the variance of `S` along `KT x`. */
  lemma UpdateNeverIncreasesVariance(cov: M4, r: M2, x: V4)
    requires Psd(cov) && Psd2(r) && Det(Innovation(cov, r)) != 0.0
    ensures var s := Innovation(cov, r);
            var k := OptimalGain(cov, s);
            && Quad(Joseph(cov, k, r), x) == Quad(cov, x) - Quad2(s, Weights(k, x))
            && Quad(Joseph(cov, k, r), x) <= Quad(cov, x)
  {
    hide Quad, Dot, Quad2, Innovation, OptimalGain, Weights, Joseph, Cross, Lin;
    var s := Innovation(cov, r);
    var k := OptimalGain(cov, s);
    var o := Weights(k, x);
    InnovationPsd(cov, r);
    NormalEquations(cov, s, x);
    QuadJoseph(cov, k, r, x);
    CompleteSquare(s, V2(Dot(cov.r0, x), Dot(cov.r1, x)), o, o);
  }

  ghost predicate GoodParams(p: Params) {
    && p.processNoisePosition >= 0.0 && p.processNoiseVelocity >= 0.0
    && p.initialPositionVariance >= 0.0 && p.initialVelocityVariance >= 0.0
  }

  /** One call a client may make. */
  datatype Call =
    | Init(x: real, y: real, initTime: int)
    | Predict(predictTime: int)
    | Update(time: int, z: V2, r: M2)

  function Step(s: Kf, p: Params, c: Call): Kf {
    match c
    case Init(x, y, t) => Initial(p, x, y, t)
    case Predict(t) => Predicted(s, p, t).0
    case Update(t, z, r) => Updated(s, p, t, z, r).0
  }

  function Run(s: Kf, p: Params, calls: seq<Call>): Kf {
    if calls == [] then s else Step(Run(s, p, calls[..|calls| - 1]), p, calls[|calls| - 1])
  }

  lemma PredictKeepsPsd(s: Kf, p: Params, t: int)
    requires GoodParams(p) && (s.initialized ==> Psd(s.cov))
    ensures var q := Predicted(s, p, t).0; q.initialized == s.initialized && (q.initialized ==> Psd(q.cov))
  {
    hide Psd, Sandwich, AddM, ProcessNoise;
    if s.initialized && Predicted(s, p, t).1 == Ok && t != s.time {
      var dt := Elapsed(s, t);
      SandwichPsd(Transition(dt), s.cov);
      NoisePsd(p, dt);
      AddPsd(Sandwich(Transition(dt), s.cov), ProcessNoise(p, dt));
    }
  }

  lemma NoisePsd(p: Params, dt: real)
    requires GoodParams(p) && dt >= 0.0
    ensures Psd(ProcessNoise(p, dt))
  {
    var qPos, qVel := p.processNoisePosition * dt, p.processNoiseVelocity * dt;
    hide Psd;
    DiagonalPsd(V4(qPos, qPos, qVel, qVel));
    assert ProcessNoise(p, dt) == Diagonal(V4(qPos, qPos, qVel, qVel));
  }

  lemma StepKeepsPsd(s: Kf, p: Params, c: Call)
    requires GoodParams(p) && (s.initialized ==> Psd(s.cov)) && (c.Update? ==> Psd2(c.r))
    ensures var e := Step(s, p, c); (e.initialized ==> Psd(e.cov)) && (e.initialized <==> s.initialized || c.Init?)
  {
    match c
    case Init(_, _, _) =>
      DiagonalPsd(V4(p.initialPositionVariance, p.initialPositionVariance,
                     p.initialVelocityVariance, p.initialVelocityVariance));
    case Predict(t) =>
      PredictKeepsPsd(s, p, t);
    case Update(t, z, r) =>
      PredictKeepsPsd(s, p, t);
      var q := Predicted(s, p, t).0;
      if Updated(s, p, t, z, r).1 == Ok {
        JosephPsd(q.cov, OptimalGain(q.cov, Innovation(q.cov, r)), r);
      }
  }

  /** Whatever sequence of calls is made, failing ones included, an initialised
      filter's covariance is symmetric and positive semi-definite. */
  lemma {:induction false} ReachablePsd(s: Kf, p: Params, calls: seq<Call>)
    requires GoodParams(p) && !s.initialized
    requires forall c :: c in calls && c.Update? ==> Psd2(c.r)
    ensures var e := Run(s, p, calls); e.initialized ==> Psd(e.cov)
    ensures var e := Run(s, p, calls); e.initialized <==> exists c :: c in calls && c.Init?
  {
    hide Psd, Psd2, Step;
    if calls != [] {
      var front, c := calls[..|calls| - 1], calls[|calls| - 1];
      assert calls == front + [c];
      ReachablePsd(s, p, front);
      StepKeepsPsd(Run(s, p, front), p, c);
    }
  }
}
