/** What the filter's steps mean, apart from the matrices they are computed with: how a prediction
    moves mean and variance, and how a measurement moves the mean. */
module FilterMeaning {
  import opened Reals
  import opened Matrix
  import opened Estimator

  /** A fresh filter rests at the given position, with the given variances and no correlation. */
  lemma InitialMeans(p: Params, x: real, y: real, t: int, d: V4)
    ensures var s := Initial(p, x, y, t);
            && s.initialized && s.time == t && s.mean == V4(x, y, 0.0, 0.0) && Symmetric(s.cov)
            && Quad(s.cov, d) == p.initialPositionVariance * (d.x0 * d.x0 + d.x1 * d.x1)
                                 + p.initialVelocityVariance * (d.x2 * d.x2 + d.x3 * d.x3)
  {
    DiagonalQuad(p.initialPositionVariance, p.initialVelocityVariance, d);
  }

  lemma DiagonalQuad(a: real, b: real, d: V4)
    ensures Quad(Diagonal(V4(a, a, b, b)), d) == a * (d.x0 * d.x0 + d.x1 * d.x1) + b * (d.x2 * d.x2 + d.x3 * d.x3)
  {
  }

  /** Which predictions are refused, and that a refusal changes nothing. */
  lemma PredictStatusIff(s: Kf, p: Params, t: int)
    ensures var (q, st) := Predicted(s, p, t);
            && (st == InvalidArgument <==> !s.initialized)
            && (st == BadTiming <==>
                && s.initialized
                && (t < s.time || (p.maxPredictionGap > 0.0 && (t - s.time) as real / 1000000000.0 > p.maxPredictionGap)))
            && (st == Ok || st == InvalidArgument || st == BadTiming)
            && (st != Ok ==> q == s) && (st == Ok ==> q.initialized && q.time == t)
  {
    var n := t - s.time;
    Seconds(n, n as real / 1000000000.0);
  }

  lemma Seconds(n: int, dt: real)
    requires dt == n as real / 1000000000.0
    ensures dt * 1000000000.0 == n as real && (dt < 0.0 <==> n < 0) && (dt == 0.0 <==> n == 0)
  {
  }

  /** A prediction moves each position by its velocity times the elapsed seconds and keeps the velocities. */
  lemma PredictionMoves(s: Kf, p: Params, t: int)
    requires Predicted(s, p, t).1 == Ok
    ensures var (q, dt) := (Predicted(s, p, t).0, (t - s.time) as real / 1000000000.0);
            && q.mean.x0 == s.mean.x0 + dt * s.mean.x2 && q.mean.x1 == s.mean.x1 + dt * s.mean.x3
            && q.mean.x2 == s.mean.x2 && q.mean.x3 == s.mean.x3
  {
    var dt := Elapsed(s, t);
    TransitionMoves(dt, s.mean);
    hide Apply, Transition, Sandwich, AddM;
    if t == s.time { NoTime(dt, s.mean.x2, s.mean.x3); }
  }

  lemma TransitionMoves(dt: real, m: V4)
    ensures Apply(Transition(dt), m) == V4(m.x0 + dt * m.x2, m.x1 + dt * m.x3, m.x2, m.x3)
  {
  }

  lemma NoTime(dt: real, x: real, y: real)
    requires dt == 0.0
    ensures dt * x == 0.0 && dt * y == 0.0
  {
  }

  /** The direction a direction was before `dt` seconds of motion. */
  function Earlier(d: V4, dt: real): V4 {
    V4(d.x0, d.x1, d.x2 + dt * d.x0, d.x3 + dt * d.x1)
  }

  /** The noise that `dt` seconds add to the variance in a direction. */
  function Growth(p: Params, d: V4, dt: real): real {
    dt * (p.processNoisePosition * (d.x0 * d.x0 + d.x1 * d.x1) + p.processNoiseVelocity * (d.x2 * d.x2 + d.x3 * d.x3))
  }

  /** The variance a prediction leaves in a direction: that of the direction as it was before the motion,
      and noise that grows with the elapsed time. */
  lemma PredictionSpreads(s: Kf, p: Params, t: int, d: V4)
    requires Predicted(s, p, t).1 == Ok
    ensures var (q, dt) := (Predicted(s, p, t).0, (t - s.time) as real / 1000000000.0);
            && Quad(q.cov, d) == Quad(s.cov, Earlier(d, dt)) + Growth(p, d, dt)
            && (Symmetric(s.cov) ==> Symmetric(q.cov))
  {
    var dt := Elapsed(s, t);
    if t == s.time {
      NoGrowth(p, d, dt);
      hide Earlier, Growth, Quad;
    } else {
      var (f, n) := (Transition(dt), ProcessNoise(p, dt));
      TransposedTransition(dt, d);
      NoiseQuad(p, dt, d);
      if Symmetric(s.cov) { SandwichSymmetric(f, s.cov); }
      hide Quad, Sandwich, AddM, Apply, Transition, ProcessNoise, Symmetric, Growth, Earlier;
      QuadAdd(Sandwich(f, s.cov), n, d);
      QuadSandwich(f, s.cov, d);
      if Symmetric(s.cov) { SumSymmetric(Sandwich(f, s.cov), n); }
    }
  }

  lemma NoGrowth(p: Params, d: V4, dt: real)
    requires dt == 0.0
    ensures Earlier(d, dt) == d && Growth(p, d, dt) == 0.0
  {
    NoTime(dt, d.x0, d.x1);
  }

  lemma TransposedTransition(dt: real, d: V4)
    ensures Apply(Transpose(Transition(dt)), d) == Earlier(d, dt)
  {
  }

  lemma NoiseQuad(p: Params, dt: real, d: V4)
    ensures Symmetric(ProcessNoise(p, dt))
    ensures Quad(ProcessNoise(p, dt), d) == Growth(p, d, dt)
  {
    var (a, b) := (p.processNoisePosition * dt, p.processNoiseVelocity * dt);
    DiagonalQuad(a, b, d);
    Factor(p.processNoisePosition, p.processNoiseVelocity, dt, d.x0 * d.x0 + d.x1 * d.x1, d.x2 * d.x2 + d.x3 * d.x3, a, b);
    hide Quad;
    assert ProcessNoise(p, dt) == Diagonal(V4(a, a, b, b));
  }

  lemma Factor(m: real, n: real, dt: real, u: real, v: real, a: real, b: real)
    requires a == m * dt && b == n * dt
    ensures a * u + b * v == dt * (m * u + n * v)
  {
    assert a * u == dt * (m * u) && b * v == dt * (n * v);
  }

  lemma SandwichSymmetric(f: M4, m: M4)
    requires Symmetric(m)
    ensures Symmetric(Sandwich(f, m))
  {
    var ft := Transpose(f);
    TransposeMul(Mul(f, m), ft);
    TransposeMul(f, m);
    DoubleTranspose(f);
    MulAssociates(f, m, ft);
  }

  lemma SumSymmetric(a: M4, b: M4)
    requires Symmetric(a) && Symmetric(b)
    ensures Symmetric(AddM(a, b))
  {
  }

  // ---------------------------------------------------------------------- measurements

  /** `w` solves `S w == z - H m` for the innovation covariance of a predicted state. */
  ghost predicate Solves(q: Kf, z: V2, r: M2, w: V2) {
    && Lin(q.cov.r0.x0 + r.m00, w.a, q.cov.r0.x1 + r.m01, w.b) == z.a - q.mean.x0
    && Lin(q.cov.r1.x0 + r.m10, w.a, q.cov.r1.x1 + r.m11, w.b) == z.b - q.mean.x1
  }

  /** From `q` to `e` the mean moves by `P HT w`, which leaves `R w` of the innovation. */
  ghost predicate MovedBy(q: Kf, e: Kf, z: V2, r: M2, w: V2) {
    && e.mean.x0 - q.mean.x0 == Lin(q.cov.r0.x0, w.a, q.cov.r0.x1, w.b)
    && e.mean.x1 - q.mean.x1 == Lin(q.cov.r1.x0, w.a, q.cov.r1.x1, w.b)
    && e.mean.x2 - q.mean.x2 == Lin(q.cov.r2.x0, w.a, q.cov.r2.x1, w.b)
    && e.mean.x3 - q.mean.x3 == Lin(q.cov.r3.x0, w.a, q.cov.r3.x1, w.b)
    && z.a - e.mean.x0 == Lin(r.m00, w.a, r.m01, w.b)
    && z.b - e.mean.x1 == Lin(r.m10, w.a, r.m11, w.b)
  }

  /** A successful update moves the mean so. */
  lemma UpdateCorrectsMean(s: Kf, p: Params, t: int, z: V2, r: M2, w: V2)
    requires Updated(s, p, t, z, r).1 == Ok && Solves(Predicted(s, p, t).0, z, r, w)
    ensures MovedBy(Predicted(s, p, t).0, Updated(s, p, t, z, r).0, z, r, w)
    ensures Updated(s, p, t, z, r).0.initialized && Updated(s, p, t, z, r).0.time == t
  {
    PredictStatusIff(s, p, t);
    UpdateIs(s, p, t, z, r);
    hide Updated, Predicted, Corrected, OptimalGain, Innovation, MovedBy, Solves, Det;
    var (q, e) := (Predicted(s, p, t).0, Updated(s, p, t, z, r).0);
    CorrectedBy(q, z, r, w);
    Named(q, e, z, r, w);
  }

  lemma Named(q: Kf, e: Kf, z: V2, r: M2, w: V2)
    requires Solves(q, z, r, w)
    requires e.mean.x0 - q.mean.x0 == Lin(q.cov.r0.x0, w.a, q.cov.r0.x1, w.b)
    requires e.mean.x1 - q.mean.x1 == Lin(q.cov.r1.x0, w.a, q.cov.r1.x1, w.b)
    requires e.mean.x2 - q.mean.x2 == Lin(q.cov.r2.x0, w.a, q.cov.r2.x1, w.b)
    requires e.mean.x3 - q.mean.x3 == Lin(q.cov.r3.x0, w.a, q.cov.r3.x1, w.b)
    ensures MovedBy(q, e, z, r, w)
  {
    hide Lin;
    Left(q.cov.r0.x0, q.cov.r0.x1, r.m00, r.m01, w.a, w.b, z.a - q.mean.x0);
    Left(q.cov.r1.x0, q.cov.r1.x1, r.m10, r.m11, w.a, w.b, z.b - q.mean.x1);
  }

  lemma UpdateIs(s: Kf, p: Params, t: int, z: V2, r: M2)
    requires Updated(s, p, t, z, r).1 == Ok
    ensures var (q, e) := (Predicted(s, p, t).0, Updated(s, p, t, z, r).0);
            && Predicted(s, p, t).1 == Ok && Det(Innovation(q.cov, r)) != 0.0
            && e.mean == Corrected(q.mean, OptimalGain(q.cov, Innovation(q.cov, r)), z)
            && e.initialized == q.initialized && e.time == q.time
  {
    hide Predicted, Corrected, OptimalGain, Joseph, Innovation;
  }

  lemma Left(c: real, d: real, m: real, n: real, a: real, b: real, y: real)
    requires Lin(c + m, a, d + n, b) == y
    ensures y - Lin(c, a, d, b) == Lin(m, a, n, b)
  {
  }

  lemma CorrectedBy(q: Kf, z: V2, r: M2, w: V2)
    requires Det(Innovation(q.cov, r)) != 0.0 && Solves(q, z, r, w)
    ensures var c := Corrected(q.mean, OptimalGain(q.cov, Innovation(q.cov, r)), z);
            && c.x0 - q.mean.x0 == Lin(q.cov.r0.x0, w.a, q.cov.r0.x1, w.b)
            && c.x1 - q.mean.x1 == Lin(q.cov.r1.x0, w.a, q.cov.r1.x1, w.b)
            && c.x2 - q.mean.x2 == Lin(q.cov.r2.x0, w.a, q.cov.r2.x1, w.b)
            && c.x3 - q.mean.x3 == Lin(q.cov.r3.x0, w.a, q.cov.r3.x1, w.b)
  {
    var s := Innovation(q.cov, r);
    var y := V2(z.a - q.mean.x0, z.b - q.mean.x1);
    hide Corrected, OptimalGain, Lin, Det, Inverse;
    SolvedBack(s, y, w);
    CorrectionAt(q.mean, q.cov, s, y, z, w, 0);
    CorrectionAt(q.mean, q.cov, s, y, z, w, 1);
    CorrectionAt(q.mean, q.cov, s, y, z, w, 2);
    CorrectionAt(q.mean, q.cov, s, y, z, w, 3);
  }

  /** Solving with the inverse gives the solution. */
  lemma SolvedBack(s: M2, y: V2, w: V2)
    requires Det(s) != 0.0 && Lin(s.m00, w.a, s.m01, w.b) == y.a && Lin(s.m10, w.a, s.m11, w.b) == y.b
    ensures var i := Inverse(s); Lin(i.m00, y.a, i.m01, y.b) == w.a && Lin(i.m10, y.a, i.m11, y.b) == w.b
  {
    var (d, i) := (Det(s), Inverse(s));
    var e := 1.0 / d;
    ByReciprocal(s.m11, d);
    ByReciprocal(-s.m01, d);
    ByReciprocal(-s.m10, d);
    ByReciprocal(s.m00, d);
    assert i == M2(s.m11 * e, -s.m01 * e, -s.m10 * e, s.m00 * e);
    hide Inverse, Lin;
    CramerBack(s.m00, s.m01, s.m10, s.m11, e, w.a, w.b, y.a, y.b);
  }

  lemma CramerBack(a: real, b: real, c: real, d: real, e: real, u: real, v: real, p: real, q: real)
    requires (a * d - b * c) * e == 1.0 && Lin(a, u, b, v) == p && Lin(c, u, d, v) == q
    ensures Lin(d * e, p, -b * e, q) == u && Lin(-c * e, p, a * e, q) == v
  {
    assert d * p - b * q == (a * d - b * c) * u;
    assert a * q - c * p == (a * d - b * c) * v;
    assert Lin(d * e, p, -b * e, q) == e * (d * p - b * q);
    assert Lin(-c * e, p, a * e, q) == e * (a * q - c * p);
  }

  lemma CorrectionAt(m: V4, cov: M4, s: M2, y: V2, z: V2, w: V2, i: Index)
    requires Det(s) != 0.0 && y == V2(z.a - m.x0, z.b - m.x1)
    requires var v := Inverse(s); Lin(v.m00, y.a, v.m01, y.b) == w.a && Lin(v.m10, y.a, v.m11, y.b) == w.b
    ensures At(Corrected(m, OptimalGain(cov, s), z), i) - At(m, i) == Lin(Entry(cov, i, 0), w.a, Entry(cov, i, 1), w.b)
  {
    var (v, k) := (Inverse(s), OptimalGain(cov, s));
    hide Inverse, Scale, Add, At, Col, Lin;
    CombinedAt(v.m00, Col(cov, 0), v.m10, Col(cov, 1), i);
    CombinedAt(v.m01, Col(cov, 0), v.m11, Col(cov, 1), i);
    CombinedAt(y.a, k.k0, y.b, k.k1, i);
    SumAt(m, Add(Scale(y.a, k.k0), Scale(y.b, k.k1)), i);
    ColumnAt(cov, i, 0);
    ColumnAt(cov, i, 1);
    Regroup(v, y, Entry(cov, i, 0), Entry(cov, i, 1), At(k.k0, i), At(k.k1, i), w);
  }

  lemma SumAt(u: V4, v: V4, i: Index)
    ensures At(Add(u, v), i) == At(u, i) + At(v, i)
  {
  }

  lemma Regroup(v: M2, y: V2, c: real, d: real, k0: real, k1: real, w: V2)
    requires k0 == Lin(v.m00, c, v.m10, d) && k1 == Lin(v.m01, c, v.m11, d)
    requires Lin(v.m00, y.a, v.m01, y.b) == w.a && Lin(v.m10, y.a, v.m11, y.b) == w.b
    ensures Lin(y.a, k0, y.b, k1) == Lin(c, w.a, d, w.b)
  {
  }

  /** There is exactly one such `w` for every innovation that is not singular. */
  lemma SolutionExists(q: Kf, z: V2, r: M2) returns (w: V2)
    requires Det(Innovation(q.cov, r)) != 0.0
    ensures Solves(q, z, r, w)
  {
    var s := Innovation(q.cov, r);
    var y := V2(z.a - q.mean.x0, z.b - q.mean.x1);
    var e := 1.0 / Det(s);
    w := V2(e * (s.m11 * y.a - s.m01 * y.b), e * (s.m00 * y.b - s.m10 * y.a));
    Cramer2(s.m00, s.m01, s.m10, s.m11, e, y.a, y.b, w.a, w.b);
  }

  lemma Cramer2(a: real, b: real, c: real, d: real, e: real, p: real, q: real, u: real, v: real)
    requires (a * d - b * c) * e == 1.0 && u == e * (d * p - b * q) && v == e * (a * q - c * p)
    ensures Lin(a, u, b, v) == p && Lin(c, u, d, v) == q
  {
    assert a * u + b * v == ((a * d - b * c) * e) * p;
    assert c * u + d * v == ((a * d - b * c) * e) * q;
  }

  /** Which updates are refused: those whose prediction is, with the same status and state, and those with
      a singular innovation, which leave the prediction behind. */
  lemma UpdateStatusIff(s: Kf, p: Params, t: int, z: V2, r: M2)
    ensures var ((q, ps), (e, st)) := (Predicted(s, p, t), Updated(s, p, t, z, r));
            && (ps != Ok ==> st == ps && e == s)
            && (ps == Ok ==> (st == BadCovariance <==> Abs(Det(Innovation(q.cov, r))) < SINGULAR_BELOW) && (st == BadCovariance ==> e == q))
            && (ps == Ok ==> st == Ok || st == BadCovariance)
  {
    PredictStatusIff(s, p, t);
    hide Predicted;
  }
}
