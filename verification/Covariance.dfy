/** The thresholded semi-definite Cholesky test on a small row-major matrix, in
    exact arithmetic, for any square root function and any threshold >= 0. */
module Covariance {
  import opened Reals

  const MAX_DIM := 6

  /** A test instance: the matrix, its dimension, the threshold, the square root. */
  datatype Problem = Problem(cov: seq<real>, dim: nat, epsilon: real, sqrt: real -> real) {
    ghost predicate Valid() {
      && dim <= MAX_DIM && |cov| == dim * dim && epsilon >= 0.0
      && forall s: real :: s > 0.0 ==> sqrt(s) > 0.0 && sqrt(s) * sqrt(s) == s
    }
  }

  lemma Flat(n: nat, i: nat, j: nat)
    requires i < n && j < n
    ensures 0 <= i * n + j < n * n
  {
    assert (i + 1) * n <= n * n;
  }

  function Entry(p: Problem, i: nat, j: nat): real
    requires |p.cov| == p.dim * p.dim && i < p.dim && j < p.dim
  {
    Flat(p.dim, i, j);
    p.cov[i * p.dim + j]
  }

  ghost predicate Symmetric(p: Problem)
    requires |p.cov| == p.dim * p.dim
  {
    forall i: nat, j: nat :: i < p.dim && j < p.dim ==> Entry(p, i, j) == Entry(p, j, i)
  }

  // ------------------------------------------------------------ the quadratic form

  /** Row `i` of the matrix applied to the components of `x` from `lo` on. */
  ghost function RowTimes(p: Problem, i: nat, x: seq<real>, lo: nat): real
    requires |p.cov| == p.dim * p.dim && i < p.dim && |x| == p.dim && lo <= p.dim
    decreases p.dim - lo
  {
    if lo == p.dim then 0.0 else Times(Entry(p, i, lo), x[lo]) + RowTimes(p, i, x, lo + 1)
  }

  /** The double sum of `x[i] * a[i, j] * x[j]` over rows from `lo` and columns from `start`. */
  ghost function QuadraticForm(p: Problem, x: seq<real>, lo: nat, start: nat): real
    requires |p.cov| == p.dim * p.dim && |x| == p.dim && lo <= p.dim && start <= p.dim
    decreases p.dim - lo
  {
    if lo == p.dim then 0.0
    else Times(x[lo], RowTimes(p, lo, x, start)) + QuadraticForm(p, x, lo + 1, start)
  }

  ghost predicate Psd(p: Problem)
    requires |p.cov| == p.dim * p.dim
  {
    Symmetric(p) && forall x: seq<real> :: |x| == p.dim ==> QuadraticForm(p, x, 0, 0) >= 0.0
  }

  // --------------------------------------------------------------- the elimination

  /** What is left of entry `(i, j)` once the first `k` columns are eliminated. */
  function Residual(p: Problem, k: nat, i: nat, j: nat): real
    requires p.Valid() && k <= i < p.dim && k <= j < p.dim
    decreases k, 0
  {
    if k == 0 then Entry(p, i, j)
    else Residual(p, k - 1, i, j) - Column(p, k - 1, i) * Column(p, k - 1, j)
  }

  function Pivot(p: Problem, k: nat): real
    requires p.Valid() && k < p.dim
    decreases k, 1
  {
    var d := Residual(p, k, k, k);
    if d > 0.0 then p.sqrt(d) else 0.0
  }

  /** The factor's entry below pivot `k`; zero when the pivot does not pass the threshold. */
  function Column(p: Problem, k: nat, i: nat): real
    requires p.Valid() && k < i < p.dim
    decreases k, 2
  {
    if Pivot(p, k) > p.epsilon then Residual(p, k, i, k) / Pivot(p, k) else 0.0
  }

  function Factor(p: Problem, i: nat, j: nat): real
    requires p.Valid() && j <= i < p.dim
  {
    if i == j then Pivot(p, i) else Column(p, j, i)
  }

  /** The test passes when no remaining pivot is below `-epsilon`. */
  ghost predicate Accepted(p: Problem)
    requires p.Valid()
  {
    forall k: nat :: k < p.dim ==> Residual(p, k, k, k) >= -p.epsilon
  }

  method CovarianceIsPsd(p: Problem) returns (ok: bool)
    requires p.Valid()
    ensures ok <==> Accepted(p)
  {
    var l := new real[MAX_DIM, MAX_DIM]((_, _) => 0.0);
    for i := 0 to p.dim
      invariant forall r: nat, c: nat :: c <= r < i ==> l[r, c] == Factor(p, r, c)
      invariant forall r: nat :: r < i ==> Residual(p, r, r, r) >= -p.epsilon
    {
      for j := 0 to i + 1
        invariant forall r: nat, c: nat :: c <= r < i ==> l[r, c] == Factor(p, r, c)
        invariant forall c: nat :: c < j ==> l[i, c] == Factor(p, i, c)
        invariant j == i + 1 ==> Residual(p, i, i, i) >= -p.epsilon
      {
        Flat(p.dim, i, j);
        var sum := p.cov[i * p.dim + j];
        for k := 0 to j
          invariant sum == Residual(p, k, i, j)
        {
          assert l[i, k] == Factor(p, i, k) == Column(p, k, i);
          assert l[j, k] == Factor(p, j, k) == Column(p, k, j);
          sum := sum - l[i, k] * l[j, k];
        }
        if i == j {
          if sum < -p.epsilon { return false; }
          l[i, j] := if sum > 0.0 then p.sqrt(sum) else 0.0;
        } else {
          assert l[j, j] == Factor(p, j, j);
          l[i, j] := if l[j, j] > p.epsilon then sum / l[j, j] else 0.0;
        }
      }
    }
    return true;
  }

  // ------------------------------------------- the form of a remainder, peeled by rows

  /** Row `r` of the remainder after `k` eliminations, applied to `x` from `lo` on. */
  ghost function Tail(p: Problem, k: nat, r: nat, x: seq<real>, lo: nat): real
    requires p.Valid() && |x| == p.dim && k <= r < p.dim && k <= lo <= p.dim
    decreases p.dim - lo
  {
    if lo == p.dim then 0.0 else Times(Residual(p, k, r, lo), x[lo]) + Tail(p, k, r, x, lo + 1)
  }

  /** One row's share of a symmetric quadratic form: `x d x + 2 x t`. */
  ghost function Peel(d: real, x: real, t: real): real {
    x * d * x + 2.0 * x * t
  }

  /** The quadratic form of the remainder's trailing block from `lo`. */
  ghost function Form(p: Problem, k: nat, x: seq<real>, lo: nat): real
    requires p.Valid() && |x| == p.dim && k <= lo <= p.dim
    decreases p.dim - lo
  {
    if lo == p.dim then 0.0
    else Peel(Residual(p, k, lo, lo), x[lo], Tail(p, k, lo, x, lo + 1)) + Form(p, k, x, lo + 1)
  }

  lemma {:induction false} ResidualSymmetric(p: Problem, k: nat, i: nat, j: nat)
    requires p.Valid() && Symmetric(p) && k <= i < p.dim && k <= j < p.dim
    ensures Residual(p, k, i, j) == Residual(p, k, j, i)
  {
    if k > 0 {
      ResidualSymmetric(p, k - 1, i, j);
    }
  }

  lemma {:induction false} RowTimesIsTail(p: Problem, i: nat, x: seq<real>, lo: nat)
    requires p.Valid() && |x| == p.dim && i < p.dim && lo <= p.dim
    ensures RowTimes(p, i, x, lo) == Tail(p, 0, i, x, lo)
    decreases p.dim - lo
  {
    if lo < p.dim {
      RowTimesIsTail(p, i, x, lo + 1);
    }
  }

  /** Moving one column out of the double sum. */
  lemma {:induction false} MoveColumn(p: Problem, x: seq<real>, m: nat, c: nat)
    requires p.Valid() && Symmetric(p) && |x| == p.dim && m <= p.dim && c < p.dim
    ensures QuadraticForm(p, x, m, c) == Times(x[c], RowTimes(p, c, x, m)) + QuadraticForm(p, x, m, c + 1)
    decreases p.dim - m
  {
    if m < p.dim {
      MoveColumn(p, x, m + 1, c);
      assert Entry(p, m, c) == Entry(p, c, m);
      MoveTerm(x[m], Entry(p, m, c), x[c], RowTimes(p, m, x, c + 1), RowTimes(p, c, x, m + 1));
    } else {
      assert Times(x[c], 0.0) == 0.0;
    }
  }

  lemma MoveTerm(xm: real, a: real, xc: real, rest: real, row: real)
    ensures Times(xm, Times(a, xc) + rest) + Times(xc, row) == Times(xc, Times(a, xm) + row) + Times(xm, rest)
  {
  }

  lemma {:induction false} FormIsQuadratic(p: Problem, x: seq<real>, lo: nat)
    requires p.Valid() && Symmetric(p) && |x| == p.dim && lo <= p.dim
    ensures Form(p, 0, x, lo) == QuadraticForm(p, x, lo, lo)
    decreases p.dim - lo
  {
    if lo < p.dim {
      FormIsQuadratic(p, x, lo + 1);
      MoveColumn(p, x, lo + 1, lo);
      RowTimesIsTail(p, lo, x, lo + 1);
      PeelIs(x[lo], Entry(p, lo, lo), RowTimes(p, lo, x, lo + 1));
    }
  }

  lemma PeelIs(x: real, d: real, t: real)
    ensures Peel(d, x, t) == Times(x, Times(d, x) + t) + Times(x, t)
  {
  }

  // ------------------------------------------------------------ one elimination step

  /** The scale with which column `k` is subtracted: `1 / pivot`, or 0 if skipped. */
  ghost function Gain(p: Problem, k: nat): real
    requires p.Valid() && k < p.dim
  {
    if Pivot(p, k) > p.epsilon then 1.0 / Pivot(p, k) else 0.0
  }

  /** `g` is zero, or its square is the inverse of the positive number `d`. */
  ghost predicate Inverts(g: real, d: real) {
    g == 0.0 || (d > 0.0 && g * g * d == 1.0)
  }

  lemma GainFacts(p: Problem, k: nat)
    requires p.Valid() && k < p.dim
    ensures Inverts(Gain(p, k), Residual(p, k, k, k))
    ensures Pivot(p, k) > p.epsilon ==> Gain(p, k) != 0.0
    ensures forall i: nat :: k < i < p.dim ==> Column(p, k, i) == Times(Gain(p, k), Residual(p, k, i, k))
  {
    var v := Pivot(p, k);
    if v > p.epsilon {
      var g := 1.0 / v;
      InverseSquare(v, g, Residual(p, k, k, k));
      hide Residual, Pivot, Inverts, Times;
      forall i: nat | k < i < p.dim
        ensures Column(p, k, i) == Times(g, Residual(p, k, i, k))
      {
        Divide(Residual(p, k, i, k), v);
      }
    }
  }

  lemma InverseSquare(v: real, g: real, d: real)
    requires v > 0.0 && g == 1.0 / v && d > 0.0 && v * v == d
    ensures Inverts(g, d) && g != 0.0
  {
    assert g * v == 1.0;
    assert (g * v) * (g * v) == g * g * (v * v);
  }

  lemma Divide(a: real, v: real)
    requires v != 0.0
    ensures a / v == Times(1.0 / v, a)
  {
    var q, g := a / v, 1.0 / v;
    assert q * v == a && g * v == 1.0;
    assert g * a == q * (g * v);
  }

  /** Eliminating column `k` changes an entry by a product of scaled entries. */
  lemma ResidualStep(p: Problem, k: nat, i: nat, j: nat)
    requires p.Valid() && Symmetric(p) && k < i < p.dim && k < j < p.dim
    ensures Residual(p, k + 1, i, j)
         == Residual(p, k, i, j)
            - Times(Times(Gain(p, k), Residual(p, k, i, k)), Times(Gain(p, k), Residual(p, k, k, j)))
  {
    GainFacts(p, k);
    ResidualSymmetric(p, k, j, k);
    hide Gain;
    ProductOf(Column(p, k, i), Column(p, k, j), Times(Gain(p, k), Residual(p, k, i, k)),
              Times(Gain(p, k), Residual(p, k, k, j)));
  }

  lemma ProductOf(a: real, b: real, c: real, d: real)
    requires a == c && b == d
    ensures a * b == Times(c, d)
  {
  }

  lemma {:induction false} TailStep(p: Problem, k: nat, r: nat, x: seq<real>, m: nat)
    requires p.Valid() && Symmetric(p) && |x| == p.dim && k < r < p.dim && k < m <= p.dim
    ensures Tail(p, k + 1, r, x, m)
         == Tail(p, k, r, x, m) - Times(Times(Times(Gain(p, k), Gain(p, k)), Residual(p, k, r, k)), Tail(p, k, k, x, m))
    decreases p.dim - m
  {
    var (g, c) := (Gain(p, k), Residual(p, k, r, k));
    if m < p.dim {
      TailStep(p, k, r, x, m + 1);
      ResidualStep(p, k, r, m);
      var e := Residual(p, k, k, m);
      hide Residual, Gain, Times;
      TailTerm(g, c, e, Residual(p, k, r, m), x[m], Tail(p, k, k, x, m + 1));
    } else {
      assert Times(Times(Times(g, g), c), 0.0) == 0.0;
    }
  }

  lemma TailTerm(g: real, c: real, e: real, a: real, x: real, t: real)
    ensures Times(a - Times(Times(g, c), Times(g, e)), x) - Times(Times(Times(g, g), c), t)
         == Times(a, x) - Times(Times(Times(g, g), c), Times(e, x) + t)
  {
  }

  /** Eliminating column `k` subtracts a square from the trailing form. */
  lemma {:induction false} FormStep(p: Problem, k: nat, x: seq<real>, m: nat)
    requires p.Valid() && Symmetric(p) && |x| == p.dim && k < m <= p.dim
    ensures Form(p, k + 1, x, m) == Form(p, k, x, m) - Square(Gain(p, k), Tail(p, k, k, x, m))
    decreases p.dim - m
  {
    if m < p.dim {
      FormStep(p, k, x, m + 1);
      TailStep(p, k, m, x, m + 1);
      ResidualStep(p, k, m, m);
      ResidualSymmetric(p, k, m, k);
      var (g, e) := (Gain(p, k), Residual(p, k, m, k));
      hide Residual, Gain, Square, Peel, Times;
      FormTerm(g, e, Residual(p, k, m, m), x[m], Tail(p, k, m, x, m + 1), Tail(p, k, k, x, m + 1));
    }
  }

  /** `(g t)^2`. */
  ghost function Square(g: real, t: real): real {
    g * t * (g * t)
  }

  lemma FormTerm(g: real, e: real, a: real, x: real, t: real, s: real)
    ensures Peel(a - Times(Times(g, e), Times(g, e)), x, t - Times(Times(Times(g, g), e), s)) - Square(g, s)
         == Peel(a, x, t) - Square(g, Times(e, x) + s)
  {
  }

  // -------------------------------------------------------------------- the theorem

  /** The remainder after `k` eliminations is positive semi-definite. */
  ghost predicate RemainderPsd(p: Problem, k: nat)
    requires p.Valid() && k <= p.dim
  {
    forall x: seq<real> :: |x| == p.dim ==> Form(p, k, x, k) >= 0.0
  }

  lemma {:induction false} FormIgnores(p: Problem, k: nat, x: seq<real>, y: seq<real>, lo: nat)
    requires p.Valid() && |x| == |y| == p.dim && k <= lo <= p.dim
    requires forall i :: lo <= i < p.dim ==> x[i] == y[i]
    ensures Form(p, k, x, lo) == Form(p, k, y, lo)
    ensures forall r: nat :: k <= r < p.dim ==> Tail(p, k, r, x, lo) == Tail(p, k, r, y, lo)
    decreases p.dim - lo
  {
    if lo < p.dim {
      FormIgnores(p, k, x, y, lo + 1);
    }
  }

  lemma {:induction false} FormOfZero(p: Problem, k: nat, x: seq<real>, lo: nat)
    requires p.Valid() && |x| == p.dim && k <= lo <= p.dim
    requires forall i :: lo <= i < p.dim ==> x[i] == 0.0
    ensures Form(p, k, x, lo) == 0.0
    ensures forall r: nat :: k <= r < p.dim ==> Tail(p, k, r, x, lo) == 0.0
    decreases p.dim - lo
  {
    if lo < p.dim {
      FormOfZero(p, k, x, lo + 1);
    }
  }

  /** A positive semi-definite remainder has a nonnegative next pivot. */
  lemma PivotNonNegative(p: Problem, k: nat)
    requires p.Valid() && k < p.dim && RemainderPsd(p, k)
    ensures Residual(p, k, k, k) >= 0.0
  {
    var e := seq(p.dim, i => if i == k then 1.0 else 0.0);
    FormOfZero(p, k, e, k + 1);
    assert Form(p, k, e, k) >= 0.0;
  }

  ghost function BestShift(g: real, t: real): real {
    -(g * g * t)
  }

  /** Eliminating a pivot, or skipping it, leaves a positive semi-definite remainder. */
  lemma RemainderStaysPsd(p: Problem, k: nat)
    requires p.Valid() && Symmetric(p) && k < p.dim && RemainderPsd(p, k)
    ensures RemainderPsd(p, k + 1)
  {
    forall x: seq<real> | |x| == p.dim
      ensures Form(p, k + 1, x, k + 1) >= 0.0
    {
      hide Gain, Residual, Peel, Square, Inverts, Pivot;
      FormStep(p, k, x, k + 1);
      GainFacts(p, k);
      var (g, t, d) := (Gain(p, k), Tail(p, k, k, x, k + 1), Residual(p, k, k, k));
      var u := BestShift(g, t);
      var y := x[k := u];
      FormIgnores(p, k, x, y, k + 1);
      assert Form(p, k, y, k) >= 0.0;
      Complete(g, t, d, u);
    }
  }

  /** The best choice of the eliminated component turns the peeled row into minus the square. */
  lemma Complete(g: real, t: real, d: real, u: real)
    requires Inverts(g, d) && u == BestShift(g, t)
    ensures Peel(d, u, t) == -Square(g, t)
  {
    if g != 0.0 {
      assert g * g * t * d * (g * g * t) == (g * g * d) * (g * g * t * t);
    }
  }

  lemma {:induction false} AllRemaindersPsd(p: Problem, k: nat)
    requires p.Valid() && Psd(p) && k <= p.dim
    ensures RemainderPsd(p, k)
  {
    if k == 0 {
      forall x: seq<real> | |x| == p.dim
        ensures Form(p, 0, x, 0) >= 0.0
      {
        FormIsQuadratic(p, x, 0);
      }
    } else {
      AllRemaindersPsd(p, k - 1);
      RemainderStaysPsd(p, k - 1);
    }
  }

  /** Passing the test is necessary: every symmetric positive semi-definite
      matrix is accepted, whatever the threshold. */
  lemma PsdIsAccepted(p: Problem)
    requires p.Valid() && Psd(p)
    ensures Accepted(p)
  {
    forall k: nat | k < p.dim
      ensures Residual(p, k, k, k) >= -p.epsilon
    {
      AllRemaindersPsd(p, k);
      PivotNonNegative(p, k);
    }
  }

  // ------------------------------------------- exactly which matrices are semi-definite

  /** A pivot is skipped only if nothing positive is left of it. For threshold zero this always holds. */
  ghost predicate NoTinyPivot(p: Problem)
    requires p.Valid()
  {
    forall k: nat :: k < p.dim && Pivot(p, k) <= p.epsilon ==> Residual(p, k, k, k) <= 0.0
  }

  /** What was skipped was all zero: the pivot and everything below it. */
  ghost predicate CleanSkip(p: Problem, k: nat)
    requires p.Valid() && k < p.dim
  {
    Residual(p, k, k, k) == 0.0 && forall i: nat :: k < i < p.dim ==> Residual(p, k, i, k) == 0.0
  }

  ghost predicate CleanSkips(p: Problem)
    requires p.Valid()
  {
    forall k: nat :: k < p.dim && Pivot(p, k) <= p.epsilon ==> CleanSkip(p, k)
  }

  lemma {:induction false} ZeroTail(p: Problem, k: nat, x: seq<real>, lo: nat)
    requires p.Valid() && Symmetric(p) && |x| == p.dim && k < p.dim && k < lo <= p.dim && CleanSkip(p, k)
    ensures Tail(p, k, k, x, lo) == 0.0
    decreases p.dim - lo
  {
    if lo < p.dim {
      ZeroTail(p, k, x, lo + 1);
      ResidualSymmetric(p, k, k, lo);
      hide Residual;
    }
  }

  lemma {:induction false} CleanForm(p: Problem, x: seq<real>, k: nat)
    requires p.Valid() && Symmetric(p) && |x| == p.dim && k <= p.dim && CleanSkips(p)
    ensures Form(p, k, x, k) >= 0.0
    decreases p.dim - k
  {
    if k < p.dim {
      CleanForm(p, x, k + 1);
      FormStep(p, k, x, k + 1);
      GainFacts(p, k);
      var (g, t, d) := (Gain(p, k), Tail(p, k, k, x, k + 1), Residual(p, k, k, k));
      if Pivot(p, k) > p.epsilon {
        hide Gain, Residual, Peel, Square, Inverts, Pivot, CleanSkips;
        PeelPlusSquare(g, t, d, x[k]);
      } else {
        assert CleanSkip(p, k);
        ZeroTail(p, k, x, k + 1);
        hide Residual, Pivot, CleanSkips;
      }
    }
  }

  ghost function Unit(n: nat, i: nat): (e: seq<real>)
    ensures |e| == n
  {
    seq(n, j => if j == i then 1.0 else 0.0)
  }

  lemma {:induction false} TailOfUnit(p: Problem, k: nat, r: nat, i: nat, lo: nat)
    requires p.Valid() && k <= r < p.dim && k <= lo <= i < p.dim
    ensures Tail(p, k, r, Unit(p.dim, i), lo) == Residual(p, k, r, i)
    decreases i - lo
  {
    if lo < i {
      TailOfUnit(p, k, r, i, lo + 1);
    } else {
      FormOfZero(p, k, Unit(p.dim, i), i + 1);
    }
  }

  /** In a semi-definite remainder a zero pivot has only zeros in its column. */
  lemma ZeroPivotZeroColumn(p: Problem, k: nat, i: nat)
    requires p.Valid() && Symmetric(p) && k < i < p.dim && RemainderPsd(p, k) && Residual(p, k, k, k) == 0.0
    ensures Residual(p, k, i, k) == 0.0
  {
    var e := Residual(p, k, k, i);
    ResidualSymmetric(p, k, i, k);
    TailOfUnit(p, k, k, i, k + 1);
    var x := Unit(p.dim, i);
    var a := Form(p, k, x, k + 1);
    if e != 0.0 {
      var s := -(a + 1.0) / (2.0 * e);
      var y := x[k := s];
      FormIgnores(p, k, x, y, k + 1);
      assert Form(p, k, y, k) >= 0.0;
      hide Residual, Form, Tail;
      TooFar(s, e, a);
      assert false;
    }
  }

  lemma TooFar(s: real, e: real, a: real)
    requires e != 0.0 && s == -(a + 1.0) / (2.0 * e)
    ensures Peel(0.0, s, e) + a == -1.0
  {
    assert s * (2.0 * e) == -(a + 1.0);
  }

  /** With no tiny pivot skipped, a symmetric matrix is positive semi-definite exactly
      when everything skipped was zero. */
  lemma PsdIffCleanSkips(p: Problem)
    requires p.Valid() && Symmetric(p) && NoTinyPivot(p)
    ensures Psd(p) <==> CleanSkips(p)
    ensures CleanSkips(p) ==> Accepted(p)
  {
    if Psd(p) {
      forall k: nat | k < p.dim && Pivot(p, k) <= p.epsilon
        ensures CleanSkip(p, k)
      {
        SkipIsClean(p, k);
      }
    }
    if CleanSkips(p) {
      forall x: seq<real> | |x| == p.dim
        ensures QuadraticForm(p, x, 0, 0) >= 0.0
      {
        CleanForm(p, x, 0);
        FormIsQuadratic(p, x, 0);
      }
      hide CleanSkips, NoTinyPivot;
      PsdIsAccepted(p);
    }
  }

  lemma SkipIsClean(p: Problem, k: nat)
    requires p.Valid() && Psd(p) && NoTinyPivot(p) && k < p.dim && Pivot(p, k) <= p.epsilon
    ensures CleanSkip(p, k)
  {
    AllRemaindersPsd(p, k);
    PivotNonNegative(p, k);
    hide Residual, Pivot, Psd;
    forall i: nat | k < i < p.dim
      ensures Residual(p, k, i, k) == 0.0
    {
      ZeroPivotZeroColumn(p, k, i);
    }
  }

  /** The same matrix with threshold zero. */
  function Exact(p: Problem): Problem {
    p.(epsilon := 0.0)
  }

  lemma {:induction false} ExactRow(p: Problem, i: nat, x: seq<real>, lo: nat)
    requires p.Valid() && i < p.dim && |x| == p.dim && lo <= p.dim
    ensures RowTimes(Exact(p), i, x, lo) == RowTimes(p, i, x, lo)
    decreases p.dim - lo
  {
    if lo < p.dim { ExactRow(p, i, x, lo + 1); }
  }

  lemma {:induction false} ExactForm(p: Problem, x: seq<real>, lo: nat)
    requires p.Valid() && |x| == p.dim && lo <= p.dim
    ensures QuadraticForm(Exact(p), x, lo, 0) == QuadraticForm(p, x, lo, 0)
    decreases p.dim - lo
  {
    if lo < p.dim {
      ExactRow(p, lo, x, 0);
      ExactForm(p, x, lo + 1);
    }
  }

  lemma SameEntries(p: Problem)
    requires p.Valid()
    ensures Exact(p).Valid() && (Symmetric(Exact(p)) <==> Symmetric(p)) && (Psd(Exact(p)) <==> Psd(p))
  {
    var q := Exact(p);
    assert forall i: nat, j: nat :: i < p.dim && j < p.dim ==> Entry(q, i, j) == Entry(p, i, j);
    forall x: seq<real> | |x| == p.dim
      ensures QuadraticForm(q, x, 0, 0) == QuadraticForm(p, x, 0, 0)
    {
      ExactForm(p, x, 0);
    }
  }

  /** For every symmetric matrix and every threshold: it is positive semi-definite exactly
      when elimination without a threshold skips only zeros. So an accepted matrix is
      indefinite exactly when such an elimination meets a nonpositive pivot with something
      nonzero in it or below it. */
  lemma PsdExactly(p: Problem)
    requires p.Valid() && Symmetric(p)
    ensures Exact(p).Valid() && (Psd(p) <==> CleanSkips(Exact(p)))
    ensures Psd(p) ==> Accepted(p)
  {
    SameEntries(p);
    var q := Exact(p);
    NothingTiny(q);
    PsdIffCleanSkips(q);
    if Psd(p) { PsdIsAccepted(p); }
  }

  lemma NothingTiny(p: Problem)
    requires p.Valid() && p.epsilon == 0.0
    ensures NoTinyPivot(p)
  {
  }

  lemma PeelPlusSquare(g: real, t: real, d: real, x: real)
    requires Inverts(g, d) && g != 0.0
    ensures Peel(d, x, t) + Square(g, t) >= 0.0
  {
    var h := g * g;
    var u := x + h * t;
    assert u * u >= 0.0;
    assert d * (u * u) == d * x * x + 2.0 * x * t * (h * d) + h * t * t * (h * d);
  }

  /** When no pivot was skipped, passing the test is also sufficient. */
  lemma AcceptedWithoutSkipsIsPsd(p: Problem)
    requires p.Valid() && Symmetric(p)
    requires forall j: nat :: j < p.dim ==> Pivot(p, j) > p.epsilon
    ensures Psd(p)
  {
    PsdIffCleanSkips(p);
  }

  /** With an unclean skip it is not: a zero on the diagonal next to anything nonzero
      passes for every threshold, and is indefinite. */
  lemma SkippedPivotHidesIndefiniteness(p: Problem, b: real, d: real)
    requires p.Valid() && p.dim == 2 && p.cov == [0.0, b, b, d] && b != 0.0 && d >= 0.0
    ensures Accepted(p) && Symmetric(p) && !CleanSkips(p) && !Psd(p)
  {
    assert Entry(p, 0, 0) == 0.0 && Entry(p, 1, 1) == d && Entry(p, 0, 1) == b && Entry(p, 1, 0) == b;
    assert Pivot(p, 0) == 0.0 && Column(p, 0, 1) == 0.0;
    assert Residual(p, 1, 1, 1) == d;
    assert Residual(p, 0, 1, 0) == b;
    assert !CleanSkip(p, 0);
    if Psd(p) {
      AllRemaindersPsd(p, 0);
      ZeroPivotZeroColumn(p, 0, 1);
    }
  }
}
