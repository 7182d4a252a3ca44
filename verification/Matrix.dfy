/** Exact 4-vector and 4x4 matrix algebra over the reals, as much of it as the
    constant-velocity filter needs: products, transposes and quadratic forms. */
module Matrix {

  datatype V4 = V4(x0: real, x1: real, x2: real, x3: real)

  /** Row-major: `r0` is the first row. */
  datatype M4 = M4(r0: V4, r1: V4, r2: V4, r3: V4)

  type Index = i: nat | i < 4

  function At(v: V4, i: Index): real {
    if i == 0 then v.x0 else if i == 1 then v.x1 else if i == 2 then v.x2 else v.x3
  }

  function Row(m: M4, i: Index): V4 {
    if i == 0 then m.r0 else if i == 1 then m.r1 else if i == 2 then m.r2 else m.r3
  }

  function Col(m: M4, j: Index): V4 {
    V4(At(m.r0, j), At(m.r1, j), At(m.r2, j), At(m.r3, j))
  }

  function Entry(m: M4, i: Index, j: Index): real {
    At(Row(m, i), j)
  }

  function Transpose(m: M4): M4 {
    M4(Col(m, 0), Col(m, 1), Col(m, 2), Col(m, 3))
  }

  function Dot(u: V4, v: V4): real {
    u.x0 * v.x0 + u.x1 * v.x1 + u.x2 * v.x2 + u.x3 * v.x3
  }

  function Add(u: V4, v: V4): V4 {
    V4(u.x0 + v.x0, u.x1 + v.x1, u.x2 + v.x2, u.x3 + v.x3)
  }

  function AddM(a: M4, b: M4): M4 {
    M4(Add(a.r0, b.r0), Add(a.r1, b.r1), Add(a.r2, b.r2), Add(a.r3, b.r3))
  }

  function Apply(m: M4, v: V4): V4 {
    V4(Dot(m.r0, v), Dot(m.r1, v), Dot(m.r2, v), Dot(m.r3, v))
  }

  function Mul(a: M4, b: M4): M4 {
    var bt := Transpose(b);
    M4(Apply(bt, a.r0), Apply(bt, a.r1), Apply(bt, a.r2), Apply(bt, a.r3))
  }

  /** The congruence `a m aT`, the shape of both covariance propagation steps. */
  function Sandwich(a: M4, m: M4): M4 {
    Mul(Mul(a, m), Transpose(a))
  }

  function Diagonal(d: V4): M4 {
    M4(V4(d.x0, 0.0, 0.0, 0.0), V4(0.0, d.x1, 0.0, 0.0), V4(0.0, 0.0, d.x2, 0.0), V4(0.0, 0.0, 0.0, d.x3))
  }

  /** `xT m x`: the variance that covariance `m` assigns to the direction `x`. */
  function Quad(m: M4, x: V4): real {
    Dot(x, Apply(m, x))
  }

  ghost predicate Symmetric(m: M4) {
    Transpose(m) == m
  }

  ghost predicate Psd(m: M4) {
    Symmetric(m) && forall x: V4 :: Quad(m, x) >= 0.0
  }

  lemma MulEntry(a: M4, b: M4, i: Index, j: Index)
    ensures Entry(Mul(a, b), i, j) == Dot(Row(a, i), Col(b, j))
  {
    DotCommutes(Row(a, i), Col(b, j));
  }

  lemma DotCommutes(u: V4, v: V4)
    ensures Dot(u, v) == Dot(v, u)
  {
  }

  lemma DotAdd(x: V4, u: V4, v: V4)
    ensures Dot(x, Add(u, v)) == Dot(x, u) + Dot(x, v)
  {
  }

  /** A product of three, named so that proofs can treat it as a unit. */
  function Triple(a: real, b: real, v: real): real {
    a * b * v
  }

  lemma DotTimes(a: V4, c: V4, x: real)
    ensures Dot(c, a) * x == Triple(a.x0, c.x0, x) + Triple(a.x1, c.x1, x) + Triple(a.x2, c.x2, x) + Triple(a.x3, c.x3, x)
  {
  }

  lemma TimesDot(x: real, r: V4, v: V4)
    ensures x * Dot(r, v) == Triple(x, r.x0, v.x0) + Triple(x, r.x1, v.x1) + Triple(x, r.x2, v.x2) + Triple(x, r.x3, v.x3)
  {
  }

  lemma DotIs(p: real, q: real, r: real, s: real, v: V4)
    ensures Dot(V4(p, q, r, s), v) == p * v.x0 + q * v.x1 + r * v.x2 + s * v.x3
    ensures Dot(v, V4(p, q, r, s)) == v.x0 * p + v.x1 * q + v.x2 * r + v.x3 * s
  {
  }

  lemma DotMulRow(a: V4, b: M4, v: V4)
    ensures Dot(Apply(Transpose(b), a), v) == Dot(a, Apply(b, v))
  {
    hide Dot, Triple;
    DotTimes(a, Col(b, 0), v.x0);
    DotTimes(a, Col(b, 1), v.x1);
    DotTimes(a, Col(b, 2), v.x2);
    DotTimes(a, Col(b, 3), v.x3);
    TimesDot(a.x0, b.r0, v);
    TimesDot(a.x1, b.r1, v);
    TimesDot(a.x2, b.r2, v);
    TimesDot(a.x3, b.r3, v);
    DotIs(Dot(Col(b, 0), a), Dot(Col(b, 1), a), Dot(Col(b, 2), a), Dot(Col(b, 3), a), v);
    DotIs(Dot(b.r0, v), Dot(b.r1, v), Dot(b.r2, v), Dot(b.r3, v), a);
  }

  lemma ApplyMul(a: M4, b: M4, v: V4)
    ensures Apply(Mul(a, b), v) == Apply(a, Apply(b, v))
  {
    DotMulRow(a.r0, b, v);
    DotMulRow(a.r1, b, v);
    DotMulRow(a.r2, b, v);
    DotMulRow(a.r3, b, v);
  }

  lemma QuadSandwich(a: M4, m: M4, x: V4)
    ensures Quad(Sandwich(a, m), x) == Quad(m, Apply(Transpose(a), x))
  {
    var y := Apply(Transpose(a), x);
    ApplyMul(Mul(a, m), Transpose(a), x);
    ApplyMul(a, m, y);
    DotMulRow(x, a, Apply(m, y));
  }

  lemma TransposeMul(a: M4, b: M4)
    ensures Transpose(Mul(a, b)) == Mul(Transpose(b), Transpose(a))
  {
    forall i: Index, j: Index
      ensures Entry(Transpose(Mul(a, b)), i, j) == Entry(Mul(Transpose(b), Transpose(a)), i, j)
    {
      MulEntry(a, b, j, i);
      MulEntry(Transpose(b), Transpose(a), i, j);
      DotCommutes(Row(a, j), Col(b, i));
      assert Row(Transpose(b), i) == Col(b, i) && Col(Transpose(a), j) == Row(a, j);
    }
    SameEntries(Transpose(Mul(a, b)), Mul(Transpose(b), Transpose(a)));
  }

  lemma SameEntries(a: M4, b: M4)
    requires forall i: Index, j: Index :: Entry(a, i, j) == Entry(b, i, j)
    ensures a == b
  {
    assert forall i: Index :: Row(a, i) == Row(b, i) by {
      forall i: Index
        ensures Row(a, i) == Row(b, i)
      {
        assert Entry(a, i, 0) == Entry(b, i, 0) && Entry(a, i, 1) == Entry(b, i, 1);
        assert Entry(a, i, 2) == Entry(b, i, 2) && Entry(a, i, 3) == Entry(b, i, 3);
      }
    }
    assert Row(a, 0) == Row(b, 0) && Row(a, 1) == Row(b, 1) && Row(a, 2) == Row(b, 2) && Row(a, 3) == Row(b, 3);
  }

  lemma MulAssociates(a: M4, b: M4, c: M4)
    ensures Mul(Mul(a, b), c) == Mul(a, Mul(b, c))
  {
    forall i: Index, j: Index
      ensures Entry(Mul(Mul(a, b), c), i, j) == Entry(Mul(a, Mul(b, c)), i, j)
    {
      MulEntry(Mul(a, b), c, i, j);
      MulEntry(a, Mul(b, c), i, j);
      DotMulRow(Row(a, i), b, Col(c, j));
      assert Row(Mul(a, b), i) == Apply(Transpose(b), Row(a, i));
      ColMul(b, c, j);
    }
    SameEntries(Mul(Mul(a, b), c), Mul(a, Mul(b, c)));
  }

  lemma ColMul(b: M4, c: M4, j: Index)
    ensures Col(Mul(b, c), j) == Apply(b, Col(c, j))
  {
    MulEntry(b, c, 0, j);
    MulEntry(b, c, 1, j);
    MulEntry(b, c, 2, j);
    MulEntry(b, c, 3, j);
  }

  lemma DoubleTranspose(a: M4)
    ensures Transpose(Transpose(a)) == a
  {
  }

  /** A congruence of a positive semi-definite matrix is positive semi-definite. */
  lemma SandwichPsd(a: M4, m: M4)
    requires Psd(m)
    ensures Psd(Sandwich(a, m))
  {
    var at := Transpose(a);
    TransposeMul(Mul(a, m), at);
    TransposeMul(a, m);
    DoubleTranspose(a);
    MulAssociates(a, m, at);
    forall x: V4
      ensures Quad(Sandwich(a, m), x) >= 0.0
    {
      QuadSandwich(a, m, x);
    }
  }

  lemma QuadAdd(a: M4, b: M4, x: V4)
    ensures Quad(AddM(a, b), x) == Quad(a, x) + Quad(b, x)
  {
    assert Apply(AddM(a, b), x) == Add(Apply(a, x), Apply(b, x)) by {
      DotRowAdd(a.r0, b.r0, x);
      DotRowAdd(a.r1, b.r1, x);
      DotRowAdd(a.r2, b.r2, x);
      DotRowAdd(a.r3, b.r3, x);
    }
    DotAdd(x, Apply(a, x), Apply(b, x));
  }

  lemma DotRowAdd(u: V4, v: V4, x: V4)
    ensures Dot(Add(u, v), x) == Dot(u, x) + Dot(v, x)
  {
  }

  lemma AddPsd(a: M4, b: M4)
    requires Psd(a) && Psd(b)
    ensures Psd(AddM(a, b))
  {
    forall x: V4
      ensures Quad(AddM(a, b), x) >= 0.0
    {
      QuadAdd(a, b, x);
    }
  }

  lemma DiagonalPsd(d: V4)
    requires d.x0 >= 0.0 && d.x1 >= 0.0 && d.x2 >= 0.0 && d.x3 >= 0.0
    ensures Psd(Diagonal(d))
  {
    forall x: V4
      ensures Quad(Diagonal(d), x) >= 0.0
    {
      WeightedSquare(d.x0, x.x0);
      WeightedSquare(d.x1, x.x1);
      WeightedSquare(d.x2, x.x2);
      WeightedSquare(d.x3, x.x3);
    }
  }

  lemma WeightedSquare(w: real, t: real)
    requires w >= 0.0
    ensures t * (w * t) >= 0.0
  {
    assert t * t >= 0.0;
    assert t * (w * t) == w * (t * t);
  }
}
