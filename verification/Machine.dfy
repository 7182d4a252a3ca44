/** Machine integers as subset types; wrap-around is written out where it happens. */
module Machine {
  const TWO_32: int := 0x1_0000_0000
  const TWO_64: int := 0x1_0000_0000_0000_0000

  type byte = x: int | 0 <= x < 256
  type u16 = x: int | 0 <= x < 0x1_0000
  type u32 = x: int | 0 <= x < TWO_32
  type u64 = x: int | 0 <= x < TWO_64
  type i64 = x: int | -0x8000_0000_0000_0000 <= x < 0x8000_0000_0000_0000
  type Bytes = seq<byte>

  datatype Option<T> = None | Some(value: T)

  function Zeros(n: nat): (z: Bytes)
    ensures |z| == n && forall i :: 0 <= i < n ==> z[i] == 0
  {
    seq(n, _ => 0)
  }

  function Power256(n: nat): nat {
    if n == 0 then 1 else 256 * Power256(n - 1)
  }

  lemma QuotientIs(n: nat, d: nat, q: nat, r: nat)
    requires d > 0 && n == d * q + r && r < d
    ensures n / d == q && n % d == r
  {
    var (x, y) := (n / d, n % d);
    assert n == d * x + y;
    Multiples(d, x, q);
    Multiples(d, q, x);
  }

  lemma Multiples(d: nat, x: nat, q: nat)
    ensures x < q ==> d * x + d <= d * q
  {
    var k: int := q - x - 1;
    assert d * q == d * x + d + d * k;
    Product(d, k);
  }

  lemma Product(d: nat, k: int)
    ensures k >= 0 ==> d * k >= 0
  {
  }

  lemma DivideTwice(n: nat, a: nat, p: nat)
    requires a > 0 && p > 0
    ensures a * p > 0 && n / a / p == n / (a * p)
  {
    var (h, b) := (n / a, n % a);
    Division(n, a);
    Division(h, p);
    Positive(a, p);
    Nested(n, a, p, h, b, h / p, h % p);
  }

  lemma Division(n: nat, d: nat)
    requires d > 0
    ensures n == d * (n / d) + n % d && n % d < d
  {
  }

  lemma Positive(a: nat, b: nat)
    requires a > 0 && b > 0
    ensures a * b > 0
  {
  }

  lemma Nested(n: nat, a: nat, p: nat, h: nat, b: nat, q: nat, r: nat)
    requires a > 0 && p > 0 && a * p > 0 && n == a * h + b && b < a && h == p * q + r && r < p
    ensures n / (a * p) == q
  {
    Multiples(a, r, p);
    Regrouped(a, p, q, r, b);
    var (d, rest) := (a * p, a * r + b);
    assert n == d * q + rest;
    QuotientIs(n, d, q, rest);
  }

  lemma Regrouped(a: nat, p: nat, q: nat, r: nat, b: nat)
    ensures a * (p * q + r) + b == (a * p) * q + (a * r + b)
  {
  }

  lemma {:induction false} Power256Positive(n: nat)
    ensures Power256(n) > 0
  {
    if n > 0 { Power256Positive(n - 1); }
  }

  lemma Powers()
    ensures Power256(1) == 256 && Power256(2) == 0x1_0000 && Power256(4) == TWO_32 && Power256(8) == TWO_64
  {
    assert Power256(3) == 256 * Power256(2);
    assert Power256(5) == 256 * Power256(4);
    assert Power256(6) == 256 * Power256(5);
    assert Power256(7) == 256 * Power256(6);
  }
}
