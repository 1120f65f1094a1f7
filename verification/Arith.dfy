/** Small facts about products, quotients and remainders of integers, stated once because the
    solver does not find them on its own when the divisor is a variable. */
module Arith {

  /** Quotient and remainder of a number written as `q * d + r`. */
  lemma DivMod(q: int, d: int, r: int)
    requires 0 <= r < d
    ensures (q * d + r) / d == q
    ensures (q * d + r) % d == r
  {
    var x := q * d + r;
    assert x == x / d * d + x % d;
    var e := x / d - q;
    assert e * d == r - x % d && (-e) * d == x % d - r;
    if e > 0 {
      MulAtLeast(e, d);
      assert false;
    } else if e < 0 {
      MulAtLeast(-e, d);
      assert false;
    }
  }

  lemma MulAtLeast(a: int, d: int)
    requires a >= 1 && d >= 0
    ensures a * d >= d
  {
    assert a * d == (a - 1) * d + d;
  }

  lemma MulMono(a: int, b: int, c: int)
    requires a <= b && 0 <= c
    ensures a * c <= b * c
  {
    assert b * c - a * c == (b - a) * c;
  }

  /** The parts of a natural number under division. */
  lemma DivParts(x: nat, d: nat)
    requires d > 0
    ensures 0 <= x / d && 0 <= x % d < d && x == x / d * d + x % d
  {
  }

  /** Position `i * m + j` of an `n` by `m` grid lies in the grid. */
  lemma Flat(i: nat, n: nat, j: nat, m: nat)
    requires i < n && j < m
    ensures 0 <= i * m + j < n * m
  {
    MulMono(i + 1, n, m);
    assert (i + 1) * m == i * m + m;
    MulMono(0, i, m);
  }

  /** Every position of an `n` by `m` grid names one row and one column. */
  lemma Unflat(p: nat, n: nat, m: nat)
    requires p < n * m
    ensures m > 0 && 0 <= p / m < n && 0 <= p % m < m && p == p / m * m + p % m
  {
    assert m == 0 ==> n * m == 0;
    DivParts(p, m);
    if p / m >= n {
      MulMono(n, p / m, m);
    }
  }

  /** Dividing by a product is dividing by its factors in turn. */
  lemma DivOfProduct(n: nat, d: nat, p: nat)
    requires d > 0 && p > 0
    ensures d * p > 0 && n / (d * p) == n / d / p
  {
    MulMono(1, d, p);
    var q, r, s := n / d / p, n / d % p, n % d;
    DivParts(n, d);
    DivParts(n / d, p);
    MulMono(r + 1, p, d);
    assert (q * p + r) * d == q * p * d + r * d && q * p * d == q * (d * p);
    DivMod(q, d * p, r * d + s);
  }

  lemma MulAssoc(a: int, b: int, c: int)
    ensures a * b * c == a * (b * c)
  {
  }

  function CeilDiv(a: nat, b: nat): nat
    requires b > 0
  {
    (a + b - 1) / b
  }

  function Min(a: int, b: int): int {
    if a < b then a else b
  }

  function Max(a: int, b: int): int {
    if a < b then b else a
  }
}
