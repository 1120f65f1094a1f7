/** Products of reals, in steps small enough for the solver. */
module RealArith {
  lemma Distribute(c: real, x: real, y: real, t: real)
    ensures t == x + y ==> c * t == c * x + c * y
    ensures t == x - y ==> c * t == c * x - c * y
  {
  }

  lemma Congruent(c: real, x: real, y: real)
    requires x == y
    ensures c * x == c * y
  {
  }

  lemma TimesIsMonotone(c: real, x: real, y: real)
    requires c >= 0.0
    ensures x <= y ==> c * x <= c * y && x * c <= y * c
    ensures c > 0.0 && x < y ==> c * x < c * y && x * c < y * c
  {
  }

  lemma ProductIsPositive(a: real, b: real)
    requires a > 0.0 && b > 0.0
    ensures a * b > 0.0
  {
  }

  lemma PositiveAs(a: real, b: real, product: real)
    requires a > 0.0 && b > 0.0 && product == a * b
    ensures product > 0.0
  {
  }
}
