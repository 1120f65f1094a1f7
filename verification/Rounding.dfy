/** Exact-arithmetic rounding, and the step a uniform quantizer makes. */
module Rounding {

  function Abs(x: real): real {
    if x < 0.0 then -x else x
  }

  /** Nearest integer, ties away from zero. */
  function RoundAway(x: real): (r: int)
    ensures Abs(r as real - x) <= 0.5
    ensures Abs(r as real - x) == 0.5 ==> Abs(r as real) > Abs(x)
  {
    if x >= 0.0 then (x + 0.5).Floor else -(0.5 - x).Floor
  }

  function Clamp(x: int, lo: int, hi: int): int
    requires lo <= hi
  {
    if x < lo then lo else if x > hi then hi else x
  }

  /** How many steps of `d` a value comes to. */
  function Steps(v: real, inv: real): int {
    RoundAway(v * inv)
  }

  /** Quantizing with step `d > 0` and reading back is off by at most half a step. */
  lemma HalfStep(v: real, d: real, inv: real)
    requires d > 0.0 && inv == 1.0 / d
    ensures Abs(v - Steps(v, inv) as real * d) <= d / 2.0
  {
    var q := Steps(v, inv) as real;
    var e := q - v * inv;
    assert v * inv * d == v by {
      assert inv * d == 1.0;
      Reassociate(v, inv, d);
    }
    assert v - q * d == -(e * d) by {
      Distribute(v * inv, e, d);
    }
    ScaleBound(e, 0.5, d);
  }

  lemma Reassociate(a: real, b: real, c: real)
    requires b * c == 1.0
    ensures a * b * c == a
  {
    assert a * b * c == a * (b * c);
  }

  lemma Distribute(a: real, b: real, c: real)
    ensures (a + b) * c == a * c + b * c
  {
  }

  lemma ScaleBound(e: real, bound: real, d: real)
    requires Abs(e) <= bound && d >= 0.0
    ensures Abs(e * d) <= bound * d
  {
    assert (bound - e) * d >= 0.0 && (bound + e) * d >= 0.0;
  }

  /** What the quantizers multiply by instead of dividing by a step that may be zero. */
  function Inverse(d: real): real
    requires d >= 0.0
  {
    if d != 0.0 then 1.0 / d else 0.0
  }

  /** A symmetric code of `steps` steps for a value no larger than `m == steps * d`: in range
      without clamping, and off by at most half a step. */
  lemma SymmetricStep(v: real, m: real, steps: int, d: real, inv: real)
    requires Abs(v) <= m && m == steps as real * d && d >= 0.0 && steps >= 0 && inv == Inverse(d)
    ensures -steps <= Steps(v, inv) <= steps
    ensures Abs(v - Steps(v, inv) as real * d) <= d / 2.0
  {
    hide Steps;
    if d > 0.0 {
      HalfStep(v, d, inv);
    } else {
      ZeroSteps(v, inv);
    }
  }

  lemma ZeroSteps(v: real, inv: real)
    requires v == 0.0
    ensures Steps(v, inv) == 0
  {
    assert v * inv == 0.0;
  }

  /** The same for a value that is not negative. */
  lemma PositiveStep(w: real, m: real, steps: int, d: real, inv: real)
    requires 0.0 <= w <= m && m == steps as real * d && d >= 0.0 && steps >= 0 && inv == Inverse(d)
    ensures 0 <= Steps(w, inv) <= steps
    ensures Abs(w - Steps(w, inv) as real * d) <= d / 2.0
  {
    hide Steps;
    SymmetricStep(w, m, steps, d, inv);
    StepsNotNegative(w, inv);
  }

  lemma StepsNotNegative(w: real, inv: real)
    requires w >= 0.0 && inv >= 0.0
    ensures Steps(w, inv) >= 0
  {
    assert w * inv >= 0.0;
  }

  /** Replacing the exact step by the stored one moves a code's value by at most the largest
      code times the difference. */
  lemma StoredStepError(v: real, q: real, d: real, stored: real, most: real, bound: real, w: real)
    requires Abs(v - q * d) <= bound && Abs(q) <= most && w == q * stored
    ensures Abs(v - w) <= bound + most * Abs(stored - d)
  {
    var e := stored - d;
    Distribute(d, e, q);
    ScaleBound(q, most, Abs(e));
    assert Abs(e * q) == Abs(q * Abs(e));
  }
}
