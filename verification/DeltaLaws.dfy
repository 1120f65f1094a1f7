/** What the token loop computes, in terms of the batch's own queries, keys, values and gates
    (tools/capture_qwen35_layers.py). */
module DeltaLaws {
  import opened RealVectors
  import opened DeltaRule
  import opened DeltaLayer

  // ---- reading a state -------------------------------------------------------

  function Outer(k: Vec, d: Vec): (r: Matrix)
    ensures Shape(r, |k|, |d|) && forall i | 0 <= i < |k| :: r[i] == Scale(k[i], d)
  {
    seq(|k|, i requires 0 <= i < |k| => Scale(k[i], d))
  }

  lemma {:induction false} CombineOfOuter(x: Vec, k: Vec, d: Vec)
    requires |x| == |k|
    ensures Combine(x, Outer(k, d), |d|) == Scale(Dot(x, k), d)
  {
    if x != [] {
      var n := |x| - 1;
      CombineOfOuter(x[..n], k[..n], d);
      assert Outer(k, d)[..n] == Outer(k[..n], d);
      ScaleOfScale(x[n], k[n], x[n] * k[n], d);
      ScaleBySum(Dot(x[..n], k[..n]), x[n] * k[n], Dot(x, k), d);
    } else {
      assert Scale(0.0, d) == Zeros(|d|);
    }
  }

  /** Reading under `x` after `d` has been written under `k`. */
  lemma CombineOfPlusOuter(x: Vec, s: Matrix, k: Vec, d: Vec)
    requires |x| == |k| && Shape(s, |k|, |d|)
    ensures Combine(x, PlusOuter(s, k, d), |d|) == Plus(Combine(x, s, |d|), Scale(Dot(x, k), d))
  {
    hide Combine, Dot;
    assert PlusOuter(s, k, d) == Sum(s, Outer(k, d), |d|);
    CombineOfSum(x, s, Outer(k, d), |d|);
    CombineOfOuter(x, k, d);
  }

  /** One step, read under any vector: what was read before, decayed, plus the gated correction of what the
      key recalls, as far as the vector and the key agree. */
  lemma StepRead(t: Token, s: Matrix, x: Vec, dk: nat, dv: nat, f: real)
    requires Fits(t, dk, dv) && Shape(s, dk, dv) && |x| == dk && f == t.beta * Dot(x, t.k)
    ensures Combine(x, Step(t, s, dv), dv)
         == Plus(Scale(t.decay, Combine(x, s, dv)), Scale(f, Minus(t.v, Scale(t.decay, Combine(t.k, s, dv)))))
  {
    hide Combine, Dot, PlusOuter, Scale, Plus, Minus;
    var decayed, gap := Scaled(t.decay, s), Minus(t.v, Scale(t.decay, Combine(t.k, s, dv)));
    CombineOfScaled(x, t.decay, s, dv);
    CombineOfScaled(t.k, t.decay, s, dv);
    CombineOfPlusOuter(x, decayed, t.k, Scale(t.beta, gap));
    ScaleOfScale(Dot(x, t.k), t.beta, f, gap);
  }

  // ---- the loop's states -----------------------------------------------------

  lemma StateStep(m: Math, b: Batch, heads: nat, dk: nat, dv: nat, t: nat, h: nat, before: seq<Matrix>,
                  after: seq<Matrix>)
    requires Sized(b, heads, dk, dv) && t < |b.k| && h < heads
    requires StatesAre(m, b, heads, dk, dv, t, before) && StatesAre(m, b, heads, dk, dv, t + 1, after)
    ensures |before| == |after| == heads && Shape(before[h], dk, dv)
    ensures after[h] == Step(TokenAt(m, b, heads, dk, dv, t, h), before[h], dv)
  {
    hide Step, TokenAt, HeadTokens;
    OneMoreToken(m, b, heads, dk, dv, t, h, before[h]);
  }

  /** Before the first token every entry of the state is zero. */
  lemma StateStartsAtZero(m: Math, b: Batch, heads: nat, dk: nat, dv: nat, states: seq<Matrix>, h: nat, i: nat, j: nat)
    requires Sized(b, heads, dk, dv) && StatesAre(m, b, heads, dk, dv, 0, states) && h < heads && i < dk && j < dv
    ensures Shape(states[h], dk, dv) && states[h][i][j] == 0.0
  {
    RunOfNone(ZeroState(dk, dv), dk, dv);
  }

  /** Reading the state under any vector `x`, one token later. `key` is the token's normalized key. */
  lemma TokenIsRead(m: Math, b: Batch, heads: nat, dk: nat, dv: nat, t: nat, h: nat, before: seq<Matrix>,
                    after: seq<Matrix>, x: Vec, key: Vec, e: real, f: real)
    requires Sized(b, heads, dk, dv) && t < |b.k| && h < heads && |x| == dk
    requires StatesAre(m, b, heads, dk, dv, t, before) && StatesAre(m, b, heads, dk, dv, t + 1, after)
    requires key == L2Norm(m, b.k[t][h]) && |key| == dk && e == m.exp(b.g[t][h]) && f == b.beta[t][h] * Dot(x, key)
    ensures |before| == |after| == heads && Shape(before[h], dk, dv) && Shape(after[h], dk, dv) && |b.v[t][h]| == dv
    ensures Combine(x, after[h], dv)
         == Plus(Scale(e, Combine(x, before[h], dv)), Scale(f, Minus(b.v[t][h], Scale(e, Combine(key, before[h], dv)))))
  {
    hide Step, Combine, Dot, L2Norm, Run, HeadTokens, Scale, Plus, Minus, StatesAre;
    StateStep(m, b, heads, dk, dv, t, h, before, after);
    StepRead(TokenAt(m, b, heads, dk, dv, t, h), before[h], x, dk, dv, f);
  }

  /** Under the token's own key: of the value as much as the gate times the key's squared length, and of
      what was read before the rest, decayed. */
  lemma KeyRecallsValue(m: Math, b: Batch, heads: nat, dk: nat, dv: nat, t: nat, h: nat, before: seq<Matrix>,
                        after: seq<Matrix>, key: Vec, f: real, rest: real)
    requires Sized(b, heads, dk, dv) && t < |b.k| && h < heads
    requires StatesAre(m, b, heads, dk, dv, t, before) && StatesAre(m, b, heads, dk, dv, t + 1, after)
    requires key == L2Norm(m, b.k[t][h]) && |key| == dk && f == b.beta[t][h] * Norm2(key)
    requires rest == (1.0 - f) * m.exp(b.g[t][h])
    ensures |before| == |after| == heads && Shape(before[h], dk, dv) && Shape(after[h], dk, dv) && |b.v[t][h]| == dv
    ensures Combine(key, after[h], dv) == Plus(Scale(f, b.v[t][h]), Scale(rest, Combine(key, before[h], dv)))
  {
    hide Combine, Dot, L2Norm, Scale, Plus, Minus, StatesAre;
    TokenIsRead(m, b, heads, dk, dv, t, h, before, after, key, key, m.exp(b.g[t][h]), f);
    Correction(m.exp(b.g[t][h]), f, rest, Combine(key, before[h], dv), b.v[t][h]);
  }

  lemma Correction(e: real, f: real, g: real, u: Vec, v: Vec)
    requires |u| == |v| && g == (1.0 - f) * e
    ensures Plus(Scale(e, u), Scale(f, Minus(v, Scale(e, u)))) == Plus(Scale(f, v), Scale(g, u))
  {
    var gap := Minus(v, Scale(e, u));
    forall j | 0 <= j < |u|
      ensures Plus(Scale(e, u), Scale(f, gap))[j] == Plus(Scale(f, v), Scale(g, u))[j]
    {
      CorrectionCell(e, f, u[j], v[j], e * u[j], g, f * gap[j]);
    }
  }

  lemma CorrectionCell(e: real, f: real, x: real, y: real, ex: real, g: real, gap: real)
    requires ex == e * x && g == (1.0 - f) * e && gap == f * (y - ex)
    ensures ex + gap == f * y + g * x
  {
  }

  /** The output of a token is the state after it, read under the normalized query over the root of the key
      width. */
  lemma OutputIsRead(m: Math, b: Batch, heads: nat, dk: nat, dv: nat, t: nat, h: nat, after: seq<Matrix>, row: seq<Vec>)
    requires Sized(b, heads, dk, dv) && t < |b.k| && h < heads
    requires StatesAre(m, b, heads, dk, dv, t + 1, after) && OutputsAre(m, b, heads, dk, dv, t, row)
    ensures Shape(after[h], dk, dv) && |L2Norm(m, b.q[t][h])| == dk
    ensures row[h] == Scale(m.rsqrt(dk as real), Combine(L2Norm(m, b.q[t][h]), after[h], dv))
  {
    hide Combine, L2Norm, Run, HeadTokens;
    assert Shape(b.q[t], heads, dk);
    HeadTokensPrefix(m, b, heads, dk, dv, |b.k|, t + 1, h);
    CombineOfScale(m.rsqrt(dk as real), L2Norm(m, b.q[t][h]), after[h], dv);
  }

  // ---- what the states do not depend on --------------------------------------

  /** Two batches that agree on keys, values and gates leave the same states, whatever is asked of them. */
  lemma {:induction false} StatesIgnoreQueries(m: Math, b: Batch, other: Batch, heads: nat, dk: nat, dv: nat, n: nat,
                                               states: seq<Matrix>, others: seq<Matrix>)
    requires Sized(b, heads, dk, dv) && Sized(other, heads, dk, dv) && n <= |b.k|
    requires b.k == other.k && b.v == other.v && b.g == other.g && b.beta == other.beta
    requires StatesAre(m, b, heads, dk, dv, n, states) && StatesAre(m, other, heads, dk, dv, n, others)
    ensures states == others
  {
    forall h | 0 <= h < heads ensures states[h] == others[h] {
      HeadIgnoresQueries(m, b, other, heads, dk, dv, n, h);
    }
  }

  lemma {:induction false} HeadIgnoresQueries(m: Math, b: Batch, other: Batch, heads: nat, dk: nat, dv: nat, n: nat,
                                              h: nat)
    requires Sized(b, heads, dk, dv) && Sized(other, heads, dk, dv) && n <= |b.k| && h < heads
    requires b.k == other.k && b.v == other.v && b.g == other.g && b.beta == other.beta
    ensures Run(HeadTokens(m, b, heads, dk, dv, n, h), ZeroState(dk, dv), dk, dv)
         == Run(HeadTokens(m, other, heads, dk, dv, n, h), ZeroState(dk, dv), dk, dv)
  {
    hide Run, Step, ZeroState, L2Norm, Scale;
    if n == 0 {
      assert HeadTokens(m, b, heads, dk, dv, 0, h) == [] == HeadTokens(m, other, heads, dk, dv, 0, h);
    } else {
      HeadIgnoresQueries(m, b, other, heads, dk, dv, n - 1, h);
      var s := Run(HeadTokens(m, b, heads, dk, dv, n - 1, h), ZeroState(dk, dv), dk, dv);
      OneMoreToken(m, b, heads, dk, dv, n - 1, h, s);
      OneMoreToken(m, other, heads, dk, dv, n - 1, h, s);
      var one, two := TokenAt(m, b, heads, dk, dv, n - 1, h), TokenAt(m, other, heads, dk, dv, n - 1, h);
      StepIgnoresQuery(one, two, s, dv);
    }
  }

  lemma StepIgnoresQuery(one: Token, other: Token, s: Matrix, dv: nat)
    requires one.(q := other.q) == other && |one.v| == dv && Shape(s, |one.k|, dv)
    ensures Step(one, s, dv) == Step(other, s, dv)
  {
  }

  // ---- the normalization and the gates ---------------------------------------

  /** Normalizing keeps the direction, and the squared length that is left is the old one's share of
      itself and a millionth. */
  lemma NormalizationIsExact(m: Math, x: Vec)
    requires m.Lawful()
    ensures Norm2(L2Norm(m, x)) * (Norm2(x) + 0.000001) == Norm2(x)
    ensures exists r: real :: r > 0.0 && L2Norm(m, x) == Scale(r, x)
  {
    hide Norm2, Scale;
    var n := Norm2(x);
    Norm2IsNonNegative(x);
    var r := m.rsqrt(n + EPS);
    Norm2OfScale(r, x);
    assert r * r * (n + EPS) == 1.0;
    Regroup(r * r, n, n + EPS);
  }

  lemma Regroup(a: real, n: real, w: real)
    requires a * w == 1.0
    ensures a * n * w == n
  {
    assert a * n * w == a * w * n;
  }

  /** At rate one a token's decay is what a sigmoid gate leaves, and the log of the decay is proportional to
      the rate. */
  lemma DecayIsSigmoidGate(m: Math, aLog: real, a: real, dtBias: real, rate: real, aLogOther: real)
    requires forall z: real :: m.exp(-m.softplus(z)) == 1.0 - m.sigmoid(z)
    requires m.exp(aLog) == 1.0 && m.exp(aLogOther) == rate
    ensures m.exp(LogDecay(m, aLog, a, dtBias)) == 1.0 - m.sigmoid(a + dtBias)
    ensures LogDecay(m, aLogOther, a, dtBias) == rate * LogDecay(m, aLog, a, dtBias)
  {
    var z := a + dtBias;
    assert LogDecay(m, aLog, a, dtBias) == -m.softplus(z);
    assert m.exp(-m.softplus(z)) == 1.0 - m.sigmoid(z);
  }
}
