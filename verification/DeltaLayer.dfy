/** The token loop of the gated delta rule over all heads, and the gates and the normalization
    that feed it (tools/capture_qwen35_layers.py). */
module DeltaLayer {
  import opened RealVectors
  import opened DeltaRule

  /** The transcendental functions the source calls, as far as their laws matter here. */
  datatype Math = Math(exp: real -> real, rsqrt: real -> real, sigmoid: real -> real, softplus: real -> real) {
    ghost predicate Lawful() {
      && (forall x: real :: exp(x) > 0.0 && (x <= 0.0 ==> exp(x) <= 1.0))
      && (forall x: real :: x > 0.0 ==> rsqrt(x) > 0.0 && (rsqrt(x) * rsqrt(x)) * x == 1.0)
      && (forall x: real :: 0.0 <= sigmoid(x) <= 1.0)
      && (forall x: real :: softplus(x) >= 0.0)
    }
  }

  const EPS: real := 0.000001

  function L2Norm(m: Math, x: Vec): (r: Vec)
    ensures |r| == |x|
  {
    Scale(m.rsqrt(Norm2(x) + EPS), x)
  }

  /** A normalized vector is never longer than one, whatever it was before. */
  lemma NormalizedIsShort(m: Math, x: Vec)
    requires m.Lawful()
    ensures Norm2(L2Norm(m, x)) <= 1.0
  {
    hide Norm2, Scale;
    var n := Norm2(x);
    Norm2IsNonNegative(x);
    var r := m.rsqrt(n + EPS);
    Norm2OfScale(r, x);
  }

  function Beta(m: Math, b: real): real {
    m.sigmoid(b)
  }

  function LogDecay(m: Math, aLog: real, a: real, dtBias: real): real {
    -m.exp(aLog) * m.softplus(a + dtBias)
  }

  lemma LogDecayIsNegative(m: Math, aLog: real, a: real, dtBias: real)
    requires m.Lawful()
    ensures LogDecay(m, aLog, a, dtBias) <= 0.0
  {
    assert m.exp(aLog) > 0.0 && m.softplus(a + dtBias) >= 0.0;
  }

  // ---- a batch of tokens and heads -------------------------------------------

  /** Indexed by token, then head; `q`, `k`, `v` then by dimension. */
  datatype Batch = Batch(q: seq<seq<Vec>>, k: seq<seq<Vec>>, v: seq<seq<Vec>>, g: seq<seq<real>>, beta: seq<seq<real>>)

  ghost predicate Box(x: seq<seq<Vec>>, tokens: nat, heads: nat, w: nat) {
    |x| == tokens && forall t | 0 <= t < tokens :: Shape(x[t], heads, w)
  }

  ghost predicate Grid(x: seq<seq<real>>, tokens: nat, heads: nat) {
    |x| == tokens && forall t | 0 <= t < tokens :: |x[t]| == heads
  }

  ghost predicate Sized(b: Batch, heads: nat, dk: nat, dv: nat) {
    var tokens := |b.k|;
    && Box(b.q, tokens, heads, dk) && Box(b.k, tokens, heads, dk) && Box(b.v, tokens, heads, dv)
    && Grid(b.g, tokens, heads) && Grid(b.beta, tokens, heads)
  }

  /** What head `h` reads at step `t`. */
  function TokenAt(m: Math, b: Batch, heads: nat, dk: nat, dv: nat, t: nat, h: nat): (r: Token)
    requires Sized(b, heads, dk, dv) && t < |b.k| && h < heads
    ensures Fits(r, dk, dv)
  {
    assert Shape(b.q[t], heads, dk) && Shape(b.k[t], heads, dk) && Shape(b.v[t], heads, dv);
    Token(Scale(m.rsqrt(dk as real), L2Norm(m, b.q[t][h])), L2Norm(m, b.k[t][h]), b.v[t][h], m.exp(b.g[t][h]),
          b.beta[t][h])
  }

  function HeadTokens(m: Math, b: Batch, heads: nat, dk: nat, dv: nat, n: nat, h: nat): (r: seq<Token>)
    requires Sized(b, heads, dk, dv) && n <= |b.k| && h < heads
    ensures |r| == n && AllFit(r, dk, dv)
    ensures forall t | 0 <= t < n :: r[t] == TokenAt(m, b, heads, dk, dv, t, h)
  {
    if n == 0 then [] else HeadTokens(m, b, heads, dk, dv, n - 1, h) + [TokenAt(m, b, heads, dk, dv, n - 1, h)]
  }

  function ZeroState(dk: nat, dv: nat): (r: Matrix)
    ensures Shape(r, dk, dv) && forall i | 0 <= i < dk :: r[i] == Zeros(dv)
  {
    seq(dk, i => Zeros(dv))
  }

  ghost predicate StatesAre(m: Math, b: Batch, heads: nat, dk: nat, dv: nat, n: nat, states: seq<Matrix>)
    requires Sized(b, heads, dk, dv) && n <= |b.k|
  {
    |states| == heads &&
    forall h | 0 <= h < heads :: states[h] == Run(HeadTokens(m, b, heads, dk, dv, n, h), ZeroState(dk, dv), dk, dv)
  }

  ghost predicate OutputsAre(m: Math, b: Batch, heads: nat, dk: nat, dv: nat, t: nat, row: seq<Vec>)
    requires Sized(b, heads, dk, dv) && t < |b.k|
  {
    |row| == heads &&
    forall h | 0 <= h < heads ::
      row[h] == Output(HeadTokens(m, b, heads, dk, dv, |b.k|, h), t, ZeroState(dk, dv), dk, dv)
  }

  lemma {:induction false} HeadTokensPrefix(m: Math, b: Batch, heads: nat, dk: nat, dv: nat, n: nat, t: nat, h: nat)
    requires Sized(b, heads, dk, dv) && t <= n <= |b.k| && h < heads
    ensures HeadTokens(m, b, heads, dk, dv, n, h)[..t] == HeadTokens(m, b, heads, dk, dv, t, h)
  {
    hide TokenAt;
    if t < n {
      HeadTokensPrefix(m, b, heads, dk, dv, n - 1, t, h);
      assert HeadTokens(m, b, heads, dk, dv, n, h)[..t] == HeadTokens(m, b, heads, dk, dv, n - 1, h)[..t];
    } else {
      assert HeadTokens(m, b, heads, dk, dv, n, h)[..n] == HeadTokens(m, b, heads, dk, dv, n, h);
    }
  }

  /** The state a head has after step `t`, written out the way the loop body computes it. */
  lemma OneMoreToken(m: Math, b: Batch, heads: nat, dk: nat, dv: nat, t: nat, h: nat, s: Matrix)
    requires Sized(b, heads, dk, dv) && t < |b.k| && h < heads
    requires s == Run(HeadTokens(m, b, heads, dk, dv, t, h), ZeroState(dk, dv), dk, dv)
    ensures var token := TokenAt(m, b, heads, dk, dv, t, h);
            var next := Step(token, s, dv);
            && next == Run(HeadTokens(m, b, heads, dk, dv, t + 1, h), ZeroState(dk, dv), dk, dv)
            && Combine(token.q, next, dv) ==
                Output(HeadTokens(m, b, heads, dk, dv, |b.k|, h), t, ZeroState(dk, dv), dk, dv)
  {
    hide Step, TokenAt, ZeroState;
    HeadTokensPrefix(m, b, heads, dk, dv, t + 1, t, h);
    HeadTokensPrefix(m, b, heads, dk, dv, |b.k|, t + 1, h);
  }

  /** The token loop: decay, recall, correct, write, read, for every head at once. */
  method RecurrentGatedDelta(m: Math, b: Batch, heads: nat, dk: nat, dv: nat)
    returns (out: seq<seq<Vec>>, state: seq<Matrix>)
    requires Sized(b, heads, dk, dv) && dk > 0
    ensures |out| == |b.k| && forall t | 0 <= t < |out| :: OutputsAre(m, b, heads, dk, dv, t, out[t])
    ensures StatesAre(m, b, heads, dk, dv, |b.k|, state)
  {
    hide TokenAt, Run, Output, HeadTokens;
    state := seq(heads, h => ZeroState(dk, dv));
    out := [];
    forall h | 0 <= h < heads
      ensures Run(HeadTokens(m, b, heads, dk, dv, 0, h), ZeroState(dk, dv), dk, dv) == ZeroState(dk, dv)
    {
      assert HeadTokens(m, b, heads, dk, dv, 0, h) == [];
      RunOfNone(ZeroState(dk, dv), dk, dv);
    }
    for t := 0 to |b.k|
      invariant |out| == t && forall i | 0 <= i < t :: OutputsAre(m, b, heads, dk, dv, i, out[i])
      invariant StatesAre(m, b, heads, dk, dv, t, state)
    {
      var row;
      state, row := OneStep(m, b, heads, dk, dv, t, state);
      out := out + [row];
    }
  }

  method OneStep(m: Math, b: Batch, heads: nat, dk: nat, dv: nat, t: nat, before: seq<Matrix>)
      returns (state: seq<Matrix>, row: seq<Vec>)
    requires Sized(b, heads, dk, dv) && t < |b.k| && StatesAre(m, b, heads, dk, dv, t, before)
    ensures StatesAre(m, b, heads, dk, dv, t + 1, state)
    ensures OutputsAre(m, b, heads, dk, dv, t, row)
  {
    hide TokenAt, Run, Output, HeadTokens, Scale, Combine;
    var tok := seq(heads, h requires 0 <= h < heads => TokenAt(m, b, heads, dk, dv, t, h));
    state := seq(heads, h requires 0 <= h < heads => Scaled(tok[h].decay, before[h]));
    var mem := seq(heads, h requires 0 <= h < heads => Combine(tok[h].k, state[h], dv));
    var delta := seq(heads, h requires 0 <= h < heads => Scale(tok[h].beta, Minus(tok[h].v, mem[h])));
    state := seq(heads, h requires 0 <= h < heads => PlusOuter(state[h], tok[h].k, delta[h]));
    row := seq(heads, h requires 0 <= h < heads => Combine(tok[h].q, state[h], dv));
    forall h | 0 <= h < heads
      ensures state[h] == Run(HeadTokens(m, b, heads, dk, dv, t + 1, h), ZeroState(dk, dv), dk, dv)
      ensures row[h] == Output(HeadTokens(m, b, heads, dk, dv, |b.k|, h), t, ZeroState(dk, dv), dk, dv)
    {
      OneMoreToken(m, b, heads, dk, dv, t, h, before[h]);
      assert state[h] == Step(tok[h], before[h], dv);
    }
  }

  // ---- what the gates guarantee ----------------------------------------------

  /** The batch's gates are the ones the layer computes, from some `a`, `b`, `A_log` and `dt_bias`. */
  datatype Gates = Gates(a: seq<seq<real>>, b: seq<seq<real>>, aLog: seq<real>, dtBias: seq<real>)

  ghost predicate GatedBy(m: Math, batch: Batch, gates: Gates, heads: nat) {
    && Grid(gates.a, |batch.k|, heads) && Grid(gates.b, |batch.k|, heads)
    && |gates.aLog| == |gates.dtBias| == heads
    && Grid(batch.g, |batch.k|, heads) && Grid(batch.beta, |batch.k|, heads)
    && (forall t, h | 0 <= t < |batch.k| && 0 <= h < heads ::
          batch.beta[t][h] == Beta(m, gates.b[t][h]))
    && (forall t, h | 0 <= t < |batch.k| && 0 <= h < heads ::
          batch.g[t][h] == LogDecay(m, gates.aLog[h], gates.a[t][h], gates.dtBias[h]))
  }

  /** Every token of the layer shrinks or keeps distances. */
  lemma LayerTokensAreContractive(m: Math, b: Batch, gates: Gates, heads: nat, dk: nat, dv: nat, t: nat, h: nat)
    requires m.Lawful() && Sized(b, heads, dk, dv) && GatedBy(m, b, gates, heads) && t < |b.k| && h < heads
    ensures Contractive(TokenAt(m, b, heads, dk, dv, t, h))
  {
    hide L2Norm, Scale, Norm2;
    NormalizedIsShort(m, b.k[t][h]);
    LogDecayIsNegative(m, gates.aLog[h], gates.a[t][h], gates.dtBias[h]);
    assert b.g[t][h] <= 0.0 && b.beta[t][h] == Beta(m, gates.b[t][h]);
  }

  /** From two different states, a head of the layer never drifts apart, over any tokens. */
  lemma LayerNeverMovesApart(m: Math, b: Batch, gates: Gates, heads: nat, dk: nat, dv: nat, h: nat, x: Matrix,
                             y: Matrix)
    requires m.Lawful() && Sized(b, heads, dk, dv) && GatedBy(m, b, gates, heads) && h < heads
    requires Shape(x, dk, dv) && Shape(y, dk, dv)
    ensures var ts := HeadTokens(m, b, heads, dk, dv, |b.k|, h);
            DistanceSquared(Run(ts, x, dk, dv), Run(ts, y, dk, dv), dv) <= DistanceSquared(x, y, dv)
  {
    hide TokenAt, HeadTokens, Contractive, GatedBy, DistanceSquared, Run;
    var ts := HeadTokens(m, b, heads, dk, dv, |b.k|, h);
    forall t | 0 <= t < |ts| ensures Contractive(ts[t]) {
      LayerTokensAreContractive(m, b, gates, heads, dk, dv, t, h);
    }
    RunsNeverMoveApart(ts, x, y, dk, dv);
  }

  /** The query is normalized and then divided by the square root of the key width. */
  lemma QueryIsShort(m: Math, b: Batch, heads: nat, dk: nat, dv: nat, t: nat, h: nat)
    requires m.Lawful() && Sized(b, heads, dk, dv) && t < |b.k| && h < heads && dk > 0
    ensures dk as real * Norm2(TokenAt(m, b, heads, dk, dv, t, h).q) <= 1.0
  {
    hide Norm2, Scale, L2Norm;
    var r, x := m.rsqrt(dk as real), L2Norm(m, b.q[t][h]);
    NormalizedIsShort(m, b.q[t][h]);
    Norm2OfScale(r, x);
  }

  /** Whatever state a head starts from, its outputs differ from those of another start by at most the
      distance of the two starts over the key width, at every step. */
  lemma LayerOutputsStayClose(m: Math, b: Batch, gates: Gates, heads: nat, dk: nat, dv: nat, h: nat, x: Matrix,
                              y: Matrix, t: nat)
    requires m.Lawful() && Sized(b, heads, dk, dv) && GatedBy(m, b, gates, heads) && h < heads && dk > 0
    requires Shape(x, dk, dv) && Shape(y, dk, dv) && t < |b.k|
    ensures var ts := HeadTokens(m, b, heads, dk, dv, |b.k|, h);
            dk as real * Norm2(Minus(Output(ts, t, x, dk, dv), Output(ts, t, y, dk, dv))) <= DistanceSquared(x, y, dv)
  {
    hide TokenAt, HeadTokens, Contractive, GatedBy, Norm2, Output, FrobeniusSquared;
    var ts := HeadTokens(m, b, heads, dk, dv, |b.k|, h);
    forall i | 0 <= i < |ts| ensures Contractive(ts[i]) {
      LayerTokensAreContractive(m, b, gates, heads, dk, dv, i, h);
    }
    OutputsStayClose(ts, t, x, y, dk, dv);
    QueryIsShort(m, b, heads, dk, dv, t, h);
    FrobeniusIsNonNegative(Difference(x, y, dv));
  }
}
