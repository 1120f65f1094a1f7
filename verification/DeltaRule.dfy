/** The gated delta rule: a recurrence over tokens, one matrix of state per head
    (tools/capture_qwen35_layers.py). Arithmetic is over exact reals. */
module DeltaRule {
  import opened RealArith
  import opened RealVectors

  // ---- one token -------------------------------------------------------------

  /** What one head reads at one time step, after normalization and with the decay `exp(g)`. */
  datatype Token = Token(q: Vec, k: Vec, v: Vec, decay: real, beta: real)

  ghost predicate Fits(t: Token, dk: nat, dv: nat) {
    |t.q| == dk && |t.k| == dk && |t.v| == dv
  }

  ghost predicate AllFit(ts: seq<Token>, dk: nat, dv: nat) {
    forall i | 0 <= i < |ts| :: Fits(ts[i], dk, dv)
  }

  /** What the state, already decayed, recalls under the key; then what the token corrects it by. */
  function Delta(t: Token, decayed: Matrix, dv: nat): (r: Vec)
    requires |t.v| == dv && Shape(decayed, |t.k|, dv)
    ensures |r| == dv
  {
    Scale(t.beta, Minus(t.v, Combine(t.k, decayed, dv)))
  }

  /** `m` plus the outer product of `k` and `d`. */
  function PlusOuter(m: Matrix, k: Vec, d: Vec): (r: Matrix)
    requires Shape(m, |k|, |d|)
    ensures Shape(r, |k|, |d|) && forall i | 0 <= i < |k| :: r[i] == Plus(m[i], Scale(k[i], d))
  {
    seq(|k|, i requires 0 <= i < |k| => Plus(m[i], Scale(k[i], d)))
  }

  function Step(t: Token, s: Matrix, dv: nat): (r: Matrix)
    requires |t.v| == dv && Shape(s, |t.k|, dv)
    ensures Shape(r, |t.k|, dv)
  {
    var decayed := Scaled(t.decay, s);
    PlusOuter(decayed, t.k, Delta(t, decayed, dv))
  }

  function Run(ts: seq<Token>, s: Matrix, dk: nat, dv: nat): (r: Matrix)
    requires AllFit(ts, dk, dv) && Shape(s, dk, dv)
    ensures Shape(r, dk, dv)
  {
    if ts == [] then s else Step(ts[|ts| - 1], Run(ts[..|ts| - 1], s, dk, dv), dv)
  }

  /** What token `i` of `ts` outputs when the state on entry is `s`. */
  function Output(ts: seq<Token>, i: nat, s: Matrix, dk: nat, dv: nat): (r: Vec)
    requires AllFit(ts, dk, dv) && Shape(s, dk, dv) && i < |ts|
    ensures |r| == dv
  {
    Combine(ts[i].q, Run(ts[..i + 1], s, dk, dv), dv)
  }

  // ---- the affine map of a chunk ---------------------------------------------

  /** The map `s` to `a * s + b`. */
  datatype Affine = Affine(a: Matrix, b: Matrix)

  ghost predicate IsMap(f: Affine, dk: nat, dv: nat) {
    Shape(f.a, dk, dk) && Shape(f.b, dk, dv)
  }

  function Apply(f: Affine, s: Matrix, dk: nat, dv: nat): (r: Matrix)
    requires IsMap(f, dk, dv) && Shape(s, dk, dv)
    ensures Shape(r, dk, dv)
  {
    Sum(Product(f.a, s, dv), f.b, dv)
  }

  /** First `f`, then `g`. */
  function Compose(g: Affine, f: Affine, dk: nat, dv: nat): (r: Affine)
    requires IsMap(f, dk, dv) && IsMap(g, dk, dv)
    ensures IsMap(r, dk, dv)
  {
    Affine(Product(g.a, f.a, dk), Sum(Product(g.a, f.b, dv), g.b, dv))
  }

  function Identity(dk: nat, dv: nat): (r: Affine)
    ensures IsMap(r, dk, dv)
    ensures forall i | 0 <= i < dk :: r.a[i] == Unit(dk, i) && r.b[i] == Zeros(dv)
  {
    Affine(seq(dk, i requires 0 <= i < dk => Unit(dk, i)), seq(dk, i => Zeros(dv)))
  }

  /** `beta * k[i]`: how strongly the token writes to row `i`. */
  function Gain(t: Token, i: nat): real
    requires i < |t.k|
  {
    t.beta * t.k[i]
  }

  /** Row `i` of `decay * (I - beta * k * k')`. */
  function KeepRow(t: Token, dk: nat, i: nat): (r: Vec)
    requires |t.k| == dk && i < dk
    ensures |r| == dk
  {
    Scale(t.decay, Plus(Unit(dk, i), Scale(-Gain(t, i), t.k)))
  }

  function WriteRow(t: Token, i: nat): (r: Vec)
    requires i < |t.k|
    ensures |r| == |t.v|
  {
    Scale(Gain(t, i), t.v)
  }

  /** The token's own map, with matrix `decay * (I - beta * k * k')` and offset `beta * k * v'`. */
  function StepMap(t: Token, dk: nat, dv: nat): (r: Affine)
    requires Fits(t, dk, dv)
    ensures IsMap(r, dk, dv)
    ensures forall i | 0 <= i < dk :: r.a[i] == KeepRow(t, dk, i) && r.b[i] == WriteRow(t, i)
  {
    Affine(seq(dk, i requires 0 <= i < dk => KeepRow(t, dk, i)), seq(dk, i requires 0 <= i < dk => WriteRow(t, i)))
  }

  function ChunkMap(ts: seq<Token>, dk: nat, dv: nat): (r: Affine)
    requires AllFit(ts, dk, dv)
    ensures IsMap(r, dk, dv)
  {
    if ts == [] then Identity(dk, dv)
    else Compose(StepMap(ts[|ts| - 1], dk, dv), ChunkMap(ts[..|ts| - 1], dk, dv), dk, dv)
  }

  // ---- a step is affine ------------------------------------------------------

  /** A row of the token's matrix, applied: the decayed row less what its key recalls. */
  lemma KeepRowApplied(t: Token, s: Matrix, dk: nat, dv: nat, i: nat)
    requires |t.k| == dk && Shape(s, dk, dv) && i < dk
    ensures Combine(KeepRow(t, dk, i), s, dv) ==
            Scale(t.decay, Plus(s[i], Scale(-Gain(t, i), Combine(t.k, s, dv))))
  {
    var c := -Gain(t, i);
    CombineOfScale(t.decay, Plus(Unit(dk, i), Scale(c, t.k)), s, dv);
    CombineOfPlus(Unit(dk, i), Scale(c, t.k), s, dv);
    CombineOfUnit(s, i, dv);
    CombineOfScale(c, t.k, s, dv);
  }

  lemma StepRow(t: Token, s: Matrix, dk: nat, dv: nat, i: nat)
    requires Fits(t, dk, dv) && Shape(s, dk, dv) && i < dk
    ensures Step(t, s, dv)[i] == Plus(Combine(KeepRow(t, dk, i), s, dv), WriteRow(t, i))
  {
    hide Combine, KeepRow, Gain;
    KeepRowApplied(t, s, dk, dv, i);
    CombineOfScaled(t.k, t.decay, s, dv);
    StepRowCells(t, i, s[i], Combine(t.k, s, dv));
  }

  lemma StepRowCells(t: Token, i: nat, row: Vec, m: Vec)
    requires i < |t.k| && |row| == |m| == |t.v|
    ensures Plus(Scale(t.decay, row), Scale(t.k[i], Scale(t.beta, Minus(t.v, Scale(t.decay, m))))) ==
            Plus(Scale(t.decay, Plus(row, Scale(-Gain(t, i), m))), WriteRow(t, i))
  {
    var inner := Plus(row, Scale(-Gain(t, i), m));
    var mem := Scale(t.decay, m);
    var diff := Minus(t.v, mem);
    var delta := Scale(t.beta, diff);
    var kept, decayed, written := Scale(t.decay, inner), Scale(t.decay, row), Scale(t.k[i], delta);
    forall j | 0 <= j < |m| ensures decayed[j] + written[j] == kept[j] + WriteRow(t, i)[j] {
      Congruent(t.beta, diff[j], t.v[j] - mem[j]);
    }
  }

  lemma StepIsAffine(t: Token, s: Matrix, dk: nat, dv: nat)
    requires Fits(t, dk, dv) && Shape(s, dk, dv)
    ensures Step(t, s, dv) == Apply(StepMap(t, dk, dv), s, dk, dv)
  {
    hide Step, KeepRow, StepMap;
    forall i | 0 <= i < dk ensures Step(t, s, dv)[i] == Apply(StepMap(t, dk, dv), s, dk, dv)[i] {
      StepRow(t, s, dk, dv, i);
    }
  }

  /** Applying a composition is applying one map after the other. */
  lemma ComposeApplies(g: Affine, f: Affine, s: Matrix, dk: nat, dv: nat)
    requires IsMap(f, dk, dv) && IsMap(g, dk, dv) && Shape(s, dk, dv)
    ensures Apply(Compose(g, f, dk, dv), s, dk, dv) == Apply(g, Apply(f, s, dk, dv), dk, dv)
  {
    ProductIsAssociative(g.a, f.a, s, dv);
    ProductOfSum(g.a, Product(f.a, s, dv), f.b, dv);
    SumIsAssociative(Product(g.a, Product(f.a, s, dv), dv), Product(g.a, f.b, dv), g.b, dv);
  }

  lemma ComposeIsAssociative(h: Affine, g: Affine, f: Affine, dk: nat, dv: nat)
    requires IsMap(f, dk, dv) && IsMap(g, dk, dv) && IsMap(h, dk, dv)
    ensures Compose(Compose(h, g, dk, dv), f, dk, dv) == Compose(h, Compose(g, f, dk, dv), dk, dv)
  {
    ProductIsAssociative(h.a, g.a, f.a, dk);
    ProductIsAssociative(h.a, g.a, f.b, dv);
    ProductOfSum(h.a, Product(g.a, f.b, dv), g.b, dv);
    SumIsAssociative(Product(h.a, Product(g.a, f.b, dv), dv), Product(h.a, g.b, dv), h.b, dv);
  }

  lemma ComposeWithIdentity(f: Affine, dk: nat, dv: nat)
    requires IsMap(f, dk, dv)
    ensures Compose(Identity(dk, dv), f, dk, dv) == f
  {
    var id := Identity(dk, dv);
    forall i | 0 <= i < dk
      ensures Product(id.a, f.a, dk)[i] == f.a[i] && Sum(Product(id.a, f.b, dv), id.b, dv)[i] == f.b[i] {
      CombineOfUnit(f.a, i, dk);
      CombineOfUnit(f.b, i, dv);
    }
  }

  lemma IdentityApplies(s: Matrix, dk: nat, dv: nat)
    requires Shape(s, dk, dv)
    ensures Apply(Identity(dk, dv), s, dk, dv) == s
  {
    forall i | 0 <= i < dk ensures Apply(Identity(dk, dv), s, dk, dv)[i] == s[i] {
      CombineOfUnit(s, i, dv);
    }
  }

  // ---- chunks ----------------------------------------------------------------

  /** Any chunk of tokens acts on whatever state it is entered with as one affine map. */
  lemma {:induction false} ChunkActsAffinely(ts: seq<Token>, s: Matrix, dk: nat, dv: nat)
    requires AllFit(ts, dk, dv) && Shape(s, dk, dv)
    ensures Run(ts, s, dk, dv) == Apply(ChunkMap(ts, dk, dv), s, dk, dv)
  {
    hide Step, Apply, Compose, Identity, StepMap;
    if ts == [] {
      IdentityApplies(s, dk, dv);
    } else {
      var rest, t := ts[..|ts| - 1], ts[|ts| - 1];
      ChunkActsAffinely(rest, s, dk, dv);
      StepIsAffine(t, Run(rest, s, dk, dv), dk, dv);
      ComposeApplies(StepMap(t, dk, dv), ChunkMap(rest, dk, dv), s, dk, dv);
    }
  }

  /** The maps of two consecutive chunks compose to the map of both. */
  lemma {:induction false} ChunkMapsCompose(xs: seq<Token>, ys: seq<Token>, dk: nat, dv: nat)
    requires AllFit(xs, dk, dv) && AllFit(ys, dk, dv)
    ensures ChunkMap(xs + ys, dk, dv) == Compose(ChunkMap(ys, dk, dv), ChunkMap(xs, dk, dv), dk, dv)
  {
    hide Compose, Identity, StepMap;
    if ys == [] {
      assert xs + ys == xs;
      ComposeWithIdentity(ChunkMap(xs, dk, dv), dk, dv);
    } else {
      var rest, t := ys[..|ys| - 1], ys[|ys| - 1];
      assert (xs + ys)[..|xs + ys| - 1] == xs + rest;
      ChunkMapsCompose(xs, rest, dk, dv);
      ComposeIsAssociative(StepMap(t, dk, dv), ChunkMap(rest, dk, dv), ChunkMap(xs, dk, dv), dk, dv);
    }
  }

  function Flatten(chunks: seq<seq<Token>>): seq<Token> {
    if chunks == [] then [] else Flatten(chunks[..|chunks| - 1]) + chunks[|chunks| - 1]
  }

  ghost predicate ChunksFit(chunks: seq<seq<Token>>, dk: nat, dv: nat) {
    forall i | 0 <= i < |chunks| :: AllFit(chunks[i], dk, dv)
  }

  lemma {:induction false} FlattenFits(chunks: seq<seq<Token>>, dk: nat, dv: nat)
    requires ChunksFit(chunks, dk, dv)
    ensures AllFit(Flatten(chunks), dk, dv)
  {
    if chunks != [] {
      FlattenFits(chunks[..|chunks| - 1], dk, dv);
    }
  }

  /** The outputs of the token loop. */
  function LoopOutputs(ts: seq<Token>, n: nat, s: Matrix, dk: nat, dv: nat): (r: seq<Vec>)
    requires AllFit(ts, dk, dv) && Shape(s, dk, dv) && n <= |ts|
    ensures |r| == n && forall i | 0 <= i < n :: r[i] == Output(ts, i, s, dk, dv)
  {
    if n == 0 then [] else LoopOutputs(ts, n - 1, s, dk, dv) + [Output(ts, n - 1, s, dk, dv)]
  }

  /** A chunk's outputs without a token loop: each from the state on entry and one map. */
  function MapOutputs(ts: seq<Token>, n: nat, s: Matrix, dk: nat, dv: nat): (r: seq<Vec>)
    requires AllFit(ts, dk, dv) && Shape(s, dk, dv) && n <= |ts|
    ensures |r| == n
  {
    if n == 0 then []
    else
      MapOutputs(ts, n - 1, s, dk, dv) +
      [Combine(ts[n - 1].q, Apply(ChunkMap(ts[..n], dk, dv), s, dk, dv), dv)]
  }

  datatype Result = Result(out: seq<Vec>, state: Matrix)

  /** Chunk by chunk: the maps of a chunk are built without knowing the state that enters it. */
  function Chunked(chunks: seq<seq<Token>>, s: Matrix, dk: nat, dv: nat): (r: Result)
    requires ChunksFit(chunks, dk, dv) && Shape(s, dk, dv)
    ensures Shape(r.state, dk, dv)
  {
    if chunks == [] then Result([], s)
    else
      var before := Chunked(chunks[..|chunks| - 1], s, dk, dv);
      var last := chunks[|chunks| - 1];
      Result(before.out + MapOutputs(last, |last|, before.state, dk, dv),
             Apply(ChunkMap(last, dk, dv), before.state, dk, dv))
  }

  lemma {:induction false} MapOutputsAreLoopOutputs(ts: seq<Token>, n: nat, s: Matrix, dk: nat, dv: nat)
    requires AllFit(ts, dk, dv) && Shape(s, dk, dv) && n <= |ts|
    ensures MapOutputs(ts, n, s, dk, dv) == LoopOutputs(ts, n, s, dk, dv)
  {
    hide Apply, Run, ChunkMap;
    if n > 0 {
      MapOutputsAreLoopOutputs(ts, n - 1, s, dk, dv);
      ChunkActsAffinely(ts[..n], s, dk, dv);
    }
  }

  lemma {:induction false} RunOfBoth(xs: seq<Token>, ys: seq<Token>, s: Matrix, dk: nat, dv: nat)
    requires AllFit(xs, dk, dv) && AllFit(ys, dk, dv) && Shape(s, dk, dv)
    ensures Run(xs + ys, s, dk, dv) == Run(ys, Run(xs, s, dk, dv), dk, dv)
  {
    hide Step;
    if ys == [] {
      assert xs + ys == xs;
    } else {
      assert (xs + ys)[..|xs + ys| - 1] == xs + ys[..|ys| - 1];
      RunOfBoth(xs, ys[..|ys| - 1], s, dk, dv);
    }
  }

  lemma LoopOutputsOfBoth(xs: seq<Token>, ys: seq<Token>, s: Matrix, dk: nat, dv: nat)
    requires AllFit(xs, dk, dv) && AllFit(ys, dk, dv) && Shape(s, dk, dv)
    ensures LoopOutputs(xs + ys, |xs + ys|, s, dk, dv) ==
            LoopOutputs(xs, |xs|, s, dk, dv) + LoopOutputs(ys, |ys|, Run(xs, s, dk, dv), dk, dv)
  {
    hide LoopOutputs, Run;
    forall i | 0 <= i < |xs| + |ys|
      ensures i < |xs| ==> Output(xs + ys, i, s, dk, dv) == Output(xs, i, s, dk, dv)
      ensures i >= |xs| ==> Output(xs + ys, i, s, dk, dv) == Output(ys, i - |xs|, Run(xs, s, dk, dv), dk, dv)
    {
      if i < |xs| {
        assert (xs + ys)[..i + 1] == xs[..i + 1];
      } else {
        assert (xs + ys)[..i + 1] == xs + ys[..i - |xs| + 1];
        RunOfBoth(xs, ys[..i - |xs| + 1], s, dk, dv);
      }
    }
  }

  lemma RunOfNone(s: Matrix, dk: nat, dv: nat)
    requires Shape(s, dk, dv)
    ensures Run([], s, dk, dv) == s
  {
  }

  /** Every chunking gives the outputs and the final state of the token loop. */
  lemma {:induction false} EveryChunkingAgrees(chunks: seq<seq<Token>>, s: Matrix, dk: nat, dv: nat)
    requires ChunksFit(chunks, dk, dv) && Shape(s, dk, dv) && AllFit(Flatten(chunks), dk, dv)
    ensures var ts := Flatten(chunks);
            Chunked(chunks, s, dk, dv) == Result(LoopOutputs(ts, |ts|, s, dk, dv), Run(ts, s, dk, dv))
  {
    hide LoopOutputs, MapOutputs, Run, ChunkMap, Apply;
    if chunks == [] {
      assert LoopOutputs([], 0, s, dk, dv) == [];
      assert Run([], s, dk, dv) == s by { RunOfNone(s, dk, dv); }
    } else {
      var front, last := chunks[..|chunks| - 1], chunks[|chunks| - 1];
      FlattenFits(front, dk, dv);
      EveryChunkingAgrees(front, s, dk, dv);
      var mid := Run(Flatten(front), s, dk, dv);
      MapOutputsAreLoopOutputs(last, |last|, mid, dk, dv);
      ChunkActsAffinely(last, mid, dk, dv);
      RunOfBoth(Flatten(front), last, s, dk, dv);
      LoopOutputsOfBoth(Flatten(front), last, s, dk, dv);
    }
  }

  // ---- two runs never move apart ---------------------------------------------

  ghost predicate Contractive(t: Token) {
    Norm2(t.k) <= 1.0 && 0.0 <= t.beta <= 1.0 && 0.0 < t.decay <= 1.0
  }

  function DistanceSquared(a: Matrix, b: Matrix, dv: nat): real
    requires Shape(a, |a|, dv) && Shape(b, |a|, dv)
  {
    FrobeniusSquared(Difference(a, b, dv))
  }

  /** The rows of `d`, each less `c[i]` times `m`. */
  function MinusOuter(d: Matrix, c: Vec, m: Vec): (r: Matrix)
    requires Shape(d, |c|, |m|)
    ensures Shape(r, |c|, |m|) && forall i | 0 <= i < |c| :: r[i] == Plus(d[i], Scale(-c[i], m))
  {
    seq(|c|, i requires 0 <= i < |c| => Plus(d[i], Scale(-c[i], m)))
  }

  lemma SquareOfPlus(a: Vec, b: Vec)
    requires |a| == |b|
    ensures Norm2(Plus(a, b)) == Norm2(a) + 2.0 * Dot(a, b) + Norm2(b)
  {
    var s := Plus(a, b);
    DotOfPlus(a, b, s);
    DotIsSymmetric(a, s);
    DotIsSymmetric(b, s);
    DotOfPlus(a, b, a);
    DotOfPlus(a, b, b);
    DotIsSymmetric(a, b);
  }

  lemma SquareOfMinusMultiple(a: Vec, c: real, m: Vec, cd: real, cc: real)
    requires |a| == |m| && cd == c * Dot(a, m) && cc == c * c
    ensures Norm2(Plus(a, Scale(-c, m))) == Remainder(Norm2(a), cd, cc, Norm2(m))
  {
    hide Dot, Plus, Scale;
    SquareOfPlus(a, Scale(-c, m));
    DotIsSymmetric(a, Scale(-c, m));
    DotOfScale(-c, m, a);
    DotIsSymmetric(a, m);
    Norm2OfScale(-c, m);
    Congruent(Norm2(m), cc, (-c) * (-c));
  }

  lemma LastRowOfMinusOuter(d: Matrix, c: Vec, m: Vec, w: nat, n: nat)
    requires w == |m| && |c| == n + 1 && Shape(d, |c|, w)
    ensures Shape(d[..n], n, w)
    ensures FrobeniusSquared(MinusOuter(d, c, m)) ==
            FrobeniusSquared(MinusOuter(d[..n], c[..n], m)) + Norm2(Plus(d[n], Scale(-c[n], m)))
  {
    assert MinusOuter(d, c, m)[..n] == MinusOuter(d[..n], c[..n], m);
  }

  lemma LastTermOfCombine(d: Matrix, c: Vec, m: Vec, w: nat, n: nat)
    requires w == |m| && |c| == n + 1 && Shape(d, |c|, w)
    ensures Shape(d[..n], n, w)
    ensures Dot(Combine(c, d, w), m) == Dot(Combine(c[..n], d[..n], w), m) + c[n] * Dot(d[n], m)
  {
    hide Combine, Dot, Plus, Scale;
    UnfoldCombine(c, d, w, n);
    DotOfPlusScale(Combine(c[..n], d[..n], w), c[n], d[n], m);
  }

  lemma LastSquares(d: Matrix, c: Vec, n: nat)
    requires |c| == |d| == n + 1
    ensures Norm2(c) == Norm2(c[..n]) + c[n] * c[n]
    ensures FrobeniusSquared(d) == FrobeniusSquared(d[..n]) + Norm2(d[n])
  {
  }

  /** What `MinusOuter` leaves of a squared norm. */
  function Remainder(frobenius: real, dot: real, weight: real, m: real): real {
    frobenius - 2.0 * dot + weight * m
  }

  lemma NothingToTake(d: Matrix, c: Vec, m: Vec, w: nat)
    requires w == |m| && c == [] && d == []
    ensures FrobeniusSquared(MinusOuter(d, c, m)) ==
            Remainder(FrobeniusSquared(d), Dot(Combine(c, d, w), m), Norm2(c), Norm2(m))
  {
    DotOfZeros(m);
    assert MinusOuter(d, c, m) == [] && Norm2(c) == 0.0 && Dot(Combine(c, d, w), m) == 0.0;
    hide Dot, Norm2;
  }

  /** Taking `m` away from every row, weighted by `c`: what it does to the squared norm. */
  lemma {:induction false} FrobeniusOfMinusOuter(d: Matrix, c: Vec, m: Vec, w: nat)
    requires w == |m| && Shape(d, |c|, w)
    ensures FrobeniusSquared(MinusOuter(d, c, m)) ==
            Remainder(FrobeniusSquared(d), Dot(Combine(c, d, w), m), Norm2(c), Norm2(m))
  {
    hide Plus, Scale, Combine, MinusOuter, Norm2, Dot, FrobeniusSquared, Remainder;
    if c == [] {
      NothingToTake(d, c, m, w);
    } else {
      var n := |c| - 1;
      FrobeniusOfMinusOuter(d[..n], c[..n], m, w);
      var cd, cc := c[n] * Dot(d[n], m), c[n] * c[n];
      SquareOfMinusMultiple(d[n], c[n], m, cd, cc);
      LastRowOfMinusOuter(d, c, m, w, n);
      LastTermOfCombine(d, c, m, w, n);
      LastSquares(d, c, n);
      OuterSum(FrobeniusSquared(d[..n]), Dot(Combine(c[..n], d[..n], w), m), Norm2(c[..n]), Norm2(m), Norm2(d[n]),
               cd, cc, FrobeniusSquared(d), Dot(Combine(c, d, w), m), Norm2(c));
    }
  }

  lemma OuterSum(frob: real, dot: real, norm: real, m: real, row: real, cd: real, cc: real, frobs: real, dots: real,
                 norms: real)
    requires frobs == frob + row && dots == dot + cd && norms == norm + cc
    ensures Remainder(frob, dot, norm, m) + Remainder(row, cd, cc, m) == Remainder(frobs, dots, norms, m)
  {
    Distribute(m, norm, cc, norms);
  }

  lemma {:induction false} DotOfZeros(m: Vec)
    ensures Dot(Zeros(|m|), m) == 0.0
  {
    if m != [] {
      DotOfZeros(m[..|m| - 1]);
      assert Zeros(|m|)[..|m| - 1] == Zeros(|m| - 1);
    }
  }

  lemma {:induction false} FrobeniusOfScaled(s: real, d: Matrix)
    ensures FrobeniusSquared(Scaled(s, d)) == (s * s) * FrobeniusSquared(d)
  {
    hide Norm2, Scale;
    if d != [] {
      var n := |d| - 1;
      FrobeniusOfScaled(s, d[..n]);
      assert Scaled(s, d)[..n] == Scaled(s, d[..n]);
      Norm2OfScale(s, d[n]);
      Distribute(s * s, FrobeniusSquared(d[..n]), Norm2(d[n]), FrobeniusSquared(d));
    }
  }

  /** The difference of two states after a token: the token's value cancels. */
  lemma DifferenceAfterStep(t: Token, a: Matrix, b: Matrix, dk: nat, dv: nat)
    requires Fits(t, dk, dv) && Shape(a, dk, dv) && Shape(b, dk, dv)
    ensures var d := Difference(a, b, dv);
            Difference(Step(t, a, dv), Step(t, b, dv), dv) ==
            Scaled(t.decay, MinusOuter(d, Scale(t.beta, t.k), Combine(t.k, d, dv)))
  {
    hide Step, Combine, KeepRow, WriteRow;
    var d := Difference(a, b, dv);
    var c := Scale(t.beta, t.k);
    var r := Scaled(t.decay, MinusOuter(d, c, Combine(t.k, d, dv)));
    forall i | 0 <= i < dk
      ensures Minus(Step(t, a, dv)[i], Step(t, b, dv)[i]) == r[i]
    {
      StepRow(t, a, dk, dv, i);
      StepRow(t, b, dk, dv, i);
      CombineOfDifference(KeepRow(t, dk, i), a, b, dv);
      KeepRowApplied(t, d, dk, dv, i);
      assert c[i] == Gain(t, i);
    }
  }

  lemma {:induction false} CombineOfDifference(c: Vec, a: Matrix, b: Matrix, w: nat)
    requires Shape(a, |c|, w) && Shape(b, |c|, w)
    ensures Combine(c, Difference(a, b, w), w) == Minus(Combine(c, a, w), Combine(c, b, w))
  {
    if c != [] {
      var n := |c| - 1;
      CombineOfDifference(c[..n], a[..n], b[..n], w);
      assert Difference(a, b, w)[..n] == Difference(a[..n], b[..n], w);
      ScaleOfMinus(c[n], a[n], b[n]);
    }
  }

  lemma ScaleOfMinus(c: real, a: Vec, b: Vec)
    requires |a| == |b|
    ensures Scale(c, Minus(a, b)) == Minus(Scale(c, a), Scale(c, b))
  {
    forall j | 0 <= j < |a| ensures Scale(c, Minus(a, b))[j] == c * a[j] - c * b[j] {
      Distribute(c, a[j], b[j], Minus(a, b)[j]);
    }
  }

  lemma TimesAtMostOne(c: real, x: real, p: real)
    requires c >= 0.0 && x <= 1.0 && p == c * x
    ensures p <= c
  {
    TimesIsMonotone(c, x, 1.0);
  }

  lemma SquareIsSmaller(x: real, x2: real)
    requires 0.0 <= x <= 1.0 && x2 == x * x
    ensures 0.0 <= x2 <= x
  {
    TimesIsMonotone(x, 0.0, x);
    TimesAtMostOne(x, x, x2);
  }

  lemma ContractionArithmetic(d: real, m: real, k: real, beta: real, decay: real, beta2: real, decay2: real,
                              bk: real, bm: real, bkm: real, mid: real, after: real)
    requires m >= 0.0 && k <= 1.0 && 0.0 <= beta <= 1.0 && 0.0 < decay <= 1.0
    requires beta2 == beta * beta && decay2 == decay * decay && bk == beta2 * k && bm == beta * m && bkm == bk * m
    requires mid == d - 2.0 * bm + bkm && mid >= 0.0 && after == mid * decay2
    ensures after <= d
  {
    SquareIsSmaller(beta, beta2);
    SquareIsSmaller(decay, decay2);
    TimesAtMostOne(beta2, k, bk);
    TimesIsMonotone(m, bk, beta);
    TimesIsMonotone(m, 0.0, beta);
    TimesAtMostOne(mid, decay2, after);
  }

  lemma StepDoesNotExpand(t: Token, a: Matrix, b: Matrix, dk: nat, dv: nat)
    requires Fits(t, dk, dv) && Shape(a, dk, dv) && Shape(b, dk, dv) && Contractive(t)
    ensures DistanceSquared(Step(t, a, dv), Step(t, b, dv), dv) <= DistanceSquared(a, b, dv)
  {
    hide Combine, MinusOuter, FrobeniusSquared, Step, Scale, Dot, Scaled, Difference;
    var d := Difference(a, b, dv);
    var m := Combine(t.k, d, dv);
    var bk := Scale(t.beta, t.k);
    var mid := MinusOuter(d, bk, m);
    DifferenceAfterStep(t, a, b, dk, dv);
    FrobeniusOfScaled(t.decay, mid);
    FrobeniusOfMinusOuter(d, bk, m, dv);
    CombineOfScale(t.beta, t.k, d, dv);
    DotOfScale(t.beta, m, m);
    Norm2OfScale(t.beta, t.k);
    FrobeniusIsNonNegative(d);
    FrobeniusIsNonNegative(mid);
    Norm2IsNonNegative(m);
    Norm2IsNonNegative(t.k);
    hide Norm2;
    ContractionArithmetic(FrobeniusSquared(d), Norm2(m), Norm2(t.k), t.beta, t.decay, t.beta * t.beta,
                          t.decay * t.decay, Norm2(bk), t.beta * Norm2(m), Norm2(bk) * Norm2(m),
                          FrobeniusSquared(mid), FrobeniusSquared(Scaled(t.decay, mid)));
  }

  /** Two runs over the same tokens from different states never move apart. */
  lemma {:induction false} RunsNeverMoveApart(ts: seq<Token>, a: Matrix, b: Matrix, dk: nat, dv: nat)
    requires AllFit(ts, dk, dv) && Shape(a, dk, dv) && Shape(b, dk, dv)
    requires forall i | 0 <= i < |ts| :: Contractive(ts[i])
    ensures DistanceSquared(Run(ts, a, dk, dv), Run(ts, b, dk, dv), dv) <= DistanceSquared(a, b, dv)
  {
    hide DistanceSquared, Step, Contractive;
    if ts != [] {
      var rest, t := ts[..|ts| - 1], ts[|ts| - 1];
      RunsNeverMoveApart(rest, a, b, dk, dv);
      StepDoesNotExpand(t, Run(rest, a, dk, dv), Run(rest, b, dk, dv), dk, dv);
    }
  }

  lemma {:induction false} ZeroNormIsZero(c: Vec)
    requires Norm2(c) == 0.0
    ensures c == Zeros(|c|)
  {
    if c != [] {
      var n := |c| - 1;
      Norm2IsNonNegative(c[..n]);
      SquareIsZero(c[n], Norm2(c[..n]), c[n] * c[n]);
      ZeroNormIsZero(c[..n]);
      assert c == c[..n] + [c[n]];
    }
  }

  lemma SquareIsZero(x: real, rest: real, square: real)
    requires rest >= 0.0 && square == x * x && rest + square == 0.0
    ensures x == 0.0 && rest == 0.0
  {
    NonZeroSquare(x, square);
  }

  lemma NonZeroSquare(x: real, square: real)
    requires square == x * x
    ensures x != 0.0 ==> square > 0.0
    ensures square >= 0.0
  {
    if x > 0.0 {
      PositiveAs(x, x, square);
    } else if x < 0.0 {
      NegativeTimes(x, x, square);
    }
  }

  lemma NegativeTimes(x: real, y: real, product: real)
    requires x < 0.0 && y < 0.0 && product == x * y
    ensures product > 0.0
  {
  }

  lemma ZeroWeights(c: Vec, d: Matrix, w: nat)
    requires Shape(d, |c|, w) && Norm2(c) == 0.0
    ensures Norm2(Combine(c, d, w)) == 0.0
  {
    ZeroNormIsZero(c);
    CombineOfZeros(d, w);
    DotOfZeros(Zeros(w));
  }

  /** What a combination of rows can come to: the squared norm of the weights times that of the matrix. */
  lemma CombineIsBounded(c: Vec, d: Matrix, w: nat)
    requires Shape(d, |c|, w)
    ensures Norm2(Combine(c, d, w)) <= Norm2(c) * FrobeniusSquared(d)
  {
    hide Combine, Norm2, Dot, FrobeniusSquared;
    Norm2IsNonNegative(c);
    if Norm2(c) == 0.0 {
      ZeroWeights(c, d, w);
    } else {
      BoundByWeights(c, d, w, Norm2(c));
    }
  }

  lemma BoundByWeights(c: Vec, d: Matrix, w: nat, norm: real)
    requires Shape(d, |c|, w) && norm == Norm2(c) && norm > 0.0
    ensures Norm2(Combine(c, d, w)) <= norm * FrobeniusSquared(d)
  {
    hide Combine, Norm2, Dot, FrobeniusSquared, MinusOuter, Scale, Remainder;
    var m, l := Combine(c, d, w), 1.0 / norm;
    var weights := Scale(l, c);
    FrobeniusOfMinusOuter(d, weights, m, w);
    FrobeniusIsNonNegative(MinusOuter(d, weights, m));
    CombineOfScale(l, c, d, w);
    DotOfScale(l, m, m);
    Norm2OfScale(l, c);
    NormIsDot(m);
    BoundFromRemainder(FrobeniusSquared(d), Norm2(m), norm, l, Dot(Combine(weights, d, w), m), Norm2(weights));
  }

  lemma NormIsDot(m: Vec)
    ensures Norm2(m) == Dot(m, m)
  {
  }

  lemma BoundFromRemainder(f: real, m: real, c: real, l: real, lm: real, lc: real)
    requires c > 0.0 && l * c == 1.0 && lm == l * m && lc == (l * l) * c && Remainder(f, lm, lc, m) >= 0.0
    ensures m <= c * f
  {
    assert lc == l by {
      assert (l * l) * c == l * (l * c);
    }
    assert lc * m == lm;
    assert f >= lm;
    TimesIsMonotone(c, lm, f);
    assert c * lm == (l * c) * m;
  }

  /** The outputs of two runs from different states stay as close as the states, scaled by the query. */
  lemma OutputsStayClose(ts: seq<Token>, i: nat, a: Matrix, b: Matrix, dk: nat, dv: nat)
    requires AllFit(ts, dk, dv) && Shape(a, dk, dv) && Shape(b, dk, dv) && i < |ts|
    requires forall j | 0 <= j < |ts| :: Contractive(ts[j])
    ensures Norm2(Minus(Output(ts, i, a, dk, dv), Output(ts, i, b, dk, dv))) <=
            Norm2(ts[i].q) * DistanceSquared(a, b, dv)
  {
    hide Run, Combine, Norm2, Contractive, FrobeniusSquared;
    var x, y := Run(ts[..i + 1], a, dk, dv), Run(ts[..i + 1], b, dk, dv);
    RunsNeverMoveApart(ts[..i + 1], a, b, dk, dv);
    CombineOfDifference(ts[i].q, x, y, dv);
    CombineIsBounded(ts[i].q, Difference(x, y, dv), dv);
    Norm2IsNonNegative(ts[i].q);
    TimesIsMonotone(Norm2(ts[i].q), DistanceSquared(x, y, dv), DistanceSquared(a, b, dv));
  }
}
