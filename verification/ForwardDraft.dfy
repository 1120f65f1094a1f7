/** The forward pass the reading was made for, a draft head that joins a normalized embedding and a
    normalized hidden state, and what is read of it (tools/capture_qwen35_mtp.py). */
module ForwardDraft {
  import opened Options
  import opened ForwardReading
  import opened ForwardRuns

  /** A list is described element by element, in order. */
  lemma {:induction false} DescribedInOrder(es: seq<Expr>, env: Env, i: nat)
    requires (forall x | x in es :: Readable(x)) && i < |es|
    ensures Readable(es[i]) && DescribeAll(es, env)[i] == Describe(es[i], env)
    decreases |es|
  {
    hide Describe, Readable;
    if i < |es| - 1 {
      DescribedInOrder(es[..|es| - 1], env, i);
    }
  }

  /** The targets of a tuple assignment are the items of its value, counted from zero. */
  lemma {:induction false} ItemsInOrder(elts: seq<Element>, term: Term, env: Env, i: nat)
    requires i < |elts| && elts[i].Named?
    requires forall j | i < j < |elts| :: elts[j].Named? ==> elts[j].id != elts[i].id
    ensures Get(BindItems(elts, term, env), elts[i].id) == Item(term, i)
    decreases |elts|
  {
    if i < |elts| - 1 {
      ItemsInOrder(elts[..|elts| - 1], term, env, i);
    }
  }

  /** `module.fn(a)` */
  function CallOn(module_: string, fn: string, args: seq<Expr>): Expr {
    Call(Attribute(Name(module_), fn), args, [])
  }

  lemma CallReads(module_: string, fn: string, args: seq<Expr>, terms: seq<Term>, env: Env)
    requires fn != "cat" && |terms| == |args|
    requires forall i | 0 <= i < |args| :: args[i].Name? && terms[i] == Get(env, args[i].id)
    ensures Readable(CallOn(module_, fn, args))
    ensures Describe(CallOn(module_, fn, args), env) == Apply(Field(fn), terms)
  {
    forall i | 0 <= i < |args| ensures DescribeAll(args, env)[i] == terms[i] {
      DescribedInOrder(args, env, i);
    }
  }

  /** `torch.cat([a, b], dim=-1)` */
  function CatOf(a: string, b: string): Expr {
    Call(Attribute(Name("torch"), "cat"), [List([Name(a), Name(b)])], [Keyword("dim", Negated(Constant("1")))])
  }

  lemma CatReads(a: string, b: string, env: Env)
    ensures Readable(CatOf(a, b))
    ensures Describe(CatOf(a, b), env) == Cat([Get(env, a), Get(env, b)], Some(Minus(Literal("1"))))
  {
    var e, elts, kws := CatOf(a, b), [Name(a), Name(b)], [Keyword("dim", Negated(Constant("1")))];
    assert e.args[0] == List(elts) && Readable(List(elts)) && Readable(kws[0].value);
    DescribedInOrder(elts, env, 0);
    DescribedInOrder(elts, env, 1);
    assert DescribeAll(elts, env) == [Get(env, a), Get(env, b)];
    assert DescribeDim(kws, env) == Some(Describe(Negated(Constant("1")), env));
  }

  /** `id = value` */
  function Set(id: string, value: Expr): Stmt {
    Assign([NameTarget(id)], value)
  }

  lemma OneMore(body: seq<Stmt>, st: Stmt, r: Reading)
    requires AllReadable(body) && StmtReadable(st)
    ensures AllReadable(body + [st]) && Walk(body + [st], r) == WalkOne(st, Walk(body, r))
  {
    hide WalkOne;
    assert (body + [st])[..|body|] == body;
  }

  lemma OneTarget(target: Target, term: Term, env: Env)
    ensures Bind([target], term, env) == BindOne(target, term, env)
  {
    var targets := [target];
    assert targets[..0] == [] && Bind(targets[..0], term, env) == env;
    assert targets[|targets| - 1] == target;
  }

  lemma SetReads(id: string, value: Expr, term: Term, r: Reading)
    requires Readable(value) && Describe(value, r.env) == term
    ensures StmtReadable(Set(id, value)) && WalkOne(Set(id, value), r) == Reading(r.env[id := term], r.seen + [term])
  {
    OneTarget(NameTarget(id), term, r.env);
    hide Bind;
  }

  /** The head: normalize both inputs, join them with the embedding first, project, normalize with the
      residual, and return the first of the two results. */
  function Draft(emb: string, hid: string): seq<Stmt> {
    [Set(emb, CallOn("self", "pre_fc_norm_embedding", [Name(emb)]))]
    + [Set(hid, CallOn("self", "pre_fc_norm_hidden", [Name(hid)]))]
    + [Set(hid, CatOf(emb, hid))]
    + [Set(hid, CallOn("self", "fc", [Name(hid)]))]
    + [Assign([TupleTarget([Named(hid), Named("_")])], CallOn("self", "norm", [Name(hid), Name("residual")]))]
    + [Return(Some(Name(hid)))]
  }

  /** What the projection is fed: each norm with its own input, the embedding first, along the last
      dimension. */
  function Joined(emb: string, hid: string): Term {
    Cat([Apply(Field("pre_fc_norm_embedding"), [Free(emb)]), Apply(Field("pre_fc_norm_hidden"), [Free(hid)])],
        Some(Minus(Literal("1"))))
  }

  function Normed(emb: string, hid: string): Term {
    Apply(Field("norm"), [Apply(Field("fc"), [Joined(emb, hid)]), Free("residual")])
  }

  /** The reading lists the projection of the joined norms, although the name that held it is assigned
      again, and gives as the result the first item of the final norm. */
  lemma DraftIsRead(emb: string, hid: string)
    requires emb != hid && "residual" !in {emb, hid} && "_" !in {emb, hid, RETURN} && hid != RETURN
    ensures AllReadable(Draft(emb, hid))
    ensures var r := Walk(Draft(emb, hid), Reading(map[], []));
            && |r.seen| == 5 && r.seen[3] == Apply(Field("fc"), [Joined(emb, hid)])
            && Get(r.env, RETURN) == Get(r.env, hid) == Item(Normed(emb, hid), 0)
            && Get(r.env, "_") == Item(Normed(emb, hid), 1)
  {
    hide Walk, WalkOne, Describe, AllReadable, StmtReadable, CallOn, CatOf, Set, Readable;
    var r0 := Reading(map[], []);
    var b1 := [Set(emb, CallOn("self", "pre_fc_norm_embedding", [Name(emb)]))];
    var t1 := Apply(Field("pre_fc_norm_embedding"), [Free(emb)]);
    CallReads("self", "pre_fc_norm_embedding", [Name(emb)], [Free(emb)], r0.env);
    SetReads(emb, CallOn("self", "pre_fc_norm_embedding", [Name(emb)]), t1, r0);
    WalkSingle(b1[0], r0);
    var r1 := Reading(r0.env[emb := t1], r0.seen + [t1]);

    var t2, c2 := Apply(Field("pre_fc_norm_hidden"), [Free(hid)]), CallOn("self", "pre_fc_norm_hidden", [Name(hid)]);
    CallReads("self", "pre_fc_norm_hidden", [Name(hid)], [Free(hid)], r1.env);
    SetReads(hid, c2, t2, r1);
    OneMore(b1, Set(hid, c2), r0);
    var b2, r2 := b1 + [Set(hid, c2)], Reading(r1.env[hid := t2], r1.seen + [t2]);

    var t3 := Joined(emb, hid);
    CatReads(emb, hid, r2.env);
    SetReads(hid, CatOf(emb, hid), t3, r2);
    OneMore(b2, Set(hid, CatOf(emb, hid)), r0);
    var b3, r3 := b2 + [Set(hid, CatOf(emb, hid))], Reading(r2.env[hid := t3], r2.seen + [t3]);

    var t4, c4 := Apply(Field("fc"), [t3]), CallOn("self", "fc", [Name(hid)]);
    CallReads("self", "fc", [Name(hid)], [t3], r3.env);
    SetReads(hid, c4, t4, r3);
    OneMore(b3, Set(hid, c4), r0);
    var b4, r4 := b3 + [Set(hid, c4)], Reading(r3.env[hid := t4], r3.seen + [t4]);
    assert Walk(b4, r0) == r4;
    LastSteps(emb, hid, b4, r0, r4);
  }

  /** The norm and the return, after the projection. */
  lemma LastSteps(emb: string, hid: string, before: seq<Stmt>, r0: Reading, r4: Reading)
    requires AllReadable(before) && Walk(before, r0) == r4 && "_" !in {hid, RETURN} && hid != RETURN
    requires Get(r4.env, hid) == Apply(Field("fc"), [Joined(emb, hid)]) && Get(r4.env, "residual") == Free("residual")
    ensures var norm := CallOn("self", "norm", [Name(hid), Name("residual")]);
            var body := before + [Assign([TupleTarget([Named(hid), Named("_")])], norm)] + [Return(Some(Name(hid)))];
            AllReadable(body) &&
            var r := Walk(body, r0);
            && r.seen == r4.seen + [Normed(emb, hid)]
            && Get(r.env, RETURN) == Get(r.env, hid) == Item(Normed(emb, hid), 0)
            && Get(r.env, "_") == Item(Normed(emb, hid), 1)
  {
    hide Walk, AllReadable, CallOn, Readable, Bind, BindItems, Describe;
    var norm, elts := CallOn("self", "norm", [Name(hid), Name("residual")]), [Named(hid), Named("_")];
    var t5 := Normed(emb, hid);
    CallReads("self", "norm", [Name(hid), Name("residual")], [Get(r4.env, hid), Free("residual")], r4.env);
    var st := Assign([TupleTarget(elts)], norm);
    OneTarget(TupleTarget(elts), t5, r4.env);
    OneMore(before, st, r0);
    ItemsInOrder(elts, t5, r4.env, 0);
    ItemsInOrder(elts, t5, r4.env, 1);
    var r5 := Reading(BindItems(elts, t5, r4.env), r4.seen + [t5]);
    assert WalkOne(st, r4) == r5;
    ReturnReads(hid, r5);
    OneMore(before + [st], Return(Some(Name(hid))), r0);
  }

  lemma ReturnReads(id: string, r: Reading)
    ensures StmtReadable(Return(Some(Name(id))))
    ensures WalkOne(Return(Some(Name(id))), r) == r.(env := r.env[RETURN := Get(r.env, id)])
  {
  }
}
