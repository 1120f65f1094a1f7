/** When the reading of a forward pass is right, exactly: under operations that build a new value each,
    every descriptor that is not clean means something else than the name holds, and along a run a body
    is read right only where the run reads alike (tools/capture_qwen35_mtp.py). */
module ForwardExactness {
  import opened ForwardReading
  import opened ForwardMeaning
  import opened ForwardRuns
  import opened Options

  /** Values that record how they came about. */
  datatype Value =
    | Initial(id: string)
    | Const(repr: string)
    | Attr(of: Value, attr: string)
    | Called(fn: Value, args: seq<Value>, keywords: seq<(string, Value)>)
    | Joined(on: Value, parts: seq<Value>, dim: Option<Value>)
    | Negative(of: Value)
    | Indexed(of: Value, index: Value)
    | Tupled(elts: seq<Value>)
    | Listed(elts: seq<Value>)
    | ItemOf(of: Value, at: nat)
    | Computed(kind: string)
    | Altered(kind: string, id: string)
    | PartOf(of: Value)
    | KindOf(name: string)

  function Recording(): Semantics<Value> {
    Semantics((repr: string) => Const(repr), (v: Value, attr: string) => Attr(v, attr),
              (f: Value, args: seq<Value>, kws: seq<(string, Value)>) => Called(f, args, kws),
              (v: Value, parts: seq<Value>, dim: Option<Value>) => Joined(v, parts, dim),
              (v: Value) => Negative(v), (v: Value, i: Value) => Indexed(v, i),
              (elts: seq<Value>) => Tupled(elts), (elts: seq<Value>) => Listed(elts),
              (v: Value, at: nat) => ItemOf(v, at), (kind: string) => Computed(kind),
              (kind: string, id: string, vs: seq<Value>, look: string -> Value) => Altered(kind, id))
  }

  function Gaps(owner: string -> string): Legend<Value> {
    Legend(owner, (v: Value) => PartOf(v), (name: string) => KindOf(name))
  }

  function Initials(): string -> Value {
    (id: string) => Initial(id)
  }

  /** What a descriptor means when values record how they came about. */
  function Record(t: Term, owner: string -> string): Value {
    Denote(Recording(), Gaps(owner), t, Initials())
  }

  function RecordAll(ts: seq<Term>, owner: string -> string): seq<Value> {
    DenoteAll(Recording(), Gaps(owner), ts, Initials())
  }

  // ---- descriptors with one record are one descriptor ------------------------

  lemma {:induction false} RecordIsInjective(t: Term, u: Term, owner: string -> string)
    requires Record(t, owner) == Record(u, owner)
    ensures t == u
    decreases t, 1
  {
    match t
    case Free(_) =>
    case Field(_) =>
    case Literal(_) =>
    case Cat(parts, dim) =>
      RecordAllIsInjective(parts, u.parts, owner);
      if dim.Some? {
        RecordIsInjective(dim.value, u.dim.value, owner);
      }
    case Apply(fn, args) =>
      RecordIsInjective(fn, u.fn, owner);
      RecordAllIsInjective(args, u.args, owner);
    case Minus(x) => RecordIsInjective(x, u.operand, owner);
    case Part(x) => RecordIsInjective(x, u.of, owner);
    case Group(elts) => RecordAllIsInjective(elts, u.elts, owner);
    case Item(x, _) => RecordIsInjective(x, u.of, owner);
    case Kind(_) =>
  }

  lemma {:induction false} RecordAllIsInjective(ts: seq<Term>, us: seq<Term>, owner: string -> string)
    requires RecordAll(ts, owner) == RecordAll(us, owner)
    ensures ts == us
    decreases ts, 0
  {
    if ts != [] {
      var n := |ts| - 1;
      assert |us| == |ts|;
      var front, back := RecordAll(ts[..n], owner), RecordAll(us[..n], owner);
      assert RecordAll(ts, owner) == front + [Record(ts[n], owner)];
      assert RecordAll(us, owner) == back + [Record(us[n], owner)];
      assert front == RecordAll(ts, owner)[..n] == RecordAll(us, owner)[..n] == back;
      assert Record(ts[n], owner) == RecordAll(ts, owner)[n] == RecordAll(us, owner)[n] == Record(us[n], owner);
      RecordAllIsInjective(ts[..n], us[..n], owner);
      RecordIsInjective(ts[n], us[n], owner);
    }
  }

  // ---- unclean expressions are something else --------------------------------

  /** A stale name holds something else than its descriptor means, and no initial value. */
  ghost predicate Differ(env: Env, m: Machine<Value>, stale: set<string>, owner: string -> string) {
    forall id: string | id in stale :: Record(Get(env, id), owner) != Lookup(m, id) && !Lookup(m, id).Initial?
  }

  /** Names that are not stale are right, and stale ones are wrong. */
  ghost predicate Exact(env: Env, m: Machine<Value>, stale: set<string>, owner: string -> string) {
    && m.initial == Initials()
    && Agree(Recording(), Gaps(owner), env, m, stale)
    && Differ(env, m, stale, owner)
  }

  lemma OwnerDiffers(x: Expr, attr: string, env: Env, m: Machine<Value>, stale: set<string>, owner: string -> string)
    requires Exact(env, m, stale, owner) && !OnOwner(x, attr, env, stale, owner)
    ensures Eval(Recording(), x, m) != Initial(owner(attr))
  {
    if x.Name? && x.id !in stale {
      assert Record(Get(env, x.id), owner) == Lookup(m, x.id);
    }
  }

  /** Names, attributes, and what a descriptor names by its kind alone. */
  lemma LeafDiffers(e: Expr, env: Env, m: Machine<Value>, stale: set<string>, owner: string -> string)
    requires Readable(e) && Exact(env, m, stale, owner) && !Clean(e, env, stale, owner)
    requires !e.Negated? && !e.Tuple? && !e.Call?
    ensures Record(Describe(e, env), owner) != Eval(Recording(), e, m) && !Eval(Recording(), e, m).Initial?
  {
    if e.Attribute? {
      OwnerDiffers(e.value, e.attr, env, m, stale, owner);
    }
  }

  /** An expression that is not clean evaluates to something else than its descriptor means. */
  lemma {:induction false} UncleanDiffers(e: Expr, env: Env, m: Machine<Value>, stale: set<string>,
                                          owner: string -> string)
    requires Readable(e) && Exact(env, m, stale, owner) && !Clean(e, env, stale, owner)
    ensures Record(Describe(e, env), owner) != Eval(Recording(), e, m) && !Eval(Recording(), e, m).Initial?
    decreases e, 1
  {
    hide Exact;
    match e
    case Negated(x) => UncleanDiffers(x, env, m, stale, owner);
    case Tuple(elts) =>
      SomeDiffers(elts, env, m, stale, owner);
      assert Describe(e, env) == Group(DescribeAll(elts, env));
    case Call(_, _, _) => CallDiffers(e, env, m, stale, owner);
    case _ => LeafDiffers(e, env, m, stale, owner);
  }

  lemma {:induction false} CallDiffers(e: Expr, env: Env, m: Machine<Value>, stale: set<string>,
                                       owner: string -> string)
    requires e.Call? && Readable(e) && Exact(env, m, stale, owner) && !Clean(e, env, stale, owner)
    ensures Record(Describe(e, env), owner) != Eval(Recording(), e, m) && !Eval(Recording(), e, m).Initial?
    decreases e, 0
  {
    hide Exact;
    if IsCat(e.func) {
      CatDiffers(e, env, m, stale, owner);
    } else {
      assert Describe(e, env) == Apply(Describe(e.func, env), DescribeAll(e.args, env));
      assert |EvalKeywords(Recording(), e.keywords, m)| == |e.keywords|;
      if !Clean(e.func, env, stale, owner) {
        UncleanDiffers(e.func, env, m, stale, owner);
      } else if exists a :: a in e.args && !Clean(a, env, stale, owner) {
        SomeDiffers(e.args, env, m, stale, owner);
      }
    }
  }

  lemma {:induction false} CatDiffers(e: Expr, env: Env, m: Machine<Value>, stale: set<string>, owner: string -> string)
    requires e.Call? && IsCat(e.func) && Readable(e) && Exact(env, m, stale, owner) && !Clean(e, env, stale, owner)
    ensures Record(Describe(e, env), owner) != Eval(Recording(), e, m) && !Eval(Recording(), e, m).Initial?
    decreases e, 0, 0
  {
    hide Exact;
    assert Describe(e, env) == DescribeCat(e, env);
    if IsPlainCat(e) {
      CatUnfolds(e, env);
      assert Eval(Recording(), e, m) == EvalCat(Recording(), e, m);
      if !OnOwner(e.func.value, "cat", env, stale, owner) {
        OwnerDiffers(e.func.value, "cat", env, m, stale, owner);
      } else if exists x :: x in e.args[0].elts && !Clean(x, env, stale, owner) {
        SomeDiffers(e.args[0].elts, env, m, stale, owner);
      } else {
        UncleanDiffers(e.keywords[0].value, env, m, stale, owner);
      }
    }
  }

  lemma {:induction false} SomeDiffers(es: seq<Expr>, env: Env, m: Machine<Value>, stale: set<string>,
                                       owner: string -> string)
    requires forall x | x in es :: Readable(x)
    requires Exact(env, m, stale, owner) && exists x :: x in es && !Clean(x, env, stale, owner)
    ensures RecordAll(DescribeAll(es, env), owner) != EvalAll(Recording(), es, m)
    decreases es, 0
  {
    hide Exact, Clean;
    var n := |es| - 1;
    var front, last := DescribeAll(es[..n], env), Describe(es[n], env);
    assert DescribeAll(es, env) == front + [last];
    assert (front + [last])[..n] == front;
    assert RecordAll(front + [last], owner) == RecordAll(front, owner) + [Record(last, owner)];
    assert EvalAll(Recording(), es, m) == EvalAll(Recording(), es[..n], m) + [Eval(Recording(), es[n], m)];
    if !Clean(es[n], env, stale, owner) {
      UncleanDiffers(es[n], env, m, stale, owner);
      assert RecordAll(DescribeAll(es, env), owner)[n] != EvalAll(Recording(), es, m)[n];
    } else {
      SomeDiffers(es[..n], env, m, stale, owner);
      assert RecordAll(DescribeAll(es, env), owner)[..n] != EvalAll(Recording(), es, m)[..n];
    }
  }

  // ---- stale names hold something else ---------------------------------------

  lemma NothingMeansAnAlteration(t: Term, owner: string -> string)
    ensures !Record(t, owner).Altered?
  {
  }

  lemma TouchIsExact(u: Unread, vs: seq<Value>, env: Env, m: Machine<Value>, stale: set<string>,
                     owner: string -> string)
    requires Exact(env, m, stale, owner)
    ensures Exact(env, Touch(Recording(), u, vs, m), stale + u.names, owner)
  {
    hide Denote, Agree, Record;
    TouchAgrees(Recording(), Gaps(owner), u, vs, env, m, stale);
    var m2 := Touch(Recording(), u, vs, m);
    forall id: string | id in stale + u.names
      ensures Record(Get(env, id), owner) != Lookup(m2, id) && !Lookup(m2, id).Initial?
    {
      NothingMeansAnAlteration(Get(env, id), owner);
    }
  }

  lemma NameIsExact(id: string, t: Term, v: Value, clean: bool, env: Env, m: Machine<Value>, stale: set<string>,
                    owner: string -> string)
    requires Exact(env, m, stale, owner) && (clean ==> Record(t, owner) == v)
    requires !clean ==> Record(t, owner) != v && !v.Initial?
    ensures Exact(env[id := t], m.(locals := m.locals[id := v]), if clean then stale - {id} else stale + {id}, owner)
  {
    hide Denote, Agree;
    NameAgrees(Recording(), Gaps(owner), id, t, v, clean, env, m, stale);
    forall x: string | x in stale && x != id
      ensures var m2 := m.(locals := m.locals[id := v]);
              Record(Get(env[id := t], x), owner) != Lookup(m2, x) && !Lookup(m2, x).Initial?
    {
      assert Record(Get(env, x), owner) != Lookup(m, x);
    }
  }

  lemma StarredIsExact(id: string, t: Term, v: Value, env: Env, m: Machine<Value>, stale: set<string>,
                       owner: string -> string)
    requires Exact(env, m, stale, owner)
    ensures Exact(env[id := t], Touch(Recording(), Unread("Starred", {id}), [v], m), stale + {id}, owner)
  {
    hide Denote, Agree, Record;
    var u := Unread("Starred", {id});
    StarredAgrees(Recording(), Gaps(owner), id, t, v, env, m, stale);
    TouchIsExact(u, [v], env, m, stale, owner);
    var m2 := Touch(Recording(), u, [v], m);
    forall x: string | x in stale + {id}
      ensures Record(Get(env[id := t], x), owner) != Lookup(m2, x) && !Lookup(m2, x).Initial?
    {
      NothingMeansAnAlteration(Get(env[id := t], x), owner);
      assert x in stale + u.names;
    }
  }

  lemma {:induction false} ItemsAreExact(elts: seq<Element>, t: Term, v: Value, clean: bool, env: Env,
                                         m: Machine<Value>, stale: set<string>, owner: string -> string)
    requires Exact(env, m, stale, owner) && (clean <==> Record(t, owner) == v)
    ensures Exact(BindItems(elts, t, env), StoreItems(Recording(), elts, v, m), StaleItems(elts, clean, stale), owner)
  {
    hide Exact, Touch, HasStar;
    if elts != [] {
      var n := |elts| - 1;
      ItemsAreExact(elts[..n], t, v, clean, env, m, stale, owner);
      var env2, m2, stale2 := BindItems(elts[..n], t, env), StoreItems(Recording(), elts[..n], v, m),
          StaleItems(elts[..n], clean, stale);
      match elts[n] {
        case Named(id) =>
          if HasStar(elts[..n]) {
            StarredIsExact(id, Item(t, n), v, env2, m2, stale2, owner);
          } else {
            NameIsExact(id, Item(t, n), ItemOf(v, n), clean, env2, m2, stale2, owner);
          }
        case Starred(u) => TouchIsExact(u, [v], env2, m2, stale2, owner);
        case Unnamed(u) => TouchIsExact(u, [v], env2, m2, stale2, owner);
      }
    }
  }

  lemma {:induction false} TargetsAreExact(targets: seq<Target>, t: Term, v: Value, clean: bool, env: Env,
                                           m: Machine<Value>, stale: set<string>, owner: string -> string)
    requires Exact(env, m, stale, owner) && (clean <==> Record(t, owner) == v) && (!clean ==> !v.Initial?)
    ensures Exact(Bind(targets, t, env), Store(Recording(), targets, v, m), StaleTargets(targets, clean, stale), owner)
  {
    hide Exact, Record, Touch;
    if targets != [] {
      var n := |targets| - 1;
      TargetsAreExact(targets[..n], t, v, clean, env, m, stale, owner);
      var env2, m2, stale2 := Bind(targets[..n], t, env), Store(Recording(), targets[..n], v, m),
          StaleTargets(targets[..n], clean, stale);
      match targets[n] {
        case NameTarget(id) => NameIsExact(id, t, v, clean, env2, m2, stale2, owner);
        case TupleTarget(elts) => ItemsAreExact(elts, t, v, clean, env2, m2, stale2, owner);
        case OtherTarget(u) => TouchIsExact(u, [v], env2, m2, stale2, owner);
      }
    }
  }

  // ---- the whole walk --------------------------------------------------------

  /** A descriptor means the value exactly when the expression is clean. */
  lemma CleanExactly(e: Expr, env: Env, m: Machine<Value>, stale: set<string>, owner: string -> string)
    requires Readable(e) && Exact(env, m, stale, owner)
    ensures Clean(e, env, stale, owner) <==> Record(Describe(e, env), owner) == Eval(Recording(), e, m)
    ensures !Clean(e, env, stale, owner) ==> !Eval(Recording(), e, m).Initial?
  {
    hide Clean, Eval, Describe, Denote;
    if Clean(e, env, stale, owner) {
      DescribeMeans(Recording(), Gaps(owner), e, env, m, stale);
    } else {
      UncleanDiffers(e, env, m, stale, owner);
    }
  }

  /** At the same place, exactly the marked names and descriptors are wrong. */
  ghost predicate ExactStep(r: Reading, k: Marks, x: Run<Value>, owner: string -> string) {
    && Exact(r.env, x.m, k.stale, owner)
    && |r.seen| == |x.trace| == |k.clean|
    && forall i | 0 <= i < |k.clean| :: k.clean[i] <==> Record(r.seen[i], owner) == x.trace[i]
  }

  lemma {:induction false} FlatIsExact(u: seq<Stmt>, r: Reading, k: Marks, x: Run<Value>, owner: string -> string)
    requires Flat(u) && AllReadable(u) && ExactStep(r, k, x, owner)
    ensures ExactStep(Walk(u, r), Mark(u, r, k, owner), Exec(Recording(), u, x), owner)
  {
    hide ExactStep, WalkOne, MarkOne, ExecOne;
    if u != [] {
      var n := |u| - 1;
      assert u[n] in u && Simple(u[n]);
      FlatIsExact(u[..n], r, k, x, owner);
      SimpleIsExact(u[n], Walk(u[..n], r), Mark(u[..n], r, k, owner), Exec(Recording(), u[..n], x), owner);
    }
  }

  lemma SimpleIsExact(st: Stmt, r: Reading, k: Marks, x: Run<Value>, owner: string -> string)
    requires Simple(st) && StmtReadable(st) && ExactStep(r, k, x, owner)
    ensures ExactStep(WalkOne(st, r), MarkOne(st, r, k, owner), ExecOne(Recording(), st, x), owner)
  {
    hide Exact, Record, Touch, Eval, Describe, Bind, Store, StaleTargets, Clean;
    match st
    case Assign(targets, value) =>
      CleanExactly(value, r.env, x.m, k.stale, owner);
      TargetsAreExact(targets, Describe(value, r.env), Eval(Recording(), value, x.m),
                      Clean(value, r.env, k.stale, owner), r.env, x.m, k.stale, owner);
    case Passed(u) => TouchIsExact(u, [], r.env, x.m, k.stale, owner);
  }

  lemma StartsExact(owner: string -> string)
    ensures ExactStep(START, UNMARKED, Entry(Initials()), owner)
  {
  }

  /** Read in the order they are run, a name's descriptor means the value the name holds, and a listed
      descriptor the value assigned, under every meaning of the operations only if it is unmarked: when
      values record how they came about, every marked one is wrong. */
  lemma MarkedIsWrong(u: seq<Stmt>, owner: string -> string, id: string)
    requires AllReadable(u) && Flat(u)
    ensures var r, k := Walk(u, START), Mark(u, START, UNMARKED, owner);
            var x := Exec(Recording(), u, Entry(Initials()));
            && (Record(Get(r.env, id), owner) == Lookup(x.m, id) <==> id !in k.stale)
            && |r.seen| == |x.trace| == |k.clean|
            && forall i | 0 <= i < |k.clean| :: k.clean[i] <==> Record(r.seen[i], owner) == x.trace[i]
  {
    hide Walk, Exec, Mark, Record;
    StartsExact(owner);
    FlatIsExact(u, START, UNMARKED, Entry(Initials()), owner);
    var r, k := Walk(u, START), Mark(u, START, UNMARKED, owner);
    NamesAreExact(r.env, Exec(Recording(), u, Entry(Initials())).m, k.stale, owner, id);
  }

  lemma NamesAreExact(env: Env, m: Machine<Value>, stale: set<string>, owner: string -> string, id: string)
    requires Exact(env, m, stale, owner)
    ensures Record(Get(env, id), owner) == Lookup(m, id) <==> id !in stale
  {
    hide Denote;
  }

  /** A body and any run of it. Of a name that is unmarked along the run, the body's reading is right
      under every meaning of the operations exactly when the run reads it alike. */
  lemma RightExactlyWhereRunReadsAlike(body: seq<Stmt>, u: seq<Stmt>, owner: string -> string, id: string)
    requires AllReadable(body) && AllReadable(u) && Flat(u)
    requires id !in Mark(u, START, UNMARKED, owner).stale
    ensures Record(Get(Walk(body, START).env, id), owner) == Lookup(Exec(Recording(), u, Entry(Initials())).m, id) <==>
              Get(Walk(body, START).env, id) == Get(Walk(u, START).env, id)
  {
    hide Walk, Exec, Mark, Record;
    MarkedIsWrong(u, owner, id);
    var read, ran := Get(Walk(body, START).env, id), Get(Walk(u, START).env, id);
    if Record(read, owner) == Record(ran, owner) {
      RecordIsInjective(read, ran, owner);
    }
  }

  // ---- results ---------------------------------------------------------------

  lemma ResultExactly(u: seq<Stmt>, e: Option<Expr>, owner: string -> string)
    requires AllReadable(u) && Flat(u) && StmtReadable(Return(e))
    ensures CleanResult(e, Walk(u, START).env, Mark(u, START, UNMARKED, owner).stale, owner) <==>
              Record(DescribeResult(e, Walk(u, START).env), owner)
              == EvalResult(Recording(), e, Exec(Recording(), u, Entry(Initials())).m)
  {
    hide Walk, Exec, Mark, Clean, Eval, Describe, Exact;
    StartsExact(owner);
    FlatIsExact(u, START, UNMARKED, Entry(Initials()), owner);
    if e.Some? {
      CleanExactly(e.value, Walk(u, START).env, Exec(Recording(), u, Entry(Initials())).m,
                   Mark(u, START, UNMARKED, owner).stale, owner);
    }
  }

  /** What the walk keeps, against what a run that came by `u` and left by `return taken` gives back. If
      the two read alike, the kept descriptor is right exactly when what is returned is clean along the
      run; and if that is clean, it is right exactly when the two read alike. */
  lemma ReturnsAgreeExactly(front: seq<Stmt>, e: Option<Expr>, rest: seq<Stmt>, u: seq<Stmt>, taken: Option<Expr>,
                            owner: string -> string)
    requires AllReadable(front) && StmtReadable(Return(e)) && AllReadable(rest) && KeepsResult(rest)
    requires Flat(u) && AllReadable(u) && StmtReadable(Return(taken))
    ensures AllReadable(front + [Return(e)] + rest)
    ensures var kept := Get(Walk(front + [Return(e)] + rest, START).env, RETURN);
            var alike := DescribeResult(e, Walk(front, START).env) == DescribeResult(taken, Walk(u, START).env);
            var clean := CleanResult(taken, Walk(u, START).env, Mark(u, START, UNMARKED, owner).stale, owner);
            var right :=
              Record(kept, owner) == EvalResult(Recording(), taken, Exec(Recording(), u, Entry(Initials())).m);
            && (alike ==> (right <==> clean))
            && (clean ==> (right <==> alike))
  {
    hide Walk, Exec, Mark, CleanResult, EvalResult, DescribeResult, Denote;
    LastReturnIsKept(front, e, rest);
    ResultExactly(u, taken, owner);
    var first, last := DescribeResult(taken, Walk(u, START).env), DescribeResult(e, Walk(front, START).env);
    if Record(first, owner) == Record(last, owner) {
      RecordIsInjective(first, last, owner);
    }
  }

  // ---- readings that are wrong -----------------------------------------------

  /** `h = f(a)` and then `h += g(b)`: the walk still reads `f(a)`, and the name holds what the second
      statement made of it. */
  lemma AugmentedAssignmentIsLost(owner: string -> string)
    ensures var assign := Assign([NameTarget("h")], Call(Name("f"), [Name("a")], []));
            var body := [assign, Passed(Unread("AugAssign", {"h"}))];
            && AllReadable(body) && Flat(body)
            && Get(Walk(body, START).env, "h") == Apply(Free("f"), [Free("a")])
            && Lookup(Exec(Recording(), body, Entry(Initials())).m, "h") == Altered("AugAssign", "h")
  {
    var assign := Assign([NameTarget("h")], Call(Name("f"), [Name("a")], []));
    var passed := Passed(Unread("AugAssign", {"h"}));
    OneArgument(Name("f"), "a", map[], Entry(Initials()).m);
    assert Readable(assign.value) && StmtReadable(assign);
    NameAssigned("h", assign.value, START, UNMARKED, Entry(Initials()), owner);
    TwoStatements(assign, passed, START, Entry(Initials()));
  }

  lemma ReadsOneName(f: Expr, a: string)
    requires Readable(f)
    ensures Readable(Call(f, [Name(a)], []))
  {
    forall x | x in [Name(a)] ensures Readable(x) {
      assert x == Name(a);
    }
  }

  /** A call of one name, read and run. */
  lemma OneArgument(f: Expr, a: string, env: Env, m: Machine<Value>)
    requires Readable(f) && !IsCat(f)
    ensures Readable(Call(f, [Name(a)], []))
    ensures Describe(Call(f, [Name(a)], []), env) == Apply(Describe(f, env), [Get(env, a)])
    ensures Eval(Recording(), Call(f, [Name(a)], []), m) == Called(Eval(Recording(), f, m), [Lookup(m, a)], [])
  {
    var args := [Name(a)];
    ReadsOneName(f, a);
    assert args[..0] == [];
    assert DescribeAll(args, env) == DescribeAll(args[..0], env) + [Describe(Name(a), env)];
    EvalOneArgument(f, a, m);
  }

  lemma EvalOneArgument(f: Expr, a: string, m: Machine<Value>)
    ensures Eval(Recording(), Call(f, [Name(a)], []), m) == Called(Eval(Recording(), f, m), [Lookup(m, a)], [])
  {
    var args := [Name(a)];
    assert args[..0] == [];
    assert EvalAll(Recording(), args, m) == EvalAll(Recording(), args[..0], m) + [Eval(Recording(), Name(a), m)];
    assert EvalKeywords(Recording(), [], m) == [];
  }

  lemma RecordOneArgument(fn: Term, t: Term, owner: string -> string)
    ensures Record(Apply(fn, [t]), owner) == Called(Record(fn, owner), [Record(t, owner)], [])
  {
    var ts := [t];
    assert ts[..0] == [];
    assert RecordAll(ts, owner) == RecordAll(ts[..0], owner) + [Record(t, owner)];
  }

  /** `id = value`, read, marked and run. */
  lemma NameAssigned(id: string, value: Expr, r: Reading, k: Marks, x: Run<Value>, owner: string -> string)
    requires Readable(value)
    ensures WalkOne(Assign([NameTarget(id)], value), r).env == r.env[id := Describe(value, r.env)]
    ensures MarkOne(Assign([NameTarget(id)], value), r, k, owner).stale ==
            if Clean(value, r.env, k.stale, owner) then k.stale - {id} else k.stale + {id}
    ensures ExecOne(Recording(), Assign([NameTarget(id)], value), x).m.locals
         == x.m.locals[id := Eval(Recording(), value, x.m)]
    ensures ExecOne(Recording(), Assign([NameTarget(id)], value), x).m.initial == x.m.initial
  {
    hide Describe, Eval, Clean;
    var one := [NameTarget(id)];
    assert one[..0] == [];
    var t, v, clean := Describe(value, r.env), Eval(Recording(), value, x.m), Clean(value, r.env, k.stale, owner);
    assert Bind(one, t, r.env) == BindOne(one[0], t, Bind([], t, r.env));
    assert Store(Recording(), one, v, x.m) == StoreOne(Recording(), one[0], v, Store(Recording(), [], v, x.m));
    assert StaleTargets(one, clean, k.stale) == StaleOne(one[0], clean, StaleTargets([], clean, k.stale));
  }

  lemma TwoStatements(a: Stmt, b: Stmt, r: Reading, x: Run<Value>)
    requires StmtReadable(a) && StmtReadable(b) && Simple(a) && Simple(b)
    ensures AllReadable([a, b]) && Walk([a, b], r) == WalkOne(b, WalkOne(a, r))
    ensures Flat([a, b]) && Exec(Recording(), [a, b], x) == ExecOne(Recording(), b, ExecOne(Recording(), a, x))
  {
    hide WalkOne, ExecOne;
    WalkSingle(a, r);
    OneStatement(a, x);
    assert [a, b][..1] == [a];
  }

  lemma OneStatement(a: Stmt, x: Run<Value>)
    requires Simple(a)
    ensures Flat([a]) && Exec(Recording(), [a], x) == ExecOne(Recording(), a, x)
  {
    hide ExecOne;
    assert [a][..0] == [];
  }

  lemma MarkSingle(a: Stmt, r: Reading, k: Marks, owner: string -> string)
    requires StmtReadable(a)
    ensures AllReadable([a]) && Mark([a], r, k, owner) == MarkOne(a, r, k, owner)
  {
    hide MarkOne;
    assert [a][..0] == [];
  }

  lemma {:induction false} MarkOfBoth(x: seq<Stmt>, y: seq<Stmt>, r: Reading, k: Marks, owner: string -> string)
    requires AllReadable(x) && AllReadable(y)
    ensures AllReadable(x + y) && Mark(x + y, r, k, owner) == Mark(y, Walk(x, r), Mark(x, r, k, owner), owner)
  {
    hide MarkOne, WalkOne;
    if y == [] {
      assert x + y == x;
    } else {
      var front := y[..|y| - 1];
      assert (x + y)[..|x + y| - 1] == x + front;
      MarkOfBoth(x, front, r, k, owner);
      WalkOfBoth(x, front, r);
    }
  }

  /** A block whose body is one assignment to a name. */
  lemma OneAssignmentBlock(header: Unread, id: string, value: Expr, r: Reading, k: Marks, owner: string -> string)
    requires Readable(value)
    ensures var block := Block(header, [Assign([NameTarget(id)], value)], []);
            && StmtReadable(block) && WalkOne(block, r).env == r.env[id := Describe(value, r.env)]
            && id in MarkOne(block, r, k, owner).stale
  {
    hide Describe;
    var assign := Assign([NameTarget(id)], value);
    var block := Block(header, [assign], []);
    WalkSingle(assign, r);
    NameAssigned(id, value, r, k, Entry(Initials()), owner);
    assert NameTarget(id) in assign.targets && id in TargetNames(NameTarget(id));
    assert id in Changed(assign) && assign in block.body;
    assert id in AllChanged(block.body);
  }

  /** `h = a` and then `if c: h = b`, the branch not taken: the walk reads `b` and the name holds `a`,
      although nothing is marked along the run. Along the body it is. */
  lemma BranchNotTaken(owner: string -> string)
    ensures var first, second := Assign([NameTarget("h")], Name("a")), Assign([NameTarget("h")], Name("b"));
            var body, u := [first, Block(Unread("If", {}), [second], [])], [first];
            && AllReadable(body) && AllReadable(u) && Flat(u) && Completes(body, u)
            && Mark(u, START, UNMARKED, owner).stale == {} && "h" in Mark(body, START, UNMARKED, owner).stale
            && Get(Walk(body, START).env, "h") == Free("b")
            && Lookup(Exec(Recording(), u, Entry(Initials())).m, "h") == Initial("a")
  {
    var first, second := Assign([NameTarget("h")], Name("a")), Assign([NameTarget("h")], Name("b"));
    var block := Block(Unread("If", {}), [second], []);
    var body := [first, block];
    assert body[..1] == [first] && [first][..0] == [] && [first][..1] == [first] && [first][1..] == [];
    assert Completes([], []) && Completes([first], [first]);
    var r, k, x := START, UNMARKED, Entry(Initials());
    NameAssigned("h", Name("a"), r, k, x, owner);
    WalkSingle(first, r);
    MarkSingle(first, r, k, owner);
    OneStatement(first, x);
    hide WalkOne, MarkOne, ExecOne;
    OneAssignmentBlock(block.header, "h", Name("b"), WalkOne(first, r), MarkOne(first, r, k, owner), owner);
    assert body[1] == block;
  }

  /** `for x in xs: h = f(h)` in two turns: the walk reads `f(h)` and the name holds `f(f(h))`, although
      nothing but `x` is marked along the run. Along the body it is. */
  lemma LoopTakenTwice(owner: string -> string)
    ensures var assign := Assign([NameTarget("h")], Call(Name("f"), [Name("h")], []));
            var header := Unread("For", {"x"});
            var body, turn := [Block(header, [assign], [])], [Passed(header), assign];
            && AllReadable(body) && AllReadable(turn + turn) && Flat(turn + turn) && Completes(body, turn + turn)
            && "h" !in Mark(turn + turn, START, UNMARKED, owner).stale
            && "h" in Mark(body, START, UNMARKED, owner).stale
            && Get(Walk(body, START).env, "h") == Apply(Free("f"), [Free("h")])
            && Lookup(Exec(Recording(), turn + turn, Entry(Initials())).m, "h")
               == Called(Initial("f"), [Called(Initial("f"), [Initial("h")], [])], [])
  {
    var value := Call(Name("f"), [Name("h")], []);
    var assign, header := Assign([NameTarget("h")], value), Unread("For", {"x"});
    var block, turn := Block(header, [assign], []), [Passed(header), assign];
    var r, k, x := START, UNMARKED, Entry(Initials());
    OneArgument(Name("f"), "h", r.env, x.m);
    hide WalkOne, MarkOne, ExecOne, Describe, Eval, Walk, Mark, Exec;
    OneAssignmentBlock(header, "h", value, r, k, owner);
    WalkSingle(block, r);
    MarkSingle(block, r, k, owner);
    TurnsComplete(header, assign);
    OneTurn("f", "h", header, r, k, x, owner);
    var r1, k1, x1 := Walk(turn, r), Mark(turn, r, k, owner), Exec(Recording(), turn, x);
    OneTurn("f", "h", header, r1, k1, x1, owner);
    WalkOfBoth(turn, turn, r);
    MarkOfBoth(turn, turn, r, k, owner);
    ExecOfBoth(Recording(), turn, turn, x);
  }

  lemma TurnsComplete(header: Unread, assign: Stmt)
    requires assign.Assign?
    ensures var turn := [Passed(header), assign];
            Completes([Block(header, [assign], [])], turn + turn)
  {
    var block, turn := Block(header, [assign], []), [Passed(header), assign];
    var u := turn + turn;
    assert assign in block.body && Among(assign, block.body);
    assert [block][..0] == [] && u[..0] == [] && u[0..] == u && Completes([], []);
    forall s | s in u ensures Simple(s) && Within(s, block) {}
  }

  /** One turn of a loop whose body is `h = f(h)`. */
  lemma OneTurn(f: string, h: string, header: Unread, r: Reading, k: Marks, x: Run<Value>, owner: string -> string)
    requires f != h && f !in header.names && h !in header.names && f !in k.stale && h !in k.stale
    requires f !in r.env && f !in x.m.locals && x.m.initial == Initials()
    ensures var turn := [Passed(header), Assign([NameTarget(h)], Call(Name(f), [Name(h)], []))];
            && AllReadable(turn) && Flat(turn)
            && f !in Walk(turn, r).env && f !in Mark(turn, r, k, owner).stale && h !in Mark(turn, r, k, owner).stale
            && var y := Exec(Recording(), turn, x);
               && y.m.initial == Initials() && f !in y.m.locals
               && Lookup(y.m, h) == Called(Initial(f), [Lookup(x.m, h)], [])
  {
    var value := Call(Name(f), [Name(h)], []);
    var passed, assign := Passed(header), Assign([NameTarget(h)], value);
    var k1, x1 := MarkOne(passed, r, k, owner), ExecOne(Recording(), passed, x);
    HeaderPassed(header, r, k, x, owner);
    ReadsOneName(Name(f), h);
    CallAssigned(f, h, r, k1, x1, owner);
    hide WalkOne, MarkOne, ExecOne, Walk, Mark, Exec;
    TwoStatements(passed, assign, r, x);
    assert [passed, assign] == [passed] + [assign];
    WalkSingle(passed, r);
    MarkSingle(passed, r, k, owner);
    MarkSingle(assign, r, k1, owner);
    MarkOfBoth([passed], [assign], r, k, owner);
  }

  lemma HeaderPassed(header: Unread, r: Reading, k: Marks, x: Run<Value>, owner: string -> string)
    ensures WalkOne(Passed(header), r) == r && MarkOne(Passed(header), r, k, owner).stale == k.stale + header.names
    ensures var m := ExecOne(Recording(), Passed(header), x).m;
            && m.initial == x.m.initial
            && forall id | id !in header.names ::
                 Lookup(m, id) == Lookup(x.m, id) && (id in m.locals <==> id in x.m.locals)
  {
  }

  lemma CallAssigned(f: string, h: string, r: Reading, k: Marks, x: Run<Value>, owner: string -> string)
    requires f != h && f !in k.stale && h !in k.stale && f !in r.env && f !in x.m.locals && x.m.initial == Initials()
    ensures var assign := Assign([NameTarget(h)], Call(Name(f), [Name(h)], []));
            && StmtReadable(assign) && f !in WalkOne(assign, r).env
            && f !in MarkOne(assign, r, k, owner).stale && h !in MarkOne(assign, r, k, owner).stale
            && var m := ExecOne(Recording(), assign, x).m;
               && m.initial == Initials() && f !in m.locals
               && Lookup(m, h) == Called(Initial(f), [Lookup(x.m, h)], [])
  {
    var value := Call(Name(f), [Name(h)], []);
    OneArgument(Name(f), h, r.env, x.m);
    assert Clean(value, r.env, k.stale, owner);
    hide WalkOne, MarkOne, ExecOne, Describe, Clean;
    NameAssigned(h, value, r, k, x, owner);
  }

  /** `id = o.attr` as the only statement. */
  lemma AttributeTaken(id: string, o: string, attr: string)
    ensures var u := [Assign([NameTarget(id)], Attribute(Name(o), attr))];
            && AllReadable(u) && Flat(u) && Walk(u, START).env == map[id := Field(attr)]
            && Exec(Recording(), u, Entry(Initials())).m.initial == Initials()
            && Exec(Recording(), u, Entry(Initials())).m.locals == map[id := Attr(Initial(o), attr)]
  {
    var value := Attribute(Name(o), attr);
    var assign := Assign([NameTarget(id)], value);
    NameAssigned(id, value, START, UNMARKED, Entry(Initials()), (a: string) => o);
    WalkSingle(assign, START);
    OneStatement(assign, Entry(Initials()));
  }

  lemma DirectCat(o: string, x: string, env: Env)
    ensures var taken := Call(Attribute(Name(o), "cat"), [Name(x)], []);
            Readable(taken) && Describe(taken, env).Cat?
  {
    var taken := Call(Attribute(Name(o), "cat"), [Name(x)], []);
    ReadsOneName(taken.func, x);
    assert IsCat(taken.func);
    assert Describe(taken, env) == DescribeCat(taken, env);
  }

  /** Reading alike is not needed of a return that is not clean: after `c = cat`, taken from the module that
      owns it, `cat(x)` without a bracketed list does not read like `c(x)`, and is the same value. */
  lemma UncleanMayAgree(owner: string -> string, x: string)
    requires x != "c" && owner("cat") != "c"
    ensures var u := [Assign([NameTarget("c")], Attribute(Name(owner("cat")), "cat"))];
            var taken := Call(Attribute(Name(owner("cat")), "cat"), [Name(x)], []);
            var kept := Call(Name("c"), [Name(x)], []);
            && AllReadable(u) && Flat(u) && Readable(taken) && Readable(kept)
            && Describe(taken, Walk(u, START).env) != Describe(kept, Walk(u, START).env)
            && Record(Describe(kept, Walk(u, START).env), owner)
               == Eval(Recording(), taken, Exec(Recording(), u, Entry(Initials())).m)
  {
    var value := Attribute(Name(owner("cat")), "cat");
    var u := [Assign([NameTarget("c")], value)];
    AttributeTaken("c", owner("cat"), "cat");
    var env, m := Walk(u, START).env, Exec(Recording(), u, Entry(Initials())).m;
    hide Walk, Exec;
    DirectCat(owner("cat"), x, env);
    OneArgument(Name("c"), x, env, m);
    EvalOneArgument(value, x, m);
    RecordOneArgument(Field("cat"), Free(x), owner);
  }
}
