/** What the descriptors of a forward pass mean (tools/capture_qwen35_mtp.py): which of them,
    evaluated over the values the function started with, are the values the names hold after the
    statements that were run. */
module ForwardMeaning {
  import opened ForwardReading
  import opened Options

  /** What the language's operations do, whatever they do. `effect` is what syntax that the walk
      passes over makes of a name: by the kind of syntax, the name, the values assigned and what all
      names hold. */
  datatype Semantics<!V> = Semantics(
    constant: string -> V,
    getattr: (V, string) -> V,
    call: (V, seq<V>, seq<(string, V)>) -> V,
    cat: (V, seq<V>, Option<V>) -> V,
    negate: V -> V,
    index: (V, V) -> V,
    tuple: seq<V> -> V,
    list: seq<V> -> V,
    item: (V, nat) -> V,
    other: string -> V,
    effect: (string, string, seq<V>, string -> V) -> V)

  /** What the names hold on entry, and what has been assigned since. */
  datatype Machine<!V> = Machine(initial: string -> V, locals: map<string, V>)

  function Lookup<V>(m: Machine<V>, id: string): V {
    if id in m.locals then m.locals[id] else m.initial(id)
  }

  // ---- running the program ---------------------------------------------------

  /** `cat` of a bracketed list, along a named dimension or none. */
  predicate IsPlainCat(e: Expr) {
    e.Call? && IsCat(e.func) && |e.args| == 1 && (e.args[0].List? || e.args[0].Tuple?) &&
    (e.keywords == [] || (|e.keywords| == 1 && e.keywords[0].arg == "dim"))
  }

  function Eval<V>(w: Semantics<V>, e: Expr, m: Machine<V>): V
    decreases e, 1
  {
    match e
    case Name(id) => Lookup(m, id)
    case Attribute(x, attr) => w.getattr(Eval(w, x, m), attr)
    case Constant(repr) => w.constant(repr)
    case Call(f, args, kws) =>
      if IsPlainCat(e) then EvalCat(w, e, m)
      else w.call(Eval(w, f, m), EvalAll(w, args, m), EvalKeywords(w, kws, m))
    case Negated(x) => w.negate(Eval(w, x, m))
    case Subscript(x, i) => w.index(Eval(w, x, m), Eval(w, i, m))
    case Tuple(elts) => w.tuple(EvalAll(w, elts, m))
    case List(elts) => w.list(EvalAll(w, elts, m))
    case Other(kind) => w.other(kind)
  }

  function EvalCat<V>(w: Semantics<V>, e: Expr, m: Machine<V>): V
    requires IsPlainCat(e)
    decreases e, 0
  {
    w.cat(Eval(w, e.func.value, m), EvalAll(w, e.args[0].elts, m),
          if e.keywords == [] then None else Some(Eval(w, e.keywords[0].value, m)))
  }

  function EvalAll<V>(w: Semantics<V>, es: seq<Expr>, m: Machine<V>): (r: seq<V>)
    ensures |r| == |es|
    decreases es
  {
    if es == [] then [] else EvalAll(w, es[..|es| - 1], m) + [Eval(w, es[|es| - 1], m)]
  }

  function EvalKeywords<V>(w: Semantics<V>, kws: seq<Keyword>, m: Machine<V>): (r: seq<(string, V)>)
    ensures |r| == |kws|
    decreases kws
  {
    if kws == [] then []
    else
      var last := kws[|kws| - 1];
      EvalKeywords(w, kws[..|kws| - 1], m) + [(last.arg, Eval(w, last.value, m))]
  }

  function EvalResult<V>(w: Semantics<V>, result: Option<Expr>, m: Machine<V>): V {
    if result.Some? then Eval(w, result.value, m) else w.constant("None")
  }

  /** What syntax that is passed over does to the names it changes. */
  function Touch<V>(w: Semantics<V>, u: Unread, vs: seq<V>, m: Machine<V>): Machine<V> {
    var look := (id: string) => Lookup(m, id);
    m.(locals := m.locals + map id | id in u.names :: w.effect(u.kind, id, vs, look))
  }

  predicate HasStar(elts: seq<Element>) {
    exists e :: e in elts && e.Starred?
  }

  /** Unpacking a value. After a starred element the places count from the end, which the walk does
      not follow. */
  function StoreItems<V>(w: Semantics<V>, elts: seq<Element>, v: V, m: Machine<V>): Machine<V> {
    if elts == [] then m
    else
      var n := |elts| - 1;
      var before := StoreItems(w, elts[..n], v, m);
      match elts[n]
      case Named(id) =>
        if HasStar(elts[..n]) then Touch(w, Unread("Starred", {id}), [v], before)
        else before.(locals := before.locals[id := w.item(v, n)])
      case Starred(u) => Touch(w, u, [v], before)
      case Unnamed(u) => Touch(w, u, [v], before)
  }

  function StoreOne<V>(w: Semantics<V>, target: Target, v: V, m: Machine<V>): Machine<V> {
    match target
    case NameTarget(id) => m.(locals := m.locals[id := v])
    case TupleTarget(elts) => StoreItems(w, elts, v, m)
    case OtherTarget(u) => Touch(w, u, [v], m)
  }

  function Store<V>(w: Semantics<V>, targets: seq<Target>, v: V, m: Machine<V>): Machine<V> {
    if targets == [] then m
    else StoreOne(w, targets[|targets| - 1], v, Store(w, targets[..|targets| - 1], v, m))
  }

  /** A statement that control does not enter. */
  predicate Simple(st: Stmt) {
    st.Assign? || st.Passed?
  }

  predicate Flat(u: seq<Stmt>) {
    forall st | st in u :: Simple(st)
  }

  /** Where execution has got to: the names, and every value assigned so far. */
  datatype Run<!V> = Run(m: Machine<V>, trace: seq<V>)

  /** Runs the simple statements that control came by, one after another. */
  function Exec<V>(w: Semantics<V>, u: seq<Stmt>, x: Run<V>): Run<V>
    requires Flat(u)
  {
    if u == [] then x else ExecOne(w, u[|u| - 1], Exec(w, u[..|u| - 1], x))
  }

  function ExecOne<V>(w: Semantics<V>, st: Stmt, x: Run<V>): Run<V>
    requires Simple(st)
  {
    match st
    case Assign(targets, value) =>
      var v := Eval(w, value, x.m);
      Run(Store(w, targets, v, x.m), x.trace + [v])
    case Passed(u) => x.(m := Touch(w, u, [], x.m))
  }

  function Entry<V>(initial: string -> V): Run<V> {
    Run(Machine(initial, map[]), [])
  }

  const START := Reading(map[], [])

  // ---- what a descriptor means -----------------------------------------------

  /** How to take what descriptors leave out: `owner` says on which name an attribute is looked up,
      `part` what an unnamed part of a value is, and `kind` what a mere kind of expression is. */
  datatype Legend<!V> = Legend(owner: string -> string, part: V -> V, kind: string -> V)

  function Denote<V>(w: Semantics<V>, g: Legend<V>, t: Term, initial: string -> V): V
    decreases t, 1
  {
    match t
    case Free(id) => initial(id)
    case Field(attr) => w.getattr(initial(g.owner(attr)), attr)
    case Literal(repr) => w.constant(repr)
    case Cat(parts, dim) =>
      w.cat(initial(g.owner("cat")), DenoteAll(w, g, parts, initial),
            if dim.Some? then Some(Denote(w, g, dim.value, initial)) else None)
    case Apply(fn, args) => w.call(Denote(w, g, fn, initial), DenoteAll(w, g, args, initial), [])
    case Minus(x) => w.negate(Denote(w, g, x, initial))
    case Part(x) => g.part(Denote(w, g, x, initial))
    case Group(elts) => w.tuple(DenoteAll(w, g, elts, initial))
    case Item(x, i) => w.item(Denote(w, g, x, initial), i)
    case Kind(name) => g.kind(name)
  }

  function DenoteAll<V>(w: Semantics<V>, g: Legend<V>, ts: seq<Term>, initial: string -> V): (r: seq<V>)
    ensures |r| == |ts|
    decreases ts, 0
  {
    if ts == [] then []
    else DenoteAll(w, g, ts[..|ts| - 1], initial) + [Denote(w, g, ts[|ts| - 1], initial)]
  }

  // ---- which descriptors can be trusted --------------------------------------

  /** An attribute is looked up on the name that, as far as has been read, still holds its owner. */
  predicate OnOwner(x: Expr, attr: string, env: Env, stale: set<string>, owner: string -> string) {
    x.Name? && x.id !in stale && Get(env, x.id) == Free(owner(attr))
  }

  /** The expression reads no stale name, and uses nothing that a descriptor leaves out: no other
      receiver, no other keyword, no index. */
  predicate Clean(e: Expr, env: Env, stale: set<string>, owner: string -> string) {
    match e
    case Name(id) => id !in stale
    case Attribute(x, attr) => OnOwner(x, attr, env, stale, owner)
    case Constant(_) => true
    case Call(f, args, kws) =>
      if IsCat(f) then
        && IsPlainCat(e) && OnOwner(f.value, "cat", env, stale, owner)
        && (forall x | x in args[0].elts :: Clean(x, env, stale, owner))
        && (kws != [] ==> Clean(kws[0].value, env, stale, owner))
      else kws == [] && Clean(f, env, stale, owner) && forall a | a in args :: Clean(a, env, stale, owner)
    case Negated(x) => Clean(x, env, stale, owner)
    case Subscript(_, _) => false
    case Tuple(elts) => forall x | x in elts :: Clean(x, env, stale, owner)
    case List(_) => false
    case Other(_) => false
  }

  predicate CleanResult(result: Option<Expr>, env: Env, stale: set<string>, owner: string -> string) {
    result.Some? && Clean(result.value, env, stale, owner)
  }

  function StaleItems(elts: seq<Element>, clean: bool, stale: set<string>): set<string> {
    if elts == [] then stale
    else
      var n := |elts| - 1;
      var before := StaleItems(elts[..n], clean, stale);
      match elts[n]
      case Named(id) => if clean && !HasStar(elts[..n]) then before - {id} else before + {id}
      case Starred(u) => before + u.names
      case Unnamed(u) => before + u.names
  }

  function StaleOne(target: Target, clean: bool, stale: set<string>): set<string> {
    match target
    case NameTarget(id) => if clean then stale - {id} else stale + {id}
    case TupleTarget(elts) => StaleItems(elts, clean, stale)
    case OtherTarget(u) => stale + u.names
  }

  function StaleTargets(targets: seq<Target>, clean: bool, stale: set<string>): set<string> {
    if targets == [] then stale
    else StaleOne(targets[|targets| - 1], clean, StaleTargets(targets[..|targets| - 1], clean, stale))
  }

  /** The names that a target or a statement may change, in whatever way control passes. */
  function TargetNames(target: Target): set<string> {
    match target
    case NameTarget(id) => {id}
    case TupleTarget(elts) => set e, id | e in elts && id in ElementNames(e) :: id
    case OtherTarget(u) => u.names
  }

  function ElementNames(e: Element): set<string> {
    if e.Named? then {e.id} else e.unread.names
  }

  function Changed(st: Stmt): set<string> {
    match st
    case Assign(targets, _) => set t, id | t in targets && id in TargetNames(t) :: id
    case Block(header, body, orelse) => header.names + AllChanged(body) + AllChanged(orelse)
    case Return(_) => {RETURN}
    case Passed(u) => u.names
  }

  function AllChanged(body: seq<Stmt>): set<string>
    decreases body
  {
    set st, id | st in body && id in Changed(st) :: id
  }

  /** The names whose descriptors are stale, and for each assignment outside a block whether its value
      was clean. */
  datatype Marks = Marks(stale: set<string>, clean: seq<bool>)

  const UNMARKED := Marks({}, [])

  /** A second walk beside the first, over syntax alone: a name becomes stale when syntax that is
      passed over or a block may change it, or an unclean value is assigned to it, and clean again when
      a clean value is. */
  function Mark(body: seq<Stmt>, r: Reading, k: Marks, owner: string -> string): Marks
    requires AllReadable(body)
  {
    if body == [] then k
    else
      var n := |body| - 1;
      assert body[n] in body;
      MarkOne(body[n], Walk(body[..n], r), Mark(body[..n], r, k, owner), owner)
  }

  function MarkOne(st: Stmt, r: Reading, k: Marks, owner: string -> string): Marks
    requires StmtReadable(st)
  {
    match st
    case Assign(targets, value) =>
      var clean := Clean(value, r.env, k.stale, owner);
      Marks(StaleTargets(targets, clean, k.stale), k.clean + [clean])
    case Block(_, _, _) => k.(stale := k.stale + Changed(st))
    case Return(_) => k.(stale := k.stale + Changed(st))
    case Passed(u) => k.(stale := k.stale + u.names)
  }

  // ---- clean descriptors are right -------------------------------------------

  /** Every name that is not stale holds what its descriptor means. */
  ghost predicate Agree<V>(w: Semantics<V>, g: Legend<V>, env: Env, m: Machine<V>, stale: set<string>) {
    forall id: string | id !in stale :: Denote(w, g, Get(env, id), m.initial) == Lookup(m, id)
  }

  lemma OwnerMeans<V>(w: Semantics<V>, g: Legend<V>, x: Expr, attr: string, env: Env, m: Machine<V>, stale: set<string>)
    requires Agree(w, g, env, m, stale) && OnOwner(x, attr, env, stale, g.owner)
    ensures Eval(w, x, m) == m.initial(g.owner(attr))
  {
    assert Denote(w, g, Get(env, x.id), m.initial) == Lookup(m, x.id);
  }

  lemma {:induction false} DescribeMeans<V>(w: Semantics<V>, g: Legend<V>, e: Expr, env: Env, m: Machine<V>,
                                            stale: set<string>)
    requires Clean(e, env, stale, g.owner) && Readable(e) && Agree(w, g, env, m, stale)
    ensures Denote(w, g, Describe(e, env), m.initial) == Eval(w, e, m)
    decreases e, 1
  {
    match e
    case Name(id) =>
      assert Denote(w, g, Get(env, id), m.initial) == Lookup(m, id);
    case Attribute(x, attr) => OwnerMeans(w, g, x, attr, env, m, stale);
    case Constant(_) =>
    case Negated(x) => DescribeMeans(w, g, x, env, m, stale);
    case Tuple(elts) =>
      hide Agree, Clean;
      TupleMeans(w, g, e, env, m, stale);
    case Call(f, args, kws) =>
      hide Agree, Clean;
      CallMeans(w, g, e, env, m, stale);
    case Subscript(_, _) =>
    case List(_) =>
    case Other(_) =>
  }

  lemma {:induction false} TupleMeans<V>(w: Semantics<V>, g: Legend<V>, e: Expr, env: Env, m: Machine<V>,
                                         stale: set<string>)
    requires e.Tuple? && Clean(e, env, stale, g.owner) && Readable(e) && Agree(w, g, env, m, stale)
    ensures Denote(w, g, Describe(e, env), m.initial) == Eval(w, e, m)
    decreases e, 0
  {
    hide Agree;
    DescribeAllMeans(w, g, e.elts, env, m, stale);
    assert Describe(e, env) == Group(DescribeAll(e.elts, env));
  }

  lemma {:induction false} CallMeans<V>(w: Semantics<V>, g: Legend<V>, e: Expr, env: Env, m: Machine<V>,
                                        stale: set<string>)
    requires e.Call? && Clean(e, env, stale, g.owner) && Readable(e) && Agree(w, g, env, m, stale)
    ensures Denote(w, g, Describe(e, env), m.initial) == Eval(w, e, m)
    decreases e, 0
  {
    hide Agree;
    if IsCat(e.func) {
      CatMeans(w, g, e, env, m, stale);
    } else {
      DescribeMeans(w, g, e.func, env, m, stale);
      DescribeAllMeans(w, g, e.args, env, m, stale);
      assert EvalKeywords(w, e.keywords, m) == [];
      assert Describe(e, env) == Apply(Describe(e.func, env), DescribeAll(e.args, env));
    }
  }

  lemma {:induction false} CatMeans<V>(w: Semantics<V>, g: Legend<V>, e: Expr, env: Env, m: Machine<V>,
                                       stale: set<string>)
    requires e.Call? && IsCat(e.func) && Clean(e, env, stale, g.owner) && Readable(e) && Agree(w, g, env, m, stale)
    ensures Denote(w, g, Describe(e, env), m.initial) == Eval(w, e, m)
    decreases e, 0, 0
  {
    hide Agree;
    OwnerMeans(w, g, e.func.value, "cat", env, m, stale);
    CatUnfolds(e, env);
    DescribeAllMeans(w, g, e.args[0].elts, env, m, stale);
    if e.keywords != [] {
      assert e.keywords[0] in e.keywords;
      DescribeMeans(w, g, e.keywords[0].value, env, m, stale);
    }
    assert Eval(w, e, m) == EvalCat(w, e, m);
  }

  lemma CatUnfolds(e: Expr, env: Env)
    requires IsPlainCat(e) && Readable(e)
    ensures e.args[0] in e.args && Readable(e.args[0])
    ensures e.keywords != [] ==> e.keywords[0] in e.keywords && Readable(e.keywords[0].value)
    ensures Describe(e, env) == Cat(DescribeAll(e.args[0].elts, env),
              if e.keywords == [] then None else Some(Describe(e.keywords[0].value, env)))
  {
    assert e.args[0] in e.args;
    assert e.keywords != [] ==> e.keywords[0] in e.keywords;
    assert Describe(e, env) == DescribeCat(e, env);
    hide Describe, DescribeAll;
    assert DescribeDim(e.keywords, env) ==
           if e.keywords == [] then None else Some(Describe(e.keywords[0].value, env));
    assert DescribeCat(e, env).parts == DescribeAll(e.args[0].elts, env);
  }

  lemma {:induction false} DescribeAllMeans<V>(w: Semantics<V>, g: Legend<V>, es: seq<Expr>, env: Env, m: Machine<V>,
                                               stale: set<string>)
    requires forall x | x in es :: Clean(x, env, stale, g.owner) && Readable(x)
    requires Agree(w, g, env, m, stale)
    ensures DenoteAll(w, g, DescribeAll(es, env), m.initial) == EvalAll(w, es, m)
    decreases es, 0
  {
    hide Agree, Clean;
    if es != [] {
      var n := |es| - 1;
      DescribeAllMeans(w, g, es[..n], env, m, stale);
      DescribeMeans(w, g, es[n], env, m, stale);
      assert DescribeAll(es, env)[..n] == DescribeAll(es[..n], env);
    }
  }

  lemma TouchAgrees<V>(w: Semantics<V>, g: Legend<V>, u: Unread, vs: seq<V>, env: Env, m: Machine<V>,
                       stale: set<string>)
    requires Agree(w, g, env, m, stale)
    ensures Agree(w, g, env, Touch(w, u, vs, m), stale + u.names)
  {
    hide Denote;
    forall id: string | id !in stale + u.names
      ensures Denote(w, g, Get(env, id), m.initial) == Lookup(Touch(w, u, vs, m), id)
    {
      assert Denote(w, g, Get(env, id), m.initial) == Lookup(m, id);
    }
  }

  lemma NameAgrees<V>(w: Semantics<V>, g: Legend<V>, id: string, t: Term, v: V, clean: bool, env: Env, m: Machine<V>,
                      stale: set<string>)
    requires Agree(w, g, env, m, stale) && (clean ==> Denote(w, g, t, m.initial) == v)
    ensures Agree(w, g, env[id := t], m.(locals := m.locals[id := v]), if clean then stale - {id} else stale + {id})
  {
    hide Denote;
    forall x: string | x != id && x !in stale
      ensures Denote(w, g, Get(env[id := t], x), m.initial) == Lookup(m.(locals := m.locals[id := v]), x)
    {
      assert Denote(w, g, Get(env, x), m.initial) == Lookup(m, x);
    }
  }

  lemma StarredAgrees<V>(w: Semantics<V>, g: Legend<V>, id: string, t: Term, v: V, env: Env, m: Machine<V>,
                         stale: set<string>)
    requires Agree(w, g, env, m, stale)
    ensures Agree(w, g, env[id := t], Touch(w, Unread("Starred", {id}), [v], m), stale + {id})
  {
    hide Denote;
    TouchAgrees(w, g, Unread("Starred", {id}), [v], env, m, stale);
    forall x: string | x !in stale + {id} ensures Get(env[id := t], x) == Get(env, x) {
    }
  }

  lemma {:induction false} ItemsAgree<V>(w: Semantics<V>, g: Legend<V>, elts: seq<Element>, t: Term, v: V,
                                         clean: bool, env: Env, m: Machine<V>, stale: set<string>)
    requires Agree(w, g, env, m, stale) && (clean ==> Denote(w, g, t, m.initial) == v)
    ensures Agree(w, g, BindItems(elts, t, env), StoreItems(w, elts, v, m), StaleItems(elts, clean, stale))
    ensures StoreItems(w, elts, v, m).initial == m.initial
  {
    hide Agree, Touch, HasStar;
    if elts != [] {
      var n := |elts| - 1;
      ItemsAgree(w, g, elts[..n], t, v, clean, env, m, stale);
      var env2, m2, stale2 :=
          BindItems(elts[..n], t, env), StoreItems(w, elts[..n], v, m), StaleItems(elts[..n], clean, stale);
      match elts[n] {
        case Named(id) =>
          if HasStar(elts[..n]) {
            StarredAgrees(w, g, id, Item(t, n), v, env2, m2, stale2);
            TouchKeepsInitial(w, Unread("Starred", {id}), [v], m2);
          } else {
            NameAgrees(w, g, id, Item(t, n), w.item(v, n), clean, env2, m2, stale2);
          }
        case Starred(u) =>
          TouchAgrees(w, g, u, [v], env2, m2, stale2);
          TouchKeepsInitial(w, u, [v], m2);
        case Unnamed(u) =>
          TouchAgrees(w, g, u, [v], env2, m2, stale2);
          TouchKeepsInitial(w, u, [v], m2);
      }
    }
  }

  lemma TouchKeepsInitial<V>(w: Semantics<V>, u: Unread, vs: seq<V>, m: Machine<V>)
    ensures Touch(w, u, vs, m).initial == m.initial
  {
  }

  lemma {:induction false} TargetsAgree<V>(w: Semantics<V>, g: Legend<V>, targets: seq<Target>, t: Term, v: V,
                                           clean: bool, env: Env, m: Machine<V>, stale: set<string>)
    requires Agree(w, g, env, m, stale) && (clean ==> Denote(w, g, t, m.initial) == v)
    ensures Agree(w, g, Bind(targets, t, env), Store(w, targets, v, m), StaleTargets(targets, clean, stale))
    ensures Store(w, targets, v, m).initial == m.initial
  {
    hide Agree, Denote, Touch;
    if targets != [] {
      var n := |targets| - 1;
      TargetsAgree(w, g, targets[..n], t, v, clean, env, m, stale);
      var env2, m2, stale2 :=
          Bind(targets[..n], t, env), Store(w, targets[..n], v, m), StaleTargets(targets[..n], clean, stale);
      match targets[n] {
        case NameTarget(id) => NameAgrees(w, g, id, t, v, clean, env2, m2, stale2);
        case TupleTarget(elts) => ItemsAgree(w, g, elts, t, v, clean, env2, m2, stale2);
        case OtherTarget(u) =>
          TouchAgrees(w, g, u, [v], env2, m2, stale2);
          TouchKeepsInitial(w, u, [v], m2);
      }
    }
  }

  /** A walk, its marks and a run that are at the same place: names that are not stale agree, and so
      do the clean ones of the descriptors seen and the values assigned so far. */
  ghost predicate InStep<V>(w: Semantics<V>, g: Legend<V>, initial: string -> V, r: Reading, k: Marks, x: Run<V>) {
    && x.m.initial == initial && Agree(w, g, r.env, x.m, k.stale)
    && |r.seen| == |x.trace| == |k.clean|
    && forall i | 0 <= i < |k.clean| && k.clean[i] :: Denote(w, g, r.seen[i], initial) == x.trace[i]
  }

  lemma {:induction false} FlatKeepsStep<V>(w: Semantics<V>, g: Legend<V>, initial: string -> V, u: seq<Stmt>,
                                            r: Reading, k: Marks, x: Run<V>)
    requires Flat(u) && AllReadable(u) && InStep(w, g, initial, r, k, x)
    ensures InStep(w, g, initial, Walk(u, r), Mark(u, r, k, g.owner), Exec(w, u, x))
  {
    hide InStep, WalkOne, MarkOne, ExecOne;
    if u != [] {
      var n := |u| - 1;
      assert u[n] in u && Simple(u[n]);
      FlatKeepsStep(w, g, initial, u[..n], r, k, x);
      SimpleKeepsStep(w, g, initial, u[n], Walk(u[..n], r), Mark(u[..n], r, k, g.owner), Exec(w, u[..n], x));
    }
  }

  lemma SimpleKeepsStep<V>(w: Semantics<V>, g: Legend<V>, initial: string -> V, st: Stmt, r: Reading, k: Marks,
                           x: Run<V>)
    requires Simple(st) && StmtReadable(st) && InStep(w, g, initial, r, k, x)
    ensures InStep(w, g, initial, WalkOne(st, r), MarkOne(st, r, k, g.owner), ExecOne(w, st, x))
  {
    hide Agree, Denote, Touch, Eval, Describe, Bind, Store, StaleTargets, Clean;
    match st
    case Assign(targets, value) =>
      var t, v, clean := Describe(value, r.env), Eval(w, value, x.m), Clean(value, r.env, k.stale, g.owner);
      if clean {
        DescribeMeans(w, g, value, r.env, x.m, k.stale);
      }
      TargetsAgree(w, g, targets, t, v, clean, r.env, x.m, k.stale);
    case Passed(u) =>
      TouchAgrees(w, g, u, [], r.env, x.m, k.stale);
      TouchKeepsInitial(w, u, [], x.m);
  }

  lemma StartsInStep<V>(w: Semantics<V>, g: Legend<V>, initial: string -> V)
    ensures InStep(w, g, initial, START, UNMARKED, Entry(initial))
  {
  }

  /** Statements read in the order they are run. Whatever the operations do, and whatever a
      descriptor's gaps are taken to be: the descriptor of a name that is not stale, evaluated over the
      values the function started with, is the value the name holds; and the list keeps the descriptor
      of every assignment in order, each clean one meaning the value assigned, those overwritten later
      included. */
  lemma ReadingIsTheRun<V>(w: Semantics<V>, g: Legend<V>, u: seq<Stmt>, initial: string -> V, id: string)
    requires AllReadable(u) && Flat(u)
    ensures var r, k := Walk(u, START), Mark(u, START, UNMARKED, g.owner);
            var x := Exec(w, u, Entry(initial));
            && (id !in k.stale ==> Denote(w, g, Get(r.env, id), initial) == Lookup(x.m, id))
            && |r.seen| == |x.trace| == |k.clean|
            && forall i | 0 <= i < |k.clean| && k.clean[i] :: Denote(w, g, r.seen[i], initial) == x.trace[i]
  {
    hide Walk, Exec, Mark, Denote;
    StartsInStep(w, g, initial);
    FlatKeepsStep(w, g, initial, u, START, UNMARKED, Entry(initial));
  }

  lemma ResultMeans<V>(w: Semantics<V>, g: Legend<V>, u: seq<Stmt>, e: Option<Expr>, initial: string -> V)
    requires AllReadable(u) && Flat(u) && StmtReadable(Return(e))
    requires CleanResult(e, Walk(u, START).env, Mark(u, START, UNMARKED, g.owner).stale, g.owner)
    ensures Denote(w, g, DescribeResult(e, Walk(u, START).env), initial) ==
            EvalResult(w, e, Exec(w, u, Entry(initial)).m)
  {
    hide Walk, Exec, Mark, Denote, Clean, Eval, Describe;
    StartsInStep(w, g, initial);
    FlatKeepsStep(w, g, initial, u, START, UNMARKED, Entry(initial));
    var r, k, x := Walk(u, START), Mark(u, START, UNMARKED, g.owner), Exec(w, u, Entry(initial));
    DescribeMeans(w, g, e.value, r.env, x.m, k.stale);
  }

  // ---- straight-line code ----------------------------------------------------

  /** Names, constants, calls, `cat`, negation and tuples, and attributes of the fixed objects that own
      them; no keyword but the `dim` of `cat`. */
  predicate Plain(e: Expr, owner: string -> string) {
    match e
    case Name(_) => true
    case Attribute(x, attr) => x == Name(owner(attr))
    case Constant(_) => true
    case Call(f, args, kws) =>
      if IsCat(f) then
        && IsPlainCat(e) && f.value == Name(owner("cat"))
        && (forall x | x in args[0].elts :: Plain(x, owner)) && (kws != [] ==> Plain(kws[0].value, owner))
      else kws == [] && Plain(f, owner) && forall a | a in args :: Plain(a, owner)
    case Negated(x) => Plain(x, owner)
    case Subscript(_, _) => false
    case Tuple(elts) => forall x | x in elts :: Plain(x, owner)
    case List(_) => false
    case Other(_) => false
  }

  /** An assignable name: no attribute is looked up on it. */
  ghost predicate Assignable(id: string, owner: string -> string) {
    forall attr: string :: owner(attr) != id
  }

  ghost predicate TargetIsPlain(target: Target, owner: string -> string) {
    match target
    case NameTarget(id) => Assignable(id, owner)
    case TupleTarget(elts) => forall e | e in elts :: e.Named? && Assignable(e.id, owner)
    case OtherTarget(_) => false
  }

  /** Assignments of plain values to names and tuples of names, and whatever changes no name. */
  ghost predicate StraightLine(body: seq<Stmt>, owner: string -> string) {
    forall st | st in body :: StraightStmt(st, owner)
  }

  ghost predicate StraightStmt(st: Stmt, owner: string -> string) {
    match st
    case Assign(targets, value) => Plain(value, owner) && forall t | t in targets :: TargetIsPlain(t, owner)
    case Block(_, _, _) => false
    case Return(_) => false
    case Passed(u) => u.names == {}
  }

  ghost predicate OwnersAreFree(env: Env, owner: string -> string) {
    forall attr: string :: owner(attr) !in env
  }

  lemma {:induction false} PlainIsClean(e: Expr, env: Env, owner: string -> string)
    requires Plain(e, owner) && OwnersAreFree(env, owner)
    ensures Readable(e) && Clean(e, env, {}, owner)
  {
    match e
    case Name(_) =>
    case Attribute(_, attr) =>
      assert owner(attr) !in env;
    case Constant(_) =>
    case Call(f, args, kws) =>
      if IsCat(f) {
        assert owner("cat") !in env;
        forall x | x in args[0].elts ensures Readable(x) && Clean(x, env, {}, owner) { PlainIsClean(x, env, owner); }
        if kws != [] {
          PlainIsClean(kws[0].value, env, owner);
        }
      } else {
        PlainIsClean(f, env, owner);
        forall a | a in args ensures Readable(a) && Clean(a, env, {}, owner) { PlainIsClean(a, env, owner); }
      }
    case Negated(x) => PlainIsClean(x, env, owner);
    case Subscript(_, _) =>
    case Tuple(elts) =>
      forall x | x in elts ensures Readable(x) && Clean(x, env, {}, owner) { PlainIsClean(x, env, owner); }
    case List(_) =>
    case Other(_) =>
  }

  lemma {:induction false} ItemsStayPlain(elts: seq<Element>, t: Term, env: Env, owner: string -> string)
    requires TargetIsPlain(TupleTarget(elts), owner) && OwnersAreFree(env, owner)
    ensures OwnersAreFree(BindItems(elts, t, env), owner) && StaleItems(elts, true, {}) == {} && !HasStar(elts)
  {
    if elts != [] {
      var n := |elts| - 1;
      assert elts[n] in elts;
      ItemsStayPlain(elts[..n], t, env, owner);
    }
  }

  lemma {:induction false} TargetsStayPlain(targets: seq<Target>, t: Term, env: Env, owner: string -> string)
    requires (forall k | k in targets :: TargetIsPlain(k, owner)) && OwnersAreFree(env, owner)
    ensures OwnersAreFree(Bind(targets, t, env), owner) && StaleTargets(targets, true, {}) == {}
  {
    if targets != [] {
      var n := |targets| - 1;
      assert targets[n] in targets;
      TargetsStayPlain(targets[..n], t, env, owner);
      if targets[n].TupleTarget? {
        ItemsStayPlain(targets[n].elts, t, Bind(targets[..n], t, env), owner);
      }
    }
  }

  /** Straight-line code leaves no name stale and every value clean, so all of its reading is right. */
  lemma {:induction false} StraightLineIsClean(body: seq<Stmt>, r: Reading, k: Marks, owner: string -> string)
    requires StraightLine(body, owner) && OwnersAreFree(r.env, owner) && k.stale == {} && false !in k.clean
    ensures AllReadable(body) && Flat(body) && OwnersAreFree(Walk(body, r).env, owner)
    ensures Mark(body, r, k, owner).stale == {} && false !in Mark(body, r, k, owner).clean
  {
    hide WalkOne, MarkOne;
    if body != [] {
      var n := |body| - 1;
      assert body[n] in body && StraightStmt(body[n], owner);
      StraightLineIsClean(body[..n], r, k, owner);
      StraightStmtIsClean(body[n], Walk(body[..n], r), Mark(body[..n], r, k, owner), owner);
      forall st | st in body ensures StmtReadable(st) && Simple(st) {
        assert st in body[..n] || st == body[n];
      }
    }
  }

  lemma StraightStmtIsClean(st: Stmt, r: Reading, k: Marks, owner: string -> string)
    requires StraightStmt(st, owner) && OwnersAreFree(r.env, owner) && k.stale == {} && false !in k.clean
    ensures StmtReadable(st) && Simple(st) && OwnersAreFree(WalkOne(st, r).env, owner)
    ensures MarkOne(st, r, k, owner).stale == {} && false !in MarkOne(st, r, k, owner).clean
  {
    if st.Assign? {
      PlainIsClean(st.value, r.env, owner);
      TargetsStayPlain(st.targets, Describe(st.value, r.env), r.env, owner);
    }
  }
}
