/** Reading a model's forward pass by symbolic execution: what every name holds, as a term over the
    names the function started with (tools/capture_qwen35_mtp.py). Descriptors are terms here; the
    source prints them. */
module ForwardReading {
  import opened Options

  // ---- the program -----------------------------------------------------------

  datatype Expr =
    | Name(id: string)
    | Attribute(value: Expr, attr: string)
    | Constant(repr: string)
    | Call(func: Expr, args: seq<Expr>, keywords: seq<Keyword>)
    | Negated(operand: Expr)
    | Subscript(value: Expr, index: Expr)
    | Tuple(elts: seq<Expr>)
    | List(elts: seq<Expr>)
    | Other(kind: string)

  datatype Keyword = Keyword(arg: string, value: Expr)

  /** Syntax that the walk passes over: what it is, and the names whose values it changes. An
      augmented or annotated assignment changes its target, a subscript or attribute target the
      names of the object it updates, a `for` or `with` header the names it binds; `pass` changes
      none. */
  datatype Unread = Unread(kind: string, names: set<string>)

  /** One place of a tuple target: a name, `*rest`, or anything else. */
  datatype Element = Named(id: string) | Starred(unread: Unread) | Unnamed(unread: Unread)

  datatype Target = NameTarget(id: string) | TupleTarget(elts: seq<Element>) | OtherTarget(unread: Unread)

  /** `Block` is an `if`, `with`, `for` or `while`: its header and its `else` are passed over, its body
      is read. */
  datatype Stmt =
    | Assign(targets: seq<Target>, value: Expr)
    | Block(header: Unread, body: seq<Stmt>, orelse: seq<Stmt>)
    | Return(result: Option<Expr>)
    | Passed(unread: Unread)

  // ---- descriptors -----------------------------------------------------------

  /** `Cat` without a dimension is the source's `@?`. */
  datatype Term =
    | Free(id: string)
    | Field(attr: string)
    | Literal(repr: string)
    | Cat(parts: seq<Term>, dim: Option<Term>)
    | Apply(fn: Term, args: seq<Term>)
    | Minus(operand: Term)
    | Part(of: Term)
    | Group(elts: seq<Term>)
    | Item(of: Term, at: nat)
    | Kind(name: string)

  type Env = map<string, Term>

  const RETURN := "__return__"

  function Get(env: Env, id: string): Term {
    if id in env then env[id] else Free(id)
  }

  predicate IsCat(f: Expr) {
    f.Attribute? && f.attr == "cat"
  }

  /** `cat` without an argument makes the source raise. */
  ghost predicate Readable(e: Expr) {
    match e
    case Name(_) => true
    case Attribute(_, _) => true
    case Constant(_) => true
    case Call(f, args, kws) =>
      && (IsCat(f) ==> args != [])
      && Readable(f)
      && (forall a | a in args :: Readable(a))
      && (forall k | k in kws :: Readable(k.value))
    case Negated(x) => Readable(x)
    case Subscript(x, _) => Readable(x)
    case Tuple(elts) => forall x | x in elts :: Readable(x)
    case List(elts) => forall x | x in elts :: Readable(x)
    case Other(_) => true
  }

  /** A method's descriptor is its attribute alone, so a call of one reads like any other call. */
  function Describe(e: Expr, env: Env): Term
    requires Readable(e)
    decreases e, 1
  {
    match e
    case Name(id) => Get(env, id)
    case Attribute(_, attr) => Field(attr)
    case Constant(repr) => Literal(repr)
    case Call(f, args, kws) =>
      if IsCat(f) then DescribeCat(e, env) else Apply(Describe(f, env), DescribeAll(args, env))
    case Negated(x) => Minus(Describe(x, env))
    case Subscript(x, _) => Part(Describe(x, env))
    case Tuple(elts) => Group(DescribeAll(elts, env))
    case List(_) => Kind("List")
    case Other(kind) => Kind(kind)
  }

  function DescribeCat(e: Expr, env: Env): Term
    requires e.Call? && IsCat(e.func) && Readable(e)
    decreases e, 0
  {
    var first := e.args[0];
    assert first in e.args && Readable(first);
    Cat(if first.List? || first.Tuple? then DescribeAll(first.elts, env) else [], DescribeDim(e.keywords, env))
  }

  function DescribeAll(es: seq<Expr>, env: Env): (r: seq<Term>)
    requires forall x | x in es :: Readable(x)
    ensures |r| == |es|
    decreases es
  {
    if es == [] then [] else DescribeAll(es[..|es| - 1], env) + [Describe(es[|es| - 1], env)]
  }

  /** The last keyword named `dim`. */
  function DescribeDim(kws: seq<Keyword>, env: Env): Option<Term>
    requires forall k | k in kws :: Readable(k.value)
    decreases kws
  {
    if kws == [] then None
    else
      var last := kws[|kws| - 1];
      if last.arg == "dim" then Some(Describe(last.value, env)) else DescribeDim(kws[..|kws| - 1], env)
  }

  /** What is returned; nothing at all reads as the type name of `None`. */
  function DescribeResult(result: Option<Expr>, env: Env): Term
    requires result.Some? ==> Readable(result.value)
  {
    if result.Some? then Describe(result.value, env) else Kind("NoneType")
  }

  // ---- statements ------------------------------------------------------------

  ghost predicate AllReadable(body: seq<Stmt>)
    decreases body
  {
    forall st | st in body :: StmtReadable(st)
  }

  ghost predicate StmtReadable(st: Stmt) {
    match st
    case Assign(_, value) => Readable(value)
    case Block(_, body, _) => AllReadable(body)
    case Return(result) => result.Some? ==> Readable(result.value)
    case Passed(_) => true
  }

  function BindItems(elts: seq<Element>, term: Term, env: Env): Env {
    if elts == [] then env
    else
      var rest, last := BindItems(elts[..|elts| - 1], term, env), elts[|elts| - 1];
      if last.Named? then rest[last.id := Item(term, |elts| - 1)] else rest
  }

  function BindOne(target: Target, term: Term, env: Env): Env {
    match target
    case NameTarget(id) => env[id := term]
    case TupleTarget(elts) => BindItems(elts, term, env)
    case OtherTarget(_) => env
  }

  function Bind(targets: seq<Target>, term: Term, env: Env): Env {
    if targets == [] then env else BindOne(targets[|targets| - 1], term, Bind(targets[..|targets| - 1], term, env))
  }

  /** The environment and the list of descriptors, as the walk leaves them. */
  datatype Reading = Reading(env: Env, seen: seq<Term>)

  function Walk(body: seq<Stmt>, r: Reading): Reading
    requires AllReadable(body)
    decreases body, 1
  {
    if body == [] then r
    else
      var last := body[|body| - 1];
      assert last in body;
      WalkOne(last, Walk(body[..|body| - 1], r))
  }

  function WalkOne(st: Stmt, r: Reading): Reading
    requires StmtReadable(st)
    decreases st, 0
  {
    match st
    case Assign(targets, value) =>
      var term := Describe(value, r.env);
      Reading(Bind(targets, term, r.env), r.seen + [term])
    case Block(_, body, _) => Walk(body, r)
    case Return(result) => r.(env := r.env[RETURN := DescribeResult(result, r.env)])
    case Passed(_) => r
  }

  /** The walk as the source runs it: one environment and one list, updated in place. */
  class Reader {
    var env: Env
    var seen: seq<Term>

    constructor ()
      ensures env == map[] && seen == []
    {
      env, seen := map[], [];
    }

    method WalkAssignments(body: seq<Stmt>)
      requires AllReadable(body)
      modifies this
      ensures Reading(env, seen) == Walk(body, old(Reading(env, seen)))
      decreases body
    {
      for i := 0 to |body|
        invariant Reading(env, seen) == Walk(body[..i], old(Reading(env, seen)))
      {
        assert body[..i + 1][..i] == body[..i];
        var st := body[i];
        assert st in body && StmtReadable(st);
        match st {
          case Assign(targets, value) =>
            var term := Describe(value, env);
            seen := seen + [term];
            BindTargets(targets, term);
          case Block(_, inner, _) =>
            WalkAssignments(inner);
          case Return(result) =>
            env := env[RETURN := DescribeResult(result, env)];
          case Passed(_) =>
        }
      }
      assert body[..|body|] == body;
    }

    method UnpackTuple(elts: seq<Element>, term: Term)
      modifies this`env
      ensures env == BindItems(elts, term, old(env))
    {
      for k := 0 to |elts|
        invariant env == BindItems(elts[..k], term, old(env))
      {
        assert elts[..k + 1][..k] == elts[..k];
        if elts[k].Named? {
          env := env[elts[k].id := Item(term, k)];
        }
      }
      assert elts[..|elts|] == elts;
    }

    method BindTargets(targets: seq<Target>, term: Term)
      modifies this`env
      ensures env == Bind(targets, term, old(env))
    {
      for i := 0 to |targets|
        invariant env == Bind(targets[..i], term, old(env))
      {
        assert targets[..i + 1][..i] == targets[..i];
        match targets[i] {
          case NameTarget(id) =>
            env := env[id := term];
          case TupleTarget(elts) =>
            UnpackTuple(elts, term);
          case OtherTarget(_) =>
        }
      }
      assert targets[..|targets|] == targets;
    }
  }
}
