/** A forward pass is read block by block, each once, but it runs however control passes
    (tools/capture_qwen35_mtp.py). Here a run is the list of simple statements control came by, and the
    reading of the body is compared with it: branches not taken, `else` branches, repeated loops and
    early returns included. */
module ForwardRuns {
  import opened ForwardReading
  import opened ForwardMeaning
  import opened Options

  // ---- runs of a body --------------------------------------------------------

  /** A simple statement of a block: its header, or one of its body or its `else`, however deep. */
  predicate Within(s: Stmt, st: Stmt)
    decreases st
  {
    st.Block? && (s == Passed(st.header) || Among(s, st.body) || Among(s, st.orelse))
  }

  predicate Among(s: Stmt, body: seq<Stmt>)
    decreases body
  {
    exists t :: t in body && (s == t || Within(s, t))
  }

  ghost predicate PassesBlock(st: Stmt, u: seq<Stmt>) {
    forall s | s in u :: Simple(s) && Within(s, st)
  }

  /** A run that falls through the body: the simple statements outside blocks once each and in order,
      and at each block any of its own simple statements in any order and number, or none. That takes in
      every way control can pass a block without returning. */
  ghost predicate Completes(body: seq<Stmt>, u: seq<Stmt>): (r: bool)
    ensures r ==> Flat(u)
    decreases body
  {
    if body == [] then u == []
    else
      var n := |body| - 1;
      match body[n]
      case Assign(_, _) => u != [] && u[|u| - 1] == body[n] && Completes(body[..n], u[..|u| - 1])
      case Passed(_) => u != [] && u[|u| - 1] == body[n] && Completes(body[..n], u[..|u| - 1])
      case Return(_) => false
      case Block(_, _, _) =>
        exists k :: 0 <= k <= |u| && Completes(body[..n], u[..k]) && PassesBlock(body[n], u[k..])
  }

  lemma {:induction false} WithinChanges(s: Stmt, st: Stmt)
    requires Within(s, st)
    ensures Changed(s) <= Changed(st)
    decreases st
  {
    if s != Passed(st.header) {
      AmongChanges(s, if Among(s, st.body) then st.body else st.orelse);
    }
  }

  lemma {:induction false} AmongChanges(s: Stmt, body: seq<Stmt>)
    requires Among(s, body)
    ensures Changed(s) <= AllChanged(body)
    decreases body
  {
    var t :| t in body && (s == t || Within(s, t));
    if s != t {
      WithinChanges(s, t);
    }
  }

  // ---- what a statement leaves alone -----------------------------------------

  lemma {:induction false} ItemsBound(elts: seq<Element>, t: Term, env: Env, id: string)
    requires id !in TargetNames(TupleTarget(elts))
    ensures Get(BindItems(elts, t, env), id) == Get(env, id)
  {
    if elts != [] {
      var n := |elts| - 1;
      assert elts[n] in elts && id !in ElementNames(elts[n]);
      assert id !in TargetNames(TupleTarget(elts[..n]));
      ItemsBound(elts[..n], t, env, id);
    }
  }

  lemma {:induction false} TargetsBound(targets: seq<Target>, t: Term, env: Env, id: string)
    requires forall k | k in targets :: id !in TargetNames(k)
    ensures Get(Bind(targets, t, env), id) == Get(env, id)
  {
    if targets != [] {
      var n := |targets| - 1;
      assert targets[n] in targets;
      TargetsBound(targets[..n], t, env, id);
      if targets[n].TupleTarget? {
        ItemsBound(targets[n].elts, t, Bind(targets[..n], t, env), id);
      }
    }
  }

  /** Reading a statement changes the descriptors of no other names. */
  lemma {:induction false} WalkOneLeaves(st: Stmt, r: Reading, id: string)
    requires StmtReadable(st) && id !in Changed(st)
    ensures Get(WalkOne(st, r).env, id) == Get(r.env, id)
    decreases st, 0
  {
    hide Bind, Describe;
    match st
    case Assign(targets, value) =>
      forall k | k in targets ensures id !in TargetNames(k) {}
      TargetsBound(targets, Describe(value, r.env), r.env, id);
    case Block(_, body, _) => WalkLeaves(body, r, id);
    case Return(_) =>
    case Passed(_) =>
  }

  lemma {:induction false} WalkLeaves(body: seq<Stmt>, r: Reading, id: string)
    requires AllReadable(body) && id !in AllChanged(body)
    ensures Get(Walk(body, r).env, id) == Get(r.env, id)
    decreases body, 1
  {
    hide WalkOne;
    if body != [] {
      var n := |body| - 1;
      assert body[n] in body && StmtReadable(body[n]);
      assert id !in Changed(body[n]);
      assert id !in AllChanged(body[..n]);
      WalkLeaves(body[..n], r, id);
      WalkOneLeaves(body[n], Walk(body[..n], r), id);
    }
  }

  lemma TouchLeaves<V>(w: Semantics<V>, u: Unread, vs: seq<V>, m: Machine<V>, id: string)
    requires id !in u.names
    ensures Lookup(Touch(w, u, vs, m), id) == Lookup(m, id)
  {
  }

  lemma {:induction false} ItemsStored<V>(w: Semantics<V>, elts: seq<Element>, v: V, m: Machine<V>, id: string)
    requires id !in TargetNames(TupleTarget(elts))
    ensures Lookup(StoreItems(w, elts, v, m), id) == Lookup(m, id)
  {
    hide Touch, HasStar;
    if elts != [] {
      var n := |elts| - 1;
      assert elts[n] in elts && id !in ElementNames(elts[n]);
      assert id !in TargetNames(TupleTarget(elts[..n]));
      ItemsStored(w, elts[..n], v, m, id);
      var before := StoreItems(w, elts[..n], v, m);
      match elts[n] {
        case Named(x) => TouchLeaves(w, Unread("Starred", {x}), [v], before, id);
        case Starred(u) => TouchLeaves(w, u, [v], before, id);
        case Unnamed(u) => TouchLeaves(w, u, [v], before, id);
      }
    }
  }

  lemma {:induction false} TargetsStored<V>(w: Semantics<V>, targets: seq<Target>, v: V, m: Machine<V>, id: string)
    requires forall k | k in targets :: id !in TargetNames(k)
    ensures Lookup(Store(w, targets, v, m), id) == Lookup(m, id)
  {
    hide Touch;
    if targets != [] {
      var n := |targets| - 1;
      assert targets[n] in targets;
      TargetsStored(w, targets[..n], v, m, id);
      var before := Store(w, targets[..n], v, m);
      match targets[n] {
        case NameTarget(_) =>
        case TupleTarget(elts) => ItemsStored(w, elts, v, before, id);
        case OtherTarget(u) => TouchLeaves(w, u, [v], before, id);
      }
    }
  }

  /** Running simple statements changes no name outside those they may change. */
  lemma {:induction false} ExecLeaves<V>(w: Semantics<V>, u: seq<Stmt>, x: Run<V>, id: string)
    requires Flat(u) && forall s | s in u :: id !in Changed(s)
    ensures Lookup(Exec(w, u, x).m, id) == Lookup(x.m, id)
  {
    hide Store, Touch, Eval;
    if u != [] {
      var n := |u| - 1;
      assert u[n] in u;
      ExecLeaves(w, u[..n], x, id);
      var before := Exec(w, u[..n], x);
      match u[n] {
        case Assign(targets, value) =>
          forall k | k in targets ensures id !in TargetNames(k) {}
          TargetsStored(w, targets, Eval(w, value, before.m), before.m, id);
        case Passed(p) => TouchLeaves(w, p, [], before.m, id);
      }
    }
  }

  lemma {:induction false} ExecOfBoth<V>(w: Semantics<V>, x: seq<Stmt>, y: seq<Stmt>, r: Run<V>)
    requires Flat(x) && Flat(y)
    ensures Flat(x + y) && Exec(w, x + y, r) == Exec(w, y, Exec(w, x, r))
  {
    hide ExecOne;
    if y == [] {
      assert x + y == x;
    } else {
      assert (x + y)[..|x + y| - 1] == x + y[..|y| - 1];
      ExecOfBoth(w, x, y[..|y| - 1], r);
    }
  }

  // ---- what holds on every run -----------------------------------------------

  lemma BlockAgrees<V>(w: Semantics<V>, g: Legend<V>, initial: string -> V, st: Stmt, u: seq<Stmt>, r: Reading,
                       k: Marks, x: Run<V>)
    requires st.Block? && StmtReadable(st) && Flat(u) && PassesBlock(st, u)
    requires x.m.initial == initial && Agree(w, g, r.env, x.m, k.stale)
    ensures Exec(w, u, x).m.initial == initial
    ensures Agree(w, g, WalkOne(st, r).env, Exec(w, u, x).m, MarkOne(st, r, k, g.owner).stale)
  {
    hide Denote, Exec, WalkOne, Changed;
    forall s, id: string | s in u && id !in Changed(st) ensures id !in Changed(s) {
      WithinChanges(s, st);
    }
    forall id: string | id !in k.stale + Changed(st)
      ensures Denote(w, g, Get(WalkOne(st, r).env, id), initial) == Lookup(Exec(w, u, x).m, id)
    {
      WalkOneLeaves(st, r, id);
      ExecLeaves(w, u, x, id);
      assert Denote(w, g, Get(r.env, id), initial) == Lookup(x.m, id);
    }
    ExecKeepsInitial(w, u, x);
  }

  lemma {:induction false} ExecKeepsInitial<V>(w: Semantics<V>, u: seq<Stmt>, x: Run<V>)
    requires Flat(u)
    ensures Exec(w, u, x).m.initial == x.m.initial
  {
    if u != [] {
      var n := |u| - 1;
      ExecKeepsInitial(w, u[..n], x);
      if u[n].Assign? {
        StoreKeepsInitial(w, u[n].targets, Eval(w, u[n].value, Exec(w, u[..n], x).m), Exec(w, u[..n], x).m);
      }
    }
  }

  lemma {:induction false} StoreKeepsInitial<V>(w: Semantics<V>, targets: seq<Target>, v: V, m: Machine<V>)
    ensures Store(w, targets, v, m).initial == m.initial
  {
    if targets != [] {
      var n := |targets| - 1;
      StoreKeepsInitial(w, targets[..n], v, m);
      if targets[n].TupleTarget? {
        ItemsKeepInitial(w, targets[n].elts, v, Store(w, targets[..n], v, m));
      }
    }
  }

  lemma {:induction false} ItemsKeepInitial<V>(w: Semantics<V>, elts: seq<Element>, v: V, m: Machine<V>)
    ensures StoreItems(w, elts, v, m).initial == m.initial
  {
    if elts != [] {
      ItemsKeepInitial(w, elts[..|elts| - 1], v, m);
    }
  }

  lemma SimpleAgrees<V>(w: Semantics<V>, g: Legend<V>, initial: string -> V, st: Stmt, r: Reading, k: Marks, x: Run<V>)
    requires Simple(st) && StmtReadable(st) && x.m.initial == initial && Agree(w, g, r.env, x.m, k.stale)
    ensures ExecOne(w, st, x).m.initial == initial
    ensures Agree(w, g, WalkOne(st, r).env, ExecOne(w, st, x).m, MarkOne(st, r, k, g.owner).stale)
  {
    hide Agree, Denote, WalkOne, MarkOne, ExecOne;
    var r0, k0, x0 := r.(seen := []), k.(clean := []), x.(trace := []);
    SimpleKeepsStep(w, g, initial, st, r0, k0, x0);
    SameNames(w, g, st, r, k, x);
  }

  /** Neither list has a say in what names hold. */
  lemma SameNames<V>(w: Semantics<V>, g: Legend<V>, st: Stmt, r: Reading, k: Marks, x: Run<V>)
    requires Simple(st) && StmtReadable(st)
    ensures WalkOne(st, r.(seen := [])).env == WalkOne(st, r).env
    ensures MarkOne(st, r.(seen := []), k.(clean := []), g.owner).stale == MarkOne(st, r, k, g.owner).stale
    ensures ExecOne(w, st, x.(trace := [])).m == ExecOne(w, st, x).m
  {
  }

  lemma {:induction false} BodyAgrees<V>(w: Semantics<V>, g: Legend<V>, initial: string -> V, body: seq<Stmt>,
                                         u: seq<Stmt>)
    requires AllReadable(body) && Completes(body, u)
    ensures Exec(w, u, Entry(initial)).m.initial == initial
    ensures Agree(w, g, Walk(body, START).env, Exec(w, u, Entry(initial)).m, Mark(body, START, UNMARKED, g.owner).stale)
  {
    hide Agree, WalkOne, MarkOne, ExecOne;
    if body == [] {
      EntryAgrees(w, g, initial);
    } else {
      var n := |body| - 1;
      assert body[n] in body && StmtReadable(body[n]);
      var r, k := Walk(body[..n], START), Mark(body[..n], START, UNMARKED, g.owner);
      if body[n].Block? {
        var c :| 0 <= c <= |u| && Completes(body[..n], u[..c]) && PassesBlock(body[n], u[c..]);
        BodyAgrees(w, g, initial, body[..n], u[..c]);
        assert u[..c] + u[c..] == u;
        ExecOfBoth(w, u[..c], u[c..], Entry(initial));
        BlockAgrees(w, g, initial, body[n], u[c..], r, k, Exec(w, u[..c], Entry(initial)));
      } else {
        var front := u[..|u| - 1];
        BodyAgrees(w, g, initial, body[..n], front);
        SimpleAgrees(w, g, initial, body[n], r, k, Exec(w, front, Entry(initial)));
      }
    }
  }

  lemma EntryAgrees<V>(w: Semantics<V>, g: Legend<V>, initial: string -> V)
    ensures Agree(w, g, START.env, Entry(initial).m, {})
  {
  }

  /** A name that neither passed-over syntax nor a block may change, directly or through what it reads,
      holds what its descriptor means however control passes. */
  lemma UnmarkedIsRightOnEveryRun<V>(w: Semantics<V>, g: Legend<V>, body: seq<Stmt>, u: seq<Stmt>, initial: string -> V,
                                     id: string)
    requires AllReadable(body) && Completes(body, u)
    requires id !in Mark(body, START, UNMARKED, g.owner).stale
    ensures Denote(w, g, Get(Walk(body, START).env, id), initial) == Lookup(Exec(w, u, Entry(initial)).m, id)
  {
    hide Walk, Exec, Mark, Denote;
    BodyAgrees(w, g, initial, body, u);
  }

  // ---- every block once ------------------------------------------------------

  /** No `return`, in a block or outside. */
  predicate ReturnFree(body: seq<Stmt>)
    decreases body
  {
    forall st | st in body :: ReturnFreeStmt(st)
  }

  predicate ReturnFreeStmt(st: Stmt) {
    match st
    case Assign(_, _) => true
    case Block(_, body, _) => ReturnFree(body)
    case Return(_) => false
    case Passed(_) => true
  }

  /** The run that enters every block once and no `else`. */
  function Once(body: seq<Stmt>): seq<Stmt>
    decreases body, 1
  {
    if body == [] then [] else Once(body[..|body| - 1]) + OnceOne(body[|body| - 1])
  }

  function OnceOne(st: Stmt): seq<Stmt>
    decreases st, 0
  {
    match st
    case Assign(_, _) => [st]
    case Block(header, body, _) => [Passed(header)] + Once(body)
    case Return(_) => []
    case Passed(_) => [st]
  }

  lemma {:induction false} WalkOfBoth(x: seq<Stmt>, y: seq<Stmt>, r: Reading)
    requires AllReadable(x) && AllReadable(y)
    ensures AllReadable(x + y) && Walk(x + y, r) == Walk(y, Walk(x, r))
  {
    hide WalkOne;
    if y == [] {
      assert x + y == x;
    } else {
      assert (x + y)[..|x + y| - 1] == x + y[..|y| - 1];
      WalkOfBoth(x, y[..|y| - 1], r);
    }
  }

  lemma WalkSingle(st: Stmt, r: Reading)
    requires StmtReadable(st)
    ensures AllReadable([st]) && Walk([st], r) == WalkOne(st, r)
  {
    hide WalkOne;
    assert [st][..0] == [];
  }

  /** Along that run the body reads as it is read. */
  lemma {:induction false} OnceReadsAlike(body: seq<Stmt>, r: Reading)
    requires AllReadable(body) && ReturnFree(body)
    ensures AllReadable(Once(body)) && Walk(Once(body), r) == Walk(body, r)
    decreases body, 1
  {
    hide WalkOne;
    if body != [] {
      var n := |body| - 1;
      assert body[n] in body && StmtReadable(body[n]) && ReturnFreeStmt(body[n]);
      OnceReadsAlike(body[..n], r);
      OnceOneReadsAlike(body[n], Walk(body[..n], r));
      WalkOfBoth(Once(body[..n]), OnceOne(body[n]), r);
    }
  }

  lemma {:induction false} OnceOneReadsAlike(st: Stmt, r: Reading)
    requires StmtReadable(st) && ReturnFreeStmt(st)
    ensures AllReadable(OnceOne(st)) && Walk(OnceOne(st), r) == WalkOne(st, r)
    decreases st, 0
  {
    if st.Block? {
      WalkSingle(Passed(st.header), r);
      OnceReadsAlike(st.body, r);
      WalkOfBoth([Passed(st.header)], Once(st.body), r);
    } else {
      WalkSingle(st, r);
    }
  }

  lemma {:induction false} OnceIsAmong(body: seq<Stmt>, s: Stmt)
    requires s in Once(body)
    ensures Simple(s) && Among(s, body)
    decreases body, 1
  {
    var n := |body| - 1;
    if s in Once(body[..n]) {
      OnceIsAmong(body[..n], s);
      var t :| t in body[..n] && (s == t || Within(s, t));
      assert t in body;
    } else {
      assert body[n] in body;
      if body[n].Block? && s != Passed(body[n].header) {
        OnceIsAmong(body[n].body, s);
      }
      assert s == body[n] || Within(s, body[n]);
    }
  }

  lemma {:induction false} OnceCompletes(body: seq<Stmt>)
    requires ReturnFree(body)
    ensures Completes(body, Once(body))
  {
    if body != [] {
      var n := |body| - 1;
      assert body[n] in body && ReturnFreeStmt(body[n]);
      OnceCompletes(body[..n]);
      var front, last := Once(body[..n]), OnceOne(body[n]);
      assert (front + last)[..|front|] == front && (front + last)[|front|..] == last;
      if body[n].Block? {
        forall s | s in last ensures Simple(s) && Within(s, body[n]) {
          if s != Passed(body[n].header) {
            OnceIsAmong(body[n].body, s);
          }
        }
      }
    }
  }

  // ---- returns ---------------------------------------------------------------

  /** Nothing in the body changes what the walk keeps as the result. */
  predicate KeepsResult(body: seq<Stmt>) {
    RETURN !in AllChanged(body)
  }

  /** What the walk keeps as the result of a body whose last `return` is `e`. */
  lemma LastReturnIsKept(front: seq<Stmt>, e: Option<Expr>, rest: seq<Stmt>)
    requires AllReadable(front) && StmtReadable(Return(e)) && AllReadable(rest) && KeepsResult(rest)
    ensures AllReadable(front + [Return(e)] + rest)
    ensures Get(Walk(front + [Return(e)] + rest, START).env, RETURN) == DescribeResult(e, Walk(front, START).env)
  {
    hide DescribeResult;
    WalkSingle(Return(e), Walk(front, START));
    WalkOfBoth(front, [Return(e)], START);
    WalkOfBoth(front + [Return(e)], rest, START);
    WalkLeaves(rest, Walk(front + [Return(e)], START), RETURN);
  }

  /** The early exits are not taken, whatever else control does before the last `return`: its descriptor
      is the value returned, if the result reads no name that a block may change and is clean. */
  lemma LastReturnIsRead<V>(w: Semantics<V>, g: Legend<V>, front: seq<Stmt>, e: Option<Expr>, rest: seq<Stmt>,
                            u: seq<Stmt>, initial: string -> V)
    requires AllReadable(front) && StmtReadable(Return(e)) && AllReadable(rest) && KeepsResult(rest)
    requires Completes(front, u)
    ensures AllReadable(front + [Return(e)] + rest)
    ensures CleanResult(e, Walk(front, START).env, Mark(front, START, UNMARKED, g.owner).stale, g.owner) ==>
              Denote(w, g, Get(Walk(front + [Return(e)] + rest, START).env, RETURN), initial) ==
              EvalResult(w, e, Exec(w, u, Entry(initial)).m)
  {
    hide Walk, Exec, Mark, Denote, Clean, Eval, Describe;
    LastReturnIsKept(front, e, rest);
    BodyAgrees(w, g, initial, front, u);
    if CleanResult(e, Walk(front, START).env, Mark(front, START, UNMARKED, g.owner).stale, g.owner) {
      DescribeMeans(w, g, e.value, Walk(front, START).env, Exec(w, u, Entry(initial)).m,
                    Mark(front, START, UNMARKED, g.owner).stale);
    }
  }

  /** A run that leaves by any `return`, in a block or outside, having come by the statements `u`: the
      walk keeps the last `return` of the body as it reads where it stands. If the one taken is clean
      along the run, and reads alike there, the kept descriptor is the returned value all the same. */
  lemma EarlyReturnIsLost<V>(w: Semantics<V>, g: Legend<V>, front: seq<Stmt>, e: Option<Expr>, rest: seq<Stmt>,
                             u: seq<Stmt>, taken: Option<Expr>, initial: string -> V)
    requires AllReadable(front) && StmtReadable(Return(e)) && AllReadable(rest) && KeepsResult(rest)
    requires Flat(u) && AllReadable(u) && StmtReadable(Return(taken))
    ensures AllReadable(front + [Return(e)] + rest)
    ensures var kept := Get(Walk(front + [Return(e)] + rest, START).env, RETURN);
            && kept == DescribeResult(e, Walk(front, START).env)
            && (CleanResult(taken, Walk(u, START).env, Mark(u, START, UNMARKED, g.owner).stale, g.owner) ==>
                  kept == DescribeResult(taken, Walk(u, START).env) ==>
                    Denote(w, g, kept, initial) == EvalResult(w, taken, Exec(w, u, Entry(initial)).m))
  {
    hide Walk, Exec, Mark, Denote, CleanResult, EvalResult, DescribeResult;
    LastReturnIsKept(front, e, rest);
    if CleanResult(taken, Walk(u, START).env, Mark(u, START, UNMARKED, g.owner).stale, g.owner) {
      ResultMeans(w, g, u, taken, initial);
    }
  }
}
