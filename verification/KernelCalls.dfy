/** The kernel cache as one thread uses it, call after call (crates/cuda/src/nvrtc.rs). */
module KernelCalls {
  import opened SourceKey
  import opened KernelCache
  import opened Options

  class Cache {
    const c: Toolchain
    var functions: map<string, map<string, Kernel>>
    var modules: map<string, Module>
    var disk: map<string, string>
    var loads: seq<string>

    function Contents(): Store
      reads this
    {
      Store(functions, modules, disk, loads)
    }

    constructor (c: Toolchain, disk: map<string, string>)
      ensures this.c == c && Contents() == Store(map[], map[], disk, [])
    {
      this.c := c;
      functions, modules := map[], map[];
      this.disk := disk;
      loads := [];
    }

    method LoadModule(r: Request, f: Faults) returns (m: Option<Module>)
      modifies this
      ensures (Contents(), m) == ModuleFor(c, old(Contents()), r, f)
    {
      hide Compiled, Path, Fold;
      if r.lbl in modules {
        return Some(modules[r.lbl]);
      }
      var key := HashOf(c.utf8(c.prelude(r.src)), c.arch, c.version);
      var file := Path(r.lbl, c.sm, key);
      var ptx: string;
      if file in disk && !f.read {
        ptx := disk[file];
      } else {
        if f.compile {
          return None;
        }
        ptx := Compiled(c, r.src);
        if !f.write {
          disk := disk[file := ptx];
        }
      }
      if f.load {
        return None;
      }
      loads := loads + [r.lbl];
      modules := modules[r.lbl := Module(ptx)];
      return Some(Module(ptx));
    }

    method Get(r: Request, f: Faults) returns (k: Option<Kernel>)
      modifies this
      ensures Outcome(Contents(), k) == Got(c, old(Contents()), r, f)
    {
      hide ModuleFor;
      if r.lbl in functions && r.name in functions[r.lbl] {
        return Some(functions[r.lbl][r.name]);
      }
      var m := LoadModule(r, f);
      if m.None? || f.find {
        return None;
      }
      var inner := if r.lbl in functions then functions[r.lbl] else map[];
      functions := functions[r.lbl := inner[r.name := Kernel(m.value, r.name)]];
      return Some(Kernel(m.value, r.name));
    }
  }

  // ---- what a call leaves behind ---------------------------------------------

  /** A call succeeds exactly when its function is cached, or its module is to be had and holds the function;
      a module is to be had when it is cached, or its text can be read or compiled and then loaded. */
  lemma CallSucceedsIff(c: Toolchain, s: Store, r: Request, f: Faults)
    ensures Got(c, s, r, f).result.Some? <==>
              || HasFunction(s, r)
              || (!f.find && (r.lbl in s.modules ||
                              (!f.load && ((FileOf(c, r.lbl, r.src) in s.disk && !f.read) || !f.compile))))
  {
    hide FileOf, Compiled;
  }

  /** Once a call has succeeded, asking again gives the same kernel and changes nothing, whatever fails. */
  lemma SuccessIsRemembered(c: Toolchain, s: Store, r: Request, f: Faults, later: Faults)
    requires Got(c, s, r, f).result.Some?
    ensures Got(c, Got(c, s, r, f).store, r, later) == Got(c, s, r, f)
  {
    hide ModuleFor;
  }

  /** What one process compiles is on disk for the next, which gets its kernel even if it cannot compile or
      write. */
  lemma CompiledTextIsFiled(c: Toolchain, s: Store, r: Request, f: Faults, later: Faults)
    requires !HasFunction(s, r) && r.lbl !in s.modules && !(FileOf(c, r.lbl, r.src) in s.disk && !f.read)
    requires !f.compile && !f.write && !later.read && !later.load && !later.find
    ensures Got(c, s, r, f).store.disk == s.disk[FileOf(c, r.lbl, r.src) := c.compile(c.prelude(r.src))]
    ensures Got(c, Fresh(Got(c, s, r, f).store.disk), r, later).result
         == Some(Kernel(Module(c.compile(c.prelude(r.src))), r.name))
  {
    hide FileOf;
  }

  // ---- each label is loaded at most once -------------------------------------

  datatype Call = Call(r: Request, f: Faults)

  /** A process that starts on a disk earlier processes left. */
  function Fresh(disk: map<string, string>): Store {
    Store(map[], map[], disk, [])
  }

  function AfterCalls(c: Toolchain, s: Store, calls: seq<Call>): Store {
    if calls == [] then s
    else
      var last := calls[|calls| - 1];
      Got(c, AfterCalls(c, s, calls[..|calls| - 1]), last.r, last.f).store
  }

  /** No label occurs twice in the log, and the log and the module map know the same labels. */
  ghost predicate LoadedOnce(s: Store) {
    && (forall i, j | 0 <= i < j < |s.loads| :: s.loads[i] != s.loads[j])
    && (forall l | l in s.loads :: l in s.modules)
    && (forall l | l in s.modules :: l in s.loads)
  }

  lemma GotLoadsOnce(c: Toolchain, s: Store, r: Request, f: Faults)
    requires LoadedOnce(s)
    ensures LoadedOnce(Got(c, s, r, f).store)
  {
    hide FileOf, Compiled;
  }

  /** In a sequential run, whatever fails, each label's module is loaded successfully at most once. */
  lemma {:induction false} EachModuleIsLoadedOnce(c: Toolchain, disk: map<string, string>, calls: seq<Call>)
    ensures LoadedOnce(AfterCalls(c, Fresh(disk), calls))
  {
    hide Got, LoadedOnce;
    if calls == [] {
      NothingIsLoadedOnce(disk);
    } else {
      EachModuleIsLoadedOnce(c, disk, calls[..|calls| - 1]);
      GotLoadsOnce(c, AfterCalls(c, Fresh(disk), calls[..|calls| - 1]), calls[|calls| - 1].r, calls[|calls| - 1].f);
    }
  }

  lemma NothingIsLoadedOnce(disk: map<string, string>)
    ensures LoadedOnce(Fresh(disk))
  {
  }

  // ---- the label decides, not the source -------------------------------------

  /** Which source each loaded label was first loaded from. */
  ghost predicate Origins(c: Toolchain, origin: map<string, string>, known: set<Use>, s: Store) {
    StoreIsRight(c, origin, known, s) && origin.Keys == s.modules.Keys
  }

  function FirstSource(origin: map<string, string>, r: Request): string {
    if r.lbl in origin then origin[r.lbl] else r.src
  }

  lemma LoadKeepsOrigins(c: Toolchain, origin: map<string, string>, known: set<Use>, s: Store, r: Request, f: Faults)
    requires Origins(c, origin, known, s) && r.lbl !in s.modules
    ensures var (s2, m) := LoadPtx(s, r, Compiled(c, r.src), f);
            && s2.functions == s.functions && (m.Some? ==> m.value == Module(Compiled(c, r.src)))
            && Origins(c, if m.Some? then origin[r.lbl := r.src] else origin, known, s2)
  {
    hide Compiled, DiskIsSound;
  }

  lemma ModuleForKeepsOrigins(c: Toolchain, origin: map<string, string>, known: set<Use>, s: Store, r: Request,
                              f: Faults)
    requires KeysTellApart(c, known) && Use(r.lbl, r.src) in known && Origins(c, origin, known, s)
    ensures var (s2, m) := ModuleFor(c, s, r, f);
            && s2.functions == s.functions
            && (m.Some? ==> m.value == Module(Compiled(c, FirstSource(origin, r))))
            && Origins(c, if m.Some? then origin[r.lbl := FirstSource(origin, r)] else origin, known, s2)
  {
    hide FileOf, Compiled, KeysTellApart, LoadPtx;
    if r.lbl in s.modules {
      assert origin[r.lbl := origin[r.lbl]] == origin;
    } else {
      var written := s.(disk := s.disk[FileOf(c, r.lbl, r.src) := Compiled(c, r.src)]);
      WriteKeepsDiskSound(c, known, s.disk, Use(r.lbl, r.src));
      hide DiskIsSound;
      LoadKeepsOrigins(c, origin, known, s, r, f);
      LoadKeepsOrigins(c, origin, known, written, r, f);
    }
  }

  /** A call that succeeds answers with the kernel of the source its label was first loaded from.
      So the answer is the caller's kernel exactly when the label is new or was first loaded from a
      source that compiles to the same text. The source's own hash plays no part once the label is
      cached. */
  lemma AnswerIsRightIff(c: Toolchain, origin: map<string, string>, known: set<Use>, s: Store, r: Request, f: Faults)
    requires KeysTellApart(c, known) && Use(r.lbl, r.src) in known && Origins(c, origin, known, s)
    ensures var out := Got(c, s, r, f);
            out.result.Some? ==>
              && out.result.value == Direct(c, FirstSource(origin, r), r.name)
              && Origins(c, origin[r.lbl := FirstSource(origin, r)], known, out.store)
              && (out.result.value == Direct(c, r.src, r.name) <==>
                    r.lbl !in origin || Compiled(c, origin[r.lbl]) == Compiled(c, r.src))
  {
    hide FileOf, Compiled, KeysTellApart, ModuleFor, DiskIsSound;
    if HasFunction(s, r) {
      assert s.functions[r.lbl][r.name] == Direct(c, origin[r.lbl], r.name);
      assert origin[r.lbl := origin[r.lbl]] == origin;
    } else {
      ModuleForKeepsOrigins(c, origin, known, s, r, f);
      var (s2, m) := ModuleFor(c, s, r, f);
      if m.Some? && !f.find {
        InsertKeepsOrigins(c, origin[r.lbl := FirstSource(origin, r)], known, s2, r, Kernel(m.value, r.name));
      }
    }
  }

  lemma InsertKeepsOrigins(c: Toolchain, origin: map<string, string>, known: set<Use>, s: Store, r: Request, k: Kernel)
    requires Origins(c, origin, known, s) && r.lbl in origin && k == Direct(c, origin[r.lbl], r.name)
    ensures Origins(c, origin, known, WithFunction(s, r, k))
  {
    hide Compiled, DiskIsSound;
  }

  /** A call's module may be loaded although the call then fails; its source counts all the same. */
  function WithOrigin(origin: map<string, string>, s: Store, r: Request): map<string, string> {
    if r.lbl in s.modules && r.lbl !in origin then origin[r.lbl := r.src] else origin
  }

  lemma CallKeepsOrigins(c: Toolchain, origin: map<string, string>, known: set<Use>, s: Store, r: Request, f: Faults)
    requires KeysTellApart(c, known) && Use(r.lbl, r.src) in known && Origins(c, origin, known, s)
    ensures Origins(c, WithOrigin(origin, Got(c, s, r, f).store, r), known, Got(c, s, r, f).store)
  {
    hide FileOf, Compiled, KeysTellApart, ModuleFor, DiskIsSound;
    if !HasFunction(s, r) {
      ModuleForKeepsOrigins(c, origin, known, s, r, f);
      var (s2, m) := ModuleFor(c, s, r, f);
      var origin2 := if m.Some? then origin[r.lbl := FirstSource(origin, r)] else origin;
      if m.Some? && !f.find {
        InsertKeepsOrigins(c, origin2, known, s2, r, Kernel(m.value, r.name));
      }
      assert r.lbl in s2.modules <==> r.lbl in origin2;
      assert origin2 == WithOrigin(origin, s2, r);
    }
  }

  /** Which source each label was first loaded from, over a run of calls. */
  function FirstSources(c: Toolchain, disk: map<string, string>, calls: seq<Call>): map<string, string> {
    if calls == [] then map[]
    else
      WithOrigin(FirstSources(c, disk, calls[..|calls| - 1]), AfterCalls(c, Fresh(disk), calls), calls[|calls| - 1].r)
  }

  lemma {:induction false} CallsKeepOrigins(c: Toolchain, known: set<Use>, disk: map<string, string>, calls: seq<Call>)
    requires KeysTellApart(c, known) && DiskIsSound(c, known, disk)
    requires forall i | 0 <= i < |calls| :: Use(calls[i].r.lbl, calls[i].r.src) in known
    ensures Origins(c, FirstSources(c, disk, calls), known, AfterCalls(c, Fresh(disk), calls))
  {
    hide Got, KeysTellApart, DiskIsSound, Compiled;
    if calls != [] {
      var n := |calls| - 1;
      CallsKeepOrigins(c, known, disk, calls[..n]);
      CallKeepsOrigins(c, FirstSources(c, disk, calls[..n]), known, AfterCalls(c, Fresh(disk), calls[..n]),
                       calls[n].r, calls[n].f);
    }
  }

  /** After any run of calls, with any failures and any mixture of sources under one label, a call that
      succeeds answers with its own kernel exactly when its label was never loaded, or was first loaded
      from a source that compiles to the same text. */
  lemma EveryAnswerIsRightIff(c: Toolchain, known: set<Use>, disk: map<string, string>, calls: seq<Call>, r: Request,
                              f: Faults)
    requires KeysTellApart(c, known) && DiskIsSound(c, known, disk) && Use(r.lbl, r.src) in known
    requires forall i | 0 <= i < |calls| :: Use(calls[i].r.lbl, calls[i].r.src) in known
    ensures var first := FirstSources(c, disk, calls);
            var out := Got(c, AfterCalls(c, Fresh(disk), calls), r, f);
            out.result.Some? ==>
              (out.result.value == Direct(c, r.src, r.name) <==>
                 r.lbl !in first || Compiled(c, first[r.lbl]) == Compiled(c, r.src))
  {
    hide KeysTellApart, Got, Compiled;
    CallsKeepOrigins(c, known, disk, calls);
    AnswerIsRightIff(c, FirstSources(c, disk, calls), known, AfterCalls(c, Fresh(disk), calls), r, f);
  }

  /** Two labels with one source do not share a module: each is loaded, and each has its own file. */
  lemma TwoLabelsDoNotShare(c: Toolchain, s: Store, r: Request, q: Request, f: Faults)
    requires r.src == q.src && r.lbl != q.lbl && r.lbl !in s.modules && q.lbl !in s.modules
    requires !HasFunction(s, r) && !HasFunction(s, q) && !f.compile && !f.load && !f.find
    ensures AfterCalls(c, s, [Call(r, f), Call(q, f)]).loads == s.loads + [r.lbl, q.lbl]
    ensures FileOf(c, r.lbl, r.src) != FileOf(c, q.lbl, q.src)
  {
    hide Got, FileOf;
    var calls := [Call(r, f), Call(q, f)];
    assert calls[..1] == [Call(r, f)];
    var one := Got(c, s, r, f).store;
    OneCall(c, s, r, f);
    FirstCallLoads(c, s, r, q, f);
    FirstCallLoads(c, one, q, r, f);
    LabelsHaveOwnFiles(c, r.lbl, q.lbl, r.src);
  }

  /** A call for a label that nothing is cached under loads its module, and touches no other label. */
  lemma FirstCallLoads(c: Toolchain, s: Store, r: Request, q: Request, f: Faults)
    requires r.lbl !in s.modules && !HasFunction(s, r) && !f.compile && !f.load && !f.find && q.lbl != r.lbl
    ensures var s2 := Got(c, s, r, f).store;
            && s2.loads == s.loads + [r.lbl]
            && (q.lbl in s2.modules <==> q.lbl in s.modules)
            && (HasFunction(s2, q) <==> HasFunction(s, q))
  {
    hide FileOf, Compiled;
  }

  lemma OneCall(c: Toolchain, s: Store, r: Request, f: Faults)
    ensures AfterCalls(c, s, [Call(r, f)]) == Got(c, s, r, f).store
  {
    hide Got;
    assert [Call(r, f)][..0] == [];
    assert AfterCalls(c, s, []) == s;
  }

  lemma LabelsHaveOwnFiles(c: Toolchain, a: string, b: string, src: string)
    requires a != b
    ensures FileOf(c, a, src) != FileOf(c, b, src)
  {
    hide Path, Fold;
    KeyIsWord(c, src);
    if FileOf(c, a, src) == FileOf(c, b, src) {
      PathIsInjective(a, b, c.sm, Key(c, src), Key(c, src));
    }
  }
}
