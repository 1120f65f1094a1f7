/** The three levels of the compiled-kernel cache: functions, modules, and files on disk. No lock is
    held from a look-up to the insertion it leads to, so `get` is a sequence of steps that other
    threads interleave with (crates/cuda/src/nvrtc.rs). */
module KernelCache {
  import opened Bytes
  import opened SourceKey
  import opened Options

  /** What the cache is built around: the compiler, the text put before every source, and what goes
      into the file name besides the source. */
  datatype Toolchain = Toolchain(prelude: string -> string, compile: string -> string,
                                 utf8: string -> seq<byte>, sm: string, arch: seq<byte>, version: seq<byte>)

  /** A loaded module is the loading of some compiled text; a kernel is a function of a module. */
  datatype Module = Module(ptx: string)
  datatype Kernel = Kernel(inModule: Module, name: string)

  datatype Request = Request(lbl: string, src: string, name: string)

  function Key(c: Toolchain, src: string): nat {
    Fold(OFFSET, c.utf8(c.prelude(src)) + c.arch + c.version)
  }

  function FileOf(c: Toolchain, lbl: string, src: string): string {
    Path(lbl, c.sm, Key(c, src))
  }

  function Compiled(c: Toolchain, src: string): string {
    c.compile(c.prelude(src))
  }

  /** What compiling the source and loading the result directly would give. */
  function Direct(c: Toolchain, src: string, name: string): Kernel {
    Kernel(Module(Compiled(c, src)), name)
  }

  /** The shared state, with a log of the modules the driver has loaded. */
  datatype Store = Store(functions: map<string, map<string, Kernel>>, modules: map<string, Module>,
                         disk: map<string, string>, loads: seq<string>)

  datatype Phase =
    | Idle
    | CheckFunctions(r: Request)
    | CheckModules(r: Request)
    | ReadDisk(r: Request)
    | Compile(r: Request)
    | WriteDisk(r: Request, ptx: string)
    | Load(r: Request, ptx: string)
    | InsertModule(r: Request, m: Module)
    | Find(r: Request, m: Module)
    | InsertFunction(r: Request, k: Kernel)
    | Done(r: Request, result: Option<Kernel>)

  datatype Local = Local(store: Store, phase: Phase)

  predicate HasFunction(s: Store, r: Request) {
    r.lbl in s.functions && r.name in s.functions[r.lbl]
  }

  function WithFunction(s: Store, r: Request, k: Kernel): Store {
    var inner := if r.lbl in s.functions then s.functions[r.lbl] else map[];
    s.(functions := s.functions[r.lbl := inner[r.name := k]])
  }

  /** One step of `get`. `fault` makes a step that can fail do so: a read, a compilation, a write, a
      load or a look-up in the module. A failed read falls back to compiling and a failed write is
      ignored; the others end the call. */
  function Step(c: Toolchain, x: Local, fault: bool): Local {
    var s := x.store;
    match x.phase
    case Idle => x
    case CheckFunctions(r) =>
      Local(s, if HasFunction(s, r) then Done(r, Some(s.functions[r.lbl][r.name])) else CheckModules(r))
    case CheckModules(r) =>
      Local(s, if r.lbl in s.modules then Find(r, s.modules[r.lbl]) else ReadDisk(r))
    case ReadDisk(r) =>
      var file := FileOf(c, r.lbl, r.src);
      Local(s, if file in s.disk && !fault then Load(r, s.disk[file]) else Compile(r))
    case Compile(r) =>
      Local(s, if fault then Done(r, None) else WriteDisk(r, Compiled(c, r.src)))
    case WriteDisk(r, ptx) =>
      Local(if fault then s else s.(disk := s.disk[FileOf(c, r.lbl, r.src) := ptx]), Load(r, ptx))
    case Load(r, ptx) =>
      if fault then Local(s, Done(r, None)) else Local(s.(loads := s.loads + [r.lbl]), InsertModule(r, Module(ptx)))
    case InsertModule(r, m) =>
      Local(s.(modules := s.modules[r.lbl := m]), Find(r, m))
    case Find(r, m) =>
      Local(s, if fault then Done(r, None) else InsertFunction(r, Kernel(m, r.name)))
    case InsertFunction(r, k) =>
      Local(WithFunction(s, r, k), Done(r, Some(k)))
    case Done(_, _) => x
  }

  // ---- many threads ----------------------------------------------------------

  datatype State = State(store: Store, threads: seq<Phase>)

  /** A thread begins a call, a thread takes a step, or another process changes the disk. */
  datatype Action = Begin(t: nat, r: Request) | Advance(t: nat, fault: bool) | Outside(disk: map<string, string>)

  function Next(c: Toolchain, s: State, a: Action): State {
    match a
    case Begin(t, r) =>
      if t < |s.threads| && (s.threads[t].Idle? || s.threads[t].Done?)
      then s.(threads := s.threads[t := CheckFunctions(r)]) else s
    case Advance(t, fault) =>
      if t < |s.threads| then
        var x := Step(c, Local(s.store, s.threads[t]), fault);
        State(x.store, s.threads[t := x.phase])
      else s
    case Outside(disk) => s.(store := s.store.(disk := disk))
  }

  function After(c: Toolchain, s: State, actions: seq<Action>): State {
    if actions == [] then s else Next(c, After(c, s, actions[..|actions| - 1]), actions[|actions| - 1])
  }

  /** A label and a source that some process, past or present, may have cached under it. */
  datatype Use = Use(lbl: string, src: string)

  /** Different compilations filed under one label have different keys. */
  ghost predicate KeysTellApart(c: Toolchain, known: set<Use>) {
    forall u, v | u in known && v in known && u.lbl == v.lbl && Key(c, u.src) == Key(c, v.src) ::
      Compiled(c, u.src) == Compiled(c, v.src)
  }

  /** Every file that a known use would read holds what compiling that use gives. */
  ghost predicate DiskIsSound(c: Toolchain, known: set<Use>, disk: map<string, string>) {
    forall u | u in known && FileOf(c, u.lbl, u.src) in disk :: disk[FileOf(c, u.lbl, u.src)] == Compiled(c, u.src)
  }

  /** This process asks for one source per label. */
  ghost predicate Uses(sources: map<string, string>, known: set<Use>) {
    forall l | l in sources :: Use(l, sources[l]) in known
  }

  ghost predicate Asks(sources: map<string, string>, r: Request) {
    r.lbl in sources && r.src == sources[r.lbl]
  }

  ghost predicate Allowed(c: Toolchain, sources: map<string, string>, known: set<Use>, a: Action) {
    match a
    case Begin(_, r) => Asks(sources, r)
    case Advance(_, _) => true
    case Outside(disk) => DiskIsSound(c, known, disk)
  }

  ghost predicate StoreIsRight(c: Toolchain, sources: map<string, string>, known: set<Use>, s: Store) {
    && DiskIsSound(c, known, s.disk)
    && (forall l | l in s.modules :: l in sources && s.modules[l] == Module(Compiled(c, sources[l])))
    && (forall l | l in s.functions :: forall n | n in s.functions[l] ::
          l in sources && s.functions[l][n] == Direct(c, sources[l], n))
  }

  /** What a thread carries in its hands. */
  ghost predicate PhaseIsRight(c: Toolchain, sources: map<string, string>, p: Phase) {
    match p
    case Idle => true
    case CheckFunctions(r) => Asks(sources, r)
    case CheckModules(r) => Asks(sources, r)
    case ReadDisk(r) => Asks(sources, r)
    case Compile(r) => Asks(sources, r)
    case WriteDisk(r, ptx) => Asks(sources, r) && ptx == Compiled(c, r.src)
    case Load(r, ptx) => Asks(sources, r) && ptx == Compiled(c, r.src)
    case InsertModule(r, m) => Asks(sources, r) && m == Module(Compiled(c, r.src))
    case Find(r, m) => Asks(sources, r) && m == Module(Compiled(c, r.src))
    case InsertFunction(r, k) => Asks(sources, r) && k == Direct(c, r.src, r.name)
    case Done(r, result) => result.Some? ==> result.value == Direct(c, r.src, r.name)
  }

  ghost predicate IsRight(c: Toolchain, sources: map<string, string>, known: set<Use>, s: State) {
    && StoreIsRight(c, sources, known, s.store)
    && forall t | 0 <= t < |s.threads| :: PhaseIsRight(c, sources, s.threads[t])
  }

  lemma KeyIsWord(c: Toolchain, src: string)
    ensures Key(c, src) < WORD
  {
    FoldIsInjectiveInState(OFFSET, OFFSET, c.utf8(c.prelude(src)) + c.arch + c.version);
  }

  /** A source edited in one byte is cached under another file, whatever the label. */
  lemma EditedSourceIsFiledElsewhere(c: Toolchain, lbl: string, src: string, other: string, edited: string,
                                     before: seq<byte>, b: byte, d: byte, after: seq<byte>)
    requires c.utf8(c.prelude(src)) == before + [b] + after && c.utf8(c.prelude(edited)) == before + [d] + after
    requires b != d
    ensures FileOf(c, lbl, src) != FileOf(c, other, edited)
  {
    hide Path, Fold;
    var rest := after + c.arch + c.version;
    assert before + [b] + after + c.arch + c.version == before + [b] + rest;
    assert before + [d] + after + c.arch + c.version == before + [d] + rest;
    OneByteEditChangesHash(before, b, d, rest);
    KeyIsWord(c, src);
    KeyIsWord(c, edited);
    if FileOf(c, lbl, src) == FileOf(c, other, edited) {
      PathIsInjective(lbl, other, c.sm, Key(c, src), Key(c, edited));
    }
  }

  /** A release that changes one byte of the version reads none of the files of the release before. */
  lemma NewVersionIsFiledElsewhere(c: Toolchain, now: Toolchain, lbl: string, src: string, before: seq<byte>, b: byte,
                                   d: byte, after: seq<byte>)
    requires now == c.(version := now.version) && b != d
    requires c.version == before + [b] + after && now.version == before + [d] + after
    ensures FileOf(c, lbl, src) != FileOf(now, lbl, src)
  {
    hide Path, Fold;
    var text := c.utf8(c.prelude(src)) + c.arch;
    assert text + (before + [b] + after) == text + before + [b] + after;
    assert text + (before + [d] + after) == text + before + [d] + after;
    OneByteEditChangesHash(text + before, b, d, after);
    KeyIsWord(c, src);
    KeyIsWord(now, src);
    if FileOf(c, lbl, src) == FileOf(now, lbl, src) {
      PathIsInjective(lbl, lbl, c.sm, Key(c, src), Key(now, src));
    }
  }

  /** Two uses share a file only when the file is right for both. */
  lemma FilesDoNotClash(c: Toolchain, known: set<Use>, u: Use, v: Use)
    requires KeysTellApart(c, known) && u in known && v in known
    ensures FileOf(c, u.lbl, u.src) == FileOf(c, v.lbl, v.src) ==>
            u.lbl == v.lbl && Compiled(c, u.src) == Compiled(c, v.src)
  {
    hide Path, Fold;
    KeyIsWord(c, u.src);
    KeyIsWord(c, v.src);
    if FileOf(c, u.lbl, u.src) == FileOf(c, v.lbl, v.src) {
      PathIsInjective(u.lbl, v.lbl, c.sm, Key(c, u.src), Key(c, v.src));
    }
  }

  lemma WriteKeepsDiskSound(c: Toolchain, known: set<Use>, disk: map<string, string>, w: Use)
    requires KeysTellApart(c, known) && DiskIsSound(c, known, disk) && w in known
    ensures DiskIsSound(c, known, disk[FileOf(c, w.lbl, w.src) := Compiled(c, w.src)])
  {
    hide FileOf, Compiled, KeysTellApart;
    forall u | u in known && FileOf(c, u.lbl, u.src) == FileOf(c, w.lbl, w.src)
      ensures Compiled(c, u.src) == Compiled(c, w.src)
    {
      FilesDoNotClash(c, known, u, w);
    }
  }

  lemma StepKeepsRight(c: Toolchain, sources: map<string, string>, known: set<Use>, x: Local, fault: bool)
    requires KeysTellApart(c, known) && Uses(sources, known)
    requires StoreIsRight(c, sources, known, x.store) && PhaseIsRight(c, sources, x.phase)
    ensures StoreIsRight(c, sources, known, Step(c, x, fault).store) &&
            PhaseIsRight(c, sources, Step(c, x, fault).phase)
  {
    hide FileOf, Compiled, KeysTellApart;
    match x.phase {
      case ReadDisk(r) =>
        assert Use(r.lbl, r.src) in known;
      case WriteDisk(r, ptx) =>
        WriteKeepsDiskSound(c, known, x.store.disk, Use(r.lbl, r.src));
      case Idle =>
      case CheckFunctions(r) =>
      case CheckModules(r) =>
      case Compile(r) =>
      case Load(r, ptx) =>
      case InsertModule(r, m) =>
      case Find(r, m) =>
      case InsertFunction(r, k) =>
      case Done(r, result) =>
    }
  }

  lemma NextKeepsRight(c: Toolchain, sources: map<string, string>, known: set<Use>, s: State, a: Action)
    requires KeysTellApart(c, known) && Uses(sources, known) && Allowed(c, sources, known, a)
    requires IsRight(c, sources, known, s)
    ensures IsRight(c, sources, known, Next(c, s, a)) && |Next(c, s, a).threads| == |s.threads|
  {
    hide Step, KeysTellApart, DiskIsSound;
    if a.Advance? && a.t < |s.threads| {
      StepKeepsRight(c, sources, known, Local(s.store, s.threads[a.t]), a.fault);
    }
  }

  /** Under every interleaving of any number of threads, with any failures, and whatever sound files
      other processes put on the disk: every function, every module and every file is what compiling
      that label's source and loading it directly would give, and so is everything a call returns. */
  lemma {:induction false} EveryInterleavingIsRight(c: Toolchain, sources: map<string, string>, known: set<Use>,
                                                    s: State, actions: seq<Action>)
    requires KeysTellApart(c, known) && Uses(sources, known) && IsRight(c, sources, known, s)
    requires forall i | 0 <= i < |actions| :: Allowed(c, sources, known, actions[i])
    ensures IsRight(c, sources, known, After(c, s, actions))
  {
    hide Next, IsRight, Allowed;
    if actions != [] {
      EveryInterleavingIsRight(c, sources, known, s, actions[..|actions| - 1]);
      NextKeepsRight(c, sources, known, After(c, s, actions[..|actions| - 1]), actions[|actions| - 1]);
    }
  }

  /** A process starts with empty maps and a disk that earlier processes left. */
  lemma FreshProcessIsRight(c: Toolchain, sources: map<string, string>, known: set<Use>, disk: map<string, string>,
                            n: nat)
    requires DiskIsSound(c, known, disk)
    ensures IsRight(c, sources, known, State(Store(map[], map[], disk, []), seq(n, i => Idle)))
  {
  }

  // ---- one thread ------------------------------------------------------------

  /** Which of a call's steps fail. */
  datatype Faults = Faults(read: bool, compile: bool, write: bool, load: bool, find: bool)

  datatype Outcome = Outcome(store: Store, result: Option<Kernel>)

  /** A module for the label: the cached one, or one loaded from disk or compiled. */
  function ModuleFor(c: Toolchain, s: Store, r: Request, f: Faults): (Store, Option<Module>) {
    if r.lbl in s.modules then (s, Some(s.modules[r.lbl]))
    else
      var file := FileOf(c, r.lbl, r.src);
      if file in s.disk && !f.read then LoadPtx(s, r, s.disk[file], f)
      else if f.compile then (s, None)
      else
        var ptx := Compiled(c, r.src);
        LoadPtx(if f.write then s else s.(disk := s.disk[file := ptx]), r, ptx, f)
  }

  function LoadPtx(s: Store, r: Request, ptx: string, f: Faults): (Store, Option<Module>) {
    if f.load then (s, None)
    else (s.(loads := s.loads + [r.lbl], modules := s.modules[r.lbl := Module(ptx)]), Some(Module(ptx)))
  }

  function Got(c: Toolchain, s: Store, r: Request, f: Faults): Outcome {
    if HasFunction(s, r) then Outcome(s, Some(s.functions[r.lbl][r.name]))
    else
      var (s2, m) := ModuleFor(c, s, r, f);
      if m.None? || f.find then Outcome(s2, None)
      else Outcome(WithFunction(s2, r, Kernel(m.value, r.name)), Some(Kernel(m.value, r.name)))
  }

  function FaultOf(p: Phase, f: Faults): bool {
    match p
    case ReadDisk(_) => f.read
    case Compile(_) => f.compile
    case WriteDisk(_, _) => f.write
    case Load(_, _) => f.load
    case Find(_, _) => f.find
    case Idle => false
    case CheckFunctions(_) => false
    case CheckModules(_) => false
    case InsertModule(_, _) => false
    case InsertFunction(_, _) => false
    case Done(_, _) => false
  }

  function Alone(c: Toolchain, x: Local, f: Faults, n: nat): Local
    decreases n
  {
    if n == 0 then x else Alone(c, Step(c, x, FaultOf(x.phase, f)), f, n - 1)
  }

  lemma FindAlone(c: Toolchain, s: Store, r: Request, m: Module, f: Faults)
    ensures Alone(c, Local(s, Find(r, m)), f, 2) ==
            (if f.find then Local(s, Done(r, None))
             else Local(WithFunction(s, r, Kernel(m, r.name)), Done(r, Some(Kernel(m, r.name)))))
  {
    var x := Local(s, Find(r, m));
    var y := Step(c, x, FaultOf(x.phase, f));
    assert Alone(c, x, f, 2) == Alone(c, y, f, 1) == Step(c, y, FaultOf(y.phase, f));
  }

  lemma {:induction false} AloneMore(c: Toolchain, x: Local, f: Faults, n: nat, k: nat)
    ensures Alone(c, x, f, n + k) == Alone(c, Alone(c, x, f, n), f, k)
    decreases n
  {
    hide Step, FaultOf;
    if n > 0 {
      AloneMore(c, Step(c, x, FaultOf(x.phase, f)), f, n - 1, k);
    }
  }

  lemma DoneStays(c: Toolchain, x: Local, f: Faults, n: nat)
    requires x.phase.Done?
    ensures Alone(c, x, f, n) == x
    decreases n
  {
    if n > 0 {
      DoneStays(c, x, f, n - 1);
    }
  }

  lemma OneStep(c: Toolchain, x: Local, f: Faults, n: nat)
    requires n > 0
    ensures Alone(c, x, f, n) == Alone(c, Step(c, x, FaultOf(x.phase, f)), f, n - 1)
  {
  }

  lemma LoadAlone(c: Toolchain, s: Store, r: Request, ptx: string, f: Faults)
    ensures var (s2, m) := LoadPtx(s, r, ptx, f);
            Alone(c, Local(s, Load(r, ptx)), f, 4) ==
            (if m.None? then Local(s2, Done(r, None)) else Alone(c, Local(s2, Find(r, m.value)), f, 2))
  {
    var x := Local(s, Load(r, ptx));
    OneStep(c, x, f, 4);
    var y := Step(c, x, FaultOf(x.phase, f));
    if f.load {
      DoneStays(c, y, f, 3);
    } else {
      OneStep(c, y, f, 3);
    }
  }

  lemma ModuleAlone(c: Toolchain, s: Store, r: Request, f: Faults)
    ensures var (s2, m) := ModuleFor(c, s, r, f);
            Alone(c, Local(s, CheckModules(r)), f, 8) ==
            (if m.None? then Local(s2, Done(r, None)) else Alone(c, Local(s2, Find(r, m.value)), f, 2))
  {
    hide LoadPtx, FileOf, Compiled, Alone;
    var x := Local(s, CheckModules(r));
    OneStep(c, x, f, 8);
    if r.lbl in s.modules {
      var y := Local(s, Find(r, s.modules[r.lbl]));
      FindAlone(c, s, r, s.modules[r.lbl], f);
      AloneMore(c, y, f, 2, 5);
      DoneStays(c, Alone(c, y, f, 2), f, 5);
    } else {
      var y := Local(s, ReadDisk(r));
      OneStep(c, y, f, 7);
      var file := FileOf(c, r.lbl, r.src);
      if file in s.disk && !f.read {
        LoadStays(c, s, r, s.disk[file], f, 2);
      } else {
        OneStep(c, Local(s, Compile(r)), f, 6);
        if f.compile {
          DoneStays(c, Local(s, Done(r, None)), f, 5);
        } else {
          var ptx := Compiled(c, r.src);
          OneStep(c, Local(s, WriteDisk(r, ptx)), f, 5);
          LoadStays(c, if f.write then s else s.(disk := s.disk[file := ptx]), r, ptx, f, 0);
        }
      }
    }
  }

  lemma LoadStays(c: Toolchain, s: Store, r: Request, ptx: string, f: Faults, extra: nat)
    ensures var (s2, m) := LoadPtx(s, r, ptx, f);
            Alone(c, Local(s, Load(r, ptx)), f, 4 + extra) ==
            (if m.None? then Local(s2, Done(r, None)) else Alone(c, Local(s2, Find(r, m.value)), f, 2))
  {
    hide Alone;
    LoadAlone(c, s, r, ptx, f);
    var (s2, m) := LoadPtx(s, r, ptx, f);
    if m.Some? {
      FindAlone(c, s2, r, m.value, f);
    }
    AloneMore(c, Local(s, Load(r, ptx)), f, 4, extra);
    DoneStays(c, Alone(c, Local(s, Load(r, ptx)), f, 4), f, extra);
  }

  /** A call that nobody interleaves with is the run of its own steps. */
  lemma CallAloneIsGot(c: Toolchain, s: Store, r: Request, f: Faults)
    ensures Alone(c, Local(s, CheckFunctions(r)), f, 9) == Local(Got(c, s, r, f).store, Done(r, Got(c, s, r, f).result))
  {
    hide ModuleFor, Alone, WithFunction;
    var x := Local(s, CheckFunctions(r));
    OneStep(c, x, f, 9);
    if HasFunction(s, r) {
      DoneStays(c, Step(c, x, false), f, 8);
    } else {
      ModuleAlone(c, s, r, f);
      var (s2, m) := ModuleFor(c, s, r, f);
      if m.Some? {
        FindAlone(c, s2, r, m.value, f);
      }
    }
  }
}
