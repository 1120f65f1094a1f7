/** When each label's module is loaded at most once although calls interleave
    (crates/cuda/src/nvrtc.rs). */
module KernelOnce {
  import opened KernelCache

  predicate Busy(p: Phase) {
    !p.Idle? && !p.Done?
  }

  /** No label occurs twice in the log of loads. */
  ghost predicate NoneTwice(loads: seq<string>) {
    forall i, j | 0 <= i < j < |loads| :: loads[i] != loads[j]
  }

  /** Another thread has an unfinished call for the label. */
  predicate Contended(s: State, t: nat, lbl: string) {
    exists u :: 0 <= u < |s.threads| && u != t && Busy(s.threads[u]) && s.threads[u].r.lbl == lbl
  }

  /** What a caller can see to: no call for a label begins while another thread's call for it is
      unfinished, unless the label's module is already in the map. */
  predicate Exclusive(s: State, a: Action) {
    a.Begin? ==> a.r.lbl in s.store.modules || !Contended(s, a.t, a.r.lbl)
  }

  /** What a thread's phase says of the log and the maps. */
  ghost predicate PhaseFits(s: Store, p: Phase) {
    match p
    case Idle => true
    case CheckFunctions(_) => true
    case CheckModules(_) => true
    case ReadDisk(r) => r.lbl !in s.loads
    case Compile(r) => r.lbl !in s.loads
    case WriteDisk(r, _) => r.lbl !in s.loads
    case Load(r, _) => r.lbl !in s.loads
    case InsertModule(r, _) => r.lbl in s.loads
    case Find(r, _) => r.lbl in s.modules
    case InsertFunction(r, _) => r.lbl in s.modules
    case Done(_, _) => true
  }

  ghost predicate Inserting(s: State, lbl: string) {
    exists t :: 0 <= t < |s.threads| && s.threads[t].InsertModule? && s.threads[t].r.lbl == lbl
  }

  /** Two threads are busy with one label only when its module is in the map. */
  ghost predicate Apart(s: State) {
    forall t, u | 0 <= t < |s.threads| && 0 <= u < |s.threads| && t != u &&
                  Busy(s.threads[t]) && Busy(s.threads[u]) && s.threads[t].r.lbl == s.threads[u].r.lbl ::
      s.threads[t].r.lbl in s.store.modules
  }

  ghost predicate Once(s: State) {
    && NoneTwice(s.store.loads) && Apart(s)
    && (forall l | l in s.store.modules :: l in s.store.loads)
    && (forall l | l in s.store.functions :: l in s.store.modules)
    && (forall l | l in s.store.loads :: l in s.store.modules || Inserting(s, l))
    && (forall t | 0 <= t < |s.threads| :: PhaseFits(s.store, s.threads[t]))
  }

  lemma BeginKeepsOnce(c: Toolchain, s: State, t: nat, r: Request)
    requires Once(s) && Exclusive(s, Begin(t, r))
    ensures Once(Next(c, s, Begin(t, r)))
  {
    var s2 := Next(c, s, Begin(t, r));
    forall l | l in s.store.loads && l !in s.store.modules ensures Inserting(s2, l) {
      assert Inserting(s, l);
      var u :| 0 <= u < |s.threads| && s.threads[u].InsertModule? && s.threads[u].r.lbl == l;
      assert s2.threads[u] == s.threads[u];
    }
  }

  /** What one step of a thread does to the log and to the labels in the maps. */
  ghost predicate StepsTo(s: Store, p: Phase, s2: Store, q: Phase) {
    && (Busy(q) ==> Busy(p) && q.r == p.r)
    && s2.loads == (if p.Load? && q.InsertModule? then s.loads + [p.r.lbl] else s.loads)
    && s2.modules.Keys == (if p.InsertModule? then s.modules.Keys + {p.r.lbl} else s.modules.Keys)
    && s2.functions.Keys == (if p.InsertFunction? then s.functions.Keys + {p.r.lbl} else s.functions.Keys)
    && (q.InsertModule? ==> p.Load?) && (p.InsertModule? ==> q.Find?)
  }

  lemma StepShape(c: Toolchain, s: Store, p: Phase, fault: bool)
    ensures StepsTo(s, p, Step(c, Local(s, p), fault).store, Step(c, Local(s, p), fault).phase)
  {
    hide FileOf, Compiled;
  }

  /** A step keeps what the thread's own phase says, if a thread that finds no module may fetch. */
  lemma StepFits(c: Toolchain, s: Store, p: Phase, fault: bool)
    requires PhaseFits(s, p) && (p.CheckModules? && p.r.lbl !in s.modules ==> p.r.lbl !in s.loads)
    ensures PhaseFits(Step(c, Local(s, p), fault).store, Step(c, Local(s, p), fault).phase)
  {
    hide FileOf, Compiled;
  }

  lemma MayFetch(s: State, t: nat)
    requires Once(s) && t < |s.threads| && s.threads[t].CheckModules? && s.threads[t].r.lbl !in s.store.modules
    ensures s.threads[t].r.lbl !in s.store.loads
  {
    var l := s.threads[t].r.lbl;
    if l in s.store.loads {
      assert Inserting(s, l);
      var u :| 0 <= u < |s.threads| && s.threads[u].InsertModule? && s.threads[u].r.lbl == l;
      assert Busy(s.threads[u]) && Busy(s.threads[t]);
      assert false;
    }
  }

  /** What the other threads' phases say survives the step. */
  lemma OthersFit(s: State, t: nat, s2: Store, q: Phase, u: nat)
    requires Once(s) && t < |s.threads| && u < |s.threads| && u != t && StepsTo(s.store, s.threads[t], s2, q)
    ensures PhaseFits(s2, s.threads[u])
  {
    assert PhaseFits(s.store, s.threads[u]) && PhaseFits(s.store, s.threads[t]);
  }

  lemma StillInserting(s: State, t: nat, s2: State, l: string)
    requires Once(s) && t < |s.threads| == |s2.threads| && StepsTo(s.store, s.threads[t], s2.store, s2.threads[t])
    requires s2.threads == s.threads[t := s2.threads[t]] && l in s2.store.loads && l !in s2.store.modules
    ensures Inserting(s2, l)
  {
    if l in s.store.loads {
      assert Inserting(s, l);
      var u :| 0 <= u < |s.threads| && s.threads[u].InsertModule? && s.threads[u].r.lbl == l;
      assert s2.threads[u] == s.threads[u];
    } else {
      assert s2.threads[t].InsertModule? && s2.threads[t].r.lbl == l;
    }
  }

  lemma AdvanceKeepsOnce(c: Toolchain, s: State, t: nat, fault: bool)
    requires Once(s) && t < |s.threads|
    ensures Once(Next(c, s, Advance(t, fault)))
  {
    hide Step, PhaseFits, Inserting;
    var s2 := Next(c, s, Advance(t, fault));
    var p, q := s.threads[t], s2.threads[t];
    StepShape(c, s.store, p, fault);
    if p.CheckModules? && p.r.lbl !in s.store.modules {
      MayFetch(s, t);
    }
    StepFits(c, s.store, p, fault);
    forall u | 0 <= u < |s.threads| && u != t ensures PhaseFits(s2.store, s.threads[u]) {
      OthersFit(s, t, s2.store, q, u);
    }
    forall l | l in s2.store.loads && l !in s2.store.modules ensures Inserting(s2, l) {
      StillInserting(s, t, s2, l);
    }
    LogKeepsOnce(s.store, p, s2.store, q);
  }

  lemma LogKeepsOnce(s: Store, p: Phase, s2: Store, q: Phase)
    requires StepsTo(s, p, s2, q) && PhaseFits(s, p) && NoneTwice(s.loads)
    requires forall l | l in s.modules :: l in s.loads
    requires forall l | l in s.functions :: l in s.modules
    ensures NoneTwice(s2.loads)
    ensures forall l | l in s2.modules :: l in s2.loads
    ensures forall l | l in s2.functions :: l in s2.modules
  {
    forall l | l in s2.modules ensures l in s2.loads {
      assert l in s2.modules.Keys;
    }
    forall l | l in s2.functions ensures l in s2.modules {
      assert l in s2.functions.Keys;
      assert l in s2.modules.Keys;
    }
  }

  lemma NextKeepsOnce(c: Toolchain, s: State, a: Action)
    requires Once(s) && Exclusive(s, a)
    ensures Once(Next(c, s, a))
  {
    match a
    case Begin(t, r) => BeginKeepsOnce(c, s, t, r);
    case Advance(t, fault) =>
      if t < |s.threads| {
        AdvanceKeepsOnce(c, s, t, fault);
      }
    case Outside(disk) => OutsideKeepsOnce(c, s, disk);
  }

  lemma OutsideKeepsOnce(c: Toolchain, s: State, disk: map<string, string>)
    requires Once(s)
    ensures Once(Next(c, s, Outside(disk)))
  {
    var s2 := Next(c, s, Outside(disk));
    forall l | Inserting(s, l) ensures Inserting(s2, l) {
    }
    forall t | 0 <= t < |s.threads| ensures PhaseFits(s2.store, s.threads[t]) {
      assert PhaseFits(s.store, s.threads[t]);
    }
  }

  /** Every call of a run begins while the label is its thread's alone, or already in the map. */
  ghost predicate AllExclusive(c: Toolchain, s: State, actions: seq<Action>) {
    forall i | 0 <= i < |actions| :: Exclusive(After(c, s, actions[..i]), actions[i])
  }

  /** Then, under every interleaving and whatever fails, each label's module is loaded successfully at
      most once. */
  lemma {:induction false} EachLabelIsLoadedOnce(c: Toolchain, s: State, actions: seq<Action>)
    requires Once(s) && AllExclusive(c, s, actions)
    ensures Once(After(c, s, actions)) && NoneTwice(After(c, s, actions).store.loads)
  {
    hide Next, Exclusive;
    if actions != [] {
      var n := |actions| - 1;
      assert forall i | 0 <= i < n :: actions[..n][..i] == actions[..i];
      EachLabelIsLoadedOnce(c, s, actions[..n]);
      NextKeepsOnce(c, After(c, s, actions[..n]), actions[n]);
    }
  }

  /** A process starts that way, whatever is on the disk. */
  lemma FreshProcessIsOnce(disk: map<string, string>, n: nat)
    ensures Once(State(Store(map[], map[], disk, []), seq(n, i => Idle)))
  {
  }

  // ---- the condition is needed -----------------------------------------------

  lemma {:induction false} AfterOfBoth(c: Toolchain, s: State, x: seq<Action>, y: seq<Action>)
    ensures After(c, s, x + y) == After(c, After(c, s, x), y)
  {
    hide Next;
    if y == [] {
      assert x + y == x;
    } else {
      assert (x + y)[..|x + y| - 1] == x + y[..|y| - 1];
      AfterOfBoth(c, s, x, y[..|y| - 1]);
    }
  }

  /** A thread on its way to loading its label's module, which nobody has inserted. */
  predicate Fetching(s: State, u: nat, lbl: string) {
    && u < |s.threads| && Busy(s.threads[u]) && s.threads[u].r.lbl == lbl
    && lbl !in s.store.modules && lbl !in s.store.functions
    && !s.threads[u].InsertModule? && !s.threads[u].Find? && !s.threads[u].InsertFunction?
  }

  function StepsLeft(p: Phase): nat {
    match p
    case CheckFunctions(_) => 6
    case CheckModules(_) => 5
    case ReadDisk(_) => 4
    case Compile(_) => 3
    case WriteDisk(_, _) => 2
    case Load(_, _) => 1
    case _ => 0
  }

  lemma FetchStep(c: Toolchain, s: State, u: nat, lbl: string)
    requires Fetching(s, u, lbl)
    ensures var s2 := Next(c, s, Advance(u, false));
            && s2.threads == s.threads[u := s2.threads[u]]
            && s2.store.modules == s.store.modules && s2.store.functions == s.store.functions
            && (if s.threads[u].Load? then s2.store.loads == s.store.loads + [lbl]
                else s2.store.loads == s.store.loads && Fetching(s2, u, lbl) &&
                     StepsLeft(s2.threads[u]) < StepsLeft(s.threads[u]))
  {
    hide FileOf, Compiled;
  }

  /** Left to itself such a thread loads the module, and changes neither the maps nor other threads. */
  lemma {:induction false} FetchingLoads(c: Toolchain, s: State, u: nat, lbl: string) returns (actions: seq<Action>)
    requires Fetching(s, u, lbl)
    ensures forall a | a in actions :: a == Advance(u, false)
    ensures var s2 := After(c, s, actions);
            && s2.store.loads == s.store.loads + [lbl]
            && s2.store.modules == s.store.modules && s2.store.functions == s.store.functions
            && |s2.threads| == |s.threads| && s2.threads == s.threads[u := s2.threads[u]]
    decreases StepsLeft(s.threads[u])
  {
    assert u < |s.threads|;
    hide Next, Fetching;
    FetchStep(c, s, u, lbl);
    var one := [Advance(u, false)];
    assert one[..0] == [];
    assert After(c, s, one) == Next(c, s, Advance(u, false));
    if s.threads[u].Load? {
      return one;
    }
    var rest := FetchingLoads(c, Next(c, s, Advance(u, false)), u, lbl);
    AfterOfBoth(c, s, one, rest);
    return one + rest;
  }

  /** Two threads on their way to one label's module may both load it although nothing fails, whether
      its file is on the disk or not. */
  lemma TwoThreadsMayLoadTwice(c: Toolchain, s: State, t: nat, u: nat, lbl: string)
    requires t != u && Fetching(s, t, lbl) && Fetching(s, u, lbl)
    ensures exists actions :: (forall a | a in actions :: a == Advance(t, false) || a == Advance(u, false)) &&
              After(c, s, actions).store.loads == s.store.loads + [lbl, lbl]
  {
    hide After;
    var x := FetchingLoads(c, s, t, lbl);
    var s2 := After(c, s, x);
    assert Fetching(s2, u, lbl);
    var y := FetchingLoads(c, s2, u, lbl);
    AfterOfBoth(c, s, x, y);
    assert s.store.loads + [lbl] + [lbl] == s.store.loads + [lbl, lbl];
    assert After(c, s, x + y).store.loads == s.store.loads + [lbl, lbl];
  }

  /** So the condition cannot be weakened: from any state that keeps it, a call that begins for a label
      another thread is still busy with, and nobody has inserted, can lead to a second load. */
  lemma OverlapMayLoadTwice(c: Toolchain, s: State, t: nat, r: Request)
    requires Once(s) && t < |s.threads| && !Busy(s.threads[t]) && !Exclusive(s, Begin(t, r))
    ensures exists actions :: !NoneTwice(After(c, Next(c, s, Begin(t, r)), actions).store.loads)
  {
    hide After, NoneTwice;
    var s1 := Next(c, s, Begin(t, r));
    var u :| 0 <= u < |s.threads| && u != t && Busy(s.threads[u]) && s.threads[u].r.lbl == r.lbl;
    assert s1.threads[u] == s.threads[u] && s1.store == s.store;
    assert PhaseFits(s.store, s.threads[u]);
    assert r.lbl !in s.store.functions;
    assert Fetching(s1, t, r.lbl);
    if s.threads[u].InsertModule? {
      var x := FetchingLoads(c, s1, t, r.lbl);
      AddedTwice(s.store.loads, r.lbl);
      assert !NoneTwice(After(c, s1, x).store.loads);
    } else {
      TwoThreadsMayLoadTwice(c, s1, t, u, r.lbl);
      var actions :| After(c, s1, actions).store.loads == s.store.loads + [r.lbl, r.lbl];
      AddedTwice(s.store.loads + [r.lbl], r.lbl);
      assert s.store.loads + [r.lbl, r.lbl] == s.store.loads + [r.lbl] + [r.lbl];
      assert !NoneTwice(After(c, s1, actions).store.loads);
    }
  }

  lemma AddedTwice(loads: seq<string>, lbl: string)
    requires lbl in loads
    ensures !NoneTwice(loads + [lbl])
  {
    var i :| 0 <= i < |loads| && loads[i] == lbl;
    assert (loads + [lbl])[i] == (loads + [lbl])[|loads|];
  }
}
