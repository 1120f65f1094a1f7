/** Scoped worker threads that fill one shared buffer.

    Each worker owns a program: the byte stores it issues, in order. The scheduler lets any
    worker perform its next store at any moment. */
module Workers {
  import opened Arith

  datatype Store = Store(at: nat, value: bv8)

  type Program = seq<Store>

  datatype State = State(mem: seq<bv8>, pcs: seq<nat>)

  ghost predicate InBounds(program: Program, size: nat) {
    forall i | 0 <= i < |program| :: program[i].at < size
  }

  ghost predicate Touches(program: Program, a: nat) {
    exists i :: 0 <= i < |program| && program[i].at == a
  }

  /** No two workers touch the same byte. */
  ghost predicate Disjoint(programs: seq<Program>) {
    forall t, u, a | 0 <= t < |programs| && 0 <= u < |programs| && t != u && Touches(programs[t], a) ::
      !Touches(programs[u], a)
  }

  ghost predicate AllInBounds(programs: seq<Program>, size: nat) {
    forall u | 0 <= u < |programs| :: InBounds(programs[u], size)
  }

  /** The memory after a program has run alone. */
  function Perform(mem: seq<bv8>, program: Program): (r: seq<bv8>)
    requires InBounds(program, |mem|)
    ensures |r| == |mem|
  {
    if program == [] then mem
    else
      var last := program[|program| - 1];
      Perform(mem, program[..|program| - 1])[last.at := last.value]
  }

  /** One turn of worker `t`; a worker with nothing left to do stands still. */
  function Turn(programs: seq<Program>, s: State, t: nat): (r: State)
    requires |s.pcs| == |programs| && AllInBounds(programs, |s.mem|)
    ensures |r.pcs| == |programs| && |r.mem| == |s.mem|
  {
    if t < |programs| && s.pcs[t] < |programs[t]| then
      assert InBounds(programs[t], |s.mem|);
      var store := programs[t][s.pcs[t]];
      State(s.mem[store.at := store.value], s.pcs[t := s.pcs[t] + 1])
    else s
  }

  /** The state after the scheduler has granted the turns of `schedule`, in that order. */
  function Interleave(programs: seq<Program>, mem: seq<bv8>, schedule: seq<nat>): (r: State)
    requires AllInBounds(programs, |mem|)
    ensures |r.pcs| == |programs| && |r.mem| == |mem|
  {
    if schedule == [] then State(mem, seq(|programs|, _ => 0))
    else
      Turn(programs, Interleave(programs, mem, schedule[..|schedule| - 1]), schedule[|schedule| - 1])
  }

  /** The scope joins every worker: all of them have run to the end. */
  ghost predicate Joined(programs: seq<Program>, s: State) {
    |s.pcs| == |programs| && forall t | 0 <= t < |programs| :: s.pcs[t] == |programs[t]|
  }

  // ---- programs run alone ----------------------------------------------------

  lemma PerformMore(mem: seq<bv8>, program: Program, store: Store)
    requires InBounds(program, |mem|) && store.at < |mem|
    ensures InBounds(program + [store], |mem|)
    ensures Perform(mem, program + [store]) == Perform(mem, program)[store.at := store.value]
  {
    var longer := program + [store];
    assert longer[..|longer| - 1] == program;
  }

  lemma {:induction false} PerformOfBoth(mem: seq<bv8>, x: Program, y: Program)
    requires InBounds(x, |mem|) && InBounds(y, |mem|)
    ensures InBounds(x + y, |mem|) && Perform(mem, x + y) == Perform(Perform(mem, x), y)
  {
    if y == [] {
      assert x + y == x;
    } else {
      var n := |y| - 1;
      PerformOfBoth(mem, x, y[..n]);
      assert (x + y)[..|x + y| - 1] == x + y[..n];
    }
  }

  lemma {:induction false} PerformUntouched(mem: seq<bv8>, program: Program, a: nat)
    requires InBounds(program, |mem|) && a < |mem| && !Touches(program, a)
    ensures Perform(mem, program)[a] == mem[a]
  {
    if program != [] {
      var rest := program[..|program| - 1];
      assert program[|program| - 1].at != a;
      forall i | 0 <= i < |rest| ensures rest[i].at != a {
        assert rest[i] == program[i];
      }
      PerformUntouched(mem, rest, a);
    }
  }

  /** What a program leaves at a byte it touches does not depend on the memory it found. */
  lemma {:induction false} PerformTouched(one: seq<bv8>, other: seq<bv8>, program: Program, a: nat)
    requires |one| == |other| && InBounds(program, |one|) && a < |one| && Touches(program, a)
    ensures Perform(one, program)[a] == Perform(other, program)[a]
  {
    var n := |program| - 1;
    if program[n].at != a {
      var i :| 0 <= i < |program| && program[i].at == a;
      assert program[..n][i].at == a;
      PerformTouched(one, other, program[..n], a);
    }
  }

  /** A store that no later one overwrites stays. */
  lemma {:induction false} PerformLands(mem: seq<bv8>, program: Program, i: nat)
    requires InBounds(program, |mem|) && i < |program|
    requires forall j | i < j < |program| :: program[j].at != program[i].at
    ensures Perform(mem, program)[program[i].at] == program[i].value
  {
    var n := |program| - 1;
    if i < n {
      PerformLands(mem, program[..n], i);
    }
  }

  // ---- programs run at once --------------------------------------------------

  /** At every point of every schedule, a byte a worker owns holds what that worker alone has
      put there so far, and a byte nobody owns is unchanged. */
  ghost predicate Separate(programs: seq<Program>, mem: seq<bv8>, s: State) {
    && |s.pcs| == |programs| && |s.mem| == |mem|
    && (forall t | 0 <= t < |programs| :: InBounds(programs[t], |mem|) && s.pcs[t] <= |programs[t]|)
    && (forall t, a | 0 <= t < |programs| && 0 <= a < |mem| && Touches(programs[t], a) ::
          s.mem[a] == Perform(mem, programs[t][..s.pcs[t]])[a])
    && (forall a | 0 <= a < |mem| && (forall t | 0 <= t < |programs| :: !Touches(programs[t], a)) ::
          s.mem[a] == mem[a])
  }

  lemma TurnKeepsSeparate(programs: seq<Program>, mem: seq<bv8>, s: State, t: nat)
    requires Separate(programs, mem, s) && Disjoint(programs)
    ensures Separate(programs, mem, Turn(programs, s, t))
  {
    if t < |programs| && s.pcs[t] < |programs[t]| {
      var r := Turn(programs, s, t);
      var pc := s.pcs[t];
      var store := programs[t][pc];
      assert Touches(programs[t], store.at);
      assert programs[t][..pc + 1][..pc] == programs[t][..pc];
      forall u, a | 0 <= u < |programs| && 0 <= a < |mem| && Touches(programs[u], a)
        ensures r.mem[a] == Perform(mem, programs[u][..r.pcs[u]])[a]
      {
        if u != t {
          assert a != store.at;
        }
      }
    }
  }

  lemma {:induction false} EveryScheduleIsSeparate(programs: seq<Program>, mem: seq<bv8>, schedule: seq<nat>)
    requires Disjoint(programs) && AllInBounds(programs, |mem|)
    ensures Separate(programs, mem, Interleave(programs, mem, schedule))
  {
    if schedule == [] {
      var s := Interleave(programs, mem, schedule);
      forall t, a | 0 <= t < |programs| && 0 <= a < |mem| && Touches(programs[t], a)
        ensures s.mem[a] == Perform(mem, programs[t][..s.pcs[t]])[a]
      {
        assert programs[t][..0] == [];
      }
    } else {
      var front := schedule[..|schedule| - 1];
      EveryScheduleIsSeparate(programs, mem, front);
      TurnKeepsSeparate(programs, mem, Interleave(programs, mem, front), schedule[|schedule| - 1]);
    }
  }

  /** The programs one after another, as a single worker would run them. */
  function InTurn(programs: seq<Program>): Program {
    if programs == [] then [] else InTurn(programs[..|programs| - 1]) + programs[|programs| - 1]
  }

  lemma {:induction false} InTurnInBounds(programs: seq<Program>, size: nat)
    requires AllInBounds(programs, size)
    ensures InBounds(InTurn(programs), size)
  {
    if programs != [] {
      InTurnInBounds(programs[..|programs| - 1], size);
    }
  }

  /** Run one after another, the programs leave at each byte what its owner alone would. */
  lemma {:induction false} InTurnAt(programs: seq<Program>, mem: seq<bv8>, t: nat, a: nat)
    requires AllInBounds(programs, |mem|) && InBounds(InTurn(programs), |mem|) && a < |mem| && t <= |programs|
    requires forall u | 0 <= u < |programs| && u != t :: !Touches(programs[u], a)
    ensures Perform(mem, InTurn(programs))[a]
         == if t < |programs| && Touches(programs[t], a) then Perform(mem, programs[t])[a] else mem[a]
  {
    if programs != [] {
      var n := |programs| - 1;
      var front, last := programs[..n], programs[n];
      InTurnInBounds(front, |mem|);
      InTurnAt(front, mem, Min(t, n), a);
      PerformOfBoth(mem, InTurn(front), last);
      if Touches(last, a) {
        PerformTouched(mem, Perform(mem, InTurn(front)), last, a);
      } else {
        PerformUntouched(Perform(mem, InTurn(front)), last, a);
      }
    }
  }

  /** Workers that share no byte leave, under every schedule that lets them finish, the memory
      that one worker running their programs in turn would leave. */
  lemma EveryScheduleIsSequential(programs: seq<Program>, mem: seq<bv8>, schedule: seq<nat>)
    requires Disjoint(programs) && AllInBounds(programs, |mem|)
    requires Joined(programs, Interleave(programs, mem, schedule))
    ensures InBounds(InTurn(programs), |mem|)
    ensures Interleave(programs, mem, schedule).mem == Perform(mem, InTurn(programs))
  {
    EveryScheduleIsSeparate(programs, mem, schedule);
    InTurnInBounds(programs, |mem|);
    var s := Interleave(programs, mem, schedule);
    forall a | 0 <= a < |mem| ensures s.mem[a] == Perform(mem, InTurn(programs))[a] {
      if t :| 0 <= t < |programs| && Touches(programs[t], a) {
        assert programs[t][..s.pcs[t]] == programs[t];
        InTurnAt(programs, mem, t, a);
      } else {
        InTurnAt(programs, mem, |programs|, a);
      }
    }
  }

  /** Two schedules that both let every worker finish leave the same memory. */
  lemma ScheduleIsIrrelevant(programs: seq<Program>, mem: seq<bv8>, one: seq<nat>, other: seq<nat>)
    requires Disjoint(programs) && AllInBounds(programs, |mem|)
    requires Joined(programs, Interleave(programs, mem, one))
    requires Joined(programs, Interleave(programs, mem, other))
    ensures Interleave(programs, mem, one).mem == Interleave(programs, mem, other).mem
  {
    EveryScheduleIsSequential(programs, mem, one);
    EveryScheduleIsSequential(programs, mem, other);
  }

  // ---- jobs cut into chunks --------------------------------------------------

  /** What the workers share out: `units` of `width` byte stores each, where store `o` of unit
      `g` goes, and what it puts there. */
  datatype Job = Job(units: nat, width: nat, place: (nat, nat) -> nat, value: (nat, nat) -> bv8)
  {
    /** Every store falls into the buffer, and no two fall on the same byte. */
    ghost predicate Sound() {
      && (forall g: nat, o: nat | g < units && o < width :: place(g, o) < units * width)
      && (forall g: nat, o: nat, h: nat, e: nat | g < units && o < width && h < units && e < width &&
            place(g, o) == place(h, e) :: g == h && o == e)
    }

    /** The stores of one unit. */
    function Unit(g: nat): (r: Program)
      ensures |r| == width
    {
      seq(width, o requires 0 <= o < width => Store(place(g, o), value(g, o)))
    }

    /** The stores of the units from `lo` up to `hi`, one unit after another. */
    function Stores(lo: nat, hi: nat): Program
      requires lo <= hi
      decreases hi - lo
    {
      if lo == hi then [] else Stores(lo, hi - 1) + Unit(hi - 1)
    }

    /** Byte `a` belongs to one of the units from `lo` up to `hi`. */
    ghost predicate Owns(lo: nat, hi: nat, a: nat) {
      exists g: nat, o: nat :: lo <= g < hi && o < width && place(g, o) == a
    }

    /** The units from `lo` up to `hi` hold their values. */
    ghost predicate Holds(now: seq<bv8>, lo: nat, hi: nat) {
      forall g: nat, o: nat | lo <= g < hi && o < width ::
        place(g, o) < |now| && now[place(g, o)] == value(g, o)
    }

    /** The units from `lo` up to `hi` are in place, and every other byte is as it was. */
    ghost predicate Wrote(now: seq<bv8>, was: seq<bv8>, lo: nat, hi: nat) {
      && |now| == |was| == units * width && lo <= hi <= units && Holds(now, lo, hi)
      && (forall a: nat | a < |now| && !Owns(lo, hi, a) :: now[a] == was[a])
    }

    lemma NoStores(lo: nat)
      ensures Stores(lo, lo) == []
    {
    }

    lemma WroteHolds(now: seq<bv8>, was: seq<bv8>, lo: nat, hi: nat)
      requires Wrote(now, was, lo, hi)
      ensures Holds(now, lo, hi)
    {
    }

    lemma {:induction false} StoresJoin(lo: nat, mid: nat, hi: nat)
      requires lo <= mid <= hi
      ensures Stores(lo, hi) == Stores(lo, mid) + Stores(mid, hi)
      decreases hi - mid
    {
      if mid < hi {
        StoresJoin(lo, mid, hi - 1);
      }
    }

    lemma {:induction false} StoresInBounds(lo: nat, hi: nat)
      requires Sound() && lo <= hi <= units
      ensures InBounds(Stores(lo, hi), units * width)
      decreases hi - lo
    {
      if lo < hi {
        StoresInBounds(lo, hi - 1);
      }
    }

    lemma {:induction false} StoresTouch(lo: nat, hi: nat, a: nat)
      requires lo <= hi
      ensures Touches(Stores(lo, hi), a) <==> Owns(lo, hi, a)
      decreases hi - lo
    {
      if lo < hi {
        var n := hi - 1;
        StoresTouch(lo, n, a);
        var front: Program, unit: Program := Stores(lo, n), Unit(n);
        var both: Program := front + unit;
        if i :| 0 <= i < |both| && both[i].at == a {
          if i < |front| {
            assert front[i].at == a;
            assert Owns(lo, n, a);
          } else {
            assert place(n, i - |front|) == a;
          }
        }
        if g: nat, o: nat :| lo <= g < hi && o < width && place(g, o) == a {
          if g == n {
            assert both[|front| + o].at == a;
          } else {
            assert Owns(lo, n, a);
            var i :| 0 <= i < |front| && front[i].at == a;
            assert both[i].at == a;
          }
        }
      }
    }

    lemma UnitMisses(g: nat, h: nat, e: nat)
      requires Sound() && g < units && h < units && e < width && g != h
      ensures !Touches(Unit(g), place(h, e))
    {
    }

    lemma {:induction false} StoresHold(mem: seq<bv8>, lo: nat, hi: nat)
      requires Sound() && lo <= hi <= units && |mem| == units * width
      ensures InBounds(Stores(lo, hi), |mem|) && Holds(Perform(mem, Stores(lo, hi)), lo, hi)
      decreases hi - lo
    {
      hide Sound, Unit, Holds, InBounds, Perform;
      StoresInBounds(lo, hi);
      if lo == hi {
        EmptyTrace(mem);
        NothingHeld(mem, lo);
      }
      if lo < hi {
        var n := hi - 1;
        StoresHold(mem, lo, n);
        UnitHolds(Perform(mem, Stores(lo, n)), lo, n);
        PerformOfBoth(mem, Stores(lo, n), Unit(n));
      }
    }

    lemma NothingHeld(mem: seq<bv8>, lo: nat)
      ensures Holds(mem, lo, lo)
    {
    }

    lemma UnitHolds(mem: seq<bv8>, lo: nat, n: nat)
      requires Sound() && lo <= n < units && |mem| == units * width && Holds(mem, lo, n)
      ensures InBounds(Unit(n), |mem|) && Holds(Perform(mem, Unit(n)), lo, n + 1)
    {
      var now := Perform(mem, Unit(n));
      forall g: nat, o: nat | lo <= g < n + 1 && o < width
        ensures place(g, o) < |now| && now[place(g, o)] == value(g, o)
      {
        if g < n {
          UnitMisses(n, g, o);
          PerformUntouched(mem, Unit(n), place(g, o));
        } else {
          PerformLands(mem, Unit(n), o);
        }
      }
    }

    /** A worker that runs the stores of some units puts exactly those units in place. */
    lemma StoresWrite(mem: seq<bv8>, lo: nat, hi: nat)
      requires Sound() && lo <= hi <= units && |mem| == units * width
      ensures InBounds(Stores(lo, hi), |mem|) && Wrote(Perform(mem, Stores(lo, hi)), mem, lo, hi)
    {
      hide Sound, Stores, Owns, Touches;
      StoresHold(mem, lo, hi);
      forall a: nat | a < |mem| && !Owns(lo, hi, a) ensures Perform(mem, Stores(lo, hi))[a] == mem[a] {
        StoresTouch(lo, hi, a);
        PerformUntouched(mem, Stores(lo, hi), a);
      }
    }

    /** `chunks_mut` cuts `n` rows of `unit` units into chunks of `per` rows, the last one shorter,
        and each worker gets one. */
    function Workers(n: nat, unit: nat, per: nat): (r: seq<Program>)
      requires units == n * unit && per > 0
      ensures |r| == CeilDiv(n, per)
    {
      seq(CeilDiv(n, per), u requires 0 <= u =>
        ChunksAscend(u, u + 1, n, unit, per);
        Stores(ChunkStart(u, n, unit, per), ChunkStart(u + 1, n, unit, per)))
    }

    /** The workers' stores all fall into the buffer, and no two workers touch the same byte. */
    lemma WorkersAreDisjoint(n: nat, unit: nat, per: nat)
      requires Sound() && units == n * unit && per > 0
      ensures AllInBounds(Workers(n, unit, per), units * width) && Disjoint(Workers(n, unit, per))
    {
      hide ChunkStart;
      var programs := Workers(n, unit, per);
      forall u | 0 <= u < |programs| ensures InBounds(programs[u], units * width) {
        ChunksAscend(u, u + 1, n, unit, per);
        StoresInBounds(ChunkStart(u, n, unit, per), ChunkStart(u + 1, n, unit, per));
      }
      forall u, v, a | 0 <= u < |programs| && 0 <= v < |programs| && u != v && Touches(programs[u], a)
        ensures !Touches(programs[v], a)
      {
        ChunksApart(n, unit, per, Min(u, v), Max(u, v), a);
      }
    }

    lemma ChunksApart(n: nat, unit: nat, per: nat, u: nat, v: nat, a: nat)
      requires Sound() && units == n * unit && per > 0 && u < v < CeilDiv(n, per)
      ensures !(Touches(Workers(n, unit, per)[u], a) && Touches(Workers(n, unit, per)[v], a))
    {
      hide ChunkStart;
      ChunksAscend(u, u + 1, n, unit, per);
      ChunksAscend(u + 1, v, n, unit, per);
      ChunksAscend(v, v + 1, n, unit, per);
      StoresTouch(ChunkStart(u, n, unit, per), ChunkStart(u + 1, n, unit, per), a);
      StoresTouch(ChunkStart(v, n, unit, per), ChunkStart(v + 1, n, unit, per), a);
    }

    lemma {:induction false} ChunksJoin(n: nat, unit: nat, per: nat, c: nat)
      requires units == n * unit && per > 0 && c <= CeilDiv(n, per)
      ensures InTurn(Workers(n, unit, per)[..c]) == Stores(0, ChunkStart(c, n, unit, per))
    {
      var programs := Workers(n, unit, per);
      if c == 0 {
        assert programs[..0] == [];
        assert ChunkStart(0, n, unit, per) == 0;
      } else {
        ChunksJoin(n, unit, per, c - 1);
        assert programs[..c][..c - 1] == programs[..c - 1];
        ChunksAscend(c - 1, c, n, unit, per);
        StoresJoin(0, ChunkStart(c - 1, n, unit, per), ChunkStart(c, n, unit, per));
      }
    }

    /** The chunks in turn are the whole loop. */
    lemma WorkersInTurn(n: nat, unit: nat, per: nat)
      requires units == n * unit && per > 0
      ensures InTurn(Workers(n, unit, per)) == Stores(0, units)
    {
      var c := CeilDiv(n, per);
      ChunksJoin(n, unit, per, c);
      assert Workers(n, unit, per)[..c] == Workers(n, unit, per);
      DivParts(n + per - 1, per);
    }

    /** However many workers share the job and however their stores interleave, no two touch the
        same byte, and together they leave what the one loop over all units leaves: every unit in
        place. */
    lemma EveryInterleavingFills(n: nat, unit: nat, per: nat, mem: seq<bv8>, schedule: seq<nat>)
      requires Sound() && units == n * unit && per > 0 && |mem| == units * width
      requires AllInBounds(Workers(n, unit, per), |mem|)
      requires Joined(Workers(n, unit, per), Interleave(Workers(n, unit, per), mem, schedule))
      ensures Disjoint(Workers(n, unit, per)) && InBounds(Stores(0, units), |mem|)
      ensures Interleave(Workers(n, unit, per), mem, schedule).mem == Perform(mem, Stores(0, units))
      ensures Wrote(Interleave(Workers(n, unit, per), mem, schedule).mem, mem, 0, units)
    {
      hide Sound, Wrote, Stores;
      WorkersAreDisjoint(n, unit, per);
      EveryScheduleIsSequential(Workers(n, unit, per), mem, schedule);
      WorkersInTurn(n, unit, per);
      StoresWrite(mem, 0, units);
    }
  }

  /** Where worker `u`'s chunk starts when each worker gets `per` of the `n` rows. */
  function ChunkStart(u: nat, n: nat, unit: nat, per: nat): nat { Min(u * per, n) * unit }

  lemma ChunksAscend(u: nat, v: nat, n: nat, unit: nat, per: nat)
    requires u <= v
    ensures ChunkStart(u, n, unit, per) <= ChunkStart(v, n, unit, per) <= n * unit
  {
    MulMono(u, v, per);
    MulMono(Min(u * per, n), Min(v * per, n), unit);
    MulMono(Min(v * per, n), n, unit);
  }

  lemma EmptyTrace(mem: seq<bv8>)
    ensures InBounds([], |mem|) && Perform(mem, []) == mem
  {
  }

  /** One store of a loop, noted in the loop's trace. */
  method Put(out: array<bv8>, at: nat, value: bv8, ghost was: seq<bv8>, ghost trace: Program)
    returns (ghost longer: Program)
    requires at < out.Length == |was| && InBounds(trace, |was|) && out[..] == Perform(was, trace)
    modifies out
    ensures longer == trace + [Store(at, value)]
    ensures out[..] == old(out[..])[at := value]
    ensures InBounds(longer, |was|) && out[..] == Perform(was, longer)
  {
    out[at] := value;
    longer := trace + [Store(at, value)];
    PerformMore(was, trace, Store(at, value));
  }
}
