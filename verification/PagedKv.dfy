/** Addressing a paged key/value cache through a slot table, and flat from a base slot; and the
    scratch buffers a launch reuses (crates/kernels/src/flash_attn2.rs). */
module PagedKv {
  import opened Arith
  import opened Options

  /** Which sequence each row belongs to, and for each sequence a stretch of the table of slots. */
  datatype Batch = Batch(seqOf: seq<nat>, stride: nat, table: seq<int>)

  /** The shape of one layer's cache: heads, then slots, then dimensions. */
  datatype Shape = Shape(heads: nat, slots: nat, dHead: nat)

  /** What the device library does with a window that reaches past its buffer. */
  datatype PastTheEnd = CutShort | Abort

  /** The `n` entries from `from` on; `None` is an abort. */
  function Window<T>(buffer: seq<T>, from: nat, n: nat, rule: PastTheEnd): (r: Option<seq<T>>)
    ensures from + n <= |buffer| ==> r == Some(buffer[from..from + n])
    ensures r.Some? && rule.Abort? ==> from + n <= |buffer|
  {
    if from + n <= |buffer| then Some(buffer[from..from + n])
    else if rule.Abort? then None
    else Some(buffer[Min(from, |buffer|)..])
  }

  /** The sequence of the first row, read through a window of one entry. */
  function FirstSequence(b: Batch, rule: PastTheEnd): Option<nat> {
    match Window(b.seqOf, 0, 1, rule)
    case None => None
    case Some(first) => if first == [] then None else Some(first[0])
  }

  /** The first `n` slots of the first row's sequence. */
  function SlotsOf(b: Batch, n: nat, rule: PastTheEnd): Option<seq<int>> {
    match FirstSequence(b, rule)
    case None => None
    case Some(sid) => Window(b.table, sid * b.stride, n, rule)
  }

  const HALF_WORD: int := 0x8000_0000

  /** 32-bit addition of slot numbers. */
  function Wrap(x: int): int {
    (x + HALF_WORD) % (2 * HALF_WORD) - HALF_WORD
  }

  predicate AreWords(slots: seq<int>) {
    forall i | 0 <= i < |slots| :: -HALF_WORD <= slots[i] < HALF_WORD
  }

  predicate Consecutive(slots: seq<int>) {
    forall i | 0 <= i < |slots| :: SlotAt(slots, i) == slots[0] + i
  }

  function SlotAt(slots: seq<int>, i: nat): int
    requires i < |slots|
  {
    slots[i]
  }

  /** The test itself, in 32-bit arithmetic. */
  predicate TestedConsecutive(slots: seq<int>) {
    forall i | 0 <= i < |slots| :: SlotAt(slots, i) == Wrap(slots[0] + i)
  }

  /** The sums that the test compares with do not wrap around. */
  predicate Unwrapped(slots: seq<int>) {
    slots == [] || slots[0] + |slots| <= HALF_WORD
  }

  /** Slots are consecutive exactly when they pass the test and its sums do not wrap around. */
  lemma TestIsRightIff(slots: seq<int>)
    requires AreWords(slots)
    ensures Consecutive(slots) <==> TestedConsecutive(slots) && Unwrapped(slots)
  {
    if Consecutive(slots) {
      assert slots != [] ==> SlotAt(slots, |slots| - 1) == slots[0] + (|slots| - 1);
      forall i | 0 <= i < |slots| ensures SlotAt(slots, i) == Wrap(slots[0] + i) {
        assert SlotAt(slots, i) == slots[0] + i;
      }
    } else if Unwrapped(slots) {
      var i :| 0 <= i < |slots| && SlotAt(slots, i) != slots[0] + i;
      assert Wrap(slots[0] + i) == slots[0] + i;
    }
  }

  /** A table of slot numbers, none of them negative, never passes the test by wrapping around. */
  lemma SlotsNeverWrap(slots: seq<int>)
    requires AreWords(slots) && forall i | 0 <= i < |slots| :: slots[i] >= 0
    ensures TestedConsecutive(slots) ==> Unwrapped(slots)
  {
    if slots != [] && slots[0] + |slots| > HALF_WORD {
      var i := HALF_WORD - slots[0];
      assert SlotAt(slots, i) >= 0 && Wrap(slots[0] + i) < 0;
    }
  }

  /** With a negative number in the table the test can be fooled: the sum wraps around to it. */
  lemma WrapIsMissed()
    ensures var slots := [HALF_WORD - 1, -HALF_WORD];
            AreWords(slots) && TestedConsecutive(slots) && !Consecutive(slots)
  {
    var slots := [HALF_WORD - 1, -HALF_WORD];
    assert SlotAt(slots, 1) != slots[0] + 1;
  }

  /** What the test answers; `None` is an abort. */
  function KvRunIsContiguous(b: Batch, kvLen: nat, rule: PastTheEnd): Option<bool> {
    match SlotsOf(b, kvLen, rule)
    case None => None
    case Some(slots) => Some(slots == [] || TestedConsecutive(slots))
  }

  /** Where the table says dimension `dim` of position `pos` is kept for `head`. */
  function TableAddress(s: Shape, slots: seq<int>, head: nat, pos: nat, dim: nat): int
    requires pos < |slots|
  {
    (head * s.slots + slots[pos]) * s.dHead + dim
  }

  /** Where flat addressing looks: from the base slot of head zero, a whole pool per head, one row
      per position. */
  function FlatAddress(s: Shape, base: int, head: nat, pos: nat, dim: nat): int {
    base * s.dHead + head * (s.slots * s.dHead) + pos * s.dHead + dim
  }

  lemma AddressDifference(s: Shape, slots: seq<int>, base: int, head: nat, pos: nat, dim: nat)
    requires pos < |slots|
    ensures FlatAddress(s, base, head, pos, dim) - TableAddress(s, slots, head, pos, dim) ==
            (base + pos - slots[pos]) * s.dHead
  {
    assert head * (s.slots * s.dHead) == head * s.slots * s.dHead;
    assert (head * s.slots + slots[pos]) * s.dHead == head * s.slots * s.dHead + slots[pos] * s.dHead;
    assert (base + pos - slots[pos]) * s.dHead == base * s.dHead + pos * s.dHead - slots[pos] * s.dHead;
  }

  /** The pool starts with dimension zero of slot zero of head zero; the next dimension is one element
      further, the next slot a row and the next head a whole run of slots. */
  lemma TableStrides(s: Shape, slots: seq<int>, head: nat, pos: nat, next: nat, dim: nat)
    requires pos < |slots| && next < |slots| && slots[next] == slots[pos] + 1
    ensures TableAddress(s, slots, head, pos, dim + 1) == TableAddress(s, slots, head, pos, dim) + 1
    ensures TableAddress(s, slots, head, next, dim) == TableAddress(s, slots, head, pos, dim) + s.dHead
    ensures TableAddress(s, slots, head + 1, pos, dim) == TableAddress(s, slots, head, pos, dim) + s.slots * s.dHead
    ensures slots[pos] == 0 ==> TableAddress(s, slots, 0, pos, 0) == 0
  {
    var row := head * s.slots + slots[pos];
    assert (row + 1) * s.dHead == row * s.dHead + s.dHead;
    assert (head + 1) * s.slots == head * s.slots + s.slots;
    assert (row + s.slots) * s.dHead == row * s.dHead + s.slots * s.dHead;
  }

  ghost predicate Agree(s: Shape, slots: seq<int>, base: int) {
    forall head: nat, pos: nat, dim: nat | head < s.heads && pos < |slots| && dim < s.dHead ::
      FlatAddress(s, base, head, pos, dim) == TableAddress(s, slots, head, pos, dim)
  }

  /** Flat addressing from the first slot hits the element the table names, for every head, position
      and dimension, exactly when the slots are consecutive. */
  lemma FlatIsTable(s: Shape, slots: seq<int>)
    requires s.heads > 0 && s.dHead > 0 && slots != []
    ensures Agree(s, slots, slots[0]) <==> Consecutive(slots)
  {
    hide FlatAddress, TableAddress;
    if Consecutive(slots) {
      forall head: nat, pos: nat, dim: nat | head < s.heads && pos < |slots| && dim < s.dHead
        ensures FlatAddress(s, slots[0], head, pos, dim) == TableAddress(s, slots, head, pos, dim)
      {
        assert SlotAt(slots, pos) == slots[0] + pos;
        AddressDifference(s, slots, slots[0], head, pos, dim);
      }
    }
    if Agree(s, slots, slots[0]) {
      forall i | 0 <= i < |slots| ensures SlotAt(slots, i) == slots[0] + i {
        assert FlatAddress(s, slots[0], 0, i, 0) == TableAddress(s, slots, 0, i, 0);
        AddressDifference(s, slots, slots[0], 0, i, 0);
      }
    }
  }

  // ---- the launch ------------------------------------------------------------

  datatype Call = Call(batch: Batch, shape: Shape, kvLen: nat, runBase: nat)

  /** Byte offsets into the two caches, an error, or an abort. */
  datatype Launch = Launch(kOffset: int, vOffset: int) | Refused | Panicked

  const ELEM_BYTES := 2

  function Prefill(c: Call, rule: PastTheEnd): Launch {
    if c.runBase != 0 || c.shape.dHead != 256 then Refused
    else
      match KvRunIsContiguous(c.batch, c.kvLen, rule)
      case None => Panicked
      case Some(false) => Refused
      case Some(true) =>
        match SlotsOf(c.batch, 1, rule)
        case None => Panicked
        case Some(first) =>
          if first == [] then Panicked
          else Launch(first[0] * c.shape.dHead * ELEM_BYTES, first[0] * c.shape.dHead * ELEM_BYTES)
  }

  /** The sequence's first `n` positions all have an entry in the table. */
  ghost predicate TableCovers(b: Batch, n: nat) {
    b.seqOf != [] && b.seqOf[0] * b.stride + n <= |b.table|
  }

  /** The entries the table has for them, as far as it goes. */
  ghost function Entries(b: Batch, n: nat): seq<int> {
    if b.seqOf == [] then []
    else
      var from := b.seqOf[0] * b.stride;
      b.table[Min(from, |b.table|)..Min(from + n, |b.table|)]
  }

  /** Whichever way windows past the end go: a launch goes ahead without its sums wrapping around
      exactly when the run's first slot is in the table, flat addressing from it hits the table's element
      for every entry the table has, and, if a window past the end aborts, the table has an entry for
      every position. It then starts at the byte of the run's first element. */
  lemma LaunchIsSound(c: Call, rule: PastTheEnd)
    requires c.runBase == 0 && c.shape.dHead == 256 && c.shape.heads > 0
    requires AreWords(Entries(c.batch, c.kvLen))
    ensures Prefill(c, rule).Launch? && Unwrapped(Entries(c.batch, c.kvLen)) <==>
              && TableCovers(c.batch, 1) && (rule.Abort? ==> TableCovers(c.batch, c.kvLen))
              && Agree(c.shape, Entries(c.batch, c.kvLen), Entries(c.batch, 1)[0])
    ensures Prefill(c, rule).Launch? ==>
              Prefill(c, rule).kOffset == Prefill(c, rule).vOffset
              == ELEM_BYTES * TableAddress(c.shape, Entries(c.batch, 1), 0, 0, 0)
  {
    hide Agree, TestedConsecutive, Consecutive, AreWords, SlotsOf, Entries, TableCovers;
    if c.batch.seqOf == [] {
      NoSlots(c.batch, c.kvLen, rule);
      NoSlots(c.batch, 1, rule);
    } else {
      SlotsAreEntries(c.batch, c.kvLen, rule);
      SlotsAreEntries(c.batch, 1, rule);
      EntriesStart(c.batch, c.kvLen);
      var slots := Entries(c.batch, c.kvLen);
      if TableCovers(c.batch, 1) && slots == [] {
        NothingDisagrees(c.shape, Entries(c.batch, 1)[0]);
      } else if TableCovers(c.batch, 1) {
        TestIsRightIff(slots);
        FlatIsTable(c.shape, slots);
      }
    }
  }

  lemma NoSlots(b: Batch, n: nat, rule: PastTheEnd)
    requires b.seqOf == []
    ensures SlotsOf(b, n, rule) == None && !TableCovers(b, n)
  {
  }

  lemma SlotsAreEntries(b: Batch, n: nat, rule: PastTheEnd)
    requires b.seqOf != []
    ensures SlotsOf(b, n, rule) == if rule.Abort? && !TableCovers(b, n) then None else Some(Entries(b, n))
  {
    assert FirstSequence(b, rule) == Some(b.seqOf[0]);
    assert b.table[Min(b.seqOf[0] * b.stride, |b.table|)..] ==
           b.table[Min(b.seqOf[0] * b.stride, |b.table|)..|b.table|];
  }

  /** One entry is in the table when any is, and it is the first. */
  lemma EntriesStart(b: Batch, n: nat)
    requires b.seqOf != []
    ensures Entries(b, 1) != [] <==> TableCovers(b, 1)
    ensures Entries(b, n) != [] ==> Entries(b, 1) != [] && Entries(b, n)[0] == Entries(b, 1)[0]
  {
  }

  lemma NothingDisagrees(s: Shape, base: int)
    ensures Agree(s, [], base)
  {
  }

  /** Every element a sound launch reads lies in the pool, when the run's slots do. */
  lemma FlatStaysInPool(s: Shape, slots: seq<int>, head: nat, pos: nat, dim: nat)
    requires slots != [] && Consecutive(slots) && head < s.heads && pos < |slots| && dim < s.dHead
    requires forall i | 0 <= i < |slots| :: 0 <= slots[i] < s.slots
    ensures 0 <= FlatAddress(s, slots[0], head, pos, dim) < s.heads * s.slots * s.dHead
  {
    assert SlotAt(slots, pos) == slots[0] + pos;
    AddressDifference(s, slots, slots[0], head, pos, dim);
    hide FlatAddress;
    Flat(head, s.heads, slots[pos], s.slots);
    Flat(head * s.slots + slots[pos], s.heads * s.slots, dim, s.dHead);
  }

  // ---- scratch ---------------------------------------------------------------

  /** What a buffer of so many elements, or none yet, becomes when `n` are needed. */
  function Grown(had: Option<nat>, n: nat): Option<nat> {
    if had.None? || had.value < n then Some(n) else had
  }

  class Scratch {
    var q16: array?<int>
    var out16: array?<int>
    var lse: array?<int>

    constructor ()
      ensures q16 == null && out16 == null && lse == null
    {
      q16, out16, lse := null, null, null;
    }

    function Capacity(b: array?<int>): Option<nat> {
      if b == null then None else Some(b.Length)
    }

    /** `room` says which of the three allocations would succeed. */
    method EnsureCapacity(nQo: nat, nLse: nat, room: (bool, bool, bool)) returns (ok: bool)
      modifies this
      ensures q16 == old(q16) || (fresh(q16) && Capacity(q16) == Grown(old(Capacity(q16)), nQo))
      ensures out16 == old(out16) || (fresh(out16) && Capacity(out16) == Grown(old(Capacity(out16)), nQo))
      ensures lse == old(lse) || (fresh(lse) && Capacity(lse) == Grown(old(Capacity(lse)), nLse))
      ensures old(Capacity(q16)) == Grown(old(Capacity(q16)), nQo) ==> q16 == old(q16)
      ensures old(Capacity(out16)) == Grown(old(Capacity(out16)), nQo) ==> out16 == old(out16)
      ensures old(Capacity(lse)) == Grown(old(Capacity(lse)), nLse) ==> lse == old(lse)
      ensures ok ==> q16 != null && out16 != null && lse != null
      ensures ok ==> q16.Length >= nQo && out16.Length >= nQo && lse.Length >= nLse
      ensures room == (true, true, true) ==> ok
      ensures old(Capacity(q16)) != Grown(old(Capacity(q16)), nQo) && !room.0 ==>
                !ok && q16 == old(q16) && out16 == old(out16) && lse == old(lse)
      ensures old(Capacity(out16)) != Grown(old(Capacity(out16)), nQo) && !room.1 ==>
                !ok && out16 == old(out16) && lse == old(lse)
      ensures old(Capacity(lse)) != Grown(old(Capacity(lse)), nLse) && !room.2 ==> !ok && lse == old(lse)
    {
      if q16 == null || q16.Length < nQo {
        if !room.0 {
          return false;
        }
        q16 := new int[nQo](i => 0);
      }
      if out16 == null || out16.Length < nQo {
        if !room.1 {
          return false;
        }
        out16 := new int[nQo](i => 0);
      }
      if lse == null || lse.Length < nLse {
        if !room.2 {
          return false;
        }
        lse := new int[nLse](i => 0);
      }
      return true;
    }
  }

  /** A buffer's size after a run of requests, and how often it was allocated. */
  datatype Use = Use(size: Option<nat>, allocations: nat)

  function After(start: Option<nat>, requests: seq<nat>): Use {
    if requests == [] then Use(start, 0)
    else
      var before, n := After(start, requests[..|requests| - 1]), requests[|requests| - 1];
      Use(Grown(before.size, n), before.allocations + if Grown(before.size, n) == before.size then 0 else 1)
  }

  /** A buffer ends up as large as the largest request or what it was, and never smaller on the way;
      if the first request is the largest, it is allocated at most once however many follow. */
  lemma {:induction false} BuffersOnlyGrow(start: Option<nat>, requests: seq<nat>)
    ensures requests != [] ==> After(start, requests).size.Some?
    ensures forall i | 0 <= i < |requests| :: requests[i] <= After(start, requests).size.value
    ensures start.Some? ==> After(start, requests).size.Some? && start.value <= After(start, requests).size.value
    ensures After(start, requests).size == start ||
            exists i :: 0 <= i < |requests| && After(start, requests).size == Some(requests[i])
    ensures requests != [] && (forall i | 0 <= i < |requests| :: requests[i] <= requests[0]) ==>
            After(start, requests).allocations <= 1
    ensures After(start, requests).allocations == 0 ==> After(start, requests).size == start
  {
    if requests != [] {
      var n := |requests| - 1;
      BuffersOnlyGrow(start, requests[..n]);
      var before := After(start, requests[..n]);
      if n > 0 {
        assert requests[..n][0] == requests[0];
        assert requests[0] <= before.size.value;
      }
      if Grown(before.size, requests[n]) == before.size && before.size != start {
        var i :| 0 <= i < n && before.size == Some(requests[..n][i]);
        assert before.size == Some(requests[i]);
      }
    }
  }
}
