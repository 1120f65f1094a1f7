/** Windows into one shared allocation: clamped, nested, split and retyped, and the copies that go
    through them (crates/cpu/src/buffer.rs). */
module DeviceWindows {
  import opened Arith
  import opened Bytes
  import opened Options

  datatype Bound = Included(at: nat) | Excluded(at: nat) | Unbounded

  datatype Range = Range(start: Bound, end: Bound)

  /** `len` elements of `size` bytes each, the first of them `off` elements into the allocation. */
  datatype Window = Window(off: nat, len: nat, size: nat)

  /** Where a range starts, and how many of the `cap` elements it holds. The start is not clamped. */
  datatype Span = Span(start: nat, count: nat)

  function Start(r: Range): nat {
    match r.start
    case Included(s) => s
    case Excluded(s) => s + 1
    case Unbounded => 0
  }

  function End(r: Range, cap: nat): nat {
    match r.end
    case Included(e) => Min(e + 1, cap)
    case Excluded(e) => Min(e, cap)
    case Unbounded => cap
  }

  function Resolve(r: Range, cap: nat): Span {
    Span(Start(r), Max(End(r, cap) - Start(r), 0))
  }

  function Slice(w: Window, r: Range): Window {
    var s := Resolve(r, w.len);
    Window(w.off + s.start, s.count, w.size)
  }

  function Below(mid: nat): Range {
    Range(Unbounded, Excluded(mid))
  }

  function From(mid: nat): Range {
    Range(Included(mid), Unbounded)
  }

  /** Splitting a mutable window clamps the middle; splitting a buffer resolves two ranges. */
  function SplitAtMut(w: Window, mid: nat): (Window, Window) {
    var m := Min(mid, w.len);
    (Window(w.off, m, w.size), Window(w.off + m, w.len - m, w.size))
  }

  function SplitAt(w: Window, mid: nat): (Window, Window) {
    (Slice(w, Below(mid)), Slice(w, From(mid)))
  }

  /** Retyping a window: it has to fit, and to start on a multiple of the new size. */
  function Transmute(w: Window, n: nat, size: nat): Option<Window>
    requires size > 0
  {
    if n * size > w.len * w.size || w.off * w.size % size != 0 then None
    else Some(Window(w.off * w.size / size, n, size))
  }

  /** Retyping a whole buffer checks the allocation only. */
  function TransmuteBuffer(allocation: nat, n: nat, size: nat): Option<Window> {
    if n * size > allocation then None else Some(Window(0, n, size))
  }

  // ---- what a window covers --------------------------------------------------

  function First(w: Window): nat {
    w.off * w.size
  }

  function Width(w: Window): nat {
    w.len * w.size
  }

  ghost predicate Inside(w: Window, allocation: nat) {
    w.size > 0 && (w.len > 0 ==> First(w) + Width(w) <= allocation)
  }

  /** A nonempty window lies inside another's bytes. */
  ghost predicate Within(v: Window, w: Window) {
    v.len > 0 ==> w.len > 0 && First(w) <= First(v) && First(v) + Width(v) <= First(w) + Width(w)
  }

  function Contents(mem: seq<byte>, w: Window): (r: seq<byte>)
    requires Inside(w, |mem|)
    ensures |r| == Width(w)
  {
    if w.len == 0 then [] else mem[First(w)..First(w) + Width(w)]
  }

  function Element(mem: seq<byte>, w: Window, i: nat): seq<byte>
    requires Inside(w, |mem|) && i < w.len
  {
    Flat(i, w.len, w.size - 1, w.size);
    Contents(mem, w)[i * w.size..i * w.size + w.size]
  }

  /** A slice's elements are the window's, from the start of the range to its end or the window's,
      whichever comes first. */
  lemma SliceIsClampedRange(mem: seq<byte>, w: Window, r: Range)
    requires Inside(w, |mem|)
    ensures Slice(w, r).len == if Start(r) < End(r, w.len) then End(r, w.len) - Start(r) else 0
    ensures Within(Slice(w, r), w) && Inside(Slice(w, r), |mem|)
    ensures forall i | 0 <= i < Slice(w, r).len :: Element(mem, Slice(w, r), i) == Element(mem, w, Start(r) + i)
  {
    var v := Slice(w, r);
    if v.len > 0 {
      SliceSpan(w, Start(r), v.len);
      forall i | 0 <= i < v.len ensures Element(mem, v, i) == Element(mem, w, Start(r) + i) {
        SliceElement(mem, w, v, Start(r), i);
      }
    }
  }

  /** An element is in a slice exactly when it is in the window and neither bound shuts it out. */
  lemma SliceHoldsExactly(w: Window, r: Range, i: nat)
    requires i < w.len
    ensures Slice(w, r).off <= w.off + i < Slice(w, r).off + Slice(w, r).len <==>
              && (r.start.Included? ==> r.start.at <= i) && (r.start.Excluded? ==> r.start.at < i)
              && (r.end.Included? ==> i <= r.end.at) && (r.end.Excluded? ==> i < r.end.at)
  {
  }

  lemma SliceSpan(w: Window, start: nat, count: nat)
    requires start + count <= w.len && count > 0
    ensures (w.off + start) * w.size == First(w) + start * w.size
    ensures First(w) <= First(w) + start * w.size
    ensures start * w.size + count * w.size <= Width(w)
  {
    MulMono(0, start, w.size);
    MulMono(start + count, w.len, w.size);
    assert (start + count) * w.size == start * w.size + count * w.size;
    assert (w.off + start) * w.size == w.off * w.size + start * w.size;
  }

  lemma SliceOfSlice(mem: seq<byte>, a: nat, b: nat, c: nat, d: nat)
    requires a <= b <= |mem| && c <= d <= b - a
    ensures mem[a..b][c..d] == mem[a + c..a + d]
  {
    var x, y := mem[a..b][c..d], mem[a + c..a + d];
    assert |x| == |y| && forall i | 0 <= i < |x| :: x[i] == y[i];
  }

  /** Element `i` of a window, in the allocation's own bytes. */
  lemma ElementAt(mem: seq<byte>, w: Window, i: nat, at: nat)
    requires Inside(w, |mem|) && i < w.len && at == First(w) + i * w.size
    ensures at + w.size <= |mem| && Element(mem, w, i) == mem[at..at + w.size]
  {
    Flat(i, w.len, w.size - 1, w.size);
    SliceOfSlice(mem, First(w), First(w) + Width(w), i * w.size, i * w.size + w.size);
  }

  lemma SliceElement(mem: seq<byte>, w: Window, v: Window, start: nat, i: nat)
    requires Inside(w, |mem|) && Inside(v, |mem|) && v == Window(w.off + start, v.len, w.size)
    requires start + v.len <= w.len && i < v.len
    ensures Element(mem, v, i) == Element(mem, w, start + i)
  {
    hide Element, Contents;
    assert (w.off + start) * w.size + i * w.size == w.off * w.size + (start + i) * w.size;
    var at := First(w) + (start + i) * w.size;
    ElementAt(mem, w, start + i, at);
    ElementAt(mem, v, i, at);
  }

  /** A retyped window starts at the same byte and covers the first of the same bytes. */
  lemma TransmuteKeepsBytes(mem: seq<byte>, w: Window, n: nat, size: nat)
    requires Inside(w, |mem|) && size > 0 && n * size <= Width(w) && First(w) % size == 0
    ensures Transmute(w, n, size).Some?
    ensures var v := Transmute(w, n, size).value;
            && v.len == n && v.size == size && Inside(v, |mem|) && Within(v, w) && First(v) == First(w)
            && Width(v) <= Width(w) && Contents(mem, v) == Contents(mem, w)[..Width(v)]
  {
    var v := Transmute(w, n, size).value;
    DivParts(w.off * w.size, size);
    assert First(v) == First(w);
    if n > 0 {
      MulMono(1, n, size);
      assert w.len == 0 ==> Width(w) == 0;
    }
  }

  /** One that is too long for the window's bytes, or starts between two elements, is refused. */
  lemma MisfitIsRefused(w: Window, n: nat, size: nat)
    requires size > 0
    ensures Transmute(w, n, size).None? <==> n * size > Width(w) || First(w) % size != 0
  {
  }

  // ---- chains ----------------------------------------------------------------

  datatype Op = SliceBy(r: Range) | TakeLow(mid: nat) | TakeHigh(mid: nat) | MutLow(mid: nat) | MutHigh(mid: nat)
              | Retype(n: nat, size: nat)

  function Apply(w: Window, op: Op): Option<Window> {
    match op
    case SliceBy(r) => Some(Slice(w, r))
    case TakeLow(mid) => Some(SplitAt(w, mid).0)
    case TakeHigh(mid) => Some(SplitAt(w, mid).1)
    case MutLow(mid) => Some(SplitAtMut(w, mid).0)
    case MutHigh(mid) => Some(SplitAtMut(w, mid).1)
    case Retype(n, size) => if size > 0 then Transmute(w, n, size) else None
  }

  function Chain(w: Window, ops: seq<Op>): Option<Window> {
    if ops == [] then Some(w)
    else
      var before := Chain(w, ops[..|ops| - 1]);
      if before.None? then None else Apply(before.value, ops[|ops| - 1])
  }

  lemma ApplyStaysWithin(w: Window, op: Op)
    requires w.size > 0 && Apply(w, op).Some?
    ensures Apply(w, op).value.size > 0 && Within(Apply(w, op).value, w)
  {
    var v := Apply(w, op).value;
    if op.Retype? {
      DivParts(w.off * w.size, op.size);
      assert First(v) == First(w);
      assert w.len == 0 ==> Width(w) == 0;
      if v.len > 0 {
        MulMono(1, v.len, op.size);
      }
    } else if v.len > 0 {
      SliceSpan(w, v.off - w.off, v.len);
    }
  }

  /** Through any chain of slices, splits and retypings, a nonempty window stays inside the bytes of
      the window the chain began with. */
  lemma {:induction false} ChainStaysWithin(w: Window, ops: seq<Op>)
    requires w.size > 0 && Chain(w, ops).Some?
    ensures Chain(w, ops).value.size > 0 && Within(Chain(w, ops).value, w)
  {
    hide Apply, First, Width;
    if ops != [] {
      ChainStaysWithin(w, ops[..|ops| - 1]);
      ApplyStaysWithin(Chain(w, ops[..|ops| - 1]).value, ops[|ops| - 1]);
    }
  }

  /** So its contents are a run of that window's contents. */
  lemma ChainReadsAnExcerpt(mem: seq<byte>, w: Window, ops: seq<Op>, v: Window)
    requires Inside(w, |mem|) && Chain(w, ops) == Some(v)
    ensures Inside(v, |mem|)
    ensures v.len > 0 ==> First(w) <= First(v) && First(v) - First(w) + Width(v) <= Width(w)
    ensures v.len > 0 ==> Contents(mem, v) == Contents(mem, w)[First(v) - First(w)..First(v) - First(w) + Width(v)]
  {
    ChainStaysWithin(w, ops);
    hide Chain, First, Width;
    if v.len > 0 {
      SliceOfSlice(mem, First(w), First(w) + Width(w), First(v) - First(w), First(v) - First(w) + Width(v));
    }
  }

  /** Two windows share no byte. */
  ghost predicate Disjoint(v: Window, w: Window) {
    v.len > 0 && w.len > 0 ==> First(v) + Width(v) <= First(w) || First(w) + Width(w) <= First(v)
  }

  /** A mutable split is disjoint and covers the window, wherever the middle is asked to be. */
  lemma MutableSplitCovers(mem: seq<byte>, w: Window, mid: nat)
    requires Inside(w, |mem|)
    ensures var (lo, hi) := SplitAtMut(w, mid);
            && Inside(lo, |mem|) && Inside(hi, |mem|) && Disjoint(lo, hi)
            && Contents(mem, lo) + Contents(mem, hi) == Contents(mem, w)
            && lo.size == hi.size == w.size && lo.len == Min(mid, w.len) && lo.len + hi.len == w.len
  {
    var m := Min(mid, w.len);
    var (lo, hi) := SplitAtMut(w, mid);
    SplitWidths(w, m);
    NonEmptyWidth(lo);
    NonEmptyWidth(hi);
    NonEmptyWidth(w);
    hide First, Width;
    if w.len > 0 {
      SlicesJoin(mem, First(w), First(w) + Width(lo), First(w) + Width(w));
    }
  }

  lemma SplitWidths(w: Window, m: nat)
    requires m <= w.len
    ensures First(Window(w.off + m, w.len - m, w.size)) == First(w) + Width(Window(w.off, m, w.size))
    ensures Width(Window(w.off, m, w.size)) + Width(Window(w.off + m, w.len - m, w.size)) == Width(w)
  {
    assert (w.off + m) * w.size == w.off * w.size + m * w.size;
    assert (w.len - m) * w.size == w.len * w.size - m * w.size;
  }

  /** A buffer's split, which clamps nothing but the end, covers the buffer just the same: past the
      end the upper half is empty. */
  lemma BufferSplitCovers(mem: seq<byte>, w: Window, mid: nat)
    requires Inside(w, |mem|)
    ensures var (lo, hi) := SplitAt(w, mid);
            && Inside(lo, |mem|) && Inside(hi, |mem|) && Disjoint(lo, hi)
            && Contents(mem, lo) + Contents(mem, hi) == Contents(mem, w)
            && lo.size == hi.size == w.size && lo.len == Min(mid, w.len) && lo.len + hi.len == w.len
  {
    MutableSplitCovers(mem, w, mid);
    var (lo, hi) := SplitAt(w, mid);
    assert lo == SplitAtMut(w, mid).0;
    assert hi == SplitAtMut(w, mid).1 || (hi.len == 0 && SplitAtMut(w, mid).1.len == 0);
  }

  /** A retyped buffer stays inside the allocation, but not inside the buffer: an allocation is never
      shorter than one byte, and an empty buffer can be retyped to that byte. */
  lemma TransmuteBufferStaysInAllocation(len: nat, size: nat, n: nat, newSize: nat)
    requires newSize > 0
    ensures TransmuteBuffer(Max(len * size, 1), n, newSize).Some? <==> n * newSize <= Max(len * size, 1)
    ensures n * newSize <= Max(len * size, 1) ==>
            var v := TransmuteBuffer(Max(len * size, 1), n, newSize).value;
            && v == Window(0, n, newSize) && Inside(v, Max(len * size, 1))
            && (Width(v) <= len * size <==> !(len * size == 0 && n * newSize == 1))
  {
    assert len * size >= 0;
  }

  // ---- copies ----------------------------------------------------------------

  /** Memory after `data` has been written at `at`. */
  function Over(mem: seq<byte>, at: nat, data: seq<byte>): (r: seq<byte>)
    requires data != [] ==> at + |data| <= |mem|
    ensures |r| == |mem|
  {
    if data == [] then mem else mem[..at] + data + mem[at + |data|..]
  }

  /** The first bytes of a window, as far as a shorter source needs. */
  function Head(w: Window, n: nat): Window {
    Window(w.off, n, w.size)
  }

  method WriteBytes(raw: array<byte>, at: nat, data: seq<byte>)
    requires data != [] ==> at + |data| <= raw.Length
    modifies raw
    ensures raw[..] == Over(old(raw[..]), at, data)
  {
    for i := 0 to |data|
      invariant forall j | 0 <= j < i :: raw[at + j] == data[j]
      invariant forall j | 0 <= j < raw.Length && !(at <= j < at + i) :: raw[j] == old(raw[j])
    {
      raw[at + i] := data[i];
    }
    hide Over;
    ghost var after := Over(old(raw[..]), at, data);
    assert forall j | 0 <= j < raw.Length :: raw[..][j] == after[j];
  }

  /** Device to device. Both windows may lie in one allocation, and overlap. */
  method MemcpyDtod(srcRaw: array<byte>, src: Window, dstRaw: array<byte>, dst: Window) returns (ok: bool)
    requires src.size == dst.size && Inside(src, srcRaw.Length) && Inside(dst, dstRaw.Length)
    modifies dstRaw
    ensures ok <==> src.len <= dst.len
    ensures !ok ==> dstRaw[..] == old(dstRaw[..])
    ensures ok ==> Inside(Head(dst, src.len), dstRaw.Length)
    ensures ok ==> dstRaw[..] == Over(old(dstRaw[..]), First(dst), Contents(old(srcRaw[..]), src))
    ensures ok ==> Contents(dstRaw[..], Head(dst, src.len)) == Contents(old(srcRaw[..]), src)
  {
    if src.len > dst.len {
      return false;
    }
    MulMono(src.len, dst.len, src.size);
    NonEmptyWidth(src);
    var taken := Contents(srcRaw[..], src);
    WriteBytes(dstRaw, First(dst), taken);
    return true;
  }

  lemma NonEmptyWidth(w: Window)
    requires w.size > 0
    ensures w.len == 0 <==> Width(w) == 0
  {
    if w.len > 0 {
      MulMono(1, w.len, w.size);
    }
  }

  /** Host to device, of `n` elements. */
  method CopyInto(raw: array<byte>, dst: Window, src: seq<byte>, n: nat) returns (ok: bool)
    requires Inside(dst, raw.Length) && |src| == n * dst.size
    modifies raw
    ensures ok <==> n <= dst.len
    ensures !ok ==> raw[..] == old(raw[..])
    ensures ok ==> Inside(Head(dst, n), raw.Length)
    ensures ok ==> raw[..] == Over(old(raw[..]), First(dst), src)
    ensures ok ==> Contents(raw[..], Head(dst, n)) == src
  {
    if n > dst.len {
      return false;
    }
    MulMono(n, dst.len, dst.size);
    NonEmptyWidth(Head(dst, n));
    WriteBytes(raw, First(dst), src);
    return true;
  }

  /** Device to host, into a slice that has room for `room` elements. */
  method MemcpyDtoh(raw: array<byte>, src: Window, host: array<byte>, room: nat) returns (ok: bool)
    requires raw != host && Inside(src, raw.Length) && host.Length == room * src.size
    modifies host
    ensures ok <==> src.len <= room
    ensures !ok ==> host[..] == old(host[..])
    ensures ok ==> Width(src) <= host.Length
    ensures ok ==> host[..] == Over(old(host[..]), 0, Contents(raw[..], src))
  {
    if src.len > room {
      return false;
    }
    MulMono(src.len, room, src.size);
    var taken := Contents(raw[..], src);
    WriteBytes(host, 0, taken);
    return true;
  }

  method MemsetZeros(raw: array<byte>, dst: Window)
    requires Inside(dst, raw.Length)
    modifies raw
    ensures raw[..] == Over(old(raw[..]), First(dst), seq(Width(dst), i => 0))
  {
    NonEmptyWidth(dst);
    WriteBytes(raw, First(dst), seq(Width(dst), i => 0));
  }

  /** Writing through one window leaves what a disjoint window reads as it was. */
  lemma DisjointWindowsDoNotInterfere(mem: seq<byte>, v: Window, w: Window, data: seq<byte>)
    requires Inside(v, |mem|) && Inside(w, |mem|) && Disjoint(v, w) && |data| <= Width(v)
    ensures data != [] ==> First(v) + |data| <= |mem|
    ensures Contents(Over(mem, First(v), data), w) == Contents(mem, w)
  {
    NonEmptyWidth(v);
    hide First, Width;
  }
}
