/** The three load-time quantizers (crates/kernels/src/awq.rs), over exact reals. */
module AwqQuantize {
  import opened Arith
  import opened Rounding
  import opened Workers
  import opened Q4Block
  import opened AwqLayout

  const BLOCK: nat := 32
  const BYTES: nat := 34

  /** `x.is_multiple_of(y)`. */
  predicate IsMultipleOf(x: nat, y: nat) {
    if y == 0 then x == 0 else x % y == 0
  }

  function CheckShape(len: nat, k: nat, block: nat): Outcome<()>
    requires block > 0
  {
    if k % block != 0 then Refused(RaggedInput(k))
    else if !IsMultipleOf(len, k) then Refused(RaggedRows(len, k))
    else Ok(())
  }

  /** The values of 32 or 128 neighbouring weights. */
  function Values(half: Half, src: seq<bv16>): (r: seq<real>)
    ensures |r| == |src| && forall i | 0 <= i < |src| :: r[i] == half.toReal(src[i])
  {
    seq(|src|, i requires 0 <= i < |src| => half.toReal(src[i]))
  }

  // ---- Q8_0: one block -------------------------------------------------------

  /** The largest magnitude in a block. */
  function AbsMax(x: seq<real>): (m: real)
    ensures m >= 0.0 && forall i | 0 <= i < |x| :: Abs(x[i]) <= m
  {
    if x == [] then 0.0
    else
      var m := AbsMax(x[..|x| - 1]);
      var a := Abs(x[|x| - 1]);
      assert forall i | 0 <= i < |x| - 1 :: x[i] == x[..|x| - 1][i];
      if m < a then a else m
  }

  /** The bound is reached: no smaller number would do. */
  lemma {:induction false} AbsMaxIsReached(x: seq<real>)
    requires x != []
    ensures exists i :: 0 <= i < |x| && Abs(x[i]) == AbsMax(x)
  {
    var front, a := x[..|x| - 1], Abs(x[|x| - 1]);
    if AbsMax(front) < a {
      assert Abs(x[|x| - 1]) == AbsMax(x);
    } else if front == [] {
      assert Abs(x[0]) == AbsMax(x);
    } else {
      AbsMaxIsReached(front);
      var i :| 0 <= i < |front| && Abs(front[i]) == AbsMax(front);
      assert Abs(x[i]) == AbsMax(x);
    }
  }

  function Q8Step(x: seq<real>): (d: real)
    ensures d >= 0.0
  {
    AbsMax(x) / 127.0
  }

  function Q8Code(x: seq<real>, i: nat): (q: int)
    requires i < |x|
    ensures -127 <= q <= 127
  {
    Clamp(Steps(x[i], Inverse(Q8Step(x))), -127, 127)
  }

  /** Half a step at most, and the clamp never bites. */
  lemma Q8Error(x: seq<real>, i: nat)
    requires i < |x|
    ensures Q8Code(x, i) == Steps(x[i], Inverse(Q8Step(x)))
    ensures Abs(x[i] - Q8Code(x, i) as real * Q8Step(x)) <= Q8Step(x) / 2.0
  {
    hide Steps, AbsMax, Inverse;
    assert Abs(x[i]) <= AbsMax(x);
    SymmetricStep(x[i], AbsMax(x), 127, Q8Step(x), Inverse(Q8Step(x)));
  }

  /** The byte whose value is `x`. */
  function ByteOf(x: nat): (b: byte)
    requires x < 256
    ensures b as int == x
  {
    if x == 0 then 0
    else
      var c := ByteOf(x - 1);
      assert c < 255;
      c + 1
  }

  /** `q as i8 as u8`. */
  function SignedByte(q: int): byte
    requires -128 <= q <= 127
  {
    ByteOf(if q >= 0 then q else q + 256)
  }

  function SignedValue(b: byte): int {
    var v := b as int;
    if v < 128 then v else v - 256
  }

  lemma SignedRoundTrip(q: int)
    requires -128 <= q <= 127
    ensures SignedValue(SignedByte(q)) == q
  {
  }

  /** Block `g` of the source. */
  function SrcBlock(half: Half, src: seq<bv16>, g: nat): (x: seq<real>)
    requires g * BLOCK + BLOCK <= |src|
    ensures |x| == BLOCK
  {
    Values(half, src[g * BLOCK..g * BLOCK + BLOCK])
  }

  function StoredStep(half: Half, x: seq<real>): bv16 { half.fromReal(Q8Step(x)) }

  // ---- Q8_0: interleaved layout ----------------------------------------------

  /** Byte `o` of a 34-byte block: the scale, then the 32 codes. */
  function Q8Byte(half: Half, x: seq<real>, o: nat): byte
    requires |x| == BLOCK && o < BYTES
  {
    if o == 0 then LowByte(StoredStep(half, x))
    else if o == 1 then HighByte(StoredStep(half, x))
    else CodeByte(x, o - 2)
  }

  /** The stored form of code `i`. */
  function CodeByte(x: seq<real>, i: nat): byte
    requires i < |x|
  {
    SignedByte(Q8Code(x, i))
  }

  function Interleaved(half: Half, src: seq<bv16>): (r: seq<byte>)
    requires |src| % BLOCK == 0
    ensures |r| == |src| / BLOCK * BYTES
  {
    seq(|src| / BLOCK * BYTES, p requires 0 <= p < |src| / BLOCK * BYTES =>
      Q8Byte(half, SrcBlock(half, src, p / BYTES), p % BYTES))
  }

  function BlockScale(bytes: seq<byte>, g: nat): bv16
    requires g * BYTES + BYTES <= |bytes|
  {
    FromLe(bytes[g * BYTES], bytes[g * BYTES + 1])
  }

  function BlockCode(bytes: seq<byte>, g: nat, i: nat): int
    requires g * BYTES + BYTES <= |bytes| && i < BLOCK
  {
    SignedValue(bytes[g * BYTES + 2 + i])
  }

  lemma InterleavedAt(half: Half, src: seq<bv16>, g: nat, o: nat)
    requires |src| % BLOCK == 0 && g < |src| / BLOCK && o < BYTES
    ensures Interleaved(half, src)[g * BYTES + o] == Q8Byte(half, SrcBlock(half, src, g), o)
  {
    DivMod(g, BYTES, o);
  }

  lemma InterleavedReads(half: Half, src: seq<bv16>, g: nat, i: nat)
    requires |src| % BLOCK == 0 && g < |src| / BLOCK && i < BLOCK
    ensures BlockScale(Interleaved(half, src), g) == StoredStep(half, SrcBlock(half, src, g))
    ensures BlockCode(Interleaved(half, src), g, i) == Q8Code(SrcBlock(half, src, g), i)
  {
    hide FromLe, LowByte, HighByte, SignedByte, SignedValue, Interleaved;
    InterleavedAt(half, src, g, 0);
    InterleavedAt(half, src, g, 1);
    InterleavedAt(half, src, g, 2 + i);
    LeRoundTrip(StoredStep(half, SrcBlock(half, src, g)));
    SignedRoundTrip(Q8Code(SrcBlock(half, src, g), i));
  }

  /** The weight code `i` of block `g` stands for. */
  function BlockValue(half: Half, bytes: seq<byte>, g: nat, i: nat): real
    requires g * BYTES + BYTES <= |bytes| && i < BLOCK
  {
    BlockCode(bytes, g, i) as real * half.toReal(BlockScale(bytes, g))
  }

  /** Half a step, plus what storing the step in half precision costs the largest code. */
  function Q8Bound(half: Half, x: seq<real>): real {
    Q8Step(x) / 2.0 + 127.0 * Abs(half.toReal(StoredStep(half, x)) - Q8Step(x))
  }

  lemma Q8CodeBound(half: Half, x: seq<real>, i: nat, w: real)
    requires i < |x| && w == Q8Code(x, i) as real * half.toReal(StoredStep(half, x))
    ensures Abs(x[i] - w) <= Q8Bound(half, x)
  {
    hide Q8Code, Q8Step, StoredStep;
    Q8Error(x, i);
    StoredStepError(x[i], Q8Code(x, i) as real, Q8Step(x), half.toReal(StoredStep(half, x)), 127.0, Q8Step(x) / 2.0, w);
  }

  /** A weight read back from the quantized tensor is within `Q8Bound` of the original. */
  lemma InterleavedError(half: Half, src: seq<bv16>, g: nat, i: nat)
    requires |src| % BLOCK == 0 && g < |src| / BLOCK && i < BLOCK
    ensures Abs(half.toReal(src[g * BLOCK + i]) - BlockValue(half, Interleaved(half, src), g, i))
         <= Q8Bound(half, SrcBlock(half, src, g))
  {
    hide Interleaved, BlockValue, Q8Code, Q8Bound, StoredStep, SrcBlock, Abs;
    InterleavedValue(half, src, g, i);
    SrcBlockAt(half, src, g, i);
    Q8CodeBound(half, SrcBlock(half, src, g), i, BlockValue(half, Interleaved(half, src), g, i));
  }

  lemma InterleavedValue(half: Half, src: seq<bv16>, g: nat, i: nat)
    requires |src| % BLOCK == 0 && g < |src| / BLOCK && i < BLOCK
    ensures BlockValue(half, Interleaved(half, src), g, i)
         == Q8Code(SrcBlock(half, src, g), i) as real * half.toReal(StoredStep(half, SrcBlock(half, src, g)))
  {
    hide Interleaved, BlockScale, BlockCode, Q8Code, Q8Step, SrcBlock, StoredStep;
    InterleavedReads(half, src, g, i);
  }

  lemma SrcBlockAt(half: Half, src: seq<bv16>, g: nat, i: nat)
    requires g * BLOCK + BLOCK <= |src| && i < BLOCK
    ensures SrcBlock(half, src, g)[i] == half.toReal(src[g * BLOCK + i])
  {
  }

  // ---- Q8_0: split layout ----------------------------------------------------

  /** Codes in one region, scales in another. */
  function Split(half: Half, src: seq<bv16>): (r: seq<byte>)
    requires |src| % BLOCK == 0
    ensures |r| == |src| / BLOCK * BYTES
  {
    seq(|src|, p requires 0 <= p < |src| =>
      assert p / BLOCK < |src| / BLOCK;
      CodeByte(SrcBlock(half, src, p / BLOCK), p % BLOCK))
    + seq(|src| / BLOCK * 2, p requires 0 <= p < |src| / BLOCK * 2 => Q8Byte(half, SrcBlock(half, src, p / 2), p % 2))
  }

  function SplitScale(bytes: seq<byte>, blocks: nat, g: nat): bv16
    requires |bytes| == blocks * BYTES && g < blocks
  {
    FromLe(bytes[blocks * BLOCK + g * 2], bytes[blocks * BLOCK + g * 2 + 1])
  }

  function SplitCode(bytes: seq<byte>, blocks: nat, g: nat, i: nat): int
    requires |bytes| == blocks * BYTES && g < blocks && i < BLOCK
  {
    SignedValue(bytes[g * BLOCK + i])
  }

  lemma SplitAt(half: Half, src: seq<bv16>, g: nat, o: nat)
    requires |src| % BLOCK == 0 && g < |src| / BLOCK && o < BYTES
    ensures Split(half, src)[SplitPlace(|src| / BLOCK, g, o)] == Q8Byte(half, SrcBlock(half, src, g), o)
  {
    if o < 2 {
      DivMod(g, 2, o);
    } else {
      DivMod(g, BLOCK, o - 2);
    }
  }

  /** Where byte `o` of block `g` lives in the split layout. */
  function SplitPlace(blocks: nat, g: nat, o: nat): (p: nat)
    ensures g < blocks && o < BYTES ==> p < blocks * BYTES
  {
    if o < 2 then blocks * BLOCK + g * 2 + o else g * BLOCK + (o - 2)
  }

  lemma SplitReads(half: Half, src: seq<bv16>, g: nat, i: nat)
    requires |src| % BLOCK == 0 && g < |src| / BLOCK && i < BLOCK
    ensures SplitScale(Split(half, src), |src| / BLOCK, g) == StoredStep(half, SrcBlock(half, src, g))
    ensures SplitCode(Split(half, src), |src| / BLOCK, g, i) == Q8Code(SrcBlock(half, src, g), i)
  {
    hide FromLe, LowByte, HighByte, SignedByte, SignedValue, Split;
    SplitAt(half, src, g, 0);
    SplitAt(half, src, g, 1);
    SplitAt(half, src, g, 2 + i);
    LeRoundTrip(StoredStep(half, SrcBlock(half, src, g)));
    SignedRoundTrip(Q8Code(SrcBlock(half, src, g), i));
  }

  /** The two layouts hold the same codes and the same scales, block for block. */
  lemma LayoutsAgree(half: Half, src: seq<bv16>, g: nat, i: nat)
    requires |src| % BLOCK == 0 && g < |src| / BLOCK && i < BLOCK
    ensures SplitScale(Split(half, src), |src| / BLOCK, g) == BlockScale(Interleaved(half, src), g)
    ensures SplitCode(Split(half, src), |src| / BLOCK, g, i) == BlockCode(Interleaved(half, src), g, i)
  {
    hide SplitScale, SplitCode, BlockScale, BlockCode, Split, Interleaved;
    SplitReads(half, src, g, i);
    InterleavedReads(half, src, g, i);
  }

  // ---- Q8_0: the loops -------------------------------------------------------

  /** Rows of a whole number of blocks make a whole number of blocks. */
  lemma WholeBlocks(len: nat, k: nat, block: nat)
    requires block > 0 && k % block == 0 && IsMultipleOf(len, k)
    ensures len % block == 0
    ensures k > 0 ==> len / block == len / k * (k / block)
  {
    if k > 0 {
      var rows, nb := len / k, k / block;
      assert k == nb * block && len == rows * k;
      MulAssoc(rows, nb, block);
      DivMod(rows * nb, block, 0);
    }
  }

  /** The fold over one block's magnitudes. */
  method FindAbsMax(x: seq<real>) returns (m: real)
    ensures m == AbsMax(x)
  {
    m := 0.0;
    for i := 0 to |x|
      invariant m == AbsMax(x[..i])
    {
      assert x[..i + 1][..i] == x[..i];
      m := if m < Abs(x[i]) then Abs(x[i]) else m;
    }
    assert x[..|x|] == x;
  }

  /** The stores that quantize one block: the scale to `scaleAt`, the codes from `codesAt` on. */
  function Q8Stores(half: Half, x: seq<real>, scaleAt: nat, codesAt: nat): (r: Program)
    requires |x| == BLOCK
    ensures |r| == BYTES
  {
    seq(BYTES, o requires 0 <= o < BYTES =>
      Store(if o < 2 then scaleAt + o else codesAt + (o - 2), Q8Byte(half, x, o)))
  }

  /** Quantize one block. `trace` is the stores the loop issues, in order. */
  method FillQ8Block(half: Half, x: seq<real>, out: array<byte>, scaleAt: nat, codesAt: nat)
    returns (ghost trace: Program)
    requires |x| == BLOCK && scaleAt + 2 <= out.Length && codesAt + BLOCK <= out.Length
    requires scaleAt + 2 <= codesAt || codesAt + BLOCK <= scaleAt
    modifies out
    ensures trace == Q8Stores(half, x, scaleAt, codesAt)
    ensures InBounds(trace, out.Length) && out[..] == Perform(old(out[..]), trace)
    ensures out[scaleAt] == Q8Byte(half, x, 0) && out[scaleAt + 1] == Q8Byte(half, x, 1)
    ensures forall i | 0 <= i < BLOCK :: out[codesAt + i] == CodeByte(x, i)
    ensures forall p | 0 <= p < out.Length && !(scaleAt <= p < scaleAt + 2) && !(codesAt <= p < codesAt + BLOCK) ::
              out[p] == old(out[p])
  {
    hide LowByte, HighByte, SignedByte, Clamp, Steps, Inverse, Perform, CodeByte;
    ghost var was, stores := out[..], Q8Stores(half, x, scaleAt, codesAt);
    EmptyTrace(was);
    var amax := FindAbsMax(x);
    var d := amax / 127.0;
    var inv := Inverse(d);
    trace := Put(out, scaleAt, LowByte(half.fromReal(d)), was, []);
    trace := Put(out, scaleAt + 1, HighByte(half.fromReal(d)), was, trace);
    assert trace == stores[..2];
    for i := 0 to BLOCK
      invariant trace == stores[..2 + i]
      invariant InBounds(trace, |was|) && out[..] == Perform(was, trace)
    {
      var q := Clamp(Steps(x[i], inv), -127, 127);
      assert q == Q8Code(x, i);
      CodeByteIs(x, i);
      trace := Put(out, codesAt + i, SignedByte(q), was, trace);
    }
    assert stores[..2 + BLOCK] == stores;
    Q8StoresLand(half, x, scaleAt, codesAt, was);
    assert forall p | 0 <= p < out.Length :: out[p] == out[..][p];
  }

  lemma CodeByteIs(x: seq<real>, i: nat)
    requires i < |x|
    ensures CodeByte(x, i) == SignedByte(Q8Code(x, i))
  {
  }

  lemma Q8StoresLand(half: Half, x: seq<real>, scaleAt: nat, codesAt: nat, mem: seq<byte>)
    requires |x| == BLOCK && scaleAt + 2 <= |mem| && codesAt + BLOCK <= |mem|
    requires scaleAt + 2 <= codesAt || codesAt + BLOCK <= scaleAt
    ensures InBounds(Q8Stores(half, x, scaleAt, codesAt), |mem|)
    ensures var now := Perform(mem, Q8Stores(half, x, scaleAt, codesAt));
            && now[scaleAt] == Q8Byte(half, x, 0) && now[scaleAt + 1] == Q8Byte(half, x, 1)
            && (forall i | 0 <= i < BLOCK :: now[codesAt + i] == CodeByte(x, i))
            && (forall p | 0 <= p < |mem| && !(scaleAt <= p < scaleAt + 2) && !(codesAt <= p < codesAt + BLOCK) ::
                  now[p] == mem[p])
  {
    hide CodeByte, StoredStep, LowByte, HighByte, Perform;
    var stores := Q8Stores(half, x, scaleAt, codesAt);
    PerformLands(mem, stores, 0);
    PerformLands(mem, stores, 1);
    forall i | 0 <= i < BLOCK ensures Perform(mem, stores)[codesAt + i] == CodeByte(x, i) {
      assert stores[2 + i] == Store(codesAt + i, CodeByte(x, i));
      PerformLands(mem, stores, 2 + i);
    }
    forall p | 0 <= p < |mem| && !(scaleAt <= p < scaleAt + 2) && !(codesAt <= p < codesAt + BLOCK)
      ensures Perform(mem, stores)[p] == mem[p]
    {
      PerformUntouched(mem, stores, p);
    }
  }

  /** Quantizing as a job to share out: a unit is one block, and `place` says where its bytes go. */
  function Q8Job(half: Half, src: seq<bv16>, place: (nat, nat) -> nat): Job {
    Job(|src| / BLOCK, BYTES, place,
        (g: nat, o: nat) => if g < |src| / BLOCK && o < BYTES then Q8Byte(half, SrcBlock(half, src, g), o) else 0)
  }

  function InterleavedJob(half: Half, src: seq<bv16>): Job {
    Q8Job(half, src, (g: nat, o: nat) => g * BYTES + o)
  }

  lemma InterleavedJobIsSound(half: Half, src: seq<bv16>)
    ensures var job := InterleavedJob(half, src); job.Sound() && job.units == |src| / BLOCK && job.width == BYTES
  {
  }

  lemma InterleavedUnit(half: Half, src: seq<bv16>, g: nat)
    requires g < |src| / BLOCK
    ensures InterleavedJob(half, src).Unit(g) == Q8Stores(half, SrcBlock(half, src, g), g * BYTES, g * BYTES + 2)
  {
    hide Q8Byte, SrcBlock;
  }

  /** A buffer with every block in place is the interleaved tensor. */
  lemma FilledIsInterleaved(half: Half, src: seq<bv16>, now: seq<byte>)
    requires |src| % BLOCK == 0 && |now| == |src| / BLOCK * BYTES
    requires InterleavedJob(half, src).Holds(now, 0, |src| / BLOCK)
    ensures now == Interleaved(half, src)
  {
    hide Q8Byte, SrcBlock;
    forall p | 0 <= p < |now| ensures now[p] == Interleaved(half, src)[p] {
      var g, o := p / BYTES, p % BYTES;
      InterleavedAt(half, src, g, o);
      assert now[InterleavedJob(half, src).place(g, o)] == InterleavedJob(half, src).value(g, o);
    }
  }

  method QuantizeQ8(half: Half, src: seq<bv16>, k: nat, parallelism: nat)
    returns (r: Outcome<seq<byte>>, ghost trace: Program)
    requires parallelism > 0
    ensures r.Refused? <==> CheckShape(|src|, k, BLOCK).Refused?
    ensures r.Refused? ==> r.reason == CheckShape(|src|, k, BLOCK).reason
    ensures r.Panicked? <==> src == [] && CheckShape(|src|, k, BLOCK).Ok?
    ensures r.Ok? ==> |src| % BLOCK == 0 && r.value == Interleaved(half, src)
    ensures r.Ok? ==> trace == InterleavedJob(half, src).Stores(0, |src| / BLOCK)
  {
    hide InterleavedJob, Job.Sound, Job.Holds, InBounds, Perform, Q8Stores;
    trace := [];
    var checked := CheckShape(|src|, k, BLOCK);
    if checked.Refused? {
      return Refused(checked.reason), [];
    }
    WholeBlocks(|src|, k, BLOCK);
    var blocks := |src| / BLOCK;
    var out := new byte[blocks * BYTES](_ => 0);
    var threads := Min(parallelism, Max(blocks, 1));
    var per := CeilDiv(blocks, threads);
    if per * BYTES == 0 {
      return Panicked, []; // chunks of size zero
    }
    ghost var zeros := out[..];
    EmptyTrace(zeros);
    InterleavedJob(half, src).NoStores(0);
    var first := 0;
    while first < blocks
      invariant 0 <= first <= blocks && trace == InterleavedJob(half, src).Stores(0, first)
      invariant InBounds(trace, |zeros|) && out[..] == Perform(zeros, trace)
      decreases blocks - first
    {
      var count := Min(per, blocks - first);
      for b := 0 to count
        invariant trace == InterleavedJob(half, src).Stores(0, first + b)
        invariant InBounds(trace, |zeros|) && out[..] == Perform(zeros, trace)
      {
        var g := first + b;
        InterleavedUnit(half, src, g);
        ghost var unit := FillQ8Block(half, SrcBlock(half, src, g), out, g * BYTES, g * BYTES + 2);
        PerformOfBoth(zeros, trace, unit);
        trace := trace + unit;
      }
      first := first + count;
    }
    InterleavedJobIsSound(half, src);
    InterleavedJob(half, src).StoresHold(zeros, 0, blocks);
    FilledIsInterleaved(half, src, out[..]);
    return Ok(out[..]), trace;
  }

  function SplitJob(half: Half, src: seq<bv16>): Job {
    Q8Job(half, src, (g: nat, o: nat) => SplitPlace(|src| / BLOCK, g, o))
  }

  lemma SplitJobIsSound(half: Half, src: seq<bv16>)
    ensures var job := SplitJob(half, src); job.Sound() && job.units == |src| / BLOCK && job.width == BYTES
  {
  }

  lemma SplitUnit(half: Half, src: seq<bv16>, g: nat)
    requires g < |src| / BLOCK
    ensures SplitJob(half, src).Unit(g)
         == Q8Stores(half, SrcBlock(half, src, g), |src| / BLOCK * BLOCK + g * 2, g * BLOCK)
  {
    hide Q8Byte, SrcBlock;
  }

  /** A buffer with every block in place is the split tensor. */
  lemma FilledIsSplit(half: Half, src: seq<bv16>, now: seq<byte>)
    requires |src| % BLOCK == 0 && |now| == |src| / BLOCK * BYTES
    requires SplitJob(half, src).Holds(now, 0, |src| / BLOCK)
    ensures now == Split(half, src)
  {
    hide Q8Byte, SrcBlock;
    var blocks := |src| / BLOCK;
    forall p | 0 <= p < |now| ensures now[p] == Split(half, src)[p] {
      var g := if p < |src| then p / BLOCK else (p - |src|) / 2;
      var o := if p < |src| then p % BLOCK + 2 else (p - |src|) % 2;
      assert SplitPlace(blocks, g, o) == p;
      SplitAt(half, src, g, o);
      assert now[SplitJob(half, src).place(g, o)] == SplitJob(half, src).value(g, o);
    }
  }

  method QuantizeQ8Split(half: Half, src: seq<bv16>, k: nat, parallelism: nat)
    returns (r: Outcome<seq<byte>>, ghost trace: Program)
    requires parallelism > 0
    ensures r.Refused? <==> CheckShape(|src|, k, BLOCK).Refused?
    ensures r.Refused? ==> r.reason == CheckShape(|src|, k, BLOCK).reason
    ensures r.Panicked? <==> src == [] && CheckShape(|src|, k, BLOCK).Ok?
    ensures r.Ok? ==> |src| % BLOCK == 0 && r.value == Split(half, src)
    ensures r.Ok? ==> trace == SplitJob(half, src).Stores(0, |src| / BLOCK)
  {
    hide Split, SplitJob, Job.Sound, Job.Holds, InBounds, Perform;
    trace := [];
    var checked := CheckShape(|src|, k, BLOCK);
    if checked.Refused? {
      return Refused(checked.reason), [];
    }
    if k == 0 {
      return Panicked, []; // division by zero
    }
    var rows := |src| / k;
    var nb := k / BLOCK;
    SplitShape(|src|, k, rows, nb);
    var out := new byte[rows * k + rows * nb * 2](_ => 0);
    var scales := rows * k;
    var threads := Min(parallelism, Max(rows, 1));
    var per := CeilDiv(rows, threads);
    if per == 0 {
      return Panicked, []; // chunks of size zero
    }
    ghost var zeros := out[..];
    EmptyTrace(zeros);
    SplitJob(half, src).NoStores(0);
    var first := 0;
    while first < rows
      invariant 0 <= first <= rows && trace == SplitJob(half, src).Stores(0, first * nb)
      invariant InBounds(trace, |zeros|) && out[..] == Perform(zeros, trace)
      decreases rows - first
    {
      var count := Min(per, rows - first);
      ghost var chunk := FillSplitRows(half, src, out, first, count, rows, nb, scales);
      SplitJob(half, src).StoresJoin(0, first * nb, (first + count) * nb);
      PerformOfBoth(zeros, trace, chunk);
      trace := trace + chunk;
      first := first + count;
    }
    SplitJobIsSound(half, src);
    SplitJob(half, src).StoresHold(zeros, 0, rows * nb);
    FilledIsSplit(half, src, out[..]);
    return Ok(out[..]), trace;
  }

  lemma SplitShape(len: nat, k: nat, rows: nat, nb: nat)
    requires k > 0 && k % BLOCK == 0 && IsMultipleOf(len, k) && rows == len / k && nb == k / BLOCK
    ensures len % BLOCK == 0 && len / BLOCK == rows * nb && rows * k == len
    ensures rows * k + rows * nb * 2 == len / BLOCK * BYTES
    ensures rows == 0 <==> len == 0
  {
    WholeBlocks(len, k, BLOCK);
  }

  /** One worker's rows in the split layout. */
  method FillSplitRows(half: Half, src: seq<bv16>, out: array<byte>, first: nat, count: nat, rows: nat, nb: nat,
                       scales: nat)
    returns (ghost trace: Program)
    requires first + count <= rows && |src| % BLOCK == 0 && |src| / BLOCK == rows * nb && scales == |src|
    requires out.Length == |src| / BLOCK * BYTES
    modifies out
    ensures first * nb <= (first + count) * nb
    ensures trace == SplitJob(half, src).Stores(first * nb, (first + count) * nb)
    ensures InBounds(trace, out.Length) && out[..] == Perform(old(out[..]), trace)
  {
    hide SplitJob, InBounds, Perform, Q8Stores, Q8Byte, SrcBlock, CodeByte;
    ghost var was := out[..];
    trace := [];
    EmptyTrace(was);
    SplitJob(half, src).NoStores(first * nb);
    for r := 0 to count
      invariant first * nb <= (first + r) * nb && trace == SplitJob(half, src).Stores(first * nb, (first + r) * nb)
      invariant InBounds(trace, |was|) && out[..] == Perform(was, trace)
    {
      var row := first + r;
      MulMono(row + 1, rows, nb);
      assert (row + 1) * nb == row * nb + nb;
      for b := 0 to nb
        invariant trace == SplitJob(half, src).Stores(first * nb, row * nb + b)
        invariant InBounds(trace, |was|) && out[..] == Perform(was, trace)
      {
        var g := row * nb + b;
        assert g < |src| / BLOCK;
        SplitUnit(half, src, g);
        ghost var unit := FillQ8Block(half, SrcBlock(half, src, g), out, scales + g * 2, g * BLOCK);
        PerformOfBoth(was, trace, unit);
        trace := trace + unit;
      }
    }
  }

  // ---- Q8_0: the workers running at once -------------------------------------

  /** However the workers of the interleaved quantizer share the blocks and however their stores
      interleave, no two touch the same byte and the buffer they leave is the quantized tensor. */
  lemma AnyInterleavingQuantizes(half: Half, src: seq<bv16>, per: nat, mem: seq<byte>, schedule: seq<nat>)
    requires |src| % BLOCK == 0 && per > 0 && |mem| == |src| / BLOCK * BYTES
    ensures var workers := InterleavedJob(half, src).Workers(|src| / BLOCK, 1, per);
            && AllInBounds(workers, |mem|) && Disjoint(workers)
            && (Joined(workers, Interleave(workers, mem, schedule)) ==>
                  Interleave(workers, mem, schedule).mem == Interleaved(half, src))
  {
    hide Job.Workers, Job.Sound, Job.Holds, Interleaved;
    var job := InterleavedJob(half, src);
    InterleavedJobIsSound(half, src);
    job.WorkersAreDisjoint(job.units, 1, per);
    var workers := job.Workers(job.units, 1, per);
    if Joined(workers, Interleave(workers, mem, schedule)) {
      job.EveryInterleavingFills(job.units, 1, per, mem, schedule);
      FilledIsInterleaved(half, src, Interleave(workers, mem, schedule).mem);
    }
  }

  /** The same for the split quantizer, whose workers share rows and each write two regions of
      the buffer. */
  lemma AnyInterleavingQuantizesSplit(half: Half, src: seq<bv16>, rows: nat, nb: nat, per: nat, mem: seq<byte>,
                                      schedule: seq<nat>)
    requires |src| % BLOCK == 0 && |src| / BLOCK == rows * nb && per > 0 && |mem| == |src| / BLOCK * BYTES
    ensures var workers := SplitJob(half, src).Workers(rows, nb, per);
            && AllInBounds(workers, |mem|) && Disjoint(workers)
            && (Joined(workers, Interleave(workers, mem, schedule)) ==>
                  Interleave(workers, mem, schedule).mem == Split(half, src))
  {
    hide Job.Workers, Job.Sound, Job.Holds, Split;
    var job := SplitJob(half, src);
    SplitJobIsSound(half, src);
    job.WorkersAreDisjoint(rows, nb, per);
    var workers := job.Workers(rows, nb, per);
    if Joined(workers, Interleave(workers, mem, schedule)) {
      job.EveryInterleavingFills(rows, nb, per, mem, schedule);
      FilledIsSplit(half, src, Interleave(workers, mem, schedule).mem);
    }
  }
}
