/** The affine 4-bit quantizer, which writes the packed block format directly
    (crates/kernels/src/awq.rs), over exact reals. */
module AwqQuantizeQ4 {
  import opened Arith
  import opened Rounding
  import opened Workers
  import opened Q4Block
  import opened AwqLayout
  import opened AwqQuantize

  // ---- one group -------------------------------------------------------------

  function Lowest(x: seq<real>): (r: real)
    requires x != []
    ensures (forall i | 0 <= i < |x| :: r <= x[i]) && r in x
  {
    if |x| == 1 then x[0]
    else
      var front, last := x[..|x| - 1], x[|x| - 1];
      assert forall i | 0 <= i < |front| :: x[i] == front[i];
      if last < Lowest(front) then last else Lowest(front)
  }

  function Highest(x: seq<real>): (r: real)
    requires x != []
    ensures (forall i | 0 <= i < |x| :: x[i] <= r) && r in x
  {
    if |x| == 1 then x[0]
    else
      var front, last := x[..|x| - 1], x[|x| - 1];
      assert forall i | 0 <= i < |front| :: x[i] == front[i];
      if last > Highest(front) then last else Highest(front)
  }

  function Step(lo: real, hi: real): (d: real)
    ensures d >= 0.0
  {
    if hi > lo then (hi - lo) / 15.0 else 0.0
  }

  function GroupStep(x: seq<real>): (d: real)
    requires x != []
    ensures d >= 0.0
  {
    Step(Lowest(x), Highest(x))
  }

  function GroupCode(x: seq<real>, i: nat): (q: int)
    requires i < |x|
    ensures 0 <= q <= 15
  {
    Clamp(Steps(x[i] - Lowest(x), Inverse(GroupStep(x))), 0, 15)
  }

  /** How far a value is from what its code stands for. */
  function Residual(v: real, lo: real, q: int, d: real): real {
    v - lo - q as real * d
  }

  /** Half a step at most, and the clamp never bites. */
  lemma GroupError(x: seq<real>, i: nat)
    requires i < |x|
    ensures GroupCode(x, i) == Steps(x[i] - Lowest(x), Inverse(GroupStep(x)))
    ensures Abs(Residual(x[i], Lowest(x), GroupCode(x, i), GroupStep(x))) <= GroupStep(x) / 2.0
  {
    hide Lowest, Highest, Steps, Inverse;
    assert Lowest(x) <= x[i] <= Highest(x);
    PositiveStep(x[i] - Lowest(x), Highest(x) - Lowest(x), 15, GroupStep(x), Inverse(GroupStep(x)));
  }

  function CodeOf(x: seq<real>, i: nat): (c: byte)
    requires i < |x|
    ensures c < 16 && ToReal(c) == GroupCode(x, i) as real
  {
    SmallByte(GroupCode(x, i));
    ByteOf(GroupCode(x, i))
  }

  lemma SmallByte(q: nat)
    requires q < 16
    ensures ByteOf(q) < 16
  {
    if q > 0 {
      SmallByte(q - 1);
      assert ByteOf(q) == ByteOf(q - 1) + 1;
      assert ByteOf(q) as int < 16;
    }
  }

  function StoredGroupStep(half: Half, x: seq<real>): bv16
    requires x != []
  {
    half.fromReal(GroupStep(x))
  }

  function StoredLowest(half: Half, x: seq<real>): bv16
    requires x != []
  {
    half.fromReal(-Lowest(x))
  }

  /** What a group's codes read back as at worst: half a step, plus what rounding the stored
      step and the stored offset costs. */
  function Q4Bound(half: Half, x: seq<real>): real
    requires x != []
  {
    GroupStep(x) / 2.0 + 15.0 * Abs(half.toReal(StoredGroupStep(half, x)) - GroupStep(x))
    + Abs(half.toReal(StoredLowest(half, x)) + Lowest(x))
  }

  lemma GroupCodeBound(half: Half, x: seq<real>, i: nat, w: real)
    requires i < |x|
    requires w == ToReal(CodeOf(x, i)) * half.toReal(StoredGroupStep(half, x)) - half.toReal(StoredLowest(half, x))
    ensures Abs(x[i] - w) <= Q4Bound(half, x)
  {
    hide GroupCode, GroupStep, StoredGroupStep, StoredLowest, Lowest, ToReal, CodeOf, Abs, Residual;
    GroupError(x, i);
    AffineError(x[i], Lowest(x), GroupCode(x, i), GroupStep(x), half.toReal(StoredGroupStep(half, x)),
                half.toReal(StoredLowest(half, x)), ToReal(CodeOf(x, i)), w);
  }

  lemma AffineError(v: real, lo: real, q: int, d: real, stored: real, off: real, c: real, w: real)
    requires Abs(Residual(v, lo, q, d)) <= d / 2.0 && 0 <= q <= 15 && c == q as real && w == c * stored - off
    ensures Abs(v - w) <= d / 2.0 + 15.0 * Abs(stored - d) + Abs(off + lo)
  {
    StoredStepError(v - lo, c, d, stored, 15.0, d / 2.0, w + off);
  }

  // ---- the whole matrix ------------------------------------------------------

  /** Group `g` of the source. */
  function SrcGroup(half: Half, src: seq<bv16>, g: nat): (x: seq<real>)
    requires g * GROUP + GROUP <= |src|
    ensures |x| == GROUP
  {
    Values(half, src[g * GROUP..g * GROUP + GROUP])
  }

  /** The quantized matrix: codes, stored steps and stored offsets. */
  function AsMatrix(half: Half, src: seq<bv16>, n: nat, nb: nat): (m: Matrix)
    ensures m.Coded()
  {
    Matrix(n, nb,
           (row: nat, i: nat) => if (row * nb + i / GROUP) * GROUP + GROUP <= |src|
                                 then CodeOf(SrcGroup(half, src, row * nb + i / GROUP), i % GROUP) else 0,
           (row: nat, b: nat) => if (row * nb + b) * GROUP + GROUP <= |src|
                                 then StoredGroupStep(half, SrcGroup(half, src, row * nb + b)) else 0,
           (row: nat, b: nat) => if (row * nb + b) * GROUP + GROUP <= |src|
                                 then StoredLowest(half, SrcGroup(half, src, row * nb + b)) else 0)
  }

  lemma GroupInside(len: nat, n: nat, nb: nat, row: nat, b: nat, g: nat)
    requires len == n * nb * GROUP && row < n && b < nb && g == row * nb + b
    ensures g < n * nb && g * GROUP + GROUP <= len
  {
    Flat(row, n, b, nb);
  }

  /** The code, the scale and the offset that element `j` of group `b` of row `row` is decoded with. */
  lemma AsMatrixAt(half: Half, src: seq<bv16>, n: nat, nb: nat, row: nat, b: nat, j: nat, g: nat)
    requires g == row * nb + b && g * GROUP + GROUP <= |src| && j < GROUP
    ensures var x := SrcGroup(half, src, g);
            var m := AsMatrix(half, src, n, nb);
            && m.code(row, b * GROUP + j) == CodeOf(x, j)
            && m.scale(row, b) == StoredGroupStep(half, x) && m.offset(row, b) == StoredLowest(half, x)
  {
    hide SrcGroup, CodeOf, StoredGroupStep, StoredLowest;
    DivMod(b, GROUP, j);
  }

  /** Reading back row `row` of the quantized matrix gives every weight of the source row to
      within the bound of its group, which is group `g` of the source. */
  lemma Q4Error(half: Half, src: seq<bv16>, n: nat, k: nat, packed: seq<byte>, row: nat, i: nat, g: nat)
    requires k % GROUP == 0 && |src| == n * (k / GROUP) * GROUP && row < n && i < k
    requires g == row * (k / GROUP) + i / GROUP
    requires Packs(AsMatrix(half, src, n, k / GROUP), packed)
    ensures (row + 1) * (k / GROUP) * BLOCK_BYTES <= |packed| && g * GROUP + GROUP <= |src|
    ensures Abs(half.toReal(src[g * GROUP + i % GROUP]) - PackedRow(half, packed, k, row)[i])
         <= Q4Bound(half, SrcGroup(half, src, g))
  {
    hide PackedRow, Packs, AsMatrix, Q4Bound, CodeOf, ToReal, StoredGroupStep, StoredLowest, Abs, SrcGroup;
    Flat(row, n, i / GROUP, k / GROUP);
    MulMono(row + 1, n, k / GROUP);
    MatrixShape(half, src, n, k / GROUP);
    SrcGroupAt(half, src, g, i % GROUP);
    Q4Decodes(half, src, n, k, packed, row, i, g);
    GroupCodeBound(half, SrcGroup(half, src, g), i % GROUP, PackedRow(half, packed, k, row)[i]);
  }

  lemma SrcGroupAt(half: Half, src: seq<bv16>, g: nat, j: nat)
    requires g * GROUP + GROUP <= |src| && j < GROUP
    ensures SrcGroup(half, src, g)[j] == half.toReal(src[g * GROUP + j])
  {
  }

  /** The quantized matrix reads back as each group's codes under its stored step and offset. */
  lemma Q4Decodes(half: Half, src: seq<bv16>, n: nat, k: nat, packed: seq<byte>, row: nat, i: nat, g: nat)
    requires k % GROUP == 0 && |src| == n * (k / GROUP) * GROUP && row < n && i < k
    requires g == row * (k / GROUP) + i / GROUP && g * GROUP + GROUP <= |src|
    requires Packs(AsMatrix(half, src, n, k / GROUP), packed) && (row + 1) * (k / GROUP) * BLOCK_BYTES <= |packed|
    ensures PackedRow(half, packed, k, row)[i]
         == ToReal(CodeOf(SrcGroup(half, src, g), i % GROUP))
            * half.toReal(StoredGroupStep(half, SrcGroup(half, src, g)))
            - half.toReal(StoredLowest(half, SrcGroup(half, src, g)))
  {
    hide PackedRow, Packs, AsMatrix, CodeOf, ToReal, StoredGroupStep, StoredLowest, SrcGroup;
    var nb, b, j := k / GROUP, i / GROUP, i % GROUP;
    var m, x := AsMatrix(half, src, n, nb), SrcGroup(half, src, g);
    MatrixShape(half, src, n, nb);
    AsMatrixAt(half, src, n, nb, row, b, j, g);
    ElementDecodes(half, m, packed, k, row, i, CodeOf(x, j), StoredGroupStep(half, x), StoredLowest(half, x));
  }

  lemma ElementDecodes(half: Half, m: Matrix, packed: seq<byte>, k: nat, row: nat, i: nat, c: byte, scale: bv16,
                       offset: bv16)
    requires Packs(m, packed) && k % GROUP == 0 && m.nb == k / GROUP && row < m.n && i < k
    requires m.code(row, i / GROUP * GROUP + i % GROUP) == c
    requires m.scale(row, i / GROUP) == scale && m.offset(row, i / GROUP) == offset
    ensures (row + 1) * (k / GROUP) * BLOCK_BYTES <= |packed|
    ensures PackedRow(half, packed, k, row)[i] == ToReal(c) * half.toReal(scale) - half.toReal(offset)
  {
    hide PackedRow, Packs, ToReal;
    assert i / GROUP * GROUP + i % GROUP == i;
    PackedRowDecodes(half, m, packed, k, row, i);
  }

  lemma MatrixShape(half: Half, src: seq<bv16>, n: nat, nb: nat)
    ensures AsMatrix(half, src, n, nb).n == n && AsMatrix(half, src, n, nb).nb == nb
    ensures forall packed :: Packs(AsMatrix(half, src, n, nb), packed) ==> |packed| == n * nb * BLOCK_BYTES
  {
  }

  // ---- the loops -------------------------------------------------------------

  /** The minimum and maximum of one group. */
  method FindRange(x: seq<real>) returns (lo: real, hi: real)
    requires x != []
    ensures lo == Lowest(x) && hi == Highest(x)
  {
    lo, hi := x[0], x[0];
    for i := 1 to |x|
      invariant lo == Lowest(x[..i]) && hi == Highest(x[..i])
    {
      assert x[..i + 1][..i] == x[..i];
      lo := if x[i] < lo then x[i] else lo;
      hi := if x[i] > hi then x[i] else hi;
    }
    assert x[..|x|] == x;
  }

  /** Byte `o` of the block that a group is quantized to. */
  function GroupByte(half: Half, x: seq<real>, o: nat): byte
    requires |x| == GROUP && o < BLOCK_BYTES
  {
    if o == 0 then LowByte(StoredGroupStep(half, x))
    else if o == 1 then HighByte(StoredGroupStep(half, x))
    else if o == 2 then LowByte(StoredLowest(half, x))
    else if o == 3 then HighByte(StoredLowest(half, x))
    else Pair(CodeOf(x, o - 4), CodeOf(x, o + 60))
  }

  /** The stores that quantize one group into the 68 bytes at `off`. */
  function GroupStores(half: Half, x: seq<real>, off: nat): (r: Program)
    requires |x| == GROUP
    ensures |r| == BLOCK_BYTES
  {
    seq(BLOCK_BYTES, o requires 0 <= o < BLOCK_BYTES => Store(off + o, GroupByte(half, x, o)))
  }

  /** Quantize one group into the 68 bytes at `off`. `trace` is the stores the loop issues. */
  method FillGroup(half: Half, g: seq<real>, out: array<byte>, off: nat) returns (ghost trace: Program)
    requires |g| == GROUP && off + BLOCK_BYTES <= out.Length
    modifies out
    ensures trace == GroupStores(half, g, off)
    ensures InBounds(trace, out.Length) && out[..] == Perform(old(out[..]), trace)
  {
    hide LowByte, HighByte, Pair, Steps, Inverse, Clamp, ToReal, Perform, CodeOf;
    ghost var was, stores := out[..], GroupStores(half, g, off);
    EmptyTrace(was);
    var lo, hi := FindRange(g);
    var scale := Step(lo, hi);
    var inv := Inverse(scale);
    trace := Put(out, off, LowByte(half.fromReal(scale)), was, []);
    trace := Put(out, off + 1, HighByte(half.fromReal(scale)), was, trace);
    trace := Put(out, off + 2, LowByte(half.fromReal(-lo)), was, trace);
    trace := Put(out, off + 3, HighByte(half.fromReal(-lo)), was, trace);
    assert trace == stores[..4];
    for i := 0 to 64
      invariant trace == stores[..4 + i]
      invariant InBounds(trace, |was|) && out[..] == Perform(was, trace)
    {
      var loCode := Clamp(Steps(g[i] - lo, inv), 0, 15);
      var hiCode := Clamp(Steps(g[i + 64] - lo, inv), 0, 15);
      CodeOfIs(g, i);
      CodeOfIs(g, i + 64);
      trace := Put(out, off + 4 + i, Pair(ByteOf(loCode), ByteOf(hiCode)), was, trace);
    }
    assert stores[..4 + 64] == stores;
  }

  lemma CodeOfIs(x: seq<real>, i: nat)
    requires i < |x|
    ensures CodeOf(x, i) == ByteOf(Clamp(Steps(x[i] - Lowest(x), Inverse(Step(Lowest(x), Highest(x)))), 0, 15))
  {
    hide Lowest, Highest, Steps, Inverse;
  }

  /** Byte `o` of a block of the quantized matrix is that byte of the group's block. */
  lemma GroupByteIs(half: Half, src: seq<bv16>, n: nat, nb: nat, row: nat, b: nat, g: nat, o: nat)
    requires g == row * nb + b && g * GROUP + GROUP <= |src| && o < BLOCK_BYTES
    ensures BlockByte(AsMatrix(half, src, n, nb), row, b, o) == GroupByte(half, SrcGroup(half, src, g), o)
  {
    hide LowByte, HighByte, Pair, CodeOf, StoredGroupStep, StoredLowest, AsMatrix, SrcGroup;
    if o < 4 {
      AsMatrixAt(half, src, n, nb, row, b, 0, g);
    } else {
      AsMatrixAt(half, src, n, nb, row, b, o - 4, g);
      AsMatrixAt(half, src, n, nb, row, b, o + 60, g);
      assert b * GROUP + 64 + (o - 4) == b * GROUP + (o + 60);
    }
  }

  /** The bytes of group `b` of row `row` are those of that block of the quantized matrix. */
  lemma GroupIsUnit(half: Half, src: seq<bv16>, n: nat, nb: nat, row: nat, b: nat)
    requires |src| == n * nb * GROUP && row < n && b < nb
    ensures row * nb + b < n * nb && (row * nb + b) * GROUP + GROUP <= |src|
    ensures BlockJob(AsMatrix(half, src, n, nb)).Unit(row * nb + b)
         == GroupStores(half, SrcGroup(half, src, row * nb + b), (row * nb + b) * BLOCK_BYTES)
  {
    hide BlockByte, GroupByte, AsMatrix, SrcGroup, BlockJob;
    var m, g := AsMatrix(half, src, n, nb), row * nb + b;
    MatrixShape(half, src, n, nb);
    GroupInside(|src|, n, nb, row, b, g);
    UnitIsBlock(m, row, b);
    var x := SrcGroup(half, src, g);
    forall o | 0 <= o < BLOCK_BYTES ensures BlockByte(m, row, b, o) == GroupByte(half, x, o) {
      GroupByteIs(half, src, n, nb, row, b, g, o);
    }
    assert BlockStores(m, row, b, g * BLOCK_BYTES) == GroupStores(half, x, g * BLOCK_BYTES);
  }

  /** The rows of one worker's chunk. */
  method FillGroups(half: Half, src: seq<bv16>, n: nat, nb: nat, out: array<byte>, first: nat, rows: nat)
    returns (ghost trace: Program)
    requires nb > 0 && |src| == n * nb * GROUP && out.Length == n * nb * BLOCK_BYTES && first + rows <= n
    modifies out
    ensures first * nb <= (first + rows) * nb
    ensures trace == BlockJob(AsMatrix(half, src, n, nb)).Stores(first * nb, (first + rows) * nb)
    ensures InBounds(trace, out.Length) && out[..] == Perform(old(out[..]), trace)
  {
    hide AsMatrix, SrcGroup, BlockJob, GroupStores, InBounds, Perform;
    ghost var m, was := AsMatrix(half, src, n, nb), out[..];
    trace := [];
    EmptyTrace(was);
    BlockJob(m).NoStores(first * nb);
    for r := 0 to rows
      invariant first * nb <= (first + r) * nb && trace == BlockJob(m).Stores(first * nb, (first + r) * nb)
      invariant InBounds(trace, |was|) && out[..] == Perform(was, trace)
    {
      var row := first + r;
      assert (row + 1) * nb == row * nb + nb;
      for b := 0 to nb
        invariant trace == BlockJob(m).Stores(first * nb, row * nb + b)
        invariant InBounds(trace, |was|) && out[..] == Perform(was, trace)
      {
        var g := row * nb + b;
        GroupIsUnit(half, src, n, nb, row, b);
        ghost var unit := FillGroup(half, SrcGroup(half, src, g), out, g * BLOCK_BYTES);
        PerformOfBoth(was, trace, unit);
        trace := trace + unit;
      }
    }
  }

  method QuantizeQ4(half: Half, src: seq<bv16>, k: nat, parallelism: nat)
    returns (r: Outcome<seq<byte>>, ghost trace: Program)
    requires parallelism > 0
    ensures r.Refused? <==> CheckShape(|src|, k, GROUP).Refused?
    ensures r.Refused? ==> r.reason == CheckShape(|src|, k, GROUP).reason
    ensures r.Panicked? <==> src == [] && CheckShape(|src|, k, GROUP).Ok?
    ensures r.Ok? ==> k > 0 && |src| == |src| / k * (k / GROUP) * GROUP
                      && Packs(AsMatrix(half, src, |src| / k, k / GROUP), r.value)
                      && trace == BlockJob(AsMatrix(half, src, |src| / k, k / GROUP)).Stores(0, |src| / k * (k / GROUP))
  {
    hide AsMatrix, Packs, BlockJob, Job.Stores;
    trace := [];
    var checked := CheckShape(|src|, k, GROUP);
    if checked.Refused? {
      return Refused(checked.reason), [];
    }
    if k == 0 {
      return Panicked, []; // division by zero
    }
    GroupShape(|src|, k, |src| / k, k / GROUP);
    r, trace := QuantizeGroups(half, src, |src| / k, k / GROUP, parallelism);
  }

  /** The chunk loop. */
  method QuantizeGroups(half: Half, src: seq<bv16>, rows: nat, nb: nat, parallelism: nat)
    returns (r: Outcome<seq<byte>>, ghost trace: Program)
    requires parallelism > 0 && |src| == rows * nb * GROUP && (rows > 0 ==> nb > 0)
    ensures !r.Refused? && (r.Panicked? <==> rows == 0)
    ensures r.Ok? ==> Packs(AsMatrix(half, src, rows, nb), r.value)
    ensures r.Ok? ==> trace == BlockJob(AsMatrix(half, src, rows, nb)).Stores(0, rows * nb)
  {
    hide AsMatrix, Packs, BlockJob, Job.Sound, Job.Holds, InBounds, Perform;
    ghost var m := AsMatrix(half, src, rows, nb);
    MatrixShape(half, src, rows, nb);
    var out := new byte[rows * nb * BLOCK_BYTES](_ => 0);
    var threads := Min(parallelism, Max(rows, 1));
    var per := CeilDiv(rows, threads);
    if per == 0 {
      return Panicked, []; // chunks of size zero
    }
    ghost var zeros := out[..];
    trace := [];
    EmptyTrace(zeros);
    BlockJob(m).NoStores(0);
    var first := 0;
    while first < rows
      invariant 0 <= first <= rows && trace == BlockJob(m).Stores(0, first * nb)
      invariant InBounds(trace, |zeros|) && out[..] == Perform(zeros, trace)
      decreases rows - first
    {
      var count := Min(per, rows - first);
      ghost var chunk := FillGroups(half, src, rows, nb, out, first, count);
      BlockJob(m).StoresJoin(0, first * nb, (first + count) * nb);
      PerformOfBoth(zeros, trace, chunk);
      trace := trace + chunk;
      first := first + count;
    }
    BlockJobIsSound(m);
    BlockJob(m).StoresHold(zeros, 0, rows * nb);
    FilledIsPacked(m, out[..]);
    return Ok(out[..]), trace;
  }

  lemma GroupShape(len: nat, k: nat, rows: nat, nb: nat)
    requires k > 0 && k % GROUP == 0 && IsMultipleOf(len, k) && rows == len / k && nb == k / GROUP
    ensures len == rows * nb * GROUP && (rows == 0 <==> len == 0) && (rows > 0 ==> nb > 0)
  {
    WholeBlocks(len, k, GROUP);
  }

  /** However the workers share the rows and however their stores interleave, no two touch the same
      byte and the buffer they leave is the packed form of the quantized matrix. */
  lemma AnyInterleavingQuantizesQ4(half: Half, src: seq<bv16>, n: nat, nb: nat, per: nat, mem: seq<byte>,
                                   schedule: seq<nat>)
    requires |src| == n * nb * GROUP && per > 0 && |mem| == n * nb * BLOCK_BYTES
    ensures var m := AsMatrix(half, src, n, nb);
            m.n == n && m.nb == nb &&
            var workers := BlockJob(m).Workers(n, nb, per);
            && AllInBounds(workers, |mem|) && Disjoint(workers)
            && (Joined(workers, Interleave(workers, mem, schedule)) ==>
                  Packs(m, Interleave(workers, mem, schedule).mem))
  {
    hide Job.Workers, Job.Sound, Packs, AsMatrix;
    var m := AsMatrix(half, src, n, nb);
    MatrixShape(half, src, n, nb);
    BlockJobIsSound(m);
    BlockJob(m).WorkersAreDisjoint(n, nb, per);
    var workers := BlockJob(m).Workers(n, nb, per);
    if Joined(workers, Interleave(workers, mem, schedule)) {
      EveryInterleavingPacks(m, per, mem, schedule);
    }
  }
}
