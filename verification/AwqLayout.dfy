/** AWQ checkpoints repacked into output-major 4-bit blocks, and the word-transposed form of
    those blocks (crates/kernels/src/awq.rs). */
module AwqLayout {
  import opened Arith
  import opened Workers
  import opened Q4Block

  const ORDER: seq<nat> := [0, 2, 4, 6, 1, 3, 5, 7]
  const NIBBLE_OF: seq<nat> := [0, 4, 1, 5, 2, 6, 3, 7]

  datatype Refusal =
    | RaggedInput(k: nat)
    | RaggedOutput(n: nat)
    | WeightWords(got: nat, want: nat)
    | ZeroWords(got: nat, want: nat)
    | ScaleCount(got: nat, want: nat)
    | RaggedRows(len: nat, k: nat)

  /** What a call comes to: a value, an error the caller receives, or an abort. */
  datatype Outcome<+T> = Ok(value: T) | Refused(reason: Refusal) | Panicked

  /** The 4-bit field of a packed word that holds output offset `m`. */
  function Field(word: bv32, m: nat): (c: byte)
    requires m < 8
    ensures c < 16
  {
    Nibble(word, NIBBLE_OF[m])
  }

  /** Bits `4 * i` to `4 * i + 3` of a word: shifted right four bits, `i` times. */
  function Nibble(word: bv32, i: nat): (c: byte)
    ensures c < 16
  {
    if i == 0 then (word & 0xF) as bv8 else Nibble(word >> 4, i - 1)
  }

  /** `NIBBLE_OF` and `ORDER` are inverse permutations of the eight offsets. */
  lemma NibbleOfInvertsOrder(m: nat)
    requires m < 8
    ensures NIBBLE_OF[m] < 8 && ORDER[m] < 8
    ensures ORDER[NIBBLE_OF[m]] == m && NIBBLE_OF[ORDER[m]] == m
  {
    assert m == 0 || m == 1 || m == 2 || m == 3 || m == 4 || m == 5 || m == 6 || m == 7;
  }

  /** How AutoAWQ writes a word: output offset `ORDER[i]` goes to bits `4 * i`. */
  function AutoAwqWord(codes: seq<byte>): bv32
    requires |codes| == 8
  {
    (codes[ORDER[0]] as bv32) | (codes[ORDER[1]] as bv32 << 4)
    | (codes[ORDER[2]] as bv32 << 8) | (codes[ORDER[3]] as bv32 << 12)
    | (codes[ORDER[4]] as bv32 << 16) | (codes[ORDER[5]] as bv32 << 20)
    | (codes[ORDER[6]] as bv32 << 24) | (codes[ORDER[7]] as bv32 << 28)
  }

  lemma NibbleShifts(word: bv32)
    ensures Nibble(word, 1) == ((word >> 4) & 0xF) as bv8 && Nibble(word, 2) == ((word >> 8) & 0xF) as bv8
    ensures Nibble(word, 3) == ((word >> 12) & 0xF) as bv8 && Nibble(word, 4) == ((word >> 16) & 0xF) as bv8
    ensures Nibble(word, 5) == ((word >> 20) & 0xF) as bv8 && Nibble(word, 6) == ((word >> 24) & 0xF) as bv8
    ensures Nibble(word, 7) == ((word >> 28) & 0xF) as bv8
  {
  }

  /** Reading a word undoes the scrambled order it was written in. */
  lemma FieldReadsAutoAwqWord(codes: seq<byte>, m: nat)
    requires |codes| == 8 && forall i | 0 <= i < 8 :: codes[i] < 16
    requires m < 8
    ensures Field(AutoAwqWord(codes), m) == codes[m]
  {
    NibbleShifts(AutoAwqWord(codes));
    if m == 0 {} else if m == 1 {} else if m == 2 {} else if m == 3 {}
    else if m == 4 {} else if m == 5 {} else if m == 6 {} else {}
  }

  datatype AwqTensor = AwqTensor(qweight: seq<bv32>, qzeros: seq<bv32>, scales: seq<bv16>, k: nat, n: nat)
  {
    function Check(): Outcome<()> {
      if k % GROUP != 0 then Refused(RaggedInput(k))
      else if n % 8 != 0 then Refused(RaggedOutput(n))
      else if |qweight| != k * n / 8 then Refused(WeightWords(|qweight|, k * n / 8))
      else if |qzeros| != k / GROUP * n / 8 then Refused(ZeroWords(|qzeros|, k / GROUP * n / 8))
      else if |scales| != k / GROUP * n then Refused(ScaleCount(|scales|, k / GROUP * n))
      else Ok(())
    }

    predicate WellFormed() {
      Check().Ok?
    }

    ghost predicate Has(i: nat, row: nat) {
      WellFormed() && i < k && row < n
    }

    lemma InRange(i: nat, row: nat)
      requires Has(i, row)
      ensures i * (n / 8) + row / 8 < |qweight|
      ensures i / GROUP * (n / 8) + row / 8 < |qzeros|
      ensures i / GROUP * n + row < |scales|
    {
      var w := n / 8;
      assert n == 8 * w && row / 8 < w;
      assert k * n == 8 * (k * w);
      assert k / GROUP * n == 8 * (k / GROUP * w);
      assert i / GROUP < k / GROUP;
      Flat(i, k, row / 8, w);
      Flat(i / GROUP, k / GROUP, row / 8, w);
      Flat(i / GROUP, k / GROUP, row, n);
    }

    /** The 4-bit code for output `row` at input `i`. */
    function Code(i: nat, row: nat): (c: byte)
      requires Has(i, row)
      ensures c < 16
    {
      InRange(i, row);
      Field(qweight[i * (n / 8) + row / 8], row % 8)
    }

    /** The zero point of output `row` in group `g`. */
    function GroupZero(g: nat, row: nat): (c: byte)
      requires WellFormed() && g < k / GROUP && row < n
      ensures c < 16
    {
      InRange(g * GROUP, row);
      Field(qzeros[g * (n / 8) + row / 8], row % 8)
    }

    /** The scale of output `row` in group `g`. */
    function GroupScale(half: Half, g: nat, row: nat): real
      requires WellFormed() && g < k / GROUP && row < n
    {
      InRange(g * GROUP, row);
      half.toReal(scales[g * n + row])
    }

    /** The zero point for output `row` in the group covering input `i`. */
    function Zero(i: nat, row: nat): (c: byte)
      requires Has(i, row)
      ensures c < 16
    {
      GroupZero(i / GROUP, row)
    }

    /** The scale for output `row` in the group covering input `i`. */
    function Scale(half: Half, i: nat, row: nat): real
      requires Has(i, row)
    {
      GroupScale(half, i / GROUP, row)
    }

    /** One dequantized weight. */
    function Weight(half: Half, i: nat, row: nat): real
      requires Has(i, row)
    {
      (ToReal(Code(i, row)) - ToReal(Zero(i, row))) * Scale(half, i, row)
    }

    /** The scale the repacked block of group `g` stores for output `row`. */
    function StoredScale(half: Half, g: nat, row: nat): bv16
      requires WellFormed() && g < k / GROUP && row < n
    {
      half.fromReal(GroupScale(half, g, row))
    }

    /** The offset of a group, scale times zero, before it is stored. */
    function FoldedZero(half: Half, g: nat, row: nat): real
      requires WellFormed() && g < k / GROUP && row < n
    {
      GroupScale(half, g, row) * ToReal(GroupZero(g, row))
    }

    /** The folded offset that the repacked block stores. */
    function StoredOffset(half: Half, g: nat, row: nat): bv16
      requires WellFormed() && g < k / GROUP && row < n
    {
      half.fromReal(FoldedZero(half, g, row))
    }

    /** The tensor as the packer reads it. */
    function AsMatrix(half: Half): (m: Matrix)
      requires WellFormed()
    {
      Matrix(n, k / GROUP,
             (row: nat, i: nat) => if row < n && i < k then Code(i, row) else 0,
             (row: nat, g: nat) => if row < n && g < k / GROUP then StoredScale(half, g, row) else 0,
             (row: nat, g: nat) => if row < n && g < k / GROUP then StoredOffset(half, g, row) else 0)
    }

    lemma AsMatrixIsCoded(half: Half)
      requires WellFormed()
      ensures AsMatrix(half).Coded() && k / GROUP * GROUP == k
    {
    }
  }

  /** Pack the rows of one worker's chunk: `len` bytes of `out` from `start`, which hold the
      rows from `first` on. `trace` is the stores the loops issue, in order. */
  method FillRows(m: Matrix, out: array<byte>, start: nat, len: nat, first: nat, blocks: nat)
    returns (ghost trace: Program)
    requires blocks == m.nb && blocks > 0 && out.Length == m.n * blocks * BLOCK_BYTES
    requires start == first * blocks * BLOCK_BYTES
    requires len % (blocks * BLOCK_BYTES) == 0 && first + len / (blocks * BLOCK_BYTES) <= m.n
    modifies out
    ensures first * blocks <= (first + len / (blocks * BLOCK_BYTES)) * blocks
    ensures trace == BlockJob(m).Stores(first * blocks, (first + len / (blocks * BLOCK_BYTES)) * blocks)
    ensures InBounds(trace, out.Length) && out[..] == Perform(old(out[..]), trace)
    ensures BlockJob(m).Wrote(out[..], old(out[..]), first * blocks, (first + len / (blocks * BLOCK_BYTES)) * blocks)
  {
    hide BlockJob, Job.Wrote, Job.Sound, InBounds, Perform;
    var rows := len / (blocks * BLOCK_BYTES);
    ghost var was := out[..];
    trace := [];
    EmptyTrace(was);
    MulMono(first, m.n, blocks);
    for r := 0 to rows
      invariant first * blocks <= (first + r) * blocks
      invariant trace == BlockJob(m).Stores(first * blocks, (first + r) * blocks)
      invariant InBounds(trace, |was|) && out[..] == Perform(was, trace)
    {
      var row := first + r;
      assert (row + 1) * blocks == row * blocks + blocks;
      for b := 0 to blocks
        invariant trace == BlockJob(m).Stores(first * blocks, row * blocks + b)
        invariant InBounds(trace, |was|) && out[..] == Perform(was, trace)
      {
        var off := start + (r * blocks + b) * BLOCK_BYTES;
        assert off == (row * blocks + b) * BLOCK_BYTES by { Distribute(first, r, blocks); }
        UnitIsBlock(m, row, b);
        ghost var unit := FillBlock(m, out, off, row, b);
        PerformOfBoth(was, trace, unit);
        trace := trace + unit;
      }
    }
    MulMono(first + rows, m.n, blocks);
    assert |was| == m.n * blocks * BLOCK_BYTES;
    BlockJobIsSound(m);
    BlockJob(m).StoresWrite(was, first * blocks, (first + rows) * blocks);
  }

  /** One block of the loop nest: scale, folded offset, then 64 bytes of paired codes. */
  method FillBlock(m: Matrix, out: array<byte>, off: nat, row: nat, b: nat) returns (ghost trace: Program)
    requires off + BLOCK_BYTES <= out.Length
    modifies out
    ensures trace == BlockStores(m, row, b, off)
    ensures InBounds(trace, out.Length) && out[..] == Perform(old(out[..]), trace)
    ensures forall o | 0 <= o < BLOCK_BYTES :: out[off + o] == BlockByte(m, row, b, o)
    ensures forall p | 0 <= p < out.Length && !(off <= p < off + BLOCK_BYTES) :: out[p] == old(out[p])
  {
    hide Perform, LowByte, HighByte, Pair;
    ghost var was, stores := out[..], BlockStores(m, row, b, off);
    EmptyTrace(was);
    var k0 := b * GROUP;
    trace := Put(out, off, LowByte(m.scale(row, b)), was, []);
    trace := Put(out, off + 1, HighByte(m.scale(row, b)), was, trace);
    trace := Put(out, off + 2, LowByte(m.offset(row, b)), was, trace);
    trace := Put(out, off + 3, HighByte(m.offset(row, b)), was, trace);
    assert trace == stores[..4];
    for i := 0 to 64
      invariant trace == stores[..4 + i]
      invariant InBounds(trace, |was|) && out[..] == Perform(was, trace)
    {
      var lo := m.code(row, k0 + i);
      var hi := m.code(row, k0 + 64 + i);
      trace := Put(out, off + 4 + i, Pair(lo, hi), was, trace);
    }
    assert stores[..4 + 64] == stores;
    BlockStoresLand(m, row, b, off, was);
    assert forall p | 0 <= p < out.Length :: out[p] == out[..][p];
  }

  lemma Distribute(a: nat, b: nat, blocks: nat)
    ensures (a + b) * blocks == a * blocks + b * blocks
  {
  }

  /** Repack with the chunks handed out for `parallelism` available threads. */
  method Repack(t: AwqTensor, half: Half, parallelism: nat) returns (r: Outcome<seq<byte>>)
    requires parallelism > 0
    ensures r.Refused? <==> !t.WellFormed()
    ensures r.Refused? ==> r.reason == t.Check().reason
    ensures r.Panicked? <==> t.WellFormed() && (t.n == 0 || t.k == 0)
    ensures r.Ok? ==> Packs(t.AsMatrix(half), r.value)
  {
    var checked := t.Check();
    if checked.Refused? {
      return Refused(checked.reason);
    }
    var packed, _ := RepackRows(t.AsMatrix(half), parallelism);
    t.AsMatrixIsCoded(half);
    return packed;
  }

  /** The chunk loop. The stores it issues are those of the packing job, block after block. */
  method RepackRows(m: Matrix, parallelism: nat) returns (r: Outcome<seq<byte>>, ghost trace: Program)
    requires parallelism > 0
    ensures !r.Refused? && (r.Panicked? <==> m.n == 0 || m.nb == 0)
    ensures r.Ok? ==> trace == BlockJob(m).Stores(0, m.n * m.nb)
    ensures r.Ok? && m.Coded() ==> Packs(m, r.value)
  {
    hide Packs, BlockJob, Job.Sound, Job.Stores, Job.Holds, Job.Wrote, InBounds, Perform;
    trace := [];
    var blocks := m.nb;
    var out := new byte[m.n * blocks * BLOCK_BYTES](_ => 0);
    var threads := Min(parallelism, m.n);
    if threads == 0 {
      return Panicked, []; // division by zero
    }
    var perThread := CeilDiv(m.n, threads);
    if blocks * BLOCK_BYTES == 0 {
      return Panicked, []; // chunks of size zero
    }
    ghost var zeros := out[..];
    EmptyTrace(zeros);
    BlockJob(m).NoStores(0);
    var first := 0;
    while first < m.n
      invariant 0 <= first <= m.n && trace == BlockJob(m).Stores(0, first * blocks)
      invariant InBounds(trace, |zeros|) && out[..] == Perform(zeros, trace)
      decreases m.n - first
    {
      var rows := Min(perThread, m.n - first);
      trace := FillChunk(m, out, first, rows, zeros, trace);
      first := first + rows;
    }
    BlockJobIsSound(m);
    BlockJob(m).StoresWrite(zeros, 0, m.n * blocks);
    if m.Coded() {
      BlockJob(m).WroteHolds(out[..], zeros, 0, m.n * blocks);
      FilledIsPacked(m, out[..]);
    }
    return Ok(out[..]), trace;
  }

  /** One chunk of whole rows, after the chunks before it. */
  method FillChunk(m: Matrix, out: array<byte>, first: nat, rows: nat, ghost was: seq<byte>, ghost trace: Program)
    returns (ghost longer: Program)
    requires m.nb > 0 && first + rows <= m.n && out.Length == |was| == m.n * m.nb * BLOCK_BYTES
    requires trace == BlockJob(m).Stores(0, first * m.nb) && InBounds(trace, |was|) && out[..] == Perform(was, trace)
    modifies out
    ensures longer == BlockJob(m).Stores(0, (first + rows) * m.nb)
    ensures InBounds(longer, |was|) && out[..] == Perform(was, longer)
  {
    hide BlockJob, Job.Sound, Job.Stores, Job.Wrote, InBounds, Perform;
    var rowBytes := m.nb * BLOCK_BYTES;
    ChunkShape(first, rows, m.nb);
    MulMono(first, first + rows, m.nb);
    ghost var chunk := FillRows(m, out, first * rowBytes, rows * rowBytes, first, m.nb);
    BlockJob(m).StoresJoin(0, first * m.nb, (first + rows) * m.nb);
    PerformOfBoth(was, trace, chunk);
    longer := trace + chunk;
  }

  lemma ChunkShape(first: nat, rows: nat, blocks: nat)
    requires blocks > 0
    ensures rows * (blocks * BLOCK_BYTES) % (blocks * BLOCK_BYTES) == 0
    ensures rows * (blocks * BLOCK_BYTES) / (blocks * BLOCK_BYTES) == rows
    ensures first * (blocks * BLOCK_BYTES) == first * blocks * BLOCK_BYTES
  {
    DivMod(rows, blocks * BLOCK_BYTES, 0);
    MulAssoc(first, blocks, BLOCK_BYTES);
  }

  // ---- the same repacking, with the workers running at once -----------------

  /** The programs of the spawned workers, each given `per` rows: the stores that `FillRows` issues
      for them. */
  function RepackWorkers(t: AwqTensor, half: Half, per: nat): seq<Program>
    requires t.WellFormed() && per > 0
  {
    BlockJob(t.AsMatrix(half)).Workers(t.n, t.k / GROUP, per)
  }

  /** However many workers share the rows and however their byte stores interleave, no two of
      them touch the same byte and the buffer they leave behind is the packed matrix. */
  lemma AnyInterleavingPacks(t: AwqTensor, half: Half, per: nat, mem: seq<byte>, schedule: seq<nat>)
    requires t.WellFormed() && per > 0 && |mem| == t.n * (t.k / GROUP) * BLOCK_BYTES
    ensures AllInBounds(RepackWorkers(t, half, per), |mem|) && Disjoint(RepackWorkers(t, half, per))
    ensures Joined(RepackWorkers(t, half, per), Interleave(RepackWorkers(t, half, per), mem, schedule)) ==>
              Packs(t.AsMatrix(half), Interleave(RepackWorkers(t, half, per), mem, schedule).mem)
  {
    hide Job.Workers, Job.Sound, AwqTensor.Check, Packs;
    var m := t.AsMatrix(half);
    t.AsMatrixIsCoded(half);
    BlockJobIsSound(m);
    BlockJob(m).WorkersAreDisjoint(m.n, m.nb, per);
    if Joined(RepackWorkers(t, half, per), Interleave(RepackWorkers(t, half, per), mem, schedule)) {
      EveryInterleavingPacks(m, per, mem, schedule);
    }
  }

  // ---- what a repacked tensor reads back as ----------------------------------

  /** Row `row` of the repacked tensor decodes to the codes of output `row`, each under its own
      group's stored scale and stored offset. */
  lemma RepackedRowDecodes(t: AwqTensor, half: Half, packed: seq<byte>, row: nat, i: nat)
    requires t.Has(i, row) && Packs(t.AsMatrix(half), packed)
    ensures (row + 1) * (t.k / GROUP) * BLOCK_BYTES <= |packed|
    ensures PackedRow(half, packed, t.k, row)[i]
         == ToReal(t.Code(i, row)) * half.toReal(t.StoredScale(half, i / GROUP, row))
            - half.toReal(t.StoredOffset(half, i / GROUP, row))
  {
    hide ToReal, PackedRow, Packs, Field;
    t.AsMatrixIsCoded(half);
    PackedRowDecodes(half, t.AsMatrix(half), packed, t.k, row, i);
  }

  lemma ScaleIsStoredExactly(t: AwqTensor, half: Half, g: nat, row: nat)
    requires t.WellFormed() && g < t.k / GROUP && row < t.n && half.Lawful()
    ensures half.toReal(t.StoredScale(half, g, row)) == t.GroupScale(half, g, row)
  {
    t.InRange(g * GROUP, row);
    var h := t.scales[g * t.n + row];
    assert half.toReal(half.fromReal(half.toReal(h))) == half.toReal(h);
  }

  /** The only difference from the dequantized weight is the rounding of the folded offset:
      the scale itself is stored exactly. */
  lemma RepackedWeightError(t: AwqTensor, half: Half, packed: seq<byte>, row: nat, i: nat)
    requires t.Has(i, row) && Packs(t.AsMatrix(half), packed) && half.Lawful()
    ensures i / GROUP < t.k / GROUP && (row + 1) * (t.k / GROUP) * BLOCK_BYTES <= |packed|
    ensures PackedRow(half, packed, t.k, row)[i] - t.Weight(half, i, row)
         == t.FoldedZero(half, i / GROUP, row) - half.toReal(half.fromReal(t.FoldedZero(half, i / GROUP, row)))
  {
    hide ToReal, PackedRow, Packs, Field, AwqTensor.Check, AwqTensor.Code, AwqTensor.GroupZero, AwqTensor.GroupScale,
         AwqTensor.AsMatrix;
    var g := i / GROUP;
    t.AsMatrixIsCoded(half);
    RepackedRowDecodes(t, half, packed, row, i);
    ScaleIsStoredExactly(t, half, g, row);
  }
}
