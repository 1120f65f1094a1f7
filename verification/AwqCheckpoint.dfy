/** What the repacked form of an AWQ checkpoint reads back as, in terms of what was written into the
    checkpoint (crates/kernels/src/awq.rs). */
module AwqCheckpoint {
  import opened Arith
  import opened Workers
  import opened Q4Block
  import opened AwqLayout
  import opened AwqTranspose

  /** The eight codes that go into word `w` of line `i`. */
  function WordCodes(c: (nat, nat) -> byte, i: nat, w: nat): (r: seq<byte>)
    ensures |r| == 8 && forall j | 0 <= j < 8 :: r[j] == c(i, 8 * w + j)
  {
    seq(8, j requires 0 <= j < 8 => c(i, 8 * w + j))
  }

  /** `words` holds `lines` lines of `n` codes below sixteen, each eight of them as AutoAWQ writes them. */
  ghost predicate HoldsCodes(words: seq<bv32>, c: (nat, nat) -> byte, lines: nat, n: nat) {
    && |words| == lines * (n / 8)
    && (forall i, r | 0 <= i < lines && 0 <= r < n :: c(i, r) < 16)
    && (forall i, w | 0 <= i < lines && 0 <= w < n / 8 :: WordIs(words, i * (n / 8) + w, WordCodes(c, i, w)))
  }

  ghost predicate WordIs(words: seq<bv32>, at: nat, codes: seq<byte>) {
    |codes| == 8 && at < |words| && words[at] == AutoAwqWord(codes)
  }

  ghost predicate HoldsScales(scales: seq<bv16>, s: (nat, nat) -> bv16, groups: nat, n: nat) {
    && |scales| == groups * n
    && forall g, r | 0 <= g < groups && 0 <= r < n :: ScaleIs(scales, g * n + r, s(g, r))
  }

  ghost predicate ScaleIs(scales: seq<bv16>, at: nat, h: bv16) {
    at < |scales| && scales[at] == h
  }

  /** A checkpoint of `n` outputs and `k` inputs into which the codes `c`, the zeros `z` and the scales
      `s` have been written. */
  ghost predicate WrittenAs(t: AwqTensor, c: (nat, nat) -> byte, z: (nat, nat) -> byte, s: (nat, nat) -> bv16) {
    && t.k % 128 == 0 && t.n % 8 == 0
    && HoldsCodes(t.qweight, c, t.k, t.n) && HoldsCodes(t.qzeros, z, t.k / 128, t.n)
    && HoldsScales(t.scales, s, t.k / 128, t.n)
  }

  lemma WordsOfLines(lines: nat, n: nat)
    requires n % 8 == 0
    ensures lines * n / 8 == lines * (n / 8)
  {
    var w := n / 8;
    assert lines * n == 8 * (lines * w);
  }

  lemma CodeWritten(words: seq<bv32>, c: (nat, nat) -> byte, lines: nat, n: nat, i: nat, r: nat)
    requires HoldsCodes(words, c, lines, n) && n % 8 == 0 && i < lines && r < n
    ensures i * (n / 8) + r / 8 < |words| && Field(words[i * (n / 8) + r / 8], r % 8) == c(i, r)
  {
    hide Field, AutoAwqWord;
    var w, m := r / 8, r % 8;
    assert w < n / 8 && r == 8 * w + m;
    assert WordIs(words, i * (n / 8) + w, WordCodes(c, i, w));
    FieldReadsAutoAwqWord(WordCodes(c, i, w), m);
  }

  /** A written checkpoint is accepted, and its codes, zeros and scales are those written. */
  lemma WrittenIsRead(t: AwqTensor, c: (nat, nat) -> byte, z: (nat, nat) -> byte, s: (nat, nat) -> bv16, half: Half,
                      i: nat, r: nat)
    requires WrittenAs(t, c, z, s) && i < t.k && r < t.n
    ensures t.Has(i, r) && i / 128 < t.k / 128 && t.Code(i, r) == c(i, r) && t.GroupZero(i / 128, r) == z(i / 128, r)
    ensures t.GroupScale(half, i / 128, r) == half.toReal(s(i / 128, r))
  {
    hide Field, HoldsCodes;
    WordsOfLines(t.k, t.n);
    WordsOfLines(t.k / 128, t.n);
    assert |t.qweight| == t.k * (t.n / 8) && |t.qzeros| == t.k / 128 * (t.n / 8) by {
      Lengths(t.qweight, c, t.k, t.n);
      Lengths(t.qzeros, z, t.k / 128, t.n);
    }
    assert i / 128 < t.k / 128;
    CodeWritten(t.qweight, c, t.k, t.n, i, r);
    CodeWritten(t.qzeros, z, t.k / 128, t.n, i / 128, r);
    assert ScaleIs(t.scales, i / 128 * t.n + r, s(i / 128, r));
  }

  lemma Lengths(words: seq<bv32>, c: (nat, nat) -> byte, lines: nat, n: nat)
    requires HoldsCodes(words, c, lines, n)
    ensures |words| == lines * (n / 8)
  {
  }

  /** The weight of input `i` for output `r` is the code less the zero, scaled. */
  lemma WrittenWeight(t: AwqTensor, c: (nat, nat) -> byte, z: (nat, nat) -> byte, s: (nat, nat) -> bv16, half: Half,
                      i: nat, r: nat)
    requires WrittenAs(t, c, z, s) && i < t.k && r < t.n
    ensures t.Has(i, r)
    ensures t.Weight(half, i, r) == (ToReal(c(i, r)) - ToReal(z(i / 128, r))) * half.toReal(s(i / 128, r))
  {
    hide ToReal, WrittenAs, AwqTensor.Check;
    WrittenIsRead(t, c, z, s, half, i, r);
  }

  /** Repacked and read back, row `r` gives at every input `i` the code written for `(i, r)` times the
      scale written for the group, less the stored product of that scale and the zero written. */
  lemma WrittenReadsBack(t: AwqTensor, c: (nat, nat) -> byte, z: (nat, nat) -> byte, s: (nat, nat) -> bv16,
                         half: Half, packed: seq<byte>, i: nat, r: nat)
    requires WrittenAs(t, c, z, s) && half.Lawful() && i < t.k && r < t.n
    requires t.WellFormed() && Packs(t.AsMatrix(half), packed)
    ensures (r + 1) * (t.k / 128) * 68 <= |packed| && IsInvolution(Shuffle) && RowIsThere(|packed|, t.k, t.n, r)
    ensures PackedRow(half, packed, t.k, r)[i]
         == TransposedRow(half, Shuffle, Transposed(Shuffle, packed, t.n * (t.k / 128)), t.k, t.n, r)[i]
         == ToReal(c(i, r)) * half.toReal(s(i / 128, r))
            - half.toReal(half.fromReal(half.toReal(s(i / 128, r)) * ToReal(z(i / 128, r))))
  {
    hide ToReal, PackedRow, TransposedRow, Transposed, Packs, WrittenAs, RowIsThere, IsInvolution, AwqTensor.Check;
    hide AwqTensor.AsMatrix, AwqTensor.GroupZero, AwqTensor.GroupScale, AwqTensor.Code;
    WrittenIsRead(t, c, z, s, half, i, r);
    ScaleIsStoredExactly(t, half, i / 128, r);
    RepackedRowDecodes(t, half, packed, r, i);
    TransposedRepackDecodes(t, half, packed, r, i);
    assert t.FoldedZero(half, i / 128, r) == half.toReal(s(i / 128, r)) * ToReal(z(i / 128, r));
    assert t.StoredOffset(half, i / 128, r) == half.fromReal(t.FoldedZero(half, i / 128, r));
  }

  /** The same for the buffer that any number of workers in any interleaving leave behind. */
  lemma ConcurrentlyWrittenReadsBack(t: AwqTensor, c: (nat, nat) -> byte, z: (nat, nat) -> byte,
                                     s: (nat, nat) -> bv16, half: Half, per: nat, mem: seq<byte>,
                                     schedule: seq<nat>, i: nat, r: nat)
    requires WrittenAs(t, c, z, s) && half.Lawful() && i < t.k && r < t.n
    requires t.WellFormed() && per > 0 && |mem| == t.n * (t.k / 128) * 68
    ensures AllInBounds(RepackWorkers(t, half, per), |mem|) && IsInvolution(Shuffle)
    ensures RowIsThere(|mem|, t.k, t.n, r)
    ensures var left := Interleave(RepackWorkers(t, half, per), mem, schedule);
            Joined(RepackWorkers(t, half, per), left) ==>
              TransposedRow(half, Shuffle, Transposed(Shuffle, left.mem, t.n * (t.k / 128)), t.k, t.n, r)[i]
              == ToReal(c(i, r)) * half.toReal(s(i / 128, r))
                 - half.toReal(half.fromReal(half.toReal(s(i / 128, r)) * ToReal(z(i / 128, r))))
  {
    hide ToReal, TransposedRow, Transposed, Packs, WrittenAs, RepackWorkers, AwqTensor.Check, Half.Lawful;
    ShuffleIsInvolution();
    WholeTensorHasRow(|mem|, t.k, t.n, r);
    hide RowIsThere, IsInvolution;
    AnyInterleavingPacks(t, half, per, mem, schedule);
    var left := Interleave(RepackWorkers(t, half, per), mem, schedule);
    if Joined(RepackWorkers(t, half, per), left) {
      WrittenReadsBack(t, c, z, s, half, left.mem, i, r);
    }
  }

  // ---- the shapes that are accepted ------------------------------------------

  /** Exactly the tensors whose inputs come in whole groups, whose outputs in whole words, and whose three
      arrays have a place for each: the first thing amiss is the reason given. */
  lemma CheckIsExact(t: AwqTensor)
    ensures t.Check().Ok? <==> t.k % 128 == 0 && t.n % 8 == 0 && 8 * |t.qweight| == t.k * t.n &&
                               1024 * |t.qzeros| == t.k * t.n && 128 * |t.scales| == t.k * t.n
    ensures !t.Check().Panicked?
    ensures t.k % 128 != 0 ==> t.Check() == Refused(RaggedInput(t.k))
    ensures t.k % 128 == 0 && t.n % 8 != 0 ==> t.Check() == Refused(RaggedOutput(t.n))
  {
    if t.k % 128 == 0 && t.n % 8 == 0 {
      var g, w := t.k / 128, t.n / 8;
      WordsOfLines(t.k, t.n);
      WordsOfLines(g, t.n);
      assert t.k == 128 * g && t.n == 8 * w;
      assert t.k * t.n == 8 * (t.k * w) == 1024 * (g * w) == 128 * (g * t.n);
    }
  }

  // ---- the bytes themselves --------------------------------------------------

  /** A packed block byte by byte: the scale and the offset, low byte first, then code `i` in the low and
      code `i + 64` in the high half of byte `4 + i`. */
  lemma PackedBytes(m: Matrix, packed: seq<byte>, row: nat, b: nat, i: nat)
    requires Packs(m, packed) && row < m.n && b < m.nb && i < 64
    ensures (row * m.nb + b) * 68 + 68 <= |packed|
    ensures var block := packed[(row * m.nb + b) * 68..(row * m.nb + b) * 68 + 68];
            && block[0] == (m.scale(row, b) & 0xFF) as bv8 && block[1] == (m.scale(row, b) >> 8) as bv8
            && block[2] == (m.offset(row, b) & 0xFF) as bv8 && block[3] == (m.offset(row, b) >> 8) as bv8
            && block[4 + i] == m.code(row, 128 * b + i) | (m.code(row, 128 * b + i + 64) << 4)
  {
    var g := row * m.nb + b;
    Flat(row, m.n, b, m.nb);
    DivMod(row, m.nb, b);
    assert BlockIs(m, packed, g);
    var block := packed[g * 68..g * 68 + 68];
    forall o | 0 <= o < 68 ensures block[o] == BlockByte(m, row, b, o) {
      assert At(packed, g, o) == BlockByte(m, row, b, o);
    }
    assert block[4 + i] == BlockByte(m, row, b, 4 + i);
  }

  lemma MovedBytes(move: nat -> nat, out: seq<byte>, packed: seq<byte>, blocks: nat, g: nat, j: nat, i: nat)
    requires Moved(move, out, packed, blocks, blocks) && IsInvolution(move) && g < blocks && j < 64 && i < 4
    requires |packed| == blocks * 68 == |out|
    ensures move(j) < 64 && out[g * 64 + move(j)] == packed[g * 68 + 4 + j]
    ensures out[blocks * 64 + g * 4 + i] == packed[g * 68 + i]
  {
    var k := move(j);
    assert k < 64 && move(k) == j;
    assert CodeAt(out, g, k) == At(packed, g, 4 + j);
    assert ScaleAt(out, blocks, g, i) == At(packed, g, i);
  }

  /** A word-transposed tensor byte by byte: all code bytes first, with byte `i` of word `c` of run `w` of
      a block at place `[0, 2, 1, 3][i]` of word `w` of run `c`; then the blocks' scale pairs. */
  lemma TransposedBytes(packed: seq<byte>, blocks: nat, g: nat, w: nat, c: nat, i: nat)
    requires |packed| == blocks * 68 && g < blocks && w < 4 && c < 4 && i < 4
    ensures IsInvolution(Shuffle)
    ensures var out := Transposed(Shuffle, packed, blocks);
            && out[g * 64 + c * 16 + w * 4 + [0, 2, 1, 3][i]] == packed[g * 68 + 4 + w * 16 + c * 4 + i]
            && out[blocks * 64 + g * 4 + i] == packed[g * 68 + i]
  {
    ShuffleIsInvolution();
    TransposedIsMoved(Shuffle, packed, blocks);
    hide Transposed, IsInvolution, Shuffle, Moved, P;
    MovedBytes(Shuffle, Transposed(Shuffle, packed, blocks), packed, blocks, g, w * 16 + c * 4 + i, i);
    ShufflePlace(c, w, i);
    PlaceOfByte(i);
  }

  lemma PlaceOfByte(i: nat)
    requires i < 4
    ensures P(i) == [0, 2, 1, 3][i]
  {
  }
}
