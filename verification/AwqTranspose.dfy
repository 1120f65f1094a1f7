/** The word-transposed layout of packed 4-bit blocks, its reader, and the fusion of two
    word-transposed tensors (crates/kernels/src/awq.rs). */
module AwqTranspose {
  import opened Arith
  import opened Workers
  import opened Q4Block
  import opened AwqLayout

  // ---- the rearrangement inside a block --------------------------------------

  /** `[0, 2, 1, 3]`: where byte `i` of a word goes. */
  function P(i: nat): nat {
    if i == 1 then 2 else if i == 2 then 1 else i
  }

  /** Where byte `j` of a block's 64 code bytes goes. */
  function Shuffle(j: nat): nat {
    if j < 64 then
      var w, c, i := j / 16, j % 16 / 4, j % 4;
      c * 16 + w * 4 + P(i)
    else j
  }

  /** A rearrangement of the 64 code bytes that undoes itself. */
  ghost predicate IsInvolution(move: nat -> nat) {
    forall j | 0 <= j < 64 :: move(j) < 64 && move(move(j)) == j
  }

  lemma ShufflePlace(c: nat, w: nat, i: nat)
    requires c < 4 && w < 4 && i < 4
    ensures Shuffle(w * 16 + c * 4 + i) == c * 16 + w * 4 + P(i) < 64
  {
    var j := w * 16 + c * 4 + i;
    DivMod(w, 16, c * 4 + i);
    DivMod(c, 4, i);
    assert j == (w * 4 + c) * 4 + i;
    DivMod(w * 4 + c, 4, i);
  }

  /** The rearrangement inside a block is its own inverse. */
  lemma ShuffleIsInvolution()
    ensures IsInvolution(Shuffle)
  {
    forall j | 0 <= j < 64 ensures Shuffle(j) < 64 && Shuffle(Shuffle(j)) == j {
      var w, c, i := j / 16, j % 16 / 4, j % 4;
      assert j == w * 16 + c * 4 + i;
      ShufflePlace(c, w, i);
      ShufflePlace(w, c, P(i));
    }
  }

  // ---- the layout ------------------------------------------------------------

  /** Code byte `j` of block `g` in the transposed layout. */
  function CodeAt(bytes: seq<byte>, g: nat, j: nat): byte
    requires g * 64 + 64 <= |bytes| && j < 64
  {
    bytes[g * 64 + j]
  }

  /** Byte `o` of block `g`'s scale pair in the transposed layout of `blocks` blocks. */
  function ScaleAt(bytes: seq<byte>, blocks: nat, g: nat, o: nat): byte
    requires blocks * 64 + g * 4 + 4 <= |bytes| && o < 4
  {
    bytes[blocks * 64 + g * 4 + o]
  }

  /** `out` is the transposed form of `packed` as far as its first `done` blocks go: the scale
      pairs have a region of their own and code byte `j` holds packed code byte `move(j)`. */
  ghost predicate Moved(move: nat -> nat, out: seq<byte>, packed: seq<byte>, blocks: nat, done: nat) {
    && |out| == |packed| == blocks * BLOCK_BYTES && done <= blocks
    && (forall g, o | 0 <= g < done && 0 <= o < 4 :: ScaleAt(out, blocks, g, o) == At(packed, g, o))
    && (forall g, j | 0 <= g < done && 0 <= j < 64 && move(j) < 64 :: CodeAt(out, g, j) == At(packed, g, 4 + move(j)))
  }

  /** The transposed form: all code bytes, rearranged within each block, then all scale pairs. */
  function Transposed(move: nat -> nat, packed: seq<byte>, blocks: nat): (r: seq<byte>)
    requires |packed| == blocks * BLOCK_BYTES && IsInvolution(move)
    ensures |r| == |packed|
  {
    seq(blocks * 64, q requires 0 <= q < blocks * 64 => At(packed, q / 64, 4 + move(q % 64)))
    + seq(blocks * 4, q requires 0 <= q < blocks * 4 => At(packed, q / 4, q % 4))
  }

  lemma TransposedIsMoved(move: nat -> nat, packed: seq<byte>, blocks: nat)
    requires |packed| == blocks * BLOCK_BYTES && IsInvolution(move)
    ensures Moved(move, Transposed(move, packed, blocks), packed, blocks, blocks)
  {
    var out := Transposed(move, packed, blocks);
    forall g, o | 0 <= g < blocks && 0 <= o < 4 ensures ScaleAt(out, blocks, g, o) == At(packed, g, o) {
      DivMod(g, 4, o);
    }
    forall g, j | 0 <= g < blocks && 0 <= j < 64 ensures CodeAt(out, g, j) == At(packed, g, 4 + move(j)) {
      DivMod(g, 64, j);
    }
  }

  /** Naming every block's scale pair and code bytes names every byte. */
  lemma MovedIsUnique(move: nat -> nat, out: seq<byte>, packed: seq<byte>, blocks: nat)
    requires Moved(move, out, packed, blocks, blocks) && IsInvolution(move)
    ensures out == Transposed(move, packed, blocks)
  {
    var r := Transposed(move, packed, blocks);
    TransposedIsMoved(move, packed, blocks);
    forall q | 0 <= q < |r| ensures out[q] == r[q] {
      if q < blocks * 64 {
        var g, j := q / 64, q % 64;
        assert move(j) < 64;
        assert CodeAt(out, g, j) == CodeAt(r, g, j);
      } else {
        var p := q - blocks * 64;
        assert ScaleAt(out, blocks, p / 4, p % 4) == ScaleAt(r, blocks, p / 4, p % 4);
      }
    }
  }

  /** Undoing the transpose: the packed byte at each place, found in the transposed form. */
  function Restored(move: nat -> nat, moved: seq<byte>, blocks: nat): (r: seq<byte>)
    requires |moved| == blocks * BLOCK_BYTES && IsInvolution(move)
    ensures |r| == |moved|
  {
    seq(blocks * BLOCK_BYTES, p requires 0 <= p < blocks * BLOCK_BYTES =>
      if p % BLOCK_BYTES < 4 then ScaleAt(moved, blocks, p / BLOCK_BYTES, p % BLOCK_BYTES)
      else CodeAt(moved, p / BLOCK_BYTES, move(p % BLOCK_BYTES - 4)))
  }

  lemma RestoredAt(move: nat -> nat, moved: seq<byte>, blocks: nat, g: nat, o: nat)
    requires |moved| == blocks * BLOCK_BYTES && g < blocks && o < BLOCK_BYTES && IsInvolution(move)
    ensures At(Restored(move, moved, blocks), g, o)
         == if o < 4 then ScaleAt(moved, blocks, g, o) else CodeAt(moved, g, move(o - 4))
  {
    DivMod(g, BLOCK_BYTES, o);
  }

  lemma RestoredByte(move: nat -> nat, moved: seq<byte>, bytes: seq<byte>, blocks: nat, g: nat, o: nat)
    requires Moved(move, moved, bytes, blocks, blocks) && IsInvolution(move) && g < blocks && o < BLOCK_BYTES
    ensures At(Restored(move, moved, blocks), g, o) == At(bytes, g, o)
  {
    RestoredAt(move, moved, blocks, g, o);
    if o < 4 {
      assert ScaleAt(moved, blocks, g, o) == At(bytes, g, o);
    } else {
      var j := move(o - 4);
      assert j < 64 && move(j) == o - 4;
      assert CodeAt(moved, g, j) == At(bytes, g, 4 + move(j));
    }
  }

  /** No byte is lost: what was moved can be put back. */
  lemma RestoredTransposed(move: nat -> nat, bytes: seq<byte>, blocks: nat)
    requires |bytes| == blocks * BLOCK_BYTES && IsInvolution(move)
    ensures Restored(move, Transposed(move, bytes, blocks), blocks) == bytes
  {
    var moved := Transposed(move, bytes, blocks);
    TransposedIsMoved(move, bytes, blocks);
    forall p | 0 <= p < |bytes| ensures Restored(move, moved, blocks)[p] == bytes[p] {
      RestoredByte(move, moved, bytes, blocks, p / BLOCK_BYTES, p % BLOCK_BYTES);
    }
  }

  /** No byte is repeated: every buffer is the transposed form of some packed buffer. */
  lemma TransposedRestored(move: nat -> nat, bytes: seq<byte>, blocks: nat)
    requires |bytes| == blocks * BLOCK_BYTES && IsInvolution(move)
    ensures Transposed(move, Restored(move, bytes, blocks), blocks) == bytes
  {
    var back := Restored(move, bytes, blocks);
    forall g, o | 0 <= g < blocks && 0 <= o < 4 ensures ScaleAt(bytes, blocks, g, o) == At(back, g, o) {
      RestoredAt(move, bytes, blocks, g, o);
    }
    forall g, j | 0 <= g < blocks && 0 <= j < 64 && move(j) < 64
      ensures CodeAt(bytes, g, j) == At(back, g, 4 + move(j))
    {
      RestoredAt(move, bytes, blocks, g, 4 + move(j));
    }
    MovedIsUnique(move, bytes, back, blocks);
  }

  /** The transpose of whole tensors is a bijection on buffers. */
  lemma TransposeIsBijective(bytes: seq<byte>, blocks: nat)
    requires |bytes| == blocks * BLOCK_BYTES
    ensures IsInvolution(Shuffle)
    ensures Restored(Shuffle, Transposed(Shuffle, bytes, blocks), blocks) == bytes
    ensures Transposed(Shuffle, Restored(Shuffle, bytes, blocks), blocks) == bytes
  {
    ShuffleIsInvolution();
    RestoredTransposed(Shuffle, bytes, blocks);
    TransposedRestored(Shuffle, bytes, blocks);
  }

  /** Bytes past the tensor's own are ignored; a buffer that lacks some of them is read past its end. */
  method TransposeWords(buffer: seq<byte>, k: nat, n: nat) returns (r: Outcome<seq<byte>>)
    ensures IsInvolution(Shuffle)
    ensures !r.Refused? && (r.Panicked? <==> |buffer| < n * (k / GROUP) * BLOCK_BYTES)
    ensures r.Ok? ==> r.value == Transposed(Shuffle, buffer[..n * (k / GROUP) * BLOCK_BYTES], n * (k / GROUP))
  {
    ShuffleIsInvolution();
    var nb := k / GROUP;
    var out := new byte[n * nb * BLOCK_BYTES](_ => 0);
    if |buffer| < n * nb * BLOCK_BYTES {
      return Panicked; // at the first block that is not there
    }
    var packed := buffer[..n * nb * BLOCK_BYTES];
    var scales := n * nb * 64;
    for row := 0 to n
      invariant Moved(Shuffle, out[..], packed, n * nb, row * nb)
    {
      MulMono(row + 1, n, nb);
      assert (row + 1) * nb == row * nb + nb;
      for b := 0 to nb
        invariant Moved(Shuffle, out[..], packed, n * nb, row * nb + b)
      {
        MoveBlock(out, packed, row * nb + b, n * nb, scales);
      }
    }
    MovedIsUnique(Shuffle, out[..], packed, n * nb);
    return Ok(out[..]);
  }

  /** One block of the loop nest: its scale pair goes to the scale region, its code bytes to
      their shuffled places. */
  method MoveBlock(out: array<byte>, packed: seq<byte>, g: nat, blocks: nat, scales: nat)
    requires g < blocks && |packed| == blocks * BLOCK_BYTES && scales == blocks * 64
    requires IsInvolution(Shuffle) && Moved(Shuffle, out[..], packed, blocks, g)
    modifies out
    ensures Moved(Shuffle, out[..], packed, blocks, g + 1)
  {
    var src := g * BLOCK_BYTES;
    var so := scales + g * 4;
    ghost var start := out[..];
    forall i | 0 <= i < 4 { out[so + i] := packed[src + i]; }
    ghost var before := out[..];
    MoveCodes(out, packed[src + 4..src + BLOCK_BYTES], g * 64);
    ghost var after := out[..];
    forall h, o | 0 <= h < g + 1 && 0 <= o < 4 ensures ScaleAt(after, blocks, h, o) == At(packed, h, o) {
      assert after[blocks * 64 + h * 4 + o] == before[blocks * 64 + h * 4 + o];
      if h < g {
        assert ScaleAt(start, blocks, h, o) == At(packed, h, o);
      }
    }
    forall h, j | 0 <= h < g + 1 && 0 <= j < 64 && Shuffle(j) < 64
      ensures CodeAt(after, h, j) == At(packed, h, 4 + Shuffle(j))
    {
      if h < g {
        assert CodeAt(start, h, j) == At(packed, h, 4 + Shuffle(j));
        assert after[h * 64 + j] == before[h * 64 + j];
      } else {
        WordsAreShuffled(after, packed[src + 4..src + BLOCK_BYTES], g * 64, j);
      }
    }
  }

  /** Word `w` of destination run `c` holds the word the transpose sends there. */
  ghost predicate WordMoved(out: seq<byte>, qs: seq<byte>, dst: nat, c: nat, w: nat) {
    && c < 4 && w < 4 && |qs| == 64 && dst + 64 <= |out|
    && forall i | 0 <= i < 4 :: out[dst + c * 16 + w * 4 + i] == qs[w * 16 + c * 4 + P(i)]
  }

  /** The 4x4 word transpose of one block's code bytes. */
  method MoveCodes(out: array<byte>, qs: seq<byte>, dst: nat)
    requires |qs| == 64 && dst + 64 <= out.Length
    modifies out
    ensures forall c, w | 0 <= c < 4 && 0 <= w < 4 :: WordMoved(out[..], qs, dst, c, w)
    ensures forall q | 0 <= q < out.Length && !(dst <= q < dst + 64) :: out[q] == old(out[q])
  {
    for c := 0 to 4
      invariant forall c', w | 0 <= c' < c && 0 <= w < 4 :: WordMoved(out[..], qs, dst, c', w)
      invariant forall q | 0 <= q < out.Length && !(dst <= q < dst + 64) :: out[q] == old(out[q])
    {
      for w := 0 to 4
        invariant forall c', w' | 0 <= c' < 4 && 0 <= w' < 4 && (c' < c || (c' == c && w' < w)) ::
                    WordMoved(out[..], qs, dst, c', w')
        invariant forall q | 0 <= q < out.Length && !(dst <= q < dst + 64) :: out[q] == old(out[q])
      {
        ghost var was := out[..];
        MoveWord(out, qs, dst + c * 16 + w * 4, w * 16 + c * 4);
        forall c', w' | 0 <= c' < 4 && 0 <= w' < 4 && (c' < c || (c' == c && w' < w))
          ensures WordMoved(out[..], qs, dst, c', w')
        {
          assert WordMoved(was, qs, dst, c', w');
        }
      }
    }
  }

  lemma WordsAreShuffled(out: seq<byte>, qs: seq<byte>, dst: nat, j: nat)
    requires |qs| == 64 && dst + 64 <= |out| && j < 64
    requires forall c, w | 0 <= c < 4 && 0 <= w < 4 :: WordMoved(out, qs, dst, c, w)
    ensures Shuffle(j) < 64 && out[dst + j] == qs[Shuffle(j)]
  {
    hide Shuffle;
    var c, w, i := j / 16, j % 16 / 4, j % 4;
    ShufflePlace(w, c, i);
    assert WordMoved(out, qs, dst, c, w);
    assert out[dst + c * 16 + w * 4 + i] == qs[w * 16 + c * 4 + P(i)];
  }

  /** The innermost loop: the four bytes of one word, in the order `P`. */
  method MoveWord(out: array<byte>, qs: seq<byte>, at: nat, from: nat)
    requires from + 4 <= |qs| && at + 4 <= out.Length
    modifies out
    ensures forall i | 0 <= i < 4 :: out[at + i] == qs[from + P(i)]
    ensures forall q | 0 <= q < out.Length && !(at <= q < at + 4) :: out[q] == old(out[q])
  {
    for i := 0 to 4
      invariant forall e | 0 <= e < 4 && P(e) < i :: out[at + e] == qs[from + P(e)]
      invariant forall q | 0 <= q < out.Length && !(at <= q < at + 4) :: out[q] == old(out[q])
    {
      out[at + P(i)] := qs[from + i];
    }
  }

  // ---- reading a transposed row ----------------------------------------------

  /** A buffer of `size` bytes reaches to the end of block `g`'s code bytes and of its scale pair. */
  predicate BlockIsThere(size: nat, blocks: nat, g: nat) {
    g * 64 + 64 <= size && blocks * 64 + g * 4 + 4 <= size
  }

  /** It reaches to the end of the last block of row `row`, if the row has any. */
  predicate RowIsThere(size: nat, k: nat, n: nat, row: nat) {
    k / GROUP > 0 ==> BlockIsThere(size, n * (k / GROUP), row * (k / GROUP) + (k / GROUP - 1))
  }

  lemma WholeTensorHasRow(size: nat, k: nat, n: nat, row: nat)
    requires row < n && n * (k / GROUP) * BLOCK_BYTES <= size
    ensures RowIsThere(size, k, n, row)
  {
    if k / GROUP > 0 {
      Flat(row, n, k / GROUP - 1, k / GROUP);
    }
  }

  /** Element `m` of block `g` in the transposed layout of `blocks` blocks. */
  function MovedWeight(half: Half, move: nat -> nat, bytes: seq<byte>, blocks: nat, g: nat, m: nat): real
    requires BlockIsThere(|bytes|, blocks, g) && m < GROUP && IsInvolution(move)
  {
    Decode(half, FromLe(ScaleAt(bytes, blocks, g, 0), ScaleAt(bytes, blocks, g, 1)),
           FromLe(ScaleAt(bytes, blocks, g, 2), ScaleAt(bytes, blocks, g, 3)),
           CodeAt(bytes, g, move(m % 64)), m >= 64)
  }

  /** Row `row` of a transposed tensor of `n` rows, as the reader returns it. */
  function TransposedRow(half: Half, move: nat -> nat, bytes: seq<byte>, k: nat, n: nat, row: nat): (r: seq<real>)
    requires RowIsThere(|bytes|, k, n, row) && IsInvolution(move)
    ensures |r| == k / GROUP * GROUP
  {
    seq(k / GROUP * GROUP, i requires 0 <= i < k / GROUP * GROUP =>
      MovedWeight(half, move, bytes, n * (k / GROUP), row * (k / GROUP) + i / GROUP, i % GROUP))
  }

  /** The row after one more block. */
  lemma TransposedRowExtends(half: Half, bytes: seq<byte>, k: nat, n: nat, row: nat, b: nat, block: seq<real>)
    requires RowIsThere(|bytes|, k, n, row) && IsInvolution(Shuffle) && b < k / GROUP && |block| == GROUP
    requires forall m | 0 <= m < GROUP ::
               block[m] == MovedWeight(half, Shuffle, bytes, n * (k / GROUP), row * (k / GROUP) + b, m)
    ensures TransposedRow(half, Shuffle, bytes, k, n, row)[..b * GROUP + GROUP]
         == TransposedRow(half, Shuffle, bytes, k, n, row)[..b * GROUP] + block
  {
    var whole := TransposedRow(half, Shuffle, bytes, k, n, row);
    forall i | b * GROUP <= i < b * GROUP + GROUP ensures whole[i] == block[i - b * GROUP] {
      DivMod(b, GROUP, i - b * GROUP);
    }
  }

  /** Reads the row from any buffer that reaches to its last block, and past the end of any other. */
  method UnpackRowT(half: Half, packed: seq<byte>, k: nat, n: nat, row: nat) returns (r: Outcome<seq<real>>)
    ensures IsInvolution(Shuffle)
    ensures !r.Refused? && (r.Panicked? <==> !RowIsThere(|packed|, k, n, row))
    ensures r.Ok? ==> r.value == TransposedRow(half, Shuffle, packed, k, n, row)
  {
    ShuffleIsInvolution();
    var nb := k / GROUP;
    var out := [];
    for b := 0 to nb
      invariant b > 0 ==> BlockIsThere(|packed|, n * nb, row * nb + (b - 1))
      invariant RowIsThere(|packed|, k, n, row) ==> out == TransposedRow(half, Shuffle, packed, k, n, row)[..b * GROUP]
    {
      if !BlockIsThere(|packed|, n * nb, row * nb + b) {
        return Panicked; // index out of range
      }
      var block := UnpackBlockT(half, packed, n * nb, row * nb + b);
      if RowIsThere(|packed|, k, n, row) {
        TransposedRowExtends(half, packed, k, n, row, b, block);
      }
      out := out + block;
    }
    return Ok(out);
  }

  /** The inner loop: the 128 weights of one block, each byte found by undoing the transpose. */
  method UnpackBlockT(half: Half, packed: seq<byte>, blocks: nat, g: nat) returns (out: seq<real>)
    requires BlockIsThere(|packed|, blocks, g) && IsInvolution(Shuffle)
    ensures |out| == GROUP
    ensures forall m | 0 <= m < GROUP :: out[m] == MovedWeight(half, Shuffle, packed, blocks, g, m)
  {
    hide FromLe, ToReal, Low, High;
    var so := blocks * 64 + g * 4;
    var s := half.toReal(FromLe(packed[so], packed[so + 1]));
    var sz := half.toReal(FromLe(packed[so + 2], packed[so + 3]));
    var qs := packed[g * 64..g * 64 + 64];
    out := [];
    for i := 0 to GROUP
      invariant |out| == i && forall m | 0 <= m < i :: out[m] == MovedWeight(half, Shuffle, packed, blocks, g, m)
    {
      var j := i % 64;
      var w, c, e := j / 16, j % 16 / 4, j % 4;
      assert c * 16 + w * 4 + P(e) == Shuffle(j) < 64;
      var byte := qs[c * 16 + w * 4 + P(e)];
      var code := if i < 64 then Low(byte) else High(byte);
      out := out + [ToReal(code) * s - sz];
    }
  }

  lemma MovedBlockDecodesAlike(half: Half, move: nat -> nat, packed: seq<byte>, blocks: nat, g: nat, m: nat)
    requires |packed| == blocks * BLOCK_BYTES && g < blocks && m < GROUP && IsInvolution(move)
    ensures MovedWeight(half, move, Transposed(move, packed, blocks), blocks, g, m) == BlockWeight(half, packed, g, m)
  {
    var out := Transposed(move, packed, blocks);
    TransposedIsMoved(move, packed, blocks);
    assert forall o | 0 <= o < 4 :: ScaleAt(out, blocks, g, o) == At(packed, g, o);
    var j := m % 64;
    assert move(move(j)) == j;
    assert CodeAt(out, g, move(j)) == At(packed, g, 4 + j);
  }

  /** For any packed bytes at all, reading a row of the transposed form gives what reading the
      packed form gives. */
  lemma TransposedRowDecodesAlike(half: Half, move: nat -> nat, packed: seq<byte>, k: nat, n: nat, row: nat)
    requires row < n && |packed| == n * (k / GROUP) * BLOCK_BYTES && IsInvolution(move)
    ensures (row + 1) * (k / GROUP) * BLOCK_BYTES <= |packed| && RowIsThere(|packed|, k, n, row)
    ensures TransposedRow(half, move, Transposed(move, packed, n * (k / GROUP)), k, n, row) ==
            PackedRow(half, packed, k, row)
  {
    var nb := k / GROUP;
    WholeTensorHasRow(|packed|, k, n, row);
    hide RowIsThere;
    MulMono(row + 1, n, nb);
    forall i | 0 <= i < nb * GROUP
      ensures TransposedRow(half, move, Transposed(move, packed, n * nb), k, n, row)[i] ==
              PackedRow(half, packed, k, row)[i]
    {
      Flat(row, n, i / GROUP, nb);
      MovedBlockDecodesAlike(half, move, packed, n * nb, row * nb + i / GROUP, i % GROUP);
    }
  }

  /** End to end: each row of the transposed, packed matrix reads back as its codes under the
      stored scale and offset of their group. */
  lemma TransposedRowDecodes(half: Half, m: Matrix, packed: seq<byte>, k: nat, row: nat, i: nat)
    requires Packs(m, packed) && m.nb == k / GROUP && row < m.n && i < m.nb * GROUP
    ensures IsInvolution(Shuffle) && RowIsThere(|packed|, k, m.n, row)
    ensures TransposedRow(half, Shuffle, Transposed(Shuffle, packed, m.n * (k / GROUP)), k, m.n, row)[i]
         == ToReal(m.code(row, i)) * half.toReal(m.scale(row, i / GROUP)) - half.toReal(m.offset(row, i / GROUP))
  {
    ShuffleIsInvolution();
    TransposedRowDecodesAlike(half, Shuffle, packed, k, m.n, row);
    PackedRowDecodes(half, m, packed, k, row, i);
  }

  /** The same for an AWQ tensor: repacked, transposed and read back, every output row gives its
      own codes under its own groups' stored scales and offsets. */
  lemma TransposedRepackDecodes(t: AwqTensor, half: Half, packed: seq<byte>, row: nat, i: nat)
    requires t.Has(i, row) && Packs(t.AsMatrix(half), packed)
    ensures IsInvolution(Shuffle) && RowIsThere(|packed|, t.k, t.n, row)
    ensures TransposedRow(half, Shuffle, Transposed(Shuffle, packed, t.n * (t.k / GROUP)), t.k, t.n, row)[i]
         == ToReal(t.Code(i, row)) * half.toReal(t.StoredScale(half, i / GROUP, row))
            - half.toReal(t.StoredOffset(half, i / GROUP, row))
  {
    hide ToReal, TransposedRow, Transposed, Packs, Field, IsInvolution, RowIsThere, AwqTensor.Check;
    t.AsMatrixIsCoded(half);
    assert t.AsMatrix(half).n == t.n && t.AsMatrix(half).nb == t.k / GROUP && i < t.k / GROUP * GROUP;
    TransposedRowDecodes(half, t.AsMatrix(half), packed, t.k, row, i);
  }

  /** From the spawned workers to the reader: an AWQ tensor repacked by any number of workers in any
      interleaving, then transposed and read back, gives every output row's own codes under its own
      groups' stored scales and offsets. */
  lemma ConcurrentRepackDecodes(t: AwqTensor, half: Half, per: nat, mem: seq<byte>, schedule: seq<nat>, row: nat,
                                i: nat)
    requires t.Has(i, row) && per > 0 && |mem| == t.n * (t.k / GROUP) * BLOCK_BYTES
    ensures IsInvolution(Shuffle) && AllInBounds(RepackWorkers(t, half, per), |mem|)
    ensures RowIsThere(|mem|, t.k, t.n, row)
    ensures var s := Interleave(RepackWorkers(t, half, per), mem, schedule);
            Joined(RepackWorkers(t, half, per), s) ==>
              TransposedRow(half, Shuffle, Transposed(Shuffle, s.mem, t.n * (t.k / GROUP)), t.k, t.n, row)[i]
              == ToReal(t.Code(i, row)) * half.toReal(t.StoredScale(half, i / GROUP, row))
                 - half.toReal(t.StoredOffset(half, i / GROUP, row))
  {
    hide ToReal, TransposedRow, Transposed, Packs, RepackWorkers;
    ShuffleIsInvolution();
    WholeTensorHasRow(|mem|, t.k, t.n, row);
    hide RowIsThere;
    AnyInterleavingPacks(t, half, per, mem, schedule);
    var s := Interleave(RepackWorkers(t, half, per), mem, schedule);
    if Joined(RepackWorkers(t, half, per), s) {
      TransposedRepackDecodes(t, half, s.mem, row, i);
    }
  }

  // ---- stacking two transposed tensors ---------------------------------------

  /** Two transposed tensors of the same `k`, stacked along the output axis. */
  method ConcatT(a: seq<byte>, nA: nat, b: seq<byte>, nB: nat, k: nat) returns (r: Outcome<seq<byte>>)
    ensures !r.Refused?
    ensures r.Panicked? <==> |a| < nA * (k / GROUP) * BLOCK_BYTES || |b| < nB * (k / GROUP) * BLOCK_BYTES
    ensures r.Ok? ==> r.value == Stacked(a[..nA * (k / GROUP) * BLOCK_BYTES], nA * (k / GROUP),
                                         b[..nB * (k / GROUP) * BLOCK_BYTES], nB * (k / GROUP))
  {
    var nb := k / GROUP;
    var sizeA, sizeB := nA * nb * BLOCK_BYTES, nB * nb * BLOCK_BYTES;
    if |a| < sizeA || |b| < sizeB {
      return Panicked; // at the first region that is not there
    }
    assert (nA + nB) * nb == nA * nb + nB * nb;
    var stacked := ConcatRegions(a[..sizeA], nA * nb, b[..sizeB], nB * nb);
    return Ok(stacked);
  }

  /** The two regions of each input go to the two regions of the output. */
  method ConcatRegions(a: seq<byte>, blocksA: nat, b: seq<byte>, blocksB: nat) returns (r: seq<byte>)
    requires |a| == blocksA * BLOCK_BYTES && |b| == blocksB * BLOCK_BYTES
    ensures r == Stacked(a, blocksA, b, blocksB)
  {
    var qa, qb := blocksA * 64, blocksB * 64;
    var out := new byte[(blocksA + blocksB) * BLOCK_BYTES](_ => 0);
    CopyInto(out, 0, a[..qa]);
    assert out[..qa] == a[..qa];
    CopyInto(out, qa, b[..qb]);
    var s := qa + qb;
    ghost var codes := a[..qa] + b[..qb];
    assert out[..s] == codes;
    assert a[qa..qa + blocksA * 4] == a[qa..] && b[qb..qb + blocksB * 4] == b[qb..];
    CopyInto(out, s, a[qa..qa + blocksA * 4]);
    var e := s + blocksA * 4;
    assert out[..e] == codes + a[qa..];
    CopyInto(out, e, b[qb..qb + blocksB * 4]);
    assert out[..] == out[..e + blocksB * 4];
    return out[..];
  }

  /** `copy_from_slice` into the part of `out` that starts at `at`. */
  method CopyInto(out: array<byte>, at: nat, src: seq<byte>)
    requires at + |src| <= out.Length
    modifies out
    ensures out[..at + |src|] == old(out[..at]) + src
    ensures forall i | at + |src| <= i < out.Length :: out[i] == old(out[i])
  {
    forall i | 0 <= i < |src| { out[at + i] := src[i]; }
  }

  function Stacked(a: seq<byte>, blocksA: nat, b: seq<byte>, blocksB: nat): (r: seq<byte>)
    requires |a| == blocksA * BLOCK_BYTES && |b| == blocksB * BLOCK_BYTES
    ensures |r| == (blocksA + blocksB) * BLOCK_BYTES
  {
    a[..blocksA * 64] + b[..blocksB * 64] + a[blocksA * 64..] + b[blocksB * 64..]
  }

  lemma StackedScale(move: nat -> nat, a: seq<byte>, ta: seq<byte>, blocksA: nat, b: seq<byte>, tb: seq<byte>,
                     blocksB: nat, g: nat, o: nat)
    requires Moved(move, ta, a, blocksA, blocksA) && Moved(move, tb, b, blocksB, blocksB)
    requires g < blocksA + blocksB && o < 4
    ensures ScaleAt(Stacked(ta, blocksA, tb, blocksB), blocksA + blocksB, g, o) == At(a + b, g, o)
  {
    if g < blocksA {
      assert ScaleAt(ta, blocksA, g, o) == At(a, g, o);
    } else {
      assert ScaleAt(tb, blocksB, g - blocksA, o) == At(b, g - blocksA, o);
    }
  }

  lemma StackedCode(move: nat -> nat, a: seq<byte>, ta: seq<byte>, blocksA: nat, b: seq<byte>, tb: seq<byte>,
                    blocksB: nat, g: nat, j: nat)
    requires Moved(move, ta, a, blocksA, blocksA) && Moved(move, tb, b, blocksB, blocksB)
    requires g < blocksA + blocksB && j < 64 && move(j) < 64
    ensures CodeAt(Stacked(ta, blocksA, tb, blocksB), g, j) == At(a + b, g, 4 + move(j))
  {
    if g < blocksA {
      assert CodeAt(ta, g, j) == At(a, g, 4 + move(j));
    } else {
      assert CodeAt(tb, g - blocksA, j) == At(b, g - blocksA, 4 + move(j));
    }
  }

  /** Stacking the transposed forms is transposing the stacked packed forms, byte for byte. */
  lemma StackingCommutes(move: nat -> nat, a: seq<byte>, blocksA: nat, b: seq<byte>, blocksB: nat)
    requires |a| == blocksA * BLOCK_BYTES && |b| == blocksB * BLOCK_BYTES && IsInvolution(move)
    ensures |a + b| == (blocksA + blocksB) * BLOCK_BYTES
    ensures Stacked(Transposed(move, a, blocksA), blocksA, Transposed(move, b, blocksB), blocksB)
         == Transposed(move, a + b, blocksA + blocksB)
  {
    var ta, tb := Transposed(move, a, blocksA), Transposed(move, b, blocksB);
    TransposedIsMoved(move, a, blocksA);
    TransposedIsMoved(move, b, blocksB);
    StackedIsMoved(move, a, ta, blocksA, b, tb, blocksB);
    MovedIsUnique(move, Stacked(ta, blocksA, tb, blocksB), a + b, blocksA + blocksB);
  }

  lemma StackedIsMoved(move: nat -> nat, a: seq<byte>, ta: seq<byte>, blocksA: nat, b: seq<byte>, tb: seq<byte>,
                       blocksB: nat)
    requires Moved(move, ta, a, blocksA, blocksA) && Moved(move, tb, b, blocksB, blocksB) && IsInvolution(move)
    ensures Moved(move, Stacked(ta, blocksA, tb, blocksB), a + b, blocksA + blocksB, blocksA + blocksB)
  {
    var out := Stacked(ta, blocksA, tb, blocksB);
    forall g, o | 0 <= g < blocksA + blocksB && 0 <= o < 4
      ensures ScaleAt(out, blocksA + blocksB, g, o) == At(a + b, g, o)
    {
      StackedScale(move, a, ta, blocksA, b, tb, blocksB, g, o);
    }
    forall g, j | 0 <= g < blocksA + blocksB && 0 <= j < 64 && move(j) < 64
      ensures CodeAt(out, g, j) == At(a + b, g, 4 + move(j))
    {
      StackedCode(move, a, ta, blocksA, b, tb, blocksB, g, j);
    }
  }

  /** Fusing two layers this way keeps every weight of both: row `row` of the fused tensor is
      row `row` of the first, or row `row - nA` of the second. */
  lemma FusedRowsDecode(half: Half, move: nat -> nat, a: seq<byte>, nA: nat, b: seq<byte>, nB: nat, k: nat, row: nat)
    requires |a| == nA * (k / GROUP) * BLOCK_BYTES && |b| == nB * (k / GROUP) * BLOCK_BYTES
    requires row < nA + nB && IsInvolution(move)
    ensures |a + b| == (nA + nB) * (k / GROUP) * BLOCK_BYTES && RowIsThere(|a + b|, k, nA + nB, row)
    ensures if row < nA then RowIsThere(|a|, k, nA, row) else RowIsThere(|b|, k, nB, row - nA)
    ensures TransposedRow(half, move, Stacked(Transposed(move, a, nA * (k / GROUP)), nA * (k / GROUP),
                                              Transposed(move, b, nB * (k / GROUP)), nB * (k / GROUP)), k, nA + nB, row)
         == if row < nA then TransposedRow(half, move, Transposed(move, a, nA * (k / GROUP)), k, nA, row)
            else TransposedRow(half, move, Transposed(move, b, nB * (k / GROUP)), k, nB, row - nA)
  {
    var nb := k / GROUP;
    assert (nA + nB) * nb == nA * nb + nB * nb;
    hide RowIsThere;
    StackingCommutes(move, a, nA * nb, b, nB * nb);
    TransposedRowDecodesAlike(half, move, a + b, k, nA + nB, row);
    if row < nA {
      TransposedRowDecodesAlike(half, move, a, k, nA, row);
      PackedRowLocal(half, a + b, a, k, row, row, 0);
    } else {
      TransposedRowDecodesAlike(half, move, b, k, nB, row - nA);
      assert row * nb == nA * nb + (row - nA) * nb;
      PackedRowLocal(half, a + b, b, k, row, row - nA, nA * nb);
    }
  }
}
