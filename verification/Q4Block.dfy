/** The packed 4-bit block: an `f16` scale, an `f16` offset, then 128 codes of four bits, and the
    reader of rows of such blocks (crates/kernels/src/awq.rs). */
module Q4Block {
  import opened Arith
  import opened Workers

  type byte = bv8

  const GROUP: nat := 128
  const BLOCK_BYTES: nat := 68

  /** Half-precision numbers as bit patterns; `toReal` is exact and `fromReal` rounds. */
  datatype Half = Half(toReal: bv16 -> real, fromReal: real -> bv16)
  {
    /** A number that came from a half-precision pattern survives being stored again. */
    ghost predicate Lawful() {
      forall h: bv16 :: toReal(fromReal(toReal(h))) == toReal(h)
    }
  }

  function LowByte(h: bv16): byte { (h & 0xFF) as bv8 }

  function HighByte(h: bv16): byte { (h >> 8) as bv8 }

  function FromLe(lo: byte, hi: byte): bv16 { (lo as bv16) | ((hi as bv16) << 8) }

  lemma LeRoundTrip(h: bv16)
    ensures FromLe(LowByte(h), HighByte(h)) == h
  {
  }

  function Pair(lo: byte, hi: byte): byte { lo | (hi << 4) }

  function Low(b: byte): byte { b & 0xF }

  function High(b: byte): byte { b >> 4 }

  lemma PairRoundTrip(lo: byte, hi: byte)
    requires lo < 16 && hi < 16
    ensures Low(Pair(lo, hi)) == lo && High(Pair(lo, hi)) == hi
  {
  }

  function ToReal(b: byte): real { (b as int) as real }

  /** A 4-bit matrix as its packer sees it: `n` output rows of `nb` groups each, the code of every
      input, and the scale and the offset stored for every group. */
  datatype Matrix = Matrix(n: nat, nb: nat, code: (nat, nat) -> byte, scale: (nat, nat) -> bv16,
                           offset: (nat, nat) -> bv16)
  {
    ghost predicate Coded() {
      forall row, i | 0 <= row < n && 0 <= i < nb * GROUP :: code(row, i) < 16
    }
  }

  /** Byte `o` of the block of row `row` and group `b`: byte `4 + i` pairs code `i` of the group
      with code `i + 64`. */
  function BlockByte(m: Matrix, row: nat, b: nat, o: nat): byte
    requires o < BLOCK_BYTES
  {
    if o == 0 then LowByte(m.scale(row, b))
    else if o == 1 then HighByte(m.scale(row, b))
    else if o == 2 then LowByte(m.offset(row, b))
    else if o == 3 then HighByte(m.offset(row, b))
    else Pair(m.code(row, b * GROUP + (o - 4)), m.code(row, b * GROUP + 64 + (o - 4)))
  }

  /** Byte `o` of packed block `g`. */
  function At(packed: seq<byte>, g: nat, o: nat): byte
    requires g * BLOCK_BYTES + BLOCK_BYTES <= |packed| && o < BLOCK_BYTES
  {
    packed[g * BLOCK_BYTES + o]
  }

  /** What a reader makes of a code byte under a block's scale and offset. */
  function Decode(half: Half, scale: bv16, offset: bv16, byte: byte, high: bool): real {
    ToReal(if high then High(byte) else Low(byte)) * half.toReal(scale) - half.toReal(offset)
  }

  /** Element `m` of packed block `g`. */
  function BlockWeight(half: Half, packed: seq<byte>, g: nat, m: nat): real
    requires g * BLOCK_BYTES + BLOCK_BYTES <= |packed| && m < GROUP
  {
    Decode(half, FromLe(At(packed, g, 0), At(packed, g, 1)), FromLe(At(packed, g, 2), At(packed, g, 3)),
           At(packed, g, 4 + m % 64), m >= 64)
  }

  /** Block `g` of `bytes` is the encoding of group `g % m.nb` of row `g / m.nb`. */
  ghost predicate BlockIs(m: Matrix, bytes: seq<byte>, g: nat)
    requires m.nb > 0
  {
    && g * BLOCK_BYTES + BLOCK_BYTES <= |bytes|
    && forall o | 0 <= o < BLOCK_BYTES :: At(bytes, g, o) == BlockByte(m, g / m.nb, g % m.nb, o)
  }

  /** `bytes` is the whole matrix packed, row after row. */
  ghost predicate Packs(m: Matrix, bytes: seq<byte>) {
    && m.Coded() && |bytes| == m.n * m.nb * BLOCK_BYTES
    && forall g | 0 <= g < m.n * m.nb :: m.nb > 0 && BlockIs(m, bytes, g)
  }

  /** There is only one way to pack a matrix. */
  lemma PackingIsUnique(m: Matrix, one: seq<byte>, other: seq<byte>)
    requires Packs(m, one) && Packs(m, other)
    ensures one == other
  {
    forall p | 0 <= p < |one| ensures one[p] == other[p] {
      var g, o := p / BLOCK_BYTES, p % BLOCK_BYTES;
      Unflat(g, m.n, m.nb);
      assert BlockIs(m, one, g) && BlockIs(m, other, g);
      assert At(one, g, o) == At(other, g, o);
    }
  }

  /** Reading a packed block gives every code back, in its place. */
  lemma BlockRoundTrip(half: Half, m: Matrix, packed: seq<byte>, row: nat, b: nat, j: nat)
    requires Packs(m, packed) && row < m.n && b < m.nb && j < GROUP
    ensures (row * m.nb + b) * BLOCK_BYTES + BLOCK_BYTES <= |packed|
    ensures BlockWeight(half, packed, row * m.nb + b, j)
         == ToReal(m.code(row, b * GROUP + j)) * half.toReal(m.scale(row, b)) - half.toReal(m.offset(row, b))
  {
    hide FromLe, LowByte, HighByte, Pair, Low, High, ToReal;
    var g := row * m.nb + b;
    Flat(row, m.n, b, m.nb);
    DivMod(row, m.nb, b);
    assert BlockIs(m, packed, g);
    assert forall o | 0 <= o < 4 :: At(packed, g, o) == BlockByte(m, row, b, o);
    LeRoundTrip(m.scale(row, b));
    LeRoundTrip(m.offset(row, b));
    var i := j % 64;
    var lo, hi := m.code(row, b * GROUP + i), m.code(row, b * GROUP + 64 + i);
    assert At(packed, g, 4 + i) == Pair(lo, hi);
    assert lo < 16 && hi < 16;
    PairRoundTrip(lo, hi);
    assert j >= 64 ==> 64 + i == j;
  }

  // ---- filling a buffer of blocks --------------------------------------------

  /** The stores that pack the block of row `row` and group `b` into the 68 bytes at `off`. */
  function BlockStores(m: Matrix, row: nat, b: nat, off: nat): (r: Program)
    ensures |r| == BLOCK_BYTES
  {
    seq(BLOCK_BYTES, o requires 0 <= o < BLOCK_BYTES => Store(off + o, BlockByte(m, row, b, o)))
  }

  /** The stores of a block put its 68 bytes in place and leave every other byte alone. */
  lemma BlockStoresLand(m: Matrix, row: nat, b: nat, off: nat, mem: seq<byte>)
    requires off + BLOCK_BYTES <= |mem|
    ensures InBounds(BlockStores(m, row, b, off), |mem|)
    ensures var now := Perform(mem, BlockStores(m, row, b, off));
            && (forall o | 0 <= o < BLOCK_BYTES :: now[off + o] == BlockByte(m, row, b, o))
            && (forall p | 0 <= p < |mem| && !(off <= p < off + BLOCK_BYTES) :: now[p] == mem[p])
  {
    hide BlockByte;
    var stores := BlockStores(m, row, b, off);
    forall o | 0 <= o < BLOCK_BYTES ensures Perform(mem, stores)[off + o] == BlockByte(m, row, b, o) {
      PerformLands(mem, stores, o);
    }
    forall p | 0 <= p < |mem| && !(off <= p < off + BLOCK_BYTES) ensures Perform(mem, stores)[p] == mem[p] {
      PerformUntouched(mem, stores, p);
    }
  }

  /** Packing a matrix as a job to share out: a unit is one block. */
  function BlockJob(m: Matrix): Job {
    Job(m.n * m.nb, BLOCK_BYTES, (g: nat, o: nat) => g * BLOCK_BYTES + o,
        (g: nat, o: nat) => if m.nb > 0 && o < BLOCK_BYTES then BlockByte(m, g / m.nb, g % m.nb, o) else 0)
  }

  lemma BlockJobIsSound(m: Matrix)
    ensures BlockJob(m).Sound() && BlockJob(m).units == m.n * m.nb && BlockJob(m).width == BLOCK_BYTES
  {
  }

  lemma UnitIsBlock(m: Matrix, row: nat, b: nat)
    requires row < m.n && b < m.nb
    ensures row * m.nb + b < m.n * m.nb
    ensures BlockJob(m).Unit(row * m.nb + b) == BlockStores(m, row, b, (row * m.nb + b) * BLOCK_BYTES)
  {
    Flat(row, m.n, b, m.nb);
    DivMod(row, m.nb, b);
    hide BlockByte;
  }

  /** A buffer with every block in place is the packed matrix. */
  lemma FilledIsPacked(m: Matrix, now: seq<byte>)
    requires m.Coded() && |now| == m.n * m.nb * BLOCK_BYTES && BlockJob(m).Holds(now, 0, m.n * m.nb)
    ensures Packs(m, now)
  {
    hide BlockByte;
    forall g | 0 <= g < m.n * m.nb ensures m.nb > 0 && BlockIs(m, now, g) {
      Unflat(g, m.n, m.nb);
      forall o | 0 <= o < BLOCK_BYTES ensures At(now, g, o) == BlockByte(m, g / m.nb, g % m.nb, o) {
        assert now[BlockJob(m).place(g, o)] == BlockJob(m).value(g, o);
      }
    }
  }

  /** However many workers share the rows of a matrix, `per` to each, and however their stores
      interleave, no two touch the same byte and they leave the packed matrix. */
  lemma EveryInterleavingPacks(m: Matrix, per: nat, mem: seq<byte>, schedule: seq<nat>)
    requires m.Coded() && per > 0 && |mem| == m.n * m.nb * BLOCK_BYTES
    requires AllInBounds(BlockJob(m).Workers(m.n, m.nb, per), |mem|)
    requires Joined(BlockJob(m).Workers(m.n, m.nb, per), Interleave(BlockJob(m).Workers(m.n, m.nb, per), mem, schedule))
    ensures Disjoint(BlockJob(m).Workers(m.n, m.nb, per))
    ensures Packs(m, Interleave(BlockJob(m).Workers(m.n, m.nb, per), mem, schedule).mem)
  {
    hide Job.Sound, Job.Workers, Packs;
    BlockJobIsSound(m);
    BlockJob(m).EveryInterleavingFills(m.n, m.nb, per, mem, schedule);
    FilledIsPacked(m, Interleave(BlockJob(m).Workers(m.n, m.nb, per), mem, schedule).mem);
  }

  // ---- reading a row of blocks -----------------------------------------------

  lemma ReadsInside(nb: nat, row: nat, b: nat, size: nat)
    requires b < nb && (row + 1) * nb * BLOCK_BYTES <= size
    ensures (row * nb + b) * BLOCK_BYTES + BLOCK_BYTES <= size
  {
    assert (row + 1) * nb == row * nb + nb;
  }

  /** Row `row` of a packed tensor, as the reader returns it. */
  function PackedRow(half: Half, packed: seq<byte>, k: nat, row: nat): (r: seq<real>)
    requires (row + 1) * (k / GROUP) * BLOCK_BYTES <= |packed|
    ensures |r| == k / GROUP * GROUP
  {
    seq(k / GROUP * GROUP, i requires 0 <= i < k / GROUP * GROUP =>
      ReadsInside(k / GROUP, row, i / GROUP, |packed|);
      BlockWeight(half, packed, row * (k / GROUP) + i / GROUP, i % GROUP))
  }

  /** The row after one more block. */
  lemma PackedRowExtends(half: Half, packed: seq<byte>, k: nat, row: nat, b: nat, block: seq<real>)
    requires (row + 1) * (k / GROUP) * BLOCK_BYTES <= |packed| && b < k / GROUP && |block| == GROUP
    requires (row * (k / GROUP) + b) * BLOCK_BYTES + BLOCK_BYTES <= |packed|
    requires forall m | 0 <= m < GROUP :: block[m] == BlockWeight(half, packed, row * (k / GROUP) + b, m)
    ensures PackedRow(half, packed, k, row)[..b * GROUP + GROUP] == PackedRow(half, packed, k, row)[..b * GROUP] + block
  {
    hide BlockWeight;
    var whole := PackedRow(half, packed, k, row);
    forall i | b * GROUP <= i < b * GROUP + GROUP ensures whole[i] == block[i - b * GROUP] {
      DivMod(b, GROUP, i - b * GROUP);
    }
  }

  method UnpackRow(half: Half, packed: seq<byte>, k: nat, row: nat) returns (out: seq<real>)
    requires (row + 1) * (k / GROUP) * BLOCK_BYTES <= |packed|
    ensures out == PackedRow(half, packed, k, row)
  {
    hide PackedRow, BlockWeight;
    var blocks := k / GROUP;
    out := [];
    for b := 0 to blocks
      invariant out == PackedRow(half, packed, k, row)[..b * GROUP]
    {
      ReadsInside(blocks, row, b, |packed|);
      var block := UnpackBlock(half, packed, row * blocks + b);
      PackedRowExtends(half, packed, k, row, b, block);
      out := out + block;
    }
  }

  /** The inner loop: the 128 weights of one block. */
  method UnpackBlock(half: Half, packed: seq<byte>, g: nat) returns (out: seq<real>)
    requires g * BLOCK_BYTES + BLOCK_BYTES <= |packed|
    ensures |out| == GROUP && forall m | 0 <= m < GROUP :: out[m] == BlockWeight(half, packed, g, m)
  {
    hide FromLe, ToReal, Low, High;
    var off := g * BLOCK_BYTES;
    var s := half.toReal(FromLe(packed[off], packed[off + 1]));
    var sz := half.toReal(FromLe(packed[off + 2], packed[off + 3]));
    var qs := packed[off + 4..off + 68];
    out := [];
    for i := 0 to GROUP
      invariant |out| == i && forall m | 0 <= m < i :: out[m] == BlockWeight(half, packed, g, m)
    {
      var byte := qs[i % 64];
      var code := if i < 64 then Low(byte) else High(byte);
      out := out + [ToReal(code) * s - sz];
    }
  }

  /** Every row of a packed matrix reads back as its codes, each under the scale and the offset
      of its own group. */
  lemma PackedRowDecodes(half: Half, m: Matrix, packed: seq<byte>, k: nat, row: nat, i: nat)
    requires Packs(m, packed) && m.nb == k / GROUP && row < m.n && i < m.nb * GROUP
    ensures (row + 1) * (k / GROUP) * BLOCK_BYTES <= |packed|
    ensures PackedRow(half, packed, k, row)[i]
         == ToReal(m.code(row, i)) * half.toReal(m.scale(row, i / GROUP)) - half.toReal(m.offset(row, i / GROUP))
  {
    MulMono(row + 1, m.n, m.nb);
    BlockRoundTrip(half, m, packed, row, i / GROUP, i % GROUP);
  }

  /** A packed row depends only on its own blocks. */
  lemma PackedRowLocal(half: Half, whole: seq<byte>, part: seq<byte>, k: nat, row: nat, rowIn: nat, shift: nat)
    requires (row + 1) * (k / GROUP) * BLOCK_BYTES <= |whole|
    requires (rowIn + 1) * (k / GROUP) * BLOCK_BYTES <= |part|
    requires row * (k / GROUP) == shift + rowIn * (k / GROUP)
    requires forall p | 0 <= p < |part| ::
               shift * BLOCK_BYTES + p < |whole| && whole[shift * BLOCK_BYTES + p] == part[p]
    ensures PackedRow(half, whole, k, row) == PackedRow(half, part, k, rowIn)
  {
    var nb := k / GROUP;
    forall i | 0 <= i < nb * GROUP
      ensures PackedRow(half, whole, k, row)[i] == PackedRow(half, part, k, rowIn)[i]
    {
      ReadsInside(nb, row, i / GROUP, |whole|);
      ReadsInside(nb, rowIn, i / GROUP, |part|);
      var g, h := row * nb + i / GROUP, rowIn * nb + i / GROUP;
      forall o | 0 <= o < BLOCK_BYTES ensures At(whole, g, o) == At(part, h, o) {
        assert whole[shift * BLOCK_BYTES + (h * BLOCK_BYTES + o)] == part[h * BLOCK_BYTES + o];
      }
    }
  }
}
