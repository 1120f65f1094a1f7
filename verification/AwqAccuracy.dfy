/** How close the load-time quantizers stay to the weights they are given
    (crates/kernels/src/awq.rs), in terms of the weights and of half precision alone. */
module AwqAccuracy {
  import opened Arith
  import opened RealArith
  import opened Rounding
  import opened Q4Block
  import opened AwqLayout
  import opened AwqQuantize
  import Q4 = AwqQuantizeQ4

  /** Storing a number no larger than `range` costs at most the part `eps` of it, plus `tiny`. Half
      precision meets this with `eps` 2^-11 and `tiny` 2^-25. */
  ghost predicate Stores(half: Half, range: real, eps: real, tiny: real) {
    && eps >= 0.0 && tiny >= 0.0
    && forall v: real | Abs(v) <= range :: Abs(half.toReal(half.fromReal(v)) - v) <= eps * Abs(v) + tiny
  }

  // ---- Q8_0 ------------------------------------------------------------------

  /** The 32 weights of block `g` are no larger than `m`. */
  ghost predicate BlockWithin(half: Half, src: seq<bv16>, g: nat, m: real) {
    32 * g + 32 <= |src| && forall p | 32 * g <= p < 32 * g + 32 :: Abs(half.toReal(src[p])) <= m
  }

  lemma AbsMaxWithin(half: Half, src: seq<bv16>, g: nat, m: real)
    requires BlockWithin(half, src, g, m)
    ensures AbsMax(SrcBlock(half, src, g)) <= m
  {
    hide AbsMax, SrcBlock;
    var x := SrcBlock(half, src, g);
    AbsMaxIsReached(x);
    var j :| 0 <= j < |x| && Abs(x[j]) == AbsMax(x);
    SrcBlockAt(half, src, g, j);
  }

  /** The stored step's share of the error, against the largest weight. */
  lemma StepShare(a: real, m: real, eps: real, tiny: real, cost: real)
    requires 0.0 <= a <= m && eps >= 0.0 && cost <= eps * (a / 127.0) + tiny
    ensures a / 127.0 / 2.0 + 127.0 * cost <= m * (1.0 / 254.0 + eps) + 127.0 * tiny
  {
    TimesIsMonotone(eps, a, m);
    assert 127.0 * (eps * (a / 127.0)) == eps * a;
  }

  lemma BoundOfMax(half: Half, src: seq<bv16>, g: nat, m: real, eps: real, tiny: real)
    requires BlockWithin(half, src, g, m) && Stores(half, m / 127.0, eps, tiny)
    ensures Q8Bound(half, SrcBlock(half, src, g)) <= m * (1.0 / 254.0 + eps) + 127.0 * tiny
  {
    hide AbsMax, SrcBlock;
    var x := SrcBlock(half, src, g);
    AbsMaxWithin(half, src, g, m);
    StepShare(AbsMax(x), m, eps, tiny, Abs(half.toReal(half.fromReal(Q8Step(x))) - Q8Step(x)));
  }

  /** Where every weight of a block is at most `m`, the interleaved tensor read byte by byte (the scale in
      the block's first two bytes, the signed codes after it) is within `m / 254` of each weight, plus
      what half precision costs the scale. */
  lemma InterleavedIsAccurate(half: Half, src: seq<bv16>, g: nat, i: nat, m: real, eps: real, tiny: real)
    requires |src| % 32 == 0 && BlockWithin(half, src, g, m) && Stores(half, m / 127.0, eps, tiny) && i < 32
    ensures var b := Interleaved(half, src);
            && |b| == 34 * (|src| / 32) && 34 * g + 34 <= |b|
            && Abs(half.toReal(src[32 * g + i])
                   - SignedValue(b[34 * g + 2 + i]) as real * half.toReal(FromLe(b[34 * g], b[34 * g + 1])))
               <= m * (1.0 / 254.0 + eps) + 127.0 * tiny
  {
    hide Interleaved, SrcBlock, Q8Bound, SignedValue, FromLe, Stores;
    BoundOfMax(half, src, g, m, eps, tiny);
    InterleavedError(half, src, g, i);
    var b := Interleaved(half, src);
    assert BlockValue(half, b, g, i)
        == SignedValue(b[34 * g + 2 + i]) as real * half.toReal(FromLe(b[34 * g], b[34 * g + 1]));
  }

  /** The same of the split tensor, whose codes come first and whose scales follow them all. */
  lemma SplitIsAccurate(half: Half, src: seq<bv16>, g: nat, i: nat, m: real, eps: real, tiny: real)
    requires |src| % 32 == 0 && BlockWithin(half, src, g, m) && Stores(half, m / 127.0, eps, tiny) && i < 32
    ensures var b := Split(half, src);
            && |b| == |src| + 2 * (|src| / 32) && |src| + 2 * g + 2 <= |b|
            && Abs(half.toReal(src[32 * g + i])
                   - SignedValue(b[32 * g + i]) as real
                     * half.toReal(FromLe(b[|src| + 2 * g], b[|src| + 2 * g + 1])))
               <= m * (1.0 / 254.0 + eps) + 127.0 * tiny
  {
    hide Interleaved, Split, SrcBlock, Q8Bound, SignedValue, FromLe, Stores;
    BoundOfMax(half, src, g, m, eps, tiny);
    InterleavedError(half, src, g, i);
    LayoutsAgree(half, src, g, i);
    var b, blocks := Split(half, src), |src| / 32;
    assert blocks * BLOCK == |src|;
    assert SplitScale(b, blocks, g) == FromLe(b[|src| + 2 * g], b[|src| + 2 * g + 1]);
    assert SplitCode(b, blocks, g, i) == SignedValue(b[32 * g + i]);
  }

  /** Negative codes are in two's complement, and a scale is its low byte and then its high byte. */
  lemma BytesMean(q: int, lo: byte, hi: byte)
    requires -128 <= q <= 127
    ensures (SignedByte(q) as int - q) % 256 == 0
    ensures FromLe(lo, hi) & 0xFF == lo as bv16 && FromLe(lo, hi) >> 8 == hi as bv16
  {
  }

  // ---- the affine 4-bit quantizer --------------------------------------------

  /** The 128 weights of the group that input `i` of row `row` is in lie between `lo` and `hi`. */
  ghost predicate GroupWithin(half: Half, src: seq<bv16>, k: nat, row: nat, i: nat, lo: real, hi: real) {
    var from := row * k + i / 128 * 128;
    from + 128 <= |src| && forall p | from <= p < from + 128 :: lo <= half.toReal(src[p]) <= hi
  }

  lemma RangeWithin(half: Half, src: seq<bv16>, k: nat, row: nat, i: nat, g: nat, lo: real, hi: real)
    requires GroupWithin(half, src, k, row, i, lo, hi) && 128 * g == row * k + i / 128 * 128
    ensures g * GROUP + GROUP <= |src|
    ensures var x := Q4.SrcGroup(half, src, g);
            && lo <= Q4.Lowest(x) <= hi && 0.0 <= Q4.GroupStep(x) <= (hi - lo) / 15.0
  {
    hide Q4.Lowest, Q4.Highest, Q4.SrcGroup;
    var x := Q4.SrcGroup(half, src, g);
    forall j | 0 <= j < GROUP ensures lo <= x[j] <= hi {
      Q4.SrcGroupAt(half, src, g, j);
    }
  }

  /** The stored step's and the stored offset's share of the error. */
  lemma AffineShare(d: real, low: real, lo: real, hi: real, m: real, eps: real, tiny: real, step: real, offset: real)
    requires 0.0 <= d <= (hi - lo) / 15.0 && Abs(low) <= m && eps >= 0.0
    requires step <= eps * d + tiny && offset <= eps * Abs(low) + tiny
    ensures d / 2.0 + 15.0 * step + offset <= (hi - lo) / 30.0 + eps * (hi - lo) + eps * m + 16.0 * tiny
  {
    TimesIsMonotone(eps, d, (hi - lo) / 15.0);
    TimesIsMonotone(eps, Abs(low), m);
    assert 15.0 * (eps * ((hi - lo) / 15.0)) == eps * (hi - lo);
  }

  lemma StoredWithin(half: Half, v: real, size: real, m: real, eps: real, tiny: real)
    requires Stores(half, m, eps, tiny) && size == Abs(v) <= m
    ensures eps >= 0.0 && Abs(half.toReal(half.fromReal(v)) - v) <= eps * size + tiny
  {
  }

  lemma BoundOfRange(half: Half, x: seq<real>, lo: real, hi: real, m: real, eps: real, tiny: real)
    requires x != [] && lo <= Q4.Lowest(x) <= hi && 0.0 <= Q4.GroupStep(x) <= (hi - lo) / 15.0
    requires Abs(lo) <= m && Abs(hi) <= m && Stores(half, m, eps, tiny)
    ensures Q4.Q4Bound(half, x) <= (hi - lo) / 30.0 + eps * (hi - lo) + eps * m + 16.0 * tiny
  {
    hide Q4.Lowest, Q4.GroupStep, Stores;
    var d, low := Q4.GroupStep(x), Q4.Lowest(x);
    var step, offset := half.toReal(half.fromReal(d)), half.toReal(half.fromReal(-low));
    StoredWithin(half, d, d, m, eps, tiny);
    StoredWithin(half, -low, Abs(low), m, eps, tiny);
    AffineShare(d, low, lo, hi, m, eps, tiny, Abs(step - d), Abs(offset + low));
  }

  /** Where every weight of a group lies between `lo` and `hi`, neither further than `m` from zero, the
      reader of the packed rows is within a thirtieth of the range of each weight, plus what half precision
      costs the step and the offset. */
  lemma Q4IsAccurate(half: Half, src: seq<bv16>, n: nat, k: nat, packed: seq<byte>, row: nat, i: nat, lo: real,
                     hi: real, m: real, eps: real, tiny: real)
    requires k % 128 == 0 && |src| == n * (k / 128) * 128 && row < n && i < k
    requires Packs(Q4.AsMatrix(half, src, n, k / 128), packed) && GroupWithin(half, src, k, row, i, lo, hi)
    requires Abs(lo) <= m && Abs(hi) <= m && Stores(half, m, eps, tiny)
    ensures (row + 1) * (k / 128) * 68 <= |packed| && row * k + i < |src|
    ensures Abs(half.toReal(src[row * k + i]) - PackedRow(half, packed, k, row)[i])
         <= (hi - lo) / 30.0 + eps * (hi - lo) + eps * m + 16.0 * tiny
  {
    hide Packs, PackedRow, Q4.AsMatrix, Q4.SrcGroup, Q4.Q4Bound, Q4.Lowest, Q4.GroupStep, Stores;
    var nb := k / 128;
    var g := row * nb + i / 128;
    assert row * k == row * nb * 128;
    RangeWithin(half, src, k, row, i, g, lo, hi);
    hide GroupWithin;
    BoundOfRange(half, Q4.SrcGroup(half, src, g), lo, hi, m, eps, tiny);
    Q4.Q4Error(half, src, n, k, packed, row, i, g);
    hide Abs;
    assert g * GROUP + i % GROUP == row * k + i;
  }

  // ---- what the quantizers accept --------------------------------------------

  /** A tensor is accepted exactly when its rows are whole blocks and there is a whole number of them; the
      first of the two that fails is the reason given. */
  lemma ShapeIsExact(len: nat, k: nat, block: nat)
    requires block > 0
    ensures CheckShape(len, k, block).Ok? <==> k % block == 0 && exists rows: nat :: len == rows * k
    ensures !CheckShape(len, k, block).Panicked?
    ensures k % block != 0 ==> CheckShape(len, k, block) == Refused(RaggedInput(k))
  {
    if rows: nat :| len == rows * k {
      if k > 0 {
        DivMod(rows, k, 0);
      }
    }
    if k > 0 && len % k == 0 {
      assert len == (len / k) * k;
    }
  }
}
