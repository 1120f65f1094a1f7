/** Bilinear resampling of the learned square grid of position embeddings
    (tools/capture_qwen35_vision.py). Coordinates and weights are exact reals. */
module VisionTaps {
  import opened Arith
  import opened VisionPatches
  import Rounding

  function RealMax(a: real, b: real): real {
    if a < b then b else a
  }

  function Clamp(x: int, high: int): int {
    Min(Max(x, 0), high)
  }

  /** The source coordinate that target index `index` of `size` reads, in a table of `side`. */
  function Source(index: nat, size: nat, side: nat, alignCorners: bool): real
    requires size > 0
  {
    if alignCorners then (index * (side - 1)) as real / Max(size - 1, 1) as real
    else (index as real + 0.5) * side as real / size as real - 0.5
  }

  /** The two neighbours of a coordinate and what they weigh. */
  datatype Taps = Taps(lo: nat, hi: nat, wLo: real, wHi: real)

  function TapsOf(src: real, side: nat): Taps
    requires side > 0
  {
    var fl := src.Floor;
    Taps(Clamp(fl, side - 1), Clamp(fl + 1, side - 1),
         RealMax(1.0 - Rounding.Abs(src - fl as real), 0.0), RealMax(1.0 - Rounding.Abs(src - fl as real - 1.0), 0.0))
  }

  /** The four entries of the flattened table that one patch reads, and their weights. */
  datatype Sample = Sample(index: seq<nat>, weight: seq<real>)

  function Cross(y: Taps, x: Taps, side: nat): Sample {
    Sample([y.lo * side + x.lo, y.lo * side + x.hi, y.hi * side + x.lo, y.hi * side + x.hi],
           [y.wLo * x.wLo, y.wLo * x.wHi, y.wHi * x.wLo, y.wHi * x.wHi])
  }

  function SampleAt(cell: Cell, h: nat, w: nat, side: nat, alignCorners: bool): Sample
    requires side > 0 && h > 0 && w > 0
  {
    Cross(TapsOf(Source(cell.row, h, side, alignCorners), side),
          TapsOf(Source(cell.column, w, side, alignCorners), side), side)
  }

  /** What a channel of the table contributes to a patch. */
  function Resample(table: nat -> real, s: Sample): real
    requires |s.index| == |s.weight| == 4
  {
    s.weight[0] * table(s.index[0]) + s.weight[1] * table(s.index[1]) +
    s.weight[2] * table(s.index[2]) + s.weight[3] * table(s.index[3])
  }

  // ---- one axis --------------------------------------------------------------

  /** The nearest coordinate inside the table. */
  function Inside(src: real, side: nat): real
    requires side > 0
  {
    if src < 0.0 then 0.0 else if src > (side - 1) as real then (side - 1) as real else src
  }

  lemma WeightsOfTaps(src: real, side: nat)
    requires side > 0
    ensures var t := TapsOf(src, side);
            && t.wLo == 1.0 - (src - src.Floor as real) && t.wHi == src - src.Floor as real
            && 0.0 < t.wLo <= 1.0 && 0.0 <= t.wHi < 1.0 && t.wLo + t.wHi == 1.0
            && t.lo < side && t.hi < side
  {
  }

  /** The weighted mean of the two neighbours is the coordinate itself, pulled into the table. */
  lemma TapsInterpolate(src: real, side: nat)
    requires side > 0
    ensures var t := TapsOf(src, side);
            && t.wLo * t.lo as real + t.wHi * t.hi as real == Inside(src, side)
            && t.lo as real <= Inside(src, side) <= t.hi as real && t.hi <= t.lo + 1
  {
    WeightsOfTaps(src, side);
    var t := TapsOf(src, side);
    var fl := src.Floor;
    if 0 <= fl < side - 1 {
      assert t.lo == fl && t.hi == fl + 1;
    } else {
      assert t.lo == t.hi;
    }
  }

  // ---- the four taps ---------------------------------------------------------

  lemma ProductIsNonNegative(a: real, b: real)
    requires a >= 0.0 && b >= 0.0
    ensures a * b >= 0.0
  {
  }

  /** In both modes the four taps index inside the table; their weights are nonnegative and sum to one. */
  lemma SampleIsConvex(cell: Cell, h: nat, w: nat, side: nat, alignCorners: bool, s: Sample)
    requires side > 0 && h > 0 && w > 0 && s == SampleAt(cell, h, w, side, alignCorners)
    ensures |s.index| == |s.weight| == 4
    ensures forall i | 0 <= i < 4 :: s.index[i] < side * side && s.weight[i] >= 0.0
    ensures s.weight[0] + s.weight[1] + s.weight[2] + s.weight[3] == 1.0
  {
    hide Source, TapsOf;
    var ys, xs := Source(cell.row, h, side, alignCorners), Source(cell.column, w, side, alignCorners);
    WeightsOfTaps(ys, side);
    WeightsOfTaps(xs, side);
    var y, x := TapsOf(ys, side), TapsOf(xs, side);
    ProductIsNonNegative(y.wLo, x.wLo);
    ProductIsNonNegative(y.wLo, x.wHi);
    ProductIsNonNegative(y.wHi, x.wLo);
    ProductIsNonNegative(y.wHi, x.wHi);
    Flat(y.lo, side, x.lo, side);
    Flat(y.lo, side, x.hi, side);
    Flat(y.hi, side, x.lo, side);
    Flat(y.hi, side, x.hi, side);
  }

  /** The table holds an affine function of row and column. */
  ghost predicate IsAffine(table: nat -> real, side: nat, a: real, b: real, c: real) {
    forall y: nat, x: nat | y < side && x < side :: TableAt(table, side, y, x) == Affine(a, b, c, y as real, x as real)
  }

  function Affine(a: real, b: real, c: real, y: real, x: real): real {
    a + b * y + c * x
  }

  function TableAt(table: nat -> real, side: nat, y: nat, x: nat): real {
    table(y * side + x)
  }

  function Blend(wLo: real, lo: real, wHi: real, hi: real): real {
    wLo * lo + wHi * hi
  }

  /** Blending along rows and then across them is what the four products do. */
  lemma ResampleIsTwoBlends(table: nat -> real, y: Taps, x: Taps, side: nat)
    ensures Resample(table, Cross(y, x, side)) ==
            Blend(y.wLo, Blend(x.wLo, TableAt(table, side, y.lo, x.lo), x.wHi, TableAt(table, side, y.lo, x.hi)),
                  y.wHi, Blend(x.wLo, TableAt(table, side, y.hi, x.lo), x.wHi, TableAt(table, side, y.hi, x.hi)))
  {
    FourProducts(y.wLo, y.wHi, x.wLo, x.wHi, TableAt(table, side, y.lo, x.lo), TableAt(table, side, y.lo, x.hi),
                 TableAt(table, side, y.hi, x.lo), TableAt(table, side, y.hi, x.hi));
  }

  lemma FourProducts(a: real, b: real, c: real, d: real, v0: real, v1: real, v2: real, v3: real)
    ensures a * c * v0 + a * d * v1 + b * c * v2 + b * d * v3 == Blend(a, Blend(c, v0, d, v1), b, Blend(c, v2, d, v3))
  {
    assert a * (c * v0 + d * v1) == a * c * v0 + a * d * v1;
    assert b * (c * v2 + d * v3) == b * c * v2 + b * d * v3;
  }

  lemma BlendAlongRow(wLo: real, wHi: real, a: real, b: real, c: real, y: real, lo: real, hi: real, mean: real)
    requires wLo + wHi == 1.0 && mean == wLo * lo + wHi * hi
    ensures Blend(wLo, Affine(a, b, c, y, lo), wHi, Affine(a, b, c, y, hi)) == Affine(a, b, c, y, mean)
  {
    BlendOfSum(wLo, wHi, a + b * y, c, lo, hi, mean);
  }

  lemma BlendOfSum(wLo: real, wHi: real, base: real, c: real, lo: real, hi: real, mean: real)
    requires wLo * base + wHi * base == base && mean == wLo * lo + wHi * hi
    ensures wLo * (base + c * lo) + wHi * (base + c * hi) == base + c * mean
  {
    assert c * mean == c * (wLo * lo) + c * (wHi * hi);
    assert wLo * (base + c * lo) == wLo * base + c * (wLo * lo);
    assert wHi * (base + c * hi) == wHi * base + c * (wHi * hi);
  }

  lemma BlendAcrossRows(wLo: real, wHi: real, a: real, b: real, c: real, x: real, lo: real, hi: real, mean: real)
    requires wLo + wHi == 1.0 && mean == wLo * lo + wHi * hi
    ensures Blend(wLo, Affine(a, b, c, lo, x), wHi, Affine(a, b, c, hi, x)) == Affine(a, b, c, mean, x)
  {
    BlendOfSum(wLo, wHi, a + c * x, b, lo, hi, mean);
  }

  /** Resampling an affine table gives the affine function at the coordinate pulled into the table. */
  lemma AffineIsReproduced(table: nat -> real, side: nat, a: real, b: real, c: real, ys: real, xs: real)
    requires side > 0 && IsAffine(table, side, a, b, c)
    ensures Resample(table, Cross(TapsOf(ys, side), TapsOf(xs, side), side)) ==
            Affine(a, b, c, Inside(ys, side), Inside(xs, side))
  {
    hide TapsOf, Inside, Resample, Cross, TableAt, Blend, Affine;
    var y, x := TapsOf(ys, side), TapsOf(xs, side);
    WeightsOfTaps(ys, side);
    WeightsOfTaps(xs, side);
    TapsInterpolate(ys, side);
    TapsInterpolate(xs, side);
    ResampleIsTwoBlends(table, y, x, side);
    var column := Inside(xs, side);
    BlendAlongRow(x.wLo, x.wHi, a, b, c, y.lo as real, x.lo as real, x.hi as real, column);
    BlendAlongRow(x.wLo, x.wHi, a, b, c, y.hi as real, x.lo as real, x.hi as real, column);
    BlendAcrossRows(y.wLo, y.wHi, a, b, c, column, y.lo as real, y.hi as real, Inside(ys, side));
  }

  // ---- aligned corners -------------------------------------------------------

  lemma AlignedIsInside(index: nat, size: nat, side: nat)
    requires size > 0 && index < size && side > 0
    ensures 0.0 <= Source(index, size, side, true) <= (side - 1) as real
  {
    var d := Max(size - 1, 1);
    var n := index * (side - 1);
    assert 0 <= n;
    MulMono(index, d, side - 1);
  }

  /** With aligned corners every affine function of the grid coordinates is reproduced exactly. */
  lemma AlignedReproducesAffine(table: nat -> real, cell: Cell, h: nat, w: nat, side: nat, a: real, b: real, c: real)
    requires side > 0 && cell.row < h && cell.column < w && IsAffine(table, side, a, b, c)
    ensures Resample(table, SampleAt(cell, h, w, side, true)) ==
            Affine(a, b, c, Source(cell.row, h, side, true), Source(cell.column, w, side, true))
  {
    hide Source, TapsOf, Resample, Cross, Affine;
    AlignedIsInside(cell.row, h, side);
    AlignedIsInside(cell.column, w, side);
    AffineIsReproduced(table, side, a, b, c, Source(cell.row, h, side, true), Source(cell.column, w, side, true));
  }

  /** Where the target is as large as the table, either mode reads coordinate `index` itself. */
  lemma SourceOfEqualSize(index: nat, side: nat, alignCorners: bool)
    requires index < side
    ensures Source(index, side, side, alignCorners) == index as real
  {
    if alignCorners {
      if side > 1 {
        CancelFactor(index as real, (side - 1) as real, (index * (side - 1)) as real);
      } else {
        assert index == 0;
      }
    } else {
      CancelFactor(index as real + 0.5, side as real, (index as real + 0.5) * side as real);
    }
  }

  lemma CancelFactor(x: real, d: real, p: real)
    requires d > 0.0 && p == x * d
    ensures p / d == x
  {
    var q := p / d;
    assert q * d == p;
    assert (q - x) * d == 0.0;
  }

  /** A resample to the table's own size reads the table, in either mode. */
  lemma EqualSizeIsIdentity(table: nat -> real, cell: Cell, side: nat, alignCorners: bool)
    requires cell.row < side && cell.column < side
    ensures Resample(table, SampleAt(cell, side, side, side, alignCorners)) == table(cell.row * side + cell.column)
  {
    SourceOfEqualSize(cell.row, side, alignCorners);
    SourceOfEqualSize(cell.column, side, alignCorners);
    hide Source;
    var y, x := TapsOf(cell.row as real, side), TapsOf(cell.column as real, side);
    assert y.lo == cell.row && y.wLo == 1.0 && y.wHi == 0.0 && x.lo == cell.column && x.wLo == 1.0 && x.wHi == 0.0;
    ResampleIsTwoBlends(table, y, x, side);
  }

  // ---- where the coordinates lie ---------------------------------------------

  /** With aligned corners the first coordinate is the table's first, the last is its last, and the steps
      between them are equal. */
  lemma AlignedSpansTheTable(i: nat, size: nat, side: nat)
    requires side > 0 && i + 1 < size
    ensures Source(0, size, side, true) == 0.0 && Source(size - 1, size, side, true) == (side - 1) as real
    ensures (Source(i + 1, size, side, true) - Source(i, size, side, true)) * (size - 1) as real == (side - 1) as real
  {
    var d, s := (size - 1) as real, (side - 1) as real;
    CancelFactor(s, d, ((size - 1) * (side - 1)) as real);
    var x, y := Source(i, size, side, true), Source(i + 1, size, side, true);
    assert x * d == (i * (side - 1)) as real && y * d == ((i + 1) * (side - 1)) as real;
    assert (i + 1) * (side - 1) == i * (side - 1) + (side - 1);
  }

  /** Otherwise the coordinates lie symmetrically about the middle of the table, a table's side over a
      target's size apart. */
  lemma UnalignedIsSymmetric(i: nat, size: nat, side: nat)
    requires i < size
    ensures Source(i, size, side, false) + Source(size - 1 - i, size, side, false) == side as real - 1.0
    ensures (Source(i + 1, size, side, false) - Source(i, size, side, false)) * size as real == side as real
  {
    hide Source;
    var n, s := size as real, side as real;
    UnalignedShare(i, size, side, i as real + 0.5);
    UnalignedShare(size - 1 - i, size, side, n - i as real - 0.5);
    UnalignedShare(i + 1, size, side, i as real + 1.5);
    var x, y := Source(i, size, side, false) + 0.5, Source(size - 1 - i, size, side, false) + 0.5;
    SharesAdd(x, y, i as real + 0.5, n - i as real - 0.5, n, s);
    SharesStep(x, Source(i + 1, size, side, false) + 0.5, i as real + 0.5, n, s);
  }

  lemma UnalignedShare(i: nat, size: nat, side: nat, middle: real)
    requires size > 0 && middle == i as real + 0.5
    ensures (Source(i, size, side, false) + 0.5) * size as real == middle * side as real
  {
  }

  lemma SharesAdd(x: real, y: real, a: real, b: real, n: real, s: real)
    requires n > 0.0 && a + b == n && x * n == a * s && y * n == b * s
    ensures x + y == s
  {
    assert (x + y - s) * n == 0.0;
  }

  lemma SharesStep(x: real, y: real, a: real, n: real, s: real)
    requires x * n == a * s && y * n == (a + 1.0) * s
    ensures (y - x) * n == s
  {
  }

  // ---- the loops -------------------------------------------------------------

  /** What the loops emit for patch `p` of an entry. */
  function PatchSample(p: nat, e: Entry, side: nat, merge: nat, alignCorners: bool): Sample
    requires side > 0 && Readable(e, merge) && p < e.h * e.w
  {
    Unflat(p, e.h, e.w);
    SampleAt(Decode(p, e.w, merge), e.h, e.w, side, alignCorners)
  }

  /** Decoding divides by the number of blocks in a row, so an entry with patches needs one. */
  ghost predicate Readable(e: Entry, merge: nat) {
    merge > 0 && (e.h * e.w > 0 ==> e.w / merge > 0)
  }

  function FrameSamples(n: nat, e: Entry, side: nat, merge: nat, alignCorners: bool): (r: seq<Sample>)
    requires side > 0 && Readable(e, merge) && n <= e.h * e.w
    ensures |r| == n && forall p | 0 <= p < n :: r[p] == PatchSample(p, e, side, merge, alignCorners)
  {
    if n == 0 then []
    else FrameSamples(n - 1, e, side, merge, alignCorners) + [PatchSample(n - 1, e, side, merge, alignCorners)]
  }

  function BatchSamples(grid: seq<Entry>, side: nat, merge: nat, alignCorners: bool): seq<Sample>
    requires side > 0 && forall e | e in grid :: Readable(e, merge)
  {
    if grid == [] then []
    else
      var e := grid[|grid| - 1];
      BatchSamples(grid[..|grid| - 1], side, merge, alignCorners) +
      Repeated(FrameSamples(e.h * e.w, e, side, merge, alignCorners), e.t)
  }

  method PosEmbedTaps(grid: seq<Entry>, side: nat, merge: nat, alignCorners: bool) returns (out: seq<Sample>)
    requires side > 0 && forall e | e in grid :: Readable(e, merge)
    ensures out == BatchSamples(grid, side, merge, alignCorners)
  {
    out := [];
    for i := 0 to |grid|
      invariant out == BatchSamples(grid[..i], side, merge, alignCorners)
    {
      var e := grid[i];
      assert e in grid;
      assert grid[..i + 1][..i] == grid[..i];
      ghost var before := out;
      ghost var frame := FrameSamples(e.h * e.w, e, side, merge, alignCorners);
      for f := 0 to e.t
        invariant out == before + Repeated(frame, f)
      {
        var one := FrameLoop(e, side, merge, alignCorners);
        assert before + Repeated(frame, f) + frame == before + (Repeated(frame, f) + frame);
        out := out + one;
      }
    }
    assert grid[..|grid|] == grid;
  }

  method FrameLoop(e: Entry, side: nat, merge: nat, alignCorners: bool) returns (out: seq<Sample>)
    requires side > 0 && Readable(e, merge)
    ensures out == FrameSamples(e.h * e.w, e, side, merge, alignCorners)
  {
    out := [];
    for p := 0 to e.h * e.w
      invariant out == FrameSamples(p, e, side, merge, alignCorners)
    {
      hide Source, TapsOf, Decode;
      Unflat(p, e.h, e.w);
      var cell := Decode(p, e.w, merge);
      var y := TapsOf(Source(cell.row, e.h, side, alignCorners), side);
      var x := TapsOf(Source(cell.column, e.w, side, alignCorners), side);
      out := out + [Cross(y, x, side)];
    }
  }
}
