/** Tensor-parallel reads of rows and of block-aligned columns (crates/gguf/src/lib.rs). */
module GgufShards {
  import opened Arith
  import opened Bytes
  import opened GgmlTypes
  import opened GgufFile
  import opened Options

  datatype Refusal =
    | Scalar
    | TooFewDimensions
    | RowsOutOfBounds(end: nat, rows: nat)
    | ColumnsOutOfBounds(end: nat, columns: nat)
    | RaggedRows
    | Unaligned(start: nat, end: nat)
    | SizeMismatch

  /** A range of rows or columns; nothing keeps a caller from passing one that runs backwards. */
  datatype Range = Range(start: nat, end: nat)

  /** What a read comes to: bytes, an error the caller receives, or an abort. */
  datatype Read = Data(bytes: seq<byte>) | Refused(reason: Refusal) | Panicked

  function Rows(t: TensorInfo): nat
    requires t.dims != []
  {
    t.dims[|t.dims| - 1]
  }

  /** The raw bytes of a tensor; slicing outside the mapping aborts. */
  function TensorData(g: Gguf, t: TensorInfo): Read {
    var start := g.dataOffset + t.offset;
    if start + t.bytes > |g.buf| then Panicked else Data(g.buf[start..start + t.bytes])
  }

  // ---- rows ------------------------------------------------------------------

  function TensorShard(g: Gguf, t: TensorInfo, r: Range): Read {
    if t.dims == [] then Refused(Scalar)
    else if r.end > Rows(t) then Refused(RowsOutOfBounds(r.end, Rows(t)))
    else if Rows(t) == 0 then Panicked // remainder by zero
    else if t.bytes % Rows(t) != 0 then Refused(RaggedRows)
    else
      var rowBytes := t.bytes / Rows(t);
      match TensorData(g, t)
      case Data(full) =>
        if r.start * rowBytes <= r.end * rowBytes <= |full| then
          Data(full[r.start * rowBytes..r.end * rowBytes])
        else Panicked
      case other => other
  }

  /** An opened file aborts on a row read of one of its own tensors in exactly two cases: the
      tensor has no rows, or the range runs backwards over rows that have bytes. */
  lemma RowReadsStayInside(g: Gguf, t: TensorInfo, r: Range)
    requires Opened(g) && t.name in g.tensors && g.tensors[t.name] == t && t.dims != []
    ensures TensorShard(g, t, r).Panicked? <==>
              r.end <= Rows(t) && (Rows(t) == 0 || (t.bytes % Rows(t) == 0 && r.start > r.end && t.bytes > 0))
  {
    assert ExtentFits(g, t);
    if r.end <= Rows(t) && Rows(t) > 0 && t.bytes % Rows(t) == 0 {
      SpanOrder(r, Rows(t), t.bytes / Rows(t));
    }
  }

  lemma SpanOrder(r: Range, rows: nat, rowBytes: nat)
    requires r.end <= rows && rows > 0
    ensures r.end * rowBytes <= rows * rowBytes
    ensures r.start * rowBytes <= r.end * rowBytes <==> r.start <= r.end || rows * rowBytes == 0
  {
    MulMono(r.end, rows, rowBytes);
    if r.start <= r.end {
      MulMono(r.start, r.end, rowBytes);
    } else {
      MulMono(r.end + 1, r.start, rowBytes);
      assert (r.end + 1) * rowBytes == r.end * rowBytes + rowBytes;
      MulMono(1, rows, rowBytes);
    }
  }

  /** Cut points that partition `0..n` into consecutive ranges. */
  ghost predicate Cuts(cuts: seq<nat>, n: nat) {
    |cuts| >= 1 && cuts[0] == 0 && cuts[|cuts| - 1] == n && forall i | 0 <= i < |cuts| - 1 :: cuts[i] <= cuts[i + 1]
  }

  /** The first `m` shards, one after the other. */
  function JoinedShards(g: Gguf, t: TensorInfo, cuts: seq<nat>, m: nat): Read
    requires m < |cuts|
  {
    if m == 0 then Data([])
    else
      match (JoinedShards(g, t, cuts, m - 1), TensorShard(g, t, Range(cuts[m - 1], cuts[m])))
      case (Data(a), Data(b)) => Data(a + b)
      case (Data(_), other) => other
      case (other, _) => other
  }

  lemma {:induction false} ShardsJoinTo(g: Gguf, t: TensorInfo, cuts: seq<nat>, m: nat)
    requires ExtentFits(g, t) && t.dims != [] && Rows(t) > 0 && t.bytes % Rows(t) == 0 && Cuts(cuts, Rows(t)) &&
             m < |cuts|
    ensures TensorData(g, t).Data? && cuts[m] <= Rows(t) && cuts[m] * (t.bytes / Rows(t)) <= t.bytes
    ensures JoinedShards(g, t, cuts, m) == Data(TensorData(g, t).bytes[..cuts[m] * (t.bytes / Rows(t))])
  {
    hide TensorShard, TensorData, ExtentFits, Rows;
    var rowBytes := t.bytes / Rows(t);
    CutsInRange(cuts, Rows(t), m);
    ShardIsRows(g, t, cuts[m], cuts[m]);
    if m > 0 {
      ShardsJoinTo(g, t, cuts, m - 1);
      ShardIsRows(g, t, cuts[m - 1], cuts[m]);
      SlicesJoin(TensorData(g, t).bytes, 0, cuts[m - 1] * rowBytes, cuts[m] * rowBytes);
    }
  }

  lemma ShardIsRows(g: Gguf, t: TensorInfo, from: nat, to: nat)
    requires ExtentFits(g, t) && t.dims != [] && Rows(t) > 0 && t.bytes % Rows(t) == 0 && from <= to <= Rows(t)
    ensures var rowBytes := t.bytes / Rows(t);
            && TensorData(g, t).Data? && from * rowBytes <= to * rowBytes <= |TensorData(g, t).bytes| == t.bytes
            && TensorShard(g, t, Range(from, to)) == Data(TensorData(g, t).bytes[from * rowBytes..to * rowBytes])
  {
    hide Rows;
    var n, rowBytes := Rows(t), t.bytes / Rows(t);
    assert t.bytes == n * rowBytes;
    MulMono(from, to, rowBytes);
    MulMono(to, n, rowBytes);
  }

  lemma {:induction false} CutsInRange(cuts: seq<nat>, n: nat, i: nat)
    requires Cuts(cuts, n) && i < |cuts|
    ensures cuts[i] <= n
    decreases |cuts| - i
  {
    if i + 1 < |cuts| {
      CutsInRange(cuts, n, i + 1);
    }
  }

  /** Row shards over any consecutive partition of the rows concatenate to the tensor's bytes. */
  lemma RowShardsConcatenate(g: Gguf, t: TensorInfo, cuts: seq<nat>)
    requires Opened(g) && t.name in g.tensors && g.tensors[t.name] == t && t.dims != []
    requires Rows(t) > 0 && t.bytes % Rows(t) == 0 && Cuts(cuts, Rows(t))
    ensures JoinedShards(g, t, cuts, |cuts| - 1) == TensorData(g, t)
  {
    hide JoinedShards, TensorShard;
    assert ExtentFits(g, t);
    ShardsJoinTo(g, t, cuts, |cuts| - 1);
    assert t.bytes == Rows(t) * (t.bytes / Rows(t));
    var full := TensorData(g, t).bytes;
    assert full[..|full|] == full;
  }

  // ---- columns: bands of bytes -----------------------------------------------

  /** A band of bytes of every row: where it starts in the row and how wide it is. */
  datatype Band = Band(off: nat, width: nat)

  ghost predicate BandsFit(bands: seq<Band>, rowBytes: nat) {
    forall i | 0 <= i < |bands| :: bands[i].off + bands[i].width <= rowBytes
  }

  function TotalWidth(bands: seq<Band>): nat {
    if bands == [] then 0 else TotalWidth(bands[..|bands| - 1]) + bands[|bands| - 1].width
  }

  /** The bands of the row that starts at `base`, side by side. */
  function RowBands(full: seq<byte>, rowBytes: nat, base: nat, bands: seq<Band>): (s: seq<byte>)
    requires BandsFit(bands, rowBytes) && base + rowBytes <= |full|
    ensures |s| == TotalWidth(bands)
  {
    if bands == [] then []
    else
      var last := bands[|bands| - 1];
      RowBands(full, rowBytes, base, bands[..|bands| - 1]) + full[base + last.off..base + last.off + last.width]
  }

  lemma RowSpan(r: nat, rowBytes: nat)
    ensures (r + 1) * rowBytes == r * rowBytes + rowBytes && 0 <= r * rowBytes
  {
  }

  /** The bands of the first `n` rows, row after row. */
  function AllBands(full: seq<byte>, rowBytes: nat, n: nat, bands: seq<Band>): (s: seq<byte>)
    requires BandsFit(bands, rowBytes) && n * rowBytes <= |full|
    ensures |s| == n * TotalWidth(bands)
  {
    if n == 0 then []
    else
      RowSpan(n - 1, rowBytes);
      RowSpan(n - 1, TotalWidth(bands));
      AllBands(full, rowBytes, n - 1, bands) + RowBands(full, rowBytes, (n - 1) * rowBytes, bands)
  }

  /** Row `r` of a shard whose rows are `width` bytes wide. */
  function RowOf(shard: seq<byte>, width: nat, r: nat): seq<byte>
    requires (r + 1) * width <= |shard|
  {
    RowSpan(r, width);
    shard[r * width..r * width + width]
  }

  lemma {:induction false} RowOfBands(full: seq<byte>, rowBytes: nat, n: nat, bands: seq<Band>, r: nat)
    requires BandsFit(bands, rowBytes) && n * rowBytes <= |full| && r < n
    ensures r * rowBytes + rowBytes <= |full| && (r + 1) * TotalWidth(bands) <= n * TotalWidth(bands)
    ensures RowOf(AllBands(full, rowBytes, n, bands), TotalWidth(bands), r) ==
            RowBands(full, rowBytes, r * rowBytes, bands)
  {
    hide TotalWidth, RowBands, BandsFit;
    var w := TotalWidth(bands);
    MulMono(r + 1, n, rowBytes);
    MulMono(r + 1, n, w);
    RowSpan(r, rowBytes);
    RowSpan(n - 1, rowBytes);
    RowSpan(n - 1, w);
    RowSpan(r, w);
    var before, last := AllBands(full, rowBytes, n - 1, bands), RowBands(full, rowBytes, (n - 1) * rowBytes, bands);
    assert AllBands(full, rowBytes, n, bands) == before + last && |before| == (n - 1) * w;
    if r < n - 1 {
      RowOfBands(full, rowBytes, n - 1, bands, r);
      MulMono(r + 1, n - 1, w);
      assert (before + last)[r * w..r * w + w] == before[r * w..r * w + w];
    } else {
      assert (before + last)[r * w..r * w + w] == last;
    }
  }

  /** Bands that follow each other without gaps. */
  ghost predicate Consecutive(bands: seq<Band>, from: nat, to: nat) {
    if bands == [] then from == to
    else
      var last := bands[|bands| - 1];
      last.off + last.width == to && last.off >= from && Consecutive(bands[..|bands| - 1], from, last.off)
  }

  /** What the last of several bands adds to a row, and where the ones before it end. */
  lemma LastBand(full: seq<byte>, rowBytes: nat, base: nat, bands: seq<Band>, to: nat, rest: seq<Band>, last: Band)
    requires BandsFit(bands, rowBytes) && base + rowBytes <= |full| && Consecutive(bands, 0, to) && to <= rowBytes
    requires bands != [] && rest == bands[..|bands| - 1] && last == bands[|bands| - 1]
    ensures BandsFit(rest, rowBytes) && Consecutive(rest, 0, last.off) && last.off + last.width == to
    ensures RowBands(full, rowBytes, base, bands) ==
            RowBands(full, rowBytes, base, rest) + full[base + last.off..base + to]
  {
    hide TotalWidth;
  }

  lemma {:induction false} ConsecutiveRow(full: seq<byte>, rowBytes: nat, base: nat, bands: seq<Band>, to: nat)
    requires BandsFit(bands, rowBytes) && base + rowBytes <= |full| && Consecutive(bands, 0, to) && to <= rowBytes
    ensures RowBands(full, rowBytes, base, bands) == full[base..base + to]
  {
    if bands != [] {
      hide Consecutive, RowBands, TotalWidth, BandsFit;
      var rest, last := bands[..|bands| - 1], bands[|bands| - 1];
      LastBand(full, rowBytes, base, bands, to, rest, last);
      ConsecutiveRow(full, rowBytes, base, rest, last.off);
      SlicesJoin(full, base, base + last.off, base + to);
    }
  }

  lemma {:induction false} ConsecutiveBandsCover(full: seq<byte>, rowBytes: nat, n: nat, bands: seq<Band>)
    requires BandsFit(bands, rowBytes) && n * rowBytes <= |full| && Consecutive(bands, 0, rowBytes)
    ensures AllBands(full, rowBytes, n, bands) == full[..n * rowBytes]
  {
    if n > 0 {
      RowSpan(n - 1, rowBytes);
      ConsecutiveBandsCover(full, rowBytes, n - 1, bands);
      ConsecutiveRow(full, rowBytes, (n - 1) * rowBytes, bands, rowBytes);
      assert full[..(n - 1) * rowBytes] + full[(n - 1) * rowBytes..n * rowBytes] == full[..n * rowBytes];
    }
  }

  // ---- columns: the reads ----------------------------------------------------

  function RowBytes(t: TensorInfo): nat
    requires t.dims != []
  {
    t.dims[0] / t.ty.BlockSize() * t.ty.TypeSize()
  }

  function BandOf(ty: GgmlType, r: Range): Band
    requires r.start <= r.end
  {
    Band(r.start / ty.BlockSize() * ty.TypeSize(), (r.end - r.start) / ty.BlockSize() * ty.TypeSize())
  }

  function BandsOf(ty: GgmlType, ranges: seq<Range>): (b: seq<Band>)
    requires forall i | 0 <= i < |ranges| :: ranges[i].start <= ranges[i].end
    ensures |b| == |ranges| && forall i | 0 <= i < |b| :: b[i] == BandOf(ty, ranges[i])
  {
    if ranges == [] then [] else BandsOf(ty, ranges[..|ranges| - 1]) + [BandOf(ty, ranges[|ranges| - 1])]
  }

  predicate Aligned(ty: GgmlType, r: Range) {
    r.start % ty.BlockSize() == 0 && r.end % ty.BlockSize() == 0
  }

  /** The first range a column read objects to. */
  function RangeCheck(t: TensorInfo, ranges: seq<Range>): Read
    requires t.dims != []
  {
    if ranges == [] then Data([])
    else if ranges[0].end > t.dims[0] then Refused(ColumnsOutOfBounds(ranges[0].end, t.dims[0]))
    else if !Aligned(t.ty, ranges[0]) then Refused(Unaligned(ranges[0].start, ranges[0].end))
    else RangeCheck(t, ranges[1..])
  }

  ghost predicate Sound(t: TensorInfo, ranges: seq<Range>)
    requires t.dims != []
  {
    forall i | 0 <= i < |ranges| :: ranges[i].end <= t.dims[0] && Aligned(t.ty, ranges[i])
  }

  lemma {:induction false} RangeCheckIsSound(t: TensorInfo, ranges: seq<Range>)
    requires t.dims != []
    ensures !RangeCheck(t, ranges).Panicked? && (RangeCheck(t, ranges).Data? <==> Sound(t, ranges))
    decreases |ranges|
  {
    if ranges != [] {
      RangeCheckIsSound(t, ranges[1..]);
      assert forall i | 0 < i < |ranges| :: ranges[i] == ranges[1..][i - 1];
      if Sound(t, ranges) {
        assert forall i | 0 <= i < |ranges[1..]| :: ranges[1..][i] == ranges[i + 1];
      }
    }
  }

  ghost predicate Forward(ranges: seq<Range>) {
    forall i | 0 <= i < |ranges| :: ranges[i].start <= ranges[i].end
  }

  /** The columns of several ranges, interleaved row by row. */
  ghost function ColumnShard(g: Gguf, t: TensorInfo, ranges: seq<Range>): Read {
    if |t.dims| < 2 then Refused(TooFewDimensions)
    else if !RangeCheck(t, ranges).Data? then RangeCheck(t, ranges)
    else if RowBytes(t) * Rows(t) != t.bytes then Refused(SizeMismatch)
    else if !ExtentFits(g, t) || !Forward(ranges) then Panicked
    else
      RangeCheckIsSound(t, ranges);
      BandsAreInside(t, ranges);
      Data(AllBands(TensorData(g, t).bytes, RowBytes(t), Rows(t), BandsOf(t.ty, ranges)))
  }

  lemma BandsAreInside(t: TensorInfo, ranges: seq<Range>)
    requires t.dims != [] && Sound(t, ranges) && Forward(ranges)
    ensures BandsFit(BandsOf(t.ty, ranges), RowBytes(t))
  {
    forall i | 0 <= i < |ranges|
      ensures BandOf(t.ty, ranges[i]).off + BandOf(t.ty, ranges[i]).width <= RowBytes(t)
    {
      BandEnd(t.ty, ranges[i]);
      var b := t.ty.BlockSize();
      assert ranges[i].end / b <= t.dims[0] / b by { DivMono(ranges[i].end, t.dims[0], b); }
      MulMono(ranges[i].end / b, t.dims[0] / b, t.ty.TypeSize());
    }
  }

  lemma DivMono(x: nat, y: nat, d: nat)
    requires d > 0 && x <= y
    ensures x / d <= y / d
  {
    DivParts(x, d);
    DivParts(y, d);
    var q := y / d;
    assert (q + 1) * d == q * d + d;
    if x / d > q {
      MulMono(q + 1, x / d, d);
      assert false;
    }
  }

  /** A block-aligned range of columns is the band that ends where the next one starts. */
  lemma BandEnd(ty: GgmlType, r: Range)
    requires Aligned(ty, r) && r.start <= r.end
    ensures BandOf(ty, r).off == r.start / ty.BlockSize() * ty.TypeSize()
    ensures BandOf(ty, r).off + BandOf(ty, r).width == r.end / ty.BlockSize() * ty.TypeSize()
  {
    hide GgmlType.BlockSize, GgmlType.TypeSize;
    var b, s := ty.BlockSize(), ty.TypeSize();
    DivParts(r.start, b);
    DivParts(r.end, b);
    var p, q := r.start / b, r.end / b;
    assert r.end - r.start == (q - p) * b + 0;
    DivMod(q - p, b, 0);
    assert p * s + (q - p) * s == q * s;
  }

  /** An opened file never aborts on a forward column read of one of its own tensors. */
  lemma ColumnReadsStayInside(g: Gguf, name: seq<byte>, ranges: seq<Range>)
    requires Opened(g) && name in g.tensors
    ensures var t := g.tensors[name];
            ColumnShard(g, t, ranges).Panicked? <==>
              |t.dims| >= 2 && Sound(t, ranges) && RowBytes(t) * Rows(t) == t.bytes && !Forward(ranges)
  {
    var t := g.tensors[name];
    assert ExtentFits(g, t);
    if |t.dims| >= 2 {
      RangeCheckIsSound(t, ranges);
    }
  }

  method TensorShardCols(g: Gguf, t: TensorInfo, r: Range) returns (out: Read)
    ensures out == ColumnShard(g, t, [r])
  {
    assert [r][1..] == [];
    if |t.dims| < 2 {
      return Refused(TooFewDimensions);
    }
    var rows, columns := Rows(t), t.dims[0];
    if r.end > columns {
      return Refused(ColumnsOutOfBounds(r.end, columns));
    }
    if !Aligned(t.ty, r) {
      return Refused(Unaligned(r.start, r.end));
    }
    assert RangeCheck(t, [r]).Data?;
    var rowBytes := RowBytes(t);
    if rowBytes * rows != t.bytes {
      return Refused(SizeMismatch);
    }
    if r.start > r.end {
      assert [r][0].start > [r][0].end;
      return Panicked; // the width underflows
    }
    var band := BandOf(t.ty, r);
    var data := TensorData(g, t);
    if data.Panicked? {
      return Panicked;
    }
    RangeCheckIsSound(t, [r]);
    BandsAreInside(t, [r]);
    var s := BandLoop(data.bytes, rowBytes, rows, [band]);
    return Data(s);
  }

  method TensorShardColsMulti(g: Gguf, t: TensorInfo, ranges: seq<Range>) returns (out: Read)
    ensures out == ColumnShard(g, t, ranges)
  {
    if |t.dims| < 2 {
      return Refused(TooFewDimensions);
    }
    var rows := Rows(t);
    RangeCheckIsSound(t, ranges);
    var checked := CheckRanges(t, ranges);
    if !checked.Data? {
      return checked;
    }
    var rowBytes := RowBytes(t);
    if rowBytes * rows != t.bytes {
      return Refused(SizeMismatch);
    }
    var data := TensorData(g, t);
    if data.Panicked? {
      return Panicked;
    }
    var bands := BandList(t.ty, ranges);
    if bands.None? {
      return Panicked; // a width underflows
    }
    BandsAreInside(t, ranges);
    var s := BandLoop(data.bytes, rowBytes, rows, bands.value);
    return Data(s);
  }

  method CheckRanges(t: TensorInfo, ranges: seq<Range>) returns (r: Read)
    requires t.dims != []
    ensures r == RangeCheck(t, ranges)
  {
    for i := 0 to |ranges|
      invariant RangeCheck(t, ranges) == RangeCheck(t, ranges[i..])
    {
      assert ranges[i..][1..] == ranges[i + 1..];
      if ranges[i].end > t.dims[0] {
        return Refused(ColumnsOutOfBounds(ranges[i].end, t.dims[0]));
      }
      if !Aligned(t.ty, ranges[i]) {
        return Refused(Unaligned(ranges[i].start, ranges[i].end));
      }
    }
    return Data([]);
  }

  method BandList(ty: GgmlType, ranges: seq<Range>) returns (bands: Option<seq<Band>>)
    ensures bands.Some? <==> Forward(ranges)
    ensures bands.Some? ==> bands.value == BandsOf(ty, ranges)
  {
    var out: seq<Band> := [];
    for i := 0 to |ranges|
      invariant Forward(ranges[..i]) && out == BandsOf(ty, ranges[..i])
    {
      if ranges[i].start > ranges[i].end {
        return None;
      }
      assert ranges[..i + 1][..i] == ranges[..i];
      out := out + [BandOf(ty, ranges[i])];
    }
    assert ranges[..|ranges|] == ranges;
    return Some(out);
  }

  /** Row by row, band by band. */
  method BandLoop(full: seq<byte>, rowBytes: nat, rows: nat, bands: seq<Band>) returns (out: seq<byte>)
    requires BandsFit(bands, rowBytes) && rows * rowBytes <= |full|
    ensures out == AllBands(full, rowBytes, rows, bands)
  {
    out := [];
    for row := 0 to rows
      invariant row * rowBytes <= rows * rowBytes && out == AllBands(full, rowBytes, row, bands)
    {
      MulMono(row + 1, rows, rowBytes);
      RowSpan(row, rowBytes);
      var piece := RowLoop(full, rowBytes, row * rowBytes, bands);
      out := out + piece;
    }
  }

  method RowLoop(full: seq<byte>, rowBytes: nat, base: nat, bands: seq<Band>) returns (out: seq<byte>)
    requires BandsFit(bands, rowBytes) && base + rowBytes <= |full|
    ensures out == RowBands(full, rowBytes, base, bands)
  {
    out := [];
    for i := 0 to |bands|
      invariant BandsFit(bands[..i], rowBytes) && out == RowBands(full, rowBytes, base, bands[..i])
    {
      assert bands[..i + 1][..i] == bands[..i];
      out := out + full[base + bands[i].off..base + bands[i].off + bands[i].width];
    }
    assert bands[..|bands|] == bands;
  }

  // ---- what the column reads are for -----------------------------------------

  /** The shards' rows `r`, side by side, in range order. */
  ghost function RowsSideBySide(shards: seq<seq<byte>>, bands: seq<Band>, r: nat): seq<byte>
    requires |shards| == |bands| && forall i | 0 <= i < |bands| :: (r + 1) * bands[i].width <= |shards[i]|
  {
    if bands == [] then []
    else
      var m := |bands| - 1;
      RowsSideBySide(shards[..m], bands[..m], r) + RowOf(shards[m], bands[m].width, r)
  }

  lemma {:induction false} SideBySideIsRow(full: seq<byte>, rowBytes: nat, n: nat, shards: seq<seq<byte>>,
                                           bands: seq<Band>, r: nat, base: nat)
    requires BandsFit(bands, rowBytes) && n * rowBytes <= |full| && r < n && |shards| == |bands|
    requires base == r * rowBytes && base + rowBytes <= |full|
    requires forall i | 0 <= i < |bands| :: IsBand(full, rowBytes, n, shards[i], bands[i])
    requires forall i | 0 <= i < |bands| :: (r + 1) * bands[i].width <= |shards[i]|
    ensures RowsSideBySide(shards, bands, r) == RowBands(full, rowBytes, base, bands)
    decreases |bands|
  {
    hide IsBand, RowOf;
    if bands != [] {
      var m := |bands| - 1;
      assert forall i | 0 <= i < m :: shards[..m][i] == shards[i] && bands[..m][i] == bands[i];
      SideBySideIsRow(full, rowBytes, n, shards[..m], bands[..m], r, base);
      assert IsBand(full, rowBytes, n, shards[m], bands[m]);
      RowOfBand(full, rowBytes, n, shards[m], bands[m], r, base);
    }
  }

  /** `shard` is the single-range read of `band`. */
  ghost predicate IsBand(full: seq<byte>, rowBytes: nat, n: nat, shard: seq<byte>, band: Band)
    requires n * rowBytes <= |full|
  {
    BandsFit([band], rowBytes) && shard == AllBands(full, rowBytes, n, [band])
  }

  lemma RowOfBand(full: seq<byte>, rowBytes: nat, n: nat, shard: seq<byte>, band: Band, r: nat, base: nat)
    requires n * rowBytes <= |full| && IsBand(full, rowBytes, n, shard, band) && r < n
    requires band.off + band.width <= rowBytes && base == r * rowBytes && base + rowBytes <= |full|
    ensures (r + 1) * band.width <= |shard|
    ensures RowOf(shard, band.width, r) == full[base + band.off..base + band.off + band.width]
  {
    WidthOfOne(band);
    RowOfBands(full, rowBytes, n, [band], r);
    RowOfOne(full, rowBytes, base, band);
  }

  lemma WidthOfOne(b: Band)
    ensures TotalWidth([b]) == b.width
  {
    assert [b][..0] == [];
  }

  lemma RowOfOne(full: seq<byte>, rowBytes: nat, base: nat, b: Band)
    requires BandsFit([b], rowBytes) && base + rowBytes <= |full| && b.off + b.width <= rowBytes
    ensures RowBands(full, rowBytes, base, [b]) == full[base + b.off..base + b.off + b.width]
  {
    assert [b][0] == b && [b][..0] == [];
  }

  /** `shard` is what reading `r` alone gives. */
  ghost predicate IsSingleRead(g: Gguf, t: TensorInfo, r: Range, shard: seq<byte>) {
    ColumnShard(g, t, [r]) == Data(shard)
  }

  /** A read of several ranges is, row by row, the concatenation of single-range reads. */
  lemma MultiIsPerRowConcatenation(g: Gguf, t: TensorInfo, ranges: seq<Range>, shards: seq<seq<byte>>, r: nat)
    requires ColumnShard(g, t, ranges).Data? && |shards| == |ranges| && r < Rows(t)
    requires forall i | 0 <= i < |ranges| :: IsSingleRead(g, t, ranges[i], shards[i])
    ensures Forward(ranges)
    ensures var bands := BandsOf(t.ty, ranges);
            && (r + 1) * TotalWidth(bands) <= |ColumnShard(g, t, ranges).bytes|
            && (forall i | 0 <= i < |bands| :: (r + 1) * bands[i].width <= |shards[i]|)
            && RowOf(ColumnShard(g, t, ranges).bytes, TotalWidth(bands), r) == RowsSideBySide(shards, bands, r)
  {
    hide GgmlType.BlockSize, GgmlType.TypeSize, RowOf, RowsSideBySide, RangeCheck, Aligned, AllBands;
    RangeCheckIsSound(t, ranges);
    BandsAreInside(t, ranges);
    var bands := BandsOf(t.ty, ranges);
    var full := TensorData(g, t).bytes;
    MulMono(r + 1, Rows(t), RowBytes(t));
    RowSpan(r, RowBytes(t));
    forall i | 0 <= i < |bands|
      ensures IsBand(full, RowBytes(t), Rows(t), shards[i], bands[i]) && (r + 1) * bands[i].width <= |shards[i]|
    {
      OneRange(g, t, ranges[i], shards[i]);
      RowOfBand(full, RowBytes(t), Rows(t), shards[i], bands[i], r, r * RowBytes(t));
    }
    RowOfBands(full, RowBytes(t), Rows(t), bands, r);
    SideBySideIsRow(full, RowBytes(t), Rows(t), shards, bands, r, r * RowBytes(t));
  }

  lemma OneRange(g: Gguf, t: TensorInfo, r: Range, shard: seq<byte>)
    requires ColumnShard(g, t, [r]) == Data(shard)
    ensures r.start <= r.end && ExtentFits(g, t) && TensorData(g, t).Data? && t.dims != []
    ensures Rows(t) * RowBytes(t) <= |TensorData(g, t).bytes|
    ensures IsBand(TensorData(g, t).bytes, RowBytes(t), Rows(t), shard, BandOf(t.ty, r))
  {
    hide GgmlType.BlockSize, GgmlType.TypeSize;
    RangeCheckIsSound(t, [r]);
    assert [r][0] == r;
    BandsAreInside(t, [r]);
  }

  /** The consecutive ranges between cut points. */
  function RangesOf(cuts: seq<nat>): (r: seq<Range>)
    requires |cuts| >= 1
    ensures |r| == |cuts| - 1 && forall i | 0 <= i < |r| :: r[i] == Range(cuts[i], cuts[i + 1])
  {
    seq(|cuts| - 1, i requires 0 <= i < |cuts| - 1 => Range(cuts[i], cuts[i + 1]))
  }

  /** Ranges that start at column zero, each where the one before ends. */
  ghost predicate Chained(ranges: seq<Range>) {
    && (ranges != [] ==> ranges[0].start == 0)
    && forall i | 0 <= i < |ranges| - 1 :: ranges[i].end == ranges[i + 1].start
  }

  /** The byte of a row at which block-aligned column `c` begins. */
  function ColumnByte(ty: GgmlType, c: nat): nat {
    c / ty.BlockSize() * ty.TypeSize()
  }

  lemma {:induction false} ChainedBands(ty: GgmlType, ranges: seq<Range>, to: nat)
    requires Forward(ranges) && Chained(ranges) && forall i | 0 <= i < |ranges| :: Aligned(ty, ranges[i])
    requires to == if ranges == [] then 0 else ranges[|ranges| - 1].end
    ensures Consecutive(BandsOf(ty, ranges), 0, ColumnByte(ty, to))
  {
    hide GgmlType.BlockSize, GgmlType.TypeSize, BandOf;
    DivMod(0, ty.BlockSize(), 0);
    if ranges != [] {
      var m := |ranges| - 1;
      assert m > 0 ==> ranges[..m][m - 1].end == ranges[m].start;
      ChainedBands(ty, ranges[..m], ranges[m].start);
      BandEnd(ty, ranges[m]);
      assert BandsOf(ty, ranges)[..m] == BandsOf(ty, ranges[..m]);
    }
  }

  /** Block-aligned column shards over any consecutive partition of the columns, interleaved row
      by row, are the tensor's bytes. */
  lemma ColumnShardsReinterleave(g: Gguf, t: TensorInfo, cuts: seq<nat>)
    requires Opened(g) && t.name in g.tensors && g.tensors[t.name] == t && |t.dims| >= 2
    requires RowBytes(t) * Rows(t) == t.bytes && Cuts(cuts, t.dims[0])
    requires forall i | 0 <= i < |cuts| :: cuts[i] % t.ty.BlockSize() == 0
    ensures ColumnShard(g, t, RangesOf(cuts)) == TensorData(g, t)
  {
    hide GgmlType.BlockSize, GgmlType.TypeSize, AllBands, RangeCheck, TotalWidth, BandOf, BandsFit, Consecutive;
    assert ExtentFits(g, t);
    var ranges := RangesOf(cuts);
    forall i | 0 <= i < |ranges| ensures ranges[i].end <= t.dims[0] && Aligned(t.ty, ranges[i]) {
      CutsInRange(cuts, t.dims[0], i + 1);
    }
    RangeCheckIsSound(t, ranges);
    BandsAreInside(t, ranges);
    ChainedBands(t.ty, ranges, t.dims[0]);
    var full := TensorData(g, t).bytes;
    ConsecutiveBandsCover(full, RowBytes(t), Rows(t), BandsOf(t.ty, ranges));
    assert full[..|full|] == full;
  }

  /** The separate shards put back together: the first `n` rows, each made of its pieces. */
  ghost function Reinterleaved(shards: seq<seq<byte>>, bands: seq<Band>, n: nat): seq<byte>
    requires |shards| == |bands| && forall i | 0 <= i < |bands| :: n * bands[i].width <= |shards[i]|
  {
    if n == 0 then []
    else
      RowsGrow(bands, n - 1);
      Reinterleaved(shards, bands, n - 1) + RowsSideBySide(shards, bands, n - 1)
  }

  lemma RowsGrow(bands: seq<Band>, r: nat)
    ensures forall i | 0 <= i < |bands| :: r * bands[i].width <= (r + 1) * bands[i].width
  {
    forall i | 0 <= i < |bands| ensures r * bands[i].width <= (r + 1) * bands[i].width {
      RowSpan(r, bands[i].width);
    }
  }

  lemma {:induction false} ReinterleavedIsBands(full: seq<byte>, rowBytes: nat, rows: nat, n: nat,
                                                shards: seq<seq<byte>>, bands: seq<Band>)
    requires BandsFit(bands, rowBytes) && rows * rowBytes <= |full| && n <= rows && |shards| == |bands|
    requires forall i | 0 <= i < |bands| :: IsBand(full, rowBytes, rows, shards[i], bands[i])
    requires forall i | 0 <= i < |bands| :: n * bands[i].width <= |shards[i]|
    ensures n * rowBytes <= |full| && Reinterleaved(shards, bands, n) == AllBands(full, rowBytes, n, bands)
  {
    hide IsBand, RowsSideBySide, RowBands;
    MulMono(n, rows, rowBytes);
    if n > 0 {
      RowsGrow(bands, n - 1);
      RowSpan(n - 1, rowBytes);
      ReinterleavedIsBands(full, rowBytes, rows, n - 1, shards, bands);
      SideBySideIsRow(full, rowBytes, rows, shards, bands, n - 1, (n - 1) * rowBytes);
    }
  }

  /** Every rank's own read succeeds. */
  lemma SingleReadSucceeds(g: Gguf, t: TensorInfo, cuts: seq<nat>, i: nat)
    requires Opened(g) && t.name in g.tensors && g.tensors[t.name] == t && |t.dims| >= 2
    requires RowBytes(t) * Rows(t) == t.bytes && Cuts(cuts, t.dims[0]) && i < |cuts| - 1
    requires forall i | 0 <= i < |cuts| :: cuts[i] % t.ty.BlockSize() == 0
    ensures ColumnShard(g, t, [RangesOf(cuts)[i]]).Data?
  {
    hide GgmlType.BlockSize, GgmlType.TypeSize, AllBands, RangeCheck;
    assert ExtentFits(g, t);
    var one := [RangesOf(cuts)[i]];
    CutsInRange(cuts, t.dims[0], i + 1);
    RangeCheckIsSound(t, one);
  }

  /** The shards that the ranks read separately, one range of whole blocks each, put back row by row in
      range order, are the tensor's bytes. */
  lemma SeparateShardsReinterleave(g: Gguf, t: TensorInfo, cuts: seq<nat>, shards: seq<seq<byte>>)
    requires Opened(g) && t.name in g.tensors && g.tensors[t.name] == t && |t.dims| >= 2
    requires RowBytes(t) * Rows(t) == t.bytes && Cuts(cuts, t.dims[0])
    requires forall i | 0 <= i < |cuts| :: cuts[i] % t.ty.BlockSize() == 0
    requires |shards| == |cuts| - 1 && forall i | 0 <= i < |shards| :: IsSingleRead(g, t, RangesOf(cuts)[i], shards[i])
    ensures Forward(RangesOf(cuts))
    ensures forall i | 0 <= i < |shards| :: Rows(t) * BandsOf(t.ty, RangesOf(cuts))[i].width <= |shards[i]|
    ensures Data(Reinterleaved(shards, BandsOf(t.ty, RangesOf(cuts)), Rows(t))) == TensorData(g, t)
  {
    hide GgmlType.BlockSize, GgmlType.TypeSize, AllBands, RangeCheck, Reinterleaved, BandOf;
    ColumnShardsReinterleave(g, t, cuts);
    var ranges := RangesOf(cuts);
    RangeCheckIsSound(t, ranges);
    BandsAreInside(t, ranges);
    var bands, full := BandsOf(t.ty, ranges), TensorData(g, t).bytes;
    forall i | 0 <= i < |bands|
      ensures IsBand(full, RowBytes(t), Rows(t), shards[i], bands[i]) && Rows(t) * bands[i].width <= |shards[i]|
    {
      OneRange(g, t, ranges[i], shards[i]);
      WidthOfOne(bands[i]);
    }
    ReinterleavedIsBands(full, RowBytes(t), Rows(t), Rows(t), shards, bands);
  }
}
