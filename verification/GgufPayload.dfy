/** What the sharded reads of a written file give back: the tensors' own bytes
    (crates/gguf/src/lib.rs). */
module GgufPayload {
  import opened Arith
  import opened Bytes
  import opened GgufValue
  import opened GgmlTypes
  import opened GgufFile
  import opened GgufRoundTrip
  import opened GgufShards

  // ---- one tensor ------------------------------------------------------------

  /** `payload` is what the file holds for its tensor `t`. */
  ghost predicate Carries(g: Gguf, t: TensorInfo, payload: seq<byte>) {
    && t.name in g.tensors && g.tensors[t.name] == t
    && |payload| == t.bytes && Holds(g.buf, g.dataOffset + t.offset, payload)
  }

  lemma DataIsPayload(g: Gguf, t: TensorInfo, payload: seq<byte>)
    requires Carries(g, t, payload)
    ensures TensorData(g, t) == Data(payload) && ExtentFits(g, t)
  {
  }

  /** A row shard is the payload's rows, and joined the shards are the payload. */
  lemma RowShardsGivePayload(g: Gguf, t: TensorInfo, payload: seq<byte>, cuts: seq<nat>, m: nat, rowBytes: nat)
    requires Opened(g) && Carries(g, t, payload) && t.dims != [] && Rows(t) > 0
    requires |payload| == Rows(t) * rowBytes && Cuts(cuts, Rows(t)) && m < |cuts| - 1
    ensures cuts[m] * rowBytes <= cuts[m + 1] * rowBytes <= |payload|
    ensures TensorShard(g, t, Range(cuts[m], cuts[m + 1]))
         == Data(payload[cuts[m] * rowBytes..cuts[m + 1] * rowBytes])
    ensures JoinedShards(g, t, cuts, |cuts| - 1) == Data(payload)
  {
    hide TensorData, TensorShard, JoinedShards, Rows;
    DataIsPayload(g, t, payload);
    DivMod(rowBytes, Rows(t), 0);
    CutsInRange(cuts, Rows(t), m + 1);
    ShardIsRows(g, t, cuts[m], cuts[m + 1]);
    RowShardsConcatenate(g, t, cuts);
  }

  /** Row `r` of a column shard is the payload's row `r` from the first column's byte to the last's. */
  lemma ColumnShardIsPayload(g: Gguf, t: TensorInfo, payload: seq<byte>, range: Range, shard: seq<byte>, r: nat,
                             base: nat, at: nat, to: nat, width: nat)
    requires Carries(g, t, payload) && ColumnShard(g, t, [range]) == Data(shard)
    requires |t.dims| >= 2 && r < Rows(t) && base == r * RowBytes(t)
    requires at == ColumnByte(t.ty, range.start) && to == ColumnByte(t.ty, range.end) == at + width
    ensures range.start <= range.end && base + to <= |payload| && (r + 1) * width <= |shard|
    ensures RowOf(shard, width, r) == payload[base + at..base + to]
  {
    hide TensorData, GgmlType.BlockSize, GgmlType.TypeSize, ColumnShard, RowOf, RowBytes, Rows, ColumnByte, IsBand;
    ColumnShardIsBand(g, t, payload, range, shard, at, to, width);
    RowOfPart(payload, RowBytes(t), Rows(t), shard, Band(at, width), r, base);
  }

  lemma ColumnShardIsBand(g: Gguf, t: TensorInfo, payload: seq<byte>, range: Range, shard: seq<byte>, at: nat, to: nat,
                          width: nat)
    requires Carries(g, t, payload) && ColumnShard(g, t, [range]) == Data(shard) && t.dims != []
    requires at == ColumnByte(t.ty, range.start) && to == ColumnByte(t.ty, range.end) == at + width
    ensures range.start <= range.end && to <= RowBytes(t) && Rows(t) * RowBytes(t) <= |payload|
    ensures IsBand(payload, RowBytes(t), Rows(t), shard, Band(at, width))
  {
    hide TensorData, GgmlType.BlockSize, GgmlType.TypeSize, ColumnShard, RowOf, RowBytes, Rows, IsBand;
    DataIsPayload(g, t, payload);
    OneRange(g, t, range, shard);
    RangeIsSound(g, t, range, shard);
    BandEnd(t.ty, range);
  }

  lemma RowOfPart(full: seq<byte>, rowBytes: nat, rows: nat, shard: seq<byte>, band: Band, r: nat, base: nat)
    requires rows * rowBytes <= |full| && IsBand(full, rowBytes, rows, shard, band) && r < rows
    requires band.off + band.width <= rowBytes && base == r * rowBytes
    ensures base + rowBytes <= |full| && (r + 1) * band.width <= |shard|
    ensures RowOf(shard, band.width, r) == full[base + band.off..base + band.off + band.width]
  {
    hide IsBand, RowOf;
    MulMono(r + 1, rows, rowBytes);
    RowSpan(r, rowBytes);
    RowOfBand(full, rowBytes, rows, shard, band, r, base);
  }

  lemma RangeIsSound(g: Gguf, t: TensorInfo, range: Range, shard: seq<byte>)
    requires ColumnShard(g, t, [range]) == Data(shard)
    ensures t.dims != [] && range.start <= range.end && Aligned(t.ty, range)
    ensures BandOf(t.ty, range).off + BandOf(t.ty, range).width <= RowBytes(t)
  {
    hide GgmlType.BlockSize, GgmlType.TypeSize;
    RangeCheckIsSound(t, [range]);
    assert [range][0] == range;
    BandsAreInside(t, [range]);
    assert BandsOf(t.ty, [range])[0] == BandOf(t.ty, range);
  }

  /** The column shards that ranks read separately, put back row by row, are the payload. */
  lemma ColumnShardsGivePayload(g: Gguf, t: TensorInfo, payload: seq<byte>, cuts: seq<nat>, shards: seq<seq<byte>>)
    requires Opened(g) && Carries(g, t, payload) && |t.dims| >= 2
    requires RowBytes(t) * Rows(t) == |payload| && Cuts(cuts, t.dims[0])
    requires forall i | 0 <= i < |cuts| :: cuts[i] % t.ty.BlockSize() == 0
    requires |shards| == |cuts| - 1 && forall i | 0 <= i < |shards| :: IsSingleRead(g, t, RangesOf(cuts)[i], shards[i])
    ensures Forward(RangesOf(cuts))
    ensures forall i | 0 <= i < |shards| :: Rows(t) * BandsOf(t.ty, RangesOf(cuts))[i].width <= |shards[i]|
    ensures Reinterleaved(shards, BandsOf(t.ty, RangesOf(cuts)), Rows(t)) == payload
    ensures ColumnShard(g, t, RangesOf(cuts)) == Data(payload)
  {
    hide TensorData, ColumnShard, Reinterleaved, GgmlType.BlockSize, GgmlType.TypeSize, IsSingleRead;
    DataIsPayload(g, t, payload);
    SeparateShardsReinterleave(g, t, cuts, shards);
    ColumnShardsReinterleave(g, t, cuts);
  }

  /** When a row read of an opened file's tensor gives bytes. */
  lemma RowReadSucceedsIff(g: Gguf, t: TensorInfo, r: Range)
    requires Opened(g) && t.name in g.tensors && g.tensors[t.name] == t
    ensures TensorShard(g, t, r).Data? <==>
              && t.dims != [] && r.end <= Rows(t) && Rows(t) > 0 && t.bytes % Rows(t) == 0
              && (r.start <= r.end || t.bytes == 0)
  {
    assert ExtentFits(g, t);
    if t.dims != [] {
      RowReadsStayInside(g, t, r);
    }
  }

  /** When a column read does. */
  lemma ColumnReadSucceedsIff(g: Gguf, t: TensorInfo, ranges: seq<Range>)
    requires Opened(g) && t.name in g.tensors && g.tensors[t.name] == t
    ensures ColumnShard(g, t, ranges).Data? <==>
              && |t.dims| >= 2 && RowBytes(t) * Rows(t) == t.bytes
              && forall i | 0 <= i < |ranges| ::
                   && ranges[i].start <= ranges[i].end <= t.dims[0]
                   && ranges[i].start % t.ty.BlockSize() == 0 && ranges[i].end % t.ty.BlockSize() == 0
  {
    hide GgmlType.BlockSize, GgmlType.TypeSize, AllBands, RangeCheck, RowBytes;
    assert ExtentFits(g, t);
    if |t.dims| >= 2 {
      RangeCheckIsSound(t, ranges);
    }
  }

  // ---- the alignment ---------------------------------------------------------

  function Ascii(text: string): (r: seq<byte>)
    requires forall i | 0 <= i < |text| :: text[i] < '\U{80}'
    ensures |r| == |text| && forall i | 0 <= i < |r| :: r[i] == text[i] as int
  {
    seq(|text|, i requires 0 <= i < |text| => text[i] as int)
  }

  const KEY: seq<byte> := Ascii("general.alignment")

  /** What a value says about the alignment: a whole number that is not negative says itself, a truth
      value zero or one, and anything else leaves the alignment at 32. */
  predicate Says(v: Value, a: nat) {
    match v
    case Number(ty, n) => a == if ty.F32? || ty.F64? || n < 0 then 32 else n
    case Boolean(b) => a == if b then 1 else 0
    case _ => a == 32
  }

  /** The last pair under the alignment's key says `a`, or there is none and `a` is 32. */
  ghost predicate Aligns(pairs: seq<(seq<byte>, Value)>, a: nat) {
    || (exists i | 0 <= i < |pairs| ::
          pairs[i].0 == KEY && Says(pairs[i].1, a) && forall j | i < j < |pairs| :: pairs[j].0 != KEY)
    || (a == 32 && forall i | 0 <= i < |pairs| :: pairs[i].0 != KEY)
  }

  lemma KeysSpell()
    ensures ALIGNMENT_KEY == KEY && MAGIC < Pow256(4) && Le(MAGIC, 4) == Ascii("GGUF")
  {
    Widths();
    var text := "general.alignment";
    assert |ALIGNMENT_KEY| == |text|;
    forall i | 0 <= i < |text| ensures ALIGNMENT_KEY[i] == text[i] as int {
    }
    assert Pow256(3) == 0x100_0000 && Pow256(0) == 1;
    assert Le(0x46, 1) == [0x46] + Le(0, 0);
    assert Le(0x4655, 2) == [0x55] + Le(0x46, 1);
    assert Le(0x46_5547, 3) == [0x47] + Le(0x4655, 2);
    assert Le(0x4655_4747, 4) == [0x47] + Le(0x46_5547, 3);
  }

  /** The metadata's alignment is what its last pair under the key says. */
  lemma AlignmentIsTheLastSaid(pairs: seq<(seq<byte>, Value)>, a: nat)
    requires Aligns(pairs, a)
    ensures AlignmentOf(Collect(map[], pairs)) == a
  {
    hide Collect;
    KeysSpell();
    if i :| 0 <= i < |pairs| && pairs[i].0 == KEY && Says(pairs[i].1, a) &&
            forall j | i < j < |pairs| :: pairs[j].0 != KEY
    {
      LastPairWins(map[], pairs, i);
    } else {
      OtherKeysStay(map[], pairs, KEY);
    }
  }

  // ---- a whole file ----------------------------------------------------------

  /** A file as a writer lays it out: the header, padding up to the next multiple of the alignment `a`,
      and from there every tensor's payload at its entry's offset. */
  ghost predicate LaidOut(c: Content, payloads: seq<seq<byte>>, buf: seq<byte>, lossy: seq<byte> -> seq<byte>,
                          a: nat, start: nat)
  {
    && PrintableContent(c, lossy) && Holds(buf, 0, PrintHeader(c, lossy)) && |buf| <= USIZE_MAX
    && Aligns(c.pairs, a) && a > 0
    && start % a == 0 && |PrintHeader(c, lossy)| <= start < |PrintHeader(c, lossy)| + a && start <= |buf|
    && |payloads| == |c.infos| && forall i | 0 <= i < |payloads| :: PlacedAt(c.infos[i], payloads[i], buf, start)
  }

  ghost predicate PlacedAt(t: TensorInfo, payload: seq<byte>, buf: seq<byte>, start: nat) {
    |payload| == t.bytes && Holds(buf, start + t.offset, payload)
  }

  lemma OnlyMultiple(n: nat, a: nat, start: nat)
    requires a > 0 && start % a == 0 && n <= start < n + a
    ensures NextMultiple(n, a) == start
  {
    var other := NextMultiple(n, a);
    var p, q := start / a, other / a;
    assert start == p * a && other == q * a;
    assert (q - p) * a == other - start && (p - q) * a == start - other;
    if p < q {
      MulAtLeast(q - p, a);
      assert false;
    } else if q < p {
      MulAtLeast(p - q, a);
      assert false;
    }
  }

  /** Only the entries' names are in the index. */
  lemma RegisteredIsAnEntry(infos: seq<TensorInfo>, name: seq<byte>)
    requires DistinctNames(infos) && name in Register(map[], infos)
    ensures exists i | 0 <= i < |infos| :: infos[i].name == name && Register(map[], infos)[name] == infos[i]
  {
    hide Register;
    if forall j | 0 <= j < |infos| :: infos[j].name != name {
      OthersStay(map[], infos, name);
      assert false;
    }
    var i :| 0 <= i < |infos| && infos[i].name == name;
    EveryInfoIsRegistered(map[], infos, i);
  }

  lemma PlacedIsCarried(c: Content, payloads: seq<seq<byte>>, buf: seq<byte>, lossy: seq<byte> -> seq<byte>, a: nat,
                        start: nat, i: nat)
    requires LaidOut(c, payloads, buf, lossy, a, start) && i < |c.infos|
    ensures Expected(c, buf, lossy).dataOffset == start
    ensures Carries(Expected(c, buf, lossy), c.infos[i], payloads[i])
  {
    hide PrintHeader, Register, Collect, AlignmentOf, NextMultiple;
    AlignmentIsTheLastSaid(c.pairs, a);
    OnlyMultiple(|PrintHeader(c, lossy)|, a, start);
    EveryInfoIsRegistered(map[], c.infos, i);
    assert PlacedAt(c.infos[i], payloads[i], buf, start);
  }

  /** Opening a file laid out this way succeeds, with the data section where the padding ends and exactly
      the entries written, each carrying its own payload. */
  lemma LaidOutOpens(c: Content, payloads: seq<seq<byte>>, buf: seq<byte>, lossy: seq<byte> -> seq<byte>, a: nat,
                     start: nat)
    requires LaidOut(c, payloads, buf, lossy, a, start)
    ensures HeaderAt(buf, lossy).Got?
    ensures var g := HeaderAt(buf, lossy).value;
            && Opened(g) && g.alignment == a && g.dataOffset == start
            && (forall name | name in g.tensors :: exists i | 0 <= i < |c.infos| :: c.infos[i].name == name)
            && (forall i | 0 <= i < |c.infos| :: Carries(g, c.infos[i], payloads[i]))
  {
    hide PrintHeader, HeaderAt, Register, AlignmentOf, Collect, NextMultiple, Holds;
    var g := Expected(c, buf, lossy);
    AlignmentIsTheLastSaid(c.pairs, a);
    OnlyMultiple(|PrintHeader(c, lossy)|, a, start);
    HeaderRoundTrip(c, buf, lossy);
    forall i | 0 <= i < |c.infos| ensures Carries(g, c.infos[i], payloads[i]) {
      PlacedIsCarried(c, payloads, buf, lossy, a, start, i);
    }
    forall name | name in g.tensors
      ensures ExtentFits(g, g.tensors[name]) && exists i | 0 <= i < |c.infos| :: c.infos[i].name == name
    {
      RegisteredIsAnEntry(c.infos, name);
      var i :| 0 <= i < |c.infos| && c.infos[i].name == name && g.tensors[name] == c.infos[i];
      DataIsPayload(g, c.infos[i], payloads[i]);
    }
  }

  lemma WholeRows(d: nat, rows: nat, b: nat, s: nat, elements: nat, rowBytes: nat)
    requires b > 0 && d % b == 0 && elements == d * rows && rowBytes == d / b * s
    ensures elements % b == 0 && elements / b * s == rowBytes * rows
  {
    var q := d / b;
    assert d == q * b;
    SwapLast(q, b, rows);
    DivMod(q * rows, b, 0);
    SwapLast(q, rows, s);
  }

  lemma SwapLast(a: nat, b: nat, c: nat)
    ensures a * b * c == a * c * b
  {
    MulAssoc(a, b, c);
    MulAssoc(a, c, b);
  }

  lemma ElementsOfMatrix(dims: seq<nat>)
    requires |dims| == 2
    ensures Product(dims) == dims[0] * dims[1]
  {
    assert dims[..1][..0] == [] && dims[..1] == [dims[0]];
    assert Product(dims[..1]) == Product([]) * dims[0];
  }

  /** The bytes of a printable matrix whose rows are whole blocks are its rows' bytes. */
  lemma MatrixOfWholeRows(t: TensorInfo, lossy: seq<byte> -> seq<byte>)
    requires PrintableInfo(t, lossy) && |t.dims| == 2 && t.dims[0] % t.ty.BlockSize() == 0
    ensures t.bytes == RowBytes(t) * Rows(t)
  {
    hide GgmlType.BlockSize, GgmlType.TypeSize, Product;
    ElementsOfMatrix(t.dims);
    WholeRows(t.dims[0], t.dims[1], t.ty.BlockSize(), t.ty.TypeSize(), t.elements, RowBytes(t));
  }

  /** Every matrix of such a file, read back in row shards and in column shards over any partitions, is the
      payload that was written for it. */
  lemma EveryMatrixReadsBack(c: Content, payloads: seq<seq<byte>>, buf: seq<byte>, lossy: seq<byte> -> seq<byte>,
                             a: nat, start: nat, i: nat, rowCuts: seq<nat>, columnCuts: seq<nat>)
    requires LaidOut(c, payloads, buf, lossy, a, start) && i < |c.infos| && |c.infos[i].dims| == 2
    requires c.infos[i].dims[1] > 0 && Cuts(rowCuts, c.infos[i].dims[1]) && Cuts(columnCuts, c.infos[i].dims[0])
    requires forall j | 0 <= j < |columnCuts| :: columnCuts[j] % c.infos[i].ty.BlockSize() == 0
    ensures HeaderAt(buf, lossy).Got?
    ensures var g := HeaderAt(buf, lossy).value;
            && c.infos[i].name in g.tensors && g.tensors[c.infos[i].name] == c.infos[i]
            && JoinedShards(g, c.infos[i], rowCuts, |rowCuts| - 1) == Data(payloads[i])
            && ColumnShard(g, c.infos[i], RangesOf(columnCuts)) == Data(payloads[i])
  {
    hide HeaderAt, JoinedShards, ColumnShard, GgmlType.BlockSize, GgmlType.TypeSize, TensorData, PrintHeader;
    LaidOutOpens(c, payloads, buf, lossy, a, start);
    var g, t := HeaderAt(buf, lossy).value, c.infos[i];
    assert Carries(g, t, payloads[i]);
    MatrixOfWholeRows(t, lossy);
    RowBytesDivide(t);
    DataIsPayload(g, t, payloads[i]);
    RowShardsConcatenate(g, t, rowCuts);
    ColumnShardsReinterleave(g, t, columnCuts);
  }

  lemma RowBytesDivide(t: TensorInfo)
    requires |t.dims| == 2 && t.bytes == RowBytes(t) * Rows(t)
    ensures Rows(t) > 0 ==> t.bytes % Rows(t) == 0
  {
    hide RowBytes;
    if Rows(t) > 0 {
      DivMod(RowBytes(t), Rows(t), 0);
    }
  }
}
