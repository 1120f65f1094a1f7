/** A writer for whole GGUF headers, after the "File Structure" section of ggml's GGUF document,
    and the proof that opening what it writes gives back what was written. */
module GgufRoundTrip {
  import opened Bytes
  import opened GgufValue
  import opened GgufReader
  import opened GgmlTypes
  import opened GgufFile

  // ---- tensor index entries --------------------------------------------------

  function Product(dims: seq<nat>): nat {
    if dims == [] then 1 else Product(dims[..|dims| - 1]) * dims[|dims| - 1]
  }

  ghost predicate PrintableText(s: seq<byte>, lossy: seq<byte> -> seq<byte>) {
    |s| <= MAX_STRING_LEN && lossy(s) == s
  }

  /** Every dimension fits a word and so does every product of leading dimensions. */
  ghost predicate PrintableDims(dims: seq<nat>) {
    && (forall i | 0 <= i < |dims| :: dims[i] < Pow256(8))
    && (forall i | 0 <= i <= |dims| :: Product(dims[..i]) <= USIZE_MAX)
  }

  /** An index entry a writer may print: what the reader derives from the shape is what it says. */
  ghost predicate PrintableInfo(t: TensorInfo, lossy: seq<byte> -> seq<byte>) {
    && PrintableText(t.name, lossy) && 1 <= |t.dims| <= 4 && PrintableDims(t.dims)
    && t.elements == Product(t.dims) && t.ty.SizeFor(t.elements) == Got(t.bytes, 0) && t.offset < Pow256(8)
  }

  ghost function PrintText(s: seq<byte>): seq<byte>
    requires |s| <= MAX_STRING_LEN
  {
    LimitsFit();
    Le(|s|, 8) + s
  }

  ghost function PrintDims(dims: seq<nat>): (r: seq<byte>)
    requires forall i | 0 <= i < |dims| :: dims[i] < Pow256(8)
  {
    if dims == [] then [] else Le(dims[0], 8) + PrintDims(dims[1..])
  }

  ghost function PrintInfoTail(t: TensorInfo): seq<byte>
    requires t.offset < Pow256(8)
  {
    Widths();
    Le(t.ty.Tag(), 4) + Le(t.offset, 8)
  }

  ghost function PrintInfo(t: TensorInfo, lossy: seq<byte> -> seq<byte>): seq<byte>
    requires PrintableInfo(t, lossy)
  {
    Widths();
    PrintText(t.name) + (Le(|t.dims|, 4) + (PrintDims(t.dims) + PrintInfoTail(t)))
  }

  lemma {:induction false} DimsRoundTrip(dims: seq<nat>, from: nat, buf: seq<byte>, pos: nat)
    requires |buf| <= USIZE_MAX && PrintableDims(dims) && from <= |dims| && Holds(buf, pos, PrintDims(dims[from..]))
    ensures DimsAt(|dims| - from, buf, pos, dims[..from], Product(dims[..from]))
         == Got((dims, Product(dims)), pos + |PrintDims(dims[from..])|)
    decreases |dims| - from
  {
    hide Le, Pow256;
    if from == |dims| {
      assert dims[..from] == dims;
    } else {
      var rest := dims[from + 1..];
      assert dims[from..][1..] == rest && dims[from..][0] == dims[from];
      HoldsSplits(buf, pos, Le(dims[from], 8), PrintDims(rest));
      UIntReadsLe(buf, pos, dims[from], 8);
      assert dims[..from + 1][..from] == dims[..from];
      assert dims[..from] + [dims[from]] == dims[..from + 1];
      assert Product(dims[..from + 1]) == Product(dims[..from]) * dims[from];
      DimsRoundTrip(dims, from + 1, buf, pos + 8);
    }
  }

  lemma InfoTailRoundTrip(t: TensorInfo, buf: seq<byte>, pos: nat)
    requires |buf| <= USIZE_MAX && t.offset < Pow256(8) && t.ty.SizeFor(t.elements) == Got(t.bytes, 0)
    requires Holds(buf, pos, PrintInfoTail(t))
    ensures InfoTailAt(t.name, t.dims, t.elements, buf, pos) == Got(t, pos + |PrintInfoTail(t)|)
  {
    hide Le, Pow256;
    Widths();
    HoldsSplits(buf, pos, Le(t.ty.Tag(), 4), Le(t.offset, 8));
    UIntReadsLe(buf, pos, t.ty.Tag(), 4);
    UIntReadsLe(buf, pos + 4, t.offset, 8);
    DiscriminantsAgree(t.ty, 0);
  }

  lemma InfoRoundTrip(t: TensorInfo, buf: seq<byte>, pos: nat, lossy: seq<byte> -> seq<byte>)
    requires |buf| <= USIZE_MAX && PrintableInfo(t, lossy) && Holds(buf, pos, PrintInfo(t, lossy))
    ensures InfoAt(buf, pos, lossy) == Got(t, pos + |PrintInfo(t, lossy)|)
  {
    hide Le, Pow256, DimsAt, InfoTailAt, PrintInfoTail, PrintDims, PrintText, StringAt, GgmlType.SizeFor;
    Widths();
    var name := PrintText(t.name);
    var tail := PrintInfoTail(t);
    var dims := PrintDims(t.dims);
    HoldsSplits(buf, pos, name, Le(|t.dims|, 4) + (dims + tail));
    TextReads(t.name, buf, pos, lossy);
    var p1 := pos + |name|;
    HoldsSplits(buf, p1, Le(|t.dims|, 4), dims + tail);
    UIntReadsLe(buf, p1, |t.dims|, 4);
    HoldsSplits(buf, p1 + 4, dims, tail);
    assert t.dims[0..] == t.dims && t.dims[..0] == [];
    assert Product(t.dims[..0]) == 1;
    DimsRoundTrip(t.dims, 0, buf, p1 + 4);
    InfoTailRoundTrip(t, buf, p1 + 4 + |dims|);
  }

  // ---- the tables ------------------------------------------------------------

  ghost predicate PrintablePairs(pairs: seq<(seq<byte>, Value)>, lossy: seq<byte> -> seq<byte>) {
    forall i | 0 <= i < |pairs| :: PrintableText(pairs[i].0, lossy) && Printable(pairs[i].1, lossy)
  }

  ghost function PrintPairs(pairs: seq<(seq<byte>, Value)>, lossy: seq<byte> -> seq<byte>): seq<byte>
    requires PrintablePairs(pairs, lossy)
  {
    if pairs == [] then []
    else
      assert PrintableText(pairs[0].0, lossy) && Printable(pairs[0].1, lossy);
      PrintText(pairs[0].0) + (Print(pairs[0].1, lossy) + PrintPairs(pairs[1..], lossy))
  }

  /** The pairs as a map, later ones replacing earlier ones. */
  function Collect(meta: Metadata, pairs: seq<(seq<byte>, Value)>): Metadata
    decreases |pairs|
  {
    if pairs == [] then meta else Collect(meta[pairs[0].0 := pairs[0].1], pairs[1..])
  }

  /** A key has the value of its last pair. */
  lemma {:induction false} LastPairWins(meta: Metadata, pairs: seq<(seq<byte>, Value)>, i: nat)
    requires i < |pairs| && forall j | i < j < |pairs| :: pairs[j].0 != pairs[i].0
    ensures pairs[i].0 in Collect(meta, pairs) && Collect(meta, pairs)[pairs[i].0] == pairs[i].1
    decreases |pairs|
  {
    if i == 0 {
      OtherKeysStay(meta[pairs[0].0 := pairs[0].1], pairs[1..], pairs[0].0);
    } else {
      LastPairWins(meta[pairs[0].0 := pairs[0].1], pairs[1..], i - 1);
    }
  }

  lemma {:induction false} OtherKeysStay(meta: Metadata, pairs: seq<(seq<byte>, Value)>, key: seq<byte>)
    requires forall j | 0 <= j < |pairs| :: pairs[j].0 != key
    ensures (key in Collect(meta, pairs) <==> key in meta) && (key in meta ==> Collect(meta, pairs)[key] == meta[key])
    decreases |pairs|
  {
    if pairs != [] {
      OtherKeysStay(meta[pairs[0].0 := pairs[0].1], pairs[1..], key);
    }
  }

  lemma TextReads(s: seq<byte>, buf: seq<byte>, pos: nat, lossy: seq<byte> -> seq<byte>)
    requires |buf| <= USIZE_MAX && PrintableText(s, lossy) && Holds(buf, pos, PrintText(s))
    ensures StringAt(buf, pos, lossy) == Got(s, pos + |PrintText(s)|)
  {
    hide Le, Pow256;
    LimitsFit();
    StringReads(buf, pos, s, lossy);
  }

  lemma {:induction false} PairsRoundTrip(pairs: seq<(seq<byte>, Value)>, meta: Metadata, buf: seq<byte>, pos: nat,
                                          lossy: seq<byte> -> seq<byte>)
    requires |buf| <= USIZE_MAX && PrintablePairs(pairs, lossy) && Holds(buf, pos, PrintPairs(pairs, lossy))
    ensures PairsAt(|pairs|, buf, pos, lossy, meta) == Got(Collect(meta, pairs), pos + |PrintPairs(pairs, lossy)|)
    decreases |pairs|
  {
    hide PrintText, StringAt, Print, ValueAt, Printable;
    if pairs != [] {
      var (key, v) := pairs[0];
      assert PrintableText(key, lossy) && Printable(v, lossy);
      var rest := PrintPairs(pairs[1..], lossy);
      HoldsSplits(buf, pos, PrintText(key), Print(v, lossy) + rest);
      TextReads(key, buf, pos, lossy);
      var p1 := pos + |PrintText(key)|;
      HoldsSplits(buf, p1, Print(v, lossy), rest);
      ValueRoundTrip(v, buf, p1, lossy);
      PairsRoundTrip(pairs[1..], meta[key := v], buf, p1 + |Print(v, lossy)|, lossy);
    }
  }

  ghost predicate PrintableInfos(infos: seq<TensorInfo>, lossy: seq<byte> -> seq<byte>) {
    forall i | 0 <= i < |infos| :: PrintableInfo(infos[i], lossy)
  }

  ghost function PrintInfos(infos: seq<TensorInfo>, lossy: seq<byte> -> seq<byte>): seq<byte>
    requires PrintableInfos(infos, lossy)
  {
    if infos == [] then [] else PrintInfo(infos[0], lossy) + PrintInfos(infos[1..], lossy)
  }

  ghost predicate DistinctNames(infos: seq<TensorInfo>) {
    forall i, j | 0 <= i < j < |infos| :: infos[i].name != infos[j].name
  }

  function Register(index: Index, infos: seq<TensorInfo>): Index
    decreases |infos|
  {
    if infos == [] then index else Register(index[infos[0].name := infos[0]], infos[1..])
  }

  /** With distinct names, the index holds exactly the entries, each under its own name. */
  lemma {:induction false} EveryInfoIsRegistered(index: Index, infos: seq<TensorInfo>, i: nat)
    requires DistinctNames(infos) && i < |infos|
    ensures infos[i].name in Register(index, infos) && Register(index, infos)[infos[i].name] == infos[i]
    decreases |infos|
  {
    var next := index[infos[0].name := infos[0]];
    if i == 0 {
      OthersStay(next, infos[1..], infos[0].name);
    } else {
      EveryInfoIsRegistered(next, infos[1..], i - 1);
    }
  }

  lemma {:induction false} OthersStay(index: Index, infos: seq<TensorInfo>, name: seq<byte>)
    requires forall j | 0 <= j < |infos| :: infos[j].name != name
    ensures (name in Register(index, infos) <==> name in index) &&
            (name in index ==> Register(index, infos)[name] == index[name])
    decreases |infos|
  {
    if infos != [] {
      OthersStay(index[infos[0].name := infos[0]], infos[1..], name);
    }
  }

  lemma {:induction false} InfosRoundTrip(infos: seq<TensorInfo>, index: Index, buf: seq<byte>, pos: nat,
                                          lossy: seq<byte> -> seq<byte>)
    requires |buf| <= USIZE_MAX && PrintableInfos(infos, lossy) && Holds(buf, pos, PrintInfos(infos, lossy))
    requires DistinctNames(infos) && forall i | 0 <= i < |infos| :: infos[i].name !in index
    ensures InfosAt(|infos|, buf, pos, lossy, index) == Got(Register(index, infos), pos + |PrintInfos(infos, lossy)|)
    decreases |infos|
  {
    hide InfoAt, PrintInfo, PrintableInfo;
    if infos != [] {
      var info := infos[0];
      HoldsSplits(buf, pos, PrintInfo(info, lossy), PrintInfos(infos[1..], lossy));
      InfoRoundTrip(info, buf, pos, lossy);
      InfosRoundTrip(infos[1..], index[info.name := info], buf, pos + |PrintInfo(info, lossy)|, lossy);
    }
  }

  /** The first duplicate name is refused, whatever follows it. */
  lemma DuplicateIsRefused(info: TensorInfo, count: nat, index: Index, buf: seq<byte>, pos: nat,
                           lossy: seq<byte> -> seq<byte>)
    requires |buf| <= USIZE_MAX && PrintableInfo(info, lossy) && Holds(buf, pos, PrintInfo(info, lossy))
    requires count > 0 && info.name in index
    ensures InfosAt(count, buf, pos, lossy, index) == Bad(DuplicateTensor(info.name))
  {
    hide InfoAt;
    InfoRoundTrip(info, buf, pos, lossy);
  }

  // ---- whole headers ---------------------------------------------------------

  datatype Content = Content(version: nat, pairs: seq<(seq<byte>, Value)>, infos: seq<TensorInfo>)

  ghost predicate PrintableContent(c: Content, lossy: seq<byte> -> seq<byte>) {
    && 2 <= c.version <= 3 && |c.pairs| < Pow256(8) && |c.infos| < Pow256(8)
    && PrintablePairs(c.pairs, lossy) && PrintableInfos(c.infos, lossy) && DistinctNames(c.infos)
    && IsPowerOfTwo(AlignmentOf(Collect(map[], c.pairs)))
  }

  ghost function PrintTables(c: Content, lossy: seq<byte> -> seq<byte>): seq<byte>
    requires PrintableContent(c, lossy)
  {
    PrintPairs(c.pairs, lossy) + PrintInfos(c.infos, lossy)
  }

  ghost function PrintHeader(c: Content, lossy: seq<byte> -> seq<byte>): seq<byte>
    requires PrintableContent(c, lossy)
  {
    Widths();
    Le(MAGIC, 4) + (Le(c.version, 4) + (Le(|c.infos|, 8) + (Le(|c.pairs|, 8) + PrintTables(c, lossy))))
  }

  /** What opening a file with this header should give. */
  ghost function Expected(c: Content, buf: seq<byte>, lossy: seq<byte> -> seq<byte>): (g: Gguf)
    requires PrintableContent(c, lossy)
  {
    var meta := Collect(map[], c.pairs);
    PowersArePositive(AlignmentOf(meta));
    Gguf(buf, c.version, AlignmentOf(meta), NextMultiple(|PrintHeader(c, lossy)|, AlignmentOf(meta)),
         meta, Register(map[], c.infos))
  }

  lemma TablesRoundTrip(c: Content, buf: seq<byte>, pos: nat, lossy: seq<byte> -> seq<byte>)
    requires |buf| <= USIZE_MAX && PrintableContent(c, lossy) && Holds(buf, pos, PrintTables(c, lossy))
    requires pos + |PrintTables(c, lossy)| == |PrintHeader(c, lossy)|
    requires Expected(c, buf, lossy).dataOffset <= |buf|
    ensures TablesAt(c.version, |c.infos|, |c.pairs|, buf, pos, lossy)
         == Got(Expected(c, buf, lossy), Expected(c, buf, lossy).dataOffset)
  {
    hide Le, Pow256, PrintPairs, PrintInfos, PairsAt, InfosAt, Collect, Register, AlignmentOf, NextMultiple,
         PrintHeader;
    HoldsSplits(buf, pos, PrintPairs(c.pairs, lossy), PrintInfos(c.infos, lossy));
    PairsRoundTrip(c.pairs, map[], buf, pos, lossy);
    InfosRoundTrip(c.infos, map[], buf, pos + |PrintPairs(c.pairs, lossy)|, lossy);
  }

  /** Opening a file that begins with a printed header gives back everything the header says:
      the version, the metadata with later keys winning, the tensor index, and the data section
      starting at the next multiple of the alignment. */
  lemma HeaderRoundTrip(c: Content, buf: seq<byte>, lossy: seq<byte> -> seq<byte>)
    requires |buf| <= USIZE_MAX && PrintableContent(c, lossy) && Holds(buf, 0, PrintHeader(c, lossy))
    requires Expected(c, buf, lossy).dataOffset <= |buf|
    ensures HeaderAt(buf, lossy) == Got(Expected(c, buf, lossy), Expected(c, buf, lossy).dataOffset)
  {
    hide Le, Pow256, PrintTables, TablesAt, Expected, PrintableContent;
    Widths();
    assert 2 <= c.version <= 3 && |c.infos| < Pow256(8) && |c.pairs| < Pow256(8) by { ContentCounts(c, lossy); }
    var tables := PrintTables(c, lossy);
    var d := Le(|c.pairs|, 8) + tables;
    var e := Le(|c.infos|, 8) + d;
    var f := Le(c.version, 4) + e;
    HoldsSplits(buf, 0, Le(MAGIC, 4), f);
    UIntReadsLe(buf, 0, MAGIC, 4);
    HoldsSplits(buf, 4, Le(c.version, 4), e);
    UIntReadsLe(buf, 4, c.version, 4);
    HoldsSplits(buf, 8, Le(|c.infos|, 8), d);
    UIntReadsLe(buf, 8, |c.infos|, 8);
    HoldsSplits(buf, 16, Le(|c.pairs|, 8), tables);
    UIntReadsLe(buf, 16, |c.pairs|, 8);
    TablesRoundTrip(c, buf, 24, lossy);
  }

  lemma ContentCounts(c: Content, lossy: seq<byte> -> seq<byte>)
    requires PrintableContent(c, lossy)
    ensures 2 <= c.version <= 3 && |c.infos| < Pow256(8) && |c.pairs| < Pow256(8)
  {
  }
}
