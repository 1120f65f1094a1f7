/** Which byte of a GGUF file holds what: the "File Structure" section of ggml's GGUF document, field by
    field. */
module GgufBytes {
  import opened Arith
  import opened Bytes
  import opened GgufValue
  import opened GgmlTypes
  import opened GgufFile
  import opened GgufRoundTrip

  // ---- numbers ---------------------------------------------------------------

  /** Byte `i` of a number is its digit `i` in base 256, the lowest first. */
  lemma {:induction false} LowestByteFirst(n: nat, w: nat, i: nat)
    requires n < Pow256(w) && i < w
    ensures Le(n, w)[i] == n / Pow256(i) % 256
    decreases w
  {
    if i > 0 {
      LowestByteFirst(n / 256, w - 1, i - 1);
      DivOfProduct(n, 256, Pow256(i - 1));
    }
  }

  /** A signed number is stored in two's complement, any other as it is. */
  lemma StoredModuloWidth(ty: ValueType, v: int)
    requires ty.IsNumber() && InRange(ty, v)
    ensures 0 <= Raw(ty, v) < Pow256(ty.Width()) && (Raw(ty, v) - v) % Pow256(ty.Width()) == 0
    ensures ty.IsSigned() <==> ty in {ValueType.I8, ValueType.I16, ValueType.I32, ValueType.I64}
  {
    var p := Pow256(ty.Width());
    if v < 0 {
      DivMod(1, p, 0);
    } else {
      DivMod(0, p, 0);
    }
  }

  /** The numbers and the widths the format gives its value types; a string's and an array's vary. */
  lemma ValueTypesAreNumberedInOrder(i: nat)
    ensures var order := [ValueType.U8, ValueType.I8, ValueType.U16, ValueType.I16, ValueType.U32, ValueType.I32,
                          ValueType.F32, ValueType.Bool, ValueType.String, ValueType.Array, ValueType.U64,
                          ValueType.I64, ValueType.F64];
            i < |order| ==> order[i].Tag() == i && order[i].Width() == [1, 1, 2, 2, 4, 4, 4, 1, 0, 0, 8, 8, 8][i]
  {
  }

  // ---- fields ----------------------------------------------------------------

  /** Bytes 0 to 3 are the magic number, 4 to 7 the version, 8 to 15 the number of tensors, 16 to 23 the
      number of pairs; then come the pairs and then the tensors' entries. */
  lemma HeaderFields(c: Content, buf: seq<byte>, lossy: seq<byte> -> seq<byte>)
    requires PrintableContent(c, lossy) && Holds(buf, 0, PrintHeader(c, lossy))
    ensures MAGIC < Pow256(4) && c.version < Pow256(4) && |c.infos| < Pow256(8) && |c.pairs| < Pow256(8)
    ensures Holds(buf, 0, Le(MAGIC, 4)) && Holds(buf, 4, Le(c.version, 4)) && Holds(buf, 8, Le(|c.infos|, 8))
    ensures Holds(buf, 16, Le(|c.pairs|, 8)) && Holds(buf, 24, PrintPairs(c.pairs, lossy))
    ensures Holds(buf, 24 + |PrintPairs(c.pairs, lossy)|, PrintInfos(c.infos, lossy))
  {
    hide Le, Pow256, PrintPairs, PrintInfos, Holds;
    Widths();
    var tables := PrintTables(c, lossy);
    var d := Le(|c.pairs|, 8) + tables;
    var e := Le(|c.infos|, 8) + d;
    var f := Le(c.version, 4) + e;
    HoldsSplits(buf, 0, Le(MAGIC, 4), f);
    HoldsSplits(buf, 4, Le(c.version, 4), e);
    HoldsSplits(buf, 8, Le(|c.infos|, 8), d);
    HoldsSplits(buf, 16, Le(|c.pairs|, 8), tables);
    HoldsSplits(buf, 24, PrintPairs(c.pairs, lossy), PrintInfos(c.infos, lossy));
  }

  /** An entry is the length of its name in 8 bytes, the name, the number of dimensions in 4, each dimension
      in 8, the type in 4 and the offset in 8. */
  lemma EntryFields(t: TensorInfo, buf: seq<byte>, pos: nat, lossy: seq<byte> -> seq<byte>, i: nat, dims: nat,
                    tail: nat)
    requires PrintableInfo(t, lossy) && Holds(buf, pos, PrintInfo(t, lossy)) && i < |t.dims|
    requires dims == pos + 12 + |t.name| && tail == dims + 8 * |t.dims|
    ensures |t.name| < Pow256(8) && |t.dims| < Pow256(4) && t.dims[i] < Pow256(8) && t.ty.Tag() < Pow256(4)
    ensures Holds(buf, pos, Le(|t.name|, 8)) && Holds(buf, pos + 8, t.name) && Holds(buf, dims - 4, Le(|t.dims|, 4))
    ensures Holds(buf, dims + 8 * i, Le(t.dims[i], 8))
    ensures Holds(buf, tail, Le(t.ty.Tag(), 4)) && Holds(buf, tail + 4, Le(t.offset, 8))
    ensures |PrintInfo(t, lossy)| == tail + 12 - pos
  {
    hide Le, Pow256, PrintDims, Holds, GgmlType.Tag;
    Widths();
    LimitsFit();
    var rest := PrintDims(t.dims) + PrintInfoTail(t);
    HoldsSplits(buf, pos, PrintText(t.name), Le(|t.dims|, 4) + rest);
    HoldsSplits(buf, pos, Le(|t.name|, 8), t.name);
    HoldsSplits(buf, dims - 4, Le(|t.dims|, 4), rest);
    HoldsSplits(buf, dims, PrintDims(t.dims), PrintInfoTail(t));
    DimensionAt(t.dims, buf, dims, i);
    HoldsSplits(buf, tail, Le(t.ty.Tag(), 4), Le(t.offset, 8));
  }

  lemma {:induction false} DimensionAt(dims: seq<nat>, buf: seq<byte>, pos: nat, i: nat)
    requires (forall j | 0 <= j < |dims| :: dims[j] < Pow256(8)) && Holds(buf, pos, PrintDims(dims))
    ensures |PrintDims(dims)| == 8 * |dims|
    ensures i < |dims| ==> Holds(buf, pos + 8 * i, Le(dims[i], 8))
    decreases |dims|
  {
    hide Le, Pow256, Holds;
    if dims != [] {
      HoldsSplits(buf, pos, Le(dims[0], 8), PrintDims(dims[1..]));
      if i > 0 {
        DimensionAt(dims[1..], buf, pos + 8, i - 1);
      } else {
        DimensionAt(dims[1..], buf, pos + 8, |dims|);
      }
    }
  }
}
