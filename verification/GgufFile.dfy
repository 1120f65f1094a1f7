/** Opening a GGUF file: the header, the tensor index and the checks that make every later read
    safe (crates/gguf/src/lib.rs). */
module GgufFile {
  import opened Arith
  import opened Bytes
  import opened GgufValue
  import opened GgufReader
  import opened GgmlTypes

  const MAGIC: nat := 0x4655_4747
  const DEFAULT_ALIGNMENT: nat := 32

  // ---- tensor index entries --------------------------------------------------

  datatype TensorInfo = TensorInfo(name: seq<byte>, dims: seq<nat>, ty: GgmlType, offset: nat, elements: nat,
                                   bytes: nat)

  /** The remaining `count` dimensions, their product checked against the machine word. */
  function DimsAt(count: nat, buf: seq<byte>, pos: nat, dims: seq<nat>, elements: nat): (r: Parsed<(seq<nat>, nat)>)
    requires pos <= |buf|
    ensures r.Got? ==> pos <= r.next <= |buf|
    decreases count
  {
    if count == 0 then Got((dims, elements), pos)
    else
      match UIntAt(buf, pos, 8)
      case Bad(e) => Bad(e)
      case Got(d, next) =>
        if elements * d > USIZE_MAX then Bad(ElementCountOverflow)
        else DimsAt(count - 1, buf, next, dims + [d], elements * d)
  }

  function InfoTailAt(name: seq<byte>, dims: seq<nat>, elements: nat, buf: seq<byte>, pos: nat): (r: Parsed<TensorInfo>)
    requires pos <= |buf|
    ensures r.Got? ==> pos <= r.next <= |buf|
    ensures r.Got? ==> r.value.name == name && r.value.dims == dims && r.value.elements == elements
    ensures r.Got? ==> r.value.ty.SizeFor(elements) == Got(r.value.bytes, 0)
  {
    match UIntAt(buf, pos, 4)
    case Bad(e) => Bad(e)
    case Got(tag, p1) =>
      match TypeOfDiscriminant(tag)
      case Bad(e) => Bad(e)
      case Got(ty, _) =>
        match UIntAt(buf, p1, 8)
        case Bad(e) => Bad(e)
        case Got(offset, p2) =>
          match ty.SizeFor(elements)
          case Bad(e) => Bad(e)
          case Got(bytes, _) => Got(TensorInfo(name, dims, ty, offset, elements, bytes), p2)
  }

  function InfoAt(buf: seq<byte>, pos: nat, lossy: seq<byte> -> seq<byte>): (r: Parsed<TensorInfo>)
    requires pos <= |buf|
    ensures r.Got? ==> pos <= r.next <= |buf|
  {
    match StringAt(buf, pos, lossy)
    case Bad(e) => Bad(e)
    case Got(name, p1) =>
      match UIntAt(buf, p1, 4)
      case Bad(e) => Bad(e)
      case Got(count, p2) =>
        if count == 0 || count > 4 then Bad(BadDimensionCount(count))
        else
          match DimsAt(count, buf, p2, [], 1)
          case Bad(e) => Bad(e)
          case Got((dims, elements), p3) => InfoTailAt(name, dims, elements, buf, p3)
  }

  // ---- the header ------------------------------------------------------------

  type Metadata = map<seq<byte>, Value>

  type Index = map<seq<byte>, TensorInfo>

  /** Key-value pairs; a repeated key keeps its last value. */
  function PairsAt(count: nat, buf: seq<byte>, pos: nat, lossy: seq<byte> -> seq<byte>,
                   meta: Metadata): (r: Parsed<Metadata>)
    requires pos <= |buf|
    ensures r.Got? ==> pos <= r.next <= |buf|
    decreases count
  {
    if count == 0 then Got(meta, pos)
    else
      match StringAt(buf, pos, lossy)
      case Bad(e) => Bad(e)
      case Got(key, p1) =>
        match ValueAt(buf, p1, lossy)
        case Bad(e) => Bad(e)
        case Got(v, p2) => PairsAt(count - 1, buf, p2, lossy, meta[key := v])
  }

  /** Tensor index entries; a repeated name is an error. */
  function InfosAt(count: nat, buf: seq<byte>, pos: nat, lossy: seq<byte> -> seq<byte>,
                   index: Index): (r: Parsed<Index>)
    requires pos <= |buf|
    ensures r.Got? ==> pos <= r.next <= |buf|
    decreases count
  {
    if count == 0 then Got(index, pos)
    else
      match InfoAt(buf, pos, lossy)
      case Bad(e) => Bad(e)
      case Got(info, next) =>
        if info.name in index then Bad(DuplicateTensor(info.name))
        else InfosAt(count - 1, buf, next, lossy, index[info.name := info])
  }

  const ALIGNMENT_KEY: seq<byte> := [103, 101, 110, 101, 114, 97, 108, 46, 97, 108, 105, 103, 110, 109, 101, 110, 116]

  /** An integer-like scalar widened to an unsigned word, if there is one. */
  function AsU64(v: Value): Parsed<nat> {
    match v
    case Number(ty, n) => if ty == ValueType.F32 || ty == ValueType.F64 || n < 0 then Bad(Abort) else Got(n, 0)
    case Boolean(b) => Got(if b then 1 else 0, 0)
    case _ => Bad(Abort)
  }

  function AlignmentOf(meta: Metadata): nat {
    if ALIGNMENT_KEY in meta && AsU64(meta[ALIGNMENT_KEY]).Got? then AsU64(meta[ALIGNMENT_KEY]).value
    else DEFAULT_ALIGNMENT
  }

  predicate IsPowerOfTwo(n: nat) {
    n == 1 || (n > 0 && n % 2 == 0 && IsPowerOfTwo(n / 2))
  }

  function NextMultiple(n: nat, a: nat): (r: nat)
    requires a > 0
    ensures n <= r < n + a && r % a == 0
  {
    RoundUp(n, a);
    (n + a - 1) / a * a
  }

  lemma RoundUp(n: nat, a: nat)
    requires a > 0
    ensures n <= (n + a - 1) / a * a < n + a && (n + a - 1) / a * a % a == 0
  {
    var q := (n + a - 1) / a;
    assert n + a - 1 == q * a + (n + a - 1) % a;
    DivMod(q, a, 0);
  }

  datatype Gguf = Gguf(buf: seq<byte>, version: nat, alignment: nat, dataOffset: nat, metadata: Metadata,
                       tensors: Index)

  /** Everything up to the extent check. */
  function HeaderAt(buf: seq<byte>, lossy: seq<byte> -> seq<byte>): (r: Parsed<Gguf>)
    ensures r.Got? ==> r.value.buf == buf && r.value.dataOffset <= |buf|
  {
    match UIntAt(buf, 0, 4)
    case Bad(e) => Bad(e)
    case Got(magic, p1) =>
      if magic != MAGIC then Bad(BadMagic(magic))
      else
        match UIntAt(buf, p1, 4)
        case Bad(e) => Bad(e)
        case Got(version, p2) =>
          if !(2 <= version <= 3) then Bad(BadVersion(version))
          else
            match UIntAt(buf, p2, 8)
            case Bad(e) => Bad(e)
            case Got(tensorCount, p3) =>
              match UIntAt(buf, p3, 8)
              case Bad(e) => Bad(e)
              case Got(pairCount, p4) => TablesAt(version, tensorCount, pairCount, buf, p4, lossy)
  }

  function TablesAt(version: nat, tensorCount: nat, pairCount: nat, buf: seq<byte>, pos: nat,
                    lossy: seq<byte> -> seq<byte>): (r: Parsed<Gguf>)
    requires pos <= |buf|
    ensures r.Got? ==> r.value.buf == buf && r.value.dataOffset <= |buf|
  {
    match PairsAt(pairCount, buf, pos, lossy, map[])
    case Bad(e) => Bad(e)
    case Got(meta, p5) =>
      var alignment := AlignmentOf(meta);
      if !IsPowerOfTwo(alignment) then Bad(BadAlignment(alignment))
      else
        match InfosAt(tensorCount, buf, p5, lossy, map[])
        case Bad(e) => Bad(e)
        case Got(index, p6) =>
          var dataOffset := NextMultiple(p6, alignment);
          if dataOffset > |buf| then Bad(DataPastEnd)
          else Got(Gguf(buf, version, alignment, dataOffset, meta, index), dataOffset)
  }

  /** The data of a tensor lies inside the file. */
  predicate ExtentFits(g: Gguf, t: TensorInfo) {
    g.dataOffset + t.offset + t.bytes <= |g.buf|
  }

  /** What the extent check decides. */
  ghost predicate Opened(g: Gguf) {
    g.dataOffset <= |g.buf| && forall name | name in g.tensors :: ExtentFits(g, g.tensors[name])
  }

  // ---- the same, driving the cursor ------------------------------------------

  method ReadTensorInfo(r: Reader) returns (info: Result<TensorInfo>)
    requires r.Valid()
    modifies r`pos
    ensures r.Follows(info, InfoAt(r.buf, old(r.pos), r.lossy), old(r.pos))
  {
    var name := r.ReadString();
    if name.Err? {
      return Err(name.error);
    }
    var count := r.ReadUInt(4);
    if count.Err? {
      return Err(count.error);
    }
    if count.value == 0 || count.value > 4 {
      return Err(BadDimensionCount(count.value));
    }
    var dims := ReadDims(r, count.value);
    if dims.Err? {
      return Err(dims.error);
    }
    info := ReadInfoTail(r, name.value, dims.value.0, dims.value.1);
  }

  method ReadDims(r: Reader, count: nat) returns (dims: Result<(seq<nat>, nat)>)
    requires r.Valid()
    modifies r`pos
    ensures r.Follows(dims, DimsAt(count, r.buf, old(r.pos), [], 1), old(r.pos))
  {
    var ds: seq<nat> := [];
    var elements: nat := 1;
    for i := 0 to count
      invariant r.Valid() && old(r.pos) <= r.pos
      invariant DimsAt(count, r.buf, old(r.pos), [], 1) == DimsAt(count - i, r.buf, r.pos, ds, elements)
    {
      var d := r.ReadUInt(8);
      if d.Err? {
        return Err(d.error);
      }
      if elements * d.value > USIZE_MAX {
        return Err(ElementCountOverflow);
      }
      elements := elements * d.value;
      ds := ds + [d.value];
    }
    return Ok((ds, elements));
  }

  method ReadInfoTail(r: Reader, name: seq<byte>, dims: seq<nat>, elements: nat) returns (info: Result<TensorInfo>)
    requires r.Valid()
    modifies r`pos
    ensures r.Follows(info, InfoTailAt(name, dims, elements, r.buf, old(r.pos)), old(r.pos))
  {
    var tag := r.ReadUInt(4);
    if tag.Err? {
      return Err(tag.error);
    }
    var ty := TypeOfDiscriminant(tag.value);
    if ty.Bad? {
      return Err(ty.error);
    }
    var offset := r.ReadUInt(8);
    if offset.Err? {
      return Err(offset.error);
    }
    var bytes := ty.value.SizeFor(elements);
    if bytes.Bad? {
      return Err(bytes.error);
    }
    return Ok(TensorInfo(name, dims, ty.value, offset.value, elements, bytes.value));
  }

  method ReadPairs(r: Reader, count: nat) returns (meta: Result<Metadata>)
    requires r.Valid()
    modifies r`pos
    ensures r.Follows(meta, PairsAt(count, r.buf, old(r.pos), r.lossy, map[]), old(r.pos))
  {
    hide ValueAt, StringAt;
    var m: Metadata := map[];
    for i := 0 to count
      invariant r.Valid() && old(r.pos) <= r.pos
      invariant PairsAt(count, r.buf, old(r.pos), r.lossy, map[]) == PairsAt(count - i, r.buf, r.pos, r.lossy, m)
    {
      var key := r.ReadString();
      if key.Err? {
        return Err(key.error);
      }
      var v := r.ReadValue();
      if v.Err? {
        return Err(v.error);
      }
      m := m[key.value := v.value];
    }
    return Ok(m);
  }

  method ReadInfos(r: Reader, count: nat) returns (index: Result<Index>)
    requires r.Valid()
    modifies r`pos
    ensures r.Follows(index, InfosAt(count, r.buf, old(r.pos), r.lossy, map[]), old(r.pos))
  {
    hide InfoAt;
    var m: Index := map[];
    for i := 0 to count
      invariant r.Valid() && old(r.pos) <= r.pos
      invariant InfosAt(count, r.buf, old(r.pos), r.lossy, map[]) == InfosAt(count - i, r.buf, r.pos, r.lossy, m)
    {
      var info := ReadTensorInfo(r);
      if info.Err? {
        return Err(info.error);
      }
      if info.value.name in m {
        return Err(DuplicateTensor(info.value.name));
      }
      m := m[info.value.name := info.value];
    }
    return Ok(m);
  }

  /** Parse the header of a mapped file and check that every tensor lies inside it. */
  method FromMmap(buf: seq<byte>, lossy: seq<byte> -> seq<byte>) returns (r: Result<Gguf>)
    requires |buf| <= USIZE_MAX
    ensures match HeaderAt(buf, lossy)
            case Bad(e) => r == Err(e)
            case Got(g, _) => (r.Ok? <==> Opened(g)) && (r.Ok? ==> r.value == g)
  {
    hide PairsAt, InfosAt, AlignmentOf, IsPowerOfTwo;
    var reader := new Reader(buf, lossy);
    var magic := reader.ReadUInt(4);
    if magic.Err? {
      return Err(magic.error);
    }
    if magic.value != MAGIC {
      return Err(BadMagic(magic.value));
    }
    var version := reader.ReadUInt(4);
    if version.Err? {
      return Err(version.error);
    }
    if !(2 <= version.value <= 3) {
      return Err(BadVersion(version.value));
    }
    var tensorCount := reader.ReadUInt(8);
    if tensorCount.Err? {
      return Err(tensorCount.error);
    }
    var pairCount := reader.ReadUInt(8);
    if pairCount.Err? {
      return Err(pairCount.error);
    }
    var meta := ReadPairs(reader, pairCount.value);
    if meta.Err? {
      return Err(meta.error);
    }
    var alignment := AlignmentOf(meta.value);
    if !IsPowerOfTwo(alignment) {
      return Err(BadAlignment(alignment));
    }
    var index := ReadInfos(reader, tensorCount.value);
    if index.Err? {
      return Err(index.error);
    }
    assert alignment > 0 by { PowersArePositive(alignment); }
    var dataOffset := NextMultiple(reader.pos, alignment);
    if dataOffset > |buf| {
      return Err(DataPastEnd);
    }
    var g := Gguf(buf, version.value, alignment, dataOffset, meta.value, index.value);
    var bad := ValidateExtents(g);
    return if bad.Got? then Ok(g) else Err(bad.error);
  }

  lemma PowersArePositive(n: nat)
    requires IsPowerOfTwo(n)
    ensures n > 0
  {
  }

  method ValidateExtents(g: Gguf) returns (r: Parsed<()>)
    requires g.dataOffset <= |g.buf| <= USIZE_MAX
    ensures r.Got? <==> Opened(g)
  {
    var available := |g.buf| - g.dataOffset;
    var left := g.tensors.Keys;
    while left != {}
      invariant left <= g.tensors.Keys
      invariant forall name | name in g.tensors && name !in left :: ExtentFits(g, g.tensors[name])
      decreases |left|
    {
      var name :| name in left;
      var t := g.tensors[name];
      if t.offset + t.bytes > USIZE_MAX {
        return Bad(ExtentOverflow);
      }
      if t.offset + t.bytes > available {
        return Bad(ExtentPastEnd(t.offset + t.bytes));
      }
      left := left - {name};
    }
    return Got((), 0);
  }
}
