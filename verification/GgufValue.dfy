/** GGUF metadata values: what the header parser reads and how a writer prints it
    (crates/gguf/src/value.rs, crates/gguf/src/reader.rs). */
module GgufValue {
  import opened Bytes

  const MAX_ARRAY_LEN: nat := 0x1000_0000
  const MAX_STRING_LEN: nat := 0x4000_0000
  const USIZE_MAX: nat := 0xFFFF_FFFF_FFFF_FFFF

  datatype ValueType = U8 | I8 | U16 | I16 | U32 | I32 | F32 | Bool | String | Array | U64 | I64 | F64
  {
    /** The wire tag. */
    function Tag(): (t: nat)
      ensures t <= 12
    {
      match this
      case U8 => 0 case I8 => 1 case U16 => 2 case I16 => 3 case U32 => 4 case I32 => 5 case F32 => 6
      case Bool => 7 case String => 8 case Array => 9 case U64 => 10 case I64 => 11 case F64 => 12
    }

    /** Bytes of a fixed-width value; zero for strings and arrays. */
    function Width(): (w: nat)
      ensures w == 0 || w == 1 || w == 2 || w == 4 || w == 8
    {
      match this
      case U8 | I8 | Bool => 1
      case U16 | I16 => 2
      case U32 | I32 | F32 => 4
      case U64 | I64 | F64 => 8
      case String | Array => 0
    }

    predicate IsSigned() { I8? || I16? || I32? || I64? }

    predicate IsNumber() { !Bool? && !String? && !Array? }
  }

  datatype Error =
    | OffsetOverflow
    | EndOfHeader(want: nat, at: nat)
    | UnknownValueType(tag: nat)
    | ImplausibleString(len: nat)
    | ImplausibleArray(len: nat)
    | ArrayDoesNotFit(len: nat, elem: ValueType)
    | BadMagic(magic: nat)
    | BadVersion(version: nat)
    | BadAlignment(alignment: nat)
    | BadDimensionCount(count: nat)
    | ElementCountOverflow
    | UnknownTensorType(tag: nat)
    | PartialBlock(elements: nat)
    | DuplicateTensor(name: seq<byte>)
    | DataPastEnd
    | ExtentOverflow
    | ExtentPastEnd(end: nat)
    | Abort

  /** The outcome of reading at a position: a value and where reading stopped, or an error. */
  datatype Parsed<+T> = Got(value: T, next: nat) | Bad(error: Error)

  /** A metadata value. An integer carries its numeric value, a float its bit pattern, and an
      array the wire type of its elements; nested arrays are arrays of type `Array`. */
  datatype Value =
    | Number(ty: ValueType, v: int)
    | Boolean(b: bool)
    | Text(s: seq<byte>)
    | List(elem: ValueType, items: seq<Value>)
  {
    function Type(): ValueType {
      match this
      case Number(ty, _) => ty
      case Boolean(_) => ValueType.Bool
      case Text(_) => ValueType.String
      case List(_, _) => ValueType.Array
    }
  }

  function TypeOfTag(t: nat): Parsed<ValueType> {
    match t
    case 0 => Got(U8, 0) case 1 => Got(I8, 0) case 2 => Got(U16, 0) case 3 => Got(I16, 0)
    case 4 => Got(U32, 0) case 5 => Got(I32, 0) case 6 => Got(F32, 0) case 7 => Got(ValueType.Bool, 0)
    case 8 => Got(ValueType.String, 0) case 9 => Got(ValueType.Array, 0)
    case 10 => Got(U64, 0) case 11 => Got(I64, 0) case 12 => Got(F64, 0)
    case _ => Bad(UnknownValueType(t))
  }

  // ---- fixed-width numbers ---------------------------------------------------

  /** What `w` raw bytes mean for a type: two's complement for the signed ones. */
  function Meaning(ty: ValueType, raw: nat): int
    requires ty.IsNumber() && raw < Pow256(ty.Width())
  {
    if ty.IsSigned() && 2 * raw >= Pow256(ty.Width()) then raw - Pow256(ty.Width()) else raw
  }

  predicate InRange(ty: ValueType, v: int)
    requires ty.IsNumber()
  {
    if ty.IsSigned() then 0 - Pow256(ty.Width()) <= 2 * v < Pow256(ty.Width()) else 0 <= v < Pow256(ty.Width())
  }

  function Raw(ty: ValueType, v: int): (raw: nat)
    requires ty.IsNumber() && InRange(ty, v)
    ensures raw < Pow256(ty.Width())
  {
    if v < 0 then v + Pow256(ty.Width()) else v
  }

  lemma RawMeaning(ty: ValueType, v: int)
    requires ty.IsNumber() && InRange(ty, v)
    ensures Meaning(ty, Raw(ty, v)) == v
  {
  }

  // ---- reading, as a function of the buffer and the position -----------------

  function TakeAt(buf: seq<byte>, pos: nat, n: nat): (r: Parsed<seq<byte>>)
    requires pos <= |buf|
    ensures r.Got? ==> r.next == pos + n <= |buf| && r.value == buf[pos..pos + n]
  {
    if pos + n > USIZE_MAX then Bad(OffsetOverflow)
    else if pos + n > |buf| then Bad(EndOfHeader(n, pos))
    else Got(buf[pos..pos + n], pos + n)
  }

  function UIntAt(buf: seq<byte>, pos: nat, w: nat): (r: Parsed<nat>)
    requires pos <= |buf|
    ensures r.Got? ==> r.next == pos + w <= |buf| && r.value < Pow256(w)
  {
    match TakeAt(buf, pos, w)
    case Got(s, next) => Got(FromLe(s), next)
    case Bad(e) => Bad(e)
  }

  /** A length-prefixed string; `lossy` replaces what is not UTF-8 and keeps valid text. */
  function StringAt(buf: seq<byte>, pos: nat, lossy: seq<byte> -> seq<byte>): (r: Parsed<seq<byte>>)
    requires pos <= |buf|
    ensures r.Got? ==> pos + 8 <= r.next <= |buf|
  {
    match UIntAt(buf, pos, 8)
    case Bad(e) => Bad(e)
    case Got(len, next) =>
      if len > MAX_STRING_LEN then Bad(ImplausibleString(len))
      else
        match TakeAt(buf, next, len)
        case Bad(e) => Bad(e)
        case Got(s, end) => Got(lossy(s), end)
  }

  function TypeAt(buf: seq<byte>, pos: nat): (r: Parsed<ValueType>)
    requires pos <= |buf|
    ensures r.Got? ==> r.next == pos + 4 <= |buf|
  {
    match UIntAt(buf, pos, 4)
    case Bad(e) => Bad(e)
    case Got(tag, next) =>
      match TypeOfTag(tag)
      case Bad(e) => Bad(e)
      case Got(ty, _) => Got(ty, next)
  }

  function ValueAt(buf: seq<byte>, pos: nat, lossy: seq<byte> -> seq<byte>): (r: Parsed<Value>)
    requires pos <= |buf|
    ensures r.Got? ==> pos < r.next <= |buf|
  {
    match TypeAt(buf, pos)
    case Bad(e) => Bad(e)
    case Got(ty, next) => ValueOfAt(ty, buf, next, lossy)
  }

  function ValueOfAt(ty: ValueType, buf: seq<byte>, pos: nat, lossy: seq<byte> -> seq<byte>): (r: Parsed<Value>)
    requires pos <= |buf|
    ensures r.Got? ==> pos < r.next <= |buf| && r.value.Type() == ty
    decreases |buf| - pos, 0
  {
    if ty.String? then
      match StringAt(buf, pos, lossy)
      case Bad(e) => Bad(e)
      case Got(s, next) => Got(Text(s), next)
    else if ty.Array? then
      match ArrayHeadAt(buf, pos)
      case Bad(e) => Bad(e)
      case Got((elem, len), next) =>
        match ItemsAt(elem, len, buf, next, lossy)
        case Bad(e) => Bad(e)
        case Got(items, end) => Got(List(elem, items), end)
    else
      match UIntAt(buf, pos, ty.Width())
      case Bad(e) => Bad(e)
      case Got(raw, next) => Got(if ty.Bool? then Boolean(raw != 0) else Number(ty, Meaning(ty, raw)), next)
  }

  /** An array's element type and length, with the checks made before any element is read. */
  function ArrayHeadAt(buf: seq<byte>, pos: nat): (r: Parsed<(ValueType, nat)>)
    requires pos <= |buf|
    ensures r.Got? ==> r.next == pos + 12 <= |buf| && r.value.1 <= MAX_ARRAY_LEN
    ensures r.Got? ==> r.value.1 * r.value.0.Width() <= |buf| - r.next
  {
    match TypeAt(buf, pos)
    case Bad(e) => Bad(e)
    case Got(elem, next) =>
      match UIntAt(buf, next, 8)
      case Bad(e) => Bad(e)
      case Got(len, start) =>
        if len > MAX_ARRAY_LEN then Bad(ImplausibleArray(len))
        else if elem.Width() > 0 && SaturatingMul(len, elem.Width()) > |buf| - start then
          Bad(ArrayDoesNotFit(len, elem))
        else Got((elem, len), start)
  }

  function SaturatingMul(a: nat, b: nat): nat {
    if a * b > USIZE_MAX then USIZE_MAX else a * b
  }

  /** `len` elements one after another. */
  function ItemsAt(elem: ValueType, len: nat, buf: seq<byte>, pos: nat,
                   lossy: seq<byte> -> seq<byte>): (r: Parsed<seq<Value>>)
    requires pos <= |buf|
    ensures r.Got? ==> pos <= r.next <= |buf| && |r.value| == len
    ensures r.Got? ==> forall i | 0 <= i < len :: r.value[i].Type() == elem
    decreases |buf| - pos, 1
  {
    if len == 0 then Got([], pos)
    else
      match ValueOfAt(elem, buf, pos, lossy)
      case Bad(e) => Bad(e)
      case Got(v, next) =>
        match ItemsAt(elem, len - 1, buf, next, lossy)
        case Bad(e) => Bad(e)
        case Got(rest, end) => Got([v] + rest, end)
  }

  /** The width check made before reading refuses exactly the arrays whose element loop would run
      out of bytes: elements of a fixed width can all be read if and only if they fit. */
  lemma {:induction false} WidthCheckIsExact(elem: ValueType, len: nat, buf: seq<byte>, pos: nat,
                                             lossy: seq<byte> -> seq<byte>)
    requires pos <= |buf| <= USIZE_MAX && elem.Width() > 0
    ensures ItemsAt(elem, len, buf, pos, lossy).Got? <==> len * elem.Width() <= |buf| - pos
    ensures ItemsAt(elem, len, buf, pos, lossy).Got? ==>
            ItemsAt(elem, len, buf, pos, lossy).next == pos + len * elem.Width()
    decreases len
  {
    var w := elem.Width();
    if len > 0 {
      assert len * w == w + (len - 1) * w;
      if pos + w <= |buf| {
        WidthCheckIsExact(elem, len - 1, buf, pos + w, lossy);
      }
    }
  }

  // ---- printing --------------------------------------------------------------

  /** A value a writer may print: numbers in range, strings and arrays within the limits, text
      that is valid, and arrays whose elements all have the array's element type. */
  ghost predicate Printable(v: Value, lossy: seq<byte> -> seq<byte>) {
    match v
    case Number(ty, n) => ty.IsNumber() && InRange(ty, n)
    case Boolean(_) => true
    case Text(s) => |s| <= MAX_STRING_LEN && lossy(s) == s
    case List(elem, items) =>
      |items| <= MAX_ARRAY_LEN && forall i | 0 <= i < |items| :: items[i].Type() == elem && Printable(items[i], lossy)
  }

  lemma LimitsFit()
    ensures MAX_STRING_LEN < Pow256(8) && MAX_ARRAY_LEN < Pow256(8) && 12 < Pow256(4) && Pow256(1) > 1
  {
    Widths();
  }

  /** The bytes of a value after its type tag (the "File Structure" of ggml's GGUF document). */
  ghost function Body(v: Value, lossy: seq<byte> -> seq<byte>): (s: seq<byte>)
    requires Printable(v, lossy)
  {
    LimitsFit();
    match v
    case Number(ty, n) => Le(Raw(ty, n), ty.Width())
    case Boolean(b) => [if b then 1 else 0]
    case Text(s) => Le(|s|, 8) + s
    case List(elem, items) => Le(elem.Tag(), 4) + Le(|items|, 8) + Bodies(items, lossy)
  }

  ghost function Bodies(items: seq<Value>, lossy: seq<byte> -> seq<byte>): seq<byte>
    requires forall i | 0 <= i < |items| :: Printable(items[i], lossy)
  {
    if items == [] then [] else Body(items[0], lossy) + Bodies(items[1..], lossy)
  }

  ghost function Print(v: Value, lossy: seq<byte> -> seq<byte>): seq<byte>
    requires Printable(v, lossy)
  {
    LimitsFit();
    Le(v.Type().Tag(), 4) + Body(v, lossy)
  }

  // ---- round trip ------------------------------------------------------------

  lemma UIntReadsLe(buf: seq<byte>, pos: nat, n: nat, w: nat)
    requires |buf| <= USIZE_MAX && n < Pow256(w) && Holds(buf, pos, Le(n, w))
    ensures UIntAt(buf, pos, w) == Got(n, pos + w)
  {
    FromLeOfLe(n, w);
  }

  lemma TypeReadsTag(buf: seq<byte>, pos: nat, ty: ValueType)
    requires |buf| <= USIZE_MAX && ty.Tag() < Pow256(4) && Holds(buf, pos, Le(ty.Tag(), 4))
    ensures TypeAt(buf, pos) == Got(ty, pos + 4)
  {
    UIntReadsLe(buf, pos, ty.Tag(), 4);
  }

  lemma StringReads(buf: seq<byte>, pos: nat, s: seq<byte>, lossy: seq<byte> -> seq<byte>)
    requires |buf| <= USIZE_MAX && |s| <= MAX_STRING_LEN && lossy(s) == s && |s| < Pow256(8)
    requires Holds(buf, pos, Le(|s|, 8) + s)
    ensures StringAt(buf, pos, lossy) == Got(s, pos + 8 + |s|)
  {
    hide Le, FromLe, Pow256;
    HoldsSplits(buf, pos, Le(|s|, 8), s);
    UIntReadsLe(buf, pos, |s|, 8);
  }

  lemma BooleanReads(b: bool, buf: seq<byte>, pos: nat, lossy: seq<byte> -> seq<byte>)
    requires |buf| <= USIZE_MAX && Holds(buf, pos, [if b then 1 else 0])
    ensures ValueOfAt(ValueType.Bool, buf, pos, lossy) == Got(Boolean(b), pos + 1)
  {
    var n := if b then 1 else 0;
    assert Le(n, 1) == [n] + Le(0, 0);
    assert Pow256(1) == 256;
    UIntReadsLe(buf, pos, n, 1);
  }

  /** Parsing the printed body of a value returns that value and stops where the body ends. */
  lemma {:induction false} BodyRoundTrip(v: Value, buf: seq<byte>, pos: nat, lossy: seq<byte> -> seq<byte>)
    requires |buf| <= USIZE_MAX && Printable(v, lossy) && Holds(buf, pos, Body(v, lossy))
    ensures ValueOfAt(v.Type(), buf, pos, lossy) == Got(v, pos + |Body(v, lossy)|)
    decreases v, 0
  {
    hide FromLe, Pow256;
    LimitsFit();
    match v
    case Number(ty, n) =>
      UIntReadsLe(buf, pos, Raw(ty, n), ty.Width());
      RawMeaning(ty, n);
    case Boolean(b) =>
      BooleanReads(b, buf, pos, lossy);
    case Text(s) =>
      StringReads(buf, pos, s, lossy);
    case List(elem, items) =>
      hide Le;
      var head := Le(elem.Tag(), 4) + Le(|items|, 8);
      HoldsSplits(buf, pos, head, Bodies(items, lossy));
      HoldsSplits(buf, pos, Le(elem.Tag(), 4), Le(|items|, 8));
      TypeReadsTag(buf, pos, elem);
      UIntReadsLe(buf, pos + 4, |items|, 8);
      BodiesRoundTrip(elem, items, buf, pos + 12, lossy);
      if elem.Width() > 0 {
        WidthCheckIsExact(elem, |items|, buf, pos + 12, lossy);
      }
  }

  lemma {:induction false} BodiesRoundTrip(elem: ValueType, items: seq<Value>, buf: seq<byte>, pos: nat,
                                           lossy: seq<byte> -> seq<byte>)
    requires |buf| <= USIZE_MAX && forall i | 0 <= i < |items| :: items[i].Type() == elem && Printable(items[i], lossy)
    requires Holds(buf, pos, Bodies(items, lossy))
    ensures ItemsAt(elem, |items|, buf, pos, lossy) == Got(items, pos + |Bodies(items, lossy)|)
    decreases items, 1
  {
    hide Body, ValueOfAt;
    if items != [] {
      HoldsSplits(buf, pos, Body(items[0], lossy), Bodies(items[1..], lossy));
      BodyRoundTrip(items[0], buf, pos, lossy);
      BodiesRoundTrip(elem, items[1..], buf, pos + |Body(items[0], lossy)|, lossy);
      assert [items[0]] + items[1..] == items;
    }
  }

  /** Parsing a printed value followed by anything at all returns the value and stops exactly at
      what follows. */
  lemma ValueRoundTrip(v: Value, buf: seq<byte>, pos: nat, lossy: seq<byte> -> seq<byte>)
    requires |buf| <= USIZE_MAX && Printable(v, lossy) && Holds(buf, pos, Print(v, lossy))
    ensures ValueAt(buf, pos, lossy) == Got(v, pos + |Print(v, lossy)|)
  {
    hide Body, ValueOfAt, Le, Pow256;
    LimitsFit();
    HoldsSplits(buf, pos, Le(v.Type().Tag(), 4), Body(v, lossy));
    TypeReadsTag(buf, pos, v.Type());
    BodyRoundTrip(v, buf, pos + 4, lossy);
  }

  /** No printed value is the beginning of another: the format needs no separators. */
  lemma PrintingIsPrefixFree(v: Value, w: Value, s: seq<byte>, t: seq<byte>, lossy: seq<byte> -> seq<byte>)
    requires Printable(v, lossy) && Printable(w, lossy)
    requires Print(v, lossy) + s == Print(w, lossy) + t && |Print(v, lossy) + s| <= USIZE_MAX
    ensures v == w && s == t
  {
    hide Print, Printable;
    var buf := Print(v, lossy) + s;
    assert buf[..|Print(v, lossy)|] == Print(v, lossy);
    assert buf[..|Print(w, lossy)|] == Print(w, lossy);
    ValueRoundTrip(v, buf, 0, lossy);
    ValueRoundTrip(w, buf, 0, lossy);
    assert s == buf[|Print(v, lossy)|..] && t == buf[|Print(w, lossy)|..];
  }
}
