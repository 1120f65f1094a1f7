/** The bounds-checked cursor over a mapped header (crates/gguf/src/reader.rs). */
module GgufReader {
  import opened Bytes
  import opened GgufValue

  datatype Result<+T> = Ok(value: T) | Err(error: Error)

  class Reader {
    const buf: seq<byte>
    /** UTF-8 decoding with replacement; the identity on valid text. */
    const lossy: seq<byte> -> seq<byte>
    var pos: nat

    constructor (buf: seq<byte>, lossy: seq<byte> -> seq<byte>)
      ensures this.buf == buf && this.lossy == lossy && pos == 0
    {
      this.buf := buf;
      this.lossy := lossy;
      pos := 0;
    }

    ghost predicate Valid()
      reads this
    {
      pos <= |buf|
    }

    /** `r` and the new position are what reading at `from` comes to: on success the cursor has
        moved to where reading stopped, on failure it is somewhere no earlier than `from`. */
    ghost predicate Follows<T>(r: Result<T>, spec: Parsed<T>, from: nat)
      reads this
    {
      Valid() && match spec
                 case Got(v, next) => r == Ok(v) && pos == next
                 case Bad(e) => r == Err(e) && from <= pos
    }

    method Take(n: nat) returns (r: Result<seq<byte>>)
      requires Valid()
      modifies this`pos
      ensures Follows(r, TakeAt(buf, old(pos), n), old(pos))
      ensures r.Err? ==> pos == old(pos)
    {
      if pos + n > USIZE_MAX {
        return Err(OffsetOverflow);
      }
      var end := pos + n;
      if end > |buf| {
        return Err(EndOfHeader(n, pos));
      }
      var s := buf[pos..end];
      pos := end;
      return Ok(s);
    }

    /** The fixed-width reads: `w` bytes, least significant first. A read past the end does not
        advance. */
    method ReadUInt(w: nat) returns (r: Result<nat>)
      requires Valid()
      modifies this`pos
      ensures Follows(r, UIntAt(buf, old(pos), w), old(pos))
      ensures r.Err? ==> pos == old(pos)
      ensures r.Ok? <==> old(pos) + w <= |buf| && old(pos) + w <= USIZE_MAX
    {
      var s := Take(w);
      if s.Err? {
        return Err(s.error);
      }
      return Ok(FromLe(s.value));
    }

    method ReadString() returns (r: Result<seq<byte>>)
      requires Valid()
      modifies this`pos
      ensures Follows(r, StringAt(buf, old(pos), lossy), old(pos))
    {
      var len := ReadUInt(8);
      if len.Err? {
        return Err(len.error);
      }
      if len.value > MAX_STRING_LEN {
        return Err(ImplausibleString(len.value));
      }
      var bytes := Take(len.value);
      if bytes.Err? {
        return Err(bytes.error);
      }
      return Ok(lossy(bytes.value));
    }

    method ReadType() returns (r: Result<ValueType>)
      requires Valid()
      modifies this`pos
      ensures Follows(r, TypeAt(buf, old(pos)), old(pos))
    {
      var tag := ReadUInt(4);
      if tag.Err? {
        return Err(tag.error);
      }
      var ty := TypeOfTag(tag.value);
      return if ty.Got? then Ok(ty.value) else Err(ty.error);
    }

    method ReadValue() returns (r: Result<Value>)
      requires Valid()
      modifies this`pos
      ensures Follows(r, ValueAt(buf, old(pos), lossy), old(pos))
    {
      var ty := ReadType();
      if ty.Err? {
        return Err(ty.error);
      }
      r := ReadValueOf(ty.value);
    }

    method ReadValueOf(ty: ValueType) returns (r: Result<Value>)
      requires Valid()
      modifies this`pos
      ensures Follows(r, ValueOfAt(ty, buf, old(pos), lossy), old(pos))
      decreases |buf| - pos, 1
    {
      if ty.String? {
        var s := ReadString();
        return if s.Ok? then Ok(Text(s.value)) else Err(s.error);
      } else if ty.Array? {
        r := ReadArray();
      } else {
        var raw := ReadUInt(ty.Width());
        if raw.Err? {
          return Err(raw.error);
        }
        return Ok(if ty.Bool? then Boolean(raw.value != 0) else Number(ty, Meaning(ty, raw.value)));
      }
    }

    method ReadArray() returns (r: Result<Value>)
      requires Valid()
      modifies this`pos
      ensures Follows(r, ValueOfAt(ValueType.Array, buf, old(pos), lossy), old(pos))
      decreases |buf| - pos, 0
    {
      var head := ReadArrayHead();
      if head.Err? {
        return Err(head.error);
      }
      var items := ReadItems(head.value.0, head.value.1);
      return if items.Ok? then Ok(List(head.value.0, items.value)) else Err(items.error);
    }

    /** Element type, length, and the two sanity checks. */
    method ReadArrayHead() returns (r: Result<(ValueType, nat)>)
      requires Valid()
      modifies this`pos
      ensures Follows(r, ArrayHeadAt(buf, old(pos)), old(pos))
    {
      var elem := ReadType();
      if elem.Err? {
        return Err(elem.error);
      }
      var len := ReadUInt(8);
      if len.Err? {
        return Err(len.error);
      }
      if len.value > MAX_ARRAY_LEN {
        return Err(ImplausibleArray(len.value));
      }
      var width := elem.value.Width();
      if width > 0 && SaturatingMul(len.value, width) > |buf| - pos {
        return Err(ArrayDoesNotFit(len.value, elem.value));
      }
      return Ok((elem.value, len.value));
    }

    /** The element loop. */
    method ReadItems(elem: ValueType, len: nat) returns (r: Result<seq<Value>>)
      requires Valid()
      modifies this`pos
      ensures Follows(r, ItemsAt(elem, len, buf, old(pos), lossy), old(pos))
      decreases |buf| - pos, 2
    {
      hide ItemsAt, ValueOfAt;
      ghost var whole := ItemsAt(elem, len, buf, pos, lossy);
      var items: seq<Value> := [];
      PrependNothing(whole);
      var i := 0;
      while i < len
        invariant 0 <= i <= len && Valid() && old(pos) <= pos
        invariant whole == Prepended(items, ItemsAt(elem, len - i, buf, pos, lossy))
      {
        ItemsStep(elem, len - i, buf, pos, lossy);
        var item := ReadValueOf(elem);
        if item.Err? {
          return Err(item.error);
        }
        PrependMore(items, item.value, ItemsAt(elem, len - i - 1, buf, pos, lossy));
        items := items + [item.value];
        i := i + 1;
      }
      NoItems(elem, buf, pos, lossy);
      assert items + [] == items;
      return Ok(items);
    }
  }

  /** What a loop that has collected `done` still expects from the rest. */
  ghost function Prepended(done: seq<Value>, rest: Parsed<seq<Value>>): Parsed<seq<Value>> {
    match rest
    case Got(v, next) => Got(done + v, next)
    case Bad(e) => Bad(e)
  }

  lemma PrependNothing(rest: Parsed<seq<Value>>)
    ensures Prepended([], rest) == rest
  {
    if rest.Got? {
      assert [] + rest.value == rest.value;
    }
  }

  lemma NoItems(elem: ValueType, buf: seq<byte>, pos: nat, lossy: seq<byte> -> seq<byte>)
    requires pos <= |buf|
    ensures ItemsAt(elem, 0, buf, pos, lossy) == Got([], pos)
  {
  }

  /** One turn of the element loop. */
  lemma ItemsStep(elem: ValueType, len: nat, buf: seq<byte>, pos: nat, lossy: seq<byte> -> seq<byte>)
    requires pos <= |buf| && len > 0
    ensures match ValueOfAt(elem, buf, pos, lossy)
            case Bad(e) => ItemsAt(elem, len, buf, pos, lossy) == Bad(e)
            case Got(v, next) =>
              ItemsAt(elem, len, buf, pos, lossy) == Prepended([v], ItemsAt(elem, len - 1, buf, next, lossy))
  {
  }

  lemma PrependMore(done: seq<Value>, v: Value, rest: Parsed<seq<Value>>)
    ensures Prepended(done + [v], rest) == Prepended(done, Prepended([v], rest))
  {
    if rest.Got? {
      assert done + [v] + rest.value == done + ([v] + rest.value);
    }
  }
}
