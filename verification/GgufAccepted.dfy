/** What a GGUF file must be like to be opened (crates/gguf/src/lib.rs). */
module GgufAccepted {
  import opened Bytes
  import opened GgufValue
  import opened GgufReader
  import opened GgmlTypes
  import opened GgufFile
  import opened GgufRoundTrip

  /** Reading the letters back. */
  lemma {:induction false} LeOfFromLe(s: seq<byte>)
    ensures Le(FromLe(s), |s|) == s
  {
    if s != [] {
      LeOfFromLe(s[1..]);
      assert FromLe(s) % 256 == s[0] && FromLe(s) / 256 == FromLe(s[1..]);
    }
  }

  function TwoTo(k: nat): nat {
    if k == 0 then 1 else 2 * TwoTo(k - 1)
  }

  lemma {:induction false} DoublingsArePowers(k: nat)
    ensures TwoTo(k) > 0 && IsPowerOfTwo(TwoTo(k))
  {
    if k > 0 {
      DoublingsArePowers(k - 1);
      var half := TwoTo(k - 1);
      assert TwoTo(k) == 2 * half;
      hide TwoTo;
      assert 2 * half / 2 == half && 2 * half % 2 == 0;
    }
  }

  /** The alignment test accepts exactly the powers of two. */
  lemma {:induction false} PowersAreDoublings(n: nat)
    ensures IsPowerOfTwo(n) <==> exists k: nat :: n == TwoTo(k)
  {
    if k: nat :| n == TwoTo(k) {
      DoublingsArePowers(k);
    }
    if IsPowerOfTwo(n) {
      if n == 1 {
        assert n == TwoTo(0);
      } else {
        PowersAreDoublings(n / 2);
        var k: nat :| n / 2 == TwoTo(k);
        assert n == TwoTo(k + 1);
      }
    }
  }

  // ---- entries ---------------------------------------------------------------

  lemma {:induction false} DimensionsAreMultiplied(count: nat, buf: seq<byte>, pos: nat, dims: seq<nat>, elements: nat)
    requires pos <= |buf| && elements == Product(dims) <= USIZE_MAX && DimsAt(count, buf, pos, dims, elements).Got?
    ensures var (all, product) := DimsAt(count, buf, pos, dims, elements).value;
            |all| == |dims| + count && product == Product(all) <= USIZE_MAX
    decreases count
  {
    if count > 0 {
      var d := UIntAt(buf, pos, 8);
      assert (dims + [d.value])[..|dims|] == dims;
      DimensionsAreMultiplied(count - 1, buf, d.next, dims + [d.value], elements * d.value);
    }
  }

  /** One to four dimensions, the product of which is the number of elements, in whole blocks. */
  ghost predicate SoundEntry(t: TensorInfo) {
    && 1 <= |t.dims| <= 4 && t.elements == Product(t.dims) <= USIZE_MAX
    && t.elements % t.ty.BlockSize() == 0
    && t.bytes == t.elements / t.ty.BlockSize() * t.ty.TypeSize() <= USIZE_MAX
  }

  lemma ReadEntryIsSound(buf: seq<byte>, pos: nat, lossy: seq<byte> -> seq<byte>)
    requires pos <= |buf| && InfoAt(buf, pos, lossy).Got?
    ensures SoundEntry(InfoAt(buf, pos, lossy).value)
  {
    hide GgmlType.BlockSize, GgmlType.TypeSize, StringAt, DimsAt, InfoTailAt, UIntAt;
    var name := StringAt(buf, pos, lossy);
    var count := UIntAt(buf, name.next, 4);
    DimensionsAreMultiplied(count.value, buf, count.next, [], 1);
  }

  ghost predicate SoundIndex(index: Index) {
    forall name | name in index :: index[name].name == name && SoundEntry(index[name])
  }

  lemma {:induction false} ReadIndexIsSound(count: nat, buf: seq<byte>, pos: nat, lossy: seq<byte> -> seq<byte>,
                                            index: Index)
    requires pos <= |buf| && SoundIndex(index) && InfosAt(count, buf, pos, lossy, index).Got?
    ensures SoundIndex(InfosAt(count, buf, pos, lossy, index).value)
    ensures |InfosAt(count, buf, pos, lossy, index).value| == |index| + count
    decreases count
  {
    hide InfoAt, SoundEntry;
    if count > 0 {
      var info := InfoAt(buf, pos, lossy);
      ReadEntryIsSound(buf, pos, lossy);
      ReadIndexIsSound(count - 1, buf, info.next, lossy, index[info.value.name := info.value]);
    }
  }

  // ---- the header ------------------------------------------------------------

  /** A file that is opened begins with the magic number and version 2 or 3, has a power of two for an
      alignment and its data at a multiple of it, and as many entries as it says, under different names,
      each with one to four dimensions and whole blocks. */
  lemma AcceptedHeader(buf: seq<byte>, lossy: seq<byte> -> seq<byte>)
    requires HeaderAt(buf, lossy).Got?
    ensures |buf| >= 24 && MAGIC < Pow256(4) && buf[..4] == Le(MAGIC, 4)
    ensures var g := HeaderAt(buf, lossy).value;
            && g.version == FromLe(buf[4..8]) && (g.version == 2 || g.version == 3)
            && IsPowerOfTwo(g.alignment) && g.alignment > 0 && g.dataOffset % g.alignment == 0
            && SoundIndex(g.tensors) && |g.tensors| == FromLe(buf[8..16])
  {
    hide TablesAt, SoundIndex;
    LeOfFromLe(buf[..4]);
    assert buf[0..4] == buf[..4];
    AcceptedTables(FromLe(buf[4..8]), FromLe(buf[8..16]), FromLe(buf[16..24]), buf, 24, lossy);
  }

  lemma AcceptedTables(version: nat, tensorCount: nat, pairCount: nat, buf: seq<byte>, pos: nat,
                       lossy: seq<byte> -> seq<byte>)
    requires pos <= |buf| && TablesAt(version, tensorCount, pairCount, buf, pos, lossy).Got?
    ensures var g := TablesAt(version, tensorCount, pairCount, buf, pos, lossy).value;
            && g.version == version && IsPowerOfTwo(g.alignment) && g.alignment > 0
            && g.dataOffset % g.alignment == 0 && SoundIndex(g.tensors) && |g.tensors| == tensorCount
  {
    hide PairsAt, InfosAt, AlignmentOf;
    var pairs := PairsAt(pairCount, buf, pos, lossy, map[]);
    ReadIndexIsSound(tensorCount, buf, pairs.next, lossy, map[]);
  }
}
