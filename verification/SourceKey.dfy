/** The name under which compiled code is kept on disk: a hash of the source, printed as sixteen
    hexadecimal digits between the label and the suffix (crates/cuda/src/nvrtc.rs). */
module SourceKey {
  import opened Arith
  import opened Bytes

  const WORD: nat := 0x1_0000_0000_0000_0000
  const OFFSET: nat := 0xcbf2_9ce4_8422_2325
  /** The multiplier the source spells out. It is odd, but it is not the prime of the published FNV-1a. */
  const MULTIPLIER: nat := 0x1000_0000_01b3
  const INVERSE: nat := 0xb46d_d957_aff6_957b

  function Pow2(n: nat): (p: nat)
    ensures p > 0
  {
    if n == 0 then 1 else 2 * Pow2(n - 1)
  }

  /** Exclusive or, bit by bit. */
  function XorBits(a: nat, b: nat, bits: nat): (r: nat)
    ensures r < Pow2(bits)
  {
    if bits == 0 then 0 else 2 * XorBits(a / 2, b / 2, bits - 1) + (a % 2 + b % 2) % 2
  }

  function Xor(a: byte, b: byte): byte {
    assert Pow2(4) == 16 && Pow2(8) == 256;
    XorBits(a, b, 8)
  }

  /** Exclusive or with a byte touches only the lowest eight bits. */
  function Mix(h: nat, b: byte): nat {
    h / 256 * 256 + Xor(h % 256, b)
  }

  /** Wrapping multiplication. */
  function Multiply(h: nat): nat {
    h * MULTIPLIER % WORD
  }

  function Eat(h: nat, b: byte): nat {
    Multiply(Mix(h, b))
  }

  function Fold(h: nat, bytes: seq<byte>): nat {
    if bytes == [] then h else Eat(Fold(h, bytes[..|bytes| - 1]), bytes[|bytes| - 1])
  }

  /** The source, the architecture and the version, eaten one after the other. */
  method HashOf(source: seq<byte>, arch: seq<byte>, version: seq<byte>) returns (h: nat)
    ensures h == Fold(OFFSET, source + arch + version)
  {
    h := EatAll(OFFSET, source);
    h := EatAll(h, arch);
    h := EatAll(h, version);
    FoldOfConcat(OFFSET, source, arch);
    FoldOfConcat(OFFSET, source + arch, version);
  }

  method EatAll(start: nat, bytes: seq<byte>) returns (h: nat)
    ensures h == Fold(start, bytes)
  {
    hide Mix, Multiply;
    h := start;
    for i := 0 to |bytes|
      invariant h == Fold(start, bytes[..i])
    {
      assert bytes[..i + 1][..i] == bytes[..i];
      h := Mix(h, bytes[i]);
      h := Multiply(h);
    }
    assert bytes[..|bytes|] == bytes;
  }

  function Bit(n: nat, i: nat): nat {
    if i == 0 then n % 2 else Bit(n / 2, i - 1)
  }

  /** Bit `i` of the exclusive or is set where the two bits differ. */
  lemma {:induction false} XorIsBitByBit(a: nat, b: nat, bits: nat, i: nat)
    requires i < bits
    ensures Bit(XorBits(a, b, bits), i) == if Bit(a, i) == Bit(b, i) then 0 else 1
    decreases bits
  {
    hide XorBits;
    var x := XorBits(a, b, bits);
    XorStep(a, b, bits);
    assert x % 2 == (a % 2 + b % 2) % 2 && x / 2 == XorBits(a / 2, b / 2, bits - 1);
    if i > 0 {
      XorIsBitByBit(a / 2, b / 2, bits - 1, i - 1);
    }
  }

  lemma XorOfLetter()
    ensures XorBits(0x25, 'a' as int, 8) == 0x44
  {
    assert XorBits(1, 3, 3) == 2;
    assert XorBits(4, 12, 5) == 8;
    assert XorBits(18, 48, 7) == 34;
  }

  /** The hash of nothing is the offset; that of the letter a is the offset with its lowest byte changed,
      times the multiplier. */
  lemma SmallestHashes()
    ensures Fold(OFFSET, []) == 0xcbf2_9ce4_8422_2325
    ensures Fold(OFFSET, ['a' as int]) == 0xaf74_d84c_8601_ec8c
  {
    hide XorBits, Pow2;
    XorOfLetter();
    assert Mix(OFFSET, 'a' as int) == 0xcbf2_9ce4_8422_2344;
    hide Mix;
    assert Multiply(0xcbf2_9ce4_8422_2344) == 0xaf74_d84c_8601_ec8c;
    assert ['a' as int][..0] == [];
  }

  // ---- the hash tells edits apart --------------------------------------------

  lemma {:induction false} XorUndone(a: nat, b: nat, bits: nat)
    requires a < Pow2(bits)
    ensures XorBits(XorBits(a, b, bits), b, bits) == a
    decreases bits
  {
    hide XorBits;
    if bits == 0 {
      assert XorBits(XorBits(a, b, 0), b, 0) < 1;
    } else {
      var half, x := XorBits(a / 2, b / 2, bits - 1), XorBits(a, b, bits);
      XorStep(a, b, bits);
      XorStep(x, b, bits);
      assert x / 2 == half;
      XorUndone(a / 2, b / 2, bits - 1);
    }
  }

  lemma {:induction false} XorCommutes(a: nat, b: nat, bits: nat)
    ensures XorBits(a, b, bits) == XorBits(b, a, bits)
    decreases bits
  {
    if bits > 0 {
      XorCommutes(a / 2, b / 2, bits - 1);
    }
  }

  lemma XorStep(a: nat, b: nat, bits: nat)
    requires bits > 0
    ensures XorBits(a, b, bits) == 2 * XorBits(a / 2, b / 2, bits - 1) + (a % 2 + b % 2) % 2
  {
  }

  lemma XorIsInjective(a: byte, b: byte, c: byte)
    ensures Xor(a, c) == Xor(b, c) ==> a == b
    ensures Xor(c, a) == Xor(c, b) ==> a == b
  {
    assert Pow2(4) == 16 && Pow2(8) == 256;
    hide XorBits, Pow2;
    XorUndone(a, c, 8);
    XorUndone(b, c, 8);
    XorCommutes(a, c, 8);
    XorCommutes(b, c, 8);
  }

  lemma MixIsInjective(h: nat, g: nat, b: byte, c: byte)
    ensures Mix(h, b) == Mix(g, b) ==> h == g
    ensures Mix(h, b) == Mix(h, c) ==> b == c
  {
    hide Xor;
    DivMod(h / 256, 256, Xor(h % 256, b));
    DivMod(g / 256, 256, Xor(g % 256, b));
    DivMod(h / 256, 256, Xor(h % 256, c));
    XorIsInjective(h % 256, g % 256, b);
    XorIsInjective(b, c, h % 256);
  }

  lemma MixStaysInWord(h: nat, b: byte)
    requires h < WORD
    ensures Mix(h, b) < WORD
  {
    hide Xor;
  }

  /** Multiplying by the inverse undoes the multiplication. */
  lemma MultiplyIsInvertible(h: nat)
    requires h < WORD
    ensures Multiply(h) * INVERSE % WORD == h
  {
    var p := h * MULTIPLIER;
    var q, r := p / WORD, p % WORD;
    var k := (MULTIPLIER * INVERSE) / WORD;
    assert MULTIPLIER * INVERSE == k * WORD + 1;
    var lifted := h * k - q * INVERSE;
    assert r * INVERSE == lifted * WORD + h;
    DivMod(lifted, WORD, h);
  }

  lemma EatIsInjective(h: nat, g: nat, b: byte, c: byte)
    requires h < WORD && g < WORD
    ensures Eat(h, b) < WORD
    ensures Eat(h, b) == Eat(g, b) ==> h == g
    ensures Eat(h, b) == Eat(h, c) ==> b == c
  {
    hide Mix;
    MixStaysInWord(h, b);
    MixStaysInWord(h, c);
    MixStaysInWord(g, b);
    MultiplyIsInvertible(Mix(h, b));
    MultiplyIsInvertible(Mix(g, b));
    MultiplyIsInvertible(Mix(h, c));
    MixIsInjective(h, g, b, c);
  }

  lemma {:induction false} FoldIsInjectiveInState(h: nat, g: nat, s: seq<byte>)
    requires h < WORD && g < WORD
    ensures Fold(h, s) < WORD && Fold(g, s) < WORD
    ensures Fold(h, s) == Fold(g, s) ==> h == g
  {
    hide Eat;
    if s != [] {
      var n := |s| - 1;
      FoldIsInjectiveInState(h, g, s[..n]);
      EatIsInjective(Fold(h, s[..n]), Fold(g, s[..n]), s[n], s[n]);
      EatIsInjective(Fold(g, s[..n]), Fold(h, s[..n]), s[n], s[n]);
    }
  }

  lemma {:induction false} FoldOfConcat(h: nat, x: seq<byte>, y: seq<byte>)
    ensures Fold(h, x + y) == Fold(Fold(h, x), y)
  {
    hide Eat;
    if y == [] {
      assert x + y == x;
    } else {
      assert (x + y)[..|x + y| - 1] == x + y[..|y| - 1];
      FoldOfConcat(h, x, y[..|y| - 1]);
    }
  }

  /** Changing one byte of the hashed text always changes the hash, whatever surrounds it. */
  lemma OneByteEditChangesHash(before: seq<byte>, b: byte, c: byte, after: seq<byte>)
    requires b != c
    ensures Fold(OFFSET, before + [b] + after) != Fold(OFFSET, before + [c] + after)
  {
    hide Eat;
    var h := Fold(OFFSET, before);
    FoldIsInjectiveInState(OFFSET, OFFSET, before);
    FoldOfConcat(OFFSET, before + [b], after);
    FoldOfConcat(OFFSET, before + [c], after);
    FoldOfConcat(OFFSET, before, [b]);
    FoldOfConcat(OFFSET, before, [c]);
    EatIsInjective(h, h, b, c);
    EatIsInjective(h, h, c, b);
    FoldIsInjectiveInState(Eat(h, b), Eat(h, c), after);
  }

  // ---- the file name ---------------------------------------------------------

  function Digit(n: nat): char
    requires n < 16
  {
    "0123456789abcdef"[n]
  }

  /** The lowest `count` hexadecimal digits, highest first. */
  function Hex(h: nat, count: nat): (r: string)
    ensures |r| == count
  {
    if count == 0 then "" else Hex(h / 16, count - 1) + [Digit(h % 16)]
  }

  function Pow16(n: nat): (p: nat)
    ensures p > 0
  {
    if n == 0 then 1 else 16 * Pow16(n - 1)
  }

  lemma DigitIsInjective(m: nat, n: nat)
    requires m < 16 && n < 16 && Digit(m) == Digit(n)
    ensures m == n
  {
  }

  lemma {:induction false} HexIsInjective(h: nat, g: nat, count: nat)
    requires h < Pow16(count) && g < Pow16(count) && Hex(h, count) == Hex(g, count)
    ensures h == g
    decreases count
  {
    hide Digit;
    if count > 0 {
      LastOfString(Hex(h / 16, count - 1), Digit(h % 16), Hex(g / 16, count - 1), Digit(g % 16));
      HexIsInjective(h / 16, g / 16, count - 1);
      DigitIsInjective(h % 16, g % 16);
    }
  }

  lemma LastOfString(x: string, c: char, y: string, d: char)
    requires x + [c] == y + [d]
    ensures x == y && c == d
  {
    var s, t := x + [c], y + [d];
    assert |x| == |y| && s[|x|] == t[|y|] && s[..|x|] == x && t[..|y|] == y;
  }

  lemma WordHasSixteenDigits()
    ensures WORD == Pow16(16)
  {
    assert Pow16(4) == 0x1_0000;
    assert Pow16(8) == 0x1_0000_0000;
    assert Pow16(12) == 0x1_0000_0000_0000;
  }

  function Path(lbl: string, sm: string, key: nat): string {
    lbl + ("-sm" + sm + "-" + Hex(key, 16) + ".ptx")
  }

  /** Digit `i` of the printed key, from the right, is its digit in base sixteen. */
  lemma {:induction false} HexDigitAt(h: nat, count: nat, i: nat)
    requires i < count
    ensures Hex(h, count)[count - 1 - i] == "0123456789abcdef"[h / Pow16(i) % 16]
    decreases count
  {
    if i > 0 {
      HexDigitAt(h / 16, count - 1, i - 1);
      DivOfProduct(h, 16, Pow16(i - 1));
    }
  }

  /** On one architecture the file name determines the label and the key. */
  lemma PathIsInjective(lbl: string, other: string, sm: string, key: nat, otherKey: nat)
    requires key < WORD && otherKey < WORD && Path(lbl, sm, key) == Path(other, sm, otherKey)
    ensures lbl == other && key == otherKey
  {
    hide Hex;
    var x, y := "-sm" + sm + "-" + Hex(key, 16) + ".ptx", "-sm" + sm + "-" + Hex(otherKey, 16) + ".ptx";
    assert |x| == |y|;
    var p := Path(lbl, sm, key);
    assert p[..|lbl|] == lbl && p[..|other|] == other && |lbl| == |other|;
    assert p[|lbl|..] == x && p[|other|..] == y;
    var n := |sm| + 4;
    assert x[n..n + 16] == Hex(key, 16) && y[n..n + 16] == Hex(otherKey, 16);
    WordHasSixteenDigits();
    HexIsInjective(key, otherKey, 16);
  }
}
