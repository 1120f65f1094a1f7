/** Partial rotary position embedding: the leading dimensions of every head are rotated in pairs
    `(i, i + half)`, the rest pass through (tools/capture_qwen35_layers.py). */
module Rope {
  import opened RealArith
  import opened RealVectors

  /** The functions the tables are made of. Nothing is known of `power` but that it stays positive,
      and of `cos` and `sin` only the laws for differences of angles. */
  datatype Trig = Trig(cos: real -> real, sin: real -> real, power: (real, real) -> real) {
    ghost predicate Lawful() {
      && (forall x: real, y: real :: cos(x - y) == cos(x) * cos(y) + sin(x) * sin(y))
      && (forall x: real, y: real :: sin(x - y) == sin(x) * cos(y) - cos(x) * sin(y))
      && cos(0.0) == 1.0
      && (forall x: real, y: real :: x > 0.0 ==> power(x, y) > 0.0)
    }
  }

  /** How many frequencies `arange(0, rot, 2)` yields. */
  function Half(rot: nat): nat {
    (rot + 1) / 2
  }

  function Frequency(m: Trig, theta: real, rot: nat, i: nat): real
    requires m.Lawful() && theta > 0.0 && i < Half(rot)
  {
    1.0 / m.power(theta, (2 * i) as real / rot as real)
  }

  ghost predicate PowerLaws(m: Trig) {
    && (forall x: real, a: real, b: real :: x > 0.0 ==> m.power(x, a + b) == m.power(x, a) * m.power(x, b))
    && (forall x: real :: m.power(x, 1.0) == x)
  }

  /** The frequencies are a geometric sequence that would reach `1 / theta` after half the rotary
      width: two indices that add up to that half multiply to it. */
  lemma FrequenciesMultiply(m: Trig, theta: real, rot: nat, i: nat, j: nat)
    requires m.Lawful() && PowerLaws(m) && theta > 0.0 && i < Half(rot) && j < Half(rot) && 2 * (i + j) == rot
    ensures Frequency(m, theta, rot, i) * Frequency(m, theta, rot, j) == 1.0 / theta
  {
    hide Trig.Lawful, PowerLaws;
    var a, b := (2 * i) as real / rot as real, (2 * j) as real / rot as real;
    PowersMultiply(m, theta, a, b, 1.0);
  }

  /** The first frequency is one, and indices add where frequencies multiply. */
  lemma FrequenciesAreGeometric(m: Trig, theta: real, rot: nat, i: nat, j: nat)
    requires m.Lawful() && PowerLaws(m) && theta > 0.0 && i + j < Half(rot)
    ensures Frequency(m, theta, rot, 0) == 1.0
    ensures Frequency(m, theta, rot, i) * Frequency(m, theta, rot, j) == Frequency(m, theta, rot, i + j)
  {
    hide Trig.Lawful, PowerLaws;
    var w := rot as real;
    NoPower(m, theta, 0.0 / w);
    QuotientsAdd((2 * i) as real, (2 * j) as real, (2 * (i + j)) as real, w);
    InversesMultiply(m, theta, (2 * i) as real / w, (2 * j) as real / w, (2 * (i + j)) as real / w);
  }

  lemma QuotientsAdd(x: real, y: real, sum: real, w: real)
    requires w > 0.0 && sum == x + y
    ensures sum / w == x / w + y / w
  {
    var a, b, c := x / w, y / w, sum / w;
    assert a * w == x && b * w == y && c * w == sum;
    assert (c - a - b) * w == 0.0;
  }

  lemma NoPower(m: Trig, x: real, zero: real)
    requires m.Lawful() && PowerLaws(m) && x > 0.0 && zero == 0.0
    ensures m.power(x, zero) == 1.0
  {
    var one, none := m.power(x, 1.0), m.power(x, 0.0);
    assert m.power(x, 1.0 + 0.0) == one * none;
    assert one > 0.0 && one * (none - 1.0) == 0.0;
  }

  lemma InversesMultiply(m: Trig, x: real, a: real, b: real, sum: real)
    requires m.Lawful() && PowerLaws(m) && x > 0.0 && sum == a + b
    ensures m.power(x, a) > 0.0 && m.power(x, b) > 0.0 && m.power(x, sum) > 0.0
    ensures 1.0 / m.power(x, a) * (1.0 / m.power(x, b)) == 1.0 / m.power(x, sum)
  {
    var p, q := m.power(x, a), m.power(x, b);
    assert p > 0.0 && q > 0.0;
    hide Trig.Lawful;
    assert m.power(x, a + b) == p * q;
    hide PowerLaws;
    PositiveAs(p, q, p * q);
    InverseOfProduct(p, q, p * q, 1.0 / p, 1.0 / q);
  }

  lemma InverseOfProduct(p: real, q: real, both: real, u: real, v: real)
    requires both > 0.0 && both == p * q && u * p == 1.0 && v * q == 1.0
    ensures u * v == 1.0 / both
  {
    assert u * v * both == (u * p) * (v * q);
    var w := 1.0 / both;
    assert w * both == 1.0;
    assert (u * v - w) * both == 0.0;
  }

  lemma PowersMultiply(m: Trig, x: real, a: real, b: real, sum: real)
    requires m.Lawful() && PowerLaws(m) && x > 0.0 && sum == a + b && sum == 1.0
    ensures m.power(x, a) > 0.0 && m.power(x, b) > 0.0 && m.power(x, a) * m.power(x, b) == x
  {
    assert m.power(x, a) > 0.0 && m.power(x, b) > 0.0;
    hide Trig.Lawful;
    assert m.power(x, a + b) == m.power(x, a) * m.power(x, b);
    assert m.power(x, sum) == x;
  }

  function Angle(m: Trig, theta: real, rot: nat, i: nat, position: int): real
    requires m.Lawful() && theta > 0.0 && i < Half(rot)
  {
    position as real * Frequency(m, theta, rot, i)
  }

  datatype Table = Table(cos: Vec, sin: Vec)

  /** One row of the tables: the frequencies twice over. */
  function TableRow(m: Trig, theta: real, rot: nat, position: int): (r: Table)
    requires m.Lawful() && theta > 0.0
    ensures |r.cos| == |r.sin| == 2 * Half(rot)
    ensures forall i | 0 <= i < Half(rot) ::
              r.cos[i] == r.cos[i + Half(rot)] == m.cos(Angle(m, theta, rot, i, position))
    ensures forall i | 0 <= i < Half(rot) ::
              r.sin[i] == r.sin[i + Half(rot)] == m.sin(Angle(m, theta, rot, i, position))
  {
    var cos := seq(Half(rot), i requires 0 <= i < Half(rot) => m.cos(Angle(m, theta, rot, i, position)));
    var sin := seq(Half(rot), i requires 0 <= i < Half(rot) => m.sin(Angle(m, theta, rot, i, position)));
    Table(cos + cos, sin + sin)
  }

  function Negated(a: Vec): (r: Vec)
    ensures |r| == |a| && forall j | 0 <= j < |a| :: r[j] == -a[j]
  {
    seq(|a|, j requires 0 <= j < |a| => -a[j])
  }

  function Times(a: Vec, b: Vec): (r: Vec)
    requires |a| == |b|
    ensures |r| == |a| && forall j | 0 <= j < |a| :: r[j] == a[j] * b[j]
  {
    seq(|a|, j requires 0 <= j < |a| => a[j] * b[j])
  }

  /** The second half, negated, before the first. */
  function RotateHalf(a: Vec): (r: Vec)
    ensures |r| == |a|
  {
    Negated(a[|a| / 2..]) + a[..|a| / 2]
  }

  /** One head's vector, rotated by a row of the tables. */
  function ApplyPartialRope(x: Vec, t: Table): (r: Vec)
    requires |t.cos| == |t.sin| <= |x|
    ensures |r| == |x|
  {
    var rot := |t.cos|;
    var lead, keep := x[..rot], x[rot..];
    Plus(Times(lead, t.cos), Times(RotateHalf(lead), t.sin)) + keep
  }

  /** The vector `x` at position `p`. */
  function At(m: Trig, theta: real, rot: nat, x: Vec, p: int): (r: Vec)
    requires m.Lawful() && theta > 0.0 && 2 * Half(rot) <= |x|
    ensures |r| == |x|
  {
    ApplyPartialRope(x, TableRow(m, theta, rot, p))
  }

  // ---- one pair --------------------------------------------------------------

  /** The pair `(x, y)` turned by the angle with cosine `c` and sine `s`. */
  function TurnedFirst(x: real, y: real, c: real, s: real): real {
    x * c - y * s
  }

  function TurnedSecond(x: real, y: real, c: real, s: real): real {
    y * c + x * s
  }

  /** What the source adds up for one dimension. */
  function Cell(a: real, c: real, b: real, s: real): real {
    a * c + b * s
  }

  lemma CellOf(a: Vec, c: Vec, b: Vec, s: Vec, j: nat)
    requires |a| == |c| == |b| == |s| && j < |a|
    ensures Plus(Times(a, c), Times(b, s))[j] == Cell(a[j], c[j], b[j], s[j])
  {
  }

  lemma CellsTurn(x: real, y: real, c: real, s: real)
    ensures Cell(x, c, -y, s) == TurnedFirst(x, y, c, s) && Cell(y, c, x, s) == TurnedSecond(x, y, c, s)
  {
  }

  lemma RotateHalfAt(a: Vec, h: nat, j: nat)
    requires |a| == 2 * h && j < 2 * h
    ensures RotateHalf(a)[j] == if j < h then -a[j + h] else a[j - h]
  {
  }

  lemma RopeCell(x: Vec, t: Table, h: nat, j: nat, other: real)
    requires |t.cos| == |t.sin| == 2 * h <= |x| && j < 2 * h
    requires other == if j < h then -x[j + h] else x[j - h]
    ensures ApplyPartialRope(x, t)[j] == Cell(x[j], t.cos[j], other, t.sin[j])
  {
    hide Cell, Times, Plus, RotateHalf;
    var lead := x[..2 * h];
    RotateHalfAt(lead, h, j);
    CellOf(lead, t.cos, RotateHalf(lead), t.sin, j);
  }

  /** The dimensions the tables cover turn in pairs. */
  lemma PairTurns(m: Trig, theta: real, rot: nat, x: Vec, p: int, h: nat, i: nat, c: real, s: real)
    requires m.Lawful() && theta > 0.0 && h == Half(rot) && 2 * h <= |x| && i < h
    requires c == m.cos(Angle(m, theta, rot, i, p)) && s == m.sin(Angle(m, theta, rot, i, p))
    ensures At(m, theta, rot, x, p)[i] == TurnedFirst(x[i], x[i + h], c, s)
    ensures At(m, theta, rot, x, p)[i + h] == TurnedSecond(x[i], x[i + h], c, s)
  {
    hide TableRow, Half, Angle, ApplyPartialRope, Trig.Lawful, TurnedFirst, TurnedSecond, Cell;
    var t := TableRow(m, theta, rot, p);
    RopeCell(x, t, h, i, -x[i + h]);
    RopeCell(x, t, h, i + h, x[i]);
    CellsTurn(x[i], x[i + h], c, s);
  }

  /** The same, with the angle written out: the position over the power of theta that the pair's share of
      the rotary width is. */
  lemma PairTurnsByPower(m: Trig, theta: real, rot: nat, x: Vec, p: int, h: nat, i: nat, angle: real)
    requires m.Lawful() && theta > 0.0 && h == Half(rot) && 2 * h <= |x| && i < h
    requires angle == p as real / m.power(theta, (2 * i) as real / rot as real)
    ensures At(m, theta, rot, x, p)[i] == x[i] * m.cos(angle) - x[i + h] * m.sin(angle)
    ensures At(m, theta, rot, x, p)[i + h] == x[i + h] * m.cos(angle) + x[i] * m.sin(angle)
  {
    hide At;
    var power := m.power(theta, (2 * i) as real / rot as real);
    assert power > 0.0;
    hide Trig.Lawful;
    TimesInverse(p as real, power, Frequency(m, theta, rot, i), angle);
    assert Angle(m, theta, rot, i, p) == angle;
    PairTurns(m, theta, rot, x, p, h, i, m.cos(angle), m.sin(angle));
  }

  lemma TimesInverse(x: real, d: real, u: real, q: real)
    requires d > 0.0 && u == 1.0 / d && q == x / d
    ensures x * u == q
  {
    assert u * d == 1.0 && q * d == x;
    assert (x * u - q) * d == x * (u * d) - q * d == 0.0;
  }

  lemma TailPassesThrough(m: Trig, theta: real, rot: nat, x: Vec, p: int)
    requires m.Lawful() && theta > 0.0 && 2 * Half(rot) <= |x|
    ensures At(m, theta, rot, x, p)[2 * Half(rot)..] == x[2 * Half(rot)..]
  {
  }

  lemma AnglesSubtract(m: Trig, theta: real, rot: nat, i: nat, p: int, s: int)
    requires m.Lawful() && theta > 0.0 && i < Half(rot)
    ensures Angle(m, theta, rot, i, p - s) == Angle(m, theta, rot, i, p) - Angle(m, theta, rot, i, s)
  {
    Distribute(Frequency(m, theta, rot, i), p as real, s as real, (p - s) as real);
  }

  /** What one pair contributes to an inner product. */
  function PairProduct(a0: real, b0: real, a1: real, b1: real): real {
    a0 * b0 + a1 * b1
  }

  lemma TurnedProduct(x: real, y: real, u: real, v: real, c1: real, s1: real, c2: real, s2: real)
    ensures PairProduct(TurnedFirst(x, y, c1, s1), TurnedFirst(u, v, c2, s2),
                        TurnedSecond(x, y, c1, s1), TurnedSecond(u, v, c2, s2)) ==
            (x * u + y * v) * (c1 * c2) + (x * u + y * v) * (s1 * s2) +
            (x * v - y * u) * (s1 * c2) - (x * v - y * u) * (c1 * s2)
  {
  }

  lemma TurnedOnce(x: real, y: real, u: real, v: real, c: real, s: real)
    ensures PairProduct(TurnedFirst(x, y, c, s), u, TurnedSecond(x, y, c, s), v) ==
            (x * u + y * v) * c + (x * v - y * u) * s
  {
  }

  /** Turning one pair by `p` and another by `s` and multiplying is turning the first by `p - s`. */
  lemma PairIdentity(x: real, y: real, u: real, v: real, c1: real, s1: real, c2: real, s2: real, c: real, s: real)
    requires c == c1 * c2 + s1 * s2 && s == s1 * c2 - c1 * s2
    ensures PairProduct(TurnedFirst(x, y, c1, s1), TurnedFirst(u, v, c2, s2),
                        TurnedSecond(x, y, c1, s1), TurnedSecond(u, v, c2, s2)) ==
            PairProduct(TurnedFirst(x, y, c, s), u, TurnedSecond(x, y, c, s), v)
  {
    hide PairProduct, TurnedFirst, TurnedSecond;
    TurnedProduct(x, y, u, v, c1, s1, c2, s2);
    TurnedOnce(x, y, u, v, c, s);
    Distribute(x * u + y * v, c1 * c2, s1 * s2, c);
    Distribute(x * v - y * u, s1 * c2, c1 * s2, s);
  }

  // ---- whole vectors ---------------------------------------------------------

  /** The part of an inner product that pairs `0..n` contribute. */
  function PairedDot(a: Vec, b: Vec, h: nat, n: nat): real
    requires n <= h && 2 * h <= |a| == |b|
  {
    if n == 0 then 0.0 else PairedDot(a, b, h, n - 1) + PairProduct(a[n - 1], b[n - 1], a[n - 1 + h], b[n - 1 + h])
  }

  lemma {:induction false} DotOfConcat(a: Vec, b: Vec, c: Vec, d: Vec)
    requires |a| == |c| && |b| == |d|
    ensures Dot(a + b, c + d) == Dot(a, c) + Dot(b, d)
  {
    if b == [] {
      assert a + b == a && c + d == c;
    } else {
      var n := |b| - 1;
      assert (a + b)[..|a| + n] == a + b[..n] && (c + d)[..|a| + n] == c + d[..n];
      DotOfConcat(a, b[..n], c, d[..n]);
    }
  }

  lemma {:induction false} DotOfPairs(a: Vec, b: Vec, h: nat, n: nat)
    requires n <= h && 2 * h <= |a| == |b|
    ensures PairedDot(a, b, h, n) == Dot(a[..n], b[..n]) + Dot(a[h..h + n], b[h..h + n])
  {
    if n > 0 {
      DotOfPairs(a, b, h, n - 1);
      LastTerm(a, b, 0, n);
      LastTerm(a, b, h, n);
    }
  }

  lemma LastTerm(a: Vec, b: Vec, from: nat, n: nat)
    requires 0 < n && from + n <= |a| == |b|
    ensures Dot(a[from..from + n], b[from..from + n]) ==
            Dot(a[from..from + n - 1], b[from..from + n - 1]) + a[from + n - 1] * b[from + n - 1]
  {
    assert a[from..from + n][..n - 1] == a[from..from + n - 1];
    assert b[from..from + n][..n - 1] == b[from..from + n - 1];
  }

  lemma DotByPairs(a: Vec, b: Vec, h: nat)
    requires 2 * h <= |a| == |b|
    ensures Dot(a, b) == PairedDot(a, b, h, h) + Dot(a[2 * h..], b[2 * h..])
  {
    hide Dot;
    DotOfPairs(a, b, h, h);
    DotOfConcat(a[..h], a[h..2 * h], b[..h], b[h..2 * h]);
    DotOfConcat(a[..2 * h], a[2 * h..], b[..2 * h], b[2 * h..]);
    assert a[..h] + a[h..2 * h] == a[..2 * h] && a[..2 * h] + a[2 * h..] == a;
    assert b[..h] + b[h..2 * h] == b[..2 * h] && b[..2 * h] + b[2 * h..] == b;
  }

  lemma DifferenceLaws(m: Trig, x: real, y: real)
    requires m.Lawful()
    ensures m.cos(x - y) == m.cos(x) * m.cos(y) + m.sin(x) * m.sin(y)
    ensures m.sin(x - y) == m.sin(x) * m.cos(y) - m.cos(x) * m.sin(y)
  {
  }

  lemma {:induction false} PairsAgree(m: Trig, theta: real, rot: nat, q: Vec, k: Vec, p: int, s: int, n: nat)
    requires m.Lawful() && theta > 0.0 && 2 * Half(rot) <= |q| == |k| && n <= Half(rot)
    ensures PairedDot(At(m, theta, rot, q, p), At(m, theta, rot, k, s), Half(rot), n) ==
            PairedDot(At(m, theta, rot, q, p - s), k, Half(rot), n)
  {
    hide At, Half, Angle, PairProduct, Trig.Lawful;
    if n > 0 {
      PairsAgree(m, theta, rot, q, k, p, s, n - 1);
      OnePairAgrees(m, theta, rot, q, k, p, s, Half(rot), n - 1,
                    At(m, theta, rot, q, p), At(m, theta, rot, k, s), At(m, theta, rot, q, p - s));
    }
  }

  /** The two pairs of a query and a key, turned by angles `x` and `y`. */
  lemma TurnedTogether(m: Trig, q0: real, q1: real, k0: real, k1: real, x: real, y: real, z: real)
    requires m.Lawful() && z == x - y
    ensures PairProduct(TurnedFirst(q0, q1, m.cos(x), m.sin(x)), TurnedFirst(k0, k1, m.cos(y), m.sin(y)),
                        TurnedSecond(q0, q1, m.cos(x), m.sin(x)), TurnedSecond(k0, k1, m.cos(y), m.sin(y))) ==
            PairProduct(TurnedFirst(q0, q1, m.cos(z), m.sin(z)), k0, TurnedSecond(q0, q1, m.cos(z), m.sin(z)), k1)
  {
    hide PairProduct, TurnedFirst, TurnedSecond, Trig.Lawful;
    DifferenceLaws(m, x, y);
    PairIdentity(q0, q1, k0, k1, m.cos(x), m.sin(x), m.cos(y), m.sin(y), m.cos(z), m.sin(z));
  }

  lemma OnePairAgrees(m: Trig, theta: real, rot: nat, q: Vec, k: Vec, p: int, s: int, h: nat, i: nat, a: Vec, b: Vec,
                      d: Vec)
    requires m.Lawful() && theta > 0.0 && h == Half(rot) && 2 * h <= |q| == |k| && i < h
    requires a == At(m, theta, rot, q, p) && b == At(m, theta, rot, k, s) && d == At(m, theta, rot, q, p - s)
    ensures PairProduct(a[i], b[i], a[i + h], b[i + h]) == PairProduct(d[i], k[i], d[i + h], k[i + h])
  {
    hide At, Half, Angle, TurnedFirst, TurnedSecond, PairProduct, Trig.Lawful;
    var x, y, z := Angle(m, theta, rot, i, p), Angle(m, theta, rot, i, s), Angle(m, theta, rot, i, p - s);
    AnglesSubtract(m, theta, rot, i, p, s);
    PairTurns(m, theta, rot, q, p, h, i, m.cos(x), m.sin(x));
    PairTurns(m, theta, rot, k, s, h, i, m.cos(y), m.sin(y));
    PairTurns(m, theta, rot, q, p - s, h, i, m.cos(z), m.sin(z));
    TurnedTogether(m, q[i], q[i + h], k[i], k[i + h], x, y, z);
  }

  /** The inner product of a query at `p` and a key at `s` depends on the positions only through
      `p - s`: it is that of the query turned by the difference and the key left as it was. */
  lemma RelativePosition(m: Trig, theta: real, rot: nat, q: Vec, k: Vec, p: int, s: int)
    requires m.Lawful() && theta > 0.0 && 2 * Half(rot) <= |q| == |k|
    ensures Dot(At(m, theta, rot, q, p), At(m, theta, rot, k, s)) == Dot(At(m, theta, rot, q, p - s), k)
  {
    hide At, Half, Dot, Trig.Lawful;
    var h := Half(rot);
    PairsAgree(m, theta, rot, q, k, p, s, h);
    DotByPairs(At(m, theta, rot, q, p), At(m, theta, rot, k, s), h);
    DotByPairs(At(m, theta, rot, q, p - s), k, h);
    TailPassesThrough(m, theta, rot, q, p);
    TailPassesThrough(m, theta, rot, q, p - s);
    TailPassesThrough(m, theta, rot, k, s);
  }

  /** At position zero nothing turns. */
  lemma AtZero(m: Trig, theta: real, rot: nat, x: Vec)
    requires m.Lawful() && theta > 0.0 && 2 * Half(rot) <= |x|
    ensures At(m, theta, rot, x, 0) == x
  {
    hide At, Half;
    var y, h := At(m, theta, rot, x, 0), Half(rot);
    TailPassesThrough(m, theta, rot, x, 0);
    forall j | 0 <= j < |x| ensures y[j] == x[j] {
      if j < 2 * h {
        var i := if j < h then j else j - h;
        assert Angle(m, theta, rot, i, 0) == 0.0;
        PairTurns(m, theta, rot, x, 0, h, i, 1.0, 0.0);
      } else {
        assert y[2 * h..][j - 2 * h] == x[2 * h..][j - 2 * h];
      }
    }
  }

  /** Rotation keeps lengths. */
  lemma RotationPreservesNorm(m: Trig, theta: real, rot: nat, x: Vec, p: int)
    requires m.Lawful() && theta > 0.0 && 2 * Half(rot) <= |x|
    ensures Norm2(At(m, theta, rot, x, p)) == Norm2(x)
  {
    hide At, Half, Dot, Trig.Lawful;
    RelativePosition(m, theta, rot, x, x, p, p);
    AtZero(m, theta, rot, x);
  }

  // ---- attention scores ------------------------------------------------------

  /** The score of every query head against every key head, `scale` times the inner product. */
  function Score(m: Trig, theta: real, rot: nat, scale: real, q: Vec, k: Vec, p: int, s: int): real
    requires m.Lawful() && theta > 0.0 && 2 * Half(rot) <= |q| == |k|
  {
    Dot(At(m, theta, rot, q, p), At(m, theta, rot, k, s)) * scale
  }

  function Shifted(positions: seq<int>, delta: int): (r: seq<int>)
    ensures |r| == |positions| && forall t | 0 <= t < |r| :: r[t] == positions[t] + delta
  {
    seq(|positions|, t requires 0 <= t < |positions| => positions[t] + delta)
  }

  /** One head's row of scores: token `t`'s query against every token's key. */
  function ScoreRow(m: Trig, theta: real, rot: nat, scale: real, q: Matrix, k: Matrix, w: nat, positions: seq<int>,
                    t: nat): (r: Vec)
    requires m.Lawful() && theta > 0.0 && 2 * Half(rot) <= w && t < |positions|
    requires Shape(q, |positions|, w) && Shape(k, |positions|, w)
    ensures |r| == |positions|
    ensures forall u | 0 <= u < |r| :: r[u] == Score(m, theta, rot, scale, q[t], k[u], positions[t], positions[u])
  {
    seq(|positions|, u requires 0 <= u < |positions| =>
      Score(m, theta, rot, scale, q[t], k[u], positions[t], positions[u]))
  }

  /** Moving every position by the same amount changes no score of a self-contained pass. */
  lemma UniformShiftIsInvisible(m: Trig, theta: real, rot: nat, scale: real, q: Matrix, k: Matrix, w: nat,
                                positions: seq<int>, delta: int, t: nat)
    requires m.Lawful() && theta > 0.0 && 2 * Half(rot) <= w && t < |positions|
    requires Shape(q, |positions|, w) && Shape(k, |positions|, w)
    ensures ScoreRow(m, theta, rot, scale, q, k, w, Shifted(positions, delta), t) ==
            ScoreRow(m, theta, rot, scale, q, k, w, positions, t)
  {
    hide At, Half, Dot, Trig.Lawful;
    forall u | 0 <= u < |positions|
      ensures Score(m, theta, rot, scale, q[t], k[u], positions[t] + delta, positions[u] + delta) ==
              Score(m, theta, rot, scale, q[t], k[u], positions[t], positions[u])
    {
      var p, s := positions[t], positions[u];
      RelativePosition(m, theta, rot, q[t], k[u], p + delta, s + delta);
      RelativePosition(m, theta, rot, q[t], k[u], p, s);
      assert (p + delta) - (s + delta) == p - s;
    }
  }
}
