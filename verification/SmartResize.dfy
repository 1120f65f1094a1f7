/** The dynamic-resolution rule (tools/capture_qwen35_vision.py), over exact reals. */
module SmartResize {
  import opened Arith
  import opened RealArith

  datatype Math = Math(sqrt: real -> real) {
    ghost predicate Lawful() {
      forall x: real :: x >= 0.0 ==> sqrt(x) >= 0.0 && sqrt(x) * sqrt(x) == x
    }
  }

  /** Rounding to the nearest integer, halves to the even one. */
  function RoundHalfEven(x: real): int {
    var fl := x.Floor;
    var rest := x - fl as real;
    if rest < 0.5 || (rest == 0.5 && fl % 2 == 0) then fl else fl + 1
  }

  function Ceiling(x: real): int {
    -(-x).Floor
  }

  /** A size, or what the source raises on a division by zero or a root of a negative number. */
  datatype Outcome = Size(height: int, width: int) | Raised

  function FactorsIn(x: real, factor: nat): int
    requires factor > 0
  {
    (x / factor as real).Floor
  }

  function FactorsAround(x: real, factor: nat): int
    requires factor > 0
  {
    Ceiling(x / factor as real)
  }

  /** One side, shrunk by `beta` and cut to a multiple of `factor`, but never below it. */
  function Shrunk(side: nat, beta: real, factor: nat): int
    requires beta > 0.0 && factor > 0
  {
    Max(factor, FactorsIn(side as real / beta, factor) * factor)
  }

  function Stretched(side: nat, beta: real): real {
    side as real * beta
  }

  function Grown(side: nat, beta: real, factor: nat): int
    requires factor > 0
  {
    FactorsAround(Stretched(side, beta), factor) * factor
  }

  function Nearest(side: nat, factor: nat): int
    requires factor > 0
  {
    RoundHalfEven(side as real / factor as real) * factor
  }

  function Area(height: nat, width: nat): real {
    (height * width) as real
  }

  function ShrinkFactor(m: Math, height: nat, width: nat, maxPixels: int): real
    requires maxPixels > 0
  {
    m.sqrt(Area(height, width) / maxPixels as real)
  }

  function GrowFactor(m: Math, height: nat, width: nat, minPixels: int): real
  {
    if Area(height, width) == 0.0 then 0.0 else m.sqrt(minPixels as real / Area(height, width))
  }

  function Resize(m: Math, height: nat, width: nat, factor: nat, minPixels: int, maxPixels: int): Outcome {
    if factor == 0 then Raised
    else
      var (h, w) := (Nearest(height, factor), Nearest(width, factor));
      if h * w > maxPixels then
        if maxPixels <= 0 then Raised
        else
          var beta := ShrinkFactor(m, height, width, maxPixels);
          if beta <= 0.0 then Raised else Size(Shrunk(height, beta, factor), Shrunk(width, beta, factor))
      else if h * w < minPixels then
        if height * width == 0 then Raised
        else
          var beta := GrowFactor(m, height, width, minPixels);
          Size(Grown(height, beta, factor), Grown(width, beta, factor))
      else Size(h, w)
  }

  // ---- reals -----------------------------------------------------------------

  lemma Quotient(x: real, d: real, q: real)
    requires d > 0.0 && q == x / d
    ensures q * d == x && (x >= 0.0 ==> q >= 0.0) && (x > 0.0 ==> q > 0.0)
  {
    assert q * d == x;
    if q < 0.0 {
      ProductIsPositive(-q, d);
    }
  }

  /** Two nonnegative numbers compare as their squares do. */
  lemma SquaresCompare(x: real, y: real)
    requires x >= 0.0 && y >= 0.0
    ensures x < y <==> x * x < y * y
  {
    assert y * y - x * x == (y - x) * (y + x);
    if x < y {
      ProductIsPositive(y - x, y + x);
    } else {
      TimesIsMonotone(y + x, y - x, 0.0);
    }
  }

  lemma ProductsCompare(a: real, b: real, x: real, y: real)
    requires 0.0 <= a <= x && 0.0 <= b <= y
    ensures a * b <= x * y
  {
    TimesIsMonotone(a, b, y);
    TimesIsMonotone(y, a, x);
  }

  // ---- multiples of the factor -----------------------------------------------

  ghost predicate PositiveMultiple(x: int, factor: nat) {
    factor > 0 && exists k: int :: k > 0 && Multiple(x, k, factor)
  }

  ghost predicate Multiple(x: int, k: int, factor: nat) {
    x == k * factor
  }

  lemma BothPositive(a: int, b: int)
    requires a >= 0 && b >= 0 && a * b > 0
    ensures a > 0 && b > 0
  {
  }

  lemma NearestIsPositive(a: nat, b: nat, factor: nat)
    requires factor > 0
    ensures Nearest(a, factor) * Nearest(b, factor) > 0 ==>
              PositiveMultiple(Nearest(a, factor), factor) && PositiveMultiple(Nearest(b, factor), factor)
  {
    NearestIsNonNegative(a, factor);
    NearestIsNonNegative(b, factor);
    hide Nearest, PositiveMultiple;
    if Nearest(a, factor) * Nearest(b, factor) > 0 {
      BothPositive(Nearest(a, factor), Nearest(b, factor));
    }
  }

  lemma NearestIsNonNegative(a: nat, factor: nat)
    requires factor > 0
    ensures Nearest(a, factor) >= 0
    ensures Nearest(a, factor) > 0 ==> PositiveMultiple(Nearest(a, factor), factor)
  {
    var x := a as real / factor as real;
    Quotient(a as real, factor as real, x);
    var k := RoundHalfEven(x);
    assert k >= 0;
    assert Multiple(Nearest(a, factor), k, factor);
    MulMono(0, k, factor);
    assert k == 0 ==> Nearest(a, factor) == 0;
  }

  /** `x` is the multiple of `factor` closest to `side`, the even one of two that are as close. */
  ghost predicate Closest(x: int, side: nat, factor: nat) {
    exists k: int :: IsClosest(k, x, side, factor)
  }

  ghost predicate IsClosest(k: int, x: int, side: nat, factor: nat) {
    var gap := if x < side then side - x else x - side;
    Multiple(x, k, factor) && 2 * gap <= factor && (2 * gap == factor ==> k % 2 == 0)
  }

  lemma FractionCompares(part: real, f: real, rest: real)
    requires f > 0.0 && part * f == rest && 0.0 <= rest < f
    ensures 0.0 <= part < 1.0
    ensures (part < 0.5 <==> 2.0 * rest < f) && (part == 0.5 <==> 2.0 * rest == f)
  {
    if part < 0.0 {
      ProductIsPositive(-part, f);
      assert false;
    }
    TimesIsMonotone(f, 1.0, part);
    if part < 0.5 {
      TimesIsMonotone(f, part, 0.5);
    } else if part > 0.5 {
      TimesIsMonotone(f, 0.5, part);
    } else {
      Congruent(f, part, 0.5);
    }
  }

  lemma FloorIs(x: real, q: int)
    requires q as real <= x < q as real + 1.0
    ensures x.Floor == q
  {
  }

  /** Rounding a quotient, in whole numbers. */
  lemma QuotientRounds(side: nat, factor: nat, q: nat, rest: nat)
    requires factor > 0 && side == q * factor + rest && rest < factor
    ensures RoundHalfEven(side as real / factor as real)
         == if 2 * rest < factor || (2 * rest == factor && q % 2 == 0) then q else q + 1
  {
    var x, f := side as real / factor as real, factor as real;
    var part := x - q as real;
    PartOf(x, f, q as real, part, rest as real);
    FractionCompares(part, f, rest as real);
    FloorIs(x, q);
  }

  lemma PartOf(x: real, f: real, q: real, part: real, rest: real)
    requires f > 0.0 && x == (q * f + rest) / f && part == x - q
    ensures part * f == rest
  {
    assert x * f == q * f + rest;
    Distribute(f, x, q, part);
  }

  lemma NearestIsClosest(side: nat, factor: nat)
    requires factor > 0
    ensures Closest(Nearest(side, factor), side, factor)
  {
    hide RoundHalfEven;
    DivParts(side, factor);
    RoundedIsClosest(side / factor, side % factor, side, factor, RoundHalfEven(side as real / factor as real));
  }

  lemma RoundedIsClosest(q: nat, rest: nat, side: nat, factor: nat, k: int)
    requires factor > 0 && side == q * factor + rest && rest < factor
    requires k == RoundHalfEven(side as real / factor as real)
    ensures IsClosest(k, k * factor, side, factor)
  {
    QuotientRounds(side, factor, q, rest);
    hide RoundHalfEven;
    assert (q + 1) * factor == q * factor + factor;
  }

  lemma OneFactorApart(x: int, y: int, p: int, q: int, factor: nat)
    requires Multiple(x, p, factor) && Multiple(y, q, factor) && y < x <= y + factor
    ensures p == q + 1 && x == y + factor
  {
    assert (p - q) * factor == x - y && (p - q - 1) * factor == x - y - factor;
    if p - q > 1 {
      MulAtLeast(p - q - 1, factor);
    } else if p - q < 1 {
      MulMono(p - q, 0, factor);
    }
  }

  /** There is one such multiple. */
  lemma ClosestIsUnique(x: int, y: int, side: nat, factor: nat)
    requires factor > 0 && Closest(x, side, factor) && Closest(y, side, factor)
    ensures x == y
  {
    hide Multiple;
    var p :| IsClosest(p, x, side, factor);
    var q :| IsClosest(q, y, side, factor);
    if x > y {
      OneFactorApart(x, y, p, q, factor);
    } else if y > x {
      OneFactorApart(y, x, q, p, factor);
    }
  }

  lemma FactorsAroundCover(y: real, factor: nat, k: int)
    requires y > 0.0 && factor > 0 && k == FactorsAround(y, factor)
    ensures k > 0 && (k * factor) as real >= y
  {
    var x := y / factor as real;
    Quotient(y, factor as real, x);
    assert k as real >= x;
    TimesIsMonotone(factor as real, x, k as real);
  }

  lemma StretchedIsPositive(side: nat, beta: real)
    requires side > 0 && beta > 0.0
    ensures Stretched(side, beta) > 0.0
  {
    ProductIsPositive(side as real, beta);
  }

  lemma GrownIsPositive(side: nat, beta: real, factor: nat)
    requires side > 0 && beta > 0.0 && factor > 0
    ensures PositiveMultiple(Grown(side, beta, factor), factor)
    ensures Grown(side, beta, factor) as real >= Stretched(side, beta) > 0.0
  {
    hide FactorsAround, Stretched;
    StretchedIsPositive(side, beta);
    var k := FactorsAround(Stretched(side, beta), factor);
    FactorsAroundCover(Stretched(side, beta), factor, k);
    assert Multiple(Grown(side, beta, factor), k, factor);
  }

  lemma ShrunkIsPositive(side: nat, beta: real, factor: nat)
    requires beta > 0.0 && factor > 0
    ensures PositiveMultiple(Shrunk(side, beta, factor), factor)
  {
    hide FactorsIn;
    var k := FactorsIn(side as real / beta, factor);
    assert Multiple(factor, 1, factor);
    if k >= 1 {
      MulMono(1, k, factor);
      assert Multiple(Shrunk(side, beta, factor), k, factor);
    } else {
      MulMono(k, 0, factor);
    }
  }

  /** What the source needs of its arguments. */
  ghost predicate Sensible(height: nat, width: nat, factor: nat, minPixels: int, maxPixels: int) {
    height > 0 && width > 0 && factor > 0 && minPixels > 0 && maxPixels > 0
  }

  predicate Downscales(height: nat, width: nat, factor: nat, maxPixels: int)
    requires factor > 0
  {
    Nearest(height, factor) * Nearest(width, factor) > maxPixels
  }

  lemma ShrinkFactorSquared(m: Math, height: nat, width: nat, maxPixels: int, beta: real)
    requires m.Lawful() && height > 0 && width > 0 && maxPixels > 0 && beta == ShrinkFactor(m, height, width, maxPixels)
    ensures beta > 0.0 && beta * beta * maxPixels as real == height as real * width as real
  {
    var q := Area(height, width) / maxPixels as real;
    Quotient(Area(height, width), maxPixels as real, q);
  }

  /** The result is always a size, and both sides are positive multiples of the factor. */
  lemma SidesAreMultiples(m: Math, height: nat, width: nat, factor: nat, minPixels: int, maxPixels: int)
    requires m.Lawful() && Sensible(height, width, factor, minPixels, maxPixels)
    ensures var r := Resize(m, height, width, factor, minPixels, maxPixels);
            r.Size? && PositiveMultiple(r.height, factor) && PositiveMultiple(r.width, factor)
  {
    hide Nearest, Shrunk, Grown, PositiveMultiple, Area, ShrinkFactor, GrowFactor, Math.Lawful;
    MulMono(1, height, width);
    var h, w := Nearest(height, factor), Nearest(width, factor);
    if h * w > maxPixels {
      var beta := ShrinkFactor(m, height, width, maxPixels);
      ShrinkFactorSquared(m, height, width, maxPixels, beta);
      ShrunkIsPositive(height, beta, factor);
      ShrunkIsPositive(width, beta, factor);
    } else if h * w < minPixels {
      var beta := GrowFactor(m, height, width, minPixels);
      GrowFactorSquared(m, height, width, minPixels, beta);
      GrownIsPositive(height, beta, factor);
      GrownIsPositive(width, beta, factor);
    } else {
      NearestIsPositive(height, width, factor);
    }
  }

  // ---- the pixel budget ------------------------------------------------------

  /** Unless it has to shrink, the rule never returns fewer pixels than the minimum. */
  lemma MinimumIsMet(m: Math, height: nat, width: nat, factor: nat, minPixels: int, maxPixels: int)
    requires m.Lawful() && Sensible(height, width, factor, minPixels, maxPixels) &&
             !Downscales(height, width, factor, maxPixels)
    ensures var r := Resize(m, height, width, factor, minPixels, maxPixels);
            r.Size? && r.height * r.width >= minPixels
  {
    hide Nearest, Grown, PositiveMultiple, Area, GrowFactor, Stretched, Math.Lawful;
    MulMono(1, height, width);
    if Nearest(height, factor) * Nearest(width, factor) < minPixels {
      var beta := GrowFactor(m, height, width, minPixels);
      GrowFactorSquared(m, height, width, minPixels, beta);
      GrownIsPositive(height, beta, factor);
      GrownIsPositive(width, beta, factor);
      var h, w := Grown(height, beta, factor), Grown(width, beta, factor);
      ProductsCompare(Stretched(height, beta), Stretched(width, beta), h as real, w as real);
    }
  }

  lemma GrowFactorSquared(m: Math, height: nat, width: nat, minPixels: int, beta: real)
    requires m.Lawful() && height > 0 && width > 0 && minPixels > 0 && beta == GrowFactor(m, height, width, minPixels)
    ensures beta > 0.0 && Stretched(height, beta) * Stretched(width, beta) == minPixels as real
  {
    var area, pixels := Area(height, width), minPixels as real;
    var q := pixels / area;
    Quotient(pixels, area, q);
  }

  /** A side is held at the factor, rather than cut below it: a test without a square root. */
  predicate Held(side: nat, other: nat, factor: nat, maxPixels: int) {
    side * maxPixels < factor * factor * other
  }

  /** How many whole tiles of `factor` by `factor` the budget has room for. */
  function TileBudget(factor: nat, maxPixels: nat): nat
    requires factor > 0
  {
    var tile: nat := factor * factor;
    if tile == 0 then 0 else maxPixels / tile
  }

  /** The other side still fits into the budget although this one is held. */
  predicate FitsBeside(side: nat, held: nat, factor: nat, maxPixels: nat)
    requires factor > 0
  {
    var room := factor * (TileBudget(factor, maxPixels) + 1);
    side * maxPixels < held * (room * room)
  }

  /** A shrunk side is below a bound exactly as an integer comparison says. */
  lemma ShrunkBelow(side: nat, other: nat, beta: real, a: real, pixels: nat, bound: nat)
    requires side > 0 && other > 0 && beta > 0.0 && pixels > 0
    requires beta * beta * pixels as real == side as real * other as real && a * beta == side as real
    ensures a < bound as real <==> side * pixels < other * (bound * bound)
  {
    SquaresCompare(a, bound as real);
    var o, b2 := other as real, (bound * bound) as real;
    if a * a < b2 {
      TimesIsMonotone(o, a * a, b2);
    } else {
      TimesIsMonotone(o, b2, a * a);
    }
    assert o * (a * a) == a * a * o;
  }

  /** How many factors fit into a shrunk side. */
  lemma FactorsBelow(a: real, factor: nat, k: int, bound: int)
    requires factor > 0 && k == FactorsIn(a, factor)
    ensures k < bound <==> a < (factor * bound) as real
  {
    var x, f := a / factor as real, factor as real;
    assert x * f == a;
    if k < bound {
      assert x < bound as real;
      TimesIsMonotone(f, x, bound as real);
    } else {
      assert x >= bound as real;
      TimesIsMonotone(f, bound as real, x);
    }
  }

  /** One side of the downscale: how many factors it keeps, and the tests that decide it. */
  lemma SideTests(side: nat, other: nat, beta: real, factor: nat, pixels: nat, k: int)
    requires side > 0 && other > 0 && beta > 0.0 && pixels > 0 && factor > 0
    requires beta * beta * pixels as real == side as real * other as real
    requires k == FactorsIn(side as real / beta, factor)
    ensures k < 1 <==> Held(side, other, factor, pixels)
    ensures k <= TileBudget(factor, pixels) <==> FitsBeside(side, other, factor, pixels)
    ensures Shrunk(side, beta, factor) == if k < 1 then factor else k * factor
  {
    hide FactorsIn, TileBudget;
    var a := side as real / beta;
    Quotient(side as real, beta, a);
    FactorsBelow(a, factor, k, 1);
    ShrunkBelow(side, other, beta, a, pixels, factor);
    var n := TileBudget(factor, pixels);
    FactorsBelow(a, factor, k, n + 1);
    ShrunkBelow(side, other, beta, a, pixels, factor * (n + 1));
    if k < 1 {
      MulMono(k, 0, factor);
    } else {
      MulMono(1, k, factor);
    }
  }

  /** A side of `k` tiles is no longer than the side scaled down to the budget: a test without a root. */
  predicate Affords(k: nat, side: nat, other: nat, factor: nat, maxPixels: nat) {
    other * (k * factor * (k * factor)) <= side * maxPixels
  }

  /** The greatest number of tiles, from `k` on, that the scaled side has room for. */
  function MostTiles(side: nat, other: nat, factor: nat, maxPixels: nat, k: nat): nat
    decreases Max(side * maxPixels - k, 0)
  {
    if !Affords(k + 1, side, other, factor, maxPixels) || k >= side * maxPixels then k
    else MostTiles(side, other, factor, maxPixels, k + 1)
  }

  lemma TooManyTiles(side: nat, other: nat, factor: nat, maxPixels: nat, k: nat)
    requires other > 0 && factor > 0 && k > side * maxPixels
    ensures !Affords(k, side, other, factor, maxPixels)
  {
    MulMono(1, factor, k);
    var x: nat := k * factor;
    MulMono(1, x, x);
    MulMono(1, other, x * x);
  }

  lemma AffordsFewer(j: nat, k: nat, side: nat, other: nat, factor: nat, maxPixels: nat)
    requires j <= k && Affords(k, side, other, factor, maxPixels)
    ensures Affords(j, side, other, factor, maxPixels)
  {
    MulMono(j, k, factor);
    var x: nat, y: nat := j * factor, k * factor;
    SmallerSquare(x, y);
    MulMono(x * x, y * y, other);
  }

  lemma {:induction false} MostTilesIsMost(side: nat, other: nat, factor: nat, maxPixels: nat, from: nat)
    requires other > 0 && factor > 0 && Affords(from, side, other, factor, maxPixels)
    ensures var k := MostTiles(side, other, factor, maxPixels, from);
            && from <= k && Affords(k, side, other, factor, maxPixels)
            && forall j | j > k :: !Affords(j, side, other, factor, maxPixels)
    decreases Max(side * maxPixels - from, 0)
  {
    hide Affords;
    if from >= side * maxPixels {
      forall j | j > from ensures !Affords(j, side, other, factor, maxPixels) {
        TooManyTiles(side, other, factor, maxPixels, j);
      }
    } else if Affords(from + 1, side, other, factor, maxPixels) {
      MostTilesIsMost(side, other, factor, maxPixels, from + 1);
    } else {
      forall j | j > from ensures !Affords(j, side, other, factor, maxPixels) {
        if Affords(j, side, other, factor, maxPixels) {
          AffordsFewer(from + 1, j, side, other, factor, maxPixels);
        }
      }
    }
  }

  lemma KeepsAffordable(side: nat, other: nat, beta: real, factor: nat, pixels: nat, k: int, j: nat)
    requires side > 0 && other > 0 && beta > 0.0 && pixels > 0 && factor > 0
    requires beta * beta * pixels as real == side as real * other as real
    requires k == FactorsIn(side as real / beta, factor)
    ensures j <= k <==> Affords(j, side, other, factor, pixels)
  {
    hide FactorsIn;
    var a := side as real / beta;
    Quotient(side as real, beta, a);
    FactorsBelow(a, factor, k, j);
    ShrunkBelow(side, other, beta, a, pixels, factor * j);
  }

  /** A side scaled down to the budget keeps the greatest number of tiles it has room for, and one at least. */
  lemma ShrunkTiles(side: nat, other: nat, beta: real, factor: nat, pixels: nat)
    requires side > 0 && other > 0 && beta > 0.0 && pixels > 0 && factor > 0
    requires beta * beta * pixels as real == side as real * other as real
    ensures Shrunk(side, beta, factor) == Max(1, MostTiles(side, other, factor, pixels, 0)) * factor
  {
    hide FactorsIn, Affords, MostTiles;
    var k, n := FactorsIn(side as real / beta, factor), MostTiles(side, other, factor, pixels, 0);
    KeepsAffordable(side, other, beta, factor, pixels, k, 0);
    assert Affords(0, side, other, factor, pixels) by { NoTilesAreFree(side, other, factor, pixels); }
    MostTilesIsMost(side, other, factor, pixels, 0);
    KeepsAffordable(side, other, beta, factor, pixels, k, n);
    if k > n {
      KeepsAffordable(side, other, beta, factor, pixels, k, k);
      assert false;
    }
    AtLeastOne(k, factor);
  }

  lemma NoTilesAreFree(side: nat, other: nat, factor: nat, pixels: nat)
    ensures Affords(0, side, other, factor, pixels)
  {
    MulMono(0, side, pixels);
  }

  lemma AtLeastOne(k: int, factor: nat)
    ensures Max(factor, k * factor) == Max(1, k) * factor
  {
    if k < 1 {
      MulMono(k, 0, factor);
    } else {
      MulMono(1, k, factor);
    }
  }

  lemma TilesWithinBudget(k: nat, factor: nat, pixels: nat)
    requires factor > 0
    ensures k * factor * factor <= pixels <==> k <= TileBudget(factor, pixels)
  {
    var tile: nat := factor * factor;
    MulMono(1, factor, factor);
    var n := TileBudget(factor, pixels);
    DivParts(pixels, tile);
    assert k * factor * factor == k * tile;
    if k <= n {
      MulMono(k, n, tile);
    } else {
      MulMono(n + 1, k, tile);
      assert (n + 1) * tile == n * tile + tile;
    }
  }

  lemma KeptSide(k: int, factor: nat, a: real)
    requires factor > 0 && k >= 1 && k == FactorsIn(a, factor)
    ensures 0.0 <= (k * factor) as real <= a
  {
    var x, f := a / factor as real, factor as real;
    assert x * f == a && k as real <= x;
    TimesIsMonotone(f, k as real, x);
    MulMono(1, k, factor);
  }

  lemma BothKept(k: int, l: int, factor: nat, a: real, b: real, pixels: nat)
    requires factor > 0 && k >= 1 && l >= 1 && k == FactorsIn(a, factor) && l == FactorsIn(b, factor)
    requires a * b == pixels as real
    ensures (k * factor) * (l * factor) <= pixels
  {
    hide FactorsIn;
    var x, y := k * factor, l * factor;
    KeptSide(k, factor, a);
    KeptSide(l, factor, b);
    ProductsCompare(x as real, y as real, a, b);
  }

  lemma ShrunkArea(height: real, width: real, beta: real, a: real, b: real, pixels: real)
    requires beta > 0.0 && a * beta == height && b * beta == width && beta * beta * pixels == height * width
    ensures a * b == pixels
  {
    var q := beta * beta;
    PositiveAs(beta, beta, q);
  }

  predicate DownscaleFits(height: nat, width: nat, factor: nat, maxPixels: nat)
    requires factor > 0
  {
    if Held(height, width, factor, maxPixels) then
      !Held(width, height, factor, maxPixels) && FitsBeside(width, height, factor, maxPixels)
    else Held(width, height, factor, maxPixels) ==> FitsBeside(height, width, factor, maxPixels)
  }

  /** The downscale branch respects the maximum exactly when neither side is held at the factor, or
      one is and the other leaves it room. Where both are held it never does. */
  lemma DownscaleRespectsMaximum(m: Math, height: nat, width: nat, factor: nat, minPixels: int, maxPixels: int)
    requires m.Lawful() && Sensible(height, width, factor, minPixels, maxPixels) &&
             Downscales(height, width, factor, maxPixels)
    ensures var r := Resize(m, height, width, factor, minPixels, maxPixels);
            r.Size? && (r.height * r.width <= maxPixels <==> DownscaleFits(height, width, factor, maxPixels))
  {
    hide Nearest, Shrunk, Held, FitsBeside, TileBudget, FactorsIn, Area, Math.Lawful;
    hide ShrinkFactor;
    var beta := ShrinkFactor(m, height, width, maxPixels);
    ShrinkFactorSquared(m, height, width, maxPixels, beta);
    var k, l := FactorsIn(height as real / beta, factor), FactorsIn(width as real / beta, factor);
    SideTests(height, width, beta, factor, maxPixels, k);
    SideTests(width, height, beta, factor, maxPixels, l);
    var a, b := height as real / beta, width as real / beta;
    Quotient(height as real, beta, a);
    Quotient(width as real, beta, b);
    ShrunkArea(height as real, width as real, beta, a, b, maxPixels as real);
    if k < 1 && l < 1 {
      BothHeld(a, b, factor, maxPixels);
    } else if k < 1 {
      TilesWithinBudget(l, factor, maxPixels);
      assert factor * (l * factor) == l * factor * factor;
    } else if l < 1 {
      TilesWithinBudget(k, factor, maxPixels);
    } else {
      BothKept(k, l, factor, a, b, maxPixels);
    }
  }

  lemma BothHeld(a: real, b: real, factor: nat, pixels: nat)
    requires factor > 0 && a >= 0.0 && b >= 0.0 && a * b == pixels as real
    requires FactorsIn(a, factor) < 1 && FactorsIn(b, factor) < 1
    ensures factor * factor > pixels
  {
    hide FactorsIn;
    FactorsBelow(a, factor, FactorsIn(a, factor), 1);
    FactorsBelow(b, factor, FactorsIn(b, factor), 1);
    var f := factor as real;
    assert a < f && b < f;
    TimesIsMonotone(a, b, f);
    TimesIsMonotone(f, a, f);
    assert a * b <= a * f && f * a < f * f;
  }

  /** `k` tiles cover a side scaled up to the minimum: a test without a square root. */
  predicate Reaches(k: nat, side: nat, other: nat, factor: nat, minPixels: nat) {
    side * minPixels <= other * (k * factor * (k * factor))
  }

  /** The least number of tiles, from `k` on, that covers the scaled side; `side * minPixels` always do. */
  function LeastTiles(side: nat, other: nat, factor: nat, minPixels: nat, k: nat): nat
    decreases Max(side * minPixels - k, 0)
  {
    if Reaches(k, side, other, factor, minPixels) || k >= side * minPixels then k
    else LeastTiles(side, other, factor, minPixels, k + 1)
  }

  lemma EnoughTiles(side: nat, other: nat, factor: nat, minPixels: nat, k: nat)
    requires other > 0 && factor > 0 && k >= side * minPixels
    ensures Reaches(k, side, other, factor, minPixels)
  {
    MulMono(1, factor, k);
    var x: nat := k * factor;
    if k > 0 {
      MulMono(1, x, x);
      MulMono(1, other, x * x);
    }
  }

  lemma {:induction false} LeastTilesIsLeast(side: nat, other: nat, factor: nat, minPixels: nat, from: nat)
    requires other > 0 && factor > 0
    ensures var k := LeastTiles(side, other, factor, minPixels, from);
            && from <= k && Reaches(k, side, other, factor, minPixels)
            && forall j | from <= j < k :: !Reaches(j, side, other, factor, minPixels)
    decreases Max(side * minPixels - from, 0)
  {
    if from >= side * minPixels {
      EnoughTiles(side, other, factor, minPixels, from);
    } else if !Reaches(from, side, other, factor, minPixels) {
      LeastTilesIsLeast(side, other, factor, minPixels, from + 1);
    }
  }

  /** The least whole numbers of tiles that cover the scaled picture stay within the maximum. */
  predicate UpscaleFits(height: nat, width: nat, factor: nat, minPixels: nat, maxPixels: int) {
    var k, l := LeastTiles(height, width, factor, minPixels, 0), LeastTiles(width, height, factor, minPixels, 0);
    k * factor * (l * factor) <= maxPixels
  }

  lemma LeastFactors(y: real, factor: nat, k: nat)
    requires factor > 0
    ensures k >= FactorsAround(y, factor) <==> (k * factor) as real >= y
  {
    var x, f := y / factor as real, factor as real;
    Quotient(y, f, x);
    if k as real >= x {
      TimesIsMonotone(f, x, k as real);
    } else {
      TimesIsMonotone(f, k as real, x);
      assert f * k as real != f * x by { ProductIsPositive(f, x - k as real); }
    }
  }

  /** `a` and `b` are the two scaled sides. */
  lemma ReachesScaled(k: nat, side: nat, other: nat, beta: real, a: real, b: real, factor: nat, pixels: nat)
    requires side > 0 && other > 0 && beta > 0.0 && factor > 0 && a > 0.0
    requires a == side as real * beta && b == other as real * beta && a * b == pixels as real
    ensures (k * factor) as real >= a <==> Reaches(k, side, other, factor, pixels)
  {
    var x, o, s := (k * factor) as real, other as real, side as real;
    var n: nat := k * factor * (k * factor);
    assert n as real == x * x;
    assert o * (a * a) == s * pixels as real by {
      assert o * a == s * b;
      assert o * (a * a) == (o * a) * a == (s * b) * a == s * (a * b);
    }
    SquaresCompare(x, a);
    if x * x < a * a {
      ProductIsPositive(o, a * a - x * x);
    } else {
      TimesIsMonotone(o, a * a, x * x);
    }
    assert (other * n) as real == o * (x * x);
    assert (side * pixels) as real == s * pixels as real;
  }

  /** One scaled side takes the least number of tiles that covers it. */
  lemma ScaledTiles(side: nat, other: nat, beta: real, a: real, b: real, factor: nat, pixels: nat)
    requires side > 0 && other > 0 && beta > 0.0 && factor > 0 && a > 0.0
    requires a == side as real * beta && b == other as real * beta && a * b == pixels as real
    ensures FactorsAround(a, factor) == LeastTiles(side, other, factor, pixels, 0)
  {
    hide FactorsAround, Reaches, LeastTiles;
    var k, l := FactorsAround(a, factor), LeastTiles(side, other, factor, pixels, 0);
    FactorsAroundCover(a, factor, k);
    LeastTilesIsLeast(side, other, factor, pixels, 0);
    ReachesScaled(k, side, other, beta, a, b, factor, pixels);
    ReachesScaled(l, side, other, beta, a, b, factor, pixels);
    LeastFactors(a, factor, l);
  }

  /** The upscale branch gives the least such numbers of tiles, found without a root, so it respects the
      maximum exactly when they do. */
  lemma UpscaleRespectsMaximum(m: Math, height: nat, width: nat, factor: nat, minPixels: int, maxPixels: int)
    requires m.Lawful() && Sensible(height, width, factor, minPixels, maxPixels) &&
             !Downscales(height, width, factor, maxPixels)
    requires Nearest(height, factor) * Nearest(width, factor) < minPixels
    ensures var r := Resize(m, height, width, factor, minPixels, maxPixels);
            && r == Size(LeastTiles(height, width, factor, minPixels, 0) * factor,
                         LeastTiles(width, height, factor, minPixels, 0) * factor)
            && (r.height * r.width <= maxPixels <==> UpscaleFits(height, width, factor, minPixels, maxPixels))
  {
    hide Nearest, PositiveMultiple, Area, GrowFactor, Math.Lawful, Reaches, FactorsAround, LeastTiles;
    MulMono(1, height, width);
    var beta := GrowFactor(m, height, width, minPixels);
    GrowFactorSquared(m, height, width, minPixels, beta);
    var a, b := Stretched(height, beta), Stretched(width, beta);
    StretchedIsPositive(height, beta);
    StretchedIsPositive(width, beta);
    ScaledTiles(height, width, beta, a, b, factor, minPixels);
    ScaledTiles(width, height, beta, b, a, factor, minPixels);
  }

  /** When the result stays within the maximum, over all three branches, by tests without a root. */
  predicate FitsMaximum(height: nat, width: nat, factor: nat, minPixels: nat, maxPixels: nat)
    requires factor > 0
  {
    if Downscales(height, width, factor, maxPixels) then DownscaleFits(height, width, factor, maxPixels)
    else Nearest(height, factor) * Nearest(width, factor) < minPixels ==>
           UpscaleFits(height, width, factor, minPixels, maxPixels)
  }

  lemma MaximumIsRespectedIff(m: Math, height: nat, width: nat, factor: nat, minPixels: int, maxPixels: int)
    requires m.Lawful() && Sensible(height, width, factor, minPixels, maxPixels)
    ensures var r := Resize(m, height, width, factor, minPixels, maxPixels);
            r.Size? && (r.height * r.width <= maxPixels <==> FitsMaximum(height, width, factor, minPixels, maxPixels))
  {
    hide Nearest, Math.Lawful, DownscaleFits, UpscaleFits, Shrunk, Grown, ShrinkFactor, GrowFactor;
    if Downscales(height, width, factor, maxPixels) {
      DownscaleRespectsMaximum(m, height, width, factor, minPixels, maxPixels);
    } else if Nearest(height, factor) * Nearest(width, factor) < minPixels {
      UpscaleRespectsMaximum(m, height, width, factor, minPixels, maxPixels);
    }
  }

  /** Side by side, in whole numbers: a picture that is too large keeps the most tiles each scaled side has
      room for, one that is too small takes the fewest that cover each scaled side, and any other gets the
      closest multiples. */
  lemma EachSideIsExact(m: Math, height: nat, width: nat, factor: nat, minPixels: int, maxPixels: int)
    requires m.Lawful() && Sensible(height, width, factor, minPixels, maxPixels)
    ensures var r := Resize(m, height, width, factor, minPixels, maxPixels);
            r.Size? && SidesAre(r.height, r.width, height, width, factor, minPixels, maxPixels)
  {
    hide Nearest, Shrunk, Grown, Area, ShrinkFactor, GrowFactor, Math.Lawful, Closest, LeastTiles, MostTiles;
    NearestIsClosest(height, factor);
    NearestIsClosest(width, factor);
    if Downscales(height, width, factor, maxPixels) {
      var beta := ShrinkFactor(m, height, width, maxPixels);
      ShrinkFactorSquared(m, height, width, maxPixels, beta);
      ShrunkTiles(height, width, beta, factor, maxPixels);
      ShrunkTiles(width, height, beta, factor, maxPixels);
    } else if Nearest(height, factor) * Nearest(width, factor) < minPixels {
      UpscaleRespectsMaximum(m, height, width, factor, minPixels, maxPixels);
    }
  }

  ghost predicate SidesAre(h: int, w: int, height: nat, width: nat, factor: nat, minPixels: nat, maxPixels: nat)
    requires factor > 0
  {
    if Downscales(height, width, factor, maxPixels) then
      && h == Max(1, MostTiles(height, width, factor, maxPixels, 0)) * factor
      && w == Max(1, MostTiles(width, height, factor, maxPixels, 0)) * factor
    else if Nearest(height, factor) * Nearest(width, factor) < minPixels then
      && h == LeastTiles(height, width, factor, minPixels, 0) * factor
      && w == LeastTiles(width, height, factor, minPixels, 0) * factor
    else Closest(h, height, factor) && Closest(w, width, factor)
  }

  /** The rule as the source runs it, reassigning the two sides. */
  method Run(m: Math, height: nat, width: nat, factor: nat, minPixels: int, maxPixels: int) returns (out: Outcome)
    ensures out == Resize(m, height, width, factor, minPixels, maxPixels)
    ensures m.Lawful() && Sensible(height, width, factor, minPixels, maxPixels) ==>
              && out.Size? && PositiveMultiple(out.height, factor) && PositiveMultiple(out.width, factor)
              && (!Downscales(height, width, factor, maxPixels) ==> minPixels <= out.height * out.width)
              && (out.height * out.width <= maxPixels <==> FitsMaximum(height, width, factor, minPixels, maxPixels))
              && SidesAre(out.height, out.width, height, width, factor, minPixels, maxPixels)
  {
    hide Nearest, Shrunk, Grown, ShrinkFactor, GrowFactor, Math.Lawful, FitsMaximum, PositiveMultiple, SidesAre;
    if m.Lawful() && Sensible(height, width, factor, minPixels, maxPixels) {
      SidesAreMultiples(m, height, width, factor, minPixels, maxPixels);
      if !Downscales(height, width, factor, maxPixels) {
        MinimumIsMet(m, height, width, factor, minPixels, maxPixels);
      }
      MaximumIsRespectedIff(m, height, width, factor, minPixels, maxPixels);
      EachSideIsExact(m, height, width, factor, minPixels, maxPixels);
    }
    if factor == 0 {
      return Raised;
    }
    var hBar, wBar := Nearest(height, factor), Nearest(width, factor);
    if hBar * wBar > maxPixels {
      if maxPixels <= 0 {
        return Raised;
      }
      var beta := ShrinkFactor(m, height, width, maxPixels);
      if beta <= 0.0 {
        return Raised;
      }
      hBar := Shrunk(height, beta, factor);
      wBar := Shrunk(width, beta, factor);
    } else if hBar * wBar < minPixels {
      if height * width == 0 {
        return Raised;
      }
      var beta := GrowFactor(m, height, width, minPixels);
      hBar := Grown(height, beta, factor);
      wBar := Grown(width, beta, factor);
    }
    return Size(hBar, wBar);
  }

  /** A strip 17 pixels high and 4000 wide, at factor 32, has its height held at 32 and its width left
      at a size that overshoots a budget of 65536 pixels. */
  lemma HeldSideOvershoots(m: Math, minPixels: int)
    requires m.Lawful() && minPixels > 0
    ensures var r := Resize(m, 17, 4000, 32, minPixels, 65536);
            r.Size? && r.height * r.width > 65536
  {
    assert Nearest(17, 32) == 32 && Nearest(4000, 32) == 4000;
    assert Held(17, 4000, 32, 65536) && !FitsBeside(4000, 17, 32, 65536);
    DownscaleRespectsMaximum(m, 17, 4000, 32, minPixels, 65536);
  }

  lemma SmallerSquare(x: nat, y: nat)
    ensures x <= y ==> x * x <= y * y
  {
    if x <= y {
      MulMono(x, y, x);
      MulMono(x, y, y);
    }
  }

  /** A strip 1 pixel high and 2000 wide, at factor 32, is scaled up to 32 by 2528 pixels, which
      overshoots a budget of 65536 pixels although only 3136 were asked for. */
  lemma RaisedStripOvershoots(m: Math)
    requires m.Lawful()
    ensures var r := Resize(m, 1, 2000, 32, 3136, 65536);
            r.Size? && r.height * r.width > 65536
  {
    assert Nearest(1, 32) == 0;
    UpscaleRespectsMaximum(m, 1, 2000, 32, 3136, 65536);
    LeastTilesIsLeast(1, 2000, 32, 3136, 0);
    LeastTilesIsLeast(2000, 1, 32, 3136, 0);
    var k, l := LeastTiles(1, 2000, 32, 3136, 0), LeastTiles(2000, 1, 32, 3136, 0);
    hide LeastTiles;
    SmallerSquare(l * 32, 2496);
    MulMono(1, k, 32);
    MulMono(32, k * 32, l * 32);
  }
}
