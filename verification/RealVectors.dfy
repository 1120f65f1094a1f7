/** Vectors and matrices over exact reals. A matrix is a sequence of rows. */
module RealVectors {
  import opened RealArith

  type Vec = seq<real>
  type Matrix = seq<Vec>

  function Zeros(w: nat): (r: Vec)
    ensures |r| == w && forall j | 0 <= j < w :: r[j] == 0.0
  {
    seq(w, j => 0.0)
  }

  function Plus(a: Vec, b: Vec): (r: Vec)
    requires |a| == |b|
    ensures |r| == |a| && forall j | 0 <= j < |a| :: r[j] == a[j] + b[j]
  {
    seq(|a|, j requires 0 <= j < |a| => a[j] + b[j])
  }

  function Minus(a: Vec, b: Vec): (r: Vec)
    requires |a| == |b|
    ensures |r| == |a| && forall j | 0 <= j < |a| :: r[j] == a[j] - b[j]
  {
    seq(|a|, j requires 0 <= j < |a| => a[j] - b[j])
  }

  function Scale(c: real, a: Vec): (r: Vec)
    ensures |r| == |a| && forall j | 0 <= j < |a| :: r[j] == c * a[j]
  {
    seq(|a|, j requires 0 <= j < |a| => c * a[j])
  }

  function Dot(a: Vec, b: Vec): real
    requires |a| == |b|
  {
    if a == [] then 0.0 else Dot(a[..|a| - 1], b[..|a| - 1]) + a[|a| - 1] * b[|a| - 1]
  }

  function Norm2(a: Vec): real {
    Dot(a, a)
  }

  ghost predicate Shape(m: Matrix, rows: nat, columns: nat) {
    |m| == rows && forall i | 0 <= i < rows :: |m[i]| == columns
  }

  // ---- vector identities -----------------------------------------------------

  lemma ScalePrefix(c: real, a: Vec, n: nat)
    requires n <= |a|
    ensures Scale(c, a)[..n] == Scale(c, a[..n])
  {
    forall j | 0 <= j < n ensures Scale(c, a)[j] == Scale(c, a[..n])[j] {
      Congruent(c, a[j], a[..n][j]);
    }
  }

  lemma ScaleOfPlus(c: real, a: Vec, b: Vec)
    requires |a| == |b|
    ensures Scale(c, Plus(a, b)) == Plus(Scale(c, a), Scale(c, b))
  {
    forall j | 0 <= j < |a| ensures Scale(c, Plus(a, b))[j] == c * a[j] + c * b[j] {
      Distribute(c, a[j], b[j], Plus(a, b)[j]);
    }
  }

  lemma ScaleOfScale(c: real, d: real, e: real, a: Vec)
    requires e == c * d
    ensures Scale(c, Scale(d, a)) == Scale(e, a)
  {
    forall j | 0 <= j < |a| ensures Scale(c, Scale(d, a))[j] == Scale(e, a)[j] {
      Congruent(a[j], c * d, e);
    }
  }

  lemma ScaleBySum(c: real, d: real, e: real, a: Vec)
    requires e == c + d
    ensures Scale(e, a) == Plus(Scale(c, a), Scale(d, a))
  {
    forall j | 0 <= j < |a| ensures Scale(e, a)[j] == c * a[j] + d * a[j] {
      Distribute(a[j], c, d, e);
    }
  }

  lemma ScaleZeros(c: real, w: nat)
    ensures Scale(c, Zeros(w)) == Zeros(w) == Plus(Zeros(w), Zeros(w))
  {
  }

  // ---- linear combinations of rows -------------------------------------------

  /** `c` transposed times `m`: the rows of `m`, weighted by `c` and summed. */
  function Combine(c: Vec, m: Matrix, w: nat): (r: Vec)
    requires Shape(m, |c|, w)
    ensures |r| == w
  {
    if c == [] then Zeros(w)
    else
      var n := |c| - 1;
      Plus(Combine(c[..n], m[..n], w), Scale(c[n], m[n]))
  }

  lemma UnfoldCombine(c: Vec, m: Matrix, w: nat, n: nat)
    requires |c| == n + 1 && Shape(m, n + 1, w)
    ensures Shape(m[..n], n, w) && Combine(c, m, w) == Plus(Combine(c[..n], m[..n], w), Scale(c[n], m[n]))
  {
  }

  lemma {:induction false} CombineOfPlus(c: Vec, d: Vec, m: Matrix, w: nat)
    requires |c| == |d| && Shape(m, |c|, w)
    ensures Combine(Plus(c, d), m, w) == Plus(Combine(c, m, w), Combine(d, m, w))
  {
    if c == [] {
      ScaleZeros(0.0, w);
    } else {
      var n := |c| - 1;
      CombineOfPlus(c[..n], d[..n], m[..n], w);
      assert Plus(c, d)[..n] == Plus(c[..n], d[..n]);
      ScaleBySum(c[n], d[n], Plus(c, d)[n], m[n]);
    }
  }

  lemma {:induction false} CombineOfScale(s: real, c: Vec, m: Matrix, w: nat)
    requires Shape(m, |c|, w)
    ensures Combine(Scale(s, c), m, w) == Scale(s, Combine(c, m, w))
  {
    if c == [] {
      ScaleZeros(s, w);
    } else {
      var n := |c| - 1;
      CombineOfScale(s, c[..n], m[..n], w);
      ScalePrefix(s, c, n);
      ScaleOfScale(s, c[n], Scale(s, c)[n], m[n]);
      ScaleOfPlus(s, Combine(c[..n], m[..n], w), Scale(c[n], m[n]));
    }
  }

  /** `a` times `m`. */
  function Product(a: Matrix, m: Matrix, w: nat): (r: Matrix)
    requires Shape(a, |a|, |m|) && Shape(m, |m|, w)
    ensures Shape(r, |a|, w) && forall i | 0 <= i < |a| :: r[i] == Combine(a[i], m, w)
  {
    seq(|a|, i requires 0 <= i < |a| => Combine(a[i], m, w))
  }

  function Sum(a: Matrix, b: Matrix, w: nat): (r: Matrix)
    requires Shape(a, |a|, w) && Shape(b, |a|, w)
    ensures Shape(r, |a|, w) && forall i | 0 <= i < |a| :: r[i] == Plus(a[i], b[i])
  {
    seq(|a|, i requires 0 <= i < |a| => Plus(a[i], b[i]))
  }

  function Difference(a: Matrix, b: Matrix, w: nat): (r: Matrix)
    requires Shape(a, |a|, w) && Shape(b, |a|, w)
    ensures Shape(r, |a|, w) && forall i | 0 <= i < |a| :: r[i] == Minus(a[i], b[i])
  {
    seq(|a|, i requires 0 <= i < |a| => Minus(a[i], b[i]))
  }

  function Scaled(d: real, m: Matrix): (r: Matrix)
    ensures |r| == |m| && forall i | 0 <= i < |m| :: r[i] == Scale(d, m[i])
  {
    seq(|m|, i requires 0 <= i < |m| => Scale(d, m[i]))
  }

  lemma {:induction false} CombineOfScaled(c: Vec, d: real, m: Matrix, w: nat)
    requires Shape(m, |c|, w)
    ensures Combine(c, Scaled(d, m), w) == Scale(d, Combine(c, m, w))
  {
    if c == [] {
      ScaleZeros(d, w);
    } else {
      var n := |c| - 1;
      CombineOfScaled(c[..n], d, m[..n], w);
      assert Scaled(d, m)[..n] == Scaled(d, m[..n]);
      ScaleOfScale(c[n], d, c[n] * d, m[n]);
      ScaleOfScale(d, c[n], c[n] * d, m[n]);
      ScaleOfPlus(d, Combine(c[..n], m[..n], w), Scale(c[n], m[n]));
    }
  }

  lemma {:induction false} CombineOfSum(c: Vec, a: Matrix, b: Matrix, w: nat)
    requires Shape(a, |c|, w) && Shape(b, |c|, w)
    ensures Combine(c, Sum(a, b, w), w) == Plus(Combine(c, a, w), Combine(c, b, w))
  {
    if c == [] {
      ScaleZeros(0.0, w);
    } else {
      var n := |c| - 1;
      CombineOfSum(c[..n], a[..n], b[..n], w);
      assert Sum(a, b, w)[..n] == Sum(a[..n], b[..n], w);
      ScaleOfPlus(c[n], a[n], b[n]);
    }
  }

  /** Weighting the rows of a product is weighting the rows of its left factor. */
  lemma {:induction false} CombineOfProduct(c: Vec, a: Matrix, m: Matrix, w: nat)
    requires Shape(a, |c|, |m|) && Shape(m, |m|, w)
    ensures Combine(c, Product(a, m, w), w) == Combine(Combine(c, a, |m|), m, w)
  {
    if c == [] {
      CombineOfZeros(m, w);
    } else {
      var n := |c| - 1;
      CombineOfProduct(c[..n], a[..n], m, w);
      assert Product(a, m, w)[..n] == Product(a[..n], m, w);
      CombineOfPlus(Combine(c[..n], a[..n], |m|), Scale(c[n], a[n]), m, w);
      CombineOfScale(c[n], a[n], m, w);
    }
  }

  lemma {:induction false} CombineOfZeros(m: Matrix, w: nat)
    requires Shape(m, |m|, w)
    ensures Combine(Zeros(|m|), m, w) == Zeros(w)
  {
    if m != [] {
      var n := |m| - 1;
      CombineOfZeros(m[..n], w);
      assert Zeros(|m|)[..n] == Zeros(n);
      ScaleZeros(0.0, w);
    }
  }

  function Unit(n: nat, i: nat): (r: Vec)
    requires i < n
    ensures |r| == n && forall j | 0 <= j < n :: r[j] == if j == i then 1.0 else 0.0
  {
    seq(n, j => if j == i then 1.0 else 0.0)
  }

  lemma {:induction false} CombineOfUnit(m: Matrix, i: nat, w: nat)
    requires Shape(m, |m|, w) && i < |m|
    ensures Combine(Unit(|m|, i), m, w) == m[i]
  {
    var n := |m| - 1;
    if i == n {
      assert Unit(|m|, i)[..n] == Zeros(n);
      CombineOfZeros(m[..n], w);
    } else {
      assert Unit(|m|, i)[..n] == Unit(n, i);
      CombineOfUnit(m[..n], i, w);
    }
  }

  /** Matrix multiplication is associative. */
  lemma ProductIsAssociative(a: Matrix, b: Matrix, m: Matrix, w: nat)
    requires Shape(a, |a|, |b|) && Shape(b, |b|, |m|) && Shape(m, |m|, w)
    ensures Product(a, Product(b, m, w), w) == Product(Product(a, b, |m|), m, w)
  {
    forall i | 0 <= i < |a|
      ensures Product(a, Product(b, m, w), w)[i] == Product(Product(a, b, |m|), m, w)[i]
    {
      CombineOfProduct(a[i], b, m, w);
    }
  }

  lemma ProductOfSum(a: Matrix, b: Matrix, c: Matrix, w: nat)
    requires Shape(a, |a|, |b|) && Shape(b, |b|, w) && Shape(c, |b|, w)
    ensures Product(a, Sum(b, c, w), w) == Sum(Product(a, b, w), Product(a, c, w), w)
  {
    forall i | 0 <= i < |a|
      ensures Product(a, Sum(b, c, w), w)[i] == Sum(Product(a, b, w), Product(a, c, w), w)[i]
    {
      CombineOfSum(a[i], b, c, w);
    }
  }

  lemma SumIsAssociative(a: Matrix, b: Matrix, c: Matrix, w: nat)
    requires Shape(a, |a|, w) && Shape(b, |a|, w) && Shape(c, |a|, w)
    ensures Sum(Sum(a, b, w), c, w) == Sum(a, Sum(b, c, w), w)
  {
    forall i | 0 <= i < |a| ensures Sum(Sum(a, b, w), c, w)[i] == Sum(a, Sum(b, c, w), w)[i] {
      assert Plus(Plus(a[i], b[i]), c[i]) == Plus(a[i], Plus(b[i], c[i]));
    }
  }

  // ---- inner products --------------------------------------------------------

  lemma {:induction false} DotOfPlus(a: Vec, b: Vec, c: Vec)
    requires |a| == |b| == |c|
    ensures Dot(Plus(a, b), c) == Dot(a, c) + Dot(b, c)
  {
    if a != [] {
      var n := |a| - 1;
      DotOfPlus(a[..n], b[..n], c[..n]);
      assert Plus(a, b)[..n] == Plus(a[..n], b[..n]);
      Distribute(c[n], a[n], b[n], Plus(a, b)[n]);
    }
  }

  lemma {:induction false} DotOfScale(s: real, a: Vec, c: Vec)
    requires |a| == |c|
    ensures Dot(Scale(s, a), c) == s * Dot(a, c)
  {
    if a != [] {
      var n := |a| - 1;
      DotOfScale(s, a[..n], c[..n]);
      ScalePrefix(s, a, n);
      Distribute(s, Dot(a[..n], c[..n]), a[n] * c[n], Dot(a, c));
    }
  }

  lemma DotOfPlusScale(a: Vec, s: real, b: Vec, c: Vec)
    requires |a| == |b| == |c|
    ensures Dot(Plus(a, Scale(s, b)), c) == Dot(a, c) + s * Dot(b, c)
  {
    hide Dot, Plus, Scale;
    DotOfPlus(a, Scale(s, b), c);
    DotOfScale(s, b, c);
  }

  lemma {:induction false} DotIsSymmetric(a: Vec, b: Vec)
    requires |a| == |b|
    ensures Dot(a, b) == Dot(b, a)
  {
    if a != [] {
      DotIsSymmetric(a[..|a| - 1], b[..|a| - 1]);
    }
  }

  lemma {:induction false} Norm2IsNonNegative(a: Vec)
    ensures Norm2(a) >= 0.0
  {
    if a != [] {
      Norm2IsNonNegative(a[..|a| - 1]);
      assert a[|a| - 1] * a[|a| - 1] >= 0.0;
    }
  }

  lemma Norm2OfScale(s: real, a: Vec)
    ensures Norm2(Scale(s, a)) == (s * s) * Norm2(a)
  {
    DotOfScale(s, a, Scale(s, a));
    DotIsSymmetric(a, Scale(s, a));
    DotOfScale(s, a, a);
  }

  /** The squared Frobenius norm. */
  function FrobeniusSquared(m: Matrix): real {
    if m == [] then 0.0 else FrobeniusSquared(m[..|m| - 1]) + Norm2(m[|m| - 1])
  }

  lemma {:induction false} FrobeniusIsNonNegative(m: Matrix)
    ensures FrobeniusSquared(m) >= 0.0
  {
    if m != [] {
      FrobeniusIsNonNegative(m[..|m| - 1]);
      Norm2IsNonNegative(m[|m| - 1]);
    }
  }
}
