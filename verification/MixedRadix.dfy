/** Four-digit numbers whose three lower digits run below `n1`, `n2` and `n3`. */
module MixedRadix {
  import opened Arith

  datatype Digits = Digits(a: nat, b: nat, c: nat, d: nat)

  function Join(x: Digits, n1: nat, n2: nat, n3: nat): nat {
    ((x.a * n1 + x.b) * n2 + x.c) * n3 + x.d
  }

  /** The digits by division, from the lowest up. */
  function Split(i: nat, n1: nat, n2: nat, n3: nat): Digits
    requires n1 > 0 && n2 > 0 && n3 > 0
  {
    Digits(Quotient(i, n3 * n2 * n1), Quotient(i, n3 * n2) % n1, i / n3 % n2, i % n3)
  }

  /** Division that needs no proof that the divisor is positive. */
  function Quotient(i: nat, d: nat): nat {
    if d == 0 then 0 else i / d
  }

  predicate Below(x: Digits, n1: nat, n2: nat, n3: nat) {
    x.b < n1 && x.c < n2 && x.d < n3
  }

  lemma DivDiv(x: nat, c: nat, d: nat)
    requires c > 0 && d > 0
    ensures d * c > 0 && Quotient(x, d * c) == x / d / c
  {
    MulMono(1, c, d);
    var y := x / d;
    DivParts(x, d);
    DivParts(y, c);
    Flat(y % c, c, x % d, d);
    assert y / c * (d * c) == y / c * c * d by {
      MulAssoc(y / c, c, d);
    }
    assert y * d == y / c * c * d + y % c * d;
    DivMod(y / c, d * c, y % c * d + x % d);
  }

  /** The same digits, one division at a time. */
  function SplitStepwise(i: nat, n1: nat, n2: nat, n3: nat): Digits
    requires n1 > 0 && n2 > 0 && n3 > 0
  {
    var y: nat := i / n3;
    var z: nat := y / n2;
    Digits(z / n1, z % n1, y % n2, i % n3)
  }

  lemma SplitBySteps(i: nat, n1: nat, n2: nat, n3: nat)
    requires n1 > 0 && n2 > 0 && n3 > 0
    ensures Split(i, n1, n2, n3) == SplitStepwise(i, n1, n2, n3)
  {
    DivDiv(i, n2, n3);
    DivDiv(i, n1, n3 * n2);
  }

  /** The digits of a joined number are the digits it was joined from. */
  lemma SplitOfJoin(x: Digits, n1: nat, n2: nat, n3: nat)
    requires Below(x, n1, n2, n3)
    ensures Split(Join(x, n1, n2, n3), n1, n2, n3) == x
  {
    var z: nat := x.a * n1 + x.b;
    var y: nat := z * n2 + x.c;
    var i: nat := y * n3 + x.d;
    assert Join(x, n1, n2, n3) == i;
    hide Split, Join;
    SplitBySteps(i, n1, n2, n3);
    DivMod(y, n3, x.d);
    DivMod(z, n2, x.c);
    DivMod(x.a, n1, x.b);
  }

  /** A number is the join of its digits. */
  lemma JoinOfSplit(i: nat, n1: nat, n2: nat, n3: nat)
    requires n1 > 0 && n2 > 0 && n3 > 0
    ensures Below(Split(i, n1, n2, n3), n1, n2, n3) && Join(Split(i, n1, n2, n3), n1, n2, n3) == i
  {
    SplitBySteps(i, n1, n2, n3);
    hide Split;
    DivParts(i, n3);
    DivParts(i / n3, n2);
    DivParts(i / n3 / n2, n1);
  }

  /** The top digit stays below `n0` exactly as long as the number stays below the product. */
  lemma TopDigit(x: Digits, n0: nat, n1: nat, n2: nat, n3: nat)
    requires Below(x, n1, n2, n3)
    ensures x.a < n0 <==> Join(x, n1, n2, n3) < n0 * n1 * n2 * n3
  {
    var y := x.a * n1 + x.b;
    var z := y * n2 + x.c;
    if x.a < n0 {
      Flat(x.a, n0, x.b, n1);
      Flat(y, n0 * n1, x.c, n2);
      Flat(z, n0 * n1 * n2, x.d, n3);
    } else {
      MulMono(n0, x.a, n1);
      MulMono(n0 * n1, y, n2);
      MulMono(n0 * n1 * n2, z, n3);
    }
  }
}
