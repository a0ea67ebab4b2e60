/**
 Greatest common divisors, canonical fractions and the rational number a fraction stands for.
 */
module Rationals {
  import opened Arith

  function GcdOf(a: nat, b: nat): nat
    decreases b
  {
    if b == 0 then a else GcdOf(b, a % b)
  }

  lemma DividesLinear(k: int, a: int, b: int, x: int, y: int)
    requires Divides(k, a) && Divides(k, b)
    ensures Divides(k, a * x + b * y)
  {
    var p: int :| a == p * k;
    var q: int :| b == q * k;
    assert a * x + b * y == (p * x + q * y) * k by {
      assert (p * k) * x == (p * x) * k;
      assert (q * k) * y == (q * y) * k;
    }
  }

  lemma BackStep(a: int, b: int, q: int, r: int, x: int, y: int)
    requires a == q * b + r
    ensures b * x + r * y == a * y + b * (x - q * y)
  {
    assert (a - q * b) * y == a * y - b * (q * y);
    assert b * (x - q * y) == b * x - b * (q * y);
  }

  /** The gcd divides both numbers and is a combination of them. */
  lemma {:induction false} GcdSpec(a: nat, b: nat) returns (x: int, y: int)
    ensures GcdOf(a, b) == a * x + b * y
    ensures Divides(GcdOf(a, b), a) && Divides(GcdOf(a, b), b)
    ensures a > 0 || b > 0 ==> GcdOf(a, b) > 0
    decreases b
  {
    if b == 0 {
      x, y := 1, 0;
      assert a == 1 * a && 0 == 0 * a;
    } else {
      DivBounds(a, b);
      var q, r := a / b, a % b;
      var x', y' := GcdSpec(b, r);
      x, y := y', x' - q * y';
      BackStep(a, b, q, r, x', y');
      DividesLinear(GcdOf(b, r), b, r, q, 1);
      assert b * q + r * 1 == a;
    }
  }

  /** Every common divisor divides the gcd. */
  lemma {:induction false} GcdGreatest(a: nat, b: nat, k: int)
    requires Divides(k, a) && Divides(k, b)
    ensures Divides(k, GcdOf(a, b))
  {
    var x, y := GcdSpec(a, b);
    DividesLinear(k, a, b, x, y);
  }

  /** The lowest terms: a numerator that is not negative, the sign below, zero as 0/1. */
  predicate Canonical(n: int, d: int) {
    n >= 0 && d != 0 && GcdOf(n, Abs(d)) == 1 && (n == 0 ==> d == 1)
  }

  /** If a and d have gcd 1 and d divides a * b, then d divides b. */
  lemma {:induction false} Gauss(a: nat, d: nat, b: int)
    requires GcdOf(a, d) == 1 && Divides(d, a * b)
    ensures Divides(d, b)
  {
    var x, y := GcdSpec(a, d);
    assert Divides(d, d) by { assert d == 1 * d; }
    DividesLinear(d, a * b, d, x, b * y);
    assert (a * b) * x + d * (b * y) == b * (a * x + d * y) == b;
  }

  lemma DividesBoth(a: int, b: int)
    requires a > 0 && b > 0 && Divides(a, b) && Divides(b, a)
    ensures a == b
  {
    var p: int :| b == p * a;
    var q: int :| a == q * b;
    if p <= 0 { MulMonotone(p, 0, a); }
    if q <= 0 { MulMonotone(q, 0, b); }
    MulMonotone(1, p, a);
    MulMonotone(1, q, b);
  }

  /** Two fractions in lowest terms that cross-multiply to the same product are the same. */
  lemma {:induction false} CrossEqual(n1: int, d1: int, n2: int, d2: int)
    requires Canonical(n1, d1) && Canonical(n2, d2) && n1 * d2 == n2 * d1
    ensures n1 == n2 && d1 == d2
  {
    if n1 == 0 {
      assert n2 == 0;
    } else if n2 != 0 {
      SameSign(n1, d1, n2, d2);
      var a1, a2 := Abs(d1), Abs(d2);
      assert n1 * a2 == n2 * a1;
      assert Divides(a1, n1 * a2);
      Gauss(n1, a1, a2);
      assert Divides(a2, n2 * a1);
      Gauss(n2, a2, a1);
      DividesBoth(a1, a2);
      assert (n1 - n2) * a1 == 0;
      if n1 > n2 { MulPositive(n1 - n2, a1); }
      if n1 < n2 { MulPositive(n2 - n1, a1); }
    }
  }

  lemma SameSign(n1: int, d1: int, n2: int, d2: int)
    requires n1 > 0 && n2 > 0 && d1 != 0 && d2 != 0 && n1 * d2 == n2 * d1
    ensures d1 > 0 <==> d2 > 0
    ensures n1 * Abs(d2) == n2 * Abs(d1)
  {
    if d1 > 0 { MulPositive(n2, d1); } else { MulPositive(n2, -d1); }
    if d2 > 0 { MulPositive(n1, d2); } else { MulPositive(n1, -d2); }
  }

  /** Dividing both terms by their gcd leaves gcd 1. */
  lemma {:induction false} Reduced(n: nat, d: int)
    requires n > 0 && d != 0
    ensures var g := GcdOf(n, Abs(d));
            && g > 0 && n == (n / g) * g && d == (d / g) * g && n / g > 0 && d / g != 0
            && Canonical(n / g, d / g)
  {
    var g := GcdOf(n, Abs(d));
    var x, y := GcdSpec(n, Abs(d));
    var p: int :| n == p * g;
    var q: int :| Abs(d) == q * g;
    PositiveQuotient(n, p, g);
    PositiveQuotient(Abs(d), q, g);
    var q' := if d < 0 then -q else q;
    assert d == q' * g + 0 by { assert (-q) * g == -(q * g); }
    DivModUnique(n, p, 0, g);
    DivModUnique(d, q', 0, g);
    CoprimeQuotients(p, q, g, x, y);
    GcdOne(p, q, x, y);
  }

  lemma PositiveQuotient(n: int, p: int, g: int)
    requires n > 0 && g > 0 && n == p * g
    ensures p > 0
  {
    if p <= 0 { MulMonotone(p, 0, g); }
  }

  lemma CoprimeQuotients(p: int, q: int, g: int, x: int, y: int)
    requires g > 0 && (p * g) * x + (q * g) * y == g
    ensures p * x + q * y == 1
  {
    var w := p * x + q * y - 1;
    assert w * g == (p * g) * x + (q * g) * y - g by {
      assert (p * x) * g == (p * g) * x;
      assert (q * y) * g == (q * g) * y;
    }
    if w > 0 { MulPositive(w, g); }
    if w < 0 { MulPositive(-w, g); }
  }

  lemma {:induction false} GcdOne(a: nat, b: nat, x: int, y: int)
    requires a * x + b * y == 1
    ensures GcdOf(a, b) == 1
  {
    var g := GcdOf(a, b);
    assert a > 0 || b > 0;
    var u, v := GcdSpec(a, b);
    DividesLinear(g, a, b, x, y);
    assert Divides(1, g) by { assert g == g * 1; }
    DividesBoth(g, 1);
  }

  // ----- values -----

  ghost function Value(n: int, d: int): real
    requires d != 0
  {
    n as real / d as real
  }

  lemma ValueTimes(n: int, d: int)
    requires d != 0
    ensures Value(n, d) * d as real == n as real
  {
  }

  lemma NoZeroDivisor(a: real, b: real)
    requires a * b == 0.0 && b != 0.0
    ensures a == 0.0
  {
  }

  lemma SignOfProduct(a: real, b: real)
    requires b > 0.0
    ensures a > 0.0 <==> a * b > 0.0
    ensures a < 0.0 <==> a * b < 0.0
  {
  }

  /** The quotient is the one number that times d gives n. */
  lemma ValueIs(n: int, d: int, v: real)
    requires d != 0 && v * d as real == n as real
    ensures v == Value(n, d)
  {
    ValueTimes(n, d);
    var w := v - Value(n, d);
    assert w * d as real == 0.0;
    NoZeroDivisor(w, d as real);
  }

  lemma ProductAsReal(a: int, b: int)
    ensures (a * b) as real == a as real * b as real
  {
  }

  lemma ValueScaled(n: int, d: int, k: int)
    requires d != 0 && k != 0
    ensures d * k != 0 && Value(n * k, d * k) == Value(n, d)
  {
    var v := Value(n, d);
    ValueTimes(n, d);
    ProductAsReal(n, k);
    ProductAsReal(d, k);
    if d * k == 0 { NonZeroProduct(d, k); }
    assert v * (d as real * k as real) == (v * d as real) * k as real;
    ValueIs(n * k, d * k, v);
  }

  lemma NonZeroProduct(a: int, b: int)
    requires a != 0 && b != 0
    ensures a * b != 0
  {
    MulPositive(Abs(a), Abs(b));
  }

  lemma ValueSum(n1: int, d1: int, n2: int, d2: int)
    requires d1 != 0 && d2 != 0
    ensures d1 * d2 != 0
    ensures Value(n1 * d2 + d1 * n2, d1 * d2) == Value(n1, d1) + Value(n2, d2)
    ensures Value(n1 * d2 - d1 * n2, d1 * d2) == Value(n1, d1) - Value(n2, d2)
  {
    NonZeroProduct(d1, d2);
    ValueScaled(n1, d1, d2);
    ValueScaled(n2, d2, d1);
    assert n2 * d1 == d1 * n2 && d2 * d1 == d1 * d2;
    SameDenominator(n1 * d2, d1 * n2, d1 * d2);
  }

  lemma SameDenominator(a: int, b: int, d: int)
    requires d != 0
    ensures Value(a + b, d) == Value(a, d) + Value(b, d)
    ensures Value(a - b, d) == Value(a, d) - Value(b, d)
  {
    ValueTimes(a, d);
    ValueTimes(b, d);
    ValueIs(a + b, d, Value(a, d) + Value(b, d));
    ValueIs(a - b, d, Value(a, d) - Value(b, d));
  }

  lemma ValueProduct(n1: int, d1: int, n2: int, d2: int)
    requires d1 != 0 && d2 != 0
    ensures d1 * d2 != 0
    ensures Value(n1 * n2, d1 * d2) == Value(n1, d1) * Value(n2, d2)
  {
    NonZeroProduct(d1, d2);
    ValueTimes(n1, d1);
    ValueTimes(n2, d2);
    ProductAsReal(n1, n2);
    ProductAsReal(d1, d2);
    var a, b, x, y := Value(n1, d1), Value(n2, d2), d1 as real, d2 as real;
    assert (a * b) * (x * y) == (a * x) * (b * y);
    ValueIs(n1 * n2, d1 * d2, a * b);
  }

  lemma ValueQuotient(n1: int, d1: int, n2: int, d2: int)
    requires d1 != 0 && d2 != 0 && n2 != 0
    ensures d1 * n2 != 0 && Value(n2, d2) != 0.0
    ensures Value(n1 * d2, d1 * n2) == Value(n1, d1) / Value(n2, d2)
  {
    ValueProduct(n1, d1, d2, n2);
    ValueTimes(n2, d2);
    ValueTimes(d2, n2);
    OneOver(Value(n2, d2), Value(d2, n2), n2 as real, d2 as real);
    Reciprocal(Value(n1, d1), Value(n2, d2), Value(d2, n2));
  }

  lemma OneOver(b: real, c: real, x: real, y: real)
    requires x != 0.0 && y != 0.0 && b * y == x && c * x == y
    ensures b * c == 1.0
  {
    assert (b * c) * x == b * y;
    assert (b * c - 1.0) * x == 0.0;
    NoZeroDivisor(b * c - 1.0, x);
  }

  lemma Reciprocal(a: real, b: real, c: real)
    requires b * c == 1.0
    ensures b != 0.0 && a * c == a / b
  {
  }

  /** The sign of a fraction in lowest terms is the sign of its denominator. */
  lemma ValueSign(n: int, d: int)
    requires n >= 0 && d != 0
    ensures d < 0 && n > 0 ==> Value(n, d) < 0.0
    ensures d > 0 && n > 0 ==> Value(n, d) > 0.0
    ensures n == 0 <==> Value(n, d) == 0.0
  {
    ValueTimes(n, d);
    var v := Value(n, d);
    if d > 0 {
      SignOfProduct(v, d as real);
    } else {
      assert v * (-d) as real == -(v * d as real);
      SignOfProduct(v, (-d) as real);
    }
  }

  /** Equal fields and equal numbers are the same thing for fractions in lowest terms. */
  lemma {:induction false} UniqueForm(n1: int, d1: int, n2: int, d2: int)
    requires Canonical(n1, d1) && Canonical(n2, d2)
    ensures n1 == n2 && d1 == d2 <==> Value(n1, d1) == Value(n2, d2)
  {
    if Value(n1, d1) == Value(n2, d2) {
      ValueSum(n1, d1, n2, d2);
      ValueTimes(n1 * d2 - d1 * n2, d1 * d2);
      assert d1 * n2 == n2 * d1;
      CrossEqual(n1, d1, n2, d2);
    }
  }

  /** What the comparison computes from two fractions of the same sign. */
  lemma CompareProducts(n1: int, d1: int, n2: int, d2: int)
    requires n1 >= 0 && n2 >= 0 && d1 != 0 && d2 != 0 && (d1 < 0 <==> d2 < 0)
    ensures d1 > 0 ==> (n1 * Abs(d2) < n2 * Abs(d1) <==> Value(n1, d1) < Value(n2, d2))
    ensures d1 < 0 ==> (n1 * Abs(d2) < n2 * Abs(d1) <==> Value(n1, d1) > Value(n2, d2))
  {
    var s := if d1 > 0 then 1 else -1;
    ValueSum(n1, d1, n2, d2);
    var diff := n1 * d2 - d1 * n2;
    assert d1 * d2 > 0 by { if d1 > 0 { MulPositive(d1, d2); } else { MulPositive(-d1, -d2); } }
    DifferenceSign(diff, d1 * d2);
    assert n2 * d1 == d1 * n2;
    assert n1 * Abs(d2) - n2 * Abs(d1) == if d1 > 0 then diff else -diff;
  }

  lemma DifferenceSign(n: int, d: int)
    requires d > 0
    ensures n < 0 <==> Value(n, d) < 0.0
    ensures n > 0 <==> Value(n, d) > 0.0
  {
    ValueTimes(n, d);
    SignOfProduct(Value(n, d), d as real);
  }
}
