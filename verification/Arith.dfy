/**
 Integer facts shared by the arithmetic modules: powers, Euclidean division and
 congruence modulo a positive number.
 */
module Arith {

  function Abs(x: int): nat {
    if x < 0 then -x else x
  }

  ghost predicate Divides(k: int, a: int) {
    exists q: int :: a == q * k
  }

  function Pow(b: int, e: nat): int {
    if e == 0 then 1 else b * Pow(b, e - 1)
  }

  lemma MulInterchange(a: int, b: int, c: int, d: int)
    ensures (a * b) * (c * d) == (a * c) * (b * d)
  {
    calc {
      (a * b) * (c * d);
      a * (b * (c * d));
      a * (c * (b * d));
      (a * c) * (b * d);
    }
  }

  lemma {:induction false} PowAdd(b: int, x: nat, y: nat)
    ensures Pow(b, x + y) == Pow(b, x) * Pow(b, y)
  {
    if x > 0 {
      PowAdd(b, x - 1, y);
      calc {
        Pow(b, x + y);
        b * Pow(b, x - 1 + y);
        b * (Pow(b, x - 1) * Pow(b, y));
        (b * Pow(b, x - 1)) * Pow(b, y);
      }
    }
  }

  lemma {:induction false} PowMul(b: int, x: nat, y: nat)
    ensures x * y >= 0
    ensures Pow(b, x * y) == Pow(Pow(b, x), y)
  {
    if y == 0 {
      assert x * y == 0;
    } else {
      PowMul(b, x, y - 1);
      assert x * y == x + x * (y - 1);
      PowAdd(b, x, x * (y - 1));
    }
  }

  lemma {:induction false} PowProduct(a: int, b: int, e: nat)
    ensures Pow(a * b, e) == Pow(a, e) * Pow(b, e)
  {
    if e > 0 {
      PowProduct(a, b, e - 1);
      MulInterchange(a, b, Pow(a, e - 1), Pow(b, e - 1));
    }
  }

  lemma {:induction false} PowOne(e: nat)
    ensures Pow(1, e) == 1
  {
    if e > 0 { PowOne(e - 1); }
  }

  lemma {:induction false} PowPositive(b: int, e: nat)
    requires b > 0
    ensures Pow(b, e) > 0
  {
    if e > 0 {
      PowPositive(b, e - 1);
      MulPositive(b, Pow(b, e - 1));
    }
  }

  lemma MulPositive(a: int, b: int)
    requires a > 0 && b > 0
    ensures a * b > 0
  {
  }

  lemma MulMonotone(a: int, b: int, c: int)
    requires a <= b && c >= 0
    ensures a * c <= b * c
  {
    assert (b - a) * c >= 0;
  }

  lemma MulBounds(a: int, b: int, ma: int, mb: int)
    requires 0 <= a <= ma && 0 <= b <= mb
    ensures 0 <= a * b <= ma * mb
  {
    MulMonotone(a, ma, b);
    MulMonotone(b, mb, ma);
  }

  /** Quotient and remainder are determined by the division equation. */
  lemma DivModUnique(a: int, q: int, r: int, m: int)
    requires 0 <= r < m && a == q * m + r
    ensures a / m == q && a % m == r
  {
    var d := q - a / m;
    assert a == m * (a / m) + a % m;
    assert d * m == a % m - r;
    if d >= 1 { MulMonotone(1, d, m); }
    if d <= -1 { MulMonotone(d, -1, m); }
  }

  lemma DivBounds(a: int, m: int)
    requires m > 0
    ensures a == (a / m) * m + a % m
    ensures 0 <= a % m < m
    ensures a >= 0 ==> 0 <= a / m <= a
  {
    if a >= 0 && a / m < 0 { MulMonotone(a / m, -1, m); }
    if a >= 0 && a / m > a {
      MulMonotone(a + 1, a / m, m);
      MulMonotone(1, m, a + 1);
    }
  }

  /** a and b leave the same remainder modulo m. */
  ghost predicate Cong(a: int, b: int, m: int)
    requires m > 0
  {
    a % m == b % m
  }

  lemma CongByMultiple(a: int, b: int, k: int, m: int)
    requires m > 0 && a == b + k * m
    ensures Cong(a, b, m)
  {
    DivBounds(b, m);
    assert a == (b / m + k) * m + b % m;
    DivModUnique(a, b / m + k, b % m, m);
  }

  /** The multiple of m by which two congruent numbers differ. */
  lemma CongMultiple(a: int, b: int, m: int) returns (k: int)
    requires m > 0 && Cong(a, b, m)
    ensures a == b + k * m
  {
    DivBounds(a, m);
    DivBounds(b, m);
    k := a / m - b / m;
    assert a - b == (a / m) * m - (b / m) * m;
  }

  lemma CongMod(a: int, m: int)
    requires m > 0
    ensures Cong(a % m, a, m)
  {
    DivBounds(a, m);
    CongByMultiple(a, a % m, a / m, m);
  }

  lemma CongAdd(a: int, a': int, b: int, b': int, m: int)
    requires m > 0 && Cong(a, a', m) && Cong(b, b', m)
    ensures Cong(a + b, a' + b', m)
    ensures Cong(a - b, a' - b', m)
  {
    var k := CongMultiple(a, a', m);
    var l := CongMultiple(b, b', m);
    assert (k + l) * m == k * m + l * m;
    assert (k - l) * m == k * m - l * m;
    CongByMultiple(a + b, a' + b', k + l, m);
    CongByMultiple(a - b, a' - b', k - l, m);
  }

  lemma CongMul(a: int, a': int, b: int, b': int, m: int)
    requires m > 0 && Cong(a, a', m) && Cong(b, b', m)
    ensures Cong(a * b, a' * b', m)
  {
    var k := CongMultiple(a, a', m);
    var l := CongMultiple(b, b', m);
    var j := k * b' + a' * l + k * l * m;
    assert a * b == a' * b' + j * m by {
      calc {
        a * b;
        (a' + k * m) * (b' + l * m);
        a' * b' + a' * (l * m) + (k * m) * b' + (k * m) * (l * m);
        a' * b' + (a' * l) * m + (k * b') * m + (k * l * m) * m;
        a' * b' + j * m;
      }
    }
    CongByMultiple(a * b, a' * b', j, m);
  }

  lemma {:induction false} CongPow(a: int, b: int, e: nat, m: int)
    requires m > 0 && Cong(a, b, m)
    ensures Cong(Pow(a, e), Pow(b, e), m)
  {
    if e > 0 {
      CongPow(a, b, e - 1, m);
      CongMul(a, b, Pow(a, e - 1), Pow(b, e - 1), m);
    }
  }

  lemma ModSmall(a: int, m: int)
    requires 0 <= a < m
    ensures a % m == a && a / m == 0
  {
    DivModUnique(a, 0, a, m);
  }

  /** The remainder of C++: it takes the sign of the dividend. */
  function TruncRem(a: int, m: int): int
    requires m > 0
  {
    if a >= 0 then a % m else -((-a) % m)
  }

  /** Bringing a negative C++ remainder back by adding m once gives the residue. */
  lemma TruncRemResidue(a: int, m: int)
    requires m > 0
    ensures -m < TruncRem(a, m) < m
    ensures (if TruncRem(a, m) < 0 then TruncRem(a, m) + m else TruncRem(a, m)) == a % m
  {
    if a < 0 {
      DivBounds(-a, m);
      var q, r := (-a) / m, (-a) % m;
      if r == 0 {
        assert a == (-q) * m + 0;
        DivModUnique(a, -q, 0, m);
      } else {
        assert a == (-q - 1) * m + (m - r);
        DivModUnique(a, -q - 1, m - r, m);
      }
    }
  }
}
