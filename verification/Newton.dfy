/**
 Powers of real numbers, and Newton's iteration for roots: every iterate lies above the root,
 and how far the last one can be from it.
 */
module Newton {

  ghost function RPow(x: real, n: nat): real {
    if n == 0 then 1.0 else x * RPow(x, n - 1)
  }

  /** The laws that make it the power. */
  lemma {:induction false} RPowLaws(x: real, m: nat, n: nat)
    ensures RPow(x, 0) == 1.0 && RPow(x, 1) == x
    ensures RPow(x, m + n) == RPow(x, m) * RPow(x, n)
  {
    assert RPow(x, 1) == x * RPow(x, 0);
    if m > 0 {
      RPowLaws(x, m - 1, n);
      var a, b := RPow(x, m - 1), RPow(x, n);
      assert x * (a * b) == (x * a) * b;
      assert RPow(x, m + n) == x * RPow(x, m - 1 + n);
    }
  }

  lemma {:induction false} RPowPositive(x: real, n: nat)
    requires x > 0.0
    ensures RPow(x, n) > 0.0
  {
    if n > 0 { RPowPositive(x, n - 1); }
  }

  lemma {:induction false} RPowProduct(x: real, y: real, z: real, n: nat)
    requires z == x * y
    ensures RPow(z, n) == RPow(x, n) * RPow(y, n)
  {
    if n > 0 {
      RPowProduct(x, y, z, n - 1);
      var a, b := RPow(x, n - 1), RPow(y, n - 1);
      assert (x * y) * (a * b) == (x * a) * (y * b);
      SameFactor(a * b, z, x * y);
    }
  }

  lemma {:induction false} RPowMonotone(x: real, y: real, n: nat)
    requires 0.0 < x <= y
    ensures 0.0 < RPow(x, n) <= RPow(y, n)
  {
    if n > 0 {
      RPowMonotone(x, y, n - 1);
      Times(x, y, RPow(x, n - 1), RPow(y, n - 1));
    }
  }

  lemma Times(a: real, b: real, c: real, d: real)
    requires 0.0 < a <= b && 0.0 < c <= d
    ensures 0.0 < a * c <= b * d
  {
    assert a * c <= b * c <= b * d;
  }

  lemma {:induction false} RPowZero(g: real, n: nat)
    requires n >= 1
    ensures g == 0.0 ==> RPow(g, n) == 0.0
  {
  }

  /** Squaring the base halves the exponent. */
  lemma {:induction false} RPowSquare(x: real, n: nat)
    ensures RPow(x * x, n) == RPow(x, 2 * n)
  {
    if n > 0 {
      RPowSquare(x, n - 1);
      var a := RPow(x, 2 * n - 2);
      assert RPow(x, 2 * n - 1) == x * a && RPow(x, 2 * n) == x * RPow(x, 2 * n - 1);
      assert (x * x) * a == x * (x * a);
    }
  }

  lemma {:induction false} RPowEven(x: real, n: nat)
    requires n % 2 == 0
    ensures RPow(-x, n) == RPow(x, n)
  {
    var h, y := n / 2, -x;
    RPowSquare(x, h);
    RPowSquare(y, h);
    assert 2 * h == n && y * y == x * x;
    assert RPow(y * y, h) == RPow(x * x, h);
    assert RPow(y, 2 * h) == RPow(y, n);
  }

  lemma NotNegative(a: real, b: real)
    requires a >= 0.0 && b >= 0.0
    ensures a * b >= 0.0
  {
  }

  /** Bernoulli's inequality. */
  lemma {:induction false} Bernoulli(t: real, n: nat)
    requires t >= -1.0
    ensures RPow(1.0 + t, n) >= 1.0 + n as real * t
  {
    if n > 0 {
      Bernoulli(t, n - 1);
      var k, p := (n - 1) as real, RPow(1.0 + t, n - 1);
      BernoulliStep(t, k, p);
    }
  }

  lemma BernoulliStep(t: real, k: real, p: real)
    requires t >= -1.0 && k >= 0.0 && p >= 1.0 + k * t
    ensures (1.0 + t) * p >= 1.0 + (k + 1.0) * t
  {
    NotNegative(1.0 + t, p - (1.0 + k * t));
    assert (1.0 + t) * (p - (1.0 + k * t)) == (1.0 + t) * p - (1.0 + t) * (1.0 + k * t);
    assert (1.0 + t) * (1.0 + k * t) == 1.0 + (k + 1.0) * t + k * (t * t);
    assert t * t >= 0.0;
  }

  /** A power lies above each of its tangents. */
  lemma {:induction false} Tangent(r: real, g: real, n: nat)
    requires r > 0.0 && g > 0.0 && n >= 1
    ensures RPow(g, n) >= RPow(r, n) + n as real * RPow(r, n - 1) * (g - r)
  {
    var t := g / r - 1.0;
    assert g / r > 0.0 && r * (1.0 + t) == g;
    TangentAt(r, g, t, n);
  }

  lemma {:induction false} TangentAt(r: real, g: real, t: real, n: nat)
    requires r > 0.0 && n >= 1 && t >= -1.0 && r * (1.0 + t) == g
    ensures RPow(g, n) >= RPow(r, n) + n as real * RPow(r, n - 1) * (g - r)
  {
    var s, q, k, p := RPow(r, n), RPow(1.0 + t, n), n as real, RPow(r, n - 1);
    RPowPositive(r, n);
    RPowProduct(r, 1.0 + t, g, n);
    Bernoulli(t, n);
    TangentReal(RPow(g, n), s, q, k, p, r, t, g - r);
  }

  lemma TangentReal(gn: real, s: real, q: real, k: real, p: real, r: real, t: real, h: real)
    requires gn == s * q && s == r * p && r * t == h && s > 0.0 && q >= 1.0 + k * t
    ensures gn >= s + k * p * h
  {
    var y, z := s * (k * t), k * p * h;
    TangentStep(s, t, k, q, gn, y);
    Regroup(s, r, p, k, t, h);
    assert y == z;
  }

  lemma TangentStep(s: real, t: real, k: real, q: real, x: real, y: real)
    requires s > 0.0 && q >= 1.0 + k * t && x == s * q && y == s * (k * t)
    ensures x >= s + y
  {
    var w := s * (q - (1.0 + k * t));
    NotNegative(s, q - (1.0 + k * t));
    assert w == x - s - y;
  }

  lemma Regroup(s: real, r: real, p: real, k: real, t: real, h: real)
    requires s == r * p && r * t == h
    ensures s * (k * t) == k * p * h
  {
    assert s * (k * t) == (k * p) * (r * t);
    SameFactor(k * p, r * t, h);
  }

  lemma SameFactor(a: real, b: real, c: real)
    requires b == c
    ensures a * b == a * c
  {
  }

  // ----- Newton's iteration for the n-th root of x -----

  ghost function NewtonStep(x: real, g: real, n: nat): real
    requires n >= 1 && RPow(g, n - 1) != 0.0
  {
    ((n - 1) as real * g + x / RPow(g, n - 1)) / n as real
  }

  /** What the iteration computes, without the divisions. */
  lemma {:induction false} StepEquation(x: real, g: real, n: nat)
    requires n >= 1 && RPow(g, n - 1) != 0.0
    ensures n as real * (g - NewtonStep(x, g, n)) * RPow(g, n - 1) == RPow(g, n) - x
  {
    var p, k, q := RPow(g, n - 1), n as real, x / RPow(g, n - 1);
    var r := NewtonStep(x, g, n);
    assert q * p == x;
    assert k * r == (k - 1.0) * g + q;
    assert k * (g - r) == g - q;
    assert (g - q) * p == g * p - q * p;
  }

  /** Every iterate lies at or above the root. */
  lemma {:induction false} NewtonAbove(x: real, g: real, n: nat)
    requires x > 0.0 && g > 0.0 && n >= 1
    ensures RPow(g, n - 1) > 0.0
    ensures NewtonStep(x, g, n) > 0.0 && RPow(NewtonStep(x, g, n), n) >= x
  {
    RPowPositive(g, n - 1);
    var p, k, r := RPow(g, n - 1), n as real, NewtonStep(x, g, n);
    Positive(x, g, p, k);
    Tangent(g, r, n);
    StepEquation(x, g, n);
    assert k * p * (r - g) == -(k * (g - r) * p);
  }

  lemma Positive(x: real, g: real, p: real, k: real)
    requires x > 0.0 && g > 0.0 && p > 0.0 && k >= 1.0
    ensures ((k - 1.0) * g + x / p) / k > 0.0
  {
    assert x / p > 0.0;
    assert (k - 1.0) * g >= 0.0;
  }

  /** Above the root the iteration does not climb. */
  lemma {:induction false} NewtonDescends(x: real, g: real, n: nat)
    requires x > 0.0 && g > 0.0 && n >= 1 && RPow(g, n) >= x && RPow(g, n - 1) != 0.0
    ensures NewtonStep(x, g, n) <= g
  {
    RPowPositive(g, n - 1);
    StepEquation(x, g, n);
    NotBelow(n as real, g - NewtonStep(x, g, n), RPow(g, n - 1));
  }

  lemma NotBelow(k: real, h: real, p: real)
    requires k > 0.0 && p > 0.0 && k * h * p >= 0.0
    ensures h >= 0.0
  {
    if h < 0.0 { NegativeProduct(k, h, p); }
  }

  lemma NegativeProduct(k: real, h: real, p: real)
    requires k > 0.0 && p > 0.0 && h < 0.0
    ensures k * h * p < 0.0
  {
    assert k * h < 0.0;
  }

  /** How far the power of an iterate can lie above x, by the iterate before it. */
  lemma {:induction false} NewtonError(x: real, g: real, n: nat)
    requires x > 0.0 && g > 0.0 && n >= 1 && RPow(g, n - 1) != 0.0
    ensures var r := NewtonStep(x, g, n);
            RPow(r, n) - x <= n as real * (r - g) * (RPow(r, n - 1) - RPow(g, n - 1))
  {
    NewtonAbove(x, g, n);
    var r, k := NewtonStep(x, g, n), n as real;
    Tangent(r, g, n);
    StepEquation(x, g, n);
    var p, q := RPow(g, n - 1), RPow(r, n - 1);
    assert k * (r - g) * (q - p) == k * (g - r) * p - k * q * (g - r);
  }

  /** The error in terms of the last step alone. */
  lemma {:induction false} NewtonBound(x: real, g: real, n: nat, eps: real)
    requires x > 0.0 && g > 0.0 && n >= 1 && RPow(g, n - 1) != 0.0
    requires -eps <= NewtonStep(x, g, n) - g <= eps
    ensures var r := NewtonStep(x, g, n);
            x <= RPow(r, n) <= x + n as real * (eps * RPow(r + eps, n - 1))
  {
    NewtonAbove(x, g, n);
    NewtonError(x, g, n);
    var r := NewtonStep(x, g, n);
    RPowMonotone(g, r + eps, n - 1);
    RPowMonotone(r, r + eps, n - 1);
    var p, q, m, k := RPow(g, n - 1), RPow(r, n - 1), RPow(r + eps, n - 1), n as real;
    StepBound(r - g, q - p, eps, m);
    assert k * (r - g) * (q - p) == k * ((r - g) * (q - p)) <= k * (eps * m);
  }

  lemma StepBound(a: real, b: real, eps: real, m: real)
    requires -eps <= a <= eps && -m <= b <= m
    ensures a * b <= eps * m
  {
    if a >= 0.0 {
      assert a * b <= a * m <= eps * m;
    } else {
      assert a * b == (-a) * (-b) <= (-a) * m <= eps * m;
    }
  }

  /** For square roots the error is exactly the square of the last step. */
  lemma {:induction false} NewtonSquare(x: real, g: real)
    requires g != 0.0 && RPow(g, 1) != 0.0
    ensures var r := NewtonStep(x, g, 2); RPow(r, 2) == x + (r - g) * (r - g)
  {
    StepEquation(x, g, 2);
    var r := NewtonStep(x, g, 2);
    assert RPow(g, 1) == g && RPow(g, 2) == g * g && RPow(r, 2) == r * r by {
      assert RPow(g, 0) == 1.0 && RPow(r, 1) == r * RPow(r, 0);
    }
    assert 2.0 * (g - r) * g == g * g - x;
  }

  /** An odd root of a negative number: the iteration mirrors that of the positive one. */
  lemma {:induction false} NewtonMirror(x: real, g: real, n: nat)
    requires n % 2 == 1 && RPow(g, n - 1) != 0.0
    ensures RPow(-g, n - 1) != 0.0 && NewtonStep(-x, -g, n) == -NewtonStep(x, g, n)
  {
    RPowEven(g, n - 1);
    var k, p := n as real, RPow(g, n - 1);
    assert (-x) / p == -(x / p);
    assert (k - 1.0) * (-g) == -((k - 1.0) * g);
    assert (-((k - 1.0) * g + x / p)) / k == -(((k - 1.0) * g + x / p) / k);
  }

  // ----- even roots of negative numbers -----

  /** From the guess g the iteration goes on, and by more than eps. */
  ghost predicate Moves(x: real, g: real, n: nat, eps: real)
    requires n >= 1
  {
    RPow(g, n - 1) != 0.0 && var r := NewtonStep(x, g, n); r - g > eps || g - r > eps
  }

  /** The largest magnitude whose even root can be met with a tolerance of eps. */
  ghost function Reach(n: nat, eps: real): real
    requires n >= 1
  {
    RPow((n - 1) as real, n - 1) * RPow(eps, n)
  }

  lemma {:induction false} ReachScaled(n: nat, eps: real, t: real)
    requires n >= 1 && t == (n - 1) as real * eps
    ensures RPow(t, n) == (n - 1) as real * Reach(n, eps)
  {
    RPowProduct((n - 1) as real, eps, t, n);
    var k, p, e := (n - 1) as real, RPow((n - 1) as real, n - 1), RPow(eps, n);
    assert (k * p) * e == k * (p * e);
  }

  /** y^n - n*eps*y^(n-1) is at least -Reach: the tangent at y, taken at (n-1)*eps. */
  lemma {:induction false} AboveReach(y: real, n: nat, eps: real)
    requires y > 0.0 && n >= 2 && eps >= 0.0
    ensures RPow(y, n) + Reach(n, eps) >= n as real * eps * RPow(y, n - 1)
  {
    RPowPositive(y, n - 1);
    var k, t := (n - 1) as real, (n - 1) as real * eps;
    ReachScaled(n, eps, t);
    if eps == 0.0 {
      assert t == 0.0 && RPow(t, n) == 0.0;
      Cancel(k, Reach(n, eps));
    } else {
      assert t > 0.0;
      Tangent(y, t, n);
      Untangled(RPow(t, n), RPow(y, n), RPow(y, n - 1), Reach(n, eps), y, t, k, eps);
    }
  }

  lemma Cancel(k: real, b: real)
    requires k > 0.0 && k * b >= 0.0
    ensures b >= 0.0
  {
  }

  lemma Untangled(tn: real, yn: real, p: real, b: real, y: real, t: real, k: real, eps: real)
    requires k > 0.0 && t == k * eps && tn == k * b && yn == y * p && tn >= yn + (k + 1.0) * p * (t - y)
    ensures yn + b >= (k + 1.0) * eps * p
  {
    var m := (k + 1.0) * p;
    assert m * (t - y) == m * t - m * y && m * y == (k + 1.0) * yn;
    assert m * t == k * ((k + 1.0) * eps * p);
    Cancel(k, yn + b - (k + 1.0) * eps * p);
  }

  lemma {:induction false} EvenMirror(g: real, n: nat)
    requires g != 0.0 && n >= 2 && n % 2 == 0
    ensures RPow(-g, n) == RPow(g, n) && RPow(-g, n - 1) == -RPow(g, n - 1)
  {
    RPowEven(g, n);
    var m, p, q := -g, RPow(-g, n - 1), RPow(g, n - 1);
    assert RPow(m, n) == m * p && RPow(g, n) == g * q;
    assert g * (-p) == m * p;
    SameProduct(g, -p, q);
  }

  /** One step from g, in magnitudes. */
  lemma {:induction false} EvenStep(x: real, g: real, n: nat) returns (y: real, h: real)
    requires x < 0.0 && g != 0.0 && n >= 2 && n % 2 == 0
    ensures y == (if g < 0.0 then -g else g) && RPow(y, n - 1) > 0.0 && RPow(g, n - 1) != 0.0
    ensures h == (if g < 0.0 then NewtonStep(x, g, n) - g else g - NewtonStep(x, g, n))
    ensures n as real * h * RPow(y, n - 1) == RPow(y, n) - x
  {
    hide RPow, NewtonStep;
    y := if g < 0.0 then -g else g;
    RPowPositive(y, n - 1);
    EvenMirror(g, n);
    StepEquation(x, g, n);
    var d, k, p := g - NewtonStep(x, g, n), n as real, RPow(y, n - 1);
    h := if g < 0.0 then -d else d;
    if g < 0.0 { assert k * (-d) * p == k * d * (-p); }
  }

  lemma SameProduct(y: real, p: real, q: real)
    requires y != 0.0 && y * p == y * q
    ensures p == q
  {
  }

  /**
   An even root of a negative number: while the tolerance does not reach the magnitude, no
   guess is ever close enough to the one before it to stop at.
   */
  lemma {:induction false} NeverSettles(x: real, g: real, n: nat, eps: real)
    requires x < 0.0 && g != 0.0 && n >= 2 && n % 2 == 0 && eps >= 0.0 && Reach(n, eps) < -x
    ensures Moves(x, g, n, eps)
  {
    var y, h := EvenStep(x, g, n);
    AboveReach(y, n, eps);
    var k, p := n as real, RPow(y, n - 1);
    assert k * h * p - k * eps * p == k * (h - eps) * p;
    if h <= eps { NotAbove(k, h - eps, p); }
  }

  lemma NotAbove(k: real, h: real, p: real)
    requires k > 0.0 && p > 0.0 && h <= 0.0
    ensures k * h * p <= 0.0
  {
    assert k * h <= 0.0;
  }

  /** Once the tolerance reaches the magnitude, there is such a guess. */
  lemma {:induction false} Settles(x: real, n: nat, eps: real)
    requires x < 0.0 && n >= 2 && n % 2 == 0 && eps > 0.0 && Reach(n, eps) >= -x
    ensures (n - 1) as real * eps != 0.0 && !Moves(x, (n - 1) as real * eps, n, eps)
  {
    var m, t := (n - 1) as real, (n - 1) as real * eps;
    assert t > 0.0;
    var y, h := EvenStep(x, t, n);
    ReachScaled(n, eps, t);
    var p, k := RPow(t, n - 1), n as real;
    Within(RPow(t, n), x, Reach(n, eps), m, k, p, h, t, eps);
  }

  lemma Within(tn: real, x: real, b: real, m: real, k: real, p: real, h: real, t: real, eps: real)
    requires m > 0.0 && k == m + 1.0 && p > 0.0 && tn == m * b && tn == t * p && t == m * eps && eps > 0.0 && b >= -x && x < 0.0
    requires k * h * p == tn - x
    ensures 0.0 <= h <= eps
  {
    assert m * b == m * (eps * p);
    SameProduct(m, b, eps * p);
    assert k * eps * p == tn + b;
    assert k * (eps - h) * p == k * eps * p - k * h * p >= 0.0;
    NotBelow(k, eps - h, p);
    NotNegative(t, p);
    NotBelow(k, h, p);
  }

  lemma {:induction false} ReachZero(n: nat, eps: real)
    requires n >= 1
    ensures eps == 0.0 ==> Reach(n, eps) == 0.0
  {
    RPowZero(eps, n);
  }

  /** Exactly when the tolerance is too small for the magnitude, no guess at all can end the iteration. */
  lemma {:induction false} NeverSettlesExactly(x: real, n: nat, eps: real)
    requires x < 0.0 && n >= 2 && n % 2 == 0 && eps >= 0.0
    ensures (forall g | g != 0.0 :: Moves(x, g, n, eps)) <==> Reach(n, eps) < -x
  {
    if Reach(n, eps) < -x {
      forall g | g != 0.0
        ensures Moves(x, g, n, eps)
      {
        NeverSettles(x, g, n, eps);
      }
    } else {
      ReachZero(n, eps);
      Settles(x, n, eps);
    }
  }

  /** For square roots the tolerance has to be as large as the root of the magnitude. */
  lemma {:induction false} ReachSquare(eps: real)
    ensures Reach(2, eps) == eps * eps
  {
    assert RPow(1.0, 1) == 1.0 * RPow(1.0, 0) && RPow(eps, 2) == eps * RPow(eps, 1) && RPow(eps, 1) == eps * RPow(eps, 0);
  }

  /** Without a tolerance only an exact root ends the iteration, with a negative one nothing does. */
  lemma {:induction false} NoTolerance(x: real, g: real, n: nat, eps: real)
    requires n >= 1 && RPow(g, n - 1) != 0.0 && eps <= 0.0
    ensures Moves(x, g, n, eps) <==> eps < 0.0 || RPow(g, n) != x
  {
    StepEquation(x, g, n);
    var d, k, p := g - NewtonStep(x, g, n), n as real, RPow(g, n - 1);
    if k * d * p == 0.0 { ZeroFactor(k, d, p); }
  }

  lemma ZeroFactor(k: real, d: real, p: real)
    requires k != 0.0 && p != 0.0 && k * d * p == 0.0
    ensures d == 0.0
  {
    assert k * d == 0.0;
  }

  /** The guesses of the loop for the n-th root of x, from x/n on. */
  ghost predicate Guesses(x: real, n: nat, gs: seq<real>)
    requires n >= 1
  {
    && gs != [] && gs[0] == x / n as real
    && forall i :: 0 <= i < |gs| - 1 ==> RPow(gs[i], n - 1) != 0.0 && gs[i + 1] == NewtonStep(x, gs[i], n)
  }

  /** However many turns the loop has made for an even root of a negative number, none of them could end it. */
  lemma {:induction false} EvenRootNeverEnds(x: real, n: nat, eps: real, gs: seq<real>)
    requires x < 0.0 && n >= 2 && n % 2 == 0 && eps >= 0.0 && Reach(n, eps) < -x && Guesses(x, n, gs)
    ensures forall i :: 0 <= i < |gs| - 1 ==> gs[i + 1] - gs[i] > eps || gs[i] - gs[i + 1] > eps
  {
    hide NewtonStep, Reach;
    forall i | 0 <= i < |gs| - 1
      ensures gs[i + 1] - gs[i] > eps || gs[i] - gs[i + 1] > eps
    {
      RPowZero(gs[i], n - 1);
      NeverSettles(x, gs[i], n, eps);
    }
  }
}
