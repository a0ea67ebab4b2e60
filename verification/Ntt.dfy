/**
 The number-theoretic transform behind the Schonhage-Strassen rule: what the recursive
 transform computes, and why transforming forward, multiplying pointwise and transforming
 back is the cyclic convolution.
 */
module Ntt {
  import opened Arith
  import opened Polynomial

  /** Signed 64-bit values of the source stay below this bound in absolute value. */
  const LL_LIMIT: int := 0x8000_0000_0000_0000

  predicate IsPow2(n: int) {
    n == 1 || (n > 1 && n % 2 == 0 && IsPow2(n / 2))
  }

  // ----- roots of unity -----

  /** w has order n modulo m, in the form the transform uses: half way round it is -1. */
  ghost predicate PrincipalRoot(w: int, n: nat, m: int)
    requires m > 0
  {
    n >= 2 && n % 2 == 0 && Cong(Pow(w, n / 2), -1, m)
  }

  lemma RootOrder(w: int, n: nat, m: int)
    requires m > 0 && PrincipalRoot(w, n, m)
    ensures Cong(Pow(w, n), 1, m)
  {
    PowAdd(w, n / 2, n / 2);
    CongMul(Pow(w, n / 2), -1, Pow(w, n / 2), -1, m);
  }

  lemma {:induction false} PowMinusOne(d: nat)
    ensures Pow(-1, d) == if d % 2 == 0 then 1 else -1
  {
    if d > 0 { PowMinusOne(d - 1); }
  }

  /** 1 + x + ... + x^(n-1). */
  ghost function Geometric(x: int, n: nat): int {
    if n == 0 then 0 else Geometric(x, n - 1) + Pow(x, n - 1)
  }

  lemma {:induction false} GeometricSplit(x: int, h: nat, k: nat)
    ensures Geometric(x, h + k) == Geometric(x, h) + Pow(x, h) * Geometric(x, k)
  {
    if k > 0 {
      GeometricSplit(x, h, k - 1);
      PowAdd(x, h, k - 1);
      assert Pow(x, h) * (Geometric(x, k - 1) + Pow(x, k - 1))
          == Pow(x, h) * Geometric(x, k - 1) + Pow(x, h) * Pow(x, k - 1);
    }
  }

  lemma {:induction false} GeometricCong(x: int, y: int, n: nat, m: int)
    requires m > 0 && Cong(x, y, m)
    ensures Cong(Geometric(x, n), Geometric(y, n), m)
  {
    if n > 0 {
      GeometricCong(x, y, n - 1, m);
      CongPow(x, y, n - 1, m);
      CongAdd(Geometric(x, n - 1), Geometric(y, n - 1), Pow(x, n - 1), Pow(y, n - 1), m);
    }
  }

  lemma {:induction false} GeometricOne(n: nat)
    ensures Geometric(1, n) == n
  {
    if n > 0 { GeometricOne(n - 1); PowOne(n - 1); }
  }

  /**
   The powers of a non-trivial power of the root cancel. Halving the exponent and the
   length together makes this hold for any modulus, prime or not.
   */
  lemma {:induction false} GeometricVanishes(w: int, n: nat, d: nat, m: int)
    requires m > 0 && IsPow2(n) && PrincipalRoot(w, n, m) && 0 < d < n
    ensures Cong(Geometric(Pow(w, d), n), 0, m)
    decreases n
  {
    var h, x := n / 2, Pow(w, d);
    var g := Geometric(x, h);
    GeometricSplit(x, h, h);
    assert Geometric(x, n) == g + Pow(x, h) * g;
    if d % 2 == 1 {
      PowMul(w, d, h);
      PowMul(w, h, d);
      assert d * h == h * d;
      CongPow(Pow(w, h), -1, d, m);
      PowMinusOne(d);
      CongMul(Pow(x, h), -1, g, g, m);
      CongAdd(g, g, Pow(x, h) * g, -1 * g, m);
    } else {
      var e := d / 2;
      PowProduct(w, w, e);
      PowAdd(w, e, e);
      assert x == Pow(w * w, e);
      PowProduct(w, w, h / 2);
      PowAdd(w, h / 2, h / 2);
      assert PrincipalRoot(w * w, h, m);
      GeometricVanishes(w * w, h, e, m);
      CongMul(Pow(x, h), Pow(x, h), g, 0, m);
      CongAdd(g, 0, Pow(x, h) * g, Pow(x, h) * 0, m);
    }
  }

  // ----- the inverse transform undoes the forward one -----

  /** Sum over k < n of c(w^k) * z^k. */
  ghost function DoubleSum(c: seq<int>, w: int, z: int, n: nat): int {
    if n == 0 then 0 else DoubleSum(c, w, z, n - 1) + Eval(c, Pow(w, n - 1)) * Pow(z, n - 1)
  }

  lemma {:induction false} SpectrumSum(s: seq<int>, c: seq<int>, w: int, z: int)
    requires forall k :: 0 <= k < |s| ==> s[k] == Eval(c, Pow(w, k))
    ensures Eval(s, z) == DoubleSum(c, w, z, |s|)
  {
    if s != [] {
      var t := s[..|s| - 1];
      assert s == t + [s[|s| - 1]];
      EvalSnoc(t, s[|s| - 1], z);
      SpectrumSum(t, c, w, z);
    }
  }

  lemma {:induction false} DoubleSumSnoc(c: seq<int>, x: int, w: int, z: int, n: nat)
    ensures DoubleSum(c + [x], w, z, n) == DoubleSum(c, w, z, n) + x * Geometric(Pow(w, |c|) * z, n)
  {
    if n > 0 {
      var k := n - 1;
      DoubleSumSnoc(c, x, w, z, k);
      EvalSnoc(c, x, Pow(w, k));
      PowMul(w, k, |c|);
      PowMul(w, |c|, k);
      assert k * |c| == |c| * k;
      PowProduct(Pow(w, |c|), z, k);
      var e, p, q, g := Eval(c, Pow(w, k)), Pow(Pow(w, |c|), k), Pow(z, k), Geometric(Pow(w, |c|) * z, k);
      SnocStep(e, x, p, q, g);
    }
  }

  lemma SnocStep(e: int, x: int, p: int, q: int, g: int)
    ensures (e + x * p) * q + x * g == e * q + x * (g + p * q)
  {
    assert (x * p) * q == x * (p * q);
  }

  /** w and y are inverse roots of order n modulo m. */
  ghost predicate InverseRoots(w: int, y: int, n: nat, m: int)
    requires m > 0
  {
    PrincipalRoot(w, n, m) && PrincipalRoot(y, n, m) && Cong(w * y, 1, m)
  }

  /** A root that serves a transform of length n; at length one any number does. */
  ghost predicate RootFor(w: int, n: nat, m: int)
    requires m > 0
  {
    n == 1 || PrincipalRoot(w, n, m)
  }

  lemma UnitPower(w: int, n: nat, k: nat, m: int)
    requires m > 0 && k < n && RootFor(w, n, m)
    ensures Cong(Pow(Pow(w, k), n), 1, m)
  {
    if n == 1 {
      assert Pow(w, k) == 1 && Pow(1, n) == 1 by { PowOne(n); }
    } else {
      RootOrder(w, n, m);
      PowMul(w, k, n);
      PowMul(w, n, k);
      assert k * n == n * k;
      CongPow(Pow(w, n), 1, k, m);
      PowOne(k);
    }
  }

  lemma CancelOne(a: int, b: int, c: int, m: int)
    requires m > 0 && Cong(b * c, 1, m)
    ensures Cong((a * b) * c, a, m)
  {
    CongMul(a, a, b * c, 1, m);
    assert (a * b) * c == a * (b * c);
  }

  lemma RootPowersCancel(w: int, y: int, i: nat, j: nat, m: int)
    requires m > 0 && Cong(w * y, 1, m)
    ensures Cong(Pow(w, i) * Pow(y, j), if i >= j then Pow(w, i - j) else Pow(y, j - i), m)
  {
    var s := if i < j then i else j;
    PowProduct(w, y, s);
    CongPow(w * y, 1, s, m);
    PowOne(s);
    if i >= j {
      PowAdd(w, i - j, j);
      CancelOne(Pow(w, i - j), Pow(w, s), Pow(y, s), m);
    } else {
      PowAdd(y, j - i, i);
      CancelOne(Pow(y, j - i), Pow(y, s), Pow(w, s), m);
      assert Pow(w, i) * Pow(y, j) == Pow(y, j) * Pow(w, i);
      assert Pow(w, s) * Pow(y, s) == Pow(y, s) * Pow(w, s);
    }
  }

  lemma Orthogonality(w: int, y: int, n: nat, i: nat, j: nat, m: int)
    requires m > 0 && IsPow2(n) && InverseRoots(w, y, n, m) && i < n && j < n
    ensures Cong(Geometric(Pow(w, i) * Pow(y, j), n), if i == j then n else 0, m)
  {
    RootPowersCancel(w, y, i, j, m);
    if i == j {
      GeometricCong(Pow(w, i) * Pow(y, j), 1, n, m);
      GeometricOne(n);
    } else if i > j {
      GeometricCong(Pow(w, i) * Pow(y, j), Pow(w, i - j), n, m);
      GeometricVanishes(w, n, i - j, m);
    } else {
      GeometricCong(Pow(w, i) * Pow(y, j), Pow(y, j - i), n, m);
      GeometricVanishes(y, n, j - i, m);
    }
  }

  /** Transforming the spectrum of c with the inverse root gives n times c, entry by entry. */
  lemma {:induction false} InverseTransform(c: seq<int>, w: int, y: int, n: nat, j: nat, m: int)
    requires m > 0 && IsPow2(n) && InverseRoots(w, y, n, m) && |c| <= n && j < n
    ensures Cong(DoubleSum(c, w, Pow(y, j), n), if j < |c| then n * c[j] else 0, m)
    decreases |c|
  {
    if c == [] {
      EmptySpectrum(w, Pow(y, j), n);
    } else {
      var i := |c| - 1;
      var c', x := c[..i], c[i];
      assert c == c' + [x];
      InverseTransform(c', w, y, n, j, m);
      DoubleSumSnoc(c', x, w, Pow(y, j), n);
      Orthogonality(w, y, n, i, j, m);
      AddMultiple(DoubleSum(c', w, Pow(y, j), n), if j < i then n * c[j] else 0, x,
                  Geometric(Pow(w, i) * Pow(y, j), n), if i == j then n else 0, m);
      assert x * n == n * x;
    }
  }

  /** The same for every length, one included. */
  lemma InverseEntry(c: seq<int>, w: int, y: int, n: nat, j: nat, m: int)
    requires m > 0 && IsPow2(n) && (n == 1 || InverseRoots(w, y, n, m)) && |c| == n && j < n
    ensures Cong(DoubleSum(c, w, Pow(y, j), n), n * c[j], m)
  {
    if n == 1 {
      assert c == [c[0]] && c[1..] == [] && Eval(c, 1) == c[0];
      assert DoubleSum(c, w, Pow(y, j), 0) == 0 && Pow(w, 0) == 1 && Pow(Pow(y, j), 0) == 1;
    } else {
      InverseTransform(c, w, y, n, j, m);
    }
  }

  lemma AddMultiple(e: int, e': int, x: int, g: int, g': int, m: int)
    requires m > 0 && Cong(e, e', m) && Cong(g, g', m)
    ensures Cong(e + x * g, e' + x * g', m)
  {
    CongMul(x, x, g, g', m);
    CongAdd(e, e', x * g, x * g', m);
  }

  lemma {:induction false} EmptySpectrum(w: int, z: int, n: nat)
    ensures DoubleSum([], w, z, n) == 0
  {
    if n > 0 { EmptySpectrum(w, z, n - 1); }
  }

  // ----- the recursive transform -----

  /** The factor the inverse transform has divided out: one inverse of two per level. */
  ghost function Scale(inv: bool, n: int, inv2: int): int
    requires IsPow2(n)
  {
    if !inv || n == 1 then 1 else inv2 * Scale(inv, n / 2, inv2)
  }

  lemma {:induction false} ScaleIsInverse(n: int, inv2: int, m: int)
    requires m > 0 && IsPow2(n) && Cong(2 * inv2, 1, m)
    ensures Cong(n * Scale(true, n, inv2), 1, m)
    decreases n
  {
    if n > 1 {
      var s := Scale(true, n / 2, inv2);
      ScaleIsInverse(n / 2, inv2, m);
      CongMul(2 * inv2, 1, (n / 2) * s, 1, m);
      assert n * (inv2 * s) == (2 * inv2) * ((n / 2) * s);
    }
  }

  /** One entry of the transform of p with root w. */
  ghost function Entry(p: seq<int>, w: int, s: int, k: nat, m: int): int
    requires m > 0
  {
    (s * Eval(p, Pow(w, k))) % m
  }

  /** The first n entries. */
  ghost function Transform(p: seq<int>, w: int, s: int, n: nat, m: int): (t: seq<int>)
    requires m > 0
    ensures |t| == n
  {
    seq(n, k requires 0 <= k < n => Entry(p, w, s, k, m))
  }

  /** t[n], t[n/2], ..., t[2] are residues and principal roots, each the square of the one above. */
  ghost predicate RootTable(t: seq<int>, n: int, m: int)
    requires m > 0 && IsPow2(n)
  {
    n < |t| && 0 <= t[n] < m &&
    (n > 1 ==> PrincipalRoot(t[n], n, m) && Cong(t[n / 2], t[n] * t[n], m) && RootTable(t, n / 2, m))
  }

  ghost function Root(inv: bool, pws: seq<int>, ipws: seq<int>, n: nat): int
    requires n < |pws| && n < |ipws|
  {
    if inv then ipws[n] else pws[n]
  }

  ghost predicate Residues(a: seq<int>, m: int) {
    forall i :: 0 <= i < |a| ==> 0 <= a[i] < m
  }

  /** The product of two residues fits a signed 64-bit word before it is reduced. */
  function MulMod(a: int, b: int, m: int): (r: int)
    requires m > 0 && m * m <= LL_LIMIT && 0 <= a < m && 0 <= b < m
    ensures 0 <= r < m
  {
    MulBounds(a, b, m - 1, m - 1);
    (a * b) % m
  }

  lemma MulModCong(a: int, x: int, b: int, y: int, m: int)
    requires m > 0 && m * m <= LL_LIMIT && 0 <= a < m && 0 <= b < m
    requires Cong(a, x, m) && Cong(b, y, m)
    ensures MulMod(a, b, m) == (x * y) % m
  {
    CongMul(a, x, b, y, m);
  }

  /** One butterfly joins entry k of both half transforms into entries k and k + h of the whole. */
  lemma Butterfly(a: seq<int>, from: nat, step: nat, h: nat, w: int, w2: int, s: int, k: nat, m: int,
                  u: int, v: int, cw: int)
    requires m > 0 && m * m <= LL_LIMIT && h > 0
    requires PrincipalRoot(w, 2 * h, m) && Cong(w2, w * w, m)
    requires StrideOk(a, from, step, 2 * h)
    requires StrideOk(a, from, 2 * step, h) && StrideOk(a, from + step, 2 * step, h)
    requires u == Entry(Stride(a, from, 2 * step, h), w2, s, k, m)
    requires v == Entry(Stride(a, from + step, 2 * step, h), w2, s, k, m)
    requires cw == Pow(w, k) % m
    ensures (u + MulMod(cw, v, m)) % m == Entry(Stride(a, from, step, 2 * h), w, s, k, m)
    ensures (u - MulMod(cw, v, m)) % m == Entry(Stride(a, from, step, 2 * h), w, s, k + h, m)
  {
    var p := Stride(a, from, step, 2 * h);
    var e, o := Stride(a, from, 2 * step, h), Stride(a, from + step, 2 * step, h);
    var x, x' := Pow(w, k), Pow(w, k + h);
    PowAdd(w, k, h);
    CongMul(x, x, Pow(w, h), -1, m);
    assert Cong(x', -x, m);
    CongPow(w2, w * w, k, m);
    PowProduct(w, w, k);
    var E, O := Eval(e, x * x), Eval(o, x * x);
    EvalCong(e, Pow(w2, k), x * x, m);
    EvalCong(o, Pow(w2, k), x * x, m);
    CongMul(s, s, Eval(e, Pow(w2, k)), E, m);
    CongMul(s, s, Eval(o, Pow(w2, k)), O, m);
    CongMod(s * Eval(e, Pow(w2, k)), m);
    CongMod(s * Eval(o, Pow(w2, k)), m);
    CongMod(x, m);
    var t := MulMod(cw, v, m);
    MulModCong(cw, x, v, s * O, m);
    CongMod(x * (s * O), m);
    EvalEvenOdd(a, from, step, h, x);
    CongAdd(u, s * E, t, x * (s * O), m);
    assert s * Eval(p, x) == s * E + x * (s * O) by { Distribute(s, E, x, O); }
    EvalEvenOdd(a, from, step, h, -x);
    assert (-x) * (-x) == x * x;
    EvalCong(p, x', -x, m);
    CongMul(s, s, Eval(p, x'), Eval(p, -x), m);
    assert s * Eval(p, -x) == s * E - x * (s * O) by { Distribute(s, E, -x, O); }
  }

  lemma Distribute(s: int, e: int, x: int, o: int)
    ensures s * (e + x * o) == s * e + x * (s * o)
    ensures x * (s * o) == -((-x) * (s * o))
  {
    assert s * (x * o) == x * (s * o);
  }

  lemma ScaledEntry(p: seq<int>, w: int, s: int, c: int, k: nat, m: int)
    requires m > 0 && m * m <= LL_LIMIT && 0 <= c < m
    ensures 0 <= Entry(p, w, s, k, m) < m
    ensures MulMod(Entry(p, w, s, k, m), c, m) == Entry(p, w, c * s, k, m)
  {
    var e := Eval(p, Pow(w, k));
    CongMod(s * e, m);
    MulModCong((s * e) % m, s * e, c, c, m);
    assert (s * e) * c == (c * s) * e;
  }

  lemma NextPower(w: int, k: nat, cw: int, m: int)
    requires m > 0 && m * m <= LL_LIMIT && 0 <= w < m && cw == Pow(w, k) % m
    ensures MulMod(cw, w, m) == Pow(w, k + 1) % m
  {
    CongMod(Pow(w, k), m);
    MulModCong(cw, Pow(w, k), w, w, m);
    assert Pow(w, k) * w == w * Pow(w, k);
  }

  /** The value one pass stores in the lower half, from u and the multiplied v. */
  function LowOut(u: int, v: int, inv: bool, inv2: int, m: int): int
    requires m > 0 && m * m <= LL_LIMIT && 0 <= u < m && 0 <= v < m && 0 <= inv2 < m
  {
    var sum := (u + v) % m;
    if inv then MulMod(sum, inv2, m) else sum
  }

  /** The value it stores in the upper half: a C++ remainder, made non-negative by adding m. */
  function HighOut(u: int, v: int, inv: bool, inv2: int, m: int): int
    requires m > 0 && m * m <= LL_LIMIT && 0 <= u < m && 0 <= v < m && 0 <= inv2 < m
  {
    TruncRemResidue(u - v, m);
    var d := TruncRem(u - v, m);
    var difference := if d < 0 then d + m else d;
    if inv then MulMod(difference, inv2, m) else difference
  }

  /** What one pass of the butterfly loop stores at positions k and k + h of the block. */
  lemma ButterflyStep(a: seq<int>, from: nat, step: nat, n: nat, w: int, w2: int, inv: bool, inv2: int, k: nat,
                      m: int, u: int, x: int, cw: int)
    requires m > 1 && m * m <= LL_LIMIT && 0 <= inv2 < m && IsPow2(n) && n >= 2 && k < n / 2
    requires PrincipalRoot(w, n, m) && Cong(w2, w * w, m)
    requires StrideOk(a, from, step, n)
    requires StrideOk(a, from, 2 * step, n / 2) && StrideOk(a, from + step, 2 * step, n / 2)
    requires u == Entry(Stride(a, from, 2 * step, n / 2), w2, Scale(inv, n / 2, inv2), k, m)
    requires x == Entry(Stride(a, from + step, 2 * step, n / 2), w2, Scale(inv, n / 2, inv2), k, m)
    requires cw == Pow(w, k) % m
    ensures 0 <= u < m && 0 <= x < m && 0 <= cw < m
    ensures var v := MulMod(cw, x, m);
            var t := Transform(Stride(a, from, step, n), w, Scale(inv, n, inv2), n, m);
            t[k] == LowOut(u, v, inv, inv2, m) && t[k + n / 2] == HighOut(u, v, inv, inv2, m)
  {
    var h, p, s := n / 2, Stride(a, from, step, n), Scale(inv, n / 2, inv2);
    Butterfly(a, from, step, h, w, w2, s, k, m, u, x, cw);
    TruncRemResidue(u - MulMod(cw, x, m), m);
    if inv {
      ScaledEntry(p, w, s, inv2, k, m);
      ScaledEntry(p, w, s, inv2, k + h, m);
    } else {
      assert Scale(inv, n, inv2) == 1 && s == 1;
    }
  }

  /**
   The strided in-order transform. Entry k of the output block [l, l + n) is the polynomial
   with coefficients a[cl], a[cl + step], ... evaluated at the k-th power of the root, divided
   by n when the transform is inverse.
   */
  method Fft(a: array<int>, ans: array<int>, l: nat, cl: nat, step: nat, n: nat, inv: bool, m: int,
             pws: array<int>, ipws: array<int>, inv2: int)
    requires m > 1 && m * m <= LL_LIMIT && 0 <= inv2 < m
    requires IsPow2(n) && l + n <= ans.Length
    requires ans != a && ans != pws && ans != ipws
    requires StrideOk(a[..], cl, step, n) && Residues(a[..], m)
    requires RootTable(pws[..], n, m) && RootTable(ipws[..], n, m)
    modifies ans
    ensures Stored(ans[..], old(ans[..]), l,
                   Transform(Stride(a[..], cl, step, n), Root(inv, pws[..], ipws[..], n), Scale(inv, n, inv2), n, m))
    decreases n
  {
    if n == 1 {
      ans[l] := a[cl];
      SingleEntry(a[..], cl, step, Root(inv, pws[..], ipws[..], n), m);
      return;
    }
    var h := n / 2;
    StrideHalves(a[..], cl, step, h);
    Fft(a, ans, l, cl, step * 2, h, inv, m, pws, ipws, inv2);
    Fft(a, ans, l + h, cl + step, step * 2, h, inv, m, pws, ipws, inv2);
    ghost var whole := AllButterflies(a[..], ans[..], l, cl, step, n, inv, m, pws[..], ipws[..], inv2);
    Butterflies(ans, l, n, inv, m, if inv then ipws[n] else pws[n], inv2, whole);
  }

  /** cells is pre with block stored from index l on. */
  ghost predicate Stored(cells: seq<int>, pre: seq<int>, l: nat, block: seq<int>) {
    |cells| == |pre| && l + |block| <= |pre| &&
    forall j :: 0 <= j < |cells| ==> cells[j] == if l <= j < l + |block| then block[j - l] else pre[j]
  }

  /** Entries k and k + h of whole are the butterfly of the cells at k and k + h of the block at l. */
  ghost predicate JoinedAt(whole: seq<int>, cells: seq<int>, l: nat, h: nat, k: nat, gw: int, inv: bool, inv2: int,
                           m: int)
    requires m > 1 && m * m <= LL_LIMIT && 0 <= inv2 < m && |whole| == 2 * h && l + 2 * h <= |cells| && k < h
  {
    var u, x := cells[l + k], cells[l + h + k];
    0 <= u < m && 0 <= x < m &&
    whole[k] == LowOut(u, MulMod(Pow(gw, k) % m, x, m), inv, inv2, m) &&
    whole[k + h] == HighOut(u, MulMod(Pow(gw, k) % m, x, m), inv, inv2, m)
  }

  /** The block the butterfly loop should leave behind, given the half transforms before it in cells. */
  ghost predicate JoinedBlock(whole: seq<int>, cells: seq<int>, l: nat, h: nat, gw: int, inv: bool, inv2: int, m: int)
    requires m > 1 && m * m <= LL_LIMIT && 0 <= inv2 < m && l + 2 * h <= |cells|
  {
    |whole| == 2 * h &&
    forall k :: 0 <= k < h ==> JoinedAt(whole, cells, l, h, k, gw, inv, inv2, m)
  }

  lemma AllButterflies(a: seq<int>, cells: seq<int>, l: nat, cl: nat, step: nat, n: nat, inv: bool, m: int,
                       pws: seq<int>, ipws: seq<int>, inv2: int)
    returns (whole: seq<int>)
    requires m > 1 && m * m <= LL_LIMIT && 0 <= inv2 < m && l + n <= |cells|
    requires IsPow2(n) && n >= 2 && RootTable(pws, n, m) && RootTable(ipws, n, m)
    requires StrideOk(a, cl, step, n)
    requires StrideOk(a, cl, 2 * step, n / 2) && StrideOk(a, cl + step, 2 * step, n / 2)
    requires Stored(cells, cells, l, Transform(Stride(a, cl, 2 * step, n / 2), Root(inv, pws, ipws, n / 2),
                                               Scale(inv, n / 2, inv2), n / 2, m))
    requires Stored(cells, cells, l + n / 2, Transform(Stride(a, cl + step, 2 * step, n / 2),
                                                       Root(inv, pws, ipws, n / 2), Scale(inv, n / 2, inv2), n / 2, m))
    ensures whole == Transform(Stride(a, cl, step, n), Root(inv, pws, ipws, n), Scale(inv, n, inv2), n, m)
    ensures JoinedBlock(whole, cells, l, n / 2, Root(inv, pws, ipws, n), inv, inv2, m)
  {
    var h, gw := n / 2, Root(inv, pws, ipws, n);
    whole := Transform(Stride(a, cl, step, n), gw, Scale(inv, n, inv2), n, m);
    forall k | 0 <= k < h
      ensures JoinedAt(whole, cells, l, h, k, gw, inv, inv2, m)
    {
      ButterflyStep(a, cl, step, n, gw, Root(inv, pws, ipws, h), inv, inv2, k, m,
                    cells[l + k], cells[l + h + k], Pow(gw, k) % m);
    }
  }

  /** The loop of fft that joins the two half transforms in place. */
  method Butterflies(ans: array<int>, l: nat, n: nat, inv: bool, m: int, gw: int, inv2: int, ghost whole: seq<int>)
    requires m > 1 && m * m <= LL_LIMIT && 0 <= inv2 < m && 0 <= gw < m
    requires n >= 2 && n % 2 == 0 && l + n <= ans.Length
    requires JoinedBlock(whole, ans[..], l, n / 2, gw, inv, inv2, m)
    modifies ans
    ensures Stored(ans[..], old(ans[..]), l, whole)
  {
    var h := n / 2;
    var cw := 1;
    ghost var pre := ans[..];
    ModSmall(1, m);
    var i := l;
    while i < l + h
      invariant l <= i <= l + h
      invariant cw == Pow(gw, i - l) % m
      invariant forall j :: 0 <= j < ans.Length ==>
        ans[j] == if l <= j < i || l + h <= j < i + h then whole[j - l] else pre[j]
    {
      ghost var k := i - l;
      var u := ans[i];
      assert JoinedAt(whole, pre, l, h, k, gw, inv, inv2, m);
      var v := MulMod(cw, ans[i + h], m);
      ans[i] := LowOut(u, v, inv, inv2, m);
      ans[i + h] := HighOut(u, v, inv, inv2, m);
      assert ans[i] == whole[k] && ans[i + h] == whole[k + h];
      NextPower(gw, k, cw, m);
      cw := MulMod(cw, gw, m);
      i := i + 1;
    }
  }

  lemma SingleEntry(a: seq<int>, cl: nat, step: nat, w: int, m: int)
    requires m > 0 && StrideOk(a, cl, step, 1) && Residues(a, m)
    ensures a[cl] == Entry(Stride(a, cl, step, 1), w, 1, 0, m)
  {
    var p := Stride(a, cl, step, 1);
    assert p == [a[cl]] && p[1..] == [];
    assert Eval(p, 1) == a[cl];
    ModSmall(a[cl], m);
  }

  // ----- cyclic convolution -----

  /** The pointwise product of two spectra is the spectrum of the folded product. */
  lemma ProductSpectrum(a: seq<int>, b: seq<int>, w: int, n: nat, k: nat, m: int)
    requires m > 0 && k < n && |a| == n && |b| == n && RootFor(w, n, m)
    ensures Cong(Eval(a, Pow(w, k)) * Eval(b, Pow(w, k)), Eval(Fold(Product(a, b), n), Pow(w, k)), m)
  {
    var x := Pow(w, k);
    UnitPower(w, n, k, m);
    EvalFold(Product(a, b), n, x, m);
    EvalProduct(a, b, x);
  }

  /** The last step: scaling the doubly transformed sequence by 1/n recovers the coefficient. */
  lemma RecoverCoefficient(f: seq<int>, c: seq<int>, w: int, y: int, n: nat, j: nat, inv2: int, m: int)
    requires m > 0 && IsPow2(n) && (n == 1 || InverseRoots(w, y, n, m)) && Cong(2 * inv2, 1, m)
    requires |c| == n && |f| == n && j < n
    requires forall k :: 0 <= k < n ==> Cong(f[k], Eval(c, Pow(w, k)), m)
    ensures Entry(f, y, Scale(true, n, inv2), j, m) == c[j] % m
  {
    var z := Pow(y, j);
    var s := Scale(true, n, inv2);
    var spectrum := seq(n, k requires 0 <= k < n => Eval(c, Pow(w, k)));
    EvalCoefficientsCong(f, spectrum, z, m);
    SpectrumSum(spectrum, c, w, z);
    InverseEntry(c, w, y, n, j, m);
    ScaleIsInverse(n, inv2, m);
    Unscale(Eval(f, z), c[j], n, s, m);
  }

  lemma Unscale(e: int, c: int, n: int, s: int, m: int)
    requires m > 0 && Cong(e, n * c, m) && Cong(n * s, 1, m)
    ensures (s * e) % m == c % m
  {
    CongMul(s, s, e, n * c, m);
    CongMul(n * s, 1, c, c, m);
    assert s * (n * c) == (n * s) * c;
  }

  /** Everything poly_multiply is instantiated with. */
  ghost predicate TransformParameters(pws: seq<int>, ipws: seq<int>, n: int, m: int, inv2: int) {
    m > 1 && m * m <= LL_LIMIT && 0 <= inv2 < m && Cong(2 * inv2, 1, m) &&
    IsPow2(n) && RootTable(pws, n, m) && RootTable(ipws, n, m) &&
    Cong(pws[n] * ipws[n], 1, m)
  }

  lemma TransformRoots(pws: seq<int>, ipws: seq<int>, n: int, m: int, inv2: int)
    requires TransformParameters(pws, ipws, n, m, inv2)
    ensures n < |pws| && n < |ipws| && RootFor(pws[n], n, m) && (n == 1 || InverseRoots(pws[n], ipws[n], n, m))
  {
  }

  method PolyMultiply(a: array<int>, b: array<int>, n: nat, m: int, pws: array<int>, ipws: array<int>, inv2: int)
    returns (product: array<int>)
    requires TransformParameters(pws[..], ipws[..], n, m, inv2)
    requires a.Length == n && b.Length == n && Residues(a[..], m) && Residues(b[..], m)
    ensures fresh(product) && product.Length == n
    ensures forall j :: 0 <= j < n ==> product[j] == Fold(Product(a[..], b[..]), n)[j] % m
    ensures forall j :: 0 <= j < n ==> product[j] == CyclicSum(a[..], b[..], j) % m
  {
    hide CyclicSum, RootTable, RootFor, InverseRoots, PrincipalRoot, Fold, Product;
    TransformRoots(pws[..], ipws[..], n, m, inv2);
    ghost var w, y, pa, pb := pws[n], ipws[n], a[..], b[..];
    ghost var c := Fold(Product(pa, pb), n);
    var fa, fb := new int[n], new int[n];
    StrideWhole(pa, 0);
    StrideWhole(pb, 0);
    Fft(a, fa, 0, 0, 1, n, false, m, pws, ipws, inv2);
    Fft(b, fb, 0, 0, 1, n, false, m, pws, ipws, inv2);
    assert fa[..] == Transform(pa, w, 1, n, m) && fb[..] == Transform(pb, w, 1, n, m) by {
      assert pa[0..] == pa && pb[0..] == pb;
      assert fa[0..0 + n] == fa[..] && fb[0..0 + n] == fb[..];
    }
    var f := Pointwise(fa, fb, n, m, w, pa, pb);
    product := new int[n];
    StrideWhole(f[..], 0);
    assert f[0..] == f[..];
    Fft(f, product, 0, 0, 1, n, true, m, pws, ipws, inv2);
    assert product[..] == product[0..0 + n];
    forall j | 0 <= j < n
      ensures product[..][j] == c[j] % m
    {
      RecoverCoefficient(f[..], c, w, y, n, j, inv2, m);
    }
    forall j | 0 <= j < n
      ensures c[j] == CyclicSum(pa, pb, j)
    {
      CyclicProduct(pa, pb, n, j);
    }
  }

  method Pointwise(fa: array<int>, fb: array<int>, n: nat, m: int, ghost w: int, ghost pa: seq<int>, ghost pb: seq<int>)
    returns (f: array<int>)
    requires m > 0 && m * m <= LL_LIMIT && n > 0 && |pa| == n && |pb| == n && RootFor(w, n, m)
    requires fa[..] == Transform(pa, w, 1, n, m) && fb[..] == Transform(pb, w, 1, n, m)
    ensures fresh(f) && f.Length == n && Residues(f[..], m)
    ensures forall k :: 0 <= k < n ==> Cong(f[k], Eval(Fold(Product(pa, pb), n), Pow(w, k)), m)
  {
    f := new int[n];
    var i := 0;
    while i < n
      invariant 0 <= i <= n
      invariant fa[..] == Transform(pa, w, 1, n, m) && fb[..] == Transform(pb, w, 1, n, m)
      invariant forall k :: 0 <= k < i ==> 0 <= f[k] < m && Cong(f[k], Eval(Fold(Product(pa, pb), n), Pow(w, k)), m)
    {
      assert fa[..][i] == Entry(pa, w, 1, i, m) && fb[..][i] == Entry(pb, w, 1, i, m);
      PointwiseProduct(pa, pb, w, n, i, m, fa[i], fb[i]);
      f[i] := MulMod(fa[i], fb[i], m);
      i := i + 1;
    }
  }

  lemma PointwiseProduct(a: seq<int>, b: seq<int>, w: int, n: nat, k: nat, m: int, fa: int, fb: int)
    requires m > 0 && m * m <= LL_LIMIT && k < n && |a| == n && |b| == n && RootFor(w, n, m)
    requires fa == Entry(a, w, 1, k, m) && fb == Entry(b, w, 1, k, m)
    ensures 0 <= fa < m && 0 <= fb < m
    ensures Cong(MulMod(fa, fb, m), Eval(Fold(Product(a, b), n), Pow(w, k)), m)
  {
    var x, y := Eval(a, Pow(w, k)), Eval(b, Pow(w, k));
    CongMod(x, m);
    CongMod(y, m);
    MulModCong(fa, x, fb, y, m);
    CongMod(x * y, m);
    ProductSpectrum(a, b, w, n, k, m);
  }
}
