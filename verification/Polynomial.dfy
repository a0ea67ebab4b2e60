/**
 Polynomials as coefficient sequences, lowest degree first: evaluation, convolution,
 strided subsequences and cyclic folding. These are the reference notions against which
 the number-theoretic transform is proved.
 */
module Polynomial {
  import opened Arith

  function Eval(p: seq<int>, x: int): int {
    if p == [] then 0 else p[0] + x * Eval(p[1..], x)
  }

  lemma {:induction false} EvalSnoc(p: seq<int>, c: int, x: int)
    ensures Eval(p + [c], x) == Eval(p, x) + c * Pow(x, |p|)
  {
    if p == [] {
      assert (p + [c])[1..] == [];
      assert Eval([], x) == 0;
    } else {
      assert (p + [c])[1..] == p[1..] + [c];
      EvalSnoc(p[1..], c, x);
      HornerStep(p[0], x, Eval(p[1..], x), c, Pow(x, |p| - 1));
      assert (x * c) * Pow(x, |p| - 1) == c * (x * Pow(x, |p| - 1));
    }
  }

  lemma {:induction false} EvalConcat(p: seq<int>, q: seq<int>, x: int)
    ensures Eval(p + q, x) == Eval(p, x) + Pow(x, |p|) * Eval(q, x)
  {
    if p == [] {
      assert p + q == q;
    } else {
      assert (p + q)[1..] == p[1..] + q;
      EvalConcat(p[1..], q, x);
      HornerStep(p[0], x, Eval(p[1..], x), Pow(x, |p| - 1), Eval(q, x));
    }
  }

  lemma HornerStep(c: int, x: int, e: int, f: int, g: int)
    ensures c + x * (e + f * g) == c + x * e + (x * f) * g
  {
    assert x * (f * g) == (x * f) * g;
  }

  lemma {:induction false} EvalCong(p: seq<int>, x: int, y: int, m: int)
    requires m > 0 && Cong(x, y, m)
    ensures Cong(Eval(p, x), Eval(p, y), m)
  {
    if p != [] {
      EvalCong(p[1..], x, y, m);
      CongMul(x, y, Eval(p[1..], x), Eval(p[1..], y), m);
      CongAdd(p[0], p[0], x * Eval(p[1..], x), y * Eval(p[1..], y), m);
    }
  }

  /** Evaluation only depends on the residues of the coefficients. */
  lemma {:induction false} EvalCoefficientsCong(p: seq<int>, q: seq<int>, x: int, m: int)
    requires m > 0 && |p| == |q|
    requires forall i :: 0 <= i < |p| ==> Cong(p[i], q[i], m)
    ensures Cong(Eval(p, x), Eval(q, x), m)
  {
    if p != [] {
      EvalCoefficientsCong(p[1..], q[1..], x, m);
      CongMul(x, x, Eval(p[1..], x), Eval(q[1..], x), m);
      CongAdd(p[0], q[0], x * Eval(p[1..], x), x * Eval(q[1..], x), m);
    }
  }

  function Zeros(n: nat): (z: seq<int>)
    ensures |z| == n && forall i :: 0 <= i < n ==> z[i] == 0
  {
    seq(n, _ => 0)
  }

  lemma {:induction false} EvalZeros(n: nat, x: int)
    ensures Eval(Zeros(n), x) == 0
  {
    if n > 0 {
      assert Zeros(n)[1..] == Zeros(n - 1);
      EvalZeros(n - 1, x);
    }
  }

  // ----- strided subsequences -----

  ghost predicate StrideOk(a: seq<int>, from: nat, step: nat, n: nat)
    decreases n
  {
    n == 0 || (from < |a| && StrideOk(a, from + step, step, n - 1))
  }

  /** a[from], a[from + step], ..., n of them. */
  ghost function Stride(a: seq<int>, from: nat, step: nat, n: nat): (p: seq<int>)
    requires StrideOk(a, from, step, n)
    ensures |p| == n
    decreases n
  {
    if n == 0 then [] else [a[from]] + Stride(a, from + step, step, n - 1)
  }

  lemma {:induction false} StrideWhole(a: seq<int>, from: nat)
    requires from <= |a|
    ensures StrideOk(a, from, 1, |a| - from)
    ensures Stride(a, from, 1, |a| - from) == a[from..]
    decreases |a| - from
  {
    if from < |a| { StrideWhole(a, from + 1); }
  }

  lemma {:induction false} StrideHalves(a: seq<int>, from: nat, step: nat, h: nat)
    requires StrideOk(a, from, step, 2 * h)
    ensures StrideOk(a, from, 2 * step, h)
    ensures h > 0 ==> StrideOk(a, from + step, 2 * step, h)
    decreases h
  {
    if h > 0 {
      assert StrideOk(a, from + step, step, 2 * h - 1);
      assert StrideOk(a, from + step + step, step, 2 * h - 2);
      StrideHalves(a, from + 2 * step, step, h - 1);
    }
  }

  /** The even-odd split: P(x) = E(x^2) + x * O(x^2). */
  lemma {:induction false} EvalEvenOdd(a: seq<int>, from: nat, step: nat, h: nat, x: int)
    requires StrideOk(a, from, step, 2 * h)
    requires StrideOk(a, from, 2 * step, h) && StrideOk(a, from + step, 2 * step, h)
    ensures Eval(Stride(a, from, step, 2 * h), x)
         == Eval(Stride(a, from, 2 * step, h), x * x) + x * Eval(Stride(a, from + step, 2 * step, h), x * x)
    decreases h
  {
    if h > 0 {
      assert StrideOk(a, from + step, step, 2 * h - 1);
      assert StrideOk(a, from + step + step, step, 2 * h - 2);
      var f2 := from + 2 * step;
      EvalEvenOdd(a, f2, step, h - 1, x);
      var p := Stride(a, from, step, 2 * h);
      assert p[1..] == Stride(a, from + step, step, 2 * h - 1);
      assert p[1..][1..] == Stride(a, f2, step, 2 * h - 2);
      var e, o := Stride(a, from, 2 * step, h), Stride(a, from + step, 2 * step, h);
      assert e[1..] == Stride(a, f2, 2 * step, h - 1);
      assert o[1..] == Stride(a, f2 + step, 2 * step, h - 1);
      EvenOddStep(p[0], p[1], Eval(e[1..], x * x), Eval(o[1..], x * x), x);
    }
  }

  lemma EvenOddStep(a: int, b: int, e: int, o: int, x: int)
    ensures a + x * (b + x * (e + x * o)) == (a + (x * x) * e) + x * (b + (x * x) * o)
  {
    assert x * (x * (e + x * o)) == (x * x) * (e + x * o);
    assert (x * x) * (x * o) == x * ((x * x) * o);
  }

  // ----- sums, products and cyclic folding -----

  function AddPoly(p: seq<int>, q: seq<int>): (r: seq<int>)
    ensures |r| == if |p| < |q| then |q| else |p|
  {
    if p == [] then q else if q == [] then p else [p[0] + q[0]] + AddPoly(p[1..], q[1..])
  }

  lemma {:induction false} EvalAdd(p: seq<int>, q: seq<int>, x: int)
    ensures Eval(AddPoly(p, q), x) == Eval(p, x) + Eval(q, x)
  {
    if p != [] && q != [] {
      EvalAdd(p[1..], q[1..], x);
      assert x * (Eval(p[1..], x) + Eval(q[1..], x)) == x * Eval(p[1..], x) + x * Eval(q[1..], x);
    }
  }

  function ScalePoly(c: int, p: seq<int>): (r: seq<int>)
    ensures |r| == |p| && forall i :: 0 <= i < |p| ==> r[i] == c * p[i]
  {
    seq(|p|, i requires 0 <= i < |p| => c * p[i])
  }

  lemma {:induction false} EvalScale(c: int, p: seq<int>, x: int)
    ensures Eval(ScalePoly(c, p), x) == c * Eval(p, x)
  {
    if p != [] {
      assert ScalePoly(c, p)[1..] == ScalePoly(c, p[1..]);
      EvalScale(c, p[1..], x);
      assert c * p[0] + x * (c * Eval(p[1..], x)) == c * (p[0] + x * Eval(p[1..], x));
    }
  }

  /** The product of two polynomials, by shifting and adding. */
  function Product(a: seq<int>, b: seq<int>): (r: seq<int>)
    requires b != []
    ensures |r| == if a == [] then 0 else |a| + |b| - 1
  {
    if a == [] then [] else AddPoly(ScalePoly(a[0], b), if |a| == 1 then [] else [0] + Product(a[1..], b))
  }

  lemma {:induction false} EvalProduct(a: seq<int>, b: seq<int>, x: int)
    requires b != []
    ensures Eval(Product(a, b), x) == Eval(a, x) * Eval(b, x)
  {
    if a != [] {
      EvalScale(a[0], b, x);
      if |a| == 1 {
        EvalAdd(ScalePoly(a[0], b), [], x);
        assert Eval(a[1..], x) == 0;
      } else {
        var t := [0] + Product(a[1..], b);
        EvalAdd(ScalePoly(a[0], b), t, x);
        EvalProduct(a[1..], b, x);
        assert t[1..] == Product(a[1..], b);
        ProductStep(a[0], x, Eval(a[1..], x), Eval(b, x));
      }
    }
  }

  lemma ProductStep(c: int, x: int, e: int, f: int)
    ensures c * f + x * (e * f) == (c + x * e) * f
  {
    assert x * (e * f) == (x * e) * f;
  }

  /** The coefficient at k as the sum of a[i] * b[k - i]. */
  function ConvolutionSum(a: seq<int>, b: seq<int>, k: int): int {
    if a == [] then 0
    else a[0] * (if 0 <= k < |b| then b[k] else 0) + ConvolutionSum(a[1..], b, k - 1)
  }

  lemma {:induction false} ConvolutionSumNegative(a: seq<int>, b: seq<int>, k: int)
    requires k < 0
    ensures ConvolutionSum(a, b, k) == 0
  {
    if a != [] { ConvolutionSumNegative(a[1..], b, k - 1); }
  }

  lemma {:induction false} AddPolyAt(p: seq<int>, q: seq<int>, k: nat)
    requires k < |AddPoly(p, q)|
    ensures AddPoly(p, q)[k] == (if k < |p| then p[k] else 0) + (if k < |q| then q[k] else 0)
  {
    if p != [] && q != [] && k > 0 { AddPolyAt(p[1..], q[1..], k - 1); }
  }

  lemma {:induction false} ProductIsConvolution(a: seq<int>, b: seq<int>, k: nat)
    requires b != [] && k < |Product(a, b)|
    ensures Product(a, b)[k] == ConvolutionSum(a, b, k)
  {
    var s := ScalePoly(a[0], b);
    var t := if |a| == 1 then [] else [0] + Product(a[1..], b);
    AddPolyAt(s, t, k);
    if |a| == 1 {
      assert a[1..] == [];
    } else if k == 0 {
      ConvolutionSumNegative(a[1..], b, -1);
    } else {
      ProductIsConvolution(a[1..], b, k - 1);
    }
  }

  lemma {:induction false} ConvolutionSumBound(a: seq<int>, b: seq<int>, k: int, bound: nat)
    requires forall i :: 0 <= i < |a| ==> 0 <= a[i] <= bound
    requires forall i :: 0 <= i < |b| ==> 0 <= b[i] <= bound
    ensures 0 <= ConvolutionSum(a, b, k) <= |a| * (bound * bound)
  {
    if a != [] {
      ConvolutionSumBound(a[1..], b, k - 1, bound);
      var y := if 0 <= k < |b| then b[k] else 0;
      MulBounds(a[0], y, bound, bound);
      assert |a| * (bound * bound) == bound * bound + (|a| - 1) * (bound * bound);
    }
  }

  /** Reduction modulo x^n - 1: blocks of n coefficients are added onto one another. */
  function Fold(p: seq<int>, n: nat): (r: seq<int>)
    requires n > 0
    ensures |r| == n
    decreases |p|
  {
    if |p| <= n then p + Zeros(n - |p|) else AddPoly(p[..n], Fold(p[n..], n))
  }

  lemma {:induction false} EvalFold(p: seq<int>, n: nat, x: int, m: int)
    requires n > 0 && m > 0 && Cong(Pow(x, n), 1, m)
    ensures Cong(Eval(Fold(p, n), x), Eval(p, x), m)
    decreases |p|
  {
    if |p| <= n {
      EvalConcat(p, Zeros(n - |p|), x);
      EvalZeros(n - |p|, x);
      assert Pow(x, |p|) * 0 == 0;
    } else {
      EvalFold(p[n..], n, x, m);
      EvalAdd(p[..n], Fold(p[n..], n), x);
      assert p == p[..n] + p[n..];
      EvalConcat(p[..n], p[n..], x);
      var t := Eval(p[n..], x);
      CongMul(Pow(x, n), 1, t, t, m);
      CongAdd(Eval(p[..n], x), Eval(p[..n], x), Eval(Fold(p[n..], n), x), t, m);
      CongAdd(Eval(p[..n], x), Eval(p[..n], x), Pow(x, n) * t, t, m);
    }
  }

  /** The sum of a[i] * b[(k - i) mod n], n being the length of b. */
  function CyclicSum(a: seq<int>, b: seq<int>, k: int): int
    requires b != []
  {
    if a == [] then 0 else a[0] * b[k % |b|] + CyclicSum(a[1..], b, k - 1)
  }

  lemma {:induction false} CyclicParts(a: seq<int>, b: seq<int>, k: int)
    requires b != [] && k < |b| && |a| <= k + |b| + 1
    ensures ConvolutionSum(a, b, k) + ConvolutionSum(a, b, k + |b|) == CyclicSum(a, b, k)
  {
    if a != [] {
      CyclicParts(a[1..], b, k - 1);
      DivModUnique(k, if k >= 0 then 0 else -1, if k >= 0 then k else k + |b|, |b|);
    }
  }

  /** Folding a product of two polynomials of n coefficients makes the convolution cyclic. */
  lemma CyclicProduct(a: seq<int>, b: seq<int>, n: nat, j: nat)
    requires |a| == |b| == n && j < n
    ensures Fold(Product(a, b), n)[j] == CyclicSum(a, b, j)
  {
    hide Product, ConvolutionSum, CyclicSum;
    var p := Product(a, b);
    FoldOnce(p, n, j);
    ProductIsConvolution(a, b, j);
    if j + n < |p| { ProductIsConvolution(a, b, j + n); } else { ConvolutionSumBeyond(a, b, j + n); }
    CyclicParts(a, b, j);
  }

  lemma FoldOnce(p: seq<int>, n: nat, j: nat)
    requires n > 0 && |p| < 2 * n && j < n && j < |p|
    ensures Fold(p, n)[j] == p[j] + (if j + n < |p| then p[j + n] else 0)
  {
    if |p| > n { AddPolyAt(p[..n], Fold(p[n..], n), j); }
  }

  /** A factor of zeros, and what is folded of it. */
  lemma {:induction false} ConvolutionSumZero(a: seq<int>, b: seq<int>, k: int)
    requires AllZero(a) || AllZero(b)
    ensures ConvolutionSum(a, b, k) == 0
  {
    if a != [] { ConvolutionSumZero(a[1..], b, k - 1); }
  }

  ghost predicate AllZero(p: seq<int>) {
    forall i :: 0 <= i < |p| ==> p[i] == 0
  }

  lemma {:induction false} FoldZero(p: seq<int>, n: nat)
    requires n > 0 && AllZero(p)
    ensures Fold(p, n) == Zeros(n)
    decreases |p|
  {
    if |p| > n {
      FoldZero(p[n..], n);
      forall k | 0 <= k < n
        ensures Fold(p, n)[k] == 0
      {
        AddPolyAt(p[..n], Fold(p[n..], n), k);
      }
    }
  }

  lemma ZeroProduct(a: seq<int>, b: seq<int>, n: nat)
    requires b != [] && n > 0 && (AllZero(a) || AllZero(b))
    ensures Fold(Product(a, b), n) == Zeros(n)
  {
    var p := Product(a, b);
    forall k | 0 <= k < |p|
      ensures p[k] == 0
    {
      ProductIsConvolution(a, b, k);
      ConvolutionSumZero(a, b, k);
    }
    FoldZero(p, n);
  }

  // ----- zero padding -----

  lemma {:induction false} AddPolyZeros(p: seq<int>, n: nat)
    requires n <= |p|
    ensures AddPoly(p, Zeros(n)) == p
  {
    if n > 0 {
      assert Zeros(n)[1..] == Zeros(n - 1);
      AddPolyZeros(p[1..], n - 1);
    }
  }

  /** A polynomial of degree below n, followed by zeros, does not wrap around. */
  lemma {:induction false} FoldPadded(p: seq<int>, z: nat, n: nat)
    requires n > 0 && |p| <= n
    ensures Fold(p + Zeros(z), n) == p + Zeros(n - |p|)
  {
    var q := p + Zeros(z);
    if |q| <= n {
      assert q + Zeros(n - |q|) == p + Zeros(n - |p|);
    } else {
      assert q[..n] == p + Zeros(n - |p|);
      assert q[n..] == Zeros(|q| - n);
      FoldPaddedZeros(|q| - n, n);
      AddPolyZeros(q[..n], n);
    }
  }

  lemma {:induction false} FoldPaddedZeros(z: nat, n: nat)
    requires n > 0
    ensures Fold(Zeros(z), n) == Zeros(n)
  {
    if z > n {
      assert Zeros(z)[..n] == Zeros(n) && Zeros(z)[n..] == Zeros(z - n);
      FoldPaddedZeros(z - n, n);
      AddPolyZeros(Zeros(n), n);
    } else {
      assert Zeros(z) + Zeros(n - z) == Zeros(n);
    }
  }

  lemma {:induction false} ConvolutionSumPadRight(a: seq<int>, b: seq<int>, z: nat, k: int)
    ensures ConvolutionSum(a, b + Zeros(z), k) == ConvolutionSum(a, b, k)
  {
    if a != [] { ConvolutionSumPadRight(a[1..], b, z, k - 1); }
  }

  lemma {:induction false} ConvolutionSumPadLeft(a: seq<int>, b: seq<int>, z: nat, k: int)
    ensures ConvolutionSum(a + Zeros(z), b, k) == ConvolutionSum(a, b, k)
    decreases |a| + z
  {
    if a == [] {
      assert a + Zeros(z) == Zeros(z);
      if z > 0 {
        assert Zeros(z)[1..] == a + Zeros(z - 1);
        ConvolutionSumPadLeft(a, b, z - 1, k - 1);
      }
    } else {
      assert (a + Zeros(z))[1..] == a[1..] + Zeros(z);
      ConvolutionSumPadLeft(a[1..], b, z, k - 1);
    }
  }

  lemma {:induction false} ConvolutionSumBeyond(a: seq<int>, b: seq<int>, k: int)
    requires k >= |a| + |b| - 1
    ensures ConvolutionSum(a, b, k) == 0
  {
    if a != [] { ConvolutionSumBeyond(a[1..], b, k - 1); }
  }

  /** Padding the factors to length n leaves the cyclic product equal to the plain one. */
  lemma PaddedProduct(a: seq<int>, b: seq<int>, n: nat)
    requires a != [] && b != [] && |a| + |b| <= n
    ensures Fold(Product(a + Zeros(n - |a|), b + Zeros(n - |b|)), n)
         == Product(a, b) + Zeros(n - |Product(a, b)|)
  {
    var a', b' := a + Zeros(n - |a|), b + Zeros(n - |b|);
    var p, p' := Product(a, b), Product(a', b');
    forall k | 0 <= k < |p'|
      ensures p'[k] == (p + Zeros(|p'| - |p|))[k]
    {
      ProductIsConvolution(a', b', k);
      ConvolutionSumPadLeft(a, b', n - |a|, k);
      ConvolutionSumPadRight(a, b, n - |b|, k);
      if k < |p| { ProductIsConvolution(a, b, k); } else { ConvolutionSumBeyond(a, b, k); }
    }
    assert p' == p + Zeros(|p'| - |p|);
    FoldPadded(p, |p'| - |p|, n);
  }
}
