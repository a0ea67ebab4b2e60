/**
 Positional notation, least significant digit first. The number a digit sequence stands for
 is the polynomial with those coefficients evaluated at the base.
 */
module Digits {
  import opened Arith
  import opened Polynomial

  ghost predicate DigitsOf(ds: seq<int>, b: int) {
    forall i :: 0 <= i < |ds| ==> 0 <= ds[i] < b
  }

  lemma {:induction false} DigitsBound(ds: seq<int>, b: int)
    requires b > 0 && DigitsOf(ds, b)
    ensures 0 <= Eval(ds, b) < Pow(b, |ds|)
  {
    if ds != [] {
      DigitsBound(ds[1..], b);
      HornerBound(ds[0], b, Eval(ds[1..], b), Pow(b, |ds| - 1));
    }
  }

  lemma HornerBound(d: int, b: int, e: int, p: int)
    requires 0 <= d < b && 0 <= e < p
    ensures 0 <= d + b * e < b * p
  {
    MulMonotone(0, e, b);
    MulMonotone(e, p - 1, b);
    assert (p - 1) * b == b * p - b;
  }

  /** Adding, replacing or moving one digit. */
  lemma PrefixStep(ds: seq<int>, i: nat, b: int)
    requires i < |ds|
    ensures Eval(ds[..i + 1], b) == Eval(ds[..i], b) + ds[i] * Pow(b, i)
  {
    assert ds[..i + 1] == ds[..i] + [ds[i]];
    EvalSnoc(ds[..i], ds[i], b);
  }

  lemma {:induction false} UpdateDigit(ds: seq<int>, k: nat, v: int, b: int)
    requires k < |ds|
    ensures Eval(ds[k := v], b) == Eval(ds, b) + (v - ds[k]) * Pow(b, k)
  {
    if k == 0 {
      assert ds[k := v][1..] == ds[1..];
    } else {
      assert ds[k := v][1..] == ds[1..][k - 1 := v];
      UpdateDigit(ds[1..], k - 1, v, b);
      UpdateStep(b, Eval(ds[1..], b), v - ds[k], Pow(b, k - 1));
    }
  }

  lemma UpdateStep(b: int, e: int, d: int, p: int)
    ensures b * (e + d * p) == b * e + d * (b * p)
  {
    assert b * (d * p) == d * (b * p);
  }

  lemma CarryStep(sum: int, b: int, p: int)
    requires b > 0
    ensures (sum % b) * p + (sum / b) * (b * p) == sum * p
  {
    DivBounds(sum, b);
    assert (sum / b) * (b * p) == ((sum / b) * b) * p;
    assert sum * p == ((sum / b) * b + sum % b) * p == ((sum / b) * b) * p + (sum % b) * p;
  }

  lemma {:induction false} DropLeadingZeros(ds: seq<int>, z: nat, b: int)
    ensures Eval(ds + Zeros(z), b) == Eval(ds, b)
  {
    EvalConcat(ds, Zeros(z), b);
    EvalZeros(z, b);
    assert Pow(b, |ds|) * 0 == 0;
  }

  lemma TopDigit(ds: seq<int>, b: int)
    requires b > 0 && ds != [] && DigitsOf(ds, b)
    ensures Eval(ds, b) == Eval(ds[..|ds| - 1], b) + ds[|ds| - 1] * Pow(b, |ds| - 1)
    ensures ds[|ds| - 1] != 0 ==> Eval(ds, b) >= Pow(b, |ds| - 1)
  {
    var k := |ds| - 1;
    assert ds[..k + 1] == ds;
    PrefixStep(ds, k, b);
    DigitsBound(ds[..k], b);
    PowPositive(b, k);
    if ds[k] != 0 { MulMonotone(1, ds[k], Pow(b, k)); }
  }

  lemma {:induction false} PowMonotone(b: int, x: nat, y: nat)
    requires b > 0 && x <= y
    ensures Pow(b, x) <= Pow(b, y)
    decreases y
  {
    PowPositive(b, x);
    if x < y {
      PowMonotone(b, x, y - 1);
      MulMonotone(1, b, Pow(b, y - 1));
    }
  }

  /** A longer numeral without leading zeros is the larger number. */
  lemma LongerIsLarger(xs: seq<int>, ys: seq<int>, b: int)
    requires b > 0 && DigitsOf(xs, b) && DigitsOf(ys, b)
    requires |xs| < |ys| && ys[|ys| - 1] != 0
    ensures Eval(xs, b) < Eval(ys, b)
  {
    DigitsBound(xs, b);
    TopDigit(ys, b);
    PowMonotone(b, |xs|, |ys| - 1);
  }

  /** The first difference from the top decides. */
  lemma TopDifferenceDecides(xs: seq<int>, ys: seq<int>, i: nat, b: int)
    requires b > 0 && DigitsOf(xs, b) && DigitsOf(ys, b)
    requires |xs| == |ys| && i < |xs| && xs[i + 1..] == ys[i + 1..] && xs[i] < ys[i]
    ensures Eval(xs, b) < Eval(ys, b)
  {
    assert xs == xs[..i + 1] + xs[i + 1..] && ys == ys[..i + 1] + ys[i + 1..];
    EvalConcat(xs[..i + 1], xs[i + 1..], b);
    EvalConcat(ys[..i + 1], ys[i + 1..], b);
    PrefixStep(xs, i, b);
    PrefixStep(ys, i, b);
    DigitsBound(xs[..i], b);
    DigitsBound(ys[..i], b);
    MulMonotone(xs[i] + 1, ys[i], Pow(b, i));
    assert (xs[i] + 1) * Pow(b, i) == xs[i] * Pow(b, i) + Pow(b, i);
  }

  /** Numerals of equal length are determined by their number. */
  lemma {:induction false} SameLengthUnique(xs: seq<int>, ys: seq<int>, b: int)
    requires b > 0 && DigitsOf(xs, b) && DigitsOf(ys, b)
    requires |xs| == |ys| && Eval(xs, b) == Eval(ys, b)
    ensures xs == ys
  {
    if xs != [] {
      DivModUnique(Eval(xs, b), Eval(xs[1..], b), xs[0], b);
      DivModUnique(Eval(ys, b), Eval(ys[1..], b), ys[0], b);
      SameLengthUnique(xs[1..], ys[1..], b);
    }
  }

  ghost predicate NoLeadingZeros(ds: seq<int>) {
    ds != [] && (|ds| > 1 ==> ds[|ds| - 1] != 0)
  }

  /** The normal form of a number is unique. */
  lemma NormalUnique(xs: seq<int>, ys: seq<int>, b: int)
    requires b > 0 && DigitsOf(xs, b) && DigitsOf(ys, b) && NoLeadingZeros(xs) && NoLeadingZeros(ys)
    requires Eval(xs, b) == Eval(ys, b)
    ensures xs == ys
  {
    if |xs| < |ys| { LongerIsLarger(xs, ys, b); }
    if |ys| < |xs| { LongerIsLarger(ys, xs, b); }
    SameLengthUnique(xs, ys, b);
  }

  lemma ZeroNumeral(ds: seq<int>, b: int)
    requires b > 0 && DigitsOf(ds, b) && NoLeadingZeros(ds)
    ensures Eval(ds, b) == 0 <==> ds == [0]
  {
    assert Eval([0], b) == 0;
    if Eval(ds, b) == 0 { NormalUnique(ds, [0], b); }
  }
}
