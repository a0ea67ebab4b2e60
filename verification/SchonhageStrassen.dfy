/**
 The Schonhage-Strassen rule of multiply_assign: digits in base MOD1 - 1, two cyclic
 convolutions, the Chinese remainder step, carrying, and reassembly. The product is exact
 precisely when no convolution coefficient reaches MOD1 * MOD2.
 */
module SchonhageStrassen {
  import opened Arith
  import opened Polynomial
  import opened Digits
  import opened BigInts
  import opened Ntt
  import opened NttTables

  const SSA_BASE: int := MOD1 - 1

  // ----- what the rule computes -----

  /** The digits of n, least significant first, none for zero. */
  ghost function DigitsIn(n: nat, b: int): seq<int>
    requires b > 1
    decreases n
  {
    if n == 0 then [] else
      DivBounds(n, b);
      assert n / b < n by { if n / b >= n { assert (n / b) * b >= n * b; MulMonotone(2, b, n); } }
      [n % b] + DigitsIn(n / b, b)
  }

  lemma {:induction false} DigitsInMeans(n: nat, b: int)
    requires b > 1
    ensures DigitsOf(DigitsIn(n, b), b) && Eval(DigitsIn(n, b), b) == n
    ensures n > 0 ==> DigitsIn(n, b) != []
    decreases n
  {
    if n > 0 {
      DivBounds(n, b);
      assert n / b < n by { if n / b >= n { assert (n / b) * b >= n * b; MulMonotone(2, b, n); } }
      DigitsInMeans(n / b, b);
      assert DigitsIn(n, b)[1..] == DigitsIn(n / b, b);
    }
  }

  /** Each coefficient as the two residues determine it. */
  ghost function Wrapped(c: seq<int>): (r: seq<int>)
    ensures |r| == |c| && forall i :: 0 <= i < |c| ==> r[i] == c[i] % CRT_MODULUS
  {
    seq(|c|, i requires 0 <= i < |c| => c[i] % CRT_MODULUS)
  }

  /** The coefficients of the digit convolution of two magnitudes. */
  ghost function Coefficients(a: nat, b: nat): seq<int>
    requires b > 0
  {
    DigitsInMeans(b, SSA_BASE);
    Product(DigitsIn(a, SSA_BASE), DigitsIn(b, SSA_BASE))
  }

  /** The magnitude the rule returns. */
  ghost function SsaProduct(a: nat, b: nat): int
    requires b > 0
  {
    Eval(Wrapped(Coefficients(a, b)), SSA_BASE)
  }

  lemma CoefficientsMean(a: nat, b: nat)
    requires b > 0
    ensures Eval(Coefficients(a, b), SSA_BASE) == a * b
    ensures forall i :: 0 <= i < |Coefficients(a, b)| ==> Coefficients(a, b)[i] >= 0
  {
    var da, db := DigitsIn(a, SSA_BASE), DigitsIn(b, SSA_BASE);
    DigitsInMeans(a, SSA_BASE);
    DigitsInMeans(b, SSA_BASE);
    EvalProduct(da, db, SSA_BASE);
    var c := Coefficients(a, b);
    forall i | 0 <= i < |c|
      ensures c[i] >= 0
    {
      ProductIsConvolution(da, db, i);
      ConvolutionSumBound(da, db, i, SSA_BASE);
    }
  }

  lemma {:induction false} WrappingOnlyLoses(c: seq<int>)
    requires forall i :: 0 <= i < |c| ==> c[i] >= 0
    ensures Eval(Wrapped(c), SSA_BASE) <= Eval(c, SSA_BASE)
    ensures Eval(Wrapped(c), SSA_BASE) == Eval(c, SSA_BASE)
            <==> forall i :: 0 <= i < |c| ==> c[i] < CRT_MODULUS
  {
    if c != [] {
      assert Wrapped(c)[1..] == Wrapped(c[1..]);
      WrappingOnlyLoses(c[1..]);
      DivBounds(c[0], CRT_MODULUS);
      if c[0] < CRT_MODULUS { ModSmall(c[0], CRT_MODULUS); }
      assert forall i :: 1 <= i < |c| ==> c[i] == c[1..][i - 1];
    }
  }

  /** What the residues of a coefficient do not show: how often MOD1 * MOD2 goes into it. */
  ghost function Lost(c: seq<int>): (r: seq<int>)
    ensures |r| == |c| && forall i :: 0 <= i < |c| ==> r[i] == c[i] / (998244353 * 2113929217)
  {
    seq(|c|, i requires 0 <= i < |c| => c[i] / CRT_MODULUS)
  }

  lemma {:induction false} WrappedAndLost(c: seq<int>, x: int)
    ensures Eval(Wrapped(c), x) + CRT_MODULUS * Eval(Lost(c), x) == Eval(c, x)
  {
    if c != [] {
      assert Wrapped(c)[1..] == Wrapped(c[1..]) && Lost(c)[1..] == Lost(c[1..]);
      WrappedAndLost(c[1..], x);
      DivBounds(c[0], CRT_MODULUS);
      var e, f := Eval(Wrapped(c[1..]), x), Eval(Lost(c[1..]), x);
      assert x * (e + CRT_MODULUS * f) == x * e + CRT_MODULUS * (x * f);
    }
  }

  /** What the rule returns for any two magnitudes: the product less what the residues lose, digit by digit. */
  lemma SsaMisses(a: nat, b: nat)
    requires b > 0
    ensures SsaProduct(a, b) + (998244353 * 2113929217) * Eval(Lost(Coefficients(a, b)), 998244352) == a * b
    ensures forall i :: 0 <= i < |Coefficients(a, b)| ==>
                Coefficients(a, b)[i] == ConvolutionSum(DigitsIn(a, 998244352), DigitsIn(b, 998244352), i)
  {
    hide Product, Eval, ConvolutionSum, DigitsIn;
    CoefficientsMean(a, b);
    WrappedAndLost(Coefficients(a, b), SSA_BASE);
    DigitsInMeans(b, SSA_BASE);
    forall i | 0 <= i < |Coefficients(a, b)|
      ensures Coefficients(a, b)[i] == ConvolutionSum(DigitsIn(a, SSA_BASE), DigitsIn(b, SSA_BASE), i)
    {
      ProductIsConvolution(DigitsIn(a, SSA_BASE), DigitsIn(b, SSA_BASE), i);
    }
  }

  /** The rule is exact on two magnitudes if and only if every coefficient stays below MOD1 * MOD2. */
  lemma ExactlyWhenNoOverflow(a: nat, b: nat)
    requires b > 0
    ensures SsaProduct(a, b) == a * b
            <==> forall i :: 0 <= i < |Coefficients(a, b)| ==> Coefficients(a, b)[i] < CRT_MODULUS
  {
    CoefficientsMean(a, b);
    WrappingOnlyLoses(Coefficients(a, b));
  }

  lemma {:induction false} ConvolutionSumCommutes(a: seq<int>, b: seq<int>, k: int)
    ensures ConvolutionSum(a, b, k) == ConvolutionSum(b, a, k)
  {
    if a == [] {
      ConvolutionSumEmpty(b, k);
    } else {
      ConvolutionSumCommutes(a[1..], b, k - 1);
      ConvolutionSumShift(b, a, k);
    }
  }

  lemma {:induction false} ConvolutionSumEmpty(b: seq<int>, k: int)
    ensures ConvolutionSum(b, [], k) == 0
  {
    if b != [] { ConvolutionSumEmpty(b[1..], k - 1); }
  }

  lemma {:induction false} ConvolutionSumShift(b: seq<int>, a: seq<int>, k: int)
    requires a != []
    ensures ConvolutionSum(b, a, k)
         == a[0] * (if 0 <= k < |b| then b[k] else 0) + ConvolutionSum(b, a[1..], k - 1)
  {
    if b != [] {
      ConvolutionSumShift(b[1..], a, k - 1);
      if k < 0 {
        ConvolutionSumNegative(b[1..], a, k - 1);
        ConvolutionSumNegative(b[1..], a[1..], k - 2);
      }
    }
  }

  lemma ShortSum(da: seq<int>, db: seq<int>, k: int)
    requires DigitsOf(da, SSA_BASE) && DigitsOf(db, SSA_BASE) && (|da| <= 2 || |db| <= 2)
    ensures ConvolutionSum(da, db, k) < CRT_MODULUS
  {
    hide ConvolutionSum;
    var m := SSA_BASE - 1;
    ConvolutionSumCommutes(da, db, k);
    ConvolutionSumBound(da, db, k, m);
    ConvolutionSumBound(db, da, k, m);
    assert 2 * (m * m) < CRT_MODULUS;
    if |da| <= 2 { MulMonotone(|da|, 2, m * m); } else { MulMonotone(|db|, 2, m * m); }
  }

  /** With at most two digits in the shorter factor the product is always exact. */
  lemma ExactForShortOperand(a: nat, b: nat)
    requires b > 0
    requires |DigitsIn(a, SSA_BASE)| <= 2 || |DigitsIn(b, SSA_BASE)| <= 2
    ensures SsaProduct(a, b) == a * b
  {
    var da, db := DigitsIn(a, SSA_BASE), DigitsIn(b, SSA_BASE);
    DigitsInMeans(a, SSA_BASE);
    DigitsInMeans(b, SSA_BASE);
    var c := Coefficients(a, b);
    forall i | 0 <= i < |c|
      ensures c[i] < CRT_MODULUS
    {
      ProductIsConvolution(da, db, i);
      ShortSum(da, db, i);
    }
    ExactlyWhenNoOverflow(a, b);
  }

  /** Three digits on each side already overflow: the largest three-digit number squared comes out too small. */
  lemma ThreeDigitsOverflow()
    ensures var n := SSA_BASE * SSA_BASE * SSA_BASE - 1;
            n > 0 && |DigitsIn(n, SSA_BASE)| == 3 && SsaProduct(n, n) < n * n
  {
    var b, d := SSA_BASE, SSA_BASE - 1;
    var n := b * b * b - 1;
    DivModUnique(n, b * b - 1, d, b);
    DivModUnique(b * b - 1, b - 1, d, b);
    DivModUnique(b - 1, 0, d, b);
    assert DigitsIn(b - 1, b) == [d];
    assert DigitsIn(b * b - 1, b) == [d, d];
    var ds := DigitsIn(n, b);
    assert ds == [d, d, d];
    var c := Coefficients(n, n);
    ProductIsConvolution(ds, ds, 2);
    var d2, d1 := ds[1..], ds[1..][1..];
    assert d2 == [d, d] && d1 == [d] && d1[1..] == [];
    assert ConvolutionSum(d1, ds, 0) == d * d;
    assert ConvolutionSum(d2, ds, 1) == d * d + d * d;
    assert ConvolutionSum(ds, ds, 2) == d * d + (d * d + d * d);
    assert 3 * (d * d) >= CRT_MODULUS;
    assert c[2] >= CRT_MODULUS;
    ExactlyWhenNoOverflow(n, n);
    CoefficientsMean(n, n);
    WrappingOnlyLoses(c);
  }

  // ----- the steps -----

  /** The extraction loop: it consumes its argument, as the source consumes a copy. */
  method ExtractDigits(number: BigInt) returns (ds: seq<int>)
    requires number.Valid()
    modifies number
    ensures ds == DigitsIn(Abs(old(number.Val())), SSA_BASE)
  {
    ds := [];
    var base := new BigInt.FromInt(SSA_BASE);
    ghost var whole := Abs(number.Val());
    number.IsZeroMeans();
    while !number.IsZero()
      invariant number != base && number.Valid() && base.Valid() && base.Val() == SSA_BASE
      invariant number.IsZero() <==> number.Val() == 0
      invariant ds + DigitsIn(Abs(number.Val()), SSA_BASE) == DigitsIn(whole, SSA_BASE)
      decreases Abs(number.Val())
    {
      var d := TakeBaseDigit(number, base);
      AppendFront(ds, d, DigitsIn(Abs(number.Val()), SSA_BASE));
      ds := ds + [d];
      number.IsZeroMeans();
    }
    assert DigitsIn(0, SSA_BASE) == [];
  }

  lemma AppendFront(ds: seq<int>, d: int, rest: seq<int>)
    ensures ds + ([d] + rest) == (ds + [d]) + rest
  {
  }

  method TakeBaseDigit(number: BigInt, base: BigInt) returns (d: int)
    requires number != base && number.Valid() && number.Val() != 0 && base.Valid() && base.Val() == SSA_BASE
    modifies number
    ensures number.Valid() && Abs(number.Val()) < Abs(old(number.Val()))
    ensures DigitsIn(Abs(old(number.Val())), SSA_BASE) == [d] + DigitsIn(Abs(number.Val()), SSA_BASE)
  {
    BaseQuotient(number.Val());
    hide DigitsIn, TruncatedQuotient, MagnitudeRemainder;
    var rest := new BigInt.Copy(number);
    var ok := rest.ModuloAssign(base);
    SingleLimb(rest.sign, rest.digits);
    d := rest.digits[0];
    ok := number.DivideAssign(base);
  }

  lemma BaseQuotient(v: int)
    requires v != 0
    ensures 0 <= MagnitudeRemainder(v, SSA_BASE) < SSA_BASE
    ensures Abs(TruncatedQuotient(v, SSA_BASE)) < Abs(v)
    ensures DigitsIn(Abs(v), SSA_BASE)
         == [MagnitudeRemainder(v, SSA_BASE)] + DigitsIn(Abs(TruncatedQuotient(v, SSA_BASE)), SSA_BASE)
  {
    DivBounds(Abs(v), SSA_BASE);
  }

  /** Carrying keeps the number and brings every entry below the base. */
  method Normalize(product: seq<int>) returns (result: seq<int>)
    requires forall i :: 0 <= i < |product| ==> 0 <= product[i] < CRT_MODULUS
    ensures DigitsOf(result, SSA_BASE) && Eval(result, SSA_BASE) == Eval(product, SSA_BASE)
  {
    result := product;
    var carry := 0;
    var i := 0;
    assert product[..0] == [] && result[..0] == [];
    while i < |product|
      invariant 0 <= i <= |product| == |result| && 0 <= carry < BASE
      invariant DigitsOf(result[..i], SSA_BASE)
      invariant forall j :: i <= j < |product| ==> result[j] == product[j]
      invariant Eval(result[..i], SSA_BASE) + carry * Pow(SSA_BASE, i) == Eval(product[..i], SSA_BASE)
    {
      var x := result[i] + carry;
      assert x < LL_LIMIT;
      NormalizeStep(product, result, i, carry);
      carry := x / SSA_BASE;
      result := result[i := x % SSA_BASE];
      i := i + 1;
    }
    assert product[..|product|] == product && result[..|product|] == result;
    while carry > 0
      invariant carry >= 0 && DigitsOf(result, SSA_BASE)
      invariant Eval(result, SSA_BASE) + carry * Pow(SSA_BASE, |result|) == Eval(product, SSA_BASE)
      decreases carry
    {
      DivBounds(carry, SSA_BASE);
      EvalSnoc(result, carry % SSA_BASE, SSA_BASE);
      CarryStep(carry, SSA_BASE, Pow(SSA_BASE, |result|));
      result := result + [carry % SSA_BASE];
      carry := carry / SSA_BASE;
    }
  }

  lemma CarryAdds(x: int, carry: int, p: int)
    ensures ((x + carry) % SSA_BASE) * p + ((x + carry) / SSA_BASE) * (SSA_BASE * p) == x * p + carry * p
  {
    CarryStep(x + carry, SSA_BASE, p);
  }

  lemma NormalizeStep(product: seq<int>, result: seq<int>, i: nat, carry: int)
    requires i < |product| == |result| && 0 <= carry < BASE
    requires DigitsOf(result[..i], SSA_BASE) && result[i] == product[i] && 0 <= product[i] < CRT_MODULUS
    requires Eval(result[..i], SSA_BASE) + carry * Pow(SSA_BASE, i) == Eval(product[..i], SSA_BASE)
    ensures var x := result[i] + carry;
            0 <= x / SSA_BASE < BASE &&
            DigitsOf(result[i := x % SSA_BASE][..i + 1], SSA_BASE) &&
            Eval(result[i := x % SSA_BASE][..i + 1], SSA_BASE) + (x / SSA_BASE) * Pow(SSA_BASE, i + 1)
            == Eval(product[..i + 1], SSA_BASE)
  {
    var x := result[i] + carry;
    var next := result[i := x % SSA_BASE];
    CarryRange(x);
    assert next[..i] == result[..i] && next[..i + 1] == result[..i] + [x % SSA_BASE];
    hide DigitsOf, Eval, Pow;
    PrefixStep(next, i, SSA_BASE);
    PrefixStep(product, i, SSA_BASE);
    CarryAdds(product[i], carry, Pow(SSA_BASE, i));
    assert Pow(SSA_BASE, i + 1) == SSA_BASE * Pow(SSA_BASE, i) by { PowNext(i); }
  }

  lemma PowNext(i: nat)
    ensures Pow(SSA_BASE, i + 1) == SSA_BASE * Pow(SSA_BASE, i)
  {
  }

  lemma CarryRange(x: int)
    requires 0 <= x < CRT_MODULUS + BASE
    ensures 0 <= x / SSA_BASE < BASE && 0 <= x % SSA_BASE < SSA_BASE
  {
    DivBounds(x, SSA_BASE);
  }

  /** One pass of the reassembly loop. */
  method AddWeighted(result: BigInt, pow: BigInt, base: BigInt, digit: int)
    requires result != pow && result != base && pow != base && 0 <= digit < SSA_BASE
    requires result.Valid() && pow.Valid() && base.Valid() && base.Val() == SSA_BASE
    modifies result, pow
    ensures result.Valid() && result.Val() == old(result.Val()) + digit * old(pow.Val())
    ensures pow.Valid() && pow.Val() == old(pow.Val()) * SSA_BASE
  {
    var tmp := new BigInt.FromInt(digit);
    tmp.MultiplyAssign(pow);
    result.PlusAssign(tmp);
    pow.MultiplyAssign(base);
  }

  /** The final loop: the digits are weighted with growing powers of the base and added up. */
  method Reassemble(combined: seq<int>) returns (result: BigInt)
    requires DigitsOf(combined, SSA_BASE)
    ensures fresh(result) && result.Valid() && result.Val() == Eval(combined, SSA_BASE)
  {
    result := new BigInt.FromInt(0);
    var pow := new BigInt.FromInt(1);
    var base := new BigInt.FromInt(SSA_BASE);
    var i := 0;
    assert combined[..0] == [];
    hide NormalForm;
    while i < |combined|
      invariant 0 <= i <= |combined| && fresh(result) && fresh(pow) && fresh(base)
      invariant result != pow && result != base && pow != base
      invariant result.Valid() && pow.Valid() && base.Valid() && base.Val() == SSA_BASE
      invariant pow.Val() == Pow(SSA_BASE, i)
      invariant result.Val() == Eval(combined[..i], SSA_BASE)
    {
      PrefixStep(combined, i, SSA_BASE);
      AddWeighted(result, pow, base, combined[i]);
      assert pow.Val() == Pow(SSA_BASE, i) * SSA_BASE == Pow(SSA_BASE, i + 1);
      i := i + 1;
    }
    assert combined[..|combined|] == combined;
  }

  // ----- the rule -----

  /** The static tables and their initialisation flag. */
  class Tables {
    const pws1: array<int>
    const ipws1: array<int>
    const pws2: array<int>
    const ipws2: array<int>
    var initialized: bool

    ghost predicate Valid()
      reads this, pws1, ipws1, pws2, ipws2
    {
      pws1 != ipws1 && pws2 != ipws2 && {pws1, ipws1} !! {pws2, ipws2} &&
      pws1.Length == ipws1.Length == pws2.Length == ipws2.Length == MAXN + 1 &&
      (initialized ==> Filled(pws1[..], ipws1[..], W1, IW1, MOD1) && Filled(pws2[..], ipws2[..], W2, IW2, MOD2))
    }

    static ghost predicate Filled(p: seq<int>, q: seq<int>, w: int, iw: int, m: int)
      requires m > 0
    {
      Squares(p, 0, m) && Squares(q, 0, m) && p[MAXN] == w && q[MAXN] == iw
    }

    constructor ()
      ensures Valid() && fresh(pws1) && fresh(ipws1) && fresh(pws2) && fresh(ipws2)
    {
      pws1, ipws1 := new int[MAXN + 1], new int[MAXN + 1];
      pws2, ipws2 := new int[MAXN + 1], new int[MAXN + 1];
      initialized := false;
    }

    /** init, run before the first use. */
    method Init()
      requires Valid()
      modifies this, pws1, ipws1, pws2, ipws2
      ensures Valid() && initialized
    {
      Constants1();
      Constants2();
      if !initialized {
        FillTables(pws1, ipws1, W1, IW1, MOD1);
        ghost var p, q := pws1[..], ipws1[..];
        FillTables(pws2, ipws2, W2, IW2, MOD2);
        assert pws1[..] == p && ipws1[..] == q;
        initialized := true;
      }
    }
  }

  /** The vectors padded to a power-of-two length. */
  method TransformLength(size: nat) returns (n: nat)
    requires size <= MAXN
    ensures IsPow2(n) && size <= n <= MAXN
  {
    MaxnIsPow2();
    n := 1;
    while n < size
      invariant IsPow2(n) && 1 <= n <= MAXN
      decreases size - n
    {
      if n < MAXN { Pow2Gap(n, MAXN); }
      Pow2Double(n);
      n := n * 2;
    }
  }

  method PaddedArray(ds: seq<int>, n: nat) returns (a: array<int>)
    requires |ds| <= n && DigitsOf(ds, SSA_BASE)
    ensures fresh(a) && a.Length == n && a[..] == ds + Zeros(n - |ds|)
    ensures Residues(a[..], MOD1) && Residues(a[..], MOD2)
  {
    a := new int[n](_ => 0);
    forall i | 0 <= i < |ds| {
      a[i] := ds[i];
    }
    assert a[..] == ds + Zeros(n - |ds|);
  }

  /** Both cyclic products combined by the Chinese remainder step: the coefficients modulo MOD1 * MOD2. */
  method CombinedProduct(da: seq<int>, db: seq<int>, tables: Tables) returns (combined: seq<int>)
    requires |da| + |db| <= MAXN
    requires DigitsOf(da, SSA_BASE) && DigitsOf(db, SSA_BASE)
    requires tables.Valid() && tables.initialized
    ensures forall i :: 0 <= i < |combined| ==> 0 <= combined[i] < CRT_MODULUS
    ensures Eval(combined, SSA_BASE) == if da == [] || db == [] then 0 else Eval(Wrapped(Product(da, db)), SSA_BASE)
  {
    hide Fold, Product, Eval, Wrapped, Crt, IsPow2, DigitsOf;
    var n := TransformLength(|da| + |db|);
    var a := PaddedArray(da, n);
    var b := PaddedArray(db, n);
    Constants1();
    Constants2();
    TablesReady(tables.pws1[..], tables.ipws1[..], W1, IW1, n, MOD1, INV21);
    TablesReady(tables.pws2[..], tables.ipws2[..], W2, IW2, n, MOD2, INV22);
    var res1 := PolyMultiply(a, b, n, MOD1, tables.pws1, tables.ipws1, INV21);
    var res2 := PolyMultiply(a, b, n, MOD2, tables.pws2, tables.ipws2, INV22);
    ghost var c := Fold(Product(a[..], b[..]), n);
    combined := [];
    var i := 0;
    while i < n
      invariant 0 <= i <= n && |combined| == i
      invariant forall j :: 0 <= j < n ==> res1[j] == c[j] % MOD1 && res2[j] == c[j] % MOD2
      invariant forall j :: 0 <= j < i ==> combined[j] == c[j] % CRT_MODULUS
    {
      CrtRecovers(c[i]);
      combined := combined + [Crt(res1[i], res2[i])];
      i := i + 1;
    }
    CombinedValue(da, db, n, combined);
  }

  /** The coefficients of the padded digits, taken modulo MOD1 * MOD2, carry the value of the product. */
  lemma CombinedValue(da: seq<int>, db: seq<int>, n: nat, combined: seq<int>)
    requires |da| + |db| <= n == |combined| && n > 0
    requires var c := Fold(Product(da + Zeros(n - |da|), db + Zeros(n - |db|)), n);
             forall j :: 0 <= j < n ==> combined[j] == c[j] % CRT_MODULUS
    ensures forall i :: 0 <= i < n ==> 0 <= combined[i] < CRT_MODULUS
    ensures Eval(combined, SSA_BASE) == if da == [] || db == [] then 0 else Eval(Wrapped(Product(da, db)), SSA_BASE)
  {
    hide Fold, Product, Eval;
    if da == [] || db == [] {
      var a, b := da + Zeros(n - |da|), db + Zeros(n - |db|);
      ZeroProduct(a, b, n);
      AllWrapToZero(Fold(Product(a, b), n), combined);
    } else {
      PaddedProduct(da, db, n);
      PaddingWraps(Product(da, db), combined, n);
    }
  }

  lemma AllWrapToZero(c: seq<int>, combined: seq<int>)
    requires c == Zeros(|c|) && |combined| == |c|
    requires forall j :: 0 <= j < |c| ==> combined[j] == c[j] % CRT_MODULUS
    ensures Eval(combined, SSA_BASE) == 0
    ensures forall i :: 0 <= i < |combined| ==> 0 <= combined[i] < CRT_MODULUS
  {
    assert combined == Zeros(|c|);
    EvalZeros(|c|, SSA_BASE);
  }

  lemma PaddingWraps(p: seq<int>, combined: seq<int>, n: nat)
    requires |p| <= n == |combined|
    requires forall j :: 0 <= j < n ==> combined[j] == (p + Zeros(n - |p|))[j] % CRT_MODULUS
    ensures Eval(combined, SSA_BASE) == Eval(Wrapped(p), SSA_BASE)
    ensures forall i :: 0 <= i < n ==> 0 <= combined[i] < CRT_MODULUS
  {
    assert combined == Wrapped(p) + Zeros(n - |p|);
    DropLeadingZeros(Wrapped(p), n - |p|, SSA_BASE);
  }

  /** multiply_schonhage_strassen: the signs are the caller's business. Zero has no digits and gives zero. */
  method MultiplySchonhageStrassen(first: BigInt, second: BigInt, tables: Tables) returns (result: BigInt)
    requires first.Valid() && second.Valid() && tables.Valid()
    requires |DigitsIn(Abs(first.Val()), SSA_BASE)| + |DigitsIn(Abs(second.Val()), SSA_BASE)| <= MAXN
    modifies tables, tables.pws1, tables.ipws1, tables.pws2, tables.ipws2
    ensures tables.Valid()
    ensures fresh(result) && result.Valid()
    ensures first.Val() == 0 || second.Val() == 0 ==> result.Val() == 0
    ensures second.Val() != 0 ==> result.Val() == SsaProduct(Abs(first.Val()), Abs(second.Val()))
  {
    hide Product, Eval;
    tables.Init();
    var x := new BigInt.Copy(first);
    var y := new BigInt.Copy(second);
    var da := ExtractDigits(x);
    var db := ExtractDigits(y);
    DigitsInMeans(Abs(first.Val()), SSA_BASE);
    DigitsInMeans(Abs(second.Val()), SSA_BASE);
    if db != [] { NoProduct(da, db); }
    var combined := CombinedProduct(da, db, tables);
    var digits := Normalize(combined);
    result := Reassemble(digits);
  }

  lemma NoProduct(da: seq<int>, db: seq<int>)
    requires db != []
    ensures da == [] ==> Eval(Wrapped(Product(da, db)), SSA_BASE) == 0
  {
    if da == [] { assert Wrapped([]) == []; }
  }

  /** multiply_assign under the SchonhageStrassen rule. */
  method MultiplyAssignSsa(number: BigInt, other: BigInt, tables: Tables)
    requires number.Valid() && other.Valid() && tables.Valid()
    requires |DigitsIn(Abs(number.Val()), SSA_BASE)| + |DigitsIn(Abs(other.Val()), SSA_BASE)| <= MAXN
    modifies number, tables, tables.pws1, tables.ipws1, tables.pws2, tables.ipws2
    ensures number.Valid() && tables.Valid()
    ensures old(number.Val()) == 0 || old(other.Val()) == 0 ==> number.Val() == 0
    ensures old(number.Val()) != 0 && old(other.Val()) != 0 ==>
      number.Val() == Signed(old(number.Val()) > 0 <==> old(other.Val()) > 0,
                             SsaProduct(Abs(old(number.Val())), Abs(old(other.Val()))))
  {
    number.IsZeroMeans();
    other.IsZeroMeans();
    DigitsBound(number.digits, BASE);
    DigitsBound(other.digits, BASE);
    if other.IsZero() || number.IsZero() {
      number.digits := [0];
      assert Eval([0], BASE) == 0;
      number.Optimise();
      return;
    }
    var result := MultiplySchonhageStrassen(number, other, tables);
    DigitsBound(result.digits, BASE);
    SsaNonNegative(Abs(number.Val()), Abs(other.Val()));
    result.IsZeroMeans();
    number.digits := result.digits;
    number.sign := number.sign == other.sign;
    number.Optimise();
  }

  lemma SsaNonNegative(a: nat, b: nat)
    requires b > 0
    ensures SsaProduct(a, b) >= 0
  {
    var c := Wrapped(Coefficients(a, b));
    DigitsBoundGeneral(c);
  }

  lemma {:induction false} DigitsBoundGeneral(c: seq<int>)
    requires forall i :: 0 <= i < |c| ==> c[i] >= 0
    ensures Eval(c, SSA_BASE) >= 0
  {
    if c != [] { DigitsBoundGeneral(c[1..]); }
  }
}
