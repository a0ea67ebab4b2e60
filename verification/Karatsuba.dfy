/**
 The Karatsuba rule of multiply_assign. Above eight limbs it takes the operands apart by limbs
 and puts the three products together by bits, so it returns too little.
 */
module Karatsuba {
  import opened Arith
  import opened Polynomial
  import opened Digits
  import opened BigInts

  // ----- numbers of limbs -----

  /** The length of a number's normal form. */
  function Limbs(x: nat): (n: nat)
    ensures n >= 1
  {
    if x < BASE then 1 else
      DivBounds(x, BASE);
      assert x / BASE < x by { Halved(x); }
      1 + Limbs(x / BASE)
  }

  lemma Halved(x: nat)
    requires x >= BASE
    ensures x / BASE < x
  {
    DivBounds(x, BASE);
    MulMonotone(2, BASE, x / BASE);
  }

  lemma {:induction false} LimbsBound(x: nat)
    ensures x < Pow(BASE, Limbs(x))
    ensures Limbs(x) > 1 ==> Pow(BASE, Limbs(x) - 1) <= x
    decreases x
  {
    assert Pow(BASE, 0) == 1 && Pow(BASE, 1) == BASE * Pow(BASE, 0);
    if x >= BASE {
      var q, n := x / BASE, Limbs(x) - 1;
      DivBounds(x, BASE);
      Halved(x);
      LimbsBound(q);
      HornerBound(x % BASE, BASE, q, Pow(BASE, n));
      if n > 1 { MulMonotone(Pow(BASE, n - 1), q, BASE); }
    }
  }

  lemma LimbsAtMost(x: nat, k: nat)
    requires k >= 1 && x < Pow(BASE, k)
    ensures Limbs(x) <= k
  {
    LimbsBound(x);
    if Limbs(x) > k { PowMonotone(BASE, k, Limbs(x) - 1); }
  }

  function Max(a: nat, b: nat): nat {
    if a > b then a else b
  }

  /** Where the operands are cut. */
  function Half(x: nat, y: nat): nat {
    (Max(Limbs(x), Limbs(y)) + 1) / 2
  }

  function Low(x: nat, m: nat): nat {
    PowPositive(BASE, m);
    DivBounds(x, Pow(BASE, m));
    x % Pow(BASE, m)
  }

  function High(x: nat, m: nat): nat {
    PowPositive(BASE, m);
    DivBounds(x, Pow(BASE, m));
    x / Pow(BASE, m)
  }

  /** How long the pieces are, and their sum. */
  lemma Pieces(x: nat, m: nat)
    requires 1 <= m && Limbs(x) <= 2 * m
    ensures Limbs(Low(x, m)) <= m
    ensures Limbs(x) <= m ==> High(x, m) == 0 && Low(x, m) == x
    ensures Limbs(x) > m ==> Limbs(High(x, m)) <= Limbs(x) - m && Limbs(Low(x, m) + High(x, m)) <= m + 1
  {
    var n, b := Limbs(x), Pow(BASE, m);
    PowPositive(BASE, m);
    DivBounds(x, b);
    LimbsBound(x);
    LimbsAtMost(Low(x, m), m);
    if n <= m {
      PowMonotone(BASE, n, m);
      DivModUnique(x, 0, x, b);
    } else {
      PowAdd(BASE, n - m, m);
      QuotientBelow(x, b, Pow(BASE, n - m));
      LimbsAtMost(High(x, m), n - m);
      PowMonotone(BASE, n - m, m);
      assert Pow(BASE, m + 1) == BASE * b;
      MulMonotone(2, BASE, b);
      LimbsAtMost(Low(x, m) + High(x, m), m + 1);
    }
  }

  lemma QuotientBelow(x: nat, b: int, c: int)
    requires b > 0 && x < c * b
    ensures x / b < c
  {
    DivBounds(x, b);
    if x / b >= c { MulMonotone(c, x / b, b); }
  }

  // ----- what the rule computes -----

  /** The magnitude the rule returns: three products of pieces, put together with shifts by bits. */
  function KaratsubaValue(x: nat, y: nat): nat
    decreases Limbs(x) + Limbs(y)
  {
    if Limbs(x) <= 8 || Limbs(y) <= 8 then x * y
    else
      var m := Half(x, y);
      Pieces(x, m);
      Pieces(y, m);
      var z0 := KaratsubaValue(Low(x, m), Low(y, m));
      var z2 := KaratsubaValue(High(x, m), High(y, m));
      var z1 := KaratsubaValue(Low(x, m) + High(x, m), Low(y, m) + High(y, m)) - z0 - z2;
      Abs(z2 * Pow(2, 2 * m) + z1 * Pow(2, m) + z0)
  }

  /** Three products of the pieces, the first by q, the one across by p. */
  function Joined(l1: nat, h1: nat, l2: nat, h2: nat, q: int, p: int): int {
    (h1 * h2) * q + (h1 * l2 + l1 * h2) * p + l1 * l2
  }

  /** The true product: the pieces joined with powers of the base. */
  lemma ProductOfPieces(x: nat, y: nat, m: nat)
    ensures Pow(BASE, m) > 0 && Low(x, m) == x % Pow(BASE, m) && High(x, m) == x / Pow(BASE, m)
    ensures x * y == Joined(Low(x, m), High(x, m), Low(y, m), High(y, m), Pow(BASE, 2 * m), Pow(BASE, m))
  {
    var b := Pow(BASE, m);
    PowPositive(BASE, m);
    DivBounds(x, b);
    DivBounds(y, b);
    PowAdd(BASE, m, m);
    MultipliedOut(x, y, Low(x, m), High(x, m), Low(y, m), High(y, m), b);
  }

  lemma MultipliedOut(x: nat, y: nat, l1: nat, h1: nat, l2: nat, h2: nat, b: int)
    requires x == h1 * b + l1 && y == h2 * b + l2
    ensures x * y == Joined(l1, h1, l2, h2, b * b, b)
  {
    assert x * y == (h1 * b) * (h2 * b) + (h1 * b) * l2 + l1 * (h2 * b) + l1 * l2;
    assert (h1 * b) * (h2 * b) == (h1 * h2) * (b * b);
    assert (h1 * b) * l2 + l1 * (h2 * b) == (h1 * l2 + l1 * h2) * b;
  }

  /** Nine to fourteen limbs: the rule joins the same pieces with powers of two. */
  lemma OneLevel(x: nat, y: nat, m: nat)
    requires Limbs(x) > 8 && Limbs(y) > 8 && Max(Limbs(x), Limbs(y)) <= 14
    requires 2 * m == Max(Limbs(x), Limbs(y)) || 2 * m == Max(Limbs(x), Limbs(y)) + 1
    ensures KaratsubaValue(x, y) == Joined(Low(x, m), High(x, m), Low(y, m), High(y, m), Pow(2, 2 * m), Pow(2, m))
  {
    hide Limbs, Low, High, Pow, KaratsubaValue, Abs, Joined;
    ShortPieces(x, m);
    ShortPieces(y, m);
    var l1, h1, l2, h2 := Low(x, m), High(x, m), Low(y, m), High(y, m);
    Trivially(l1, l2);
    Trivially(h1, h2);
    Trivially(l1 + h1, l2 + h2);
    ThreeProducts(x, y, m, KaratsubaValue(l1, l2), KaratsubaValue(h1, h2), KaratsubaValue(l1 + h1, l2 + h2));
  }

  lemma Trivially(x: nat, y: nat)
    requires Limbs(x) <= 8 || Limbs(y) <= 8
    ensures KaratsubaValue(x, y) == x * y
  {
    hide Limbs;
  }

  lemma ThreeProducts(x: nat, y: nat, m: nat, z0: nat, z2: nat, ks: nat)
    requires Limbs(x) > 8 && Limbs(y) > 8
    requires 2 * m == Max(Limbs(x), Limbs(y)) || 2 * m == Max(Limbs(x), Limbs(y)) + 1
    requires z0 == KaratsubaValue(Low(x, m), Low(y, m)) == Low(x, m) * Low(y, m)
    requires z2 == KaratsubaValue(High(x, m), High(y, m)) == High(x, m) * High(y, m)
    requires ks == KaratsubaValue(Low(x, m) + High(x, m), Low(y, m) + High(y, m))
    requires ks == (Low(x, m) + High(x, m)) * (Low(y, m) + High(y, m))
    ensures KaratsubaValue(x, y) == Joined(Low(x, m), High(x, m), Low(y, m), High(y, m), Pow(2, 2 * m), Pow(2, m))
  {
    hide Limbs, Max, Low, High, Pow, KaratsubaValue, Abs, Joined;
    Unfolded(x, y);
    PowPositive(2, m);
    PowPositive(2, 2 * m);
    CrossTerms(Low(x, m), High(x, m), Low(y, m), High(y, m), z0, z2, ks, Pow(2, 2 * m), Pow(2, m));
  }

  lemma ShortPieces(x: nat, m: nat)
    requires 1 <= m <= 7 && Limbs(x) <= 2 * m
    ensures Limbs(Low(x, m)) <= 8 && Limbs(High(x, m)) <= 8
    ensures Limbs(Low(x, m) + High(x, m)) <= if Limbs(x) > m then 8 else Limbs(x)
  {
    Pieces(x, m);
    NoLimbs();
  }

  lemma CrossTerms(l1: nat, h1: nat, l2: nat, h2: nat, z0: nat, z2: nat, ks: nat, q: int, p: int)
    requires q > 0 && p > 0 && z0 == l1 * l2 && z2 == h1 * h2 && ks == (l1 + h1) * (l2 + h2)
    ensures Abs(z2 * q + (ks - z0 - z2) * p + z0) == Joined(l1, h1, l2, h2, q, p)
  {
    var cross := h1 * l2 + l1 * h2;
    assert ks - z0 - z2 == cross >= 0;
    MulMonotone(0, z2, q);
    MulMonotone(0, cross, p);
  }

  // ----- how much it returns -----

  /**
   The three products, weighted with powers of two where powers of the base are meant. E bounds
   the products, F the power of two with room for a factor of four, T is what is left of the
   true product at least.
   */
  lemma WeightedBelow(z0: nat, z2: nat, ks: nat, p: int, q: int, E: int, F: int, T: int)
    requires z0 < E && ks < E && z2 < E && 32 <= p && q == p * p && 4 * p <= F && E * F <= T && z2 * (F * F) <= T
    ensures Abs(z2 * q + (ks - z0 - z2) * p + z0) < T
  {
    var middle, high, s := ks + z0 + z2, z2 * (p * p), (ks - z0 - z2) * p;
    MiddleBelow(middle, p, E, F);
    HighBelow(z2, p, F);
    LowBelow(z0, E, F);
    MulMonotone(ks - z0 - z2, middle, p);
    MulMonotone(-middle, ks - z0 - z2, p);
    Negative(middle, p);
    MulBounds(0, 0, z2, p * p);
    SumBelow(high, s, z0, middle * p, T, E * F);
  }

  lemma SumBelow(high: int, s: int, low: nat, middle: int, T: int, EF: int)
    requires -middle <= s <= middle && 4 * middle <= 3 * EF <= 3 * T && 0 <= 16 * high <= T && 128 * low < EF
    ensures Abs(high + s + low) < T
  {
  }

  lemma Negative(a: int, p: int)
    ensures (-a) * p == -(a * p)
  {
  }

  lemma LowBelow(z0: nat, E: int, F: int)
    requires z0 < E && F >= 128
    ensures 128 * z0 < E * F
  {
    MulMonotone(128, F, E);
  }

  lemma MiddleBelow(middle: nat, p: int, E: int, F: int)
    requires middle <= 3 * E && p >= 0 && 4 * p <= F && E >= 0
    ensures 4 * (middle * p) <= 3 * (E * F)
  {
    MulMonotone(middle, 3 * E, p);
    MulMonotone(4 * p, F, E);
    assert 4 * ((3 * E) * p) == 3 * ((4 * p) * E) && F * E == E * F;
  }

  lemma HighBelow(z2: nat, p: int, F: int)
    requires p >= 0 && 4 * p <= F
    ensures 16 * (z2 * (p * p)) <= z2 * (F * F)
  {
    MulBounds(4 * p, 4 * p, F, F);
    MulMonotone((4 * p) * (4 * p), F * F, z2);
    assert ((4 * p) * (4 * p)) * z2 == 16 * (z2 * (p * p)) && (F * F) * z2 == z2 * (F * F);
  }

  lemma ProductBelow(x: nat, y: nat, n: nat, k: nat)
    requires x < Pow(BASE, n) && y < Pow(BASE, k)
    ensures x * y < Pow(BASE, n + k)
  {
    PowAdd(BASE, n, k);
    var a, b := Pow(BASE, n), Pow(BASE, k);
    MulBounds(x, y, a - 1, b - 1);
    assert (a - 1) * (b - 1) == a * b - a - b + 1;
  }

  /** 2^m and four times as much fit so many limbs. */
  lemma ShiftFits(m: nat, f: nat)
    requires m >= 5 && m + 2 <= 32 * f
    ensures 32 <= Pow(2, m) && 4 * Pow(2, m) <= Pow(BASE, f)
  {
    assert Pow(2, 5) == 32 && Pow(2, 2) == 4;
    PowMonotone(2, 5, m);
    PowAdd(2, 2, m);
    PowMonotone(2, m + 2, 32 * f);
    PowMul(2, 32, f);
    BaseIsPower();
  }

  /** How many limbs the sum of the pieces has at most. */
  function SumLimbs(n: nat, m: nat): nat {
    if n > m then m + 1 else n
  }

  lemma SumPieces(x: nat, m: nat)
    requires 1 <= m && Limbs(x) <= 2 * m
    ensures Limbs(Low(x, m)) <= SumLimbs(Limbs(x), m)
    ensures Limbs(Low(x, m) + High(x, m)) <= SumLimbs(Limbs(x), m)
  {
    hide Low, High;
    Pieces(x, m);
  }

  /** The rule, one level down, and the pieces are shorter. */
  lemma Unfolded(x: nat, y: nat)
    ensures Limbs(x) <= 8 || Limbs(y) <= 8 ==> KaratsubaValue(x, y) == x * y
    ensures Limbs(x) > 8 && Limbs(y) > 8 ==>
              var m := Half(x, y);
              var z0, z2 := KaratsubaValue(Low(x, m), Low(y, m)), KaratsubaValue(High(x, m), High(y, m));
              var ks := KaratsubaValue(Low(x, m) + High(x, m), Low(y, m) + High(y, m));
              && KaratsubaValue(x, y) == Abs(z2 * Pow(2, 2 * m) + (ks - z0 - z2) * Pow(2, m) + z0)
              && m >= 5 && Max(Limbs(x), Limbs(y)) <= 2 * m <= Max(Limbs(x), Limbs(y)) + 1
              && Limbs(Low(x, m)) + Limbs(Low(y, m)) < Limbs(x) + Limbs(y)
              && Limbs(High(x, m)) + Limbs(High(y, m)) < Limbs(x) + Limbs(y)
              && Limbs(Low(x, m) + High(x, m)) + Limbs(Low(y, m) + High(y, m)) < Limbs(x) + Limbs(y)
  {
    hide Low, High, Limbs, Pow;
    if Limbs(x) > 8 && Limbs(y) > 8 {
      Pieces(x, Half(x, y));
      Pieces(y, Half(x, y));
      NoLimbs();
    }
  }

  lemma NoLimbs()
    ensures Limbs(0) == 1
  {
  }

  lemma Lengths(n: nat, k: nat, m: nat)
    requires m >= 5 && n >= 9 && k >= 9 && Max(n, k) <= 2 * m <= Max(n, k) + 1
    ensures var f := ShiftLimbs(m);
            f + 1 <= m && m + 2 <= 32 * f && SumLimbs(n, m) + SumLimbs(k, m) + f <= n + k - 2
  {
  }

  function ShiftLimbs(m: nat): nat {
    (m + 2) / 32 + 1
  }

  /** One level: three products of pieces that are short enough, put together. */
  lemma LevelBelow(n: nat, k: nat, m: nat, z0: nat, z2: nat, ks: nat)
    requires m >= 5 && n >= 9 && k >= 9 && Max(n, k) <= 2 * m <= Max(n, k) + 1
    requires var e := SumLimbs(n, m) + SumLimbs(k, m); z0 < Pow(BASE, e) && z2 < Pow(BASE, e) && ks < Pow(BASE, e)
    requires z2 * (Pow(BASE, ShiftLimbs(m)) * Pow(BASE, ShiftLimbs(m))) <= Pow(BASE, n + k - 2)
    ensures Abs(z2 * Pow(2, 2 * m) + (ks - z0 - z2) * Pow(2, m) + z0) < Pow(BASE, n + k - 2)
  {
    hide Pow, SumLimbs, Abs;
    var e, f, t := SumLimbs(n, m) + SumLimbs(k, m), ShiftLimbs(m), n + k - 2;
    Lengths(n, k, m);
    ShiftFits(m, f);
    PowAdd(BASE, e, f);
    PowMonotone(BASE, e + f, t);
    PowAdd(2, m, m);
    WeightedBelow(z0, z2, ks, Pow(2, m), Pow(2, 2 * m), Pow(BASE, e), Pow(BASE, f), Pow(BASE, t));
  }

  /** No product of pieces is as long as the whole; the rest follows from the lengths. */
  lemma {:induction false} KaratsubaBelow(x: nat, y: nat)
    ensures Below(x, y)
    ensures Limbs(x) > 8 && Limbs(y) > 8 ==> KaratsubaValue(x, y) < Pow(BASE, Limbs(x) + Limbs(y) - 2)
    decreases Limbs(x) + Limbs(y)
  {
    hide Low, High, Limbs, Pow, KaratsubaValue, SumLimbs, ShiftLimbs, Half, Abs;
    var n, k := Limbs(x), Limbs(y);
    Unfolded(x, y);
    if n <= 8 || k <= 8 {
      LimbsBound(x);
      LimbsBound(y);
      ProductBelow(x, y, n, k);
    } else {
      var m := Half(x, y);
      KaratsubaBelow(Low(x, m), Low(y, m));
      KaratsubaBelow(High(x, m), High(y, m));
      KaratsubaBelow(Low(x, m) + High(x, m), Low(y, m) + High(y, m));
      ShortProducts(x, y, m);
      LevelBelow(n, k, m, KaratsubaValue(Low(x, m), Low(y, m)), KaratsubaValue(High(x, m), High(y, m)),
                 KaratsubaValue(Low(x, m) + High(x, m), Low(y, m) + High(y, m)));
      PowMonotone(BASE, n + k - 2, n + k);
    }
  }

  ghost predicate Below(x: nat, y: nat) {
    KaratsubaValue(x, y) < Pow(BASE, Limbs(x) + Limbs(y))
  }

  /** The lengths of the pieces bound the three products. */
  lemma ShortProducts(x: nat, y: nat, m: nat)
    requires m >= 5 && Limbs(x) >= 9 && Limbs(y) >= 9 && Max(Limbs(x), Limbs(y)) <= 2 * m <= Max(Limbs(x), Limbs(y)) + 1
    requires Below(Low(x, m), Low(y, m)) && Below(High(x, m), High(y, m))
    requires Below(Low(x, m) + High(x, m), Low(y, m) + High(y, m))
    ensures var e := Pow(BASE, SumLimbs(Limbs(x), m) + SumLimbs(Limbs(y), m));
            && KaratsubaValue(Low(x, m), Low(y, m)) < e && KaratsubaValue(High(x, m), High(y, m)) < e
            && KaratsubaValue(Low(x, m) + High(x, m), Low(y, m) + High(y, m)) < e
    ensures KaratsubaValue(High(x, m), High(y, m)) * (Pow(BASE, ShiftLimbs(m)) * Pow(BASE, ShiftLimbs(m)))
            <= Pow(BASE, Limbs(x) + Limbs(y) - 2)
  {
    hide Low, High, Limbs, Pow, KaratsubaValue, SumLimbs;
    var n, k := Limbs(x), Limbs(y);
    SumPieces(x, m);
    SumPieces(y, m);
    var e := SumLimbs(n, m) + SumLimbs(k, m);
    PowMonotone(BASE, Limbs(Low(x, m)) + Limbs(Low(y, m)), e);
    PowMonotone(BASE, Limbs(Low(x, m) + High(x, m)) + Limbs(Low(y, m) + High(y, m)), e);
    Lengths(n, k, m);
    HighProduct(x, y, m, ShiftLimbs(m));
  }

  /** The product of the high pieces, if both operands have one. */
  lemma HighProduct(x: nat, y: nat, m: nat, f: nat)
    requires 1 <= m && Limbs(x) <= 2 * m && Limbs(y) <= 2 * m && f + 1 <= m
    requires Below(High(x, m), High(y, m))
    ensures var z2 := KaratsubaValue(High(x, m), High(y, m));
            && z2 < Pow(BASE, SumLimbs(Limbs(x), m) + SumLimbs(Limbs(y), m))
            && (Limbs(x) + Limbs(y) >= 2 ==> z2 * (Pow(BASE, f) * Pow(BASE, f)) <= Pow(BASE, Limbs(x) + Limbs(y) - 2))
  {
    hide Low, High, Pow;
    Pieces(x, m);
    Pieces(y, m);
    var n, k, z2 := Limbs(x), Limbs(y), KaratsubaValue(High(x, m), High(y, m));
    if n > m && k > m {
      var d := n + k - 2 * m;
      PowMonotone(BASE, Limbs(High(x, m)) + Limbs(High(y, m)), d);
      PowMonotone(BASE, d, SumLimbs(n, m) + SumLimbs(k, m));
      PowAdd(BASE, f, f);
      PowAdd(BASE, d, f + f);
      PowPositive(BASE, f + f);
      MulMonotone(z2, Pow(BASE, d), Pow(BASE, f + f));
      PowMonotone(BASE, d + (f + f), n + k - 2);
    } else {
      NothingHigh(High(x, m), High(y, m));
      PowPositive(BASE, SumLimbs(n, m) + SumLimbs(k, m));
      PowPositive(BASE, n + k - 2);
    }
  }

  lemma NothingHigh(h1: nat, h2: nat)
    ensures h1 == 0 || h2 == 0 ==> KaratsubaValue(h1, h2) == 0
  {
    assert Limbs(0) == 1;
  }

  /** The rule is right if and only if one operand has eight limbs at most; otherwise it returns too little. */
  lemma KaratsubaExactly(x: nat, y: nat)
    ensures KaratsubaValue(x, y) == x * y <==> Limbs(x) <= 8 || Limbs(y) <= 8
    ensures KaratsubaValue(x, y) <= x * y
  {
    hide KaratsubaValue, Limbs, Pow, Half, Low, High;
    Unfolded(x, y);
    if Limbs(x) > 8 && Limbs(y) > 8 {
      KaratsubaBelow(x, y);
      ProductAtLeast(x, y);
    }
  }

  lemma ProductAtLeast(x: nat, y: nat)
    requires Limbs(x) > 1 && Limbs(y) > 1
    ensures Pow(BASE, Limbs(x) + Limbs(y) - 2) <= x * y
  {
    hide Limbs, Pow;
    var a, b := Pow(BASE, Limbs(x) - 1), Pow(BASE, Limbs(y) - 1);
    LimbsBound(x);
    LimbsBound(y);
    PowPositive(BASE, Limbs(x) - 1);
    PowPositive(BASE, Limbs(y) - 1);
    PowAdd(BASE, Limbs(x) - 1, Limbs(y) - 1);
    MulBounds(a, b, x, y);
  }

  /** The smallest operands it fails on: B^8 times itself comes out as 2^10 * B^6 instead of B^16. */
  lemma KaratsubaExample()
    ensures Limbs(Pow(BASE, 8)) == 9 && KaratsubaValue(Pow(BASE, 8), Pow(BASE, 8)) == Pow(BASE, 6) * 1024
    ensures KaratsubaValue(Pow(BASE, 8), Pow(BASE, 8)) < Pow(BASE, 16)
  {
    hide Limbs, Pow, KaratsubaValue, Low, High;
    PowerLimbs(8);
    PowerLimbs(3);
    var x := Pow(BASE, 8);
    Unfolded(x, x);
    PowerPieces();
    Unfolded(0, 0);
    Unfolded(Pow(BASE, 3), Pow(BASE, 3));
    PowAdd(BASE, 3, 3);
    NoLimbs();
    ShiftOfTen();
    KaratsubaBelow(x, x);
  }

  lemma PowerLimbs(k: nat)
    ensures Pow(BASE, k) > 0 && Limbs(Pow(BASE, k)) == k + 1
  {
    hide Limbs;
    PowPositive(BASE, k);
    assert Pow(BASE, k + 1) == BASE * Pow(BASE, k);
    LimbsAtMost(Pow(BASE, k), k + 1);
    LimbsBound(Pow(BASE, k));
    if Limbs(Pow(BASE, k)) < k + 1 { PowMonotone(BASE, Limbs(Pow(BASE, k)), k); }
  }

  lemma PowerPieces()
    ensures Low(Pow(BASE, 8), 5) == 0 && High(Pow(BASE, 8), 5) == Pow(BASE, 3)
  {
    hide Pow;
    PowAdd(BASE, 3, 5);
    PowPositive(BASE, 5);
    DivModUnique(Pow(BASE, 8), Pow(BASE, 3), 0, Pow(BASE, 5));
  }

  lemma ShiftOfTen()
    ensures Pow(2, 10) == 1024
  {
    PowAdd(2, 5, 5);
    assert Pow(2, 5) == 32;
  }

  // ----- the rule on limbs -----

  /** The length of a normal form. */
  lemma LimbsOfDigits(ds: seq<int>)
    requires DigitsOf(ds, BASE) && NoLeadingZeros(ds)
    ensures Eval(ds, BASE) >= 0 && Limbs(Eval(ds, BASE)) == |ds|
  {
    var x := Eval(ds, BASE);
    DigitsBound(ds, BASE);
    LimbsAtMost(x, |ds|);
    LimbsBound(x);
    if |ds| > 1 {
      TopDigit(ds, BASE);
      if Limbs(x) < |ds| { PowMonotone(BASE, Limbs(x), |ds| - 1); }
    }
  }

  lemma Lengthwise(n: BigInt)
    requires n.Valid()
    ensures Limbs(Abs(n.Val())) == |n.digits| && Abs(n.Val()) == Eval(n.digits, BASE) && (n.Val() >= 0 <==> n.sign)
  {
    LimbsOfDigits(n.digits);
    n.IsZeroMeans();
  }

  lemma CutDigits(ds: seq<int>, m: nat)
    requires DigitsOf(ds, BASE) && m >= 1
    ensures var x := Eval(ds, BASE);
            && x >= 0 && Low(x, m) == Eval(if |ds| > m then ds[..m] else ds, BASE)
            && High(x, m) == if |ds| > m then Eval(ds[m..], BASE) else 0
  {
    DigitsBound(ds, BASE);
    var x, b := Eval(ds, BASE), Pow(BASE, m);
    if |ds| > m {
      assert ds == ds[..m] + ds[m..];
      EvalConcat(ds[..m], ds[m..], BASE);
      DigitsBound(ds[..m], BASE);
      assert x == Eval(ds[m..], BASE) * b + Eval(ds[..m], BASE);
      DivModUnique(x, Eval(ds[m..], BASE), Eval(ds[..m], BASE), b);
    } else {
      PowMonotone(BASE, |ds|, m);
      DivModUnique(x, 0, x, b);
    }
  }

  /** Cutting an operand after m limbs. */
  method Cut(n: BigInt, m: nat) returns (low: BigInt, high: BigInt)
    requires n.Valid() && m >= 1
    ensures fresh(low) && fresh(high) && low != high && low.Valid() && high.Valid()
    ensures IsNumber(low, Low(Abs(n.Val()), m)) && IsNumber(high, High(Abs(n.Val()), m))
  {
    Lengthwise(n);
    CutDigits(n.digits, m);
    low := new BigInt.FromInt(0);
    high := new BigInt.FromInt(0);
    low.IsZeroMeans();
    high.IsZeroMeans();
    low.digits := n.digits[..if m < |n.digits| then m else |n.digits|];
    assert n.digits[..|n.digits|] == n.digits;
    if |n.digits| > m {
      high.digits := n.digits[m..];
    }
    low.Optimise();
    high.Optimise();
    Lengthwise(low);
    Lengthwise(high);
  }

  /** A number that is not negative, and how long it is. */
  ghost predicate IsNumber(n: BigInt, v: nat)
    reads n
  {
    n.Valid() && n.Val() == v && n.sign && |n.digits| == Limbs(v)
  }

  method SumOf(a: BigInt, b: BigInt, ghost x: nat, ghost y: nat) returns (sum: BigInt)
    requires IsNumber(a, x) && IsNumber(b, y)
    ensures fresh(sum) && IsNumber(sum, x + y)
  {
    sum := Sum(a, b);
    Lengthwise(sum);
  }

  method Sum(a: BigInt, b: BigInt) returns (sum: BigInt)
    requires a.Valid() && b.Valid()
    ensures fresh(sum) && sum.Valid() && sum.Val() == a.Val() + b.Val()
  {
    sum := new BigInt.Copy(a);
    sum.PlusAssign(b);
  }

  /** Taking the outer products off the middle one, shifting by bits, adding up and setting the sign. */
  method Assemble(z0: BigInt, z1: BigInt, z2: BigInt, m: nat, positive: bool) returns (result: BigInt)
    requires z0.Valid() && z1.Valid() && z2.Valid() && z0 != z1 && z0 != z2 && z1 != z2
    modifies z1, z2
    ensures fresh(result) && result.Valid()
    ensures result.Val() == Signed(positive, Abs(old(z2.Val()) * Pow(2, 2 * m)
                                                 + (old(z1.Val()) - z0.Val() - old(z2.Val())) * Pow(2, m) + z0.Val()))
  {
    hide NormalForm, Shifted, Pow;
    ghost var v1, v2 := z1.Val() - z0.Val() - z2.Val(), z2.Val();
    z1.MinusAssign(z0);
    z1.MinusAssign(z2);
    z2.ShiftLeft(m * 2);
    z1.ShiftLeft(m);
    ShiftedMeans(v1, m);
    ShiftedMeans(v2, m * 2);
    assert m * 2 == 2 * m;
    result := Sum(z2, z1);
    result.PlusAssign(z0);
    SetSign(result, positive);
  }

  method SetSign(n: BigInt, positive: bool)
    requires n.Valid()
    modifies n
    ensures n.Valid() && n.Val() == Signed(positive, Abs(old(n.Val())))
  {
    Lengthwise(n);
    DigitsBound(n.digits, BASE);
    n.sign := positive;
    n.Optimise();
  }

  lemma ProductSign(a: BigInt, b: BigInt)
    requires a.Valid() && b.Valid()
    ensures a.Val() * b.Val() == Signed(a.sign == b.sign, Abs(a.Val()) * Abs(b.Val()))
  {
    Lengthwise(a);
    Lengthwise(b);
    BigInt.SignedProduct(a.sign, Eval(a.digits, BASE), b.sign, Eval(b.digits, BASE));
  }

  /** multiply_karatsuba. */
  method MultiplyKaratsuba(a: BigInt, b: BigInt) returns (result: BigInt)
    requires a.Valid() && b.Valid()
    ensures fresh(result) && result.Valid()
    ensures result.Val() == Signed(a.sign == b.sign, KaratsubaValue(Abs(a.Val()), Abs(b.Val())))
    decreases Limbs(Abs(a.Val())) + Limbs(Abs(b.Val())), 1
  {
    hide Limbs, Low, High, KaratsubaValue, NormalForm, ValueOf, Pow, Signed;
    Lengthwise(a);
    Lengthwise(b);
    Unfolded(Abs(a.Val()), Abs(b.Val()));
    if |a.digits| <= 8 || |b.digits| <= 8 {
      ProductSign(a, b);
      result := new BigInt.Copy(a);
      result.MultiplyAssign(b);
      return;
    }
    var maxSize := ((if |a.digits| > |b.digits| then |a.digits| else |b.digits|) + 1) / 2;
    var z0, z1, z2 := Products(a, b, maxSize);
    result := Assemble(z0, z1, z2, maxSize, a.sign == b.sign);
  }

  /** The operands cut, and the products of the low parts, of the sums, and of the high parts. */
  method Products(a: BigInt, b: BigInt, m: nat) returns (z0: BigInt, z1: BigInt, z2: BigInt)
    requires a.Valid() && b.Valid() && m == Half(Abs(a.Val()), Abs(b.Val()))
    requires Limbs(Abs(a.Val())) > 8 && Limbs(Abs(b.Val())) > 8
    ensures fresh(z0) && fresh(z1) && fresh(z2) && z0 != z1 && z0 != z2 && z1 != z2
    ensures z0.Valid() && z0.Val() == KaratsubaValue(Low(Abs(a.Val()), m), Low(Abs(b.Val()), m))
    ensures z2.Valid() && z2.Val() == KaratsubaValue(High(Abs(a.Val()), m), High(Abs(b.Val()), m))
    ensures z1.Valid() && z1.Val() == KaratsubaValue(Low(Abs(a.Val()), m) + High(Abs(a.Val()), m),
                                                     Low(Abs(b.Val()), m) + High(Abs(b.Val()), m))
    decreases Limbs(Abs(a.Val())) + Limbs(Abs(b.Val())), 0
  {
    hide Limbs, Low, High, KaratsubaValue, NormalForm, ValueOf, Pow, Half;
    ghost var x, y := Abs(a.Val()), Abs(b.Val());
    ghost var l1, h1, l2, h2 := Low(x, m), High(x, m), Low(y, m), High(y, m);
    Unfolded(x, y);
    var low1, high1 := Cut(a, m);
    var low2, high2 := Cut(b, m);
    z0 := ProductOf(low1, low2, l1, l2);
    z2 := ProductOf(high1, high2, h1, h2);
    var sum1 := SumOf(low1, high1, l1, h1);
    var sum2 := SumOf(low2, high2, l2, h2);
    z1 := ProductOf(sum1, sum2, l1 + h1, l2 + h2);
  }

  /** The recursive call on two numbers that are not negative. */
  method ProductOf(a: BigInt, b: BigInt, ghost x: nat, ghost y: nat) returns (result: BigInt)
    requires IsNumber(a, x) && IsNumber(b, y)
    ensures fresh(result) && result.Valid() && result.Val() == KaratsubaValue(x, y)
    decreases Limbs(x) + Limbs(y), 2
  {
    result := MultiplyKaratsuba(a, b);
  }

  // ----- the operator -----

  /** multiply_assign under the Karatsuba rule. */
  method MultiplyAssignKaratsuba(number: BigInt, other: BigInt)
    requires number.Valid() && other.Valid()
    modifies number
    ensures number.Valid()
    ensures number.Val() == Signed(old(number.sign == other.sign), KaratsubaValue(Abs(old(number.Val())), Abs(old(other.Val()))))
  {
    hide KaratsubaValue;
    number.IsZeroMeans();
    other.IsZeroMeans();
    if other.IsZero() || number.IsZero() {
      NoProduct(Abs(number.Val()), Abs(other.Val()));
      number.digits := [0];
      assert Eval([0], BASE) == 0;
      number.Optimise();
      return;
    }
    var result := MultiplyKaratsuba(number, other);
    Lengthwise(result);
    number.digits := result.digits;
    number.sign := number.sign == other.sign;
    number.Optimise();
  }

  lemma NoProduct(x: nat, y: nat)
    ensures x == 0 || y == 0 ==> KaratsubaValue(x, y) == 0
  {
    NothingHigh(x, y);
  }

  /** What operator*= makes of two numbers: the rule is chosen by the length of the right operand. */
  function TimesValue(a: int, b: int): int {
    if Limbs(Abs(b)) > 32 then Signed((a >= 0) == (b >= 0), KaratsubaValue(Abs(a), Abs(b))) else a * b
  }

  /** operator*=. */
  method TimesAssign(number: BigInt, other: BigInt)
    requires number.Valid() && other.Valid()
    modifies number
    ensures number.Valid() && number.Val() == TimesValue(old(number.Val()), old(other.Val()))
  {
    hide KaratsubaValue, Limbs;
    Lengthwise(number);
    Lengthwise(other);
    if |other.digits| > 32 {
      MultiplyAssignKaratsuba(number, other);
    } else {
      number.MultiplyAssign(other);
    }
  }

  /** The operator multiplies if and only if the right operand has 32 limbs at most or the left one eight. */
  lemma TimesExactly(a: int, b: int)
    ensures TimesValue(a, b) == a * b <==> Limbs(Abs(b)) <= 32 || Limbs(Abs(a)) <= 8
  {
    hide KaratsubaValue, Limbs;
    KaratsubaExactly(Abs(a), Abs(b));
    SignedMagnitudes(a, b);
  }

  lemma SignedMagnitudes(a: int, b: int)
    ensures a * b == Signed((a >= 0) == (b >= 0), Abs(a) * Abs(b))
  {
    BigInt.SignedProduct(a >= 0, Abs(a), b >= 0, Abs(b));
  }
}
