/**
 The constants of the transform: root tables for both moduli and the Chinese remainder step.
 */
module NttTables {
  import opened Arith
  import opened Ntt

  const MAXN: nat := 0x8_0000

  const MOD1: int := 998244353
  const W1: int := 805775211
  const IW1: int := 46809892
  const INV21: int := 499122177

  const MOD2: int := 2113929217
  const W2: int := 1838344356
  const IW2: int := 130030948
  const INV22: int := 1056964609

  /** x squared e times, reduced after each squaring. */
  function SquareChain(x: int, e: nat, m: int): int
    requires m > 0
    decreases e
  {
    if e == 0 then x else SquareChain((x * x) % m, e - 1, m)
  }

  lemma {:induction false} SquareChainPower(x: int, e: nat, m: int)
    requires m > 0
    ensures Pow(2, e) > 0
    ensures Cong(Pow(x, Pow(2, e)), SquareChain(x, e, m), m)
    decreases e
  {
    PowPositive(2, e);
    if e == 0 {
      assert Pow(x, 1) == x * Pow(x, 0);
    } else {
      var y := (x * x) % m;
      PowPositive(2, e - 1);
      SquareChainPower(y, e - 1, m);
      CongMod(x * x, m);
      CongPow(x * x, y, Pow(2, e - 1), m);
      PowProduct(x, x, Pow(2, e - 1));
      PowAdd(x, Pow(2, e - 1), Pow(2, e - 1));
    }
  }

  lemma PowerOfTwo18()
    ensures Pow(2, 18) == MAXN / 2
  {
    assert Pow(2, 9) == 512;
    PowAdd(2, 9, 9);
  }

  lemma RootConstant(w: int, m: int)
    requires m > 1 && SquareChain(w, 18, m) == m - 1
    ensures PrincipalRoot(w, MAXN, m)
  {
    SquareChainPower(w, 18, m);
    PowerOfTwo18();
    CongByMultiple(m - 1, -1, 1, m);
  }

  lemma SquareStep(x: int, q: int, y: int, e: nat, m: int)
    requires 0 <= y < m && x * x == q * m + y
    ensures SquareChain(x, e + 1, m) == SquareChain(y, e, m)
  {
    DivModUnique(x * x, q, y, m);
  }

  lemma Chain1()
    ensures SquareChain(W1, 18, MOD1) == MOD1 - 1
  {
    SquareStep(805775211, 650415590, 841431251, 17, MOD1); SquareStep(841431251, 709251745, 857779016, 16, MOD1);
    SquareStep(857779016, 737078890, 631920086, 15, MOD1); SquareStep(631920086, 400025298, 304605202, 14, MOD1);
    SquareStep(304605202, 92947512, 106061068, 13, MOD1); SquareStep(106061068, 11268734, 64341522, 12, MOD1);
    SquareStep(64341522, 4147112, 318017948, 11, MOD1); SquareStep(318017948, 101313285, 615001099, 10, MOD1);
    SquareStep(615001099, 378891551, 586046298, 9, MOD1); SquareStep(586046298, 344054301, 300892551, 8, MOD1);
    SquareStep(300892551, 90695556, 628092333, 7, MOD1); SquareStep(628092333, 395193799, 581015842, 6, MOD1);
    SquareStep(581015842, 338173121, 280333251, 5, MOD1); SquareStep(280333251, 78724944, 827987769, 4, MOD1);
    SquareStep(827987769, 686769470, 373294451, 3, MOD1); SquareStep(373294451, 139593824, 625715529, 2, MOD1);
    SquareStep(625715529, 392208502, 911660635, 1, MOD1); SquareStep(911660635, 832586841, 998244352, 0, MOD1);
  }

  lemma InverseChain1()
    ensures SquareChain(IW1, 18, MOD1) == MOD1 - 1
  {
    SquareStep(46809892, 2195019, 667573957, 17, MOD1); SquareStep(667573957, 446438776, 962405921, 16, MOD1);
    SquareStep(962405921, 927854141, 114942468, 15, MOD1); SquareStep(114942468, 13235006, 948509906, 14, MOD1);
    SquareStep(948509906, 901253324, 474649464, 13, MOD1); SquareStep(474649464, 225688342, 736054570, 12, MOD1);
    SquareStep(736054570, 542729170, 857007890, 11, MOD1); SquareStep(857007890, 735754248, 260490556, 10, MOD1);
    SquareStep(260490556, 67974669, 288894979, 9, MOD1); SquareStep(288894979, 83607093, 433414612, 8, MOD1);
    SquareStep(433414612, 188178601, 91420391, 7, MOD1); SquareStep(91420391, 8372386, 844956623, 6, MOD1);
    SquareStep(844956623, 715207346, 382946991, 5, MOD1); SquareStep(382946991, 146906313, 543653592, 4, MOD1);
    SquareStep(543653592, 296079038, 369330050, 3, MOD1); SquareStep(369330050, 136644585, 488723995, 2, MOD1);
    SquareStep(488723995, 239271219, 86583718, 1, MOD1); SquareStep(86583718, 7509924, 998244352, 0, MOD1);
  }

  lemma Chain2()
    ensures SquareChain(W2, 18, MOD2) == MOD2 - 1
  {
    SquareStep(1838344356, 1598686438, 1127195690, 17, MOD2); SquareStep(1127195690, 601046673, 719231059, 16, MOD2);
    SquareStep(719231059, 244707018, 1275116575, 15, MOD2); SquareStep(1275116575, 769146983, 308628314, 14, MOD2);
    SquareStep(308628314, 45058952, 1082282012, 13, MOD2); SquareStep(1082282012, 554102920, 1685754504, 12, MOD2);
    SquareStep(1685754504, 1344306244, 1969155068, 11, MOD2); SquareStep(1969155068, 1834295893, 994278843, 10, MOD2);
    SquareStep(994278843, 467655401, 1975667632, 9, MOD2); SquareStep(1975667632, 1846449048, 1863452008, 8, MOD2);
    SquareStep(1863452008, 1642653575, 517231289, 7, MOD2); SquareStep(517231289, 126554949, 2073556588, 6, MOD2);
    SquareStep(2073556588, 2033955010, 1935674574, 5, MOD2); SquareStep(1935674574, 1772451048, 360612060, 4, MOD2);
    SquareStep(360612060, 61516278, 432149274, 3, MOD2); SquareStep(432149274, 88344015, 563140821, 2, MOD2);
    SquareStep(563140821, 150018071, 911673634, 1, MOD2); SquareStep(911673634, 393177220, 2113929216, 0, MOD2);
  }

  lemma InverseChain2()
    ensures SquareChain(IW2, 18, MOD2) == MOD2 - 1
  {
    SquareStep(130030948, 7998398, 216384338, 17, MOD2); SquareStep(216384338, 22149361, 375917907, 16, MOD2);
    SquareStep(375917907, 66849103, 841318298, 15, MOD2); SquareStep(841318298, 334834521, 1747516747, 14, MOD2);
    SquareStep(1747516747, 1444615437, 1441939180, 13, MOD2); SquareStep(1441939180, 983565855, 1090986865, 12, MOD2);
    SquareStep(1090986865, 563052125, 1871092100, 11, MOD2); SquareStep(1871092100, 1656150839, 361246937, 10, MOD2);
    SquareStep(361246937, 61733074, 708058911, 9, MOD2); SquareStep(708058911, 237163769, 943567048, 8, MOD2);
    SquareStep(943567048, 421167732, 139008460, 7, MOD2); SquareStep(139008460, 9140964, 1080426412, 6, MOD2);
    SquareStep(1080426412, 552204502, 1210458810, 5, MOD2); SquareStep(1210458810, 693121850, 1050524650, 4, MOD2);
    SquareStep(1050524650, 522061964, 1473620312, 3, MOD2); SquareStep(1473620312, 1027260897, 289049695, 2, MOD2);
    SquareStep(289049695, 39523426, 1202255583, 1, MOD2); SquareStep(1202255583, 683759169, 2113929216, 0, MOD2);
  }

  /** The published constants are roots of order MAXN, inverse to one another, for both moduli. */
  lemma Constants1()
    ensures MOD1 * MOD1 <= LL_LIMIT && InverseRoots(W1, IW1, MAXN, MOD1) && Cong(2 * INV21, 1, MOD1)
  {
    Chain1();
    InverseChain1();
    RootConstant(W1, MOD1);
    RootConstant(IW1, MOD1);
    CongByMultiple(W1 * IW1, 1, 37784587, MOD1);
    CongByMultiple(2 * INV21, 1, 1, MOD1);
  }

  lemma Constants2()
    ensures MOD2 * MOD2 <= LL_LIMIT && InverseRoots(W2, IW2, MAXN, MOD2) && Cong(2 * INV22, 1, MOD2)
  {
    Chain2();
    InverseChain2();
    RootConstant(W2, MOD2);
    RootConstant(IW2, MOD2);
    CongByMultiple(W2 * IW2, 1, 113079311, MOD2);
    CongByMultiple(2 * INV22, 1, 1, MOD2);
  }

  // ----- filling the tables -----

  lemma {:induction false} Pow2Gap(i: int, j: int)
    requires IsPow2(i) && IsPow2(j) && i < j
    ensures 2 * i <= j
    decreases i
  {
    if i > 1 { Pow2Gap(i / 2, j / 2); }
  }

  lemma Pow2Double(i: int)
    requires IsPow2(i)
    ensures IsPow2(2 * i) && i >= 1
  {
  }

  /** Every power of two below MAXN holds the reduced square of the entry at twice its index. */
  ghost predicate Squares(t: seq<int>, low: int, m: int)
    requires m > 0
  {
    |t| == MAXN + 1 && forall j :: low < j <= MAXN / 2 && IsPow2(j) ==> SquareAt(t, j, m)
  }

  ghost predicate SquareAt(t: seq<int>, j: nat, m: int)
    requires m > 0 && 2 * j < |t|
  {
    t[j] == (t[2 * j] * t[2 * j]) % m
  }

  lemma MaxnIsPow2()
    ensures IsPow2(MAXN)
  {
    assert IsPow2(4) && IsPow2(16) && IsPow2(64) && IsPow2(256) && IsPow2(1024) && IsPow2(0x1000);
    assert IsPow2(0x4000) && IsPow2(0x1_0000) && IsPow2(0x4_0000);
  }

  lemma {:induction false} RootAt(t: seq<int>, n: int, w: int, m: int)
    requires m > 1 && Squares(t, 0, m) && t[MAXN] == w && 0 <= w < m && PrincipalRoot(w, MAXN, m)
    requires IsPow2(n) && 1 <= n <= MAXN
    ensures 0 <= t[n] < m && (n >= 2 ==> PrincipalRoot(t[n], n, m))
    decreases MAXN - n
  {
    MaxnIsPow2();
    if n < MAXN {
      Pow2Gap(n, MAXN);
      Pow2Double(n);
      RootAt(t, 2 * n, w, m);
      assert SquareAt(t, n, m);
      var x := t[2 * n];
      if n >= 2 {
        CongMod(x * x, m);
        CongPow(t[n], x * x, n / 2, m);
        PowProduct(x, x, n / 2);
        PowAdd(x, n / 2, n / 2);
      }
    }
  }

  lemma {:induction false} TableFromSquares(t: seq<int>, n: int, w: int, m: int)
    requires m > 1 && Squares(t, 0, m) && t[MAXN] == w && 0 <= w < m && PrincipalRoot(w, MAXN, m)
    requires IsPow2(n) && 1 <= n <= MAXN
    ensures RootTable(t, n, m)
    decreases n
  {
    RootAt(t, n, w, m);
    if n > 1 {
      TableFromSquares(t, n / 2, w, m);
      assert SquareAt(t, n / 2, m);
      CongMod(t[n] * t[n], m);
    }
  }

  lemma {:induction false} TablesInverse(p: seq<int>, q: seq<int>, n: int, m: int)
    requires m > 1 && Squares(p, 0, m) && Squares(q, 0, m) && Cong(p[MAXN] * q[MAXN], 1, m)
    requires IsPow2(n) && 1 <= n <= MAXN
    ensures Cong(p[n] * q[n], 1, m)
    decreases MAXN - n
  {
    MaxnIsPow2();
    if n < MAXN {
      Pow2Gap(n, MAXN);
      Pow2Double(n);
      TablesInverse(p, q, 2 * n, m);
      assert SquareAt(p, n, m) && SquareAt(q, n, m);
      var x, y := p[2 * n], q[2 * n];
      CongMod(x * x, m);
      CongMod(y * y, m);
      CongMul(p[n], x * x, q[n], y * y, m);
      CongMul(x * y, 1, x * y, 1, m);
      MulInterchange(x, x, y, y);
    }
  }

  lemma SquaresStep(p: seq<int>, t: seq<int>, i: int, m: int)
    requires m > 0 && IsPow2(i) && i <= MAXN / 2 && Squares(p, i, m)
    requires t == p[i := (p[2 * i] * p[2 * i]) % m]
    ensures Squares(t, i / 2, m)
  {
    forall j | i / 2 < j <= MAXN / 2 && IsPow2(j)
      ensures SquareAt(t, j, m)
    {
      if j < i { Pow2Gap(j, i); }
      if j > i { assert SquareAt(p, j, m); }
    }
  }

  method SquareEntry(t: array<int>, i: nat, m: int)
    requires m > 1 && m * m <= LL_LIMIT && 1 <= i <= MAXN / 2 && IsPow2(i)
    requires Squares(t[..], i, m) && 0 <= t[2 * i] < m
    modifies t
    ensures Squares(t[..], i / 2, m) && 0 <= t[i] < m && t[MAXN] == old(t[MAXN])
  {
    ghost var p := t[..];
    t[i] := MulMod(t[i * 2], t[i * 2], m);
    SquaresStep(p, t[..], i, m);
  }

  /** One of the two loops of init. */
  method FillTables(pws: array<int>, ipws: array<int>, w: int, iw: int, m: int)
    requires pws != ipws && pws.Length == MAXN + 1 && ipws.Length == MAXN + 1
    requires m > 1 && m * m <= LL_LIMIT && 0 <= w < m && 0 <= iw < m
    modifies pws, ipws
    ensures Squares(pws[..], 0, m) && Squares(ipws[..], 0, m)
    ensures pws[MAXN] == w && ipws[MAXN] == iw
  {
    pws[MAXN] := w;
    ipws[MAXN] := iw;
    MaxnIsPow2();
    var i := MAXN / 2;
    while i >= 1
      invariant 0 <= i <= MAXN / 2 && (i == 0 || IsPow2(i))
      invariant i >= 1 ==> 0 <= pws[2 * i] < m && 0 <= ipws[2 * i] < m
      invariant Squares(pws[..], i, m) && Squares(ipws[..], i, m)
      invariant pws[MAXN] == w && ipws[MAXN] == iw
    {
      SquareEntry(pws, i, m);
      ghost var p := pws[..];
      SquareEntry(ipws, i, m);
      assert pws[..] == p;
      i := i / 2;
    }
  }

  /** The tables as init leaves them satisfy what the transform needs, at every length. */
  lemma TablesReady(pws: seq<int>, ipws: seq<int>, w: int, iw: int, n: int, m: int, inv2: int)
    requires m > 1 && m * m <= LL_LIMIT && 0 <= w < m && 0 <= iw < m && 0 <= inv2 < m
    requires InverseRoots(w, iw, MAXN, m) && Cong(2 * inv2, 1, m)
    requires Squares(pws, 0, m) && Squares(ipws, 0, m) && pws[MAXN] == w && ipws[MAXN] == iw
    requires IsPow2(n) && 1 <= n <= MAXN
    ensures TransformParameters(pws, ipws, n, m, inv2)
  {
    TableFromSquares(pws, n, w, m);
    TableFromSquares(ipws, n, iw, m);
    TablesInverse(pws, ipws, n, m);
  }

  // ----- the Chinese remainder step -----

  const CRT_MODULUS: int := MOD1 * MOD2
  const Y1: int := 210156705
  const Y2: int := 1668891489

  function Term(a: int, other: int, y: int): int {
    (a * other) % CRT_MODULUS * y % CRT_MODULUS
  }

  function Crt(a1: int, a2: int): int {
    (Term(a1, MOD2, Y1) + Term(a2, MOD1, Y2)) % CRT_MODULUS
  }

  /** The sum of the terms fits 64 bits, every product before it 128. */
  lemma CrtFits(a1: int, a2: int)
    requires 0 <= a1 < MOD1 && 0 <= a2 < MOD2
    ensures 0 <= Term(a1, MOD2, Y1) + Term(a2, MOD1, Y2) < LL_LIMIT
    ensures 0 <= a1 * MOD2 < LL_LIMIT * LL_LIMIT && 0 <= (a1 * MOD2) % CRT_MODULUS * Y1 < LL_LIMIT * LL_LIMIT
    ensures 0 <= a2 * MOD1 < LL_LIMIT * LL_LIMIT && 0 <= (a2 * MOD1) % CRT_MODULUS * Y2 < LL_LIMIT * LL_LIMIT
  {
  }

  lemma CrtTerm(c: int, m: int, m': int, y: int)
    requires m > 0 && m' > 0 && m * m' == CRT_MODULUS
    ensures Cong(((c % m) * m') % CRT_MODULUS * y % CRT_MODULUS, c * (m' * y), CRT_MODULUS)
  {
    var a := c % m;
    DivBounds(c, m);
    CongMod(a * m', CRT_MODULUS);
    CongMul((a * m') % CRT_MODULUS, a * m', y, y, CRT_MODULUS);
    CongMod((a * m') % CRT_MODULUS * y, CRT_MODULUS);
    var k := -(c / m) * y;
    assert (a * m') * y == c * (m' * y) + k * (m * m') by {
      calc {
        (a * m') * y;
        ((c - (c / m) * m) * m') * y;
        (c * m') * y - (((c / m) * m) * m') * y;
        { assert (((c / m) * m) * m') * y == ((c / m) * y) * (m * m'); }
        c * (m' * y) + k * (m * m');
      }
    }
    CongByMultiple((a * m') * y, c * (m' * y), k, CRT_MODULUS);
  }

  /** crt recovers a number from its two residues, modulo the product of the moduli. */
  lemma CrtRecovers(c: int)
    ensures Crt(c % MOD1, c % MOD2) == c % CRT_MODULUS
  {
    CrtTerm(c, MOD1, MOD2, Y1);
    CrtTerm(c, MOD2, MOD1, Y2);
    var t1, t2 := Term(c % MOD1, MOD2, Y1), Term(c % MOD2, MOD1, Y2);
    CongAdd(t1, c * (MOD2 * Y1), t2, c * (MOD1 * Y2), CRT_MODULUS);
    CongByMultiple(MOD2 * Y1 + MOD1 * Y2, 1, 1, CRT_MODULUS);
    CongMul(c, c, MOD2 * Y1 + MOD1 * Y2, 1, CRT_MODULUS);
    assert c * (MOD2 * Y1 + MOD1 * Y2) == c * (MOD2 * Y1) + c * (MOD1 * Y2);
  }
}
