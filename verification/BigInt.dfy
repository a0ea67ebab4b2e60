/**
 Signed big integers: base 2^32 limbs, least significant first, updated in place. Every
 operation is specified by what it does to the integer the object stands for.
 */
module BigInts {
  import opened Arith
  import opened Polynomial
  import opened Digits

  const BASE: int := 0x1_0000_0000

  /** Unsigned 64-bit intermediates stay below this bound. */
  const ULL_LIMIT: int := 0x1_0000_0000_0000_0000

  datatype StrongOrdering = Less | Equal | Greater

  function OrderOf(a: int, b: int): StrongOrdering {
    if a < b then Less else if a == b then Equal else Greater
  }

  function Reverse(o: StrongOrdering): StrongOrdering {
    match o
    case Less => Greater
    case Equal => Equal
    case Greater => Less
  }

  ghost predicate NormalForm(sign: bool, digits: seq<int>) {
    DigitsOf(digits, BASE) && NoLeadingZeros(digits) && (digits == [0] ==> sign)
  }

  ghost function ValueOf(sign: bool, digits: seq<int>): int {
    if sign then Eval(digits, BASE) else -Eval(digits, BASE)
  }

  /** The quotient the source computes: magnitudes are divided, the signs multiplied. */
  function TruncatedQuotient(a: int, b: int): int
    requires b != 0
  {
    if (a >= 0) == (b > 0) then Abs(a) / Abs(b) else -(Abs(a) / Abs(b))
  }

  /** The remainder the source computes: that of the magnitudes, never negative. */
  function MagnitudeRemainder(a: int, b: int): int
    requires b != 0
  {
    Abs(a) % Abs(b)
  }

  /** On magnitudes division is exact: quotient times divisor plus remainder, remainder below the divisor. */
  lemma DivisionOfMagnitudes(a: int, b: int)
    requires b != 0
    ensures Abs(a) == Abs(TruncatedQuotient(a, b)) * Abs(b) + MagnitudeRemainder(a, b)
    ensures 0 <= MagnitudeRemainder(a, b) < Abs(b)
    ensures TruncatedQuotient(a, b) != 0 ==> (TruncatedQuotient(a, b) > 0 <==> (a > 0 <==> b > 0))
  {
    DivBounds(Abs(a), Abs(b));
  }

  lemma QuotientAndRemainder(a: int, b: int, q: int, r: int)
    requires b != 0 && Abs(a) == q * Abs(b) + r && 0 <= r < Abs(b)
    ensures TruncatedQuotient(a, b) == (if (a >= 0) == (b > 0) then q else -q)
    ensures MagnitudeRemainder(a, b) == r
  {
    DivModUnique(Abs(a), q, r, Abs(b));
  }

  /**
   The usual identity q * b + r == a holds exactly when the dividend is not negative or the
   divisor divides it: the remainder does not take the sign of the dividend.
   */
  lemma DivisionIdentityExactly(a: int, b: int)
    requires b != 0
    ensures TruncatedQuotient(a, b) * b + MagnitudeRemainder(a, b) == a
            <==> a >= 0 || Divides(b, a)
  {
    var q, r := Abs(a) / Abs(b), MagnitudeRemainder(a, b);
    DivBounds(Abs(a), Abs(b));
    QuotientAndRemainder(a, b, q, r);
    SignedQuotient(q, b);
    NoRemainder(a, b);
  }

  lemma NoRemainder(a: int, b: int)
    requires b != 0
    ensures MagnitudeRemainder(a, b) == 0 <==> Divides(b, a)
  {
    var q := Abs(a) / Abs(b);
    DivBounds(Abs(a), Abs(b));
    SignedQuotient(q, b);
    if MagnitudeRemainder(a, b) == 0 {
      assert a == (if (a >= 0) == (b > 0) then q else -q) * b;
    }
    if Divides(b, a) {
      var k: int :| a == k * b;
      SignedQuotient(k, b);
      MultipleMagnitude(a, b, k);
    }
  }

  lemma MultipleMagnitude(a: int, b: int, k: int)
    requires b != 0 && a == k * b
    ensures Abs(a) % Abs(b) == 0
  {
    assert Abs(a) == Abs(k) * Abs(b) by {
      if k >= 0 { SignedQuotient(k, b); } else { SignedQuotient(-k, b); }
    }
    DivModUnique(Abs(a), Abs(k), 0, Abs(b));
  }

  lemma SignedQuotient(q: int, b: int)
    ensures q * Abs(b) == if b >= 0 then q * b else -(q * b)
    ensures (-q) * b == -(q * b)
  {
  }

  lemma NegativeDividendExample()
    ensures TruncatedQuotient(-7, 2) * 2 + MagnitudeRemainder(-7, 2) == -5
  {
  }

  /** On normal forms, equal numbers have equal fields. */
  lemma NormalFormUnique(s: bool, xs: seq<int>, t: bool, ys: seq<int>)
    requires NormalForm(s, xs) && NormalForm(t, ys) && ValueOf(s, xs) == ValueOf(t, ys)
    ensures s == t && xs == ys
  {
    DigitsBound(xs, BASE);
    DigitsBound(ys, BASE);
    NormalUnique(xs, ys, BASE);
    ZeroNumeral(xs, BASE);
  }

  function Signed(positive: bool, n: int): int {
    if positive then n else -n
  }

  /** Bitwise or. */
  function Or(a: nat, b: nat): nat
    decreases a + b
  {
    if a == 0 && b == 0 then 0
    else 2 * Or(a / 2, b / 2) + if a % 2 == 1 || b % 2 == 1 then 1 else 0
  }

  lemma {:induction false} OrZero(a: nat)
    ensures Or(a, 0) == a
  {
    if a > 0 { OrZero(a / 2); }
  }

  lemma OrDouble(y: nat, c: nat)
    ensures Or(2 * y, c) == 2 * Or(y, c / 2) + c % 2
  {
  }

  /** Below the bits shifted out of the way, or is plus. */
  lemma {:induction false} OrIsSum(x: nat, c: nat, s: nat)
    requires c < Pow(2, s)
    ensures x * Pow(2, s) >= 0 && Or(x * Pow(2, s), c) == x * Pow(2, s) + c
  {
    hide Or;
    PowPositive(2, s);
    MulMonotone(0, x, Pow(2, s));
    if s == 0 {
      OrZero(x);
    } else {
      OrIsSum(x, c / 2, s - 1);
      var y := x * Pow(2, s - 1);
      assert x * Pow(2, s) == 2 * y;
      OrDouble(y, c);
    }
  }

  /**
   The operand as plus_assign and minus_assign shift it: by limbs where the magnitudes are
   added, by bits where they are subtracted.
   */
  function Shifted(v: int, added: bool, shift: nat): int {
    v * Pow(if added then BASE else 2, shift)
  }

  lemma ShiftedLaws(v: int, added: bool, shift: nat)
    ensures Shifted(-v, added, shift) == -Shifted(v, added, shift)
    ensures Shifted(0, added, shift) == 0 && (shift == 0 ==> Shifted(v, added, shift) == v)
    ensures v >= 0 ==> Shifted(v, added, shift) >= 0
  {
    var w := Pow(if added then BASE else 2, shift);
    PowPositive(if added then BASE else 2, shift);
    assert (-v) * w == -(v * w);
    if v >= 0 { MulMonotone(0, v, w); }
  }

  /** By limbs the shift is a power of 2^32, by bits a power of two. */
  lemma ShiftedMeans(v: int, shift: nat)
    ensures Shifted(v, true, shift) == v * Pow(0x1_0000_0000, shift) && Shifted(v, false, shift) == v * Pow(2, shift)
  {
  }

  /** The shift is one by limbs only if nothing is shifted or the magnitudes are added. */
  lemma ShiftedByLimbsExactly(b: int, added: bool, shift: nat)
    ensures Shifted(b, added, shift) == b * Pow(BASE, shift) <==> b == 0 || added || shift == 0
  {
    BitsBelowLimbs(shift);
    var x, y := Pow(2, shift), Pow(BASE, shift);
    if !added && b * x == b * y { assert b * (y - x) == 0; }
  }

  lemma {:induction false} BitsBelowLimbs(shift: nat)
    ensures 1 <= Pow(2, shift) <= Pow(BASE, shift) && (shift > 0 ==> Pow(2, shift) < Pow(BASE, shift))
  {
    if shift > 0 {
      BitsBelowLimbs(shift - 1);
      MulMonotone(2, BASE, Pow(2, shift - 1));
    }
  }

  lemma BaseIsPower()
    ensures Pow(2, 32) == BASE
  {
    PowAdd(2, 8, 8);
    PowAdd(2, 16, 16);
    assert Pow(2, 8) == 256;
  }

  /** A number below the base has one limb. */
  lemma SingleLimb(sign: bool, ds: seq<int>)
    requires NormalForm(sign, ds) && 0 <= ValueOf(sign, ds) < BASE
    ensures ds == [ValueOf(sign, ds)]
  {
    ZeroNumeral(ds, BASE);
    DigitsBound(ds, BASE);
    var e := Eval(ds, BASE);
    assert [e][1..] == [] && Eval([e], BASE) == e;
    NormalUnique(ds, [e], BASE);
  }

  class BigInt {
    var sign: bool
    var digits: seq<int>

    ghost predicate Valid()
      reads this
    {
      NormalForm(sign, digits)
    }

    ghost function Val(): int
      reads this
    {
      ValueOf(sign, digits)
    }

    constructor Copy(other: BigInt)
      ensures sign == other.sign && digits == other.digits
    {
      sign, digits := other.sign, other.digits;
    }

    /** The constructor from a vector of limbs. */
    constructor FromDigits(ds: seq<int>, s: bool)
      requires DigitsOf(ds, BASE)
      ensures Valid() && Val() == ValueOf(s, ds)
    {
      sign, digits := s, ds + [0];
      new;
      assert ds + [0] == ds + Zeros(1);
      DropLeadingZeros(ds, 1, BASE);
      Optimise();
    }

    /** The constructor from a machine integer: the digits are split off by division. */
    constructor FromInt(d: int)
      requires -ULL_LIMIT < d < ULL_LIMIT
      ensures Valid() && Val() == d
    {
      sign, digits := d >= 0, [];
      new;
      var number := if d < 0 then -d else d;
      ghost var whole := number;
      while number > 0
        invariant number >= 0 && DigitsOf(digits, BASE) && sign == (d >= 0)
        invariant Eval(digits, BASE) + number * Pow(BASE, |digits|) == whole
      {
        DivBounds(number, BASE);
        EvalSnoc(digits, number % BASE, BASE);
        CarryStep(number, BASE, Pow(BASE, |digits|));
        digits := digits + [number % BASE];
        number := number / BASE;
      }
      assert digits + [0] == digits + Zeros(1);
      DropLeadingZeros(digits, 1, BASE);
      digits := digits + [0];
      Optimise();
    }

    predicate IsZero()
      reads this
    {
      |digits| == 1 && digits[0] == 0
    }

    lemma IsZeroMeans()
      requires Valid()
      ensures IsZero() <==> Val() == 0
      ensures IsZero() ==> sign
    {
      ZeroNumeral(digits, BASE);
    }

    /** Dropping leading zero limbs and the sign of zero keeps the number. */
    method Optimise()
      requires DigitsOf(digits, BASE) && digits != []
      modifies this
      ensures Valid() && Val() == old(Val())
      ensures Eval(digits, BASE) == old(Eval(digits, BASE))
      ensures sign == (old(sign) || digits == [0])
      ensures |digits| <= old(|digits|)
    {
      while |digits| > 1 && digits[|digits| - 1] == 0
        invariant digits != [] && DigitsOf(digits, BASE) && sign == old(sign)
        invariant |digits| <= old(|digits|)
        invariant Eval(digits, BASE) == old(Eval(digits, BASE))
        decreases |digits|
      {
        TopDigit(digits, BASE);
        digits := digits[..|digits| - 1];
      }
      if IsZero() {
        assert digits == [0] && Eval([0], BASE) == 0;
        sign := true;
      }
    }

    /** The three-way comparison is the order of the integers, and equality is that of the fields. */
    method Compare(other: BigInt) returns (o: StrongOrdering)
      requires Valid() && other.Valid()
      ensures o == Less <==> Val() < other.Val()
      ensures o == Equal <==> Val() == other.Val()
      ensures o == Greater <==> Val() > other.Val()
      ensures o == Equal <==> sign == other.sign && digits == other.digits
      ensures o == OrderOf(Val(), other.Val())
    {
      if Val() == other.Val() { NormalFormUnique(sign, digits, other.sign, other.digits); }
      DigitsBound(digits, BASE);
      DigitsBound(other.digits, BASE);
      ZeroNumeral(digits, BASE);
      ZeroNumeral(other.digits, BASE);
      if sign != other.sign { return if sign then Greater else Less; }
      if |digits| != |other.digits| {
        if |digits| < |other.digits| {
          LongerIsLarger(digits, other.digits, BASE);
        } else {
          LongerIsLarger(other.digits, digits, BASE);
        }
        var byLength := OrderOf(|digits|, |other.digits|);
        return if sign then byLength else Reverse(byLength);
      }
      var i := |digits| - 1;
      while i >= 0
        invariant -1 <= i < |digits|
        invariant digits[i + 1..] == other.digits[i + 1..]
      {
        if digits[i] != other.digits[i] {
          if digits[i] < other.digits[i] {
            TopDifferenceDecides(digits, other.digits, i, BASE);
          } else {
            TopDifferenceDecides(other.digits, digits, i, BASE);
          }
          var byDigit := OrderOf(digits[i], other.digits[i]);
          return if sign then byDigit else Reverse(byDigit);
        }
        assert digits[i..] == [digits[i]] + digits[i + 1..];
        assert other.digits[i..] == [other.digits[i]] + other.digits[i + 1..];
        i := i - 1;
      }
      assert digits == other.digits;
      return Equal;
    }

    // ----- addition and subtraction -----

    // ----- shifting -----

    /** The loop of <<= over the bits left when whole limbs are taken care of. */
    method ShiftBits(bits: nat)
      requires DigitsOf(digits, BASE) && digits != [] && 0 < bits < 32
      modifies this`digits
      ensures DigitsOf(digits, BASE) && digits != []
      ensures Eval(digits, BASE) == old(Eval(digits, BASE)) * Pow(2, bits)
    {
      hide Or;
      ghost var a, p := digits, Pow(2, bits);
      ShiftRoom(bits);
      var carry := 0;
      var i := 0;
      var size := |digits|;
      while i < size
        invariant 0 <= i <= size == |digits| && DigitsOf(digits, BASE) && 0 <= carry < p
        invariant forall j :: i <= j < size ==> digits[j] == a[j]
        invariant Eval(digits[..i], BASE) + carry * Pow(BASE, i) == Eval(a[..i], BASE) * p
      {
        OrIsSum(digits[i], carry, bits);
        var value := Or(digits[i] * Pow(2, bits), carry);
        ShiftedLimb(digits[i], carry, p);
        assert value < ULL_LIMIT;
        ShiftLimbStep(digits, a, i, carry, value, p);
        digits := digits[i := value % BASE];
        carry := value / BASE;
        i := i + 1;
      }
      assert digits[..size] == digits && a[..size] == a;
      if carry > 0 {
        EvalSnoc(digits, carry, BASE);
        digits := digits + [carry];
      }
    }

    static lemma ShiftRoom(bits: nat)
      requires 0 < bits < 32
      ensures 1 < Pow(2, bits) < BASE
    {
      BaseIsPower();
      PowMonotone(2, 1, bits);
      PowMonotone(2, bits + 1, 32);
      assert Pow(2, 1) == 2 * Pow(2, 0) && Pow(2, bits + 1) == 2 * Pow(2, bits);
    }

    static lemma ShiftedLimb(d: int, carry: int, p: int)
      requires 0 <= d < BASE && 0 <= carry < p < BASE
      ensures 0 <= d * p + carry < BASE * p && BASE * p < ULL_LIMIT
      ensures 0 <= (d * p + carry) % BASE < BASE && 0 <= (d * p + carry) / BASE < p
    {
      MulMonotone(d, BASE - 1, p);
      DivBounds(d * p + carry, BASE);
      if (d * p + carry) / BASE >= p { MulMonotone(p, (d * p + carry) / BASE, BASE); }
    }

    static lemma ShiftLimbStep(ds: seq<int>, a: seq<int>, i: nat, carry: int, value: int, p: int)
      requires i < |ds| == |a| && value == a[i] * p + carry
      requires Eval(ds[..i], BASE) + carry * Pow(BASE, i) == Eval(a[..i], BASE) * p
      ensures Eval(ds[i := value % BASE][..i + 1], BASE) + (value / BASE) * Pow(BASE, i + 1) == Eval(a[..i + 1], BASE) * p
    {
      assert ds[i := value % BASE][..i] == ds[..i];
      PrefixStep(ds[i := value % BASE], i, BASE);
      PrefixStep(a, i, BASE);
      CarryStep(value, BASE, Pow(BASE, i));
      ShiftArithmetic(Eval(a[..i], BASE), a[i], carry, p, Pow(BASE, i), value);
    }

    static lemma ShiftArithmetic(e: int, d: int, carry: int, p: int, q: int, value: int)
      requires value == d * p + carry
      ensures (e + d * q) * p == e * p - carry * q + value * q
    {
      assert (d * q) * p == (d * p) * q;
    }

    /** operator<<=: whole limbs of zeros at the front, then the rest of the bits. */
    method ShiftLeft(shift: nat)
      requires Valid()
      modifies this
      ensures Valid() && Val() == Shifted(old(Val()), false, shift) && (old(sign) ==> sign)
    {
      hide Shifted, Pow;
      IsZeroMeans();
      ShiftedLaws(Val(), false, shift);
      if shift == 0 || IsZero() {
        return;
      }
      var limbs, bits := shift / 32, shift % 32;
      ghost var e := Eval(digits, BASE);
      if limbs > 0 {
        ZerosInFront(digits, limbs);
        digits := Zeros(limbs) + digits;
      }
      ghost var whole := Eval(digits, BASE);
      if bits > 0 {
        ShiftBits(bits);
      }
      ShiftedValue(e, shift, whole, Eval(digits, BASE));
      Optimise();
    }

    static lemma ZerosInFront(ds: seq<int>, k: nat)
      ensures Eval(Zeros(k) + ds, BASE) == Eval(ds, BASE) * Pow(BASE, k)
    {
      EvalConcat(Zeros(k), ds, BASE);
      EvalZeros(k, BASE);
    }

    static lemma ShiftedValue(e: int, shift: nat, whole: int, shifted: int)
      requires whole == if shift / 32 > 0 then e * Pow(BASE, shift / 32) else e
      requires shifted == if shift % 32 > 0 then whole * Pow(2, shift % 32) else whole
      ensures shifted == Shifted(e, false, shift) && -shifted == Shifted(-e, false, shift)
    {
      var limbs, bits := shift / 32, shift % 32;
      var p, q := Pow(BASE, limbs), Pow(2, bits);
      BaseIsPower();
      PowMul(2, 32, limbs);
      PowAdd(2, 32 * limbs, bits);
      assert whole == e * p && shifted == whole * q;
      assert (e * p) * q == e * (p * q);
      ShiftedLaws(e, false, shift);
    }

    /** The limb loop of plus_assign; unless it is shifted, other may be this very object. */
    method AddLimbs(other: BigInt, shift: nat)
      requires DigitsOf(digits, BASE) && DigitsOf(other.digits, BASE) && digits != []
      requires shift > 0 ==> other != this
      modifies this`digits
      ensures DigitsOf(digits, BASE) && digits != []
      ensures Eval(digits, BASE) == old(Eval(digits, BASE)) + Shifted(old(Eval(other.digits, BASE)), true, shift)
    {
      var size := if |digits| > |other.digits| + shift then |digits| else |other.digits| + shift;
      ghost var shifted := Zeros(shift) + other.digits;
      ghost var a, b := digits + Zeros(size - |digits|), shifted + Zeros(size - |shifted|);
      DropLeadingZeros(digits, size - |digits|, BASE);
      DropLeadingZeros(shifted, size - |shifted|, BASE);
      ZerosInFront(other.digits, shift);
      digits := digits + Zeros(size - |digits|);
      var carry := AddEqualLength(other, shift, size, a, b);
      if carry > 0 {
        EvalSnoc(digits, carry, BASE);
        digits := digits + [carry];
      }
    }

    method AddEqualLength(other: BigInt, shift: nat, size: nat, ghost a: seq<int>, ghost b: seq<int>) returns (carry: int)
      requires |a| == |b| == size && DigitsOf(a, BASE) && DigitsOf(b, BASE) && digits == a
      requires |other.digits| + shift <= size && (shift > 0 ==> other != this)
      requires forall j :: 0 <= j < size ==> b[j] == if shift <= j < shift + |other.digits| then other.digits[j - shift] else 0
      modifies this`digits
      ensures |digits| == size && DigitsOf(digits, BASE) && 0 <= carry <= 1
      ensures Eval(digits, BASE) + carry * Pow(BASE, size) == Eval(a, BASE) + Eval(b, BASE)
    {
      carry := 0;
      var i := 0;
      while i < size
        invariant 0 <= i <= size && |digits| == size && DigitsOf(digits, BASE) && 0 <= carry <= 1
        invariant forall j :: i <= j < size ==> digits[j] == a[j]
        invariant |other.digits| + shift <= size && (shift > 0 ==> other != this)
        invariant forall j :: i <= j < size ==> b[j] == if shift <= j < shift + |other.digits| then other.digits[j - shift] else 0
        invariant Eval(digits[..i], BASE) + carry * Pow(BASE, i) == Eval(a[..i], BASE) + Eval(b[..i], BASE)
      {
        var sum := carry + digits[i];
        if i >= shift && i - shift < |other.digits| { sum := sum + other.digits[i - shift]; }
        assert sum == carry + a[i] + b[i] && sum < ULL_LIMIT;
        DivBounds(sum, BASE);
        AddLimbStep(digits, a, b, i, carry, sum);
        digits := digits[i := sum % BASE];
        carry := sum / BASE;
        i := i + 1;
      }
      assert digits[..size] == digits && a[..size] == a && b[..size] == b;
    }

    lemma AddLimbStep(ds: seq<int>, a: seq<int>, b: seq<int>, i: nat, carry: int, sum: int)
      requires i < |ds| == |a| == |b| && sum == carry + a[i] + b[i]
      requires Eval(ds[..i], BASE) + carry * Pow(BASE, i) == Eval(a[..i], BASE) + Eval(b[..i], BASE)
      ensures Eval(ds[i := sum % BASE][..i + 1], BASE) + (sum / BASE) * Pow(BASE, i + 1)
           == Eval(a[..i + 1], BASE) + Eval(b[..i + 1], BASE)
    {
      assert ds[i := sum % BASE][..i] == ds[..i];
      PrefixStep(ds[i := sum % BASE], i, BASE);
      PrefixStep(a, i, BASE);
      PrefixStep(b, i, BASE);
      CarryStep(sum, BASE, Pow(BASE, i));
      var p := Pow(BASE, i);
      assert sum * p == carry * p + a[i] * p + b[i] * p;
    }

    /** The limb loop of minus_assign: xs minus ys, where xs is not the smaller number. */
    method SubtractLimbs(xs: seq<int>, ys: seq<int>) returns (result: seq<int>)
      requires DigitsOf(xs, BASE) && DigitsOf(ys, BASE) && xs != []
      requires Eval(ys, BASE) <= Eval(xs, BASE)
      ensures DigitsOf(result, BASE) && result != []
      ensures Eval(result, BASE) == Eval(xs, BASE) - Eval(ys, BASE)
    {
      var size := if |xs| > |ys| then |xs| else |ys|;
      ghost var a, b := xs + Zeros(size - |xs|), ys + Zeros(size - |ys|);
      DropLeadingZeros(xs, size - |xs|, BASE);
      DropLeadingZeros(ys, size - |ys|, BASE);
      result := Zeros(size);
      var borrow := 0;
      var i := 0;
      while i < size
        invariant 0 <= i <= size && |result| == size
        invariant DigitsOf(result, BASE) && -1 <= borrow <= 0
        invariant Eval(result[..i], BASE) + borrow * Pow(BASE, i) == Eval(a[..i], BASE) - Eval(b[..i], BASE)
      {
        var difference := borrow;
        if i < |xs| { difference := difference + xs[i]; }
        if i < |ys| { difference := difference - ys[i]; }
        assert difference == borrow + a[i] - b[i];
        ghost var borrowIn := borrow;
        if difference < 0 {
          difference := difference + BASE;
          borrow := -1;
        } else {
          borrow := 0;
        }
        SubtractLimbStep(result, a, b, i, borrowIn, borrow, difference);
        result := result[i := difference];
        i := i + 1;
      }
      assert result[..size] == result && a[..size] == a && b[..size] == b;
      DigitsBound(result, BASE);
    }

    static lemma SubtractLimbStep(ds: seq<int>, a: seq<int>, b: seq<int>, i: nat, borrow: int, borrow': int, d: int)
      requires i < |ds| == |a| == |b| && d == borrow + a[i] - b[i] - borrow' * BASE
      requires Eval(ds[..i], BASE) + borrow * Pow(BASE, i) == Eval(a[..i], BASE) - Eval(b[..i], BASE)
      ensures Eval(ds[i := d][..i + 1], BASE) + borrow' * Pow(BASE, i + 1)
           == Eval(a[..i + 1], BASE) - Eval(b[..i + 1], BASE)
    {
      assert ds[i := d][..i] == ds[..i];
      PrefixStep(ds[i := d], i, BASE);
      PrefixStep(a, i, BASE);
      PrefixStep(b, i, BASE);
      var p := Pow(BASE, i);
      assert d * p == borrow * p + a[i] * p - b[i] * p - (borrow' * BASE) * p;
      assert (borrow' * BASE) * p == borrow' * (BASE * p);
    }

    /**
     The shift is by limbs where the magnitudes are added. Where they are subtracted it is
     handed to minus_assign, which shifts by bits.
     */
    method PlusAssign(other: BigInt, shift: nat := 0)
      requires Valid() && other.Valid() && (shift > 0 ==> other != this)
      modifies this
      ensures Valid() && Val() == old(Val()) + Shifted(old(other.Val()), old(sign == other.sign), shift)
      ensures shift == 0 ==> Val() == old(Val()) + old(other.Val())
      decreases if sign == other.sign then 0 else 1
    {
      hide Shifted;
      other.IsZeroMeans();
      ShiftedLaws(Eval(other.digits, BASE), sign == other.sign, shift);
      if other.IsZero() { return; }
      DigitsBound(other.digits, BASE);
      DigitsBound(digits, BASE);
      if sign == other.sign {
        AddLimbs(other, shift);
      } else {
        var temp := new BigInt.Copy(other);
        temp.sign := sign;
        MinusAssign(temp, shift);
      }
      Optimise();
      if IsZero() { sign := true; }
    }

    method MinusAssign(other: BigInt, shift: nat := 0)
      requires Valid() && other.Valid()
      modifies this
      ensures Valid() && Val() == old(Val()) - Shifted(old(other.Val()), old(sign != other.sign), shift)
      ensures shift == 0 ==> Val() == old(Val()) - old(other.Val())
      decreases if sign == other.sign then 0 else 1
    {
      hide Shifted, DigitsOf;
      other.IsZeroMeans();
      ShiftedLaws(Eval(other.digits, BASE), sign != other.sign, shift);
      if other.IsZero() { return; }
      if sign != other.sign {
        var temp := new BigInt.Copy(other);
        temp.sign := sign;
        PlusAssign(temp, shift);
        return;
      }
      var absThis := new BigInt.Copy(this);
      absThis.sign := true;
      var absOther := new BigInt.Copy(other);
      absOther.sign := true;
      absOther.ShiftLeft(shift);
      var resultSign := sign;
      var order := absThis.Compare(absOther);
      if order == Less {
        resultSign := !resultSign;
        absThis.digits, absOther.digits := absOther.digits, absThis.digits;
      }
      digits := SubtractLimbs(absThis.digits, absOther.digits);
      sign := resultSign;
      Optimise();
      if IsZero() { sign := true; }
    }

    // ----- schoolbook multiplication -----

    /** One pass of the inner loop: d times ys is added into the result from limb i on. */
    static method MultiplyRow(start: seq<int>, d: int, ys: seq<int>, i: nat) returns (result: seq<int>)
      requires DigitsOf(start, BASE) && DigitsOf(ys, BASE) && 0 <= d < BASE
      requires i + |ys| < |start| && forall k :: i + |ys| <= k < |start| ==> start[k] == 0
      ensures |result| == |start| && DigitsOf(result, BASE)
      ensures Eval(result, BASE) == Eval(start, BASE) + d * Eval(ys, BASE) * Pow(BASE, i)
      ensures forall k :: i + |ys| < k < |start| ==> result[k] == 0
    {
      result := start;
      var carry := 0;
      var j := 0;
      assert ys[..0] == [] && d * 0 * Pow(BASE, i) == 0;
      while j < |ys| || carry > 0
        invariant 0 <= j <= |ys| + 1 && (j == |ys| + 1 ==> carry == 0) && 0 <= carry < BASE
        invariant |result| == |start| && DigitsOf(result, BASE)
        invariant forall k :: i + j <= k < |start| ==> result[k] == start[k]
        invariant Eval(result, BASE) + carry * Pow(BASE, i + j)
               == Eval(start, BASE) + d * Eval(ys[..if j < |ys| then j else |ys|], BASE) * Pow(BASE, i)
        decreases |ys| + 1 - j
      {
        var prod := result[i + j] + carry;
        ghost var t := 0;
        if j < |ys| {
          t := d * ys[j];
          MulBounds(d, ys[j], BASE - 1, BASE - 1);
          prod := prod + d * ys[j];
          RowTerm(ys, d, i, j);
        } else {
          assert ys[..|ys|] == ys;
        }
        assert prod < ULL_LIMIT;
        ProductBounds(prod);
        RowStep(result, i + j, carry, t, prod);
        result := result[i + j := prod % BASE];
        carry := prod / BASE;
        j := j + 1;
      }
      assert ys[..|ys|] == ys;
    }

    static lemma ProductBounds(prod: int)
      requires 0 <= prod < BASE * BASE
      ensures 0 <= prod % BASE < BASE && 0 <= prod / BASE < BASE
      ensures prod < BASE ==> prod / BASE == 0
    {
      DivBounds(prod, BASE);
    }

    static lemma RowTerm(ys: seq<int>, d: int, i: nat, j: nat)
      requires j < |ys|
      ensures d * Eval(ys[..j + 1], BASE) * Pow(BASE, i)
           == d * Eval(ys[..j], BASE) * Pow(BASE, i) + (d * ys[j]) * Pow(BASE, i + j)
    {
      PrefixStep(ys, j, BASE);
      PowAdd(BASE, i, j);
      RowTermArithmetic(d, Eval(ys[..j], BASE), ys[j], Pow(BASE, j), Pow(BASE, i));
    }

    static lemma RowTermArithmetic(d: int, e: int, y: int, p: int, q: int)
      ensures d * (e + y * p) * q == d * e * q + (d * y) * (q * p)
    {
      assert d * (e + y * p) == d * e + d * (y * p);
      assert (d * (y * p)) * q == (d * y) * (q * p) by {
        assert d * (y * p) == (d * y) * p;
        assert ((d * y) * p) * q == (d * y) * (p * q);
      }
    }

    static lemma RowStep(ds: seq<int>, k: nat, carry: int, t: int, prod: int)
      requires k < |ds| && prod == ds[k] + carry + t
      ensures Eval(ds[k := prod % BASE], BASE) + (prod / BASE) * Pow(BASE, k + 1)
           == Eval(ds, BASE) + carry * Pow(BASE, k) + t * Pow(BASE, k)
    {
      UpdateDigit(ds, k, prod % BASE, BASE);
      CarryStep(prod, BASE, Pow(BASE, k));
      var p := Pow(BASE, k);
      assert (prod % BASE - ds[k]) * p == (prod % BASE) * p - ds[k] * p;
      assert prod * p == ds[k] * p + carry * p + t * p;
    }

    static method MultiplyLimbs(xs: seq<int>, ys: seq<int>) returns (result: seq<int>)
      requires DigitsOf(xs, BASE) && DigitsOf(ys, BASE) && ys != []
      ensures |result| == |xs| + |ys| && DigitsOf(result, BASE)
      ensures Eval(result, BASE) == Eval(xs, BASE) * Eval(ys, BASE)
    {
      result := Zeros(|xs| + |ys|);
      EvalZeros(|xs| + |ys|, BASE);
      var i := 0;
      while i < |xs|
        invariant 0 <= i <= |xs| && |result| == |xs| + |ys| && DigitsOf(result, BASE)
        invariant forall k :: i + |ys| <= k < |result| ==> result[k] == 0
        invariant Eval(result, BASE) == Eval(xs[..i], BASE) * Eval(ys, BASE)
      {
        result := MultiplyRow(result, xs[i], ys, i);
        PrefixStep(xs, i, BASE);
        OuterTerm(Eval(xs[..i], BASE), xs[i], Pow(BASE, i), Eval(ys, BASE));
        i := i + 1;
      }
      assert xs[..|xs|] == xs;
    }

    static lemma OuterTerm(e: int, x: int, p: int, y: int)
      ensures (e + x * p) * y == e * y + x * y * p
    {
      assert (x * p) * y == (x * y) * p;
    }

    /** multiply_assign under the trivial rule. */
    method MultiplyAssign(other: BigInt)
      requires Valid() && other.Valid()
      modifies this
      ensures Valid() && Val() == old(Val()) * old(other.Val())
    {
      IsZeroMeans();
      other.IsZeroMeans();
      if other.IsZero() || IsZero() {
        assert Val() * other.Val() == 0;
        digits := [0];
        assert Eval([0], BASE) == 0;
        Optimise();
        return;
      }
      SignedProduct(sign, Eval(digits, BASE), other.sign, Eval(other.digits, BASE));
      var result := MultiplyLimbs(digits, other.digits);
      sign := sign == other.sign;
      digits := result;
      Optimise();
    }

    static lemma SignedProduct(s: bool, x: int, t: bool, y: int)
      ensures (if s == t then x * y else -(x * y)) == (if s then x else -x) * (if t then y else -y)
    {
    }

    // ----- long division -----

    /** The quotient digit: the largest q in [0, BASE] with q * b at most remain, by binary search. */
    static method QuotientDigit(remain: BigInt, absOther: BigInt) returns (q: int)
      requires remain.Valid() && absOther.Valid() && remain.Val() >= 0 && absOther.Val() > 0
      requires remain.Val() < BASE * absOther.Val()
      ensures 0 <= q < BASE
      ensures q * absOther.Val() <= remain.Val() < (q + 1) * absOther.Val()
    {
      ghost var r, b := remain.Val(), absOther.Val();
      var left := 0;
      q := 0;
      var right: nat := BASE;
      while left <= right
        invariant 0 <= left <= right + 1 && right <= BASE
        invariant q == if left == 0 then 0 else left - 1
        invariant q * b <= r && r < (right + 1) * b
        decreases right + 1 - left
      {
        var mid := left + (right - left) / 2;
        var temp := new BigInt.Copy(absOther);
        var factor := new BigInt.FromInt(mid);
        temp.MultiplyAssign(factor);
        assert b * mid == mid * b;
        var order := remain.Compare(temp);
        if order != Less {
          q := mid;
          left := mid + 1;
        } else {
          right := mid - 1;
        }
      }
      if q >= BASE { MulMonotone(BASE, q, b); }
    }

    /** remain, extended by the next limb from the top, minus q times the divisor. */
    static method DivisionStep(remain: BigInt, d: int, absOther: BigInt) returns (q: int)
      requires remain != absOther && remain.Valid() && absOther.Valid() && 0 <= d < BASE
      requires 0 <= remain.Val() < absOther.Val()
      modifies remain
      ensures remain.Valid() && 0 <= q < BASE
      ensures 0 <= remain.Val() < absOther.Val()
      ensures old(remain.Val()) * BASE + d == q * absOther.Val() + remain.Val()
    {
      ghost var r, b := remain.Val(), absOther.Val();
      DigitsBound(remain.digits, BASE);
      remain.IsZeroMeans();
      assert remain.Val() == Eval(remain.digits, BASE);
      remain.digits := [d] + remain.digits;
      remain.Optimise();
      assert remain.Val() == d + BASE * r;
      MulMonotone(r + 1, b, BASE);
      q := QuotientDigit(remain, absOther);
      if q > 0 {
        var temp := new BigInt.Copy(absOther);
        var factor := new BigInt.FromInt(q);
        temp.MultiplyAssign(factor);
        assert temp.Val() == b * q == q * b;
        remain.MinusAssign(temp);
      }
      assert (q + 1) * b == q * b + b;
    }

    /** The loop shared by divide_assign and modulo_assign: limbs of ds from the top into the remainder. */
    static method LongDivision(ds: seq<int>, absOther: BigInt) returns (quotient: seq<int>, remain: BigInt)
      requires DigitsOf(ds, BASE) && absOther.Valid() && absOther.Val() > 0
      ensures |quotient| == |ds| && DigitsOf(quotient, BASE)
      ensures fresh(remain) && remain.Valid()
      ensures Divided(ds, quotient, absOther.Val(), remain.Val())
      ensures 0 <= remain.Val() < absOther.Val()
    {
      ghost var b := absOther.Val();
      quotient := Zeros(|ds|);
      remain := new BigInt.FromInt(0);
      var i := |ds| - 1;
      assert Divided(ds[|ds|..], quotient[|ds|..], b, 0) by { assert 0 * b == 0; }
      hide Divided;
      while i >= 0
        invariant -1 <= i < |ds|
        invariant |quotient| == |ds| && DigitsOf(quotient, BASE)
        invariant fresh(remain) && remain.Valid()
        invariant 0 <= remain.Val() < b
        invariant Divided(ds[i + 1..], quotient[i + 1..], b, remain.Val())
      {
        ghost var r := remain.Val();
        var q := DivisionStep(remain, ds[i], absOther);
        DividedNext(ds, quotient, i, q, b, r, remain.Val());
        quotient := quotient[i := q];
        i := i - 1;
      }
      assert ds[0..] == ds && quotient[0..] == quotient;
    }

    /** The limbs ds have been turned into the quotient limbs qs, leaving remainder r. */
    static ghost predicate Divided(ds: seq<int>, qs: seq<int>, b: int, r: int) {
      |ds| == |qs| && Eval(ds, BASE) == Eval(qs, BASE) * b + r
    }

    static lemma DividedNext(ds: seq<int>, qs: seq<int>, i: nat, q: int, b: int, r: int, r': int)
      requires i < |ds| == |qs| && Divided(ds[i + 1..], qs[i + 1..], b, r)
      requires r * BASE + ds[i] == q * b + r'
      ensures Divided(ds[i..], qs[i := q][i..], b, r')
    {
      assert ds[i..][1..] == ds[i + 1..];
      assert qs[i := q][i..][1..] == qs[i + 1..];
      var e := Eval(qs[i + 1..], BASE);
      assert (q + BASE * e) * b == q * b + BASE * (e * b);
    }

    /** Division. The dividend is tested first, so zero divided by zero is zero, not an error. */
    method DivideAssign(other: BigInt) returns (ok: bool)
      requires Valid() && other.Valid()
      modifies this
      ensures Valid()
      ensures ok == (old(Val()) == 0 || old(other.Val()) != 0)
      ensures !ok ==> Val() == old(Val())
      ensures ok && old(Val()) == 0 ==> Val() == 0
      ensures ok && old(Val()) != 0 ==> Val() == TruncatedQuotient(old(Val()), old(other.Val()))
    {
      hide TruncatedQuotient, MagnitudeRemainder, NoLeadingZeros, OrderOf, Pow;
      IsZeroMeans();
      other.IsZeroMeans();
      if IsZero() { return true; }
      if other.IsZero() { return false; }
      DigitsBound(digits, BASE);
      DigitsBound(other.digits, BASE);
      var absThis := new BigInt.Copy(this);
      absThis.sign := true;
      var absOther := new BigInt.Copy(other);
      absOther.sign := true;
      var order := absThis.Compare(absOther);
      if order == Less {
        QuotientAndRemainder(Val(), other.Val(), 0, absThis.Val());
        digits := [0];
        assert Eval([0], BASE) == 0;
        Optimise();
        return true;
      }
      var quotient, remain := LongDivision(digits, absOther);
      QuotientAndRemainder(Val(), other.Val(), Eval(quotient, BASE), remain.Val());
      sign := sign == other.sign;
      digits := quotient;
      Optimise();
      return true;
    }

    method ModuloAssign(other: BigInt) returns (ok: bool)
      requires Valid() && other.Valid()
      modifies this
      ensures Valid()
      ensures ok == (old(Val()) == 0 || old(other.Val()) != 0)
      ensures !ok ==> Val() == old(Val())
      ensures ok && old(Val()) == 0 ==> Val() == 0
      ensures ok && old(Val()) != 0 ==> Val() == MagnitudeRemainder(old(Val()), old(other.Val()))
    {
      hide TruncatedQuotient, MagnitudeRemainder, NoLeadingZeros, OrderOf, Pow;
      IsZeroMeans();
      other.IsZeroMeans();
      if IsZero() { return true; }
      if other.IsZero() { return false; }
      DigitsBound(digits, BASE);
      DigitsBound(other.digits, BASE);
      var absThis := new BigInt.Copy(this);
      absThis.sign := true;
      var absOther := new BigInt.Copy(other);
      absOther.sign := true;
      var order := absThis.Compare(absOther);
      if order == Less {
        QuotientAndRemainder(Val(), other.Val(), 0, absThis.Val());
        sign := true;
        return true;
      }
      var quotient, remain := LongDivision(digits, absOther);
      QuotientAndRemainder(Val(), other.Val(), Eval(quotient, BASE), remain.Val());
      DigitsBound(remain.digits, BASE);
      remain.IsZeroMeans();
      digits := remain.digits;
      sign := true;
      Optimise();
      return true;
    }
  }
}
