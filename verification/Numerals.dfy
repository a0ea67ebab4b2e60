/**
 Reading a number written in some radix and printing one in decimal.
 */
module Numerals {
  import opened Arith
  import opened Polynomial
  import opened Digits
  import opened BigInts

  /** The value of a digit character, -1 for any other character. */
  function CharToValue(c: char): int {
    if '0' <= c <= '9' then c as int - '0' as int
    else if 'A' <= c <= 'Z' then c as int - 'A' as int + 10
    else if 'a' <= c <= 'z' then c as int - 'a' as int + 10
    else -1
  }

  const UPPER := "0123456789ABCDEFGHIJKLMNOPQRSTUVWXYZ"
  const LOWER := "0123456789abcdefghijklmnopqrstuvwxyz"

  /** Every digit is worth its place in the alphabet, in upper case and in lower case; nothing else is a digit. */
  lemma DigitValues(c: char, i: nat)
    requires i < 36
    ensures |UPPER| == |LOWER| == 36
    ensures CharToValue(c) == i <==> c == UPPER[i] || c == LOWER[i]
    ensures CharToValue(c) == -1 <==> c !in UPPER && c !in LOWER
  {
    Alphabet(i);
    var v := CharToValue(c);
    if v >= 0 {
      Alphabet(v);
      assert UPPER[v] == c || LOWER[v] == c;
    } else {
      forall j | 0 <= j < 36
        ensures UPPER[j] != c && LOWER[j] != c
      {
        Alphabet(j);
      }
    }
  }

  lemma Alphabet(i: nat)
    requires i < 36
    ensures |UPPER| == |LOWER| == 36
    ensures UPPER[i] == if i < 10 then '0' + i as char else 'A' + (i - 10) as char
    ensures LOWER[i] == if i < 10 then '0' + i as char else 'a' + (i - 10) as char
  {
  }

  predicate IsValidDigit(c: char, radix: int) {
    0 <= CharToValue(c) < radix
  }

  ghost predicate ValidDigits(s: string, radix: int) {
    forall i :: 0 <= i < |s| ==> IsValidDigit(s[i], radix)
  }

  /** The number written by s, most significant digit first. */
  ghost function Numeral(s: string, radix: int): int {
    if s == "" then 0 else Numeral(s[..|s| - 1], radix) * radix + CharToValue(s[|s| - 1])
  }

  ghost function Unsigned(s: string): string {
    if s != "" && (s[0] == '-' || s[0] == '+') then s[1..] else s
  }

  datatype Parsed = BadRadix | BadDigit | Number(value: int)

  /** What a string means: an optional sign, then digits; no digits at all mean zero. */
  ghost function Meaning(s: string, radix: int): Parsed {
    if radix < 2 || radix > 36 then BadRadix
    else if !ValidDigits(Unsigned(s), radix) then BadDigit
    else if s != "" && s[0] == '-' then Number(-Numeral(Unsigned(s), radix))
    else Number(Numeral(Unsigned(s), radix))
  }

  // ----- the laws that fix what a string means -----

  predicate HasSign(s: string) {
    s != "" && (s[0] == '-' || s[0] == '+')
  }

  lemma NoDigits(radix: int)
    requires 2 <= radix <= 36
    ensures Meaning("", radix) == Number(0)
  {
    assert Numeral("", radix) == 0;
  }

  /** A plus sign changes nothing, a minus sign the sign of the number only. */
  lemma SignedMeaning(s: string, radix: int)
    requires !HasSign(s)
    ensures Meaning("+" + s, radix) == Meaning(s, radix)
    ensures Meaning("-" + s, radix) == match Meaning(s, radix) case Number(v) => Number(-v) case refused => refused
  {
    assert Unsigned("+" + s) == s && Unsigned("-" + s) == s;
  }

  /** One more digit, in either case: the number so far times the radix, plus the digit's place in the alphabet. */
  lemma NextDigit(s: string, radix: int, d: nat)
    requires 2 <= radix <= 36 && d < radix && !HasSign(s) && Meaning(s, radix).Number?
    ensures |UPPER| == |LOWER| == 36
    ensures Meaning(s + [UPPER[d]], radix) == Number(Meaning(s, radix).value * radix + d)
    ensures Meaning(s + [LOWER[d]], radix) == Number(Meaning(s, radix).value * radix + d)
  {
    hide Meaning, HasSign, CharToValue;
    DigitOf(d);
    OneMoreDigit(s, radix, UPPER[d]);
    OneMoreDigit(s, radix, LOWER[d]);
  }

  lemma DigitOf(d: nat)
    requires d < 36
    ensures |UPPER| == |LOWER| == 36 && CharToValue(UPPER[d]) == d && CharToValue(LOWER[d]) == d
  {
    Alphabet(d);
  }

  lemma OneMoreDigit(s: string, radix: int, c: char)
    requires 2 <= radix <= 36 && !HasSign(s) && Meaning(s, radix).Number? && IsValidDigit(c, radix)
    ensures Meaning(s + [c], radix) == Number(Meaning(s, radix).value * radix + CharToValue(c))
  {
    var t := s + [c];
    assert t[..|t| - 1] == s && Unsigned(t) == t && t[0] != '-' && Unsigned(s) == s;
    assert Numeral(t, radix) == Numeral(s, radix) * radix + CharToValue(c);
  }

  /** What is refused: a radix outside 2..36, and any character behind the sign that is not among the first digits. */
  lemma Refusals(s: string, radix: int)
    ensures |UPPER| == |LOWER| == 36
    ensures Meaning(s, radix) == BadRadix <==> radix < 2 || radix > 36
    ensures Meaning(s, radix) == BadDigit
            <==> 2 <= radix <= 36 && exists i :: (if HasSign(s) then 1 else 0) <= i < |s| && s[i] !in UPPER[..radix] && s[i] !in LOWER[..radix]
  {
    Alphabet(0);
    if 2 <= radix <= 36 {
      var from := if HasSign(s) then 1 else 0;
      var body := Unsigned(s);
      forall i | from <= i < |s|
        ensures body[i - from] == s[i] && (IsValidDigit(s[i], radix) <==> s[i] in UPPER[..radix] || s[i] in LOWER[..radix])
      {
        AmongFirst(s[i], radix);
      }
      if !ValidDigits(body, radix) {
        var k :| 0 <= k < |body| && !IsValidDigit(body[k], radix);
        assert body[k] == s[k + from];
      }
    }
  }

  lemma AmongFirst(c: char, radix: int)
    requires 2 <= radix <= 36
    ensures |UPPER| == |LOWER| == 36
    ensures IsValidDigit(c, radix) <==> c in UPPER[..radix] || c in LOWER[..radix]
  {
    var v := CharToValue(c);
    DigitValues(c, if v >= 0 then v else 0);
    if c in UPPER[..radix] {
      var j :| 0 <= j < radix && UPPER[j] == c;
      DigitValues(c, j);
    }
    if c in LOWER[..radix] {
      var j :| 0 <= j < radix && LOWER[j] == c;
      DigitValues(c, j);
    }
    if 0 <= v < radix { assert UPPER[..radix][v] == UPPER[v] && LOWER[..radix][v] == LOWER[v]; }
  }

  lemma ReadsHexadecimal()
    ensures Meaning("ab", 16) == Number(171) && Meaning("+AB", 16) == Number(171) && Meaning("-aB", 16) == Number(-171)
  {
    TwoDigits('a', 'b');
    TwoDigits('A', 'B');
    TwoDigits('a', 'B');
    SignedMeaning("AB", 16);
    SignedMeaning("aB", 16);
    assert ['a', 'b'] == "ab" && "+" + "AB" == "+AB" && "-" + "aB" == "-aB";
  }

  lemma TwoDigits(c: char, d: char)
    requires IsValidDigit(c, 16) && IsValidDigit(d, 16)
    ensures Meaning([c, d], 16) == Number(16 * CharToValue(c) + CharToValue(d))
  {
    hide Meaning, CharToValue;
    NoDigits(16);
    OneMoreDigit("", 16, c);
    assert "" + [c] == [c] && [c] + [d] == [c, d];
    NoSign(c);
    OneMoreDigit([c], 16, d);
  }

  lemma NoSign(c: char)
    requires CharToValue(c) >= 0
    ensures !HasSign([c])
  {
  }

  lemma {:induction false} NumeralBound(s: string, radix: int)
    requires radix >= 2 && ValidDigits(s, radix)
    ensures Numeral(s, radix) >= 0
    ensures s != "" && s[0] != '0' ==> Numeral(s, radix) > 0
  {
    if s != "" {
      var t := s[..|s| - 1];
      NumeralBound(t, radix);
      assert IsValidDigit(s[|s| - 1], radix);
      MulMonotone(0, Numeral(t, radix), radix);
      if t != "" && s[0] != '0' { MulMonotone(1, Numeral(t, radix), radix); }
    }
  }

  lemma {:induction false} DropZeroDigit(s: string, radix: int)
    requires s != "" && s[0] == '0'
    ensures Numeral(s[1..], radix) == Numeral(s, radix)
    ensures ValidDigits(s[1..], radix) && radix > 0 <==> ValidDigits(s, radix)
  {
    var t := s[..|s| - 1];
    if t == "" {
      assert Numeral(s, radix) == 0 by { assert Numeral("", radix) == 0; }
    } else {
      DropZeroDigit(t, radix);
      assert s[1..][..|s| - 2] == t[1..];
    }
    assert ValidDigits(s[1..], radix) && radix > 0 ==> ValidDigits(s, radix) by {
      assert forall i :: 1 <= i < |s| ==> s[i] == s[1..][i - 1];
    }
    assert ValidDigits(s, radix) ==> ValidDigits(s[1..], radix) && radix > 0 by {
      if ValidDigits(s, radix) { assert IsValidDigit(s[0], radix); }
      assert forall i :: 0 <= i < |s| - 1 ==> s[1..][i] == s[i + 1];
    }
  }

  /** The limb loop of the string constructor: the number so far, times the radix, plus a digit. */
  method AppendDigit(ds: seq<int>, radix: int, digit: int) returns (result: seq<int>)
    requires 2 <= radix <= 36 && 0 <= digit < radix
    requires DigitsOf(ds, BASE) && if ds == [] then digit > 0 else ds[|ds| - 1] != 0
    ensures DigitsOf(result, BASE) && result != [] && result[|result| - 1] != 0
    ensures Eval(result, BASE) == Eval(ds, BASE) * radix + digit
  {
    result := ds;
    var carry := digit;
    var i := 0;
    assert ds[..0] == [] && result[..0] == [];
    while i < |ds|
      invariant 0 <= i <= |ds| == |result| && DigitsOf(result, BASE) && 0 <= carry < radix
      invariant forall j :: i <= j < |ds| ==> result[j] == ds[j]
      invariant i == |ds| && i > 0 && carry == 0 ==> result[i - 1] != 0
      invariant i == 0 ==> carry == digit
      invariant Eval(result[..i], BASE) + carry * Pow(BASE, i) == Eval(ds[..i], BASE) * radix + digit
    {
      var product := result[i] * radix + carry;
      ScaledLimb(result[i], radix, carry);
      AppendStep(ds, result, i, radix, digit, carry, product);
      result := result[i := product % BASE];
      carry := product / BASE;
      i := i + 1;
    }
    assert ds[..|ds|] == ds && result[..|ds|] == result;
    if carry > 0 {
      EvalSnoc(result, carry, BASE);
      result := result + [carry];
    }
  }

  lemma ScaledLimb(d: int, radix: int, carry: int)
    requires 0 <= d < BASE && 2 <= radix <= 36 && 0 <= carry < radix
    ensures 0 <= d * radix + carry < ULL_LIMIT
    ensures 0 <= (d * radix + carry) % BASE < BASE && 0 <= (d * radix + carry) / BASE < radix
    ensures d > 0 && (d * radix + carry) / BASE == 0 ==> (d * radix + carry) % BASE > 0
  {
    var p := d * radix + carry;
    MulMonotone(d, BASE - 1, radix);
    DivBounds(p, BASE);
    if d > 0 { MulMonotone(1, d, radix); }
  }

  lemma AppendStep(ds: seq<int>, result: seq<int>, i: nat, radix: int, digit: int, carry: int, product: int)
    requires i < |ds| == |result| && result[i] == ds[i] && product == result[i] * radix + carry
    requires Eval(result[..i], BASE) + carry * Pow(BASE, i) == Eval(ds[..i], BASE) * radix + digit
    ensures Eval(result[i := product % BASE][..i + 1], BASE) + (product / BASE) * Pow(BASE, i + 1)
         == Eval(ds[..i + 1], BASE) * radix + digit
  {
    var next := result[i := product % BASE];
    assert next[..i] == result[..i];
    PrefixStep(next, i, BASE);
    PrefixStep(ds, i, BASE);
    CarryStep(product, BASE, Pow(BASE, i));
    var p, e := Pow(BASE, i), Eval(ds[..i], BASE);
    assert product * p == (ds[i] * radix) * p + carry * p;
    assert (e + ds[i] * p) * radix == e * radix + (ds[i] * radix) * p;
  }

  datatype ParseResult = RadixError | DigitError | Ok(number: BigInt)

  ghost predicate Agrees(r: ParseResult, meaning: Parsed)
    reads if r.Ok? then {r.number} else {}
  {
    match r
    case RadixError => meaning == BadRadix
    case DigitError => meaning == BadDigit
    case Ok(n) => n.Valid() && meaning == Number(n.Val())
  }

  /** The string constructor: it accepts exactly the meaningful strings and yields their number. */
  method Parse(num: string, radix: int) returns (r: ParseResult)
    ensures Agrees(r, Meaning(num, radix))
    ensures r.Ok? ==> fresh(r.number)
  {
    if radix < 2 || radix > 36 { return RadixError; }
    var zero := new BigInt.FromInt(0);
    if num == "" { return Ok(zero); }
    var positive, start := true, 0;
    if num[0] == '-' {
      positive, start := false, 1;
    } else if num[0] == '+' {
      start := 1;
    }
    ghost var body := Unsigned(num);
    assert num[start..] == body;
    hide Numeral, ValidDigits, NormalForm;
    while start < |num| - 1 && num[start] == '0'
      invariant 0 <= start <= |num|
      invariant ValidDigits(num[start..], radix) <==> ValidDigits(body, radix)
      invariant Numeral(num[start..], radix) == Numeral(body, radix)
      invariant zero.Valid() && zero.Val() == 0
    {
      DropZeroDigit(num[start..], radix);
      assert num[start..][1..] == num[start + 1..];
      start := start + 1;
    }
    var view := num[start..];
    if view == "" || view == "0" {
      EmptyOrZero(view, radix);
      return Ok(zero);
    }
    var valid, digits := ParseDigits(view, radix);
    if !valid { return DigitError; }
    NumeralBound(view, radix);
    var n := new BigInt.FromDigits(digits, positive);
    return Ok(n);
  }

  lemma EmptyOrZero(view: string, radix: int)
    requires radix >= 2 && (view == "" || view == "0")
    ensures ValidDigits(view, radix) && Numeral(view, radix) == 0
  {
    assert Numeral("", radix) == 0;
    if view == "0" { assert view[..0] == "" && IsValidDigit('0', radix); }
  }

  /** The character loop of the string constructor, on a text that does not start with a zero. */
  method ParseDigits(view: string, radix: int) returns (valid: bool, digits: seq<int>)
    requires 2 <= radix <= 36 && view != "" && view[0] != '0'
    ensures valid <==> ValidDigits(view, radix)
    ensures valid ==> DigitsOf(digits, BASE) && NoLeadingZeros(digits)
    ensures valid ==> Eval(digits, BASE) == Numeral(view, radix)
  {
    digits := [];
    var i := 0;
    assert view[..0] == "";
    while i < |view|
      invariant 0 <= i <= |view| && DigitsOf(digits, BASE)
      invariant ValidDigits(view[..i], radix) && Numeral(view[..i], radix) == Eval(digits, BASE)
      invariant if digits == [] then i == 0 else digits[|digits| - 1] != 0
    {
      if !IsValidDigit(view[i], radix) { return false, digits; }
      assert view[..i + 1][..i] == view[..i];
      digits := AppendDigit(digits, radix, CharToValue(view[i]));
      i := i + 1;
    }
    assert view[..|view|] == view;
    valid := true;
  }

  // ----- printing -----

  function DigitChar(d: int): char
    requires 0 <= d < 10
  {
    ('0' as int + d) as char
  }

  ghost function Decimal(n: nat): string {
    if n == 0 then "" else Decimal(n / 10) + [DigitChar(n % 10)]
  }

  /** The decimal text of an integer. */
  ghost function Printed(v: int): string {
    if v == 0 then "0" else (if v < 0 then "-" else "") + Decimal(Abs(v))
  }

  lemma {:induction false} DecimalMeans(n: nat)
    ensures ValidDigits(Decimal(n), 10) && Numeral(Decimal(n), 10) == n
    ensures n > 0 ==> Decimal(n) != "" && '1' <= Decimal(n)[0] <= '9'
  {
    if n > 0 {
      var q, d := n / 10, n % 10;
      DecimalMeans(q);
      var t, c := Decimal(q), DigitChar(d);
      assert (t + [c])[..|t|] == t;
      assert Decimal(n) == t + [c];
      assert CharToValue(c) == d && Numeral(t + [c], 10) == q * 10 + d;
      if q == 0 { assert t == ""; }
    }
  }

  /** Printing and reading back in radix ten is the identity on every integer. */
  lemma PrintParseRoundTrip(v: int)
    ensures Meaning(Printed(v), 10) == Number(v)
  {
    DecimalMeans(Abs(v));
    var s := Printed(v);
    if v == 0 {
      assert Unsigned(s) == "0" && s[..0] == "" && Numeral("", 10) == 0;
    } else if v < 0 {
      assert Unsigned(s) == Decimal(Abs(v));
    } else {
      assert s == Decimal(v) && Unsigned(s) == s;
    }
  }

  ghost predicate DecimalOnly(t: string) {
    forall i :: 0 <= i < |t| ==> '0' <= t[i] <= '9'
  }

  /** A decimal numeral as one writes it: perhaps a minus sign, then digits, no zero in front unless it is "0". */
  ghost predicate CanonicalText(text: string) {
    text != "" &&
    var body := if text[0] == '-' then text[1..] else text;
    body != "" && DecimalOnly(body) && (body[0] == '0' ==> text == "0")
  }

  lemma {:induction false} DecimalDigits(n: nat)
    ensures DecimalOnly(Decimal(n))
    ensures n > 0 ==> Decimal(n) != "" && Decimal(n)[0] != '0'
  {
    if n > 0 {
      DecimalDigits(n / 10);
      assert Decimal(n) == Decimal(n / 10) + [DigitChar(n % 10)];
      if n / 10 == 0 { assert Decimal(n / 10) == ""; }
    }
  }

  lemma PrintedCanonical(v: int)
    ensures CanonicalText(Printed(v)) && (Printed(v)[0] == '-' <==> v < 0) && (Printed(v) == "0" <==> v == 0)
  {
    DecimalDigits(Abs(v));
    if v < 0 { assert Printed(v)[1..] == Decimal(Abs(v)); }
  }

  /** Digits without a zero in front are the numeral of their number. */
  lemma {:induction false} DecimalUnique(t: string)
    requires DecimalOnly(t) && (t != "" ==> t[0] != '0')
    ensures Numeral(t, 10) >= 0 && (t != "" ==> Numeral(t, 10) > 0) && Decimal(Numeral(t, 10)) == t
  {
    if t == "" {
      assert Numeral("", 10) == 0;
    } else {
      var u, c := t[..|t| - 1], t[|t| - 1];
      DecimalUnique(u);
      var n, d := Numeral(u, 10), CharToValue(c);
      assert Numeral(t, 10) == n * 10 + d && 0 <= d < 10 && DigitChar(d) == c;
      if u == "" { assert t == [c] && n == 0; }
      assert (n * 10 + d) / 10 == n && (n * 10 + d) % 10 == d;
      assert t == u + [c];
    }
  }

  /** The printed text is the one canonical numeral that means the number. */
  lemma PrintedExactly(text: string, v: int)
    ensures text == Printed(v) <==> CanonicalText(text) && Meaning(text, 10) == Number(v)
  {
    hide CanonicalText, Meaning, Printed;
    PrintedCanonical(v);
    PrintParseRoundTrip(v);
    if CanonicalText(text) { PrintedMeaning(text); }
  }

  lemma PrintedMeaning(text: string)
    requires CanonicalText(text)
    ensures Meaning(text, 10).Number? ==> text == Printed(Meaning(text, 10).value)
  {
    hide Numeral, Decimal;
    if text == "0" {
      EmptyOrZero("0", 10);
    } else {
      var body := if text[0] == '-' then text[1..] else text;
      DecimalUnique(body);
      assert Unsigned(text) == body;
      assert text == (if text[0] == '-' then "-" + body else body);
    }
  }

  ghost function Backwards(s: string): string {
    if s == "" then "" else Backwards(s[1..]) + [s[0]]
  }

  lemma {:induction false} BackwardsSnoc(s: string, c: char)
    ensures Backwards(s + [c]) == [c] + Backwards(s)
  {
    if s != "" {
      assert (s + [c])[1..] == s[1..] + [c];
      BackwardsSnoc(s[1..], c);
    } else {
      assert (s + [c])[1..] == "";
    }
  }

  /** std::ranges::reverse on the collected characters. */
  method ReverseText(s: string) returns (r: string)
    ensures r == Backwards(s)
  {
    r := "";
    var i := 0;
    assert Backwards("") == "" && s[..0] == "";
    while i < |s|
      invariant 0 <= i <= |s| && r == Backwards(s[..i])
    {
      assert s[..i + 1] == s[..i] + [s[i]];
      BackwardsSnoc(s[..i], s[i]);
      r := [s[i]] + r;
      i := i + 1;
    }
    assert s[..|s|] == s;
  }

  lemma DivisionByTen(v: int)
    requires v > 0
    ensures MagnitudeRemainder(v, 10) == v % 10 && TruncatedQuotient(v, 10) == v / 10
    ensures Decimal(v) == Decimal(v / 10) + [DigitChar(v % 10)]
  {
  }

  /** One pass of the print loop: the last decimal digit, and the rest of the number. */
  method TakeDigit(tmp: BigInt, ten: BigInt) returns (c: char)
    requires tmp != ten && tmp.Valid() && tmp.Val() > 0 && ten.Valid() && ten.Val() == 10
    modifies tmp
    ensures tmp.Valid() && 0 <= tmp.Val() < old(tmp.Val())
    ensures Decimal(old(tmp.Val())) == Decimal(tmp.Val()) + [c]
  {
    DivisionByTen(tmp.Val());
    var val := new BigInt.Copy(tmp);
    var ok := val.ModuloAssign(ten);
    SingleLimb(val.sign, val.digits);
    c := DigitChar(val.digits[0]);
    ok := tmp.DivideAssign(ten);
  }

  lemma CollectDigit(t: string, c: char, res: string)
    ensures t + Backwards(res + [c]) == (t + [c]) + Backwards(res)
  {
    BackwardsSnoc(res, c);
  }

  lemma NothingLeft()
    ensures Decimal(0) == "" && Backwards("") == ""
  {
  }

  method ToString(n: BigInt) returns (text: string)
    requires n.Valid()
    ensures text == Printed(n.Val())
    ensures CanonicalText(text) && Meaning(text, 10) == Number(n.Val())
  {
    hide Decimal, Backwards, CanonicalText, Meaning;
    n.IsZeroMeans();
    DigitsBound(n.digits, BASE);
    PrintedCanonical(n.Val());
    PrintParseRoundTrip(n.Val());
    if n.IsZero() { return "0"; }
    NothingLeft();
    var res := "";
    var tmp := new BigInt.Copy(n);
    tmp.sign := true;
    ghost var magnitude := tmp.Val();
    var ten := new BigInt.FromInt(10);
    tmp.IsZeroMeans();
    while !tmp.IsZero()
      invariant fresh(tmp) && tmp != ten && tmp.Valid() && ten.Valid() && ten.Val() == 10
      invariant tmp.Val() >= 0 && (tmp.IsZero() <==> tmp.Val() == 0)
      invariant Decimal(tmp.Val()) + Backwards(res) == Decimal(magnitude)
      decreases tmp.Val()
    {
      var c := TakeDigit(tmp, ten);
      CollectDigit(Decimal(tmp.Val()), c, res);
      res := res + [c];
      tmp.IsZeroMeans();
    }
    if !n.sign {
      BackwardsSnoc(res, '-');
      res := res + ['-'];
    }
    text := ReverseText(res);
  }

  /** Fields rebuilt from the printed text are the original fields. */
  lemma ReparsedFields(s: bool, xs: seq<int>, t: bool, ys: seq<int>)
    requires NormalForm(s, xs) && NormalForm(t, ys)
    requires Meaning(Printed(ValueOf(s, xs)), 10) == Number(ValueOf(t, ys))
    ensures s == t && xs == ys
  {
    PrintParseRoundTrip(ValueOf(s, xs));
    NormalFormUnique(s, xs, t, ys);
  }
}
