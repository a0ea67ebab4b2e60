/**
 The fraction class: operators that update numerator and denominator in place, powers by
 squaring, and roots by Newton's iteration. The components are mathematical integers.
 */
module Fractions {
  import opened Arith
  import opened Rationals
  import opened Newton

  datatype PartialOrdering = Less | Equivalent | Greater

  /** The loop of remainders. */
  method Gcd(a0: nat, b0: nat) returns (a: nat)
    ensures a == GcdOf(a0, b0)
  {
    a := a0;
    var b: nat := b0;
    while b != 0
      invariant GcdOf(a, b) == GcdOf(a0, b0)
      decreases b
    {
      a, b := b, a % b;
    }
  }

  function RAbs(x: real): real {
    if x < 0.0 then -x else x
  }

  lemma {:induction false} PowZero(b: real)
    ensures RPow(b, 0) == 1.0
  {
  }

  lemma {:induction false} PowStep(b: real, n: nat)
    requires n > 0
    ensures RPow(b, n) == (if n % 2 == 1 then b * RPow(b * b, n / 2) else RPow(b * b, n / 2))
  {
    RPowSquare(b, n / 2);
    assert n == 2 * (n / 2) + n % 2;
  }

  lemma {:induction false} PowLoop(r: real, b: real, n: nat, target: real, r': real, b': real)
    requires n > 0 && r * RPow(b, n) == target && b' == b * b && r' == if n % 2 == 1 then r * b else r
    ensures r' * RPow(b', n / 2) == target
  {
    PowStep(b, n);
    var p := RPow(b', n / 2);
    assert RPow(b * b, n / 2) == p;
    if n % 2 == 1 { assert (r * b) * p == r * (b * p); }
  }

  lemma WholeNumber(n: int)
    ensures Value(n, 1) == n as real
  {
  }

  class Fraction {
    var numerator: int
    var denominator: int

    /** Lowest terms, with the sign in the denominator. */
    ghost predicate Valid()
      reads this
    {
      Canonical(numerator, denominator)
    }

    ghost function Number(): real
      reads this
      requires Valid()
    {
      Value(numerator, denominator)
    }

    constructor (n: int, d: int)
      requires d != 0
      ensures Valid() && Number() == Value(n, d)
    {
      numerator, denominator := n, d;
      new;
      var ok := Optimise();
    }

    /** The constructor as called: a zero denominator is refused. */
    static method Create(n: int, d: int) returns (f: Fraction?)
      ensures f == null <==> d == 0
      ensures f != null ==> fresh(f) && f.Valid() && f.Number() == Value(n, d)
    {
      if d == 0 {
        return null;
      }
      f := new Fraction(n, d);
    }

    /** Lowest terms for any fields; false stands for the exception, which leaves them as they are. */
    method Optimise() returns (ok: bool)
      modifies this
      ensures ok <==> old(denominator) != 0
      ensures ok ==> Valid() && Number() == Value(old(numerator), old(denominator))
      ensures !ok ==> numerator == old(numerator) && denominator == old(denominator)
    {
      if denominator == 0 {
        return false;
      }
      if numerator == 0 {
        ValueTimes(0, denominator);
        ValueSign(0, denominator);
        ValueSign(0, 1);
        denominator := 1;
        return true;
      }
      ghost var n, d := numerator, denominator;
      if numerator < 0 {
        numerator := Abs(numerator);
        denominator := 0 - denominator;
        ValueScaled(n, d, -1);
      }
      var divisor := Gcd(Abs(numerator), Abs(denominator));
      Reduced(numerator, denominator);
      ValueScaled(numerator / divisor, denominator / divisor, divisor);
      numerator := numerator / divisor;
      denominator := denominator / divisor;
      ok := true;
    }

    method Copy() returns (f: Fraction)
      requires Valid()
      ensures fresh(f) && f.Valid() && f.Number() == Number()
    {
      f := new Fraction(numerator, denominator);
    }

    // ----- the compound operators; other may be this object itself -----

    method PlusAssign(other: Fraction)
      requires Valid() && other.Valid()
      modifies this
      ensures Valid() && Number() == old(Number()) + old(other.Number())
    {
      ValueSum(numerator, denominator, other.numerator, other.denominator);
      numerator := numerator * other.denominator + denominator * other.numerator;
      denominator := denominator * other.denominator;
      var ok := Optimise();
    }

    method MinusAssign(other: Fraction)
      requires Valid() && other.Valid()
      modifies this
      ensures Valid() && Number() == old(Number()) - old(other.Number())
    {
      ValueSum(numerator, denominator, other.numerator, other.denominator);
      numerator := numerator * other.denominator - denominator * other.numerator;
      denominator := denominator * other.denominator;
      var ok := Optimise();
    }

    method TimesAssign(other: Fraction)
      requires Valid() && other.Valid()
      modifies this
      ensures Valid() && Number() == old(Number()) * old(other.Number())
    {
      ValueProduct(numerator, denominator, other.numerator, other.denominator);
      numerator := numerator * other.numerator;
      denominator := denominator * other.denominator;
      var ok := Optimise();
    }

    /**
     False stands for the exception on a zero divisor, which leaves a zero denominator behind.
     Divided by itself in place, a fraction becomes one over its denominator.
     */
    method DivideAssign(other: Fraction) returns (ok: bool)
      requires Valid() && other.Valid()
      modifies this
      ensures ok <==> old(other.Number()) != 0.0
      ensures ok ==> Valid()
      ensures ok && other != this ==> Number() == old(Number()) / old(other.Number())
      ensures ok && other == this ==> Number() == Value(1, old(denominator))
      ensures !ok ==> denominator == 0
    {
      ghost var n, d := numerator, denominator;
      ValueSign(other.numerator, other.denominator);
      if other != this && other.numerator != 0 { ValueQuotient(n, d, other.numerator, other.denominator); }
      if other == this && n != 0 { SelfQuotient(n, d); }
      numerator := numerator * other.denominator;
      denominator := denominator * other.numerator;
      ok := Optimise();
    }

    // ----- the operators on copies -----

    method Plus(other: Fraction) returns (result: Fraction)
      requires Valid() && other.Valid()
      ensures fresh(result) && result.Valid() && result.Number() == Number() + other.Number()
    {
      result := Copy();
      result.PlusAssign(other);
    }

    method Minus(other: Fraction) returns (result: Fraction)
      requires Valid() && other.Valid()
      ensures fresh(result) && result.Valid() && result.Number() == Number() - other.Number()
    {
      result := Copy();
      result.MinusAssign(other);
    }

    method Times(other: Fraction) returns (result: Fraction)
      requires Valid() && other.Valid()
      ensures fresh(result) && result.Valid() && result.Number() == Number() * other.Number()
    {
      result := Copy();
      result.TimesAssign(other);
    }

    method Over(other: Fraction) returns (result: Fraction?)
      requires Valid() && other.Valid()
      ensures result == null <==> other.Number() == 0.0
      ensures result != null ==> fresh(result) && result.Valid() && result.Number() == Number() / other.Number()
    {
      result := Copy();
      var ok := result.DivideAssign(other);
      if !ok {
        return null;
      }
    }

    method Negated() returns (result: Fraction)
      requires Valid()
      ensures fresh(result) && result.Valid() && result.Number() == -Number()
    {
      result := Copy();
      ghost var n, d := result.numerator, result.denominator;
      result.denominator := 0 - result.denominator;
      ValueNegated(n, d);
      var ok := result.Optimise();
    }

    method Absolute() returns (result: Fraction)
      requires Valid()
      ensures fresh(result) && result.Valid() && result.Number() == RAbs(Number())
      ensures result.Number() >= 0.0 && (result.Number() == Number() || result.Number() == -Number())
    {
      var zero := new Fraction(0, 1);
      WholeNumber(0);
      if Compare(zero) == Less {
        result := Negated();
      } else {
        result := Copy();
      }
    }

    predicate Equals(other: Fraction): (equal: bool)
      reads this, other
    {
      numerator == other.numerator && denominator == other.denominator
    }

    /** Equality of the fields is equality of the numbers. */
    lemma {:induction false} EqualsExactly(other: Fraction)
      requires Valid() && other.Valid()
      ensures Equals(other) <==> Number() == other.Number()
    {
      UniqueForm(numerator, denominator, other.numerator, other.denominator);
    }

    /** The order of the rationals. */
    function Compare(other: Fraction): (order: PartialOrdering)
      requires Valid() && other.Valid()
      reads this, other
      ensures order == Less <==> Number() < other.Number()
      ensures order == Greater <==> Number() > other.Number()
      ensures order == Equivalent <==> Number() == other.Number()
    {
      var thisNegative, otherNegative := denominator < 0, other.denominator < 0;
      var left, right := numerator * Abs(other.denominator), other.numerator * Abs(denominator);
      ValueSign(numerator, denominator);
      ValueSign(other.numerator, other.denominator);
      if thisNegative != otherNegative then (if thisNegative then Less else Greater)
      else
        CompareProducts(numerator, denominator, other.numerator, other.denominator);
        CompareProducts(other.numerator, other.denominator, numerator, denominator);
        if thisNegative then (if left < right then Greater else if left > right then Less else Equivalent)
        else if left < right then Less else if left > right then Greater else Equivalent
    }

    lemma {:induction false} Sign()
      requires Valid()
      ensures numerator >= 0 && denominator != 0
      ensures numerator == 0 <==> Number() == 0.0
      ensures denominator < 0 <==> Number() < 0.0
    {
      ValueSign(numerator, denominator);
    }

    // ----- powers and roots -----

    /** Exponentiation by squaring; the base multiplies itself in place. */
    method Pow(degree: nat) returns (result: Fraction)
      requires Valid()
      ensures fresh(result) && result.Valid() && result.Number() == RPow(Number(), degree)
    {
      hide Value, Canonical, RPow;
      WholeNumber(1);
      PowZero(Number());
      result := new Fraction(1, 1);
      if degree == 0 {
        return;
      }
      var base := Copy();
      var rest := degree;
      while rest > 0
        invariant fresh(result) && fresh(base) && result != base && result.Valid() && base.Valid()
        invariant result.Number() * RPow(base.Number(), rest) == RPow(Number(), degree)
      {
        ghost var r, b := result.Number(), base.Number();
        if rest % 2 == 1 {
          result.TimesAssign(base);
        }
        base.TimesAssign(base);
        PowLoop(r, b, rest, RPow(Number(), degree), result.Number(), base.Number());
        rest := rest / 2;
      }
      PowZero(base.Number());
    }

    /** One turn of Newton's iteration. */
    method Improve(guess: Fraction, degree: nat) returns (next: Fraction?)
      requires Valid() && guess.Valid() && degree >= 2
      ensures next == null <==> RPow(guess.Number(), degree - 1) == 0.0
      ensures next != null ==> fresh(next) && next.Valid() && next.Number() == NewtonStep(Number(), guess.Number(), degree)
    {
      hide Value, Canonical, RPow;
      var power := guess.Pow(degree - 1);
      power.Sign();
      if power.numerator == 0 {
        return null;
      }
      WholeNumber(degree - 1);
      WholeNumber(degree);
      var less := new Fraction(degree - 1, 1);
      var count := new Fraction(degree, 1);
      var weighted := less.Times(guess);
      var quotient := Over(power);
      var sum := weighted.Plus(quotient);
      next := sum.Over(count);
    }

    /**
     Null stands for the exceptions: degree zero, and the division by zero met for the root of
     zero. A negative number comes with an odd degree: the check against even ones looks at the
     numerator, which is never negative, and for those the loop need not end (EvenRootNeverEnds).
     Nor need it end without a tolerance (NoTolerance).
     */
    method Root(degree: nat, epsilon: Fraction) returns (root: Fraction?)
      requires Valid() && epsilon.Valid() && (degree >= 2 ==> epsilon.Number() > 0.0)
      requires Number() < 0.0 ==> degree < 2 || degree % 2 == 1
      ensures root == null <==> degree == 0 || (degree >= 2 && Number() == 0.0)
      ensures root != null ==> fresh(root) && root.Valid()
      ensures degree == 1 && root != null ==> root.Number() == Number()
      ensures root != null && degree >= 2 ==> (root.Number() > 0.0 <==> Number() > 0.0)
      ensures root != null && degree >= 2 ==> NearRoot(RAbs(Number()), degree, RAbs(root.Number()), epsilon.Number())
      ensures root != null && degree >= 2 ==>
                var x, r, eps := RAbs(Number()), RAbs(root.Number()), epsilon.Number();
                && x <= RPow(r, degree) <= x + degree as real * (eps * RPow(r + eps, degree - 1))
                && (degree == 2 ==> x <= r * r <= x + eps * eps)
    {
      hide Value, Canonical, RPow, NewtonStep, NearRoot, Iterating, RAbs;
      if degree == 0 {
        return null;
      }
      if degree == 1 {
        root := Copy();
        return;
      }
      Sign();
      if degree % 2 == 0 && numerator < 0 {
        return null;
      }
      WholeNumber(degree);
      var count := new Fraction(degree, 1);
      ghost var s := if Number() < 0.0 then -1.0 else 1.0;
      var guess := Over(count);
      FirstGuess(Number(), degree, s, guess.Number());
      root := Refine(guess, degree, epsilon, s);
      if root != null { NearMeans(RAbs(Number()), degree, RAbs(root.Number()), epsilon.Number()); }
      // The final change of sign asks for a negative numerator too: there is none.
      if degree % 2 == 1 && numerator < 0 { assert false; }
    }

    /** The loop of the iteration. */
    method Refine(start: Fraction, degree: nat, epsilon: Fraction, ghost s: real) returns (guess: Fraction?)
      requires Valid() && start.Valid() && epsilon.Valid() && epsilon.Number() > 0.0
      requires Iterating(Number(), degree, s, start.Number(), true)
      ensures guess == null <==> Number() == 0.0
      ensures guess != null ==> (guess == start || fresh(guess)) && guess.Valid() && degree >= 2 && (guess.Number() > 0.0 <==> Number() > 0.0)
      ensures guess != null ==> NearRoot(RAbs(Number()), degree, RAbs(guess.Number()), epsilon.Number())
    {
      hide Value, Canonical, RPow, NewtonStep, NearRoot, Iterating, Ticks;
      ghost var x, eps := Number(), epsilon.Number();
      var current: Fraction := start;
      ghost var first := true;
      var moving := true;
      while moving
        invariant (current == start || fresh(current)) && current.Valid() && Iterating(x, degree, s, current.Number(), first)
        invariant !moving ==> x != 0.0 && degree >= 2 && NearRoot(RAbs(x), degree, RAbs(current.Number()), eps)
        decreases moving, first, Ticks(s, current.Number(), eps)
      {
        var previous := current;
        Iterate(x, current.Number(), degree, s, first, eps);
        var next := Improve(current, degree);
        if next == null {
          return null;
        }
        current := next;
        moving := Moved(current, previous, epsilon);
        first := false;
      }
      SameSide(x, degree, s, current.Number(), first);
      guess := current;
    }

    /** The loop condition: the guess moved by more than epsilon, up or down. */
    static method Moved(guess: Fraction, previous: Fraction, epsilon: Fraction) returns (moved: bool)
      requires guess.Valid() && previous.Valid() && epsilon.Valid()
      ensures moved <==> guess.Number() - previous.Number() > epsilon.Number() || previous.Number() - guess.Number() > epsilon.Number()
    {
      hide Value, Canonical;
      var up := guess.Minus(previous);
      var down := previous.Minus(guess);
      moved := up.Compare(epsilon) == Greater || down.Compare(epsilon) == Greater;
    }
  }

  lemma ValueNegated(n: int, d: int)
    requires d != 0
    ensures Value(n, -d) == -Value(n, d)
  {
    ValueTimes(n, d);
    assert (-Value(n, d)) * (-d) as real == n as real;
    ValueIs(n, -d, -Value(n, d));
  }

  /** n/d divided by itself in place: the second assignment reads the product already stored. */
  lemma SelfQuotient(n: int, d: int)
    requires d != 0 && n != 0
    ensures d * (n * d) != 0 && Value(n * d, d * (n * d)) == Value(1, d)
  {
    NonZeroProduct(n, d);
    ValueScaled(1, d, n * d);
  }

  /** The in-place self-division is right only for whole numbers. */
  lemma {:induction false} SelfDivisionExactly(n: int, d: int)
    requires Canonical(n, d) && n != 0
    ensures Value(1, d) == Value(n, d) / Value(n, d) <==> d == 1
  {
    ValueTimes(1, d);
    ValueSign(n, d);
    WholeNumber(1);
    if Value(1, d) == 1.0 { assert d as real == 1.0; }
  }

  /** One half divided by itself stays one half. */
  lemma {:induction false} HalfOverItself()
    ensures Canonical(1, 2) && Value(1, 2) / Value(1, 2) == 1.0 && Value(1, 2) == 0.5
    ensures Value(1, 2) != Value(1, 2) / Value(1, 2)
  {
    SelfDivisionExactly(1, 2);
  }

  // ----- how the iteration for a root behaves -----

  /** r is above the n-th root of x, by no more than the step eps accounts for. */
  ghost predicate NearRoot(x: real, n: nat, r: real, eps: real)
    requires n >= 2
  {
    && r > 0.0 && x <= RPow(r, n) <= x + n as real * (eps * RPow(r + eps, n - 1))
    && (n == 2 ==> r * r <= x + eps * eps)
  }

  lemma NearMeans(x: real, n: nat, r: real, eps: real)
    requires n >= 2 && NearRoot(x, n, r, eps)
    ensures x <= RPow(r, n) <= x + n as real * (eps * RPow(r + eps, n - 1))
    ensures n == 2 ==> x <= r * r <= x + eps * eps
  {
    if n == 2 { SquareOf(r); }
  }

  /** s is the sign of x; it may be negative for odd degrees only. */
  ghost predicate Sided(x: real, n: nat, s: real) {
    n >= 2 && (if x < 0.0 then s == -1.0 && n % 2 == 1 else s == 1.0)
  }

  /** The guess is on the side of x, and beyond the root after the first turn. */
  ghost predicate Iterating(x: real, n: nat, s: real, g: real, first: bool) {
    && Sided(x, n, s)
    && if x == 0.0 then first && g == 0.0 else s * g > 0.0 && (!first ==> RPow(s * g, n) >= s * x)
  }

  /** How many more steps of eps fit between the guess and zero. */
  ghost function Ticks(s: real, g: real, eps: real): int
    requires eps > 0.0
  {
    (s * g / eps).Floor
  }

  lemma {:induction false} FirstGuess(x: real, n: nat, s: real, g: real)
    requires n >= 2 && (x < 0.0 ==> n % 2 == 1) && s == (if x < 0.0 then -1.0 else 1.0) && g == x / n as real
    ensures Iterating(x, n, s, g, true)
  {
    FirstSign(x, n as real);
  }

  lemma FirstSign(x: real, k: real)
    requires k > 0.0
    ensures x > 0.0 ==> x / k > 0.0
    ensures x < 0.0 ==> x / k < 0.0
  {
  }

  /** One turn keeps the guess where it belongs; unless it stops the loop, it comes closer to zero by a tick. */
  lemma {:induction false} Iterate(x: real, g: real, n: nat, s: real, first: bool, eps: real)
    requires Iterating(x, n, s, g, first) && eps > 0.0
    ensures n >= 2 && (RPow(g, n - 1) == 0.0 <==> x == 0.0)
    ensures x != 0.0 ==>
              var r := NewtonStep(x, g, n);
              && Iterating(x, n, s, r, false)
              && (if r - g > eps || g - r > eps then first || 0 <= Ticks(s, r, eps) < Ticks(s, g, eps)
                  else NearRoot(RAbs(x), n, RAbs(r), eps))
  {
    if x == 0.0 {
      RPowZero(g, n - 1);
    } else {
      hide NewtonStep, RPow, NearRoot;
      SignedPart(x, s);
      IterateFacts(x, g, n, s);
      var r := NewtonStep(x, g, n);
      SignedPart(r, s);
      if r - g > eps || g - r > eps {
        if !first {
          MirroredFar(s, r, g, eps);
          Descent(s * g, s * r, eps);
        }
      } else {
        CloseEnough(x, g, n, s, eps);
      }
    }
  }

  lemma SignedPart(x: real, s: real)
    requires s == 1.0 || s == -1.0
    ensures x != 0.0 && s == (if x < 0.0 then -1.0 else 1.0) ==> s * x == RAbs(x) > 0.0
    ensures s * x > 0.0 ==> s * x == RAbs(x)
  {
  }

  lemma MirroredFar(s: real, r: real, g: real, eps: real)
    requires (s == 1.0 || s == -1.0) && (r - g > eps || g - r > eps)
    ensures s * g - s * r > eps || s * r - s * g > eps
  {
  }

  lemma {:induction false} SameSide(x: real, n: nat, s: real, r: real, first: bool)
    requires Iterating(x, n, s, r, first)
    ensures x != 0.0 ==> (r > 0.0 <==> x > 0.0)
  {
  }

  /** Positive numbers of any degree, negative ones of odd degree: the iterates keep the sign and lie beyond the root. */
  lemma {:induction false} IterateFacts(x: real, g: real, n: nat, s: real)
    requires n >= 2 && (s == 1.0 || (s == -1.0 && n % 2 == 1)) && s * x > 0.0 && s * g > 0.0
    ensures RPow(g, n - 1) != 0.0 && RPow(s * g, n - 1) != 0.0
    ensures NewtonStep(s * x, s * g, n) == s * NewtonStep(x, g, n) > 0.0
    ensures RPow(s * NewtonStep(x, g, n), n) >= s * x
    ensures RPow(s * g, n) >= s * x ==> s * NewtonStep(x, g, n) <= s * g
  {
    NewtonAbove(s * x, s * g, n);
    if RPow(s * g, n) >= s * x { NewtonDescends(s * x, s * g, n); }
    if s == -1.0 {
      NewtonMirror(-x, -g, n);
      assert -(-x) == x && -(-g) == g && s * x == -x && s * g == -g;
    } else {
      assert s * x == x && s * g == g;
    }
  }

  /** A step down of more than eps takes a whole unit of eps off. */
  lemma Descent(u: real, v: real, eps: real)
    requires eps > 0.0 && v > 0.0 && (u - v > eps || v - u > eps) && v <= u
    ensures 0 <= (v / eps).Floor < (u / eps).Floor
  {
    assert u / eps - v / eps == (u - v) / eps > 1.0;
    assert v / eps >= 0.0;
  }

  lemma {:induction false} CloseEnough(x: real, g: real, n: nat, s: real, eps: real)
    requires n >= 2 && (s == 1.0 || (s == -1.0 && n % 2 == 1)) && s * x > 0.0 && s * g > 0.0
    requires RPow(g, n - 1) != 0.0 && -eps <= NewtonStep(x, g, n) - g <= eps
    ensures NearRoot(s * x, n, s * NewtonStep(x, g, n), eps)
  {
    hide NewtonStep, RPow, NearRoot;
    IterateFacts(x, g, n, s);
    Mirrored(s, NewtonStep(x, g, n), g, eps);
    CloseAbove(s * x, s * g, n, eps);
  }

  lemma Mirrored(s: real, r: real, g: real, eps: real)
    requires (s == 1.0 || s == -1.0) && -eps <= r - g <= eps
    ensures -eps <= s * r - s * g <= eps
  {
  }

  lemma {:induction false} CloseAbove(x: real, g: real, n: nat, eps: real)
    requires n >= 2 && x > 0.0 && g > 0.0
    requires RPow(g, n - 1) != 0.0 && -eps <= NewtonStep(x, g, n) - g <= eps
    ensures NearRoot(x, n, NewtonStep(x, g, n), eps)
  {
    hide NewtonStep, RPow;
    var r := NewtonStep(x, g, n);
    NewtonAbove(x, g, n);
    NewtonBound(x, g, n, eps);
    if n == 2 {
      NewtonSquare(x, g);
      Newton.StepBound(r - g, r - g, eps, eps);
      SquareOf(r);
    }
  }

  lemma {:induction false} SquareOf(r: real)
    ensures RPow(r, 2) == r * r
  {
    assert RPow(r, 1) == r * RPow(r, 0);
  }
}
