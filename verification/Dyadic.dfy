/**
 Powers of two, exclusive or on offsets, and aligned power-of-two intervals.
 */
module Dyadic {
  import opened Arith

  function Pow2(k: nat): (r: nat)
    ensures r >= 1
  {
    if k == 0 then 1 else 2 * Pow2(k - 1)
  }

  lemma {:induction false} Pow2Monotone(a: nat, b: nat)
    requires a <= b
    ensures Pow2(a) <= Pow2(b) && (a < b ==> 2 * Pow2(a) <= Pow2(b))
  {
    if a < b { Pow2Monotone(a, b - 1); }
  }

  /** Bitwise exclusive or. */
  function Xor(a: nat, b: nat): nat
    decreases a + b
  {
    if a == 0 && b == 0 then 0
    else 2 * Xor(a / 2, b / 2) + (if a % 2 == b % 2 then 0 else 1)
  }

  lemma {:induction false} XorZero(a: nat)
    ensures Xor(a, 0) == a
  {
    if a > 0 { XorZero(a / 2); }
  }

  lemma XorOne(a: nat)
    ensures Xor(a, 1) == if a % 2 == 0 then a + 1 else a - 1
  {
    XorZero(a / 2);
  }

  lemma XorDoubles(a: nat, b: nat)
    ensures Xor(2 * a, 2 * b) == 2 * Xor(a, b)
  {
  }

  /** The k lowest bits of x are zero. */
  predicate Aligned(x: nat, k: nat) {
    k == 0 || (x % 2 == 0 && Aligned(x / 2, k - 1))
  }

  lemma {:induction false} AlignedIsMultiple(x: nat, k: nat)
    ensures Aligned(x, k) <==> Divides(Pow2(k), x)
  {
    if k == 0 {
      assert x == x * Pow2(0);
    } else {
      AlignedIsMultiple(x / 2, k - 1);
      DividesHalf(x, Pow2(k - 1));
    }
  }

  lemma DividesHalf(x: nat, m: int)
    ensures Divides(2 * m, x) <==> x % 2 == 0 && Divides(m, x / 2)
  {
    if x % 2 == 0 && Divides(m, x / 2) {
      var q: int :| x / 2 == q * m;
      assert x == q * (2 * m);
    }
    if Divides(2 * m, x) {
      var q: int :| x == q * (2 * m);
      assert x == 2 * (q * m);
      assert x / 2 == q * m;
    }
  }

  /** Distinct multiples of 2^k are at least 2^k apart. */
  lemma {:induction false} MultiplesApart(x: nat, y: nat, k: nat)
    requires Aligned(x, k) && Aligned(y, k) && x < y
    ensures x + Pow2(k) <= y
  {
    if k > 0 { MultiplesApart(x / 2, y / 2, k - 1); }
  }

  lemma {:induction false} AlignedDown(x: nat, a: nat, b: nat)
    requires a <= b && Aligned(x, b)
    ensures Aligned(x, a)
  {
    if a > 0 { AlignedDown(x / 2, a - 1, b - 1); }
  }

  lemma {:induction false} AlignedShift(x: nat, k: nat)
    requires Aligned(x, k)
    ensures Aligned(x + Pow2(k), k)
  {
    if k > 0 { AlignedShift(x / 2, k - 1); }
  }

  lemma {:induction false} AlignedZero(k: nat)
    ensures Aligned(0, k)
  {
    if k > 0 { AlignedZero(k - 1); }
  }

  /** The start of the interval of twice the size that holds off and its buddy. */
  function ParentOf(off: nat, k: nat): nat {
    var buddy := Xor(off, Pow2(k));
    if buddy < off then buddy else off
  }

  /**
   Exclusive or with its size takes an aligned interval to the other half of its parent, and
   back again.
   */
  lemma {:induction false} BuddyOffset(off: nat, k: nat)
    requires Aligned(off, k)
    ensures Aligned(Xor(off, Pow2(k)), k) && Aligned(ParentOf(off, k), k + 1)
    ensures off == ParentOf(off, k) ==> Xor(off, Pow2(k)) == off + Pow2(k)
    ensures off != ParentOf(off, k) ==> off == ParentOf(off, k) + Pow2(k)
    ensures Xor(Xor(off, Pow2(k)), Pow2(k)) == off
  {
    hide Xor;
    XorOne(off);
    XorOne(Xor(off, 1));
    if k > 0 {
      BuddyOffset(off / 2, k - 1);
      var buddy := Xor(off / 2, Pow2(k - 1));
      XorDoubles(off / 2, Pow2(k - 1));
      XorDoubles(buddy, Pow2(k - 1));
      assert ParentOf(off, k) == 2 * ParentOf(off / 2, k - 1);
    }
  }

  /**
   Aligned power-of-two intervals never overlap partly: a start of the one lying in the other
   is the other's start, or the one lies inside the other.
   */
  lemma Nested(x: nat, a: nat, y: nat, b: nat)
    requires Aligned(x, a) && Aligned(y, b) && y <= x < y + Pow2(b)
    ensures b <= a ==> x == y
    ensures a <= b ==> x + Pow2(a) <= y + Pow2(b)
  {
    if b <= a {
      AlignedDown(x, b, a);
      if y < x { MultiplesApart(y, x, b); }
    }
    if a <= b {
      AlignedShift(y, b);
      AlignedDown(y + Pow2(b), a, b);
      MultiplesApart(x, y + Pow2(b), a);
    }
  }
}
