/** Recombination by the Chinese Remainder Theorem as `bi_crt` computes it, for all primes: which part of
    the second power its subtraction keeps, and exactly when the result is right. */
module CrtTheory {
  import opened Radix
  import opened Comps
  import opened Modular
  import opened Exponent

  /** The power of the radix by which the sum m1 + p is bounded, and modulo which `bi_subtract` works. */
  ghost function Width(m1: nat, p: nat): (w: nat)
    ensures w > 0
  {
    Weight(SizeOf(m1 + p))
  }

  /** h before its reduction and the factor qInv: m1 + p less what the subtraction keeps of m2, plus the
      width if that borrows. */
  ghost function Difference(m1: nat, m2: nat, p: nat): (d: int)
  {
    var w := Width(m1, p);
    m1 + p - m2 % w + (if m1 + p < m2 % w then w else 0)
  }

  /** What `bi_crt` makes of the two powers. */
  ghost function Combined(m1: nat, m2: nat, p: nat, q: nat, qInv: int): (r: int)
    requires p > 0
  {
    m2 % Width(m1, p) + q * ((Difference(m1, m2, p) * qInv) % p)
  }

  /** The result has the remainders it should have. */
  ghost predicate Right(m1: nat, m2: nat, p: nat, q: nat, qInv: int)
    requires p > 0 && q > 0
  {
    var r := Combined(m1, m2, p, q, qInv);
    Congruent(r, m1, p) && Congruent(r, m2, q)
  }

  lemma CombinedBound(m1: nat, m2: nat, p: nat, q: nat, qInv: int)
    requires p > 0 && m2 < q
    ensures 0 <= Combined(m1, m2, p, q, qInv) < p * q
  {
    hide Width, Difference;
    var c, h := m2 % Width(m1, p), (Difference(m1, m2, p) * qInv) % p;
    CutAtMost(m2, Width(m1, p));
    MulMonotone(h + 1, p, q);
    assert (h + 1) * q == q * h + q;
    MulNonNegative(q, h);
  }

  lemma CutAtMost(m: nat, w: nat)
    requires w > 0
    ensures 0 <= m % w <= m && (m % w == m <==> m < w)
  {
    DivNonNegative(m, w);
    assert m == (m / w) * w + m % w;
    MulNonNegative(m / w, w);
    if m < w { DivModUnique(m, w, 0, m); }
  }

  /** c + q h is c modulo q, and the difference plus c modulo p. */
  lemma Recombined(c: int, p: int, q: int, qInv: int, d: int, h: int)
    requires p > 0 && q > 0 && Inverse(q, qInv, p) && Congruent(h, d * qInv, p)
    ensures Congruent(c + q * h, c, q) && Congruent(c + q * h, c + d, p)
  {
    assert q * h == h * q;
    FromMultiple(c + q * h, c, h, q);
    CongruentMul(q, q, h, d * qInv, p);
    assert q * (d * qInv) == d * (q * qInv);
    CongruentMul(d, d, q * qInv, 1, p);
    CongruentAdd(c, c, q * h, d, p);
  }

  /** Exactly when it works: m2 is not above m1 + p, or it fits the width and the width, which the
      subtraction then borrows, happens to be a multiple of p. */
  lemma CombinedExact(m1: nat, m2: nat, p: nat, q: nat, qInv: int)
    requires m1 < p && m2 < q && Inverse(q, qInv, p)
    ensures Right(m1, m2, p, q, qInv) <==> m2 <= m1 + p || (m2 < Width(m1, p) && Width(m1, p) % p == 0)
  {
    hide SizeOf, Weight, Inverse;
    var w := Width(m1, p);
    var c, d := m2 % w, Difference(m1, m2, p);
    var h := (d * qInv) % p;
    CongruentMod(d * qInv, p);
    Recombined(c, p, q, qInv, d, h);
    CutAtMost(m2, w);
    SizeBounds(m1 + p);
    if m2 < w {
      if m2 <= m1 + p {
        FromMultiple(m2 + d, m1, 1, p);
      } else {
        assert m2 + d == (m1 + w) + 1 * p;
        FromMultiple(m2 + d, m1 + w, 1, p);
        SameShift(m1, w, p);
      }
    } else if Congruent(c + q * h, m2, q) {
      CongruentUnique(c, m2, q);
    }
  }

  lemma SameShift(a: int, w: int, p: int)
    requires p > 0
    ensures Congruent(a + w, a, p) <==> w % p == 0
  {
    if Congruent(a + w, a, p) {
      CongruentAdd(a + w, a, -a, -a, p);
      DivModUnique(0, p, 0, 0);
    }
    if w % p == 0 {
      DivModUnique(0, p, 0, 0);
      CongruentAdd(a, a, w, 0, p);
    }
  }

  /** For an RSA prime p the second way out never applies. */
  lemma CombinedOdd(m1: nat, m2: nat, p: nat, q: nat, qInv: int)
    requires m1 < p && m2 < q && Inverse(q, qInv, p) && p > 1 && p % 2 == 1
    ensures Right(m1, m2, p, q, qInv) <==> m2 <= m1 + p
  {
    hide SizeOf, Weight, Inverse, Right;
    WeightNoMultiple(p, SizeOf(m1 + p));
    CombinedExact(m1, m2, p, q, qInv);
  }

  /** The powers 1 of c, recombined. */
  ghost predicate RightFor(c: nat, p: nat, q: nat, qInv: int)
    requires p > 0 && q > 0
  {
    Right(c % p, c % q, p, q, qInv)
  }

  /** The primes decide: with an odd p above one every c below p q comes back if and only if q is at most
      p + 1. */
  lemma LargerPrimeFirst(p: nat, q: nat, qInv: int)
    requires p > 1 && p % 2 == 1 && q > 0 && Inverse(q, qInv, p)
    ensures (forall c: nat :: c < p * q ==> RightFor(c, p, q, qInv)) <==> q <= p + 1
  {
    hide Right, Inverse;
    if q <= p + 1 {
      forall c: nat | c < p * q
        ensures RightFor(c, p, q, qInv)
      {
        CongruentMod(c, p);
        CongruentMod(c, q);
        CombinedOdd(c % p, c % q, p, q, qInv);
      }
    } else {
      var c := Failing(p, q, qInv);
      CombinedOdd(c % p, c % q, p, q, qInv);
      assert !RightFor(c, p, q, qInv);
    }
  }

  /** The multiple of p that is one below a multiple of q. */
  lemma Failing(p: nat, q: nat, qInv: int) returns (c: nat)
    requires p > 0 && q > 0 && Inverse(q, qInv, p)
    ensures c < p * q && c % p == 0 && c % q == q - 1
  {
    hide Inverse;
    var d := 1 - q as int;
    var h := (d * qInv) % p;
    CongruentMod(d * qInv, p);
    Recombined(q - 1, p, q, qInv, d, h);
    MulNonNegative(q, h);
    MulMonotone(h + 1, p, q);
    assert (h + 1) * q == q * h + q;
    c := q - 1 + q * h;
    DivModUnique(0, p, 0, 0);
    DivModUnique(q - 1, q, 0, q - 1);
  }

  /** An input: p = 5 and q = 2^32 + 15. The sum m1 + p has one component, so the subtraction cuts the
      second power from 2^32 to 0; nothing borrows, and the result 2^32 + 15 is wrong modulo q. */
  lemma CutPower()
    ensures var p, q, c := 5, RADIX + 15, RADIX;
            && Inverse(q, 1, p) && c % p == 1 && c % q == c && SizeOf(c % p + p) == 1
            && Difference(c % p, c % q, p) == 6 && Combined(c % p, c % q, p, q, 1) == q && !RightFor(c, p, q, 1)
  {
    assert Weight(1) == RADIX * Weight(0);
    assert RADIX % (RADIX + 15) == RADIX;
  }

  /** A power of the radix is no multiple of an odd number above one, so for an RSA prime a borrow
      always spoils the result. */
  lemma {:induction false} WeightNoMultiple(p: nat, n: nat)
    requires p > 1 && p % 2 == 1
    ensures Weight(n) % p != 0
  {
    WeightIsPow2(n);
    Pow2NoMultiple(p, 32 * n);
  }

  lemma {:induction false} Pow2NoMultiple(p: nat, n: nat)
    requires p > 1 && p % 2 == 1
    ensures Pow2(n) % p != 0
  {
    if n == 0 {
      DivModUnique(1, p, 0, 1);
    } else {
      Pow2NoMultiple(p, n - 1);
      if (2 * Pow2(n - 1)) % p == 0 { HalfMultiple(Pow2(n - 1), p); }
    }
  }

  /** An odd number that divides 2 x divides x. */
  lemma HalfMultiple(x: nat, p: nat)
    requires p % 2 == 1 && (2 * x) % p == 0
    ensures x % p == 0
  {
    var q, half := (2 * x) / p, p / 2;
    assert 2 * x == q * p;
    EvenFactor(x, q, p, half);
    var k := q / 2;
    assert x == k * p by { HalveProduct(x, q, k, p); }
    DivModUnique(x, p, k, 0);
  }

  lemma EvenFactor(x: int, q: int, p: int, half: int)
    requires 2 * x == q * p && p == 2 * half + 1
    ensures q % 2 == 0
  {
    assert q * p == 2 * (q * half) + q;
  }

  lemma HalveProduct(x: int, q: int, k: int, p: int)
    requires 2 * x == q * p && q == 2 * k
    ensures x == k * p
  {
    assert q * p == 2 * (k * p);
  }

  /** Below p q there is only one number with given remainders. */
  lemma CrtUnique(a: int, b: int, p: int, q: int, qInv: int)
    requires p > 0 && q > 0 && Inverse(q, qInv, p)
    requires 0 <= a < p * q && 0 <= b < p * q
    requires Congruent(a, b, p) && Congruent(a, b, q)
    ensures a == b
  {
    var k := ToMultiple(a, b, q);
    assert a - b == k * q;
    CongruentAdd(a, b, -b, -b, p);
    CongruentMul(k * q, 0, qInv, qInv, p);
    assert k * q * qInv == k * (q * qInv);
    CongruentMul(k, k, q * qInv, 1, p);
    var l := ToMultiple(k, 0, p);
    assert a - b == l * (p * q) by { assert l * p * q == l * (p * q); }
    assert (-l) * (p * q) == -(l * (p * q));
    if l > 0 { MulMonotone(1, l, p * q); }
    if l < 0 { MulMonotone(1, -l, p * q); }
  }
}
