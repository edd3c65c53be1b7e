/** Congruences, and the inverse of an odd component modulo the radix. */
module Modular {
  import opened Radix

  /** a and b leave the same remainder modulo m. */
  predicate Congruent(a: int, b: int, m: int)
    requires m > 0
  {
    a % m == b % m
  }

  lemma FromMultiple(a: int, b: int, k: int, m: int)
    requires m > 0 && a == b + k * m
    ensures Congruent(a, b, m)
  {
    var q, r := b / m, b % m;
    assert b == q * m + r;
    assert a == (q + k) * m + r by { assert (q + k) * m == q * m + k * m; }
    DivModUnique(a, m, q + k, r);
  }

  lemma ToMultiple(a: int, b: int, m: int) returns (k: int)
    requires m > 0 && Congruent(a, b, m)
    ensures a == b + k * m
  {
    k := a / m - b / m;
    assert a == (a / m) * m + a % m;
    assert b == (b / m) * m + b % m;
    assert k * m == (a / m) * m - (b / m) * m;
  }

  lemma CongruentAdd(a: int, b: int, c: int, d: int, m: int)
    requires m > 0 && Congruent(a, b, m) && Congruent(c, d, m)
    ensures Congruent(a + c, b + d, m)
  {
    var k := ToMultiple(a, b, m);
    var l := ToMultiple(c, d, m);
    assert (k + l) * m == k * m + l * m;
    FromMultiple(a + c, b + d, k + l, m);
  }

  lemma CongruentMul(a: int, b: int, c: int, d: int, m: int)
    requires m > 0 && Congruent(a, b, m) && Congruent(c, d, m)
    ensures Congruent(a * c, b * d, m)
  {
    var k := ToMultiple(a, b, m);
    var l := ToMultiple(c, d, m);
    ProductOfSums(b, k, d, l, m);
    FromMultiple(a * c, b * d, b * l + k * d + k * m * l, m);
  }

  lemma ProductOfSums(b: int, k: int, d: int, l: int, m: int)
    ensures (b + k * m) * (d + l * m) == b * d + (b * l + k * d + k * m * l) * m
  {
    var x, y := k * m, l * m;
    assert (b + x) * (d + y) == b * d + b * y + x * d + x * y;
    assert b * y == b * l * m;
    assert x * d == k * d * m;
    assert x * y == k * m * l * m;
  }

  lemma CongruentMod(a: int, m: int)
    requires m > 0
    ensures 0 <= a % m < m && Congruent(a % m, a, m)
  {
    DivModUnique(a % m, m, 0, a % m);
  }

  /** Below the modulus, congruent numbers are equal. */
  lemma CongruentUnique(a: int, b: int, m: int)
    requires 0 <= a < m && 0 <= b < m && Congruent(a, b, m)
    ensures a == b
  {
    DivModUnique(a, m, 0, a);
    DivModUnique(b, m, 0, b);
  }

  /** A factor with an inverse may be cancelled. */
  lemma CancelFactor(a: int, b: int, f: int, inv: int, m: int)
    requires m > 0 && Congruent(a * f, b * f, m) && Congruent(f * inv, 1, m)
    ensures Congruent(a, b, m)
  {
    CongruentMul(a * f, b * f, inv, inv, m);
    assert a * f * inv == a * (f * inv) && b * f * inv == b * (f * inv);
    CongruentMul(a, a, f * inv, 1, m);
    CongruentMul(b, b, f * inv, 1, m);
  }

  function Pow2(n: nat): (p: nat)
    ensures p >= 1
  {
    if n == 0 then 1 else 2 * Pow2(n - 1)
  }

  lemma RadixIsPow2()
    ensures Pow2(32) == RADIX
  {
    assert Pow2(8) == 256;
    assert Pow2(16) == 65536 by { assert Pow2(12) == 4096; }
    assert Pow2(24) == 16777216 by { assert Pow2(20) == 1048576; }
    assert Pow2(28) == 268435456;
  }

  /** Doubling the modulus: n * t is 1 or half + 1 modulo 2 * half, and adding half to t turns
      the second case into the first. */
  lemma InverseStep(n: nat, t: nat, half: nat)
    requires half >= 2 && n % 2 == 1 && (n * t) % half == 1
    ensures var r := (n * t) % (2 * half);
            if r >= half then (n * (t + half)) % (2 * half) == 1 else r == 1
  {
    var x := n * t;
    var m := 2 * half;
    var q, r := x / m, x % m;
    assert x == q * m + r;
    var c := if r >= half then 1 else 0;
    SplitHalf(x, q, c, half, r);
    if r >= half {
      var h := n / 2;
      OddMultiple(n, h, half);
      assert n * (t + half) == x + n * half;
      Combine(q, h, half);
      DivModUnique(n * (t + half), m, q + h + 1, 1);
    }
  }

  /** The remainder modulo half, read off the remainder modulo 2 * half. */
  lemma SplitHalf(x: int, q: int, c: int, half: int, r: int)
    requires half >= 2 && x == q * (2 * half) + r && 0 <= r < 2 * half && x % half == 1
    requires c == if r >= half then 1 else 0
    ensures r == c * half + 1
  {
    var low := r - c * half;
    assert q * (2 * half) + c * half == (2 * q + c) * half;
    DivModUnique(x, half, 2 * q + c, low);
  }

  lemma OddMultiple(n: int, h: int, half: int)
    requires n == 2 * h + 1
    ensures n * half == h * (2 * half) + half
  {
  }

  lemma Combine(q: int, h: int, half: int)
    ensures q * (2 * half) + half + 1 + (h * (2 * half) + half) == (q + h + 1) * (2 * half) + 1
  {
    assert (q + h + 1) * (2 * half) == q * (2 * half) + h * (2 * half) + 2 * half;
  }

  /** `modular_inverse`: for odd n, minus its inverse modulo the radix, found one bit at a time
      by Dusse and Kaliski's method. */
  method ModularInverse(n: Comp) returns (r: Comp)
    requires n % 2 == 1
    ensures (n * r + 1) % RADIX == 0
  {
    var t, half, whole := 1, 2, 4;
    var i := 2;
    assert (n * t) % half == 1;
    while i <= 32
      invariant 2 <= i <= 33
      invariant half == Pow2(i - 1) && whole == 2 * half && half >= 2
      invariant 1 <= t < half && (n * t) % half == 1
    {
      InverseStep(n, t, half);
      if (n * t) % whole >= half {
        t := t + half;
      }
      half := 2 * half;
      whole := 2 * whole;
      i := i + 1;
    }
    RadixIsPow2();
    r := RADIX - t;
    NegatedInverse(n, t);
  }

  lemma NegatedInverse(n: nat, t: nat)
    requires (n * t) % RADIX == 1
    ensures (n * (RADIX - t) + 1) % RADIX == 0
  {
    var q := (n * t) / RADIX;
    assert n * t == q * RADIX + 1;
    assert n * (RADIX - t) + 1 == (n - q) * RADIX + 0;
    DivModUnique(n * (RADIX - t) + 1, RADIX, n - q, 0);
  }
}
