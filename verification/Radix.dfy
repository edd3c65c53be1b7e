/** Arithmetic facts shared by the multi-precision proofs: the component radix of the
    32-bit build, its powers, and division with remainder over the integers. */
module Radix {

  /** COMP_RADIX of the 32-bit configuration. */
  const RADIX: nat := 0x1_0000_0000

  /** A single-precision component (`comp`, an unsigned 32-bit integer). */
  type Comp = x: nat | x < RADIX witness 0

  /** RADIX to the power n: the weight of component n. */
  function Weight(n: nat): (w: nat)
    ensures w >= 1
  {
    if n == 0 then 1 else RADIX * Weight(n - 1)
  }

  lemma WeightNext(n: nat)
    ensures Weight(n + 1) == RADIX * Weight(n) && Weight(0) == 1
  {
  }

  lemma {:induction false} WeightAdd(a: nat, b: nat)
    ensures Weight(a + b) == Weight(a) * Weight(b)
  {
    if a > 0 {
      WeightAdd(a - 1, b);
      assert RADIX * Weight(a - 1) * Weight(b) == RADIX * (Weight(a - 1) * Weight(b));
    }
  }

  lemma {:induction false} WeightMonotone(a: nat, b: nat)
    requires a <= b
    ensures Weight(a) <= Weight(b)
  {
    if a < b {
      WeightMonotone(a, b - 1);
    }
  }

  /** Quotient and remainder are determined by their defining equation. */
  lemma DivModUnique(x: int, y: int, q: int, r: int)
    requires y > 0
    requires x == q * y + r && 0 <= r < y
    ensures x / y == q && x % y == r
  {
    var d := x / y - q;
    assert x == (x / y) * y + x % y;
    assert d * y == r - x % y by {
      assert d * y == (x / y) * y - q * y;
    }
    if d >= 1 {
      MulMonotone(1, d, y);
    } else if d <= -1 {
      MulMonotone(d, -1, y);
    }
  }

  lemma MulNonNegative(a: nat, b: nat)
    ensures a * b >= 0
  {
    MulMonotone(0, a, b);
  }

  lemma DivNonNegative(x: nat, y: int)
    requires y > 0
    ensures x / y >= 0
  {
    var q := x / y;
    assert x == q * y + x % y;
    if q < 0 { MulMonotone(q, -1, y); }
  }

  lemma MulMonotone(a: int, b: int, c: int)
    requires a <= b && 0 <= c
    ensures a * c <= b * c
  {
    assert (b - a) * c >= 0;
  }

  lemma MulStrict(a: int, b: int, c: int)
    requires a < b && 0 < c
    ensures a * c < b * c
  {
    assert (b - a) * c > 0;
  }

  /** a * c < b * c tells a < b. */
  lemma MulCancelLess(a: int, b: int, c: int)
    requires a * c < b * c && 0 < c
    ensures a < b
  {
    if b <= a {
      MulMonotone(b, a, c);
    }
  }

  /** Reducing modulo p b h does not change the base-b digit that stands at p. */
  lemma DigitBelow(y: nat, p: nat, b: nat, h: nat)
    requires p > 0 && b > 0 && h > 0
    ensures p * (b * h) > 0 && ((y % (p * (b * h))) / p) % b == (y / p) % b
  {
    MulStrict(0, b, h);
    MulStrict(0, p, b * h);
    var m := p * (b * h);
    var hi, lo := y / m, y % m;
    var q, t := lo / p, lo % p;
    assert y == hi * m + lo && lo == q * p + t;
    var s := hi * h;
    assert hi * m == s * b * p;
    assert y == (s * b + q) * p + t by { assert (s * b + q) * p == s * b * p + q * p; }
    DivModUnique(y, p, s * b + q, t);
    var c, d := q / b, q % b;
    assert s * b + q == (s + c) * b + d by { assert (s + c) * b == s * b + c * b; }
    DivModUnique(s * b + q, b, s + c, d);
  }

  lemma DivDiv(x: nat, a: nat, b: nat)
    requires a > 0 && b > 0
    ensures a * b > 0 && x / (a * b) == (x / a) / b
  {
    var y := x / a;
    var z := y / b;
    assert x == y * a + x % a && y == z * b + y % b;
    MulStrict(0, a, b);
    var rest := (y % b) * a + x % a;
    assert x == z * (a * b) + rest by { assert (z * b + y % b) * a == z * (a * b) + (y % b) * a; }
    assert rest < a * b by {
      MulMonotone(y % b + 1, b, a);
      assert (y % b + 1) * a == (y % b) * a + a;
    }
    DivModUnique(x, a * b, z, rest);
  }
}
