/** Fermat's little theorem, on which the exponents of RSA rest. */
module Fermat {
  import opened Radix
  import opened Modular
  import opened Exponent

  predicate Prime(p: nat)
  {
    p > 1 && forall d :: 1 < d < p ==> p % d != 0
  }

  // ---- binomial coefficients ----

  function Choose(n: nat, k: nat): (c: nat)
  {
    if k == 0 then 1 else if n == 0 then 0 else Choose(n - 1, k - 1) + Choose(n - 1, k)
  }

  lemma {:induction false} ChooseAbove(n: nat, k: nat)
    requires k > n
    ensures Choose(n, k) == 0
  {
    if n > 0 {
      ChooseAbove(n - 1, k - 1);
      ChooseAbove(n - 1, k);
    }
  }

  lemma {:induction false} ChooseAll(n: nat)
    ensures Choose(n, n) == 1
  {
    if n > 0 {
      ChooseAll(n - 1);
      ChooseAbove(n - 1, n);
    }
  }

  lemma {:induction false} Absorb(n: nat, k: nat)
    requires n >= 1 && k >= 1
    ensures k * Choose(n, k) == n * Choose(n - 1, k - 1)
    decreases n
  {
    if n == 1 {
      ChooseAbove(0, k);
      if k > 1 { ChooseAbove(1, k); }
    } else {
      Absorb(n - 1, k);
      if k > 1 { Absorb(n - 1, k - 1); }
      AbsorbStep(n, k, Choose(n - 1, k), if k > 1 then Choose(n - 2, k - 2) else 0, Choose(n - 2, k - 1));
    }
  }

  lemma AbsorbStep(n: int, k: int, y: int, v: int, w: int)
    requires k * y == (n - 1) * w && (k - 1) * (v + w) == (n - 1) * v
    ensures k * (v + w + y) == n * (v + w)
  {
    assert k * (v + w + y) == (k - 1) * (v + w) + (v + w) + k * y;
    assert n * (v + w) == (n - 1) * v + (n - 1) * w + (v + w);
  }

  /** The terms of (a + 1)^n up to the power k of a. */
  function Terms(a: nat, n: nat, k: nat): (s: int)
  {
    Choose(n, k) * Exp(a, k) + if k == 0 then 0 else Terms(a, n, k - 1)
  }

  lemma {:induction false} TermsNext(a: nat, n: nat, k: nat)
    ensures Terms(a, n + 1, k) == Terms(a, n, k) + if k == 0 then 0 else a * Terms(a, n, k - 1)
  {
    if k > 0 {
      TermsNext(a, n, k - 1);
      TermsStep(a, Choose(n, k - 1), Choose(n, k), Exp(a, k - 1), Terms(a, n, k - 1),
                if k > 1 then Terms(a, n, k - 2) else 0);
    }
  }

  lemma TermsStep(a: int, x: int, y: int, z: int, s: int, t: int)
    requires s == x * z + t
    ensures (x + y) * (a * z) + (s + a * t) == y * (a * z) + s + a * s
  {
    assert (x + y) * (a * z) == y * (a * z) + a * (x * z);
    assert a * s == a * (x * z) + a * t;
  }

  lemma {:induction false} Binomial(a: nat, n: nat)
    ensures Exp(a + 1, n) == Terms(a, n, n)
  {
    if n > 0 {
      Binomial(a, n - 1);
      TermsNext(a, n - 1, n);
      ChooseAbove(n - 1, n);
      var t := Terms(a, n - 1, n - 1);
      assert (a + 1) * t == t + a * t;
    }
  }

  // ---- primes ----

  /** A prime that divides k c and not k, here because k is smaller, divides c. */
  lemma {:induction false} Euclid(p: nat, k: nat, c: int)
    requires Prime(p) && 0 < k < p && (k * c) % p == 0
    ensures c % p == 0
    decreases k
  {
    if k > 1 {
      var t, r := p / k, p % k;
      assert p == t * k + r;
      DivModUnique(0, p, 0, 0);
      var u := ToMultiple(k * c, 0, p);
      RestMultiple(p, k, t, r, c, u);
      FromMultiple(r * c, 0, c - t * u, p);
      Euclid(p, r, c);
    }
  }

  lemma RestMultiple(p: int, k: int, t: int, r: int, c: int, u: int)
    requires p == t * k + r && k * c == u * p
    ensures r * c == 0 + (c - t * u) * p
  {
    assert r * c == p * c - t * k * c;
    assert t * k * c == t * (k * c) && t * (u * p) == t * u * p;
  }

  lemma InnerTerm(p: nat, k: nat)
    requires Prime(p) && 0 < k < p
    ensures Choose(p, k) % p == 0
  {
    Absorb(p, k);
    DivModUnique(0, p, 0, 0);
    assert p * Choose(p - 1, k - 1) == 0 + Choose(p - 1, k - 1) * p;
    FromMultiple(k * Choose(p, k), 0, Choose(p - 1, k - 1), p);
    Euclid(p, k, Choose(p, k));
  }

  lemma {:induction false} InnerTerms(a: nat, p: nat, k: nat)
    requires Prime(p) && k < p
    ensures Congruent(Terms(a, p, k), 1, p)
  {
    if k > 0 {
      InnerTerms(a, p, k - 1);
      InnerTerm(p, k);
      DivModUnique(0, p, 0, 0);
      CongruentMul(Choose(p, k), 0, Exp(a, k), Exp(a, k), p);
      CongruentAdd(Choose(p, k) * Exp(a, k), 0, Terms(a, p, k - 1), 1, p);
    }
  }

  /** a^p leaves the remainder of a. */
  lemma {:induction false} LittleTheorem(a: nat, p: nat)
    requires Prime(p)
    ensures Congruent(Exp(a, p), a, p)
  {
    if a > 0 {
      LittleTheorem(a - 1, p);
      Binomial(a - 1, p);
      InnerTerms(a - 1, p, p - 1);
      ChooseAll(p);
      CongruentAdd(Exp(a - 1, p), a - 1, Terms(a - 1, p, p - 1), 1, p);
    }
  }

  /** So does every power whose exponent is one more than a multiple of p - 1. */
  lemma {:induction false} PowerOfResidue(x: nat, p: nat, t: nat)
    requires Prime(p)
    ensures t * (p - 1) + 1 >= 0 && Congruent(Exp(x, t * (p - 1) + 1), x, p)
  {
    MulNonNegative(t, p - 1);
    if t == 0 {
      assert Exp(x, 1) == x * Exp(x, 0);
    } else {
      PowerOfResidue(x, p, t - 1);
      MulNonNegative(t - 1, p - 1);
      var f := (t - 1) * (p - 1) + 1;
      assert f + (p - 1) == t * (p - 1) + 1;
      ExpAdd(x, f, p - 1);
      CongruentMul(Exp(x, f), x, Exp(x, p - 1), Exp(x, p - 1), p);
      assert Exp(x, p) == x * Exp(x, p - 1);
      LittleTheorem(x, p);
    }
  }

  /** Numbers congruent modulo two different primes are congruent modulo their product. */
  lemma ProductOfPrimes(a: int, b: int, p: nat, q: nat)
    requires Prime(p) && Prime(q) && p != q && Congruent(a, b, p) && Congruent(a, b, q)
    ensures p * q > 0 && Congruent(a, b, p * q)
  {
    var k := ToMultiple(a, b, q);
    var r := q % p;
    CongruentMod(q, p);
    CongruentAdd(a, b, -b, -b, p);
    CongruentMul(r, q, k, k, p);
    assert q * k == k * q == a - b;
    DivModUnique(0, p, 0, 0);
    if p > q { DivModUnique(q, p, 0, q); }
    Euclid(p, r, k);
    var l := ToMultiple(k, 0, p);
    MulStrict(0, p, q);
    assert l * p * q == l * (p * q);
    FromMultiple(a, b, l, p * q);
  }
}
