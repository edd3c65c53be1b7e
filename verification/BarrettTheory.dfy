/** The arithmetic of `bi_barrett`: how close its quotient estimate comes, and for which moduli and
    arguments its single final subtraction is enough. */
module BarrettTheory {
  import opened Radix
  import opened Comps
  import opened Modular
  import opened Multiply
  import opened Bigints

  /** The quotient estimate q3: the top of x times mu, without the columns the partial product
      leaves out, shifted down by k + 1 components. */
  ghost function Estimate(x: seq<Comp>, mu: seq<Comp>, k: nat): (q: int)
    requires |x| >= 1 && |mu| >= 1 && k >= 1
  {
    var q1 := ShiftedDown(x, k - 1);
    Scaled(Val(q1), Val(mu), Skipped(q1, mu, |mu|, k - 1), Weight(k + 1))
  }

  function Scaled(q1: int, mu: int, skipped: int, c: int): (q: int)
    requires c > 0
  {
    (q1 * mu - skipped) / c
  }

  /** q is the quotient of x by m or up to three below it. */
  ghost predicate Close(q: int, x: nat, m: nat)
  {
    0 <= q && q * m <= x < (q + 4) * m
  }

  ghost predicate IsQuotient(q: nat, x: nat, y: nat)
  {
    y > 0 && q == x / y
  }

  ghost predicate WithinProduct(s: nat, x: nat, y: nat)
  {
    s <= x * y
  }

  ghost predicate IsProduct(p: nat, x: nat, y: nat)
  {
    p == x * y
  }

  /** The numbers of the estimate: w = a * c, mu = floor(w / m), q1 = floor(x / a), and what is
      left out of the product q1 * mu. */
  ghost predicate Setup(x: nat, m: nat, w: nat, a: nat, c: nat, mu: nat, q1: nat, skipped: nat)
  {
    && 0 < a <= m && 0 < c && x < w && skipped < c
    && IsProduct(w, a, c) && IsQuotient(mu, w, m) && IsQuotient(q1, x, a) && WithinProduct(skipped, q1, mu)
  }

  /** What `bi_barrett` returns for that estimate: the rest, less m once if it reaches m. */
  ghost function Reduced(x: nat, m: nat, q: int): (r: int)
  {
    var t := x - q * m;
    if t >= m then t - m else t
  }

  /** The estimate is never above the quotient: p is the (partial) product of q1 and mu. */
  lemma EstimateAtMost(x: nat, m: nat, a: nat, c: nat, mu: nat, q1: nat, p: nat)
    requires m > 0 && a > 0 && c > 0 && mu * m <= a * c && q1 * a <= x && p <= q1 * mu
    ensures (p / c) * m <= x
  {
    var q := p / c;
    assert p == q * c + p % c;
    assert q * c <= q1 * mu;
    calc <= {
      (q * m) * (c * a);
      { assert (q * m) * (c * a) == (q * c) * (a * m); }
      (q * c) * (a * m);
      { MulMonotone(q * c, q1 * mu, a * m); }
      (q1 * mu) * (a * m);
      { assert (q1 * mu) * (a * m) == (q1 * a) * (mu * m); }
      (q1 * a) * (mu * m);
      { MulMonotone(q1 * a, x, mu * m); }
      x * (mu * m);
      { assert x * (mu * m) == (mu * m) * x && x * (c * a) == (a * c) * x; MulMonotone(mu * m, a * c, x); }
      x * (c * a);
    }
    if x < q * m { MulStrict(x, q * m, c * a); }
  }

  /** The estimate falls short by less than four: one for each of the three roundings and one
      for the columns left out. */
  lemma EstimateAtLeast(x: nat, m: nat, a: nat, c: nat, mu: nat, q1: nat, p: int)
    requires m > 0 && a > 0 && c > 0
    requires a * c < (mu + 1) * m && mu <= c && x < (q1 + 1) * a && x < a * c
    requires q1 * mu < p + c
    ensures x < (p / c + 4) * m
  {
    var q := p / c;
    RoundedProduct(p, c, q1 * mu, mu);
    ScaledTop(x, q1, a, mu);
    TimesWidth(q1 * mu + mu, q + 3, a, c);
    WideProduct(x, m, a * c, mu);
    ShortBy(x, m, a * c, q, x * mu);
  }

  lemma RoundedProduct(p: int, c: int, y: int, mu: int)
    requires c > 0 && y < p + c && mu <= c
    ensures y + mu < (p / c + 3) * c
  {
    assert p == (p / c) * c + p % c;
    assert (p / c + 3) * c == (p / c) * c + 3 * c;
  }

  lemma ScaledTop(x: int, q1: int, a: int, mu: nat)
    requires x < (q1 + 1) * a
    ensures x * mu <= (q1 * mu + mu) * a
  {
    MulMonotone(x, (q1 + 1) * a, mu);
    assert (q1 + 1) * a * mu == (q1 * mu + mu) * a;
  }

  lemma TimesWidth(y: int, q: int, a: int, c: int)
    requires y < q * c && a > 0
    ensures y * a < q * (a * c)
  {
    MulStrict(y, q * c, a);
    assert q * c * a == q * (a * c);
  }

  lemma WideProduct(x: nat, m: int, ac: int, mu: int)
    requires ac < (mu + 1) * m
    ensures x * ac <= x * mu * m + x * m
  {
    MulMonotone(ac, (mu + 1) * m, x);
    assert (mu + 1) * m * x == x * mu * m + x * m;
  }

  lemma ShortBy(x: int, m: int, ac: int, q: int, xmu: int)
    requires m > 0 && 0 <= x < ac && xmu < (q + 3) * ac
    requires x * ac <= xmu * m + x * m
    ensures x < (q + 4) * m
  {
    MulStrict(xmu, (q + 3) * ac, m);
    MulStrict(x, ac, m);
    assert (q + 3) * ac * m + ac * m == (q + 4) * m * ac;
    MulCancelLess(x, (q + 4) * m, ac);
  }

  /** For every x of at most 2k components and m of k components: the estimate is the quotient or
      up to three below it. */
  lemma BarrettBounds(x: seq<Comp>, m: seq<Comp>, mu: seq<Comp>)
    requires Trimmed(x) && Trimmed(m) && Trimmed(mu)
    requires |x| <= 2 * |m| && |m| <= 0x7FFF && IsQuotient(Val(mu), Weight(2 * |m|), Val(m))
    ensures Close(Estimate(x, mu, |m|), Val(x), Val(m))
  {
    hide Val, Weight, Skipped, Scaled, Close, IsQuotient, Setup;
    var k := |m|;
    var q1 := ShiftedDown(x, k - 1);
    ShiftedDownValue(x, k - 1);
    BarrettSetup(x, m, mu, q1);
    BarrettArithmetic(Val(x), Val(m), Weight(2 * k), Weight(k - 1), Weight(k + 1), Val(mu), Val(q1),
                      Skipped(q1, mu, |mu|, k - 1));
  }

  lemma BarrettSetup(x: seq<Comp>, m: seq<Comp>, mu: seq<Comp>, q1: seq<Comp>)
    requires Trimmed(x) && Trimmed(m) && |mu| >= 1 && |q1| >= 1
    requires |x| <= 2 * |m| && |m| <= 0x7FFF && IsQuotient(Val(mu), Weight(2 * |m|), Val(m))
    requires IsQuotient(Val(q1), Val(x), Weight(|m| - 1))
    ensures Setup(Val(x), Val(m), Weight(2 * |m|), Weight(|m| - 1), Weight(|m| + 1), Val(mu), Val(q1),
                  Skipped(q1, mu, |mu|, |m| - 1))
  {
    hide Val, Weight, Skipped, IsQuotient, WithinProduct, IsProduct, Setup;
    WeightHalves(|m|);
    DivisorPositive(Val(mu), Weight(2 * |m|), Val(m));
    PositiveLower(m);
    assert Val(x) < Weight(2 * |m|) by {
      ValBound(x);
      WeightMonotone(|x|, 2 * |m|);
    }
    SkippedSmall(q1, mu, |m|);
    SkippedWithin(q1, mu, |m| - 1);
    MakeSetup(Val(x), Val(m), Weight(2 * |m|), Weight(|m| - 1), Weight(|m| + 1), Val(mu), Val(q1),
              Skipped(q1, mu, |mu|, |m| - 1));
  }

  lemma MakeSetup(x: nat, m: nat, w: nat, a: nat, c: nat, mu: nat, q1: nat, skipped: nat)
    requires 0 < a <= m && 0 < c && x < w && skipped < c
    requires IsProduct(w, a, c) && IsQuotient(mu, w, m) && IsQuotient(q1, x, a) && WithinProduct(skipped, q1, mu)
    ensures Setup(x, m, w, a, c, mu, q1, skipped)
  {
  }

  lemma WeightHalves(k: nat)
    requires k >= 1
    ensures IsProduct(Weight(2 * k), Weight(k - 1), Weight(k + 1))
  {
    hide Weight;
    WeightAdd(k - 1, k + 1);
  }

  lemma DivisorPositive(q: nat, x: nat, y: nat)
    requires IsQuotient(q, x, y)
    ensures y > 0
  {
  }

  lemma SkippedWithin(q1: seq<Comp>, mu: seq<Comp>, outer: nat)
    requires |q1| >= 1 && |mu| >= 1
    ensures WithinProduct(Skipped(q1, mu, |mu|, outer), Val(q1), Val(mu))
  {
    hide Val, Weight, Skipped;
    assert mu[..|mu|] == mu;
    SkippedBelowProduct(q1, mu, |mu|, outer);
  }

  lemma BarrettArithmetic(x: nat, m: nat, w: nat, a: nat, c: nat, mu: nat, q1: nat, skipped: nat)
    requires Setup(x, m, w, a, c, mu, q1, skipped)
    ensures Close(Scaled(q1, mu, skipped, c), x, m)
  {
    DivFacts(x, a);
    DivFacts(a * c, m);
    MuBound(a, c, m, mu);
    EstimateAtMost(x, m, a, c, mu, q1, q1 * mu - skipped);
    EstimateAtLeast(x, m, a, c, mu, q1, q1 * mu - skipped);
  }

  lemma DivFacts(x: nat, y: nat)
    requires y > 0
    ensures (x / y) * y <= x < (x / y + 1) * y
  {
    assert x == (x / y) * y + x % y;
    assert (x / y + 1) * y == (x / y) * y + y;
  }

  lemma MuBound(a: nat, c: nat, m: nat, mu: nat)
    requires 0 < a <= m && mu * m <= a * c
    ensures mu <= c
  {
    if mu > c {
      MulMonotone(a, m, mu);
      MulStrict(c, mu, a);
      assert false;
    }
  }

  lemma ShiftedDownValue(x: seq<Comp>, k: nat)
    requires |x| >= 1
    ensures IsQuotient(Val(ShiftedDown(x, k)), Val(x), Weight(k))
  {
    hide Val, Weight;
    if |x| > k {
      ValSplit(x, k);
      ValBound(x[..k]);
      assert Weight(k) * Val(x[k..]) == Val(x[k..]) * Weight(k);
      DivModUnique(Val(x), Weight(k), Val(x[k..]), Val(x[..k]));
    } else {
      ValOne(0);
      ValBound(x);
      WeightMonotone(|x|, k);
      DivModUnique(Val(x), Weight(k), 0, Val(x));
    }
  }

  lemma SkippedAtMost(q1: seq<Comp>, mu: seq<Comp>, k: nat)
    requires |q1| >= 1 && |mu| >= 1 && 1 <= k <= 0x7FFF
    ensures Skipped(q1, mu, |mu|, k - 1) <= 0x7FFF * Weight(k - 1)
  {
    hide Skipped;
    SkippedBound(q1, mu, |mu|, k - 1);
    MulMonotone(if |mu| < k - 1 then |mu| else k - 1, 0x7FFF, Weight(k - 1));
  }

  /** The columns left out are worth less than one unit of the estimate. */
  lemma SkippedSmall(q1: seq<Comp>, mu: seq<Comp>, k: nat)
    requires |q1| >= 1 && |mu| >= 1 && 1 <= k <= 0x7FFF
    ensures Skipped(q1, mu, |mu|, k - 1) < Weight(k + 1)
  {
    hide Skipped;
    SkippedAtMost(q1, mu, k);
    WeightNext(k);
    WeightNext(k - 1);
  }

  lemma {:induction false} SkippedBelowProduct(a: seq<Comp>, b: seq<Comp>, i: nat, outer: nat)
    requires i <= |b| && |a| >= 1
    ensures Skipped(a, b, i, outer) <= Val(a) * Val(b[..i])
  {
    hide Val, Weight;
    if i == 0 {
      ValAllZero(b[..0]);
      assert Val(a) * 0 == 0;
    } else {
      SkippedBelowProduct(a, b, i - 1, outer);
      ValPrefixStep(b, i - 1);
      var j := FirstColumn(i - 1, |a|, outer);
      PrefixAtMost(a, j);
      var y := b[i - 1] * Weight(i - 1);
      MulMonotone(Val(a[..j]), Val(a), y);
      assert Val(a) * (Val(b[..i - 1]) + y) == Val(a) * Val(b[..i - 1]) + Val(a) * y;
    }
  }

  lemma PrefixAtMost(a: seq<Comp>, j: nat)
    requires j <= |a|
    ensures Val(a[..j]) <= Val(a)
  {
    hide Val, Weight;
    ValSplit(a, j);
    MulMonotone(0, Weight(j), Val(a[j..]));
  }

  /** The result is congruent to x and below 3m; it is the remainder exactly when the estimate
      was at most one short. */
  lemma ReducedResult(x: nat, m: nat, q: int)
    requires m > 0 && Close(q, x, m)
    ensures 0 <= Reduced(x, m, q) < 3 * m && Congruent(Reduced(x, m, q), x, m)
    ensures Reduced(x, m, q) == x % m <==> x < (q + 2) * m
  {
    var t := x - q * m;
    assert (q + 4) * m == q * m + 4 * m && (q + 2) * m == q * m + 2 * m;
    FromMultiple(t, x, -q, m);
    assert t - m == x + (-q - 1) * m by { assert (-q - 1) * m == -(q * m) - m; }
    FromMultiple(t - m, x, -q - 1, m);
    CongruentMod(x, m);
    var r := Reduced(x, m, q);
    if r < m { CongruentUnique(r, x % m, m); }
  }

  // ---- when one subtraction is enough ----

  /** The estimate is at most one short when the three rounding errors together stay below one unit. */
  lemma OneShort(x: nat, m: nat, w: nat, a: nat, c: nat, mu: nat, q1: nat, skipped: nat)
    requires Setup(x, m, w, a, c, mu, q1, skipped) && q1 + mu + skipped <= c
    ensures x < (Scaled(q1, mu, skipped, c) + 2) * m
  {
    DivFacts(x, a);
    DivFacts(a * c, m);
    RoundedUp(q1, mu, skipped, c);
    BelowProduct(x, a, c, m, q1 + 1, mu + 1);
    Cancelled(x, c, m, (q1 + 1) * (mu + 1), Scaled(q1, mu, skipped, c) + 2);
  }

  lemma RoundedUp(q1: nat, mu: nat, skipped: nat, c: nat)
    requires c > 0 && q1 + mu + skipped <= c
    ensures (q1 + 1) * (mu + 1) <= (Scaled(q1, mu, skipped, c) + 2) * c
  {
    var p := q1 * mu - skipped;
    assert p == (p / c) * c + p % c;
    assert (q1 + 1) * (mu + 1) == q1 * mu + q1 + mu + 1;
    assert (p / c + 2) * c == (p / c) * c + 2 * c;
  }

  lemma Cancelled(x: int, c: int, m: int, y: int, q: int)
    requires x * c < y * m && y <= q * c && m > 0 && c > 0
    ensures x < q * m
  {
    MulMonotone(y, q * c, m);
    assert q * c * m == q * m * c;
    MulCancelLess(x, q * m, c);
  }

  lemma BelowProduct(x: nat, a: nat, c: nat, m: nat, q: nat, n: nat)
    requires x < q * a && a * c < n * m
    ensures x * c < q * n * m
  {
    var nm := n * m;
    MulMonotone(a * c, nm, x);
    assert a * c * x == x * c * a && nm * x == x * nm;
    MulStrict(x, q * a, nm);
    assert q * a * nm == q * n * m * a by { assert q * a * (n * m) == q * n * m * a; }
    MulCancelLess(x * c, q * n * m, a);
  }

  /** The modulus is above one and leads neither with RADIX - 1 nor with 1, 0. */
  predicate ExactTop(m: seq<Comp>)
  {
    && |m| >= 1 && 1 <= m[|m| - 1] <= RADIX - 2
    && (m[|m| - 1] == 1 ==> |m| >= 2 && m[|m| - 2] >= 1)
  }

  /** The same of the number: trimmed components are unique. */
  ghost predicate ExactModulus(v: nat)
  {
    forall m: seq<Comp> :: Trimmed(m) && Val(m) == v ==> ExactTop(m)
  }

  lemma ExactModulusIs(m: seq<Comp>)
    requires Trimmed(m)
    ensures ExactModulus(Val(m)) <==> ExactTop(m)
  {
    hide Val;
    if ExactTop(m) {
      forall s: seq<Comp> | Trimmed(s) && Val(s) == Val(m)
        ensures ExactTop(s)
      {
        TrimmedInjective(s, m);
      }
    }
  }

  lemma ExactAboveOne(v: nat)
    requires ExactModulus(v)
    ensures v >= 2
  {
    if v < 2 {
      ValOne(v);
      assert Trimmed([v]);
    }
  }

  /** The top component of a modulus brackets it. */
  lemma TopBracket(m: seq<Comp>)
    requires |m| >= 1
    ensures m[|m| - 1] * Weight(|m| - 1) <= Val(m) < (m[|m| - 1] + 1) * Weight(|m| - 1)
  {
    hide Val, Weight;
    var k, d := |m| - 1, m[|m| - 1];
    ValSnoc(m[..k], d);
    assert m[..k] + [d] == m;
    ValBound(m[..k]);
    assert d * Weight(k) == Weight(k) * d && (d + 1) * Weight(k) == d * Weight(k) + Weight(k);
  }

  /** A top component of one with a non-zero component below it. */
  lemma SecondBracket(m: seq<Comp>)
    requires |m| >= 2 && m[|m| - 1] == 1 && m[|m| - 2] >= 1
    ensures (RADIX + 1) * Weight(|m| - 1) <= RADIX * Val(m)
  {
    hide Val, Weight;
    var k := |m| - 1;
    ValSnoc(m[..k], 1);
    assert m[..k] + [1] == m;
    TopBracket(m[..k]);
    WeightNext(k - 1);
    MulMonotone(1, m[k - 1], Weight(k - 1));
  }

  /** mu is small when the top component d of m is not: with a the weight below it, mu d <= RADIX^2 a. */
  lemma MuBelow(a: nat, m: nat, mu: nat, d: nat, f: nat)
    requires a > 0 && mu * m <= a * (RADIX * RADIX * a) && d * a <= f * m
    ensures mu * d <= f * (RADIX * RADIX) * a
  {
    var c := RADIX * RADIX * a;
    MulMonotone(d * a, f * m, mu);
    assert d * a * mu == mu * d * a && f * m * mu == f * (mu * m);
    MulMonotone(mu * m, a * c, f);
    assert f * (a * c) == f * (RADIX * RADIX) * a * a;
    if mu * d > f * (RADIX * RADIX) * a { MulStrict(f * (RADIX * RADIX) * a, mu * d, a); }
  }

  /** q1 is small when x is below the square of m. */
  lemma TopBelow(x: nat, m: nat, a: nat, q1: nat, d: nat)
    requires x < m * m && m < (d + 1) * a && q1 * a <= x
    ensures q1 < (d + 1) * (d + 1) * a
  {
    var b := (d + 1) * a;
    MulStrict(m, b, b);
    MulMonotone(m, b, m);
    assert m * b == b * m && b * b == (d + 1) * (d + 1) * a * a;
    MulCancelLess(q1, (d + 1) * (d + 1) * a, a);
  }

  /** The sizes of the three errors, with d the top component of m and a the weight of its position. */
  ghost predicate Parts(x: nat, m: nat, a: nat, mu: nat, q1: nat, skipped: nat, d: nat)
  {
    && a > 0 && mu * m <= a * (RADIX * RADIX * a) && d * a <= m < (d + 1) * a
    && q1 * a <= x < m * m && skipped <= 0x7FFF * a
  }

  /** The rounding errors for a top component of at least two. */
  lemma RoundingTop(x: nat, m: nat, a: nat, mu: nat, q1: nat, skipped: nat, d: nat)
    requires Parts(x, m, a, mu, q1, skipped, d) && 2 <= d <= RADIX - 2
    ensures q1 + mu + skipped <= RADIX * RADIX * a
  {
    MuBelow(a, m, mu, d, 1);
    TopBelow(x, m, a, q1, d);
    RoundingSum(a, mu, q1, skipped, d);
  }

  lemma RoundingSum(a: nat, mu: nat, q1: nat, skipped: nat, d: nat)
    requires 2 <= d <= RADIX - 2 && mu * d <= RADIX * RADIX * a && q1 < (d + 1) * (d + 1) * a && skipped <= 0x7FFF * a
    ensures q1 + mu + skipped <= RADIX * RADIX * a
  {
    var s := (d + 1) * (d + 1);
    var half, most := 0x8000_0000, 0xC000_0000;
    if d <= half {
      MulMonotone(2, d, mu);
      SquareAtMost(d + 1, half + 1);
      MulMonotone(s, (half + 1) * (half + 1), a);
    } else if d <= most {
      MulMonotone(half, d, mu);
      SquareAtMost(d + 1, most + 1);
      MulMonotone(s, (most + 1) * (most + 1), a);
    } else {
      MulMonotone(most, d, mu);
      SquareAtMost(d + 1, RADIX - 1);
      MulMonotone(s, (RADIX - 1) * (RADIX - 1), a);
    }
  }

  lemma SquareAtMost(x: nat, y: nat)
    requires x <= y
    ensures x * x <= y * y
  {
    MulMonotone(x, y, x);
    MulMonotone(x, y, y);
  }

  /** The rounding errors for a top component of one and a non-zero one below it. */
  lemma RoundingOne(x: nat, m: nat, a: nat, mu: nat, q1: nat, skipped: nat)
    requires Parts(x, m, a, mu, q1, skipped, 1) && (RADIX + 1) * a <= RADIX * m
    ensures q1 + mu + skipped <= RADIX * RADIX * a
  {
    MuBelow(a, m, mu, RADIX + 1, RADIX);
    TopBelow(x, m, a, q1, 1);
    assert mu <= (RADIX * RADIX - RADIX + 1) * a;
  }

  /** For every modulus of that kind and every x below its square, `bi_barrett` returns the remainder. */
  lemma BarrettExact(x: seq<Comp>, m: seq<Comp>, mu: seq<Comp>)
    requires Trimmed(x) && Trimmed(m) && Trimmed(mu) && |m| <= 0x7FFF
    requires IsQuotient(Val(mu), Weight(2 * |m|), Val(m)) && ExactTop(m) && Val(x) < Val(m) * Val(m)
    ensures |x| <= 2 * |m| && Reduced(Val(x), Val(m), Estimate(x, mu, |m|)) == Val(x) % Val(m)
  {
    hide Val, Weight, Skipped, Scaled, Close, IsQuotient, Setup, Reduced;
    var k := |m|;
    SquareSize(x, m);
    var q1 := ShiftedDown(x, k - 1);
    ShiftedDownValue(x, k - 1);
    BarrettSetup(x, m, mu, q1);
    BarrettBounds(x, m, mu);
    RoundingSmall(x, m, mu, q1);
    OneShort(Val(x), Val(m), Weight(2 * k), Weight(k - 1), Weight(k + 1), Val(mu), Val(q1),
             Skipped(q1, mu, |mu|, k - 1));
    DivisorPositive(Val(mu), Weight(2 * k), Val(m));
    ReducedResult(Val(x), Val(m), Estimate(x, mu, k));
  }

  lemma SquareSize(x: seq<Comp>, m: seq<Comp>)
    requires Trimmed(x) && Trimmed(m) && Val(x) < Val(m) * Val(m)
    ensures |x| <= 2 * |m|
  {
    hide Val, Weight;
    ValBound(m);
    SquareAtMost(Val(m), Weight(|m|));
    WeightAdd(|m|, |m|);
    if |x| > 2 * |m| {
      TrimmedLower(x);
      WeightMonotone(2 * |m|, |x| - 1);
    }
  }

  lemma PartsOf(x: seq<Comp>, m: seq<Comp>, mu: seq<Comp>, q1: seq<Comp>)
    requires Trimmed(m) && |mu| >= 1 && |q1| >= 1 && |m| <= 0x7FFF && Val(x) < Val(m) * Val(m)
    requires IsQuotient(Val(mu), Weight(2 * |m|), Val(m)) && IsQuotient(Val(q1), Val(x), Weight(|m| - 1))
    ensures Parts(Val(x), Val(m), Weight(|m| - 1), Val(mu), Val(q1), Skipped(q1, mu, |mu|, |m| - 1), m[|m| - 1])
  {
    hide Val, Weight, Skipped, IsQuotient;
    SkippedAtMost(q1, mu, |m|);
    TopBracket(m);
    MuTimesModulus(m, Val(mu));
    QuotientAtMost(Val(q1), Val(x), Weight(|m| - 1));
  }

  lemma RoundingSmall(x: seq<Comp>, m: seq<Comp>, mu: seq<Comp>, q1: seq<Comp>)
    requires Trimmed(m) && |mu| >= 1 && |q1| >= 1 && |m| <= 0x7FFF && ExactTop(m)
    requires IsQuotient(Val(mu), Weight(2 * |m|), Val(m)) && IsQuotient(Val(q1), Val(x), Weight(|m| - 1))
    requires Val(x) < Val(m) * Val(m)
    ensures Val(q1) + Val(mu) + Skipped(q1, mu, |mu|, |m| - 1) <= Weight(|m| + 1)
  {
    hide Val, Weight, Skipped, IsQuotient, Parts;
    var k := |m|;
    var a, d, skipped := Weight(k - 1), m[k - 1], Skipped(q1, mu, |mu|, k - 1);
    assert Weight(k + 1) == RADIX * RADIX * a by {
      WeightNext(k);
      WeightNext(k - 1);
    }
    PartsOf(x, m, mu, q1);
    MuTimesModulus(m, Val(mu));
    if d >= 2 {
      RoundingTop(Val(x), Val(m), a, Val(mu), Val(q1), skipped, d);
    } else {
      SecondBracket(m);
      RoundingOne(Val(x), Val(m), a, Val(mu), Val(q1), skipped);
    }
  }

  lemma WeightZero()
    ensures Weight(0) == 1
  {
  }

  lemma QuotientAtMost(q: nat, x: nat, y: nat)
    requires IsQuotient(q, x, y)
    ensures y > 0 && q * y <= x
  {
    DivFacts(x, y);
  }

  lemma MuTimesModulus(m: seq<Comp>, mu: nat)
    requires Trimmed(m) && IsQuotient(mu, Weight(2 * |m|), Val(m))
    ensures mu * Val(m) <= Weight(|m| - 1) * (RADIX * RADIX * Weight(|m| - 1)) && m[|m| - 1] > 0
  {
    hide Val, Weight, IsQuotient;
    QuotientAtMost(mu, Weight(2 * |m|), Val(m));
    PositiveLower(m);
    WeightHalves(|m|);
    WeightNext(|m|);
    WeightNext(|m| - 1);
  }

  // ---- when it is enough for every argument ----

  /** radix^2k leaves a remainder that stays two units of the top position below the modulus of k components. */
  predicate FullModulus(v: nat)
  {
    v > 0 && Weight(2 * SizeOf(v)) % v + 2 * Weight(SizeOf(v) - 1) <= v
  }

  ghost predicate RoundingFits(w: nat, m: nat, a: nat)
  {
    m > 0 && w % m + 2 * a <= m
  }

  ghost predicate WithinWeight(s: nat, m: nat, w: nat)
  {
    s * m <= w
  }

  lemma FullModulusFits(m: seq<Comp>)
    requires Trimmed(m) && FullModulus(Val(m))
    ensures RoundingFits(Weight(2 * |m|), Val(m), Weight(|m| - 1))
  {
    hide Val, Weight;
    SizeOfTrimmed(m);
  }

  /** The rounding of mu, not the size of x, is then what the estimate loses. */
  lemma OneShortFull(x: nat, m: nat, w: nat, a: nat, c: nat, mu: nat, q1: nat, skipped: nat)
    requires Setup(x, m, w, a, c, mu, q1, skipped) && RoundingFits(w, m, a) && WithinWeight(skipped, m, w)
    ensures x < (Scaled(q1, mu, skipped, c) + 2) * m
  {
    var w0 := w % m;
    DivFacts(x, a);
    assert w == mu * m + w0;
    TopBelowWeight(x, a, c, q1);
    LossBound(x, m, w, a, c, mu, q1, skipped, w0);
    MulMonotone(w0 + 2 * a, m, c);
    Collected(x, Scaled(q1, mu, skipped, c), m, c, (w0 + 2 * a) * c);
  }

  lemma TopBelowWeight(x: int, a: nat, c: int, q1: int)
    requires q1 * a <= x < a * c
    ensures q1 < c
  {
    assert a * c == c * a;
    MulCancelLess(q1, c, a);
  }

  lemma LossBound(x: int, m: nat, w: nat, a: nat, c: nat, mu: nat, q1: nat, skipped: nat, w0: nat)
    requires c > 0 && x < (q1 + 1) * a && w == a * c && w == mu * m + w0 && q1 < c && skipped * m <= w
    ensures x * c < (Scaled(q1, mu, skipped, c) + 1) * c * m + (w0 + 2 * a) * c
  {
    TimesWeight(x, q1, a, c);
    EstimateTimes(q1, mu, skipped, c, m, w, w0);
    MulMonotone(q1, c, w0);
    assert (w0 + 2 * a) * c == c * w0 + 2 * (a * c);
    LossSum(x * c, c, q1 * w, w, q1 * w0, skipped * m, m, (Scaled(q1, mu, skipped, c) + 1) * c * m, c * w0);
  }

  lemma LossSum(xc: int, c: int, qw: int, w: int, qw0: int, sm: int, m: int, e: int, cw0: int)
    requires c > 0 && m >= 0 && xc + c <= qw + w && qw - qw0 - sm + m <= e && qw0 <= cw0 && sm <= w
    ensures xc < e + (cw0 + 2 * w)
  {
  }

  /** x c is below (q1 + 1) a c by at least c. */
  lemma TimesWeight(x: int, q1: int, a: int, c: nat)
    requires x < (q1 + 1) * a
    ensures x * c + c <= q1 * (a * c) + a * c
  {
    MulMonotone(x + 1, (q1 + 1) * a, c);
    assert (q1 + 1) * a * c == q1 * (a * c) + a * c;
  }

  lemma EstimateTimes(q1: nat, mu: nat, skipped: nat, c: nat, m: nat, w: int, w0: int)
    requires c > 0 && w == mu * m + w0
    ensures q1 * w - q1 * w0 - skipped * m + m <= (Scaled(q1, mu, skipped, c) + 1) * c * m
  {
    var p := q1 * mu - skipped;
    assert p == (p / c) * c + p % c;
    assert (p / c + 1) * c == (p / c) * c + c;
    MulMonotone(p + 1, (p / c + 1) * c, m);
    assert (p + 1) * m == q1 * (mu * m) - skipped * m + m;
    assert q1 * w == q1 * (mu * m) + q1 * w0;
  }

  lemma Collected(x: int, q: int, m: int, c: int, y: int)
    requires c > 0 && m > 0 && x * c < (q + 1) * c * m + y && y <= m * c
    ensures x < (q + 2) * m
  {
    assert (q + 1) * c * m + m * c == (q + 2) * m * c;
    MulCancelLess(x, (q + 2) * m, c);
  }

  lemma ShortByOne(x: seq<Comp>, m: seq<Comp>, mu: seq<Comp>)
    requires Trimmed(x) && Trimmed(m) && Trimmed(mu) && |m| <= 0x7FFF && |x| <= 2 * |m|
    requires IsQuotient(Val(mu), Weight(2 * |m|), Val(m)) && FullModulus(Val(m))
    ensures Val(x) < (Estimate(x, mu, |m|) + 2) * Val(m)
  {
    hide Val, Weight, Skipped, Scaled, IsQuotient, Setup, FullModulus, RoundingFits, WithinWeight;
    var k := |m|;
    FullModulusFits(m);
    var q1 := ShiftedDown(x, k - 1);
    ShiftedDownValue(x, k - 1);
    BarrettSetup(x, m, mu, q1);
    SkippedTimes(q1, mu, m);
    OneShortFull(Val(x), Val(m), Weight(2 * k), Weight(k - 1), Weight(k + 1), Val(mu), Val(q1),
                 Skipped(q1, mu, |mu|, k - 1));
  }

  /** For every such modulus and every x of at most twice its components, `bi_barrett` returns the remainder. */
  lemma BarrettFull(x: seq<Comp>, m: seq<Comp>, mu: seq<Comp>)
    requires Trimmed(x) && Trimmed(m) && Trimmed(mu) && |m| <= 0x7FFF && |x| <= 2 * |m|
    requires IsQuotient(Val(mu), Weight(2 * |m|), Val(m)) && FullModulus(Val(m))
    ensures Reduced(Val(x), Val(m), Estimate(x, mu, |m|)) == Val(x) % Val(m)
  {
    hide Val, Weight, Estimate, Close, IsQuotient, Reduced, FullModulus;
    ShortByOne(x, m, mu);
    BarrettBounds(x, m, mu);
    DivisorPositive(Val(mu), Weight(2 * |m|), Val(m));
    ReducedResult(Val(x), Val(m), Estimate(x, mu, |m|));
  }

  lemma SkippedTimes(q1: seq<Comp>, mu: seq<Comp>, m: seq<Comp>)
    requires |q1| >= 1 && |mu| >= 1 && 1 <= |m| <= 0x7FFF
    ensures WithinWeight(Skipped(q1, mu, |mu|, |m| - 1), Val(m), Weight(2 * |m|))
  {
    hide Val, Weight, Skipped;
    var k := |m|;
    SkippedAtMost(q1, mu, k);
    ValBound(m);
    WeightNext(k - 1);
    WeightAdd(k, k);
    assert k + k == 2 * k;
    SmallTimes(Skipped(q1, mu, |mu|, k - 1), Val(m), Weight(k - 1));
  }

  lemma SmallTimes(s: nat, m: nat, a: nat)
    requires s <= 0x7FFF * a && m <= RADIX * a
    ensures s * m <= RADIX * a * (RADIX * a)
  {
    MulMonotone(s, RADIX * a, m);
    MulMonotone(m, RADIX * a, RADIX * a);
    assert RADIX * a * m == m * (RADIX * a);
  }

  /** `bi_barrett` is known to return the remainder of x. */
  ghost predicate ExactFor(m: nat, x: nat)
  {
    FullModulus(m) || (ExactModulus(m) && x < m * m)
  }

  /** It is known to be exact for the products of v, and of other numbers below m. */
  ghost predicate ExactBase(m: nat, v: nat)
  {
    FullModulus(m) || (ExactModulus(m) && v < m)
  }

  lemma ExactProduct(m: nat, v1: nat, v2: nat)
    requires ExactBase(m, v1) && ExactBase(m, v2)
    ensures ExactFor(m, v1 * v2)
  {
    hide FullModulus, ExactModulus;
    if !FullModulus(m) {
      MulMonotone(v1, m, v2);
      MulStrict(v2, m, m);
      assert v2 * m == m * v2;
    }
  }

  // ---- when it is not ----

  /** The estimate when the product leaves nothing out, given the quotient. */
  lemma WholeEstimate(x: seq<Comp>, mu: seq<Comp>, k: nat, q1: nat, p: int, c: nat, q: int)
    requires |x| > k - 1 >= 0 && |mu| >= 1 && (k <= 2 || |x| <= 2 * k - 2) && Val(x[k - 1..]) == q1
    requires Weight(k + 1) == c
    requires q1 * Val(mu) == p && q * c <= p < q * c + c
    ensures Estimate(x, mu, k) == q
  {
    hide Val, Weight, Skipped;
    NothingSkipped(x[k - 1..], mu, |mu|, k - 1);
    DivModUnique(p, c, q, p - q * c);
  }

  lemma Weights()
    ensures Weight(2) == 0x1_0000_0000_0000_0000 && Weight(3) == 0x1_0000_0000_0000_0000_0000_0000
    ensures Weight(4) == 0x1_0000_0000_0000_0000_0000_0000_0000_0000
    ensures Weight(5) == 0x1_0000_0000_0000_0000_0000_0000_0000_0000_0000_0000
    ensures Weight(8) == Weight(4) * Weight(4) && Weight(1) == RADIX
  {
    WeightZero();
    WeightNext(0);
    WeightNext(1);
    WeightNext(2);
    WeightNext(3);
    WeightNext(4);
    WeightAdd(4, 4);
  }

  /** x must be below the square of the modulus: with m = 2^32 + 255 this four-component x comes back as
      0x103ee12f9, which is not below m. */
  lemma NotFullyReduced()
    ensures var m: seq<Comp>, mu: seq<Comp>, x: seq<Comp> :=
              [0xff, 1], [0xff02_fd01, 0xfe00, 0xffff_ff01], [0xffff_ffff, 0, 0, 0xffff_fff8];
            && Trimmed(x) && Trimmed(m) && Trimmed(mu) && |x| <= 2 * |m| && ExactTop(m)
            && IsQuotient(Val(mu), Weight(2 * |m|), Val(m)) && Val(m) == 0x1_0000_00ff && Val(m) * Val(m) <= Val(x)
            && Reduced(Val(x), Val(m), Estimate(x, mu, |m|)) == 0x1_03ee_12f9 && Val(x) % Val(m) == 0x3ee_11fa
  {
    var m: seq<Comp>, mu: seq<Comp>, x: seq<Comp> :=
      [0xff, 1], [0xff02_fd01, 0xfe00, 0xffff_ff01], [0xffff_ffff, 0, 0, 0xffff_fff8];
    Weights();
    ValOne(0xff);
    ValOne(1);
    ValOne(0xffff_ffff);
    ValConcat([0xff], [1]);
    assert [0xff] + [1] == m;
    ValThree(0xff02_fd01, 0xfe00, 0xffff_ff01);
    ValThree(0, 0, 0xffff_fff8);
    assert x[1..] == [0, 0, 0xffff_fff8] && [0xffff_ffff] + x[1..] == x;
    ValConcat([0xffff_ffff], x[1..]);
    hide Val, Weight, Estimate;
    DivModUnique(Weight(4), Val(m), Val(mu), 0xfc05_fc01);
    var q := 0xffff_fef9_0001_05f8_fefb_0cf9;
    WholeEstimate(x, mu, 2, Val(x[1..]), Val(x[1..]) * Val(mu), Weight(3), q);
    DivModUnique(Val(x), Val(m), q + 2, 0x3ee_11fa);
  }

  lemma ValSix(a: Comp, b: Comp, c: Comp, d: Comp, e: Comp, f: Comp)
    ensures Val([a, b, c, d, e, f]) == Val([a, b, c]) + Weight(3) * Val([d, e, f])
  {
    hide Val, Weight;
    assert [a, b, c] + [d, e, f] == [a, b, c, d, e, f];
    ValConcat([a, b, c], [d, e, f]);
  }

  /** The numbers of the example below. */
  lemma LeadingNumbers()
    ensures Val([3, 0, 0, 1]) == 0x1_0000_0000_0000_0000_0000_0003
    ensures Val([0, 0, 0xffff_fffd, 0xffff_ffff, 0xffff_ffff]) == 0xffff_ffff_ffff_ffff_ffff_fffd_0000_0000_0000_0000
    ensures Val([0xaaaa_aaab, 0xaaaa_aaaa, 0xaaaa_aaaa]) == 0xaaaa_aaaa_aaaa_aaaa_aaaa_aaab
    ensures Val([0xffff_ffff, 0xffff_ffff, 0xffff_ffff, 0xaaaa_aaab, 0xaaaa_aaaa, 0xaaaa_aaaa])
         == 0xaaaa_aaaa_aaaa_aaaa_aaaa_aaab_ffff_ffff_ffff_ffff_ffff_ffff
  {
    Weights();
    hide Val, Weight;
    ValThree(3, 0, 0);
    ValOne(1);
    ValConcat([3, 0, 0], [1]);
    assert [3, 0, 0] + [1] == [3, 0, 0, 1];
    ValThree(0xffff_fffd, 0xffff_ffff, 0xffff_ffff);
    ValAllZero([0, 0]);
    ValConcat([0, 0], [0xffff_fffd, 0xffff_ffff, 0xffff_ffff]);
    assert [0, 0] + [0xffff_fffd, 0xffff_ffff, 0xffff_ffff] == [0, 0, 0xffff_fffd, 0xffff_ffff, 0xffff_ffff];
    ValThree(0xffff_ffff, 0xffff_ffff, 0xffff_ffff);
    ValThree(0xaaaa_aaab, 0xaaaa_aaaa, 0xaaaa_aaaa);
    ValSix(0xffff_ffff, 0xffff_ffff, 0xffff_ffff, 0xaaaa_aaab, 0xaaaa_aaaa, 0xaaaa_aaaa);
  }

  /** The modulus must not lead with 1, 0: with m = 2^96 + 3 this x below its square comes back as m + 1. */
  lemma LeadingOneZero()
    ensures var m: seq<Comp>, mu: seq<Comp>, x: seq<Comp> :=
              [3, 0, 0, 1], [0, 0, 0xffff_fffd, 0xffff_ffff, 0xffff_ffff],
              [0xffff_ffff, 0xffff_ffff, 0xffff_ffff, 0xaaaa_aaab, 0xaaaa_aaaa, 0xaaaa_aaaa];
            && Trimmed(x) && Trimmed(m) && Trimmed(mu) && Val(x) < Val(m) * Val(m) && !ExactTop(m)
            && IsQuotient(Val(mu), Weight(2 * |m|), Val(m))
            && Reduced(Val(x), Val(m), Estimate(x, mu, |m|)) == Val(m) + 1 && Val(x) % Val(m) == 1
  {
    hide Val, Weight, Estimate;
    var m: seq<Comp>, mu: seq<Comp>, x: seq<Comp> :=
      [3, 0, 0, 1], [0, 0, 0xffff_fffd, 0xffff_ffff, 0xffff_ffff],
      [0xffff_ffff, 0xffff_ffff, 0xffff_ffff, 0xaaaa_aaab, 0xaaaa_aaaa, 0xaaaa_aaaa];
    Weights();
    LeadingNumbers();
    assert x[3..] == [0xaaaa_aaab, 0xaaaa_aaaa, 0xaaaa_aaaa];
    DivModUnique(Weight(8), Val(m), Val(mu), 0x9_0000_0000_0000_0000);
    var q := 0xaaaa_aaaa_aaaa_aaaa_aaaa_aaa8;
    WholeEstimate(x, mu, 4, Val(x[3..]), Val(x[3..]) * Val(mu), Weight(5), q);
    DivModUnique(Val(x), Val(m), q + 2, 1);
  }
}
