/** The quotient-digit estimate of `bi_divide` (algorithm 14.20 of the Handbook of Applied
    Cryptography; Knuth's algorithm D) and why one test and one add-back suffice. */
module QuotientDigit {
  import opened Radix
  import opened Comps
  import opened CompLoops

  /** The part of a number above position k, as a quotient: Val(s) lies in one step of Weight(k). */
  lemma TopBounds(s: seq<Comp>, k: nat)
    requires k <= |s|
    ensures Val(s[k..]) * Weight(k) <= Val(s) < (Val(s[k..]) + 1) * Weight(k)
  {
    hide Val, Weight;
    ValSplit(s, k);
    ValBound(s[..k]);
    assert (Val(s[k..]) + 1) * Weight(k) == Val(s[k..]) * Weight(k) + Weight(k);
    assert Weight(k) * Val(s[k..]) == Val(s[k..]) * Weight(k);
  }

  lemma ValTwo(s: seq<Comp>)
    requires |s| == 2
    ensures Val(s) == s[1] * RADIX + s[0]
  {
    assert s == [s[0]] + [s[1]];
    ValConcat([s[0]], [s[1]]);
    ValOne(s[0]);
    ValOne(s[1]);
  }

  /** An estimate taken from leading digits is never below the true digit:
      top < (q + 1) * v1 bounds t below (q + 1) * v. */
  lemma EstimateNotBelow(t: int, v: int, top: int, v1: int, w: int, q: int)
    requires w > 0 && v > 0 && t >= 0
    requires t < (top + 1) * w && v1 * w <= v
    requires top + 1 <= (q + 1) * v1 && q >= -1
    ensures t / v <= q
  {
    MulMonotone(top + 1, (q + 1) * v1, w);
    MulMonotone(v1 * w, v, q + 1);
    assert (q + 1) * v1 * w == v1 * w * (q + 1);
    assert (t / v) * v < (q + 1) * v by { assert t == (t / v) * v + t % v; }
    MulCancelLess(t / v, q + 1, v);
  }

  /** If q * v1 fits below the leading digits of t, then q exceeds the true digit by at most
      the number of times v fits into q * w. */
  lemma EstimateNotFarAbove(t: int, v: int, top: int, v1: int, w: int, q: int, slack: int)
    requires w > 0 && v > 0 && t >= 0 && q >= 0
    requires top * w <= t && v < (v1 + 1) * w
    requires q * v1 <= top
    requires q * w <= slack * v
    ensures q <= t / v + slack
  {
    if q > 0 {
      MulStrict(v, (v1 + 1) * w, q);
      MulMonotone(q * v1, top, w);
      assert (v1 + 1) * w * q == q * v1 * w + q * w;
      assert q * v < t + slack * v;
    }
    assert t == (t / v) * v + t % v;
    assert (q - slack) * v < (t / v + 1) * v by {
      assert (q - slack) * v == q * v - slack * v;
      assert (t / v + 1) * v == (t / v) * v + v;
    }
    MulCancelLess(q - slack, t / v + 1, v);
  }

  /** The divisor is normalised: its top component is at least half the radix. */
  predicate Normalised(v: seq<Comp>)
  {
    |v| >= 1 && v[|v| - 1] >= RADIX / 2
  }

  /** What the digit estimate is given: t has one component more than v and t < RADIX * v. */
  predicate DigitInput(t: seq<Comp>, v: seq<Comp>)
  {
    Normalised(v) && |t| == |v| + 1 && Val(t) < RADIX * Val(v)
  }

  lemma DigitInputFacts(t: seq<Comp>, v: seq<Comp>)
    requires DigitInput(t, v)
    ensures var n := |v|; var v1 := v[n - 1]; var w := Weight(n - 1);
            && w > 0 && Val(v) > 0
            && v1 * w <= Val(v) < (v1 + 1) * w
            && (t[n] * RADIX + t[n - 1]) * w <= Val(t) < (t[n] * RADIX + t[n - 1] + 1) * w
            && t[n] <= v1
  {
    hide Val, Weight;
    var n := |v|;
    var v1, w := v[n - 1], Weight(n - 1);
    TopBounds(v, n - 1);
    assert v[n - 1..] == [v1];
    ValOne(v1);
    TopBounds(t, n - 1);
    assert t[n - 1..] == [t[n - 1], t[n]];
    ValTwo(t[n - 1..]);
    MulMonotone(1, v1, w);
    TopsOrdered(Val(t), Val(v), t[n], t[n - 1], v1, w);
  }

  lemma TopsOrdered(t: int, v: int, u0: nat, u1: nat, v1: int, w: int)
    requires w > 0 && t < RADIX * v
    requires (u0 * RADIX + u1) * w <= t && v < (v1 + 1) * w
    ensures u0 <= v1
  {
    assert u0 * RADIX * w <= t by {
      MulMonotone(u0 * RADIX, u0 * RADIX + u1, w);
    }
    assert RADIX * ((v1 + 1) * w) == RADIX * (v1 + 1) * w;
    MulCancelLess(u0 * RADIX, RADIX * (v1 + 1), w);
  }

  /** The V2 test: facts about the three leading digits. */
  lemma ThreeDigitFacts(t: seq<Comp>, v: seq<Comp>)
    requires DigitInput(t, v) && |v| > 1
    ensures var n := |v|; var v12 := v[n - 1] * RADIX + v[n - 2]; var w := Weight(n - 2);
            var top := (t[n] * RADIX + t[n - 1]) * RADIX + t[n - 2];
            && w > 0
            && v12 * w <= Val(v) < (v12 + 1) * w
            && top * w <= Val(t) < (top + 1) * w
  {
    hide Val, Weight;
    var n := |v|;
    TopBounds(v, n - 2);
    assert v[n - 2..] == [v[n - 2], v[n - 1]];
    ValTwo(v[n - 2..]);
    TopBounds(t, n - 2);
    assert t[n - 2..] == [t[n - 2], t[n - 1], t[n]];
    ValThree(t[n - 2], t[n - 1], t[n]);
  }

  /** Top components equal: RADIX - 1 is at most one too large, without any test. */
  lemma EqualTops(t: seq<Comp>, v: seq<Comp>)
    requires DigitInput(t, v) && t[|v|] == v[|v| - 1]
    ensures Val(t) / Val(v) <= RADIX - 1 <= Val(t) / Val(v) + 1
  {
    hide Val, Weight;
    var n := |v|;
    var v1, w, tt, vv := v[n - 1], Weight(n - 1), Val(t), Val(v);
    DigitInputFacts(t, v);
    EqualTopsBound(tt, vv, t[n - 1], v1, w);
    DivBounds(tt, vv);
    MulCancelLess(tt / vv, RADIX, vv);
    MulCancelLess(RADIX - 2, tt / vv + 1, vv);
  }

  lemma EqualTopsBound(t: int, v: int, u1: nat, v1: int, w: int)
    requires w > 0 && v1 >= RADIX / 2 && v < (v1 + 1) * w && v1 * w <= v
    requires (v1 * RADIX + u1) * w <= t
    ensures (RADIX - 2) * v < t
  {
    assert v1 * RADIX * w <= t by { MulMonotone(v1 * RADIX, v1 * RADIX + u1, w); }
    assert (RADIX - 1) * v < (RADIX - 1) * ((v1 + 1) * w);
    assert (RADIX - 1) * ((v1 + 1) * w) == v1 * RADIX * w + (RADIX - 1 - v1) * w;
    MulMonotone(RADIX - 1 - v1, v1, w);
  }

  lemma DivBounds(x: int, y: int)
    requires y > 0
    ensures (x / y) * y <= x && x + 1 <= (x / y + 1) * y
  {
    assert x == (x / y) * y + x % y;
    assert (x / y + 1) * y == (x / y) * y + y;
  }

  /** The two-digit quotient is at least the true digit and at most two above it. */
  lemma TwoDigitEstimate(t: seq<Comp>, v: seq<Comp>, q: int)
    requires DigitInput(t, v) && t[|v|] < v[|v| - 1]
    requires q == (t[|v|] * RADIX + t[|v| - 1]) / v[|v| - 1]
    ensures 0 <= q < RADIX
    ensures Val(t) / Val(v) <= q <= Val(t) / Val(v) + 2
  {
    hide Val, Weight;
    var n := |v|;
    DigitInputFacts(t, v);
    DigitBound(t[n], t[n - 1], v[n - 1]);
    DivBounds(t[n] * RADIX + t[n - 1], v[n - 1]);
    LeadingEstimate(Val(t), Val(v), t[n] * RADIX + t[n - 1], v[n - 1], Weight(n - 1), q);
  }

  lemma LeadingEstimate(t: nat, v: int, top: int, v1: int, w: int, q: int)
    requires w > 0 && v > 0 && 0 <= q < RADIX && v1 >= RADIX / 2
    requires top * w <= t < (top + 1) * w && v1 * w <= v < (v1 + 1) * w
    requires q * v1 <= top && top + 1 <= (q + 1) * v1
    ensures t / v <= q <= t / v + 2
  {
    EstimateNotBelow(t, v, top, v1, w, q);
    TwiceDivisor(q, v1, w, v);
    EstimateNotFarAbove(t, v, top, v1, w, q, 2);
  }

  lemma TwiceDivisor(q: int, v1: int, w: int, v: int)
    requires 0 <= q < RADIX && v1 >= RADIX / 2 && w > 0 && v1 * w <= v
    ensures q * w <= 2 * v
  {
    MulMonotone(q, 2 * v1, w);
    assert 2 * v1 * w == 2 * (v1 * w);
  }

  /** For a one-component divisor the two-digit quotient is exact. */
  lemma OneDigitDivisor(t: seq<Comp>, v: seq<Comp>)
    requires DigitInput(t, v) && |v| == 1
    ensures (t[1] * RADIX + t[0]) / v[0] == Val(t) / Val(v)
  {
    hide Val, Weight;
    assert v == [v[0]];
    ValOne(v[0]);
    ValTwo(t);
  }

  /** The V2 test decides: when it fires the estimate was too large, and when it does not the
      estimate is at most one too large. */
  lemma SecondDigitTest(t: seq<Comp>, v: seq<Comp>, q: int, inner: int)
    requires DigitInput(t, v) && |v| > 1 && 0 <= q < RADIX
    requires inner == t[|v|] * RADIX + t[|v| - 1] - q * v[|v| - 1]
    ensures v[|v| - 2] * q > inner * RADIX + t[|v| - 2] ==> Val(t) / Val(v) <= q - 1
    ensures v[|v| - 2] * q <= inner * RADIX + t[|v| - 2] ==> q <= Val(t) / Val(v) + 1
  {
    hide Val, Weight;
    var n := |v|;
    var v1, v2, w := v[n - 1], v[n - 2], Weight(n - 2);
    var v12 := v1 * RADIX + v2;
    var top := (t[n] * RADIX + t[n - 1]) * RADIX + t[n - 2];
    DigitInputFacts(t, v);
    ThreeDigitFacts(t, v);
    assert q * v12 == q * v1 * RADIX + v2 * q;
    if v2 * q > inner * RADIX + t[n - 2] {
      EstimateNotBelow(Val(t), Val(v), top, v12, w, q - 1);
    } else {
      MulMonotone(q, v12, w);
      EstimateNotFarAbove(Val(t), Val(v), top, v12, w, q, 1);
    }
  }

  /** The computation of q' in `bi_divide`. The result is the true quotient digit or one more. */
  method EstimateDigit(t: seq<Comp>, v: seq<Comp>) returns (q: Comp)
    requires DigitInput(t, v)
    ensures Val(t) / Val(v) <= q <= Val(t) / Val(v) + 1
  {
    hide Val, Weight;
    var n := |v|;
    var v1 := v[n - 1];
    DigitInputFacts(t, v);
    if t[n] == v1 {
      q := RADIX - 1;
      EqualTops(t, v);
    } else {
      DigitBound(t[n], t[n - 1], v1);
      q := (t[n] * RADIX + t[n - 1]) / v1;
      TwoDigitEstimate(t, v, q);
      if n > 1 && v[n - 2] != 0 {
        var v2 := v[n - 2];
        var inner: Comp := (RADIX * t[n] + t[n - 1] - q * v1) % RADIX;
        InnerFits(t[n], t[n - 1], q, v1);
        SecondDigitTest(t, v, q, inner);
        if v2 * q > inner * RADIX + t[n - 2] {
          q := q - 1;
        }
      } else if n > 1 {
        InnerFits(t[n], t[n - 1], q, v1);
        SecondDigitTest(t, v, q, t[n] * RADIX + t[n - 1] - q * v1);
      } else {
        OneDigitDivisor(t, v);
      }
    }
  }

  /** The cast of `inner` to a single component loses nothing. */
  lemma InnerFits(u0: Comp, u1: Comp, q: int, v1: Comp)
    requires v1 > 0 && q == (u0 * RADIX + u1) / v1
    ensures 0 <= u0 * RADIX + u1 - q * v1 < RADIX
    ensures (RADIX * u0 + u1 - q * v1) % RADIX == u0 * RADIX + u1 - q * v1
  {
    var top := u0 * RADIX + u1;
    assert top == q * v1 + top % v1;
  }
}
