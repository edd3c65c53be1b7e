/** The value of a little-endian component sequence and the facts every algorithm of
    nut/crypto/bigint.c rests on. */
module Comps {
  import opened Radix

  /** The natural number held by the components, least significant first. */
  function Val(s: seq<Comp>): (v: nat)
  {
    if s == [] then 0
    else Val(s[..|s| - 1]) + s[|s| - 1] * Weight(|s| - 1)
  }

  lemma ValSnoc(s: seq<Comp>, x: Comp)
    ensures Val(s + [x]) == Val(s) + x * Weight(|s|)
  {
    assert (s + [x])[..|s|] == s;
  }

  /** Taking one more component of a prefix. */
  lemma ValPrefixStep(s: seq<Comp>, i: nat)
    requires i < |s|
    ensures Val(s[..i + 1]) == Val(s[..i]) + s[i] * Weight(i)
  {
    assert s[..i + 1] == s[..i] + [s[i]];
    ValSnoc(s[..i], s[i]);
  }

  lemma {:induction false} ValBound(s: seq<Comp>)
    ensures Val(s) < Weight(|s|)
  {
    if s != [] {
      var n := |s| - 1;
      ValBound(s[..n]);
      MulMonotone(s[n], RADIX - 1, Weight(n));
    }
  }

  /** Splitting a number at component position |a|. */
  lemma {:induction false} ValConcat(a: seq<Comp>, b: seq<Comp>)
    ensures Val(a + b) == Val(a) + Weight(|a|) * Val(b)
  {
    if b == [] {
      assert a + b == a;
    } else {
      var n := |b| - 1;
      var x := b[n];
      ValConcat(a, b[..n]);
      assert a + b == (a + b[..n]) + [x];
      assert b == b[..n] + [x];
      ValSnoc(a + b[..n], x);
      ValSnoc(b[..n], x);
      WeightAdd(|a|, n);
      Distribute(Weight(|a|), Val(b[..n]), x, Weight(n));
    }
  }

  lemma Distribute(w: int, v: int, x: int, z: int)
    ensures w * (v + x * z) == w * v + x * (w * z)
  {
  }

  lemma ValSplit(s: seq<Comp>, k: nat)
    requires k <= |s|
    ensures Val(s) == Val(s[..k]) + Weight(k) * Val(s[k..])
  {
    assert s == s[..k] + s[k..];
    ValConcat(s[..k], s[k..]);
  }

  lemma ValOne(x: Comp)
    ensures Val([x]) == x
  {
    ValSnoc([], x);
  }

  lemma ValThree(a: Comp, b: Comp, c: Comp)
    ensures Val([a, b, c]) == a + RADIX * b + RADIX * RADIX * c
  {
    ValOne(a);
    assert [a] + [b] == [a, b] && [a, b] + [c] == [a, b, c];
    ValSnoc([a], b);
    ValSnoc([a, b], c);
    assert Weight(2) == RADIX * Weight(1) && Weight(1) == RADIX * Weight(0);
  }

  function Zeros(n: nat): (z: seq<Comp>)
    ensures |z| == n && AllZero(z)
  {
    seq(n, _ => 0)
  }

  predicate AllZero(s: seq<Comp>) { forall i :: 0 <= i < |s| ==> s[i] == 0 }

  lemma {:induction false} ValAllZero(s: seq<Comp>)
    requires AllZero(s)
    ensures Val(s) == 0
  {
    if s != [] {
      ValAllZero(s[..|s| - 1]);
    }
  }

  /** Leading zero components do not change the value. */
  lemma ValPad(s: seq<Comp>, z: seq<Comp>)
    requires AllZero(z)
    ensures Val(s + z) == Val(s)
  {
    ValConcat(s, z);
    ValAllZero(z);
  }

  lemma ValZeros(s: seq<Comp>, n: nat)
    ensures Val(s + Zeros(n)) == Val(s)
  {
    ValPad(s, Zeros(n));
  }

  /** Changing one component changes the value by the difference at that weight. */
  lemma ValUpdate(s: seq<Comp>, i: nat, x: Comp)
    requires i < |s|
    ensures Val(s[i := x]) == Val(s) + (x - s[i]) * Weight(i)
  {
    var t := s[i := x];
    ValSplit(s, i + 1);
    ValSplit(t, i + 1);
    assert s[i + 1..] == t[i + 1..];
    assert s[..i] == t[..i];
    ValPrefixStep(s, i);
    ValPrefixStep(t, i);
    assert (x - s[i]) * Weight(i) == x * Weight(i) - s[i] * Weight(i);
  }

  /** No leading zero component, except in the representation [0] of zero. */
  predicate Trimmed(s: seq<Comp>)
  {
    |s| >= 1 && (|s| > 1 ==> s[|s| - 1] != 0)
  }

  /** A trimmed number of n > 1 components is at least the weight of its top component. */
  lemma TrimmedLower(s: seq<Comp>)
    requires Trimmed(s) && |s| > 1
    ensures Weight(|s| - 1) <= Val(s)
  {
    var n := |s| - 1;
    MulMonotone(1, s[n], Weight(n));
  }

  /** Of two trimmed numbers, the one with more components is larger. */
  lemma LongerIsLarger(a: seq<Comp>, b: seq<Comp>)
    requires Trimmed(a) && |b| < |a| && b != []
    ensures Val(b) < Val(a)
  {
    TrimmedLower(a);
    ValBound(b);
    WeightMonotone(|b|, |a| - 1);
  }

  /** Numbers that agree above position i are ordered by component i. */
  lemma OrderedAt(a: seq<Comp>, b: seq<Comp>, i: nat)
    requires |a| == |b| && i < |a|
    requires a[i + 1..] == b[i + 1..] && a[i] < b[i]
    ensures Val(a) < Val(b)
  {
    hide Val, Weight;
    ValSplit(a, i + 1);
    ValSplit(b, i + 1);
    ValPrefixStep(a, i);
    ValPrefixStep(b, i);
    ValBound(a[..i]);
    assert a[i] * Weight(i) + Weight(i) <= b[i] * Weight(i) by {
      MulMonotone(a[i] + 1, b[i], Weight(i));
    }
    var rest := Weight(i + 1) * Val(a[i + 1..]);
    assert Val(a) == Val(a[..i]) + a[i] * Weight(i) + rest;
    assert Val(b) == Val(b[..i]) + b[i] * Weight(i) + rest;
  }

  /** Equal values with equal lengths have equal components. */
  lemma {:induction false} ValInjective(a: seq<Comp>, b: seq<Comp>)
    requires |a| == |b| && Val(a) == Val(b)
    ensures a == b
  {
    if a != [] {
      var n := |a| - 1;
      assert a[n + 1..] == b[n + 1..];
      if a[n] < b[n] { OrderedAt(a, b, n); }
      if b[n] < a[n] { OrderedAt(b, a, n); }
      ValInjective(a[..n], b[..n]);
      assert a == a[..n] + [a[n]];
      assert b == b[..n] + [b[n]];
    }
  }

  /** A trimmed representation is unique. */
  lemma TrimmedInjective(a: seq<Comp>, b: seq<Comp>)
    requires Trimmed(a) && Trimmed(b) && Val(a) == Val(b)
    ensures a == b
  {
    if |a| < |b| { LongerIsLarger(b, a); }
    if |b| < |a| { LongerIsLarger(a, b); }
    ValInjective(a, b);
  }

  /** A trimmed number between Weight(n) and twice that has n + 1 components and top one. */
  lemma CarryTop(s: seq<Comp>, n: nat)
    requires Trimmed(s) && n >= 1 && Weight(n) <= Val(s) < 2 * Weight(n)
    ensures |s| == n + 1 && Val(s[..n]) == Val(s) - Weight(n)
  {
    hide Val;
    if |s| <= n {
      ValBound(s);
      WeightMonotone(|s|, n);
    } else if |s| > n + 1 {
      TrimmedLower(s);
      WeightMonotone(n + 1, |s| - 1);
    } else {
      assert s == s[..n] + [s[n]];
      ValSnoc(s[..n], s[n]);
      ValBound(s[..n]);
      if s[n] >= 2 { MulMonotone(2, s[n], Weight(n)); }
      assert s[n] == 1;
    }
  }

  /** A trimmed number between Weight(n - 1) and Weight(n) has exactly n components. */
  lemma TrimmedSizeFromBounds(s: seq<Comp>, n: nat)
    requires Trimmed(s) && n >= 1 && Weight(n - 1) <= Val(s) < Weight(n)
    ensures |s| == n
  {
    hide Val, Weight;
    if |s| < n {
      ValBound(s);
      WeightMonotone(|s|, n - 1);
    } else if |s| > n {
      TrimmedLower(s);
      WeightMonotone(n, |s| - 1);
    }
  }

  /** How many components a number takes. */
  function SizeOf(v: nat): (n: nat)
    ensures n >= 1
  {
    if v < RADIX then 1 else 1 + SizeOf(v / RADIX)
  }

  lemma {:induction false} SizeBounds(v: nat)
    ensures v < Weight(SizeOf(v)) && (SizeOf(v) > 1 ==> Weight(SizeOf(v) - 1) <= v)
  {
    if v < RADIX {
      assert Weight(1) == RADIX * Weight(0);
    } else {
      SizeBounds(v / RADIX);
      var n := SizeOf(v / RADIX);
      assert v == RADIX * (v / RADIX) + v % RADIX;
      if n == 1 { assert Weight(1) == RADIX * Weight(0); }
    }
  }

  lemma SizeOfTrimmed(s: seq<Comp>)
    requires Trimmed(s)
    ensures SizeOf(Val(s)) == |s|
  {
    hide Val, Weight;
    var n := SizeOf(Val(s));
    SizeBounds(Val(s));
    if n > 1 {
      TrimmedSizeFromBounds(s, n);
    } else if |s| > 1 {
      TrimmedLower(s);
      WeightMonotone(1, |s| - 1);
    }
  }

  /** A positive trimmed number is at least the weight of its top component. */
  lemma PositiveLower(s: seq<Comp>)
    requires Trimmed(s) && Val(s) > 0
    ensures Weight(|s| - 1) <= Val(s) && s[|s| - 1] > 0
  {
    if |s| > 1 {
      TrimmedLower(s);
    } else {
      assert s == [s[0]];
      ValOne(s[0]);
    }
  }

  /** Replacing a window of components changes the value by the difference of the windows. */
  lemma ValWindow(s: seq<Comp>, k: nat, t: seq<Comp>)
    requires k + |t| <= |s|
    ensures Val(s[..k] + t + s[k + |t|..]) == Val(s) + Weight(k) * (Val(t) - Val(s[k..k + |t|]))
  {
    hide Val, Weight;
    assert s == s[..k] + s[k..k + |t|] + s[k + |t|..];
    SwapWindow(s[..k], s[k..k + |t|], s[k + |t|..], t);
  }

  lemma SwapWindow(a: seq<Comp>, mid: seq<Comp>, rest: seq<Comp>, t: seq<Comp>)
    requires |mid| == |t|
    ensures Val(a + t + rest) == Val(a + mid + rest) + Weight(|a|) * (Val(t) - Val(mid))
  {
    hide Val, Weight;
    ValThreeParts(a, mid, rest);
    ValThreeParts(a, t, rest);
    WindowArithmetic(Weight(|a|), Val(t), Val(mid), Weight(|t|) * Val(rest));
  }

  lemma ValThreeParts(a: seq<Comp>, b: seq<Comp>, c: seq<Comp>)
    ensures Val(a + b + c) == Val(a) + Weight(|a|) * (Val(b) + Weight(|b|) * Val(c))
  {
    hide Val, Weight;
    assert a + b + c == a + (b + c);
    ValConcat(a, b + c);
    ValConcat(b, c);
  }

  lemma WindowArithmetic(w: int, t: int, m: int, x: int)
    ensures w * (t + x) == w * (m + x) + w * (t - m)
  {
  }

  /** A number below Weight(n) has only zeros from position n on. */
  lemma {:induction false} HighZeros(s: seq<Comp>, n: nat)
    requires n <= |s| && Val(s) < Weight(n)
    ensures AllZero(s[n..])
  {
    hide Weight;
    if |s| > n {
      var top := |s| - 1;
      WeightMonotone(n, top);
      if s[top] > 0 {
        MulMonotone(1, s[top], Weight(top));
        assert false;
      }
      assert 0 * Weight(top) == 0;
      HighZeros(s[..top], n);
      assert s[n..] == s[..top][n..] + [0];
    }
  }

  /** The components below position k are the value modulo Weight(k). */
  lemma LowComponents(s: seq<Comp>, k: nat)
    requires k <= |s|
    ensures Val(s) % Weight(k) == Val(s[..k])
    ensures Val(s[..k]) % Weight(k) == Val(s[..k])
  {
    hide Val, Weight;
    var low, high, w := Val(s[..k]), Val(s[k..]), Weight(k);
    ValSplit(s, k);
    ValBound(s[..k]);
    assert w * high == high * w;
    DivModUnique(low + w * high, w, high, low);
    DivModUnique(low, w, 0, low);
  }

  /** What is left of a number cut to n components. */
  ghost function LowValue(s: seq<Comp>, n: nat): (v: nat)
  {
    if |s| <= n then Val(s) else Val(s[..n])
  }

  lemma LowValueIs(s: seq<Comp>, n: nat)
    ensures LowValue(s, n) == Val(s) % Weight(n)
  {
    hide Val, Weight;
    if |s| <= n {
      ValBound(s);
      WeightMonotone(|s|, n);
      DivModUnique(Val(s), Weight(n), 0, Val(s));
    } else {
      LowComponents(s, n);
    }
  }

  /** Component i of a number, or zero beyond its end, read off its value. */
  lemma DigitAt(s: seq<Comp>, i: nat)
    ensures (Val(s) / Weight(i)) % RADIX == if i < |s| then s[i] else 0
  {
    hide Val, Weight;
    if i < |s| {
      var low, high := s[..i], s[i..];
      ValSplit(s, i);
      ValBound(low);
      assert Weight(i) * Val(high) == Val(high) * Weight(i);
      DivModUnique(Val(s), Weight(i), Val(high), Val(low));
      LowDigit(high);
    } else {
      ValBound(s);
      WeightMonotone(|s|, i);
      DivModUnique(Val(s), Weight(i), 0, Val(s));
    }
  }

  lemma LowDigit(s: seq<Comp>)
    requires |s| >= 1
    ensures Val(s) % RADIX == s[0]
  {
    LowComponents(s, 1);
    assert s[..1] == [s[0]];
    ValOne(s[0]);
    WeightNext(0);
  }
}
