/** `regular_square`: column-wise squaring with a double-width accumulator and one overflow flag
    (algorithm 14.16 of the Handbook of Applied Cryptography). */
module Square {
  import opened Radix
  import opened Comps
  import opened CompLoops

  /** COMP_MAX, the largest double-precision component. */
  const LONG_MAX: nat := RADIX * RADIX - 1

  /** One column: 2 * xi * xj + w + carry. The sum may need one bit more than a long_comp; it
      stays below 2 * RADIX^2, so a single flag catches every overflow on the way. */
  method DoubleColumn(xi: Comp, xj: Comp, w: Comp, carry: nat) returns (low: Comp, carry': nat)
    requires carry < 2 * RADIX
    ensures low + carry' * RADIX == 2 * (xi * xj) + w + carry && carry' < 2 * RADIX
  {
    var xx := LongProduct(xi, xj, 0, 0);
    ColumnBound(xi, xj);
    var c := false;
    if LONG_MAX - xx < xx { c := true; }
    var tmp := WrapAdd(xx, xx);
    if LONG_MAX - tmp < w { c := true; }
    tmp := WrapAdd(tmp, w);
    if LONG_MAX - tmp < carry { c := true; }
    tmp := WrapAdd(tmp, carry);
    low := Low(tmp);
    carry' := High(tmp);
    if c { carry' := carry' + RADIX; }
  }

  /** Addition of unsigned 64-bit numbers. */
  function WrapAdd(x: LongComp, y: LongComp): (s: LongComp)
    ensures s == if x + y > LONG_MAX then x + y - LONG_MAX - 1 else x + y
  {
    (x + y) % (RADIX * RADIX)
  }

  lemma ColumnBound(x: Comp, y: Comp)
    ensures x * y <= (RADIX - 1) * (RADIX - 1)
  {
    MulMonotone(x, RADIX - 1, y);
    MulMonotone(y, RADIX - 1, RADIX - 1);
  }

  /** The value of the components of x from position i on. */
  ghost function Upper(x: seq<Comp>, i: nat): (v: int)
    requires i <= |x|
  {
    Val(x) - Val(x[..i])
  }

  lemma ColumnStep(w: seq<Comp>, s: seq<Comp>, x: seq<Comp>, i: nat, j: nat, base: int, first: int, c: int, c': int)
    requires i + j < |w| == |s| && i < j < |x|
    requires Val(s[..i + j]) + c * Weight(i + j) ==
             Val(w[..i + j]) + first + 2 * (x[i] * Weight(i) * (Val(x[..j]) - base))
    requires s[i + j] + c' * RADIX == 2 * (x[i] * x[j]) + w[i + j] + c
    ensures Val(s[..i + j + 1]) + c' * Weight(i + j + 1)
         == Val(w[..i + j + 1]) + first + 2 * (x[i] * Weight(i) * (Val(x[..j + 1]) - base))
  {
    hide Val, Weight;
    ValPrefixStep(s, i + j);
    ValPrefixStep(w, i + j);
    ValPrefixStep(x, j);
    WeightAdd(i, j);
    WeightNext(i + j);
    ColumnArithmetic(s[i + j], w[i + j], x[i], x[j], c, c', Weight(i), Weight(j), Val(x[..j]) - base);
  }

  lemma ColumnArithmetic(s: int, r: int, x: int, y: int, c: int, c': int, wi: int, wj: int, v: int)
    requires s + c' * RADIX == 2 * (x * y) + r + c
    ensures s * (wi * wj) + c' * (RADIX * (wi * wj)) - c * (wi * wj)
         == r * (wi * wj) + 2 * (x * wi * (v + y * wj)) - 2 * (x * wi * v)
  {
    var w := wi * wj;
    assert (s + c' * RADIX) * w == (2 * (x * y) + r + c) * w;
    assert x * y * w == x * wi * (y * wj);
    assert x * wi * (v + y * wj) == x * wi * v + x * wi * (y * wj);
  }

  /** One pass of the outer loop: the square of component i and its doubled products with the
      components above it. */
  method SquareRow(w: seq<Comp>, x: seq<Comp>, i: nat) returns (s: seq<Comp>)
    requires i < |x| && |w| == 2 * |x| + 1 && AllZero(w[i + |x| + 1..])
    ensures |s| == |w| && AllZero(s[i + 1 + |x| + 1..])
    ensures Val(s) == Val(w) + x[i] * x[i] * Weight(2 * i) + 2 * (x[i] * Weight(i) * Upper(x, i + 1))
  {
    hide Val, Weight;
    var t := |x|;
    var tmp := LongProduct(x[i], x[i], w[2 * i], 0);
    s := w[2 * i := Low(tmp)];
    var carry: nat := High(tmp);
    ghost var base, first := Val(x[..i + 1]), x[i] * x[i] * Weight(2 * i);
    FirstColumn(w, s, x[i], i, carry);
    var j := i + 1;
    while j < t
      invariant i < j <= t && |s| == |w| && carry < 2 * RADIX
      invariant s[i + j..] == w[i + j..]
      invariant Val(s[..i + j]) + carry * Weight(i + j) ==
                Val(w[..i + j]) + first + 2 * (x[i] * Weight(i) * (Val(x[..j]) - base))
    {
      ghost var c, s0 := carry, s;
      var low;
      low, carry := DoubleColumn(x[i], x[j], s[i + j], carry);
      s := s[i + j := low];
      assert s[..i + j] == s0[..i + j];
      ColumnStep(w, s, x, i, j, base, first, c, carry);
      j := j + 1;
    }
    assert x[..t] == x;
    ghost var s1, k := s, i + t;
    var top := s[i + t] + carry;
    s := s[i + t := top % RADIX];
    s := s[i + t + 1 := top / RADIX];
    assert s[..k] == s1[..k];
    LastColumns(w, s, k, carry, first + 2 * (x[i] * Weight(i) * Upper(x, i + 1)));
  }

  lemma FirstColumn(w: seq<Comp>, s: seq<Comp>, x: Comp, i: nat, carry: int)
    requires 2 * i < |w| == |s| && s == w[2 * i := s[2 * i]]
    requires s[2 * i] + carry * RADIX == w[2 * i] + x * x
    ensures Val(s[..2 * i + 1]) + carry * Weight(2 * i + 1) == Val(w[..2 * i + 1]) + x * x * Weight(2 * i)
  {
    hide Val, Weight;
    assert s[..2 * i] == w[..2 * i];
    ValPrefixStep(s, 2 * i);
    ValPrefixStep(w, 2 * i);
    WeightNext(2 * i);
    var ww := Weight(2 * i);
    assert (s[2 * i] + carry * RADIX) * ww == (w[2 * i] + x * x) * ww;
  }

  lemma LastColumns(w: seq<Comp>, s: seq<Comp>, k: nat, carry: int, added: int)
    requires k + 1 < |w| == |s| && AllZero(w[k + 1..])
    requires Val(s[..k]) + carry * Weight(k) == Val(w[..k]) + added
    requires s[k] + s[k + 1] * RADIX == w[k] + carry
    requires s[k + 2..] == w[k + 2..]
    ensures Val(s) == Val(w) + added && AllZero(s[k + 2..])
  {
    hide Val, Weight;
    assert w[k + 2..] == w[k + 1..][1..];
    assert w == w[..k + 1] + w[k + 1..];
    ValPad(w[..k + 1], w[k + 1..]);
    assert s == s[..k + 2] + s[k + 2..];
    ValPad(s[..k + 2], s[k + 2..]);
    ValPrefixStep(s, k);
    ValPrefixStep(s, k + 1);
    ValPrefixStep(w, k);
    WeightNext(k);
    var ww := Weight(k);
    assert (s[k] + s[k + 1] * RADIX) * ww == (w[k] + carry) * ww;
  }

  lemma SquareStep(x: seq<Comp>, i: nat)
    requires i < |x|
    ensures Upper(x, i) * Upper(x, i) == Upper(x, i + 1) * Upper(x, i + 1)
              + x[i] * x[i] * Weight(2 * i) + 2 * (x[i] * Weight(i) * Upper(x, i + 1))
  {
    hide Val, Weight;
    ValPrefixStep(x, i);
    WeightAdd(i, i);
    SquareOfSum(x[i], Weight(i), Upper(x, i + 1));
  }

  lemma SquareOfSum(x: int, w: int, u: int)
    ensures (x * w + u) * (x * w + u) == u * u + x * x * (w * w) + 2 * (x * w * u)
  {
    var y := x * w;
    assert y * y == x * x * (w * w);
    assert (y + u) * (y + u) == u * u + y * y + 2 * (y * u);
  }

  /** `regular_square`: the square of x in 2 * |x| + 1 components. */
  method SquareComps(x: seq<Comp>) returns (w: seq<Comp>)
    requires |x| >= 1
    ensures |w| == 2 * |x| + 1
    ensures Val(w) == Val(x) * Val(x)
  {
    hide Val, Weight;
    var t := |x|;
    w := Zeros(2 * t + 1);
    ValAllZero(w);
    ValAllZero(x[..0]);
    var i := 0;
    while i < t
      invariant 0 <= i <= t && |w| == 2 * t + 1
      invariant AllZero(w[i + t + 1..])
      invariant Val(w) == Val(x) * Val(x) - Upper(x, i) * Upper(x, i)
    {
      w := SquareRow(w, x, i);
      SquareStep(x, i);
      i := i + 1;
    }
    assert x[..t] == x;
  }
}
