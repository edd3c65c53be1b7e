/** `bi_divide`: long division by a normalised divisor, for quotients and for remainders. */
module Divide {
  import opened Radix
  import opened Comps
  import opened CompLoops
  import opened QuotientDigit
  import opened Bigints

  // ---- one quotient digit ----

  /** Multiply and subtract with an estimate that is exact or one too large: a borrow tells
      which, and adding v back once repairs it. */
  lemma MultiplySubtract(t: nat, v: nat, q: nat)
    requires v > 0 && t / v <= q <= t / v + 1
    ensures t < v * q ==> q >= 1 && t / v == q - 1 && t % v == t - v * q + v
    ensures t >= v * q ==> t / v == q && t % v == t - v * q
  {
    var d := t / v;
    assert t == d * v + t % v;
    if q == d {
      assert v * q == d * v;
    } else {
      assert v * q == d * v + v;
    }
  }

  /** tmp_u - v * q', computed modulo the size of tmp_u, which keeps that size. */
  method SubtractMultiple(ctx: BiCtx, tmpU: Bigint, v: Bigint, q: Comp) returns (isNegative: bool)
    requires ctx.Valid() && tmpU in ctx.live && v in ctx.live && tmpU != v
    requires v.refs + 1 != PERMANENT && tmpU.buf.size == v.buf.size + 1
    modifies ctx`freeList, ctx`freeCount, ctx`activeCount, ctx`live, ctx`free, ctx.free, tmpU`buf, v`refs
    ensures ctx.Valid() && old(ctx.live) <= ctx.live && ctx.activeCount == old(ctx.activeCount)
    ensures fresh(ctx.free - old(ctx.free))
    ensures v.refs == old(v.refs)
    ensures tmpU.buf.size == old(tmpU.buf.size)
    ensures isNegative <==> old(tmpU.Value()) < v.Value() * q
    ensures tmpU.Value() == old(tmpU.Value()) - v.Value() * q + (if isNegative then Weight(tmpU.buf.size) else 0)
  {
    hide Val, Weight, BiCtx.Valid;
    LiveNotFree(ctx);
    var n := v.buf.size;
    var vc := ctx.Copy(v);
    var p := ctx.IntMultiply(vc, q);
    var same;
    same, isNegative := ctx.Subtract(tmpU, p);
    ghost var diff := Digits(tmpU.buf);
    tmpU.buf := MoreComps(tmpU.buf, n + 1);
    ValZeros(diff, n + 1 - |diff|);
  }

  /** The body of the division loop: tmpU is reduced modulo v, and its quotient digit returned.
      v is only borrowed; after an add-back the C code undoes the growth of both buffers. */
  method ReduceWindow(ctx: BiCtx, tmpU: Bigint, v: Bigint) returns (q: Comp)
    requires ctx.Valid() && tmpU in ctx.live && v in ctx.live && tmpU != v
    requires v.refs + 1 != PERMANENT
    requires DigitInput(Digits(tmpU.buf), Digits(v.buf))
    modifies ctx`freeList, ctx`freeCount, ctx`activeCount, ctx`live, ctx`free, ctx.free, tmpU`buf, v
    ensures ctx.Valid() && old(ctx.live) <= ctx.live && ctx.activeCount == old(ctx.activeCount)
    ensures fresh(ctx.free - old(ctx.free))
    ensures v.refs == old(v.refs) && Digits(v.buf) == old(Digits(v.buf))
    ensures tmpU.buf.size == old(tmpU.buf.size) && v.Value() > 0
    ensures q == old(tmpU.Value()) / v.Value() && tmpU.Value() == old(tmpU.Value()) % v.Value()
  {
    hide Val, Weight, BiCtx.Valid;
    LiveNotFree(ctx);
    ghost var t, vv := tmpU.Value(), v.Value();
    DigitInputFacts(Digits(tmpU.buf), Digits(v.buf));
    q := EstimateDigit(Digits(tmpU.buf), Digits(v.buf));
    MultiplySubtract(t, vv, q);
    if q != 0 {
      var isNegative := SubtractMultiple(ctx, tmpU, v, q);
      if isNegative {
        q := q - 1;
        AddBack(ctx, tmpU, v, t, q + 1);
      }
    } else {
      assert vv * q == 0;
    }
  }

  /** The add-back: the carry out of the top cancels the earlier borrow. */
  method AddBack(ctx: BiCtx, tmpU: Bigint, v: Bigint, ghost t: nat, ghost q: nat)
    requires ctx.Valid() && tmpU in ctx.live && v in ctx.live && tmpU != v
    requires v.refs + 1 != PERMANENT
    requires tmpU.buf.size == v.buf.size + 1
    requires t < v.Value() * q <= t + v.Value()
    requires tmpU.Value() == t - v.Value() * q + Weight(tmpU.buf.size)
    modifies ctx`freeList, ctx`freeCount, ctx`activeCount, ctx`live, ctx`free, tmpU`buf, v
    ensures ctx.Valid() && old(ctx.live) <= ctx.live && ctx.activeCount == old(ctx.activeCount)
    ensures ctx.free <= old(ctx.free)
    ensures v.refs == old(v.refs) && Digits(v.buf) == old(Digits(v.buf))
    ensures tmpU.buf.size == old(tmpU.buf.size)
    ensures tmpU.Value() == t - v.Value() * q + v.Value()
  {
    hide Val, Weight, BiCtx.Valid;
    var n := v.buf.size;
    ghost var vd := Digits(v.buf);
    assert v.Value() < Weight(n + 1) by {
      ValBound(vd);
      WeightMonotone(n, n + 1);
    }
    var vc := ctx.Copy(v);
    var _ := ctx.Add(tmpU, vc);
    CarryTop(Digits(tmpU.buf), n + 1);
    assert Digits(tmpU.buf)[..n + 1] == tmpU.buf.comps[..n + 1];
    tmpU.buf := Buffer(tmpU.buf.comps, tmpU.buf.size - 1);
    assert (vd + Zeros(1))[..n] == vd;
    assert Digits(v.buf)[..n] == v.buf.comps[..n];
    v.buf := Buffer(v.buf.comps, v.buf.size - 1);
  }

  // ---- all quotient digits ----

  /** What holds between passes of the division loop: positions from i on are done. */
  ghost predicate DivisionState(u0: nat, v: nat, n: nat, u: seq<Comp>, q: seq<Comp>, i: nat)
  {
    && i <= |q| && |u| == |q| + n && v > 0
    && Val(u) + v * Val(q) == u0
    && AllZero(q[..i])
    && Val(u[i..]) < v
    && AllZero(u[i + n..])
  }

  /** The window at position i - 1 holds the whole unreduced top of u. */
  lemma WindowIsTop(u0: nat, v: nat, n: nat, u: seq<Comp>, q: seq<Comp>, i: nat)
    requires DivisionState(u0, v, n, u, q, i) && i >= 1
    ensures Val(u[i - 1..i + n]) == Val(u[i - 1..]) < RADIX * v
  {
    hide Val, Weight;
    assert u[i - 1..] == u[i - 1..i + n] + u[i + n..];
    ValPad(u[i - 1..i + n], u[i + n..]);
    assert u[i - 1..] == [u[i - 1]] + u[i..];
    ValConcat([u[i - 1]], u[i..]);
    ValOne(u[i - 1]);
    assert Weight(1) == RADIX by { WeightNext(0); }
  }

  /** One pass keeps the state: the window t becomes t mod v and q receives t / v. */
  lemma DivisionStep(u0: nat, v: nat, n: nat, u: seq<Comp>, q: seq<Comp>, i: nat, t: seq<Comp>, digit: Comp)
    requires DivisionState(u0, v, n, u, q, i) && i >= 1 && n >= 1 && v <= Weight(n)
    requires |t| == n + 1 && Val(t) == Val(u[i - 1..i + n]) % v && digit == Val(u[i - 1..i + n]) / v
    ensures DivisionState(u0, v, n, u[..i - 1] + t + u[i + n..], q[i - 1 := digit], i - 1)
  {
    hide Val, Weight;
    var k := i - 1;
    var u', q' := u[..k] + t + u[i + n..], q[k := digit];
    var w, old_t := Weight(k), Val(u[k..i + n]);
    WindowIsTop(u0, v, n, u, q, i);
    ValWindow(u, k, t);
    ValUpdate(q, k, digit);
    DigitConservation(old_t, v, digit, Val(t), w);
    assert v * (Val(q) + digit * w) == v * Val(q) + v * (digit * w);
    assert AllZero(q'[..k]) by { assert q'[..k] == q[..i][..k]; }
    HighZeros(t, n);
    assert u'[k..] == t + u[i + n..];
    ValPad(t, u[i + n..]);
    assert u'[k + n..] == t[n..] + u[i + n..];
  }

  lemma DigitConservation(t: nat, v: nat, digit: nat, r: nat, w: nat)
    requires v > 0 && r == t % v && digit == t / v
    ensures w * (r - t) + v * (digit * w) == 0
  {
    assert t == v * digit + r;
    assert w * (r - t) == -(v * digit * w);
  }

  /** Where pass j of the division loop finds its window of n + 1 components of u. */
  function WindowStart(uSize: nat, n: nat, j: nat): (k: int) { uSize - n - 1 - j }

  /** The memcpy of a window of u into tmp_u. */
  function CopyOut(u: Buffer, k: nat, n: nat, tmpU: Buffer): (r: Buffer)
    requires n >= 1 && k + n <= u.size && n <= |tmpU.comps|
    ensures r.size == n && Digits(r) == Digits(u)[k..k + n]
  {
    Buffer(u.comps[k..k + n] + tmpU.comps[n..], n)
  }

  /** The memcpy of tmp_u back into its window of u. */
  function CopyBack(u: Buffer, k: nat, tmpU: Buffer): (r: Buffer)
    requires k + tmpU.size <= u.size
    ensures r.size == u.size && Digits(r) == Digits(u)[..k] + Digits(tmpU) + Digits(u)[k + tmpU.size..]
  {
    Buffer(u.comps[..k] + Digits(tmpU) + u.comps[k + tmpU.size..], u.size)
  }

  function StoreDigit(b: Buffer, k: nat, digit: Comp): (r: Buffer)
    requires k < b.size
    ensures r.size == b.size && Digits(r) == Digits(b)[k := digit]
  {
    Buffer(b.comps[k := digit], b.size)
  }

  /** The do/while loop of `bi_divide` over all quotient positions. */
  method LongDivide(ctx: BiCtx, u: Bigint, v: Bigint, quotient: Bigint, tmpU: Bigint)
    requires ctx.Valid() && {u, v, quotient, tmpU} <= ctx.live
    requires u != v && u != quotient && u != tmpU && v != quotient && v != tmpU && quotient != tmpU
    requires v.refs + 1 != PERMANENT
    requires Normalised(Digits(v.buf))
    requires u.buf.size == quotient.buf.size + v.buf.size && tmpU.buf.size == v.buf.size + 1
    requires AllZero(Digits(quotient.buf))
    requires u.Value() < v.Value() * Weight(quotient.buf.size)
    modifies ctx`freeList, ctx`freeCount, ctx`activeCount, ctx`live, ctx`free, ctx.free
    modifies u`buf, v, quotient`buf, tmpU`buf
    ensures ctx.Valid() && old(ctx.live) <= ctx.live && ctx.activeCount == old(ctx.activeCount)
    ensures fresh(ctx.free - old(ctx.free))
    ensures v.refs == old(v.refs) && Digits(v.buf) == old(Digits(v.buf)) && v.Value() > 0
    ensures quotient.Value() == old(u.Value()) / v.Value()
    ensures u.Value() == old(u.Value()) % v.Value()
  {
    hide Val, Weight, BiCtx.Valid;
    var n, i := v.buf.size, quotient.buf.size;
    ghost var u0, vv, vd := u.Value(), v.Value(), Digits(v.buf);
    InitialState(u0, vd, Digits(u.buf), Digits(quotient.buf));
    assert vv < Weight(n) by { ValBound(vd); }
    while i > 0
      invariant 0 <= i <= quotient.buf.size && u.buf.size == quotient.buf.size + n
      invariant ctx.Valid() && old(ctx.live) <= ctx.live && ctx.activeCount == old(ctx.activeCount)
      invariant fresh(ctx.free - old(ctx.free))
      invariant v.refs == old(v.refs) && Digits(v.buf) == vd && tmpU.buf.size == n + 1
      invariant DivisionState(u0, vv, n, Digits(u.buf), Digits(quotient.buf), i)
    {
      LiveNotFree(ctx);
      ghost var du, dq := Digits(u.buf), Digits(quotient.buf);
      var k := WindowStart(u.buf.size, n, quotient.buf.size - i);
      tmpU.buf := CopyOut(u.buf, k, n + 1, tmpU.buf);
      WindowIsTop(u0, vv, n, du, dq, i);
      var digit := ReduceWindow(ctx, tmpU, v);
      DivisionStep(u0, vv, n, du, dq, i, Digits(tmpU.buf), digit);
      quotient.buf := StoreDigit(quotient.buf, i - 1, digit);
      u.buf := CopyBack(u.buf, k, tmpU.buf);
      i := i - 1;
    }
    assert Digits(u.buf)[0..] == Digits(u.buf);
    DivModUnique(u0, vv, quotient.Value(), u.Value());
  }

  lemma InitialState(u0: nat, v: seq<Comp>, u: seq<Comp>, q: seq<Comp>)
    requires Normalised(v) && |u| == |q| + |v| && AllZero(q)
    requires Val(u) == u0 < Val(v) * Weight(|q|)
    ensures DivisionState(u0, Val(v), |v|, u, q, |q|)
  {
    hide Val, Weight;
    ValAllZero(q);
    TopBounds(u, |q|);
    MulCancelLess(Val(u[|q|..]), Val(v), Weight(|q|));
    assert q[..|q|] == q;
    assert Val(v) * 0 == 0;
  }

  // ---- normalisation ----

  /** The normalising factor, COMP_RADIX/(V1+1). The sum V1+1 is formed in a component, so for
      the largest top component it wraps to zero and the C code divides by zero: no factor. */
  function NormaliseFactor(v1: Comp): (d: Option<Comp>)
    ensures d.None? <==> v1 == 0 || v1 == RADIX - 1
    ensures d.Some? ==> d.value * (v1 + 1) <= RADIX < (d.value + 1) * (v1 + 1)
  {
    var sum := (v1 + 1) % RADIX;
    if sum == 0 || v1 == 0 then None else Some(RADIX / sum)
  }

  datatype Option<T> = None | Some(value: T)

  /** The factor of a divisor, when the C code can form it. */
  ghost function Factor(v: seq<Comp>): (d: Option<Comp>)
    requires |v| >= 1
  {
    NormaliseFactor(v[|v| - 1])
  }

  /** v1 * floor(RADIX / (v1 + 1)) is at least half the radix. */
  lemma FactorBounds(v1: int, d: int)
    requires 1 <= v1 < RADIX - 1 && d == RADIX / (v1 + 1)
    ensures d >= 1 && d * (v1 + 1) <= RADIX && 2 * (v1 * d) >= RADIX
    ensures d == 1 ==> v1 >= RADIX / 2
  {
    var x := v1 + 1;
    assert RADIX == d * x + RADIX % x;
    assert d * x >= RADIX - v1;
    if 2 * v1 >= RADIX {
      assert d >= 1;
      MulMonotone(1, d, v1);
    } else {
      assert d >= 2;
      HalfRadix(v1, d);
    }
  }

  lemma HalfRadix(v1: int, d: int)
    requires 1 <= v1 && 2 * v1 < RADIX && d * (v1 + 1) >= RADIX - v1
    ensures 2 * (v1 * d) >= RADIX
  {
    var y := v1 * d;
    MulMonotone(RADIX - v1, d * (v1 + 1), v1);
    MulReorder(d, v1 + 1, v1);
    HalfRadixQuadratic(v1);
    MulCancelLess(RADIX - 2, 2 * y, v1 + 1);
  }

  lemma MulReorder(a: int, b: int, c: int)
    ensures (a * b) * c == (c * a) * b
  {
  }

  lemma QuadraticIdentity(b: int, v: int)
    ensures 2 * ((b - v) * v) == (v - 1) * (b - 2 * v) + (b - 2) * (v + 1) + 2
  {
  }

  lemma HalfRadixQuadratic(v1: int)
    requires 1 <= v1 && 2 * v1 < RADIX
    ensures 2 * ((RADIX - v1) * v1) > (RADIX - 2) * (v1 + 1)
  {
    MulMonotone(0, v1 - 1, RADIX - 2 * v1);
    QuadraticIdentity(RADIX, v1);
  }

  /** A divisor times its factor keeps its size and has a top component of at least half the radix. */
  lemma ScaledDivisor(v: seq<Comp>, d: Comp, p: seq<Comp>)
    requires Trimmed(v) && Val(v) > 0 && Factor(v) == Some(d)
    requires Trimmed(p) && Val(p) == Val(v) * d
    ensures |p| == |v| && Normalised(p)
  {
    hide Val, Weight;
    var n := |v|;
    var v1, w := v[n - 1], Weight(n - 1);
    FactorBounds(v1, d);
    TopBounds(v, n - 1);
    assert v[n - 1..] == [v1];
    ValOne(v1);
    ScaledBounds(Val(v), v1, w, d);
    LargeTop(p, n);
  }

  lemma LargeTop(p: seq<Comp>, n: nat)
    requires Trimmed(p) && n >= 1
    requires Weight(n - 1) <= RADIX / 2 * Weight(n - 1) <= Val(p) < RADIX * Weight(n - 1)
    ensures |p| == n && Normalised(p)
  {
    hide Val, Weight;
    WeightNext(n - 1);
    TrimmedSizeFromBounds(p, n);
    TopBounds(p, n - 1);
    assert p[n - 1..] == [p[n - 1]];
    ValOne(p[n - 1]);
    MulCancelLess(RADIX / 2, p[n - 1] as int + 1, Weight(n - 1));
  }

  lemma ScaledBounds(v: int, v1: int, w: int, d: int)
    requires w > 0 && d >= 1 && v1 * w <= v < (v1 + 1) * w
    requires d * (v1 + 1) <= RADIX && 2 * (v1 * d) >= RADIX
    ensures w <= RADIX / 2 * w <= v * d < RADIX * w
  {
    assert v * d < (v1 + 1) * w * d by { MulStrict(v, (v1 + 1) * w, d); }
    assert (v1 + 1) * w * d == d * (v1 + 1) * w;
    MulMonotone(d * (v1 + 1), RADIX, w);
    assert v1 * w * d <= v * d by { MulMonotone(v1 * w, v, d); }
    assert v1 * w * d == v1 * d * w;
    MulMonotone(RADIX / 2, v1 * d, w);
  }

  /** Without scaling the divisor is normalised already. */
  lemma UnscaledDivisor(v: seq<Comp>)
    requires Trimmed(v) && Val(v) > 0 && Factor(v) == Some(1)
    ensures Normalised(v)
  {
    FactorBounds(v[|v| - 1], 1);
  }

  /** The scaled dividend fills the old size or one component more, and its quotient by the
      scaled divisor has at most |u| - |v| + 1 digits. */
  lemma ScaledDividend(u: seq<Comp>, v: seq<Comp>, d: nat, p: seq<Comp>)
    requires Trimmed(u) && Trimmed(v) && Val(v) > 0 && |v| <= |u| && 1 <= d < RADIX
    requires Trimmed(p) && Val(p) == Val(u) * d
    ensures |u| <= |p| <= |u| + 1
    ensures Val(u) * d < Val(v) * d * Weight(|u| - |v| + 1)
  {
    hide Val, Weight;
    ScaledSize(u, d, p);
    QuotientLength(u, v);
    ScaleInequality(Val(u), Val(v), Weight(|u| - |v| + 1), d);
  }

  lemma QuotientLength(u: seq<Comp>, v: seq<Comp>)
    requires Trimmed(v) && Val(v) > 0 && |v| <= |u|
    ensures Val(u) < Val(v) * Weight(|u| - |v| + 1)
  {
    hide Val, Weight;
    ValBound(u);
    PositiveLower(v);
    WeightAdd(|v| - 1, |u| - |v| + 1);
    MulMonotone(Weight(|v| - 1), Val(v), Weight(|u| - |v| + 1));
  }

  lemma ScaleInequality(u: int, v: int, w: int, d: int)
    requires u < v * w && d > 0
    ensures u * d < v * d * w
  {
    MulStrict(u, v * w, d);
    assert v * w * d == v * d * w;
  }

  lemma ScaledSize(u: seq<Comp>, d: nat, p: seq<Comp>)
    requires Trimmed(u) && 1 <= d < RADIX
    requires Trimmed(p) && Val(p) == Val(u) * d
    ensures |u| <= |p| <= |u| + 1
  {
    hide Val, Weight;
    ValBound(u);
    WeightNext(|u|);
    assert Val(p) < Weight(|u| + 1) by {
      MulMonotone(d, RADIX, Val(u));
      MulStrict(Val(u), Weight(|u|), RADIX);
    }
    if |p| > |u| + 1 {
      TrimmedLower(p);
      WeightMonotone(|u| + 1, |p| - 1);
    }
    if |p| < |u| {
      TrimmedLower(u);
      MulMonotone(1, d, Val(u));
      ValBound(p);
      WeightMonotone(|p|, |u| - 1);
    }
  }

  /** Scaling both operands leaves the quotient and scales the remainder. */
  lemma ScalingUndone(u: nat, v: nat, d: nat)
    requires v > 0 && d > 0
    ensures v * d > 0
    ensures (u * d) / (v * d) == u / v
    ensures ((u * d) % (v * d)) / d == u % v
  {
    var q, r := u / v, u % v;
    assert u == q * v + r;
    assert u * d == q * (v * d) + r * d by { assert (q * v + r) * d == q * v * d + r * d; }
    MulStrict(r, v, d);
    MulStrict(0, v, d);
    DivModUnique(u * d, v * d, q, r * d);
    DivModUnique(r * d, d, r, 0);
  }

  // ---- bi_divide ----

  /** The stored normalised modulus that `bi_divide` switches to in reduction mode: made by
      `bi_set_mod` from v and permanent. */
  ghost predicate NormalisedStored(ctx: BiCtx, v: Bigint)
    reads ctx, ctx.live
  {
    NormalisedAt(ctx, ctx.modOffset, v)
  }

  ghost predicate NormalisedAt(ctx: BiCtx, slot: nat, v: Bigint)
    reads ctx, ctx.live
  {
    && v in ctx.live && v.refs == PERMANENT && Factor(Digits(v.buf)).Some?
    && slot in ctx.biNormalisedMod
    && var norm := ctx.biNormalisedMod[slot];
       norm in ctx.live && norm != v && norm.refs == PERMANENT
       && norm.Canonical() && norm.Value() == v.Value() * Factor(Digits(v.buf)).value
  }

  /** The stored normalised modulus, when reduction mode may use it as its work divisor. */
  ghost function Borrowed(ctx: BiCtx, isMod: bool): (s: set<Bigint>)
    reads ctx
  {
    if isMod && ctx.modOffset in ctx.biNormalisedMod then {ctx.biNormalisedMod[ctx.modOffset]} else {}
  }

  /** Normalise the dividend: u times d, with one component more than u. */
  method ScaleDividend(ctx: BiCtx, u: Bigint, d: Comp, ghost dv: seq<Comp>) returns (u': Bigint)
    requires ctx.Valid() && u in ctx.live && u.refs == 1 && u.Canonical()
    requires Trimmed(dv) && Val(dv) > 0 && |dv| <= u.buf.size && d >= 1
    modifies ctx`freeList, ctx`freeCount, ctx`activeCount, ctx`live, ctx`free, ctx.free, u
    ensures ctx.Valid() && u'.refs == 1
    ensures old(ctx.live) - {u} + {u'} <= ctx.live && ctx.activeCount == old(ctx.activeCount)
    ensures fresh(ctx.free - old(ctx.free) - {u})
    ensures if d == 1 then u' == u else u' !in old(ctx.live) && (u' in old(ctx.free) || fresh(u'))
    ensures u'.Value() == old(u.Value()) * d && u'.buf.size == old(u.buf.size) + 1
    ensures u'.Value() < Val(dv) * d * Weight(old(u.buf.size) - |dv| + 1)
  {
    hide Val, Weight, BiCtx.Valid;
    u' := u;
    ghost var du := Digits(u.buf);
    var size := u.buf.size;
    if d > 1 {
      u' := ctx.IntMultiply(u, d);
    }
    ScaledDividend(du, dv, d, Digits(u'.buf));
    if size == u'.buf.size {
      ghost var low := Digits(u'.buf);
      u'.buf := MoreComps(u'.buf, size + 1);
      ValZeros(low, 1);
    }
  }

  /** Normalise the divisor: v times d, or the stored product in reduction mode. */
  method ScaleDivisor(ctx: BiCtx, v: Bigint, d: Comp, isMod: bool) returns (v': Bigint)
    requires ctx.Valid() && v in ctx.live && v.Canonical() && v.Value() > 0
    requires Factor(Digits(v.buf)) == Some(d)
    requires isMod ==> NormalisedStored(ctx, v)
    modifies ctx`freeList, ctx`freeCount, ctx`activeCount, ctx`live, ctx`free, ctx.free, v`refs
    ensures ctx.Valid() && v' in ctx.live
    ensures v'.Value() == v.Value() * d
    ensures Normalised(Digits(v'.buf)) && v'.buf.size == v.buf.size
    ensures isMod || d == 1 ==>
      && v.refs == old(v.refs) && ctx.live == old(ctx.live) && ctx.free == old(ctx.free)
      && ctx.activeCount == old(ctx.activeCount)
    ensures d == 1 ==> v' == v
    ensures d > 1 && isMod ==> v' == ctx.biNormalisedMod[ctx.modOffset]
    ensures d > 1 && !isMod ==>
      && v'.refs == 1 && v' !in old(ctx.live) && (v' in old(ctx.free) || fresh(v'))
      && ctx.Dropped(v, old(v.refs), old(ctx.activeCount) + 1, old(ctx.live) + {v'}, old(ctx.free) - {v'})
  {
    hide Val, Weight, BiCtx.Valid;
    LiveNotFree(ctx);
    v' := v;
    ghost var dv := Digits(v.buf);
    FactorBounds(dv[|dv| - 1], d);
    if d > 1 {
      if isMod {
        v' := ctx.biNormalisedMod[ctx.modOffset];
      } else {
        v' := ctx.IntMultiply(v, d);
      }
      ScaledDivisor(dv, d, Digits(v'.buf));
    } else {
      UnscaledDivisor(dv);
    }
  }

  /** The two work objects of `bi_divide`: a zeroed quotient and the window tmp_u. */
  method Workspace(ctx: BiCtx, quotientSize: nat, windowSize: nat) returns (quotient: Bigint, tmpU: Bigint)
    requires ctx.Valid() && quotientSize >= 1 && windowSize >= 1
    modifies ctx`freeList, ctx`freeCount, ctx`activeCount, ctx`live, ctx`free, ctx.free
    ensures ctx.Valid() && old(ctx.live) + {quotient, tmpU} <= ctx.live
    ensures ctx.activeCount == old(ctx.activeCount) + 2
    ensures quotient != tmpU && quotient !in old(ctx.live) && tmpU !in old(ctx.live)
    ensures ctx.free <= old(ctx.free)
    ensures (quotient in old(ctx.free) || fresh(quotient)) && (tmpU in old(ctx.free) || fresh(tmpU))
    ensures quotient.refs == 1 && tmpU.refs == 1 && tmpU.buf.size == windowSize
    ensures quotient.buf.size == quotientSize && AllZero(Digits(quotient.buf))
  {
    hide Val, Weight, BiCtx.Valid;
    quotient := ctx.Alloc(quotientSize);
    LiveNotFree(ctx);
    tmpU := ctx.Alloc(windowSize);
    quotient.buf := Buffer(Zeros(quotientSize) + quotient.buf.comps[quotientSize..], quotientSize);
    assert Digits(quotient.buf) == Zeros(quotientSize);
  }

  /** Normalisation in quotient mode; both products are new objects unless d is 1. */
  method ScaleBoth(ctx: BiCtx, u: Bigint, v: Bigint, d: Comp) returns (u': Bigint, v': Bigint)
    requires ctx.Valid() && u in ctx.live && v in ctx.live && u != v && u.refs == 1
    requires u.Canonical() && v.Canonical() && v.Value() > 0 && v.buf.size <= u.buf.size
    requires Factor(Digits(v.buf)) == Some(d)
    modifies ctx`freeList, ctx`freeCount, ctx`activeCount, ctx`live, ctx`free, ctx.free, u, v`refs
    ensures ctx.Valid() && d >= 1 && u' != v' && u'.refs == 1
    ensures u'.Value() == old(u.Value()) * d && v'.Value() == old(v.Value()) * d
    ensures u'.buf.size == old(u.buf.size) + 1 && v'.buf.size == v.buf.size && Normalised(Digits(v'.buf))
    ensures u'.Value() < v'.Value() * Weight(old(u.buf.size) - v.buf.size + 1)
    ensures fresh(ctx.free - old(ctx.free) - {u, v}) && fresh({u', v'} - old(ctx.free) - {u, v})
    ensures {u', v'} * old(ctx.live) <= {u, v}
    ensures old(ctx.live) - {u, v} + {u', v'} <= ctx.live
    ensures d == 1 ==> u' == u && v' == v && v.refs == old(v.refs) && ctx.activeCount == old(ctx.activeCount)
    ensures d > 1 ==>
      && v'.refs == 1 && v' != v && u' !in old(ctx.live)
      && ctx.activeCount == old(ctx.activeCount) + 1 - Last(old(v.refs))
    ensures d > 1 && old(v.refs) != 1 ==> v in ctx.live && v.refs == DropRef(old(v.refs))
  {
    hide Val, Weight, BiCtx.Valid;
    LiveNotFree(ctx);
    FactorBounds(v.buf.comps[v.buf.size - 1], d);
    u' := ScaleDividend(ctx, u, d, Digits(v.buf));
    LiveNotFree(ctx);
    v' := ScaleDivisor(ctx, v, d, false);
  }

  /** The three `bi_free` calls at the end of `bi_divide`. */
  method Release(ctx: BiCtx, a: Bigint, v: Bigint, b: Bigint)
    requires ctx.Valid() && {a, v, b} <= ctx.live && a != v && a != b && v != b
    requires a.refs == 1 && b.refs == 1
    modifies ctx`freeList, ctx`freeCount, ctx`activeCount, ctx`live, ctx`free, a`refs, v`refs, b`refs
    ensures ctx.Valid() && v.refs == DropRef(old(v.refs))
    ensures old(ctx.live) - {a, b, v} <= ctx.live && (old(v.refs) != 1 ==> v in ctx.live)
    ensures ctx.activeCount == old(ctx.activeCount) - 2 - Last(old(v.refs))
    ensures ctx.free <= old(ctx.free) + {a, v, b} && (old(v.refs) != 1 ==> ctx.free <= old(ctx.free) + {a, b})
  {
    hide BiCtx.Valid;
    ctx.Free(a);
    ctx.Free(v);
    ctx.Free(b);
  }

  /** `bi_divide` with is_mod 0. */
  method DivideForQuotient(ctx: BiCtx, u: Bigint, v: Bigint) returns (r: Bigint)
    requires ctx.Valid() && u in ctx.live && v in ctx.live && u != v
    requires u.refs == 1 && v.refs + 1 != PERMANENT
    requires u.Canonical() && v.Canonical() && v.Value() > 0 && Factor(Digits(v.buf)).Some?
    requires v.buf.size <= u.buf.size
    modifies ctx`freeList, ctx`freeCount, ctx`activeCount, ctx`live, ctx`free, ctx.free, u, v
    ensures ctx.Valid() && r.Canonical() && r.refs == 1
    ensures r.Value() == old(u.Value()) / old(v.Value())
    ensures r !in old(ctx.live) && (r in old(ctx.free) || fresh(r))
    ensures old(ctx.live) - {u, v} + {r} <= ctx.live
    ensures ctx.activeCount == old(ctx.activeCount) - Last(old(v.refs))
    ensures fresh(ctx.free - old(ctx.free) - {u, v})
    ensures old(v.refs) != 1 ==> v in ctx.live && v.refs == DropRef(old(v.refs)) && Digits(v.buf) == old(Digits(v.buf))
  {
    hide Val, Weight, BiCtx.Valid;
    LiveNotFree(ctx);
    var n, m := v.buf.size, u.buf.size - v.buf.size;
    var quotient, tmpU := Workspace(ctx, m + 1, n + 1);
    LiveNotFree(ctx);
    var d := RADIX / (v.buf.comps[n - 1] + 1);
    ScaledQuotient(ctx, u, v, quotient, tmpU, d);
    quotient.buf := Trim(quotient.buf);
    r := quotient;
  }

  /** Scale, divide, and release everything but the quotient. */
  method ScaledQuotient(ctx: BiCtx, u: Bigint, v: Bigint, quotient: Bigint, tmpU: Bigint, d: Comp)
    requires ctx.Valid() && {u, v, quotient, tmpU} <= ctx.live
    requires u != v && u != quotient && u != tmpU && v != quotient && v != tmpU && quotient != tmpU
    requires u.refs == 1 && v.refs + 1 != PERMANENT && quotient.refs == 1 && tmpU.refs == 1
    requires u.Canonical() && v.Canonical() && v.Value() > 0 && Factor(Digits(v.buf)) == Some(d)
    requires v.buf.size <= u.buf.size && quotient.buf.size == u.buf.size - v.buf.size + 1
    requires tmpU.buf.size == v.buf.size + 1 && AllZero(Digits(quotient.buf))
    modifies ctx`freeList, ctx`freeCount, ctx`activeCount, ctx`live, ctx`free, ctx.free, u, v, quotient`buf, tmpU
    ensures ctx.Valid() && quotient.Value() == old(u.Value()) / old(v.Value())
    ensures old(ctx.live) - {u, v, tmpU} <= ctx.live && quotient in ctx.live
    ensures ctx.activeCount == old(ctx.activeCount) - 2 - Last(old(v.refs))
    ensures fresh(ctx.free - old(ctx.free) - {u, v, tmpU})
    ensures old(v.refs) != 1 ==> v in ctx.live && v.refs == DropRef(old(v.refs)) && Digits(v.buf) == old(Digits(v.buf))
  {
    hide Val, Weight, BiCtx.Valid, Factor;
    LiveNotFree(ctx);
    ghost var uv, vv := u.Value(), v.Value();
    var u', v' := ScaleBoth(ctx, u, v, d);
    LiveNotFree(ctx);
    ScalingUndone(uv, vv, d);
    LongDivide(ctx, u', v', quotient, tmpU);
    Release(ctx, tmpU, v', u');
  }

  /** The division loop and the end of `bi_divide` in reduction mode: u becomes the unscaled
      remainder, and the work objects are released. */
  method LongRemainder(ctx: BiCtx, u: Bigint, v: Bigint, quotient: Bigint, tmpU: Bigint, d: Comp)
    requires ctx.Valid() && {u, v, quotient, tmpU} <= ctx.live
    requires u != v && u != quotient && u != tmpU && v != quotient && v != tmpU && quotient != tmpU
    requires v.refs == PERMANENT && quotient.refs == 1 && tmpU.refs == 1 && d > 0
    requires Normalised(Digits(v.buf))
    requires u.buf.size == quotient.buf.size + v.buf.size && tmpU.buf.size == v.buf.size + 1
    requires AllZero(Digits(quotient.buf))
    requires u.Value() < v.Value() * Weight(quotient.buf.size)
    modifies ctx`freeList, ctx`freeCount, ctx`activeCount, ctx`live, ctx`free, ctx.free
    modifies u`buf, v, quotient, tmpU
    ensures ctx.Valid() && old(ctx.live) - {quotient, tmpU} <= ctx.live
    ensures ctx.activeCount == old(ctx.activeCount) - 2
    ensures fresh(ctx.free - old(ctx.free) - {quotient, tmpU})
    ensures v.refs == PERMANENT && Digits(v.buf) == old(Digits(v.buf)) && v.Value() > 0
    ensures u.Canonical() && u.Value() == old(u.Value()) % v.Value() / d
  {
    hide Val, Weight, BiCtx.Valid;
    LiveNotFree(ctx);
    LongDivide(ctx, u, v, quotient, tmpU);
    Release(ctx, tmpU, v, quotient);
    u.buf := Trim(u.buf);
    var _ := ctx.IntDivide(u, d);
  }

  /** `bi_divide` with is_mod 1 once u is known to reach v: norm, the stored normalised form
      of v, serves as divisor. Both are permanent and left as they were. */
  method DivideForRemainder(ctx: BiCtx, u: Bigint, v: Bigint, norm: Bigint) returns (r: Bigint)
    requires ctx.Valid() && {u, v, norm} <= ctx.live && u != v && u != norm && u.refs == 1
    requires u.Canonical() && v.Canonical() && v.Value() > 0 && v.buf.size <= u.buf.size
    requires NormalisedStored(ctx, v) && norm == ctx.biNormalisedMod[ctx.modOffset]
    modifies ctx`freeList, ctx`freeCount, ctx`activeCount, ctx`live, ctx`free, ctx.free, u, v, norm
    ensures ctx.Valid() && r.Canonical() && r.refs == 1
    ensures r.Value() == old(u.Value()) % old(v.Value())
    ensures r == u || (r !in old(ctx.live) && (r in old(ctx.free) || fresh(r)))
    ensures old(ctx.live) - {u} + {r} <= ctx.live && ctx.activeCount == old(ctx.activeCount)
    ensures fresh(ctx.free - old(ctx.free) - {u})
    ensures v.refs == PERMANENT && Digits(v.buf) == old(Digits(v.buf))
    ensures norm.refs == PERMANENT && Digits(norm.buf) == old(Digits(norm.buf))
  {
    hide Val, Weight, BiCtx.Valid;
    LiveNotFree(ctx);
    var n, m := v.buf.size, u.buf.size - v.buf.size;
    var quotient, tmpU := Workspace(ctx, m + 1, n + 1);
    LiveNotFree(ctx);
    var d := RADIX / (v.buf.comps[n - 1] + 1);
    FactorBounds(v.buf.comps[n - 1], d);
    ScalingUndone(u.Value(), v.Value(), d);
    r := ScaleDividend(ctx, u, d, Digits(v.buf));
    LiveNotFree(ctx);
    var v' := ScaleDivisor(ctx, v, d, true);
    LongRemainder(ctx, r, v', quotient, tmpU, d);
  }

  /** `bi_divide`: floor(u / v), or with isMod the remainder u mod v. u is consumed, v too unless
      it is permanent, and the result is one new reference. */
  method BiDivide(ctx: BiCtx, u: Bigint, v: Bigint, isMod: bool) returns (r: Bigint)
    requires ctx.Valid() && u in ctx.live && v in ctx.live && u != v
    requires u.refs == 1 && v.refs + 1 != PERMANENT
    requires u.Canonical() && v.Canonical() && v.Value() > 0 && Factor(Digits(v.buf)).Some?
    requires !isMod ==> v.buf.size <= u.buf.size
    requires isMod ==> NormalisedStored(ctx, v)
    modifies ctx`freeList, ctx`freeCount, ctx`activeCount, ctx`live, ctx`free, ctx.free
    modifies u, v, Borrowed(ctx, isMod)
    ensures ctx.Valid() && r.Canonical() && r.refs == 1
    ensures r.Value() == if isMod then old(u.Value()) % old(v.Value()) else old(u.Value()) / old(v.Value())
    ensures r == u || (r !in old(ctx.live) && (r in old(ctx.free) || fresh(r)))
    ensures old(ctx.live) - {u, v} + {r} <= ctx.live
    ensures ctx.activeCount == old(ctx.activeCount) - Last(old(v.refs))
    ensures fresh(ctx.free - old(ctx.free) - {u, v})
    ensures old(v.refs) != 1 ==> v in ctx.live && v.refs == DropRef(old(v.refs)) && Digits(v.buf) == old(Digits(v.buf))
    ensures forall o :: o in Borrowed(ctx, isMod) ==> o.refs == PERMANENT && Digits(o.buf) == old(Digits(o.buf))
  {
    hide Val, Weight, BiCtx.Valid;
    if isMod {
      var c := Compare(Digits(v.buf), Digits(u.buf));
      if c > 0 {
        ctx.Free(v);
        r := u;
        SmallDividend(u.Value(), v.Value());
      } else {
        if u.buf.size < v.buf.size { LongerIsLarger(Digits(v.buf), Digits(u.buf)); }
        r := DivideForRemainder(ctx, u, v, ctx.biNormalisedMod[ctx.modOffset]);
      }
    } else {
      r := DivideForQuotient(ctx, u, v);
    }
  }

  /** Without isMod nothing turns away a dividend with fewer components than the divisor. For exactly these
      the first window would start before the dividend, which has grown by one component; the quotient that
      they should give is zero. An example is 1 by the radix. */
  lemma ShortDividend(u: seq<Comp>, v: seq<Comp>)
    requires Trimmed(u) && Trimmed(v) && Val(v) > 0
    ensures WindowStart(|u| + 1, |v|, 0) < 0 <==> |u| < |v|
    ensures |u| < |v| ==> Val(u) / Val(v) == 0
    ensures WindowStart(|[1]| + 1, |[0, 1]|, 0) == -1
  {
    hide Val;
    if |u| < |v| {
      LongerIsLarger(v, u);
      DivModUnique(Val(u), Val(v), 0, Val(u));
    }
  }

  lemma SmallDividend(u: nat, v: nat)
    requires u < v
    ensures u % v == u
  {
  }
}
