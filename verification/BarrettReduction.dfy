/** `bi_barrett` (algorithm 14.42 of the Handbook of Applied Cryptography) with both of its
    truncated products and its single final subtraction. */
module BarrettReduction {
  import opened Radix
  import opened Comps
  import opened Modular
  import opened Multiply
  import opened Bigints
  import opened Products
  import opened Reductions
  import opened BarrettTheory

  /** The Barrett constant of the current slot is in place. */
  ghost predicate BarrettAt(ctx: BiCtx, slot: nat)
    reads ctx, ctx.live
  {
    && ModulusAt(ctx, slot) && slot in ctx.biMu && ctx.biMod[slot].buf.size <= 0x7FFF
    && var mu := ctx.biMu[slot];
       && mu in ctx.live && mu != ctx.biMod[slot] && mu != ctx.biNormalisedMod[slot]
       && mu.refs == PERMANENT && mu.Canonical()
       && IsQuotient(mu.Value(), Weight(2 * ctx.biMod[slot].buf.size), ctx.biMod[slot].Value())
  }

  ghost predicate BarrettSet(ctx: BiCtx)
    reads ctx, ctx.live
  {
    BarrettAt(ctx, ctx.modOffset)
  }

  /** q3: the estimate as a new object. */
  method BarrettQuotient(ctx: BiCtx, bi: Bigint, mu: Bigint, k: nat) returns (q3: Bigint)
    requires ctx.Valid() && bi in ctx.live && mu in ctx.live && bi != mu && bi.Canonical()
    requires k >= 1 && mu.refs == PERMANENT
    modifies ctx`freeList, ctx`freeCount, ctx`activeCount, ctx`live, ctx`free, ctx.free, mu`refs
    ensures ctx.Valid() && mu.refs == PERMANENT
    ensures q3.refs == 1 && q3.Value() == Estimate(Digits(bi.buf), Digits(mu.buf), k)
    ensures q3 !in old(ctx.live) && (q3 in old(ctx.free) || fresh(q3))
    ensures old(ctx.live) + {q3} <= ctx.live && ctx.activeCount == old(ctx.activeCount) + 1
    ensures fresh(ctx.free - old(ctx.free))
  {
    hide Val, Weight, BiCtx.Valid, Skipped;
    LiveNotFree(ctx);
    var q1 := CloneShifted(ctx, bi, k - 1);
    LiveNotFree(ctx);
    q3 := ShiftedProduct(ctx, q1, mu, k);
  }

  /** `comp_right_shift(bi_clone(ctx, bi), n)`. */
  method CloneShifted(ctx: BiCtx, bi: Bigint, n: nat) returns (q1: Bigint)
    requires ctx.Valid() && bi in ctx.live
    modifies ctx`freeList, ctx`freeCount, ctx`activeCount, ctx`live, ctx`free, ctx.free
    ensures ctx.Valid() && q1.refs == 1 && Digits(q1.buf) == ShiftedDown(Digits(bi.buf), n)
    ensures q1 !in old(ctx.live) && (q1 in old(ctx.free) || fresh(q1))
    ensures ctx.live == old(ctx.live) + {q1} && ctx.free <= old(ctx.free)
    ensures ctx.activeCount == old(ctx.activeCount) + 1
  {
    hide Val, Weight, BiCtx.Valid;
    LiveNotFree(ctx);
    q1 := ctx.Clone(bi);
    q1.buf := RightShift(q1.buf, n);
  }

  /** The outer partial product of q1 and mu, shifted down; q1 is consumed. */
  method ShiftedProduct(ctx: BiCtx, q1: Bigint, mu: Bigint, k: nat) returns (q3: Bigint)
    requires ctx.Valid() && q1 in ctx.live && mu in ctx.live && q1 != mu
    requires k >= 1 && q1.refs == 1 && mu.refs == PERMANENT
    modifies ctx`freeList, ctx`freeCount, ctx`activeCount, ctx`live, ctx`free, ctx.free, mu`refs, q1`refs
    ensures ctx.Valid() && mu.refs == PERMANENT && q3.refs == 1
    ensures q3.Value() == Scaled(q1.Value(), mu.Value(),
                                 Skipped(Digits(q1.buf), Digits(mu.buf), mu.buf.size, k - 1), Weight(k + 1))
    ensures q3 !in old(ctx.live) && (q3 in old(ctx.free) || fresh(q3))
    ensures old(ctx.live) - {q1} + {q3} <= ctx.live && ctx.activeCount == old(ctx.activeCount)
    ensures fresh(ctx.free - old(ctx.free) - {q1})
  {
    hide Val, Weight, BiCtx.Valid, Skipped;
    LiveNotFree(ctx);
    q3 := RegularMultiply(ctx, q1, mu, 0, k - 1);
    LiveNotFree(ctx);
    ShiftRight(ctx, q3, k + 1);
  }

  /** `comp_mod`: forget the components from position k on. */
  function CompMod(b: Buffer, k: nat): (r: Buffer)
    requires k >= 1
  {
    if b.size > k then Buffer(b.comps, k) else b
  }

  lemma CompModValue(b: Buffer, k: nat)
    requires k >= 1
    ensures Val(Digits(CompMod(b, k))) == Val(Digits(b)) % Weight(k)
  {
    hide Val, Weight;
    if b.size > k {
      assert Digits(CompMod(b, k)) == Digits(b)[..k];
      LowComponents(Digits(b), k);
    } else {
      ValBound(Digits(b));
      WeightMonotone(b.size, k);
      DivModUnique(Val(Digits(b)), Weight(k), 0, Val(Digits(b)));
    }
  }

  /** A difference below w is recovered from the remainders modulo w, borrow or not. */
  lemma ModDifference(x: nat, y: nat, w: nat)
    requires y <= x < y + w
    ensures var a, b := x % w, y % w; x - y == (if a < b then a - b + w else a - b)
  {
    var t, b, q := x - y, y % w, y / w;
    assert y == q * w + b;
    if t + b < w {
      DivModUnique(x, w, q, t + b);
    } else {
      assert (q + 1) * w == q * w + w;
      DivModUnique(x, w, q + 1, t + b - w);
    }
  }

  /** x - q3 * m computed modulo Weight(k + 1), where it is known to fit; q3 is consumed. */
  method TruncatedRest(ctx: BiCtx, bi: Bigint, q3: Bigint, bim: Bigint)
    requires ctx.Valid() && {bi, q3, bim} <= ctx.live && bi != q3 && bi != bim && q3 != bim
    requires bi.Canonical() && q3.refs == 1 && bim.refs == PERMANENT
    requires q3.Value() * bim.Value() <= bi.Value() < q3.Value() * bim.Value() + Weight(bim.buf.size + 1)
    modifies ctx`freeList, ctx`freeCount, ctx`activeCount, ctx`live, ctx`free, ctx.free, bi`buf, q3, bim`refs
    ensures ctx.Valid() && bim.refs == PERMANENT && bi.Canonical()
    ensures bi.Value() == old(bi.Value() - q3.Value() * bim.Value())
    ensures old(ctx.live) - {q3} <= ctx.live && ctx.activeCount == old(ctx.activeCount) - 1
    ensures fresh(ctx.free - old(ctx.free) - {q3})
  {
    hide Val, Weight, BiCtx.Valid;
    LiveNotFree(ctx);
    var k := bim.buf.size;
    ghost var x, y, dx := bi.Value(), q3.Value() * bim.Value(), Digits(bi.buf);
    ModDifference(x, y, Weight(k + 1));
    CompModValue(bi.buf, k + 1);
    bi.buf := CompMod(bi.buf, k + 1);
    var r2 := RegularMultiply(ctx, q3, bim, k + 1, 0);
    LiveNotFree(ctx);
    CompModValue(r2.buf, k + 1);
    if bi.buf.size < k + 1 {
      SmallProduct(dx, Digits(r2.buf), y, k + 1);
    }
    r2.buf := CompMod(r2.buf, k + 1);
    var _, _ := ctx.Subtract(bi, r2);
  }

  lemma SmallProduct(dx: seq<Comp>, dr: seq<Comp>, y: nat, k: nat)
    requires Trimmed(dx) && Trimmed(dr) && |dx| < k && y <= Val(dx)
    requires y < Weight(k) ==> Val(dr) == y
    ensures y < Weight(k) && |dr| <= |dx| && Val(dr) == y && Val(dx) % Weight(k) == Val(dx) && y % Weight(k) == y
  {
    hide Val, Weight;
    ValBound(dx);
    WeightMonotone(|dx|, k);
    if |dr| > |dx| { LongerIsLarger(dr, dx); }
    DivModUnique(Val(dx), Weight(k), 0, Val(dx));
    DivModUnique(y, Weight(k), 0, y);
  }

  /** `bi_barrett`: congruent to the argument and below 3m, and the remainder itself for arguments below
      the square of a modulus as `BarrettExact` wants it and for all arguments with one as `BarrettFull`
      wants it. Longer arguments go to classical reduction. */
  method BiBarrett(ctx: BiCtx, bi: Bigint) returns (r: Bigint)
    requires ctx.Valid() && BarrettSet(ctx) && bi in ctx.live && bi.refs == 1 && bi.Canonical()
    modifies ctx`freeList, ctx`freeCount, ctx`activeCount, ctx`live, ctx`free, ctx.free, bi, Slot(ctx)
    modifies if ctx.modOffset in ctx.biMu then {ctx.biMu[ctx.modOffset]} else {}
    ensures ctx.Valid() && BarrettSet(ctx) && Modulus(ctx) == old(Modulus(ctx))
    ensures r.Canonical() && r.refs == 1 && r.Value() < 3 * Modulus(ctx)
    ensures Congruent(r.Value(), old(bi.Value()), Modulus(ctx))
    ensures ExactFor(Modulus(ctx), old(bi.Value())) ==> r.Value() == old(bi.Value()) % Modulus(ctx)
    ensures old(bi.buf.size) > 2 * old(ctx.biMod[ctx.modOffset].buf.size) ==>
      r.Value() == old(bi.Value()) % Modulus(ctx)
    ensures old(bi.buf.size) <= 2 * old(ctx.biMod[ctx.modOffset].buf.size) ==>
      r.Value() == Reduced(old(bi.Value()), Modulus(ctx), old(BarrettEstimate(ctx, bi)))
    ensures r == bi || (r !in old(ctx.live) && (r in old(ctx.free) || fresh(r)))
    ensures old(ctx.live) - {bi} + {r} <= ctx.live && ctx.activeCount == old(ctx.activeCount)
    ensures fresh(ctx.free - old(ctx.free) - {bi})
    ensures PermanentKept(ctx)
  {
    hide Val, Weight, BiCtx.Valid, IsQuotient, Close, Reduced, Estimate, ExactFor;
    LiveNotFree(ctx);
    var bim := ctx.biMod[ctx.modOffset];
    var k := bim.buf.size;
    ghost var x := bi.Value();
    if bi.buf.size > k * 2 {
      r := BiMod(ctx, bi);
      CongruentMod(x, Modulus(ctx));
    } else {
      ShortBarrett(ctx, bi, bim, ctx.biMu[ctx.modOffset]);
      r := bi;
    }
  }

  /** The short arguments of `bi_barrett`, in place. */
  method ShortBarrett(ctx: BiCtx, bi: Bigint, bim: Bigint, mu: Bigint)
    requires ctx.Valid() && {bi, bim, mu} <= ctx.live && bi != bim && bi != mu && bim != mu
    requires bi.refs == 1 && bim.refs == PERMANENT && mu.refs == PERMANENT
    requires bi.Canonical() && bim.Canonical() && mu.Canonical()
    requires bi.buf.size <= 2 * bim.buf.size && bim.buf.size <= 0x7FFF
    requires IsQuotient(mu.Value(), Weight(2 * bim.buf.size), bim.Value())
    modifies ctx`freeList, ctx`freeCount, ctx`activeCount, ctx`live, ctx`free, ctx.free, bi`buf, bim, mu`refs
    ensures ctx.Valid() && bi.Canonical() && bi.Value() < 3 * bim.Value()
    ensures Digits(bim.buf) == old(Digits(bim.buf)) && bim.refs == PERMANENT && mu.refs == PERMANENT
    ensures Close(old(Estimate(Digits(bi.buf), Digits(mu.buf), bim.buf.size)), old(bi.Value()), bim.Value())
    ensures bim.Value() > 0 && Congruent(bi.Value(), old(bi.Value()), bim.Value())
    ensures bi.Value() == Reduced(old(bi.Value()), bim.Value(),
                                  old(Estimate(Digits(bi.buf), Digits(mu.buf), bim.buf.size)))
    ensures ExactFor(bim.Value(), old(bi.Value())) ==> bi.Value() == old(bi.Value()) % bim.Value()
    ensures old(ctx.live) <= ctx.live && ctx.activeCount == old(ctx.activeCount)
    ensures fresh(ctx.free - old(ctx.free))
  {
    hide Val, Weight, BiCtx.Valid, IsQuotient, Close, Reduced, Estimate, ExactFor;
    LiveNotFree(ctx);
    var k := bim.buf.size;
    ghost var x, q := bi.Value(), Estimate(Digits(bi.buf), Digits(mu.buf), k);
    DivisorPositive(mu.Value(), Weight(2 * k), bim.Value());
    BarrettBounds(Digits(bi.buf), Digits(bim.buf), Digits(mu.buf));
    ReducedResult(x, bim.Value(), q);
    ReducedExact(Digits(bi.buf), Digits(bim.buf), Digits(mu.buf));
    var q3 := BarrettQuotient(ctx, bi, mu, k);
    LiveNotFree(ctx);
    RestFits(q, x, Digits(bim.buf));
    TruncatedRest(ctx, bi, q3, bim);
    LiveNotFree(ctx);
    SubtractOnce(ctx, bi, bim);
    ReducedUnfold(x, bim.Value(), q);
  }

  /** The estimate `bi_barrett` works with for bi in the current slot. */
  ghost function BarrettEstimate(ctx: BiCtx, bi: Bigint): (q: int)
    requires BarrettSet(ctx)
    reads ctx, ctx.live, bi
  {
    Estimate(Digits(bi.buf), Digits(ctx.biMu[ctx.modOffset].buf), ctx.biMod[ctx.modOffset].buf.size)
  }

  lemma ReducedExact(x: seq<Comp>, m: seq<Comp>, mu: seq<Comp>)
    requires Trimmed(x) && Trimmed(m) && Trimmed(mu) && |m| <= 0x7FFF && |x| <= 2 * |m|
    requires IsQuotient(Val(mu), Weight(2 * |m|), Val(m))
    ensures Val(m) > 0
    ensures ExactFor(Val(m), Val(x)) ==> Reduced(Val(x), Val(m), Estimate(x, mu, |m|)) == Val(x) % Val(m)
  {
    hide Val, Weight, IsQuotient, Reduced, Estimate, ExactModulus, FullModulus;
    DivisorPositive(Val(mu), Weight(2 * |m|), Val(m));
    ExactModulusIs(m);
    if FullModulus(Val(m)) {
      BarrettFull(x, m, mu);
    } else if ExactFor(Val(m), Val(x)) {
      BarrettExact(x, m, mu);
    }
  }

  lemma RestFits(q: int, x: nat, m: seq<Comp>)
    requires Close(q, x, Val(m)) && |m| >= 1
    ensures q * Val(m) <= x < q * Val(m) + Weight(|m| + 1)
  {
    hide Val, Weight;
    ValBound(m);
    WeightNext(|m|);
    assert (q + 4) * Val(m) == q * Val(m) + 4 * Val(m);
  }

  lemma ReducedUnfold(x: nat, m: nat, q: int)
    ensures Reduced(x, m, q) == if x - q * m >= m then x - q * m - m else x - q * m
  {
  }
}
