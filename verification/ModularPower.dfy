/** `bi_mod_power` as a whole: conversion into and out of Montgomery form around the
    sliding-window exponentiation. */
module ModularPower {
  import opened Radix
  import opened Comps
  import opened Modular
  import opened Exponent
  import opened Bigints
  import opened Divide
  import opened Products
  import opened Reductions
  import opened BarrettTheory
  import opened BarrettReduction
  import opened Residue
  import opened ModPower

  /** The two powers of R that `bi_set_mod` stores for conversion into Montgomery form. */
  ghost predicate PowersAt(ctx: BiCtx, slot: nat)
    requires ModulusAt(ctx, slot)
    reads ctx, ctx.live
  {
    && slot in ctx.biRRModM && slot in ctx.biRModM
    && var rr, r, w := ctx.biRRModM[slot], ctx.biRModM[slot], Weight(ctx.biMod[slot].buf.size);
       && rr in ctx.live && rr.refs == PERMANENT && rr.Value() == (w * w) % ctx.biMod[slot].Value()
       && r in ctx.live && r.refs == PERMANENT && r.Value() == w % ctx.biMod[slot].Value()
  }

  ghost predicate PowersOfR(ctx: BiCtx)
    requires ModulusSet(ctx)
    reads ctx, ctx.live
  {
    PowersAt(ctx, ctx.modOffset)
  }

  /** The objects that hold them. */
  ghost function Powers(ctx: BiCtx): (s: set<Bigint>)
    reads ctx
  {
    (if InMontgomery(ctx) && ctx.modOffset in ctx.biRRModM then {ctx.biRRModM[ctx.modOffset]} else {})
    + if InMontgomery(ctx) && ctx.modOffset in ctx.biRModM then {ctx.biRModM[ctx.modOffset]} else {}
  }

  /** What `bi_mod_power` needs from `bi_set_mod`. */
  ghost predicate PowerReady(ctx: BiCtx)
    reads ctx, ctx.live
  {
    ReductionSet(ctx) && (InMontgomery(ctx) ==> PowersOfR(ctx))
  }

  /** What the callers use of it. */
  lemma PowerReadyMeans(ctx: BiCtx)
    requires PowerReady(ctx)
    ensures ReductionSet(ctx) && ModulusSet(ctx)
    ensures forall o :: o in Touched(ctx) ==> o in ctx.live && o.refs == PERMANENT
    ensures InMontgomery(ctx) ==>
      && Bound(ctx, false) == Modulus(ctx)
      && forall o :: o in Powers(ctx) ==> o in ctx.live && o.refs == PERMANENT
  {
    hide Val, Weight;
  }

  /** Operations that leave permanent objects alone leave everything in place. */
  twostate lemma PowerKept(ctx: BiCtx)
    requires old(PowerReady(ctx)) && ctx.modOffset == old(ctx.modOffset) && ctx.useClassical == old(ctx.useClassical)
    requires ctx.biMod == old(ctx.biMod) && ctx.biNormalisedMod == old(ctx.biNormalisedMod)
    requires ctx.biMu == old(ctx.biMu) && ctx.n0Dash == old(ctx.n0Dash)
    requires ctx.biRRModM == old(ctx.biRRModM) && ctx.biRModM == old(ctx.biRModM)
    requires PermanentKept(ctx)
    ensures PowerReady(ctx) && Modulus(ctx) == old(Modulus(ctx)) && Factored(ctx) == old(Factored(ctx))
    ensures Touched(ctx) == old(Touched(ctx)) && Powers(ctx) == old(Powers(ctx))
  {
    hide Val, Weight, IsQuotient;
    ReductionKept(ctx);
    assert |Digits(ctx.biMod[ctx.modOffset].buf)| == ctx.biMod[ctx.modOffset].buf.size;
    assert old(|Digits(ctx.biMod[ctx.modOffset].buf)| == ctx.biMod[ctx.modOffset].buf.size);
  }

  /** `int_to_bi` between reductions. */
  method IntToBi(ctx: BiCtx, n: Comp) returns (r: Bigint)
    requires ctx.Valid() && PowerReady(ctx)
    modifies ctx`freeList, ctx`freeCount, ctx`activeCount, ctx`live, ctx`free, ctx.free
    ensures ctx.Valid() && PowerReady(ctx)
    ensures SameReduction(ctx) && Powers(ctx) == old(Powers(ctx))
    ensures r.refs == 1 && r.Value() == n && r.Canonical()
    ensures r !in old(ctx.live) && (r in old(ctx.free) || fresh(r))
    ensures ctx.live == old(ctx.live) + {r} && ctx.free == old(ctx.free) - {r}
    ensures ctx.activeCount == old(ctx.activeCount) + 1
  {
    hide Val, Weight, BiCtx.Valid, IsQuotient;
    LiveNotFree(ctx);
    r := FromComps(ctx, [n]);
    ValOne(n);
  }

  /** The two `bi_free` calls on the operands. */
  method FreeOperands(ctx: BiCtx, bi: Bigint, biexp: Bigint)
    requires ctx.Valid() && PowerReady(ctx) && bi in ctx.live && biexp in ctx.live && bi != biexp
    modifies ctx`freeList, ctx`freeCount, ctx`activeCount, ctx`live, ctx`free, bi`refs, biexp`refs
    ensures ctx.Valid() && PowerReady(ctx)
    ensures Modulus(ctx) == old(Modulus(ctx)) && Factored(ctx) == old(Factored(ctx))
    ensures Touched(ctx) == old(Touched(ctx)) && Powers(ctx) == old(Powers(ctx))
    ensures Kept(ctx, bi, old(bi.refs)) && Kept(ctx, biexp, old(biexp.refs))
    ensures old(ctx.live) - {bi, biexp} <= ctx.live && ctx.free <= old(ctx.free) + {bi, biexp}
    ensures ctx.activeCount == old(ctx.activeCount) - Last(old(bi.refs)) - Last(old(biexp.refs))
  {
    hide Val, Weight, BiCtx.Valid, PowerReady, Modulus, Factored, Bound, Touched, Powers;
    FreeTwo(ctx, bi, biexp);
    PowerKept(ctx);
  }

  /** The exponentiation proper, while the powers of R stay in place. */
  method PowerBetween(ctx: BiCtx, base: Bigint, biR: Bigint, bits: seq<Comp>, thresh: nat, ghost b: Base)
    returns (r: Bigint)
    requires ctx.Valid() && PowerReady(ctx) && base in ctx.live && Fits(ctx, base.Value(), b.tight) && base != biR
    requires Represents(base.Value(), b.number, 1, Factored(ctx), Modulus(ctx)) && thresh >= 4
    requires Running(ctx, biR, b, 0) && Trimmed(bits)
    modifies ctx`freeList, ctx`freeCount, ctx`activeCount, ctx`live, ctx`free, ctx.free, biR, Touched(ctx)
    ensures ctx.Valid() && PowerReady(ctx) && Touched(ctx) == old(Touched(ctx)) && Powers(ctx) == old(Powers(ctx))
    ensures Modulus(ctx) == old(Modulus(ctx)) && Factored(ctx) == old(Factored(ctx))
    ensures r.refs == 1 && r.Canonical() && r.Value() < Bound(ctx, b.tight)
    ensures Running(ctx, r, b, PowerExponent(Val(bits)))
    ensures r !in old(ctx.live) - {biR} && (r in old(ctx.free) || fresh(r) || (r == biR && old(biR.refs) == 1))
    ensures old(ctx.live) - {biR} + {r} <= ctx.live
    ensures ctx.activeCount == old(ctx.activeCount) + 1 - Last(old(biR.refs))
    ensures fresh(ctx.free - old(ctx.free) - {biR})
    ensures PermanentKept(ctx)
  {
    hide Val, Weight, BiCtx.Valid, ReductionSet, PowersOfR, Represents, PowerExponent, Fits, Modulus, Factored, Touched;
    r := PowerWithBase(ctx, base, biR, bits, thresh, b);
    PowerKept(ctx);
  }

  /** Every residue on the way to a power of v is below the modulus although Barrett reduction is used. */
  ghost predicate Tight(ctx: BiCtx, v: nat)
    requires ModulusSet(ctx)
    reads ctx, ctx.live
  {
    ctx.reduction == Barrett && ExactBase(Modulus(ctx), v)
  }

  /** Without conversion: classical and Barrett reduction. */
  method PlainPower(ctx: BiCtx, bi: Bigint, biexp: Bigint, thresh: nat) returns (r: Bigint)
    requires ctx.Valid() && PowerReady(ctx) && !InMontgomery(ctx) && thresh >= 4
    requires bi in ctx.live && biexp in ctx.live && bi != biexp && biexp.Canonical()
    modifies ctx`freeList, ctx`freeCount, ctx`activeCount, ctx`live, ctx`free, ctx.free, bi`refs, biexp`refs
    modifies Touched(ctx)
    ensures ctx.Valid() && PowerReady(ctx) && Modulus(ctx) == old(Modulus(ctx))
    ensures r in ctx.live && r.refs == 1 && r.Canonical() && r.Value() < Bound(ctx, Tight(ctx, old(bi.Value())))
    ensures Congruent(r.Value(), Exp(old(bi.Value()), PowerExponent(old(biexp.Value()))), Modulus(ctx))
    ensures r !in old(ctx.live) && (r in old(ctx.free) || fresh(r))
    ensures old(ctx.live) - {bi, biexp} + {r} <= ctx.live
    ensures Kept(ctx, bi, old(bi.refs)) && Kept(ctx, biexp, old(biexp.refs))
    ensures old(bi.refs) != 1 ==> Digits(bi.buf) == old(Digits(bi.buf))
    ensures ctx.activeCount == old(ctx.activeCount) + 1 - Last(old(bi.refs)) - Last(old(biexp.refs))
    ensures fresh(ctx.free - old(ctx.free) - {bi, biexp})
    ensures PermanentKept(ctx)
  {
    hide Val, Weight, BiCtx.Valid, PowerReady, ReductionSet, ModulusSet, Touched, Powers, Modulus, Represents;
    hide PowerExponent, Exp, ExactModulus, FullModulus;
    LiveNotFree(ctx);
    PowerReadyMeans(ctx);
    ghost var v, e := bi.Value(), biexp.Value();
    ghost var b := Base(v, Tight(ctx, v));
    PlainStart(v, Modulus(ctx));
    if b.tight && ExactModulus(Modulus(ctx)) { ExactAboveOne(Modulus(ctx)); }
    var biR := IntToBi(ctx, 1);
    LiveNotFree(ctx);
    PowerReadyMeans(ctx);
    r := PowerBetween(ctx, bi, biR, Digits(biexp.buf), thresh, b);
    PlainEnd(r.Value(), v, PowerExponent(e), Modulus(ctx));
    LiveNotFree(ctx);
    PowerReadyMeans(ctx);
    FreeOperands(ctx, bi, biexp);
  }

  lemma PlainEnd(v: int, b: int, x: nat, m: int)
    requires Represents(v, b, x, 1, m)
    ensures Congruent(v, Exp(b, x), m)
  {
  }

  /** 1 and the base represent the powers 0 and 1. */
  lemma PlainStart(b: int, m: nat)
    requires m > 0
    ensures Represents(1, b, 0, 1, m) && Represents(b, b, 1, 1, m)
  {
    assert Exp(b, 1) == b * Exp(b, 0) == b;
  }

  // ---- Montgomery form ----

  /** x' = x R mod m, and A = R mod m, represent the powers 1 and 0. */
  lemma ConvertedStart(b: nat, w: nat, rr: nat, base: nat, inv: int, m: nat)
    requires m > 0 && rr == SquareMod(w, m) && Congruent(base * w, b * rr, m) && Inverse(w, inv, m)
    ensures Represents(base, b, 1, w, m) && Represents(w % m, b, 0, w, m)
  {
    CongruentMod(w * w, m);
    CongruentMod(w, m);
    CongruentMul(b, b, rr, w * w, m);
    assert b * (w * w) == b * w * w;
    CancelFactor(base, b * w, w, inv, m);
    assert Exp(b, 1) == b * Exp(b, 0) == b;
  }

  /** Dividing R out once more leaves the power itself. */
  lemma ConvertedEnd(v: int, r: int, b: int, x: nat, w: int, inv: int, m: int)
    requires Represents(v, b, x, w, m) && Inverse(w, inv, m) && Congruent(r * w, v, m)
    ensures Congruent(r, Exp(b, x), m)
  {
    CancelFactor(r, Exp(b, x), w, inv, m);
  }

  ghost function SquareMod(w: nat, m: nat): (r: nat)
    requires m > 0
  {
    (w * w) % m
  }

  /** `bi_multiply(ctx, bi, ctx->bi_RR_mod_m[mod_offset])`. */
  method TimesRR(ctx: BiCtx, bi: Bigint) returns (p: Bigint)
    requires ctx.Valid() && PowerReady(ctx) && InMontgomery(ctx)
    requires bi in ctx.live && bi != ctx.biRRModM[ctx.modOffset] && bi.Value() < Factored(ctx)
    modifies ctx`freeList, ctx`freeCount, ctx`activeCount, ctx`live, ctx`free, ctx.free, bi`refs, Powers(ctx)`refs
    ensures ctx.Valid() && PowerReady(ctx) && Touched(ctx) == old(Touched(ctx)) && Powers(ctx) == old(Powers(ctx))
    ensures Modulus(ctx) == old(Modulus(ctx)) && Factored(ctx) == old(Factored(ctx))
    ensures p.Canonical() && p.refs == 1 && p.Value() < Modulus(ctx) * Factored(ctx)
    ensures p.Value() == old(bi.Value()) * SquareMod(Factored(ctx), Modulus(ctx))
    ensures p !in old(ctx.live) && (p in old(ctx.free) || fresh(p))
    ensures old(ctx.live) - {bi} + {p} <= ctx.live && Kept(ctx, bi, old(bi.refs))
    ensures ctx.activeCount == old(ctx.activeCount) + 1 - Last(old(bi.refs))
    ensures fresh(ctx.free - old(ctx.free) - {bi})
    ensures PermanentKept(ctx)
  {
    hide Val, Weight, BiCtx.Valid, NormalisedStored, Touched;
    LiveNotFree(ctx);
    var rr := ctx.biRRModM[ctx.modOffset];
    ConvertedFits(bi.Value(), rr.Value(), Factored(ctx), Modulus(ctx));
    p := BiMultiply(ctx, bi, rr);
    LiveNotFree(ctx);
    PowerKept(ctx);
  }

  /** `bi_mont` while the powers of R stay in place. */
  method MontBetween(ctx: BiCtx, x: Bigint) returns (r: Bigint)
    requires ctx.Valid() && PowerReady(ctx) && InMontgomery(ctx) && x in ctx.live && x.refs == 1 && x.Canonical()
    requires x.Value() < Modulus(ctx) * Factored(ctx)
    modifies ctx`freeList, ctx`freeCount, ctx`activeCount, ctx`live, ctx`free, ctx.free, x, Touched(ctx)
    ensures ctx.Valid() && PowerReady(ctx) && Touched(ctx) == old(Touched(ctx)) && Powers(ctx) == old(Powers(ctx))
    ensures Modulus(ctx) == old(Modulus(ctx)) && Factored(ctx) == old(Factored(ctx))
    ensures r == x && r.Canonical() && r.refs == 1 && r.Value() < Modulus(ctx)
    ensures Congruent(r.Value() * Factored(ctx), old(x.Value()), Modulus(ctx))
    ensures old(ctx.live) <= ctx.live && ctx.activeCount == old(ctx.activeCount)
    ensures fresh(ctx.free - old(ctx.free))
    ensures PermanentKept(ctx)
  {
    hide Val, Weight, BiCtx.Valid, NormalisedStored, PowersOfR;
    r := BiMont(ctx, x);
    PowerKept(ctx);
  }

  /** `bi_mont(ctx, bi_multiply(ctx, bi, ctx->bi_RR_mod_m[mod_offset]))`. */
  method Preconvert(ctx: BiCtx, bi: Bigint) returns (base: Bigint)
    requires ctx.Valid() && PowerReady(ctx) && InMontgomery(ctx)
    requires bi in ctx.live && bi != ctx.biRRModM[ctx.modOffset] && bi.Value() < Factored(ctx)
    modifies ctx`freeList, ctx`freeCount, ctx`activeCount, ctx`live, ctx`free, ctx.free, bi, Powers(ctx)`refs
    modifies Touched(ctx)
    ensures ctx.Valid() && PowerReady(ctx) && Touched(ctx) == old(Touched(ctx)) && Powers(ctx) == old(Powers(ctx))
    ensures Modulus(ctx) == old(Modulus(ctx)) && Factored(ctx) == old(Factored(ctx))
    ensures base in ctx.live && base.refs == 1 && base.Value() < Modulus(ctx)
    ensures Represents(base.Value(), old(bi.Value()), 1, Factored(ctx), Modulus(ctx))
    ensures base !in old(ctx.live) && (base in old(ctx.free) || fresh(base))
    ensures old(ctx.live) - {bi} + {base} <= ctx.live && Kept(ctx, bi, old(bi.refs))
    ensures old(bi.refs) != 1 ==> Digits(bi.buf) == old(Digits(bi.buf))
    ensures ctx.activeCount == old(ctx.activeCount) + 1 - Last(old(bi.refs))
    ensures fresh(ctx.free - old(ctx.free) - {bi})
    ensures PermanentKept(ctx)
  {
    hide Val, Weight, BiCtx.Valid, NormalisedStored, MontgomerySet, BarrettSet, Represents, PowersOfR, Factored;
    hide SquareMod;
    LiveNotFree(ctx);
    TouchedPermanent(ctx);
    ghost var b, m, w := bi.Value(), Modulus(ctx), Factored(ctx);
    ghost var rr: nat := SquareMod(w, m);
    ghost var inv := FactorInverse(ctx);
    var p := TimesRR(ctx, bi);
    LiveNotFree(ctx);
    base := MontBetween(ctx, p);
    ConvertedStart(b, w, rr, base.Value(), inv, m);
  }

  lemma ConvertedFits(b: nat, rr: nat, w: nat, m: nat)
    requires b < w && rr < m
    ensures b * rr < m * w
  {
    MulMonotone(b, w, rr);
    MulStrict(rr, m, w);
    assert w * rr == rr * w;
  }

  /** `bi_free` of an object with a single reference. */
  method Discard(ctx: BiCtx, x: Bigint)
    requires ctx.Valid() && PowerReady(ctx) && x in ctx.live && x.refs == 1
    modifies ctx`freeList, ctx`freeCount, ctx`activeCount, ctx`live, ctx`free, x`refs
    ensures ctx.Valid() && PowerReady(ctx) && Touched(ctx) == old(Touched(ctx)) && Powers(ctx) == old(Powers(ctx))
    ensures Modulus(ctx) == old(Modulus(ctx)) && Factored(ctx) == old(Factored(ctx))
    ensures old(ctx.live) - {x} <= ctx.live && ctx.free <= old(ctx.free) + {x}
    ensures ctx.activeCount == old(ctx.activeCount) - 1
  {
    hide Val, Weight, BiCtx.Valid, PowerReady, Modulus, Factored, Bound, Touched, Powers;
    ctx.Free(x);
    PowerKept(ctx);
  }

  /** The conversion, between the allocation and the release of the one that Montgomery form does
      not need. */
  method FirstBase(ctx: BiCtx, bi: Bigint) returns (base: Bigint)
    requires ctx.Valid() && PowerReady(ctx) && InMontgomery(ctx)
    requires bi in ctx.live && bi != ctx.biRRModM[ctx.modOffset] && bi.Value() < Factored(ctx)
    modifies ctx`freeList, ctx`freeCount, ctx`activeCount, ctx`live, ctx`free, ctx.free, bi, Powers(ctx)`refs
    modifies Touched(ctx)
    ensures ctx.Valid() && PowerReady(ctx) && Touched(ctx) == old(Touched(ctx)) && Powers(ctx) == old(Powers(ctx))
    ensures Modulus(ctx) == old(Modulus(ctx)) && Factored(ctx) == old(Factored(ctx))
    ensures base in ctx.live && base.refs == 1 && base.Value() < Modulus(ctx)
    ensures Represents(base.Value(), old(bi.Value()), 1, Factored(ctx), Modulus(ctx))
    ensures base !in old(ctx.live) && (base in old(ctx.free) || fresh(base))
    ensures old(ctx.live) - {bi} + {base} <= ctx.live && Kept(ctx, bi, old(bi.refs))
    ensures old(bi.refs) != 1 ==> Digits(bi.buf) == old(Digits(bi.buf))
    ensures ctx.activeCount == old(ctx.activeCount) + 1 - Last(old(bi.refs))
    ensures fresh(ctx.free - old(ctx.free) - {bi})
    ensures PermanentKept(ctx)
  {
    hide Val, Weight, BiCtx.Valid, PowerReady, ReductionSet, ModulusSet, Touched, Powers, Modulus, Factored, Bound;
    hide Represents;
    LiveNotFree(ctx);
    PowerReadyMeans(ctx);
    var one := IntToBi(ctx, 1);
    LiveNotFree(ctx);
    PowerReadyMeans(ctx);
    base := Preconvert(ctx, bi);
    LiveNotFree(ctx);
    PowerReadyMeans(ctx);
    Discard(ctx, one);
  }

  /** `biR = ctx->bi_R_mod_m[mod_offset]`: R mod m stands for the power 0. */
  method StartingPower(ctx: BiCtx, ghost b: int) returns (biR: Bigint)
    requires ctx.Valid() && PowerReady(ctx) && InMontgomery(ctx)
    ensures biR in Powers(ctx) && biR.refs == PERMANENT && Running(ctx, biR, Base(b, false), 0)
  {
    hide Val, Weight, BiCtx.Valid;
    biR := ctx.biRModM[ctx.modOffset];
    CongruentMod(Factored(ctx), Modulus(ctx));
  }

  /** With conversion. */
  method MontgomeryPower(ctx: BiCtx, bi: Bigint, biexp: Bigint, thresh: nat) returns (r: Bigint)
    requires ctx.Valid() && PowerReady(ctx) && InMontgomery(ctx) && thresh >= 4
    requires bi in ctx.live && biexp in ctx.live && bi != biexp && biexp.Canonical()
    requires bi != ctx.biRRModM[ctx.modOffset] && bi.Value() < Factored(ctx)
    modifies ctx`freeList, ctx`freeCount, ctx`activeCount, ctx`live, ctx`free, ctx.free, bi, biexp
    modifies Powers(ctx), Touched(ctx)
    ensures ctx.Valid() && PowerReady(ctx) && Modulus(ctx) == old(Modulus(ctx))
    ensures r in ctx.live && r.refs == 1 && r.Canonical() && r.Value() < Modulus(ctx)
    ensures Congruent(r.Value(), Exp(old(bi.Value()), PowerExponent(old(biexp.Value()))), Modulus(ctx))
    ensures r !in old(ctx.live) - {bi} && (r in old(ctx.free) || fresh(r) || (r == bi && old(bi.refs) == 1))
    ensures old(ctx.live) - {bi, biexp} + {r} <= ctx.live
    ensures Kept(ctx, bi, old(bi.refs)) && Kept(ctx, biexp, old(biexp.refs))
    ensures old(bi.refs) != 1 ==> Digits(bi.buf) == old(Digits(bi.buf))
    ensures ctx.activeCount == old(ctx.activeCount) + 1 - Last(old(bi.refs)) - Last(old(biexp.refs))
    ensures fresh(ctx.free - old(ctx.free) - {bi, biexp})
    ensures PermanentKept(ctx)
  {
    hide Val, Weight, BiCtx.Valid, PowerReady, ReductionSet, ModulusSet, Touched, Powers, Modulus, Factored, Bound;
    hide Represents, PowerExponent, Exp;
    LiveNotFree(ctx);
    PowerReadyMeans(ctx);
    ghost var b, e := bi.Value(), biexp.Value();
    var base := FirstBase(ctx, bi);
    LiveNotFree(ctx);
    PowerReadyMeans(ctx);
    var p := ConvertedPower(ctx, base, biexp, thresh, b);
    LiveNotFree(ctx);
    PowerReadyMeans(ctx);
    r := ConvertBack(ctx, p, b, PowerExponent(e));
  }

  /** `bi_mont(ctx, biR)`: convert back. */
  method ConvertBack(ctx: BiCtx, p: Bigint, ghost b: int, ghost x: nat) returns (r: Bigint)
    requires ctx.Valid() && PowerReady(ctx) && InMontgomery(ctx) && p in ctx.live && p.refs == 1 && p.Canonical()
    requires p.Value() < Modulus(ctx) && Represents(p.Value(), b, x, Factored(ctx), Modulus(ctx))
    modifies ctx`freeList, ctx`freeCount, ctx`activeCount, ctx`live, ctx`free, ctx.free, p, Touched(ctx)
    ensures ctx.Valid() && PowerReady(ctx) && Modulus(ctx) == old(Modulus(ctx))
    ensures r == p && r.refs == 1 && r.Canonical() && r.Value() < Modulus(ctx)
    ensures Congruent(r.Value(), Exp(b, x), Modulus(ctx))
    ensures old(ctx.live) <= ctx.live && ctx.activeCount == old(ctx.activeCount)
    ensures fresh(ctx.free - old(ctx.free))
    ensures PermanentKept(ctx)
  {
    hide Val, Weight, BiCtx.Valid, NormalisedStored, MontgomerySet, BarrettSet, Represents, PowersOfR, Exp;
    ghost var v := p.Value();
    MulMonotone(1, Factored(ctx), Modulus(ctx));
    assert Modulus(ctx) * Factored(ctx) == Factored(ctx) * Modulus(ctx);
    r := MontBetween(ctx, p);
    ghost var inv := FactorInverse(ctx);
    ConvertedEnd(v, r.Value(), b, x, Factored(ctx), inv, Modulus(ctx));
  }

  /** The exponentiation between the two conversions, and the release of its operands. */
  method ConvertedPower(ctx: BiCtx, base: Bigint, biexp: Bigint, thresh: nat, ghost b: int) returns (r: Bigint)
    requires ctx.Valid() && PowerReady(ctx) && InMontgomery(ctx) && thresh >= 4
    requires base in ctx.live && base.refs == 1 && biexp in ctx.live && base != biexp && biexp.Canonical()
    requires base.Value() < Modulus(ctx) && Represents(base.Value(), b, 1, Factored(ctx), Modulus(ctx))
    modifies ctx`freeList, ctx`freeCount, ctx`activeCount, ctx`live, ctx`free, ctx.free, base`refs, biexp`refs
    modifies Powers(ctx), Touched(ctx)
    ensures ctx.Valid() && PowerReady(ctx) && Touched(ctx) == old(Touched(ctx)) && Powers(ctx) == old(Powers(ctx))
    ensures Modulus(ctx) == old(Modulus(ctx)) && Factored(ctx) == old(Factored(ctx))
    ensures r in ctx.live && r.refs == 1 && r.Canonical() && r.Value() < Modulus(ctx)
    ensures Represents(r.Value(), b, PowerExponent(old(biexp.Value())), Factored(ctx), Modulus(ctx))
    ensures r !in old(ctx.live) && (r in old(ctx.free) || fresh(r))
    ensures old(ctx.live) - {base, biexp} + {r} <= ctx.live
    ensures Kept(ctx, biexp, old(biexp.refs))
    ensures ctx.activeCount == old(ctx.activeCount) - Last(old(biexp.refs))
    ensures fresh(ctx.free - old(ctx.free) - {base, biexp})
    ensures PermanentKept(ctx)
  {
    hide Val, Weight, BiCtx.Valid, PowerReady, ReductionSet, ModulusSet, Touched, Powers, Modulus, Factored, Bound;
    hide Represents, PowerExponent, Exp;
    LiveNotFree(ctx);
    PowerReadyMeans(ctx);
    var biR := StartingPower(ctx, b);
    r := PowerBetween(ctx, base, biR, Digits(biexp.buf), thresh, Base(b, false));
    LiveNotFree(ctx);
    PowerReadyMeans(ctx);
    FreeOperands(ctx, base, biexp);
  }

  /** `bi_mod_power`: the power of bi modulo the current modulus. The exponent raised to is
      biexp, except for the even exponents described at `PowerExponent`. Classical and Montgomery
      reduction give the remainder itself, and so does Barrett reduction for a reduced base and a modulus
      as `BarrettExact` wants it and for any base with a modulus as `BarrettFull` wants it; otherwise it may
      leave up to two moduli too many. One reference of each operand is consumed. */
  method BiModPower(ctx: BiCtx, bi: Bigint, biexp: Bigint, thresh: nat) returns (r: Bigint)
    requires ctx.Valid() && PowerReady(ctx) && thresh >= 4
    requires bi in ctx.live && biexp in ctx.live && bi != biexp && biexp.Canonical()
    requires InMontgomery(ctx) ==> bi != ctx.biRRModM[ctx.modOffset] && bi.Value() < Factored(ctx)
    modifies ctx`freeList, ctx`freeCount, ctx`activeCount, ctx`live, ctx`free, ctx.free, bi, biexp
    modifies Powers(ctx), Touched(ctx)
    ensures ctx.Valid() && PowerReady(ctx) && Modulus(ctx) == old(Modulus(ctx))
    ensures r in ctx.live && r.refs == 1 && r.Canonical() && r.Value() < Bound(ctx, false)
    ensures Congruent(r.Value(), Exp(old(bi.Value()), PowerExponent(old(biexp.Value()))), Modulus(ctx))
    ensures ctx.reduction != Barrett || Tight(ctx, old(bi.Value())) ==>
      r.Value() == Exp(old(bi.Value()), PowerExponent(old(biexp.Value()))) % Modulus(ctx)
    ensures r !in old(ctx.live) - {bi} && (r in old(ctx.free) || fresh(r) || (r == bi && old(bi.refs) == 1))
    ensures old(ctx.live) - {bi, biexp} + {r} <= ctx.live
    ensures Kept(ctx, bi, old(bi.refs)) && Kept(ctx, biexp, old(biexp.refs))
    ensures old(bi.refs) != 1 ==> Digits(bi.buf) == old(Digits(bi.buf))
    ensures ctx.activeCount == old(ctx.activeCount) + 1 - Last(old(bi.refs)) - Last(old(biexp.refs))
    ensures fresh(ctx.free - old(ctx.free) - {bi, biexp})
    ensures PermanentKept(ctx)
  {
    hide Val, Weight, BiCtx.Valid, PowerReady, ReductionSet, ModulusSet, Touched, Powers, Modulus, Represents, Exp;
    hide PowerExponent;
    PowerReadyMeans(ctx);
    if ctx.reduction == Montgomery && !ctx.useClassical {
      r := MontgomeryPower(ctx, bi, biexp, thresh);
    } else {
      r := PlainPower(ctx, bi, biexp, thresh);
    }
    PowerReadyMeans(ctx);
    if ctx.reduction != Barrett || Tight(ctx, old(bi.Value())) {
      BelowIsRemainder(r.Value(), Exp(old(bi.Value()), PowerExponent(old(biexp.Value()))), Modulus(ctx));
    }
  }

  lemma BelowIsRemainder(r: int, x: int, m: int)
    requires m > 0 && 0 <= r < m && Congruent(r, x, m)
    ensures r == x % m
  {
    DivModUnique(r, m, 0, r);
  }
}
