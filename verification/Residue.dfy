/** `bi_residue`: whichever reduction the library is configured for, under one contract. */
module Residue {
  import opened Radix
  import opened Comps
  import opened Modular
  import opened Bigints
  import opened Reductions
  import opened BarrettTheory
  import opened BarrettReduction

  /** Montgomery reduction is in force. */
  ghost predicate InMontgomery(ctx: BiCtx)
    reads ctx
  {
    ctx.reduction == Montgomery && !ctx.useClassical
  }

  /** The constants of the configured reduction are in place for a modulus slot. */
  ghost predicate ReductionAt(ctx: BiCtx, slot: nat)
    reads ctx, ctx.live
  {
    && ModulusAt(ctx, slot)
    && (ctx.reduction == Montgomery ==> MontgomeryAt(ctx, slot))
    && (ctx.reduction == Barrett ==> BarrettAt(ctx, slot))
  }

  /** The constants of the configured reduction are in place for the current modulus. */
  ghost predicate ReductionSet(ctx: BiCtx)
    reads ctx, ctx.live
  {
    && ModulusSet(ctx)
    && (ctx.reduction == Montgomery ==> MontgomerySet(ctx))
    && (ctx.reduction == Barrett ==> BarrettSet(ctx))
  }

  lemma ReductionAtCurrent(ctx: BiCtx)
    ensures ReductionAt(ctx, ctx.modOffset) <==> ReductionSet(ctx)
  {
  }

  /** The permanent objects a reduction may borrow. */
  ghost function Touched(ctx: BiCtx): (s: set<Bigint>)
    reads ctx
  {
    Slot(ctx) + if ctx.reduction == Barrett && ctx.modOffset in ctx.biMu then {ctx.biMu[ctx.modOffset]} else {}
  }

  lemma TouchedPermanent(ctx: BiCtx)
    requires ReductionSet(ctx)
    ensures forall o :: o in Touched(ctx) ==> o in ctx.live && o.refs == PERMANENT
  {
  }

  lemma ReductionMeans(ctx: BiCtx)
    requires ReductionSet(ctx)
    ensures ModulusSet(ctx)
    ensures forall o :: o in Touched(ctx) ==> o in ctx.live && o.refs == PERMANENT
  {
  }

  /** The factor that `bi_residue` divides out: R in Montgomery form, otherwise 1. */
  ghost function Factored(ctx: BiCtx): (f: nat)
    requires ModulusSet(ctx)
    reads ctx, ctx.live
    ensures f >= 1
  {
    if InMontgomery(ctx) then Weight(ctx.biMod[ctx.modOffset].buf.size) else 1
  }

  /** The bound on what `bi_residue` returns: tight when its argument is known to be one for which every
      configured reduction gives the remainder itself. */
  ghost function Bound(ctx: BiCtx, tight: bool): (b: nat)
    requires ModulusSet(ctx)
    reads ctx, ctx.live
  {
    if ctx.reduction == Barrett && !tight then 3 * Modulus(ctx) else Modulus(ctx)
  }

  /** The modulus, the factor divided out and the borrowed objects are what they were. */
  twostate predicate SameReduction(ctx: BiCtx)
    reads ctx, ctx.live
  {
    && old(ModulusSet(ctx)) && ModulusSet(ctx) && Modulus(ctx) == old(Modulus(ctx))
    && Factored(ctx) == old(Factored(ctx)) && Touched(ctx) == old(Touched(ctx))
  }

  /** r is a residue of x under the configured reduction. */
  ghost predicate IsResidue(r: int, x: int, f: int, m: int)
  {
    m > 0 && Congruent(r * f, x, m)
  }

  /** Operations that leave the borrowed objects alone leave the reduction in place. */
  twostate lemma ReductionKept(ctx: BiCtx)
    requires old(ReductionSet(ctx)) && ctx.modOffset == old(ctx.modOffset) && ctx.useClassical == old(ctx.useClassical)
    requires ctx.biMod == old(ctx.biMod) && ctx.biNormalisedMod == old(ctx.biNormalisedMod)
    requires ctx.biMu == old(ctx.biMu) && ctx.n0Dash == old(ctx.n0Dash)
    requires forall o :: o in old(Touched(ctx)) ==>
      o in ctx.live && o.refs == PERMANENT && Digits(o.buf) == old(Digits(o.buf))
    ensures ReductionSet(ctx) && Modulus(ctx) == old(Modulus(ctx)) && Factored(ctx) == old(Factored(ctx))
    ensures Touched(ctx) == old(Touched(ctx))
  {
    hide Val, Weight, IsQuotient;
    assert |Digits(ctx.biMod[ctx.modOffset].buf)| == ctx.biMod[ctx.modOffset].buf.size;
    assert old(|Digits(ctx.biMod[ctx.modOffset].buf)| == ctx.biMod[ctx.modOffset].buf.size);
  }

  method BiResidue(ctx: BiCtx, x: Bigint) returns (r: Bigint)
    requires ctx.Valid() && ReductionSet(ctx) && x in ctx.live && x.refs == 1 && x.Canonical()
    requires InMontgomery(ctx) ==> x.Value() < Modulus(ctx) * Factored(ctx)
    modifies ctx`freeList, ctx`freeCount, ctx`activeCount, ctx`live, ctx`free, ctx.free, x, Touched(ctx)
    ensures ctx.Valid() && ReductionSet(ctx)
    ensures SameReduction(ctx)
    ensures r.Canonical() && r.refs == 1 && r.Value() < Bound(ctx, false)
    ensures ctx.reduction == Barrett && ExactFor(Modulus(ctx), old(x.Value())) ==> r.Value() < Modulus(ctx)
    ensures IsResidue(r.Value(), old(x.Value()), Factored(ctx), Modulus(ctx))
    ensures r == x || (r !in old(ctx.live) && (r in old(ctx.free) || fresh(r)))
    ensures old(ctx.live) - {x} + {r} <= ctx.live && ctx.activeCount == old(ctx.activeCount)
    ensures fresh(ctx.free - old(ctx.free) - {x})
    ensures PermanentKept(ctx)
  {
    hide Val, Weight, BiCtx.Valid, ExactFor, ModulusAt, MontgomeryAt, BarrettAt;
    ghost var v, m := x.Value(), Modulus(ctx);
    TouchedPermanent(ctx);
    CongruentMod(v, m);
    match ctx.reduction {
      case Classical => r := BiMod(ctx, x);
      case Montgomery =>
        if ctx.useClassical {
          r := BiMod(ctx, x);
        } else {
          r := BiMont(ctx, x);
        }
      case Barrett => r := BiBarrett(ctx, x);
    }
    ReductionKept(ctx);
  }
}
