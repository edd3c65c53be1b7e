/** `bi_set_mod` and `bi_free_mod`: the constants that the reductions rely on. */
module SetMod {
  import opened Radix
  import opened Comps
  import opened Modular
  import opened Bigints
  import opened Divide
  import opened Reductions
  import opened BarrettTheory
  import opened BarrettReduction
  import opened Residue
  import opened ModPower
  import opened ModularPower

  /** The modulus and its normalised form in the slot. */
  method InstallModulus(ctx: BiCtx, bim: Bigint, slot: nat)
    requires ctx.Valid() && bim in ctx.live && bim.refs == 1 && bim.Canonical() && bim.Value() > 0
    requires Factor(Digits(bim.buf)).Some?
    modifies ctx`biMod, ctx`biNormalisedMod, bim`refs
    modifies ctx`freeList, ctx`freeCount, ctx`activeCount, ctx`live, ctx`free, ctx.free
    ensures ctx.Valid() && ModulusAt(ctx, slot) && bim.refs == PERMANENT
    ensures ctx.biMod == old(ctx.biMod)[slot := bim] && slot in ctx.biNormalisedMod
    ensures ctx.biNormalisedMod == old(ctx.biNormalisedMod)[slot := ctx.biNormalisedMod[slot]]
    ensures ctx.biNormalisedMod[slot] !in old(ctx.live)
    ensures ctx.biNormalisedMod[slot] in old(ctx.free) || fresh(ctx.biNormalisedMod[slot])
    ensures old(ctx.live) <= ctx.live && ctx.free <= old(ctx.free) && ctx.activeCount == old(ctx.activeCount) + 1
    ensures SameElsewhere(ctx, slot)
  {
    hide Val, Weight, BiCtx.Valid, Factor;
    LiveNotFree(ctx);
    var norm := Normalise(ctx, bim);
    Store(ctx, bim, norm, slot);
  }

  /** Make the modulus permanent, and a permanent normalised copy of it. */
  method Normalise(ctx: BiCtx, bim: Bigint) returns (norm: Bigint)
    requires ctx.Valid() && bim in ctx.live && bim.refs == 1 && bim.Canonical() && Factor(Digits(bim.buf)).Some?
    modifies bim`refs, ctx`freeList, ctx`freeCount, ctx`activeCount, ctx`live, ctx`free, ctx.free
    ensures ctx.Valid() && bim.refs == PERMANENT && norm.refs == PERMANENT && norm.Canonical()
    ensures norm in ctx.live && norm !in old(ctx.live) && (norm in old(ctx.free) || fresh(norm))
    ensures norm.Value() == bim.Value() * Factor(Digits(bim.buf)).value
    ensures old(ctx.live) <= ctx.live && ctx.free <= old(ctx.free) && ctx.activeCount == old(ctx.activeCount) + 1
  {
    hide Val, Weight, BiCtx.Valid;
    LiveNotFree(ctx);
    var d := NormaliseFactor(bim.buf.comps[bim.buf.size - 1]).value;
    assert Factor(Digits(bim.buf)) == Some(d);
    ctx.Permanent(bim);
    norm := ctx.IntMultiply(bim, d);
    ctx.Permanent(norm);
  }

  method Store(ctx: BiCtx, bim: Bigint, norm: Bigint, slot: nat)
    requires ctx.Valid() && bim in ctx.live && norm in ctx.live && norm != bim
    requires bim.refs == PERMANENT && bim.Canonical() && bim.Value() > 0 && Factor(Digits(bim.buf)).Some?
    requires norm.refs == PERMANENT && norm.Canonical() && norm.Value() == bim.Value() * Factor(Digits(bim.buf)).value
    modifies ctx`biMod, ctx`biNormalisedMod
    ensures ctx.Valid() && ModulusAt(ctx, slot) && ctx.biMod == old(ctx.biMod)[slot := bim]
    ensures ctx.biNormalisedMod == old(ctx.biNormalisedMod)[slot := norm]
    ensures SameElsewhere(ctx, slot)
  {
    hide Val;
    UpdateElsewhere(ctx.biMod, slot, bim);
    UpdateElsewhere(ctx.biNormalisedMod, slot, norm);
    ctx.biMod, ctx.biNormalisedMod := ctx.biMod[slot := bim], ctx.biNormalisedMod[slot := norm];
  }

  /** Distinct permanent objects that were not in use before. */
  ghost predicate New(ctx: BiCtx, objects: seq<Bigint>, before: set<Bigint>)
    reads ctx, ctx.live
  {
    && Distinct(objects)
    && forall i :: 0 <= i < |objects| ==>
         objects[i] in ctx.live && objects[i] !in before && objects[i].refs == PERMANENT
  }

  /** The objects of a slot, in the order in which `bi_free_mod` releases them. */
  function SlotSeq(ctx: BiCtx, slot: nat): (s: seq<Bigint>)
    requires ReductionAt(ctx, slot)
    requires ctx.reduction == Montgomery ==> slot in ctx.biRRModM && slot in ctx.biRModM
    reads ctx, ctx.live
  {
    [ctx.biMod[slot]]
    + (match ctx.reduction
       case Classical => []
       case Montgomery => [ctx.biRRModM[slot], ctx.biRModM[slot]]
       case Barrett => [ctx.biMu[slot]])
    + [ctx.biNormalisedMod[slot]]
  }

  /** `comp_left_shift(bi_clone(ctx, ctx->bi_radix), n - 1)`: the power n of the radix. */
  method PowerOfRadix(ctx: BiCtx, n: nat) returns (r: Bigint)
    requires ctx.Valid() && ctx.RadixReady() && n >= 1
    modifies ctx`freeList, ctx`freeCount, ctx`activeCount, ctx`live, ctx`free, ctx.free
    ensures ctx.Valid() && r.refs == 1 && r.Canonical() && r.Value() == Weight(n) && r.buf.size == n + 1
    ensures r !in old(ctx.live) && (r in old(ctx.free) || fresh(r))
    ensures old(ctx.live) + {r} <= ctx.live && ctx.free <= old(ctx.free)
    ensures ctx.activeCount == old(ctx.activeCount) + 1
  {
    hide Val, Weight, BiCtx.Valid;
    LiveNotFree(ctx);
    r := ctx.Clone(ctx.biRadix);
    var shifted := LeftShift(r.buf, n - 1);
    assert |Digits(shifted)| == n + 1 && Digits(shifted)[n] == 1;
    RadixValue(n);
    r.buf := shifted;
  }

  lemma RadixValue(n: nat)
    requires n >= 1
    ensures Val([0, 1]) * Weight(n - 1) == Weight(n)
  {
    ValSnoc([0], 1);
    ValOne(0);
    assert [0] + [1] == [0, 1];
    WeightNext(0);
    WeightNext(n - 1);
  }

  // ---- Montgomery ----

  /** A power of the radix reduced by the current modulus, as a permanent object. */
  method RadixPowerMod(ctx: BiCtx, n: nat) returns (r: Bigint)
    requires ctx.Valid() && ctx.RadixReady() && ModulusSet(ctx) && n >= 1
    modifies ctx`freeList, ctx`freeCount, ctx`activeCount, ctx`live, ctx`free, ctx.free, Slot(ctx)
    ensures ctx.Valid() && ModulusSet(ctx) && Modulus(ctx) == old(Modulus(ctx))
    ensures r in ctx.live && r.refs == PERMANENT && r.Value() == Weight(n) % Modulus(ctx)
    ensures r !in old(ctx.live) && (r in old(ctx.free) || fresh(r))
    ensures old(ctx.live) <= ctx.live && fresh(ctx.free - old(ctx.free)) && ctx.activeCount == old(ctx.activeCount) + 1
    ensures PermanentKept(ctx)
  {
    hide Val, Weight, BiCtx.Valid, NormalisedAt;
    LiveNotFree(ctx);
    SlotPermanent(ctx);
    var power := PowerBetweenMods(ctx, n);
    LiveNotFree(ctx);
    var rest := BiMod(ctx, power);
    LiveNotFree(ctx);
    PermanentBetweenMods(ctx, rest);
    r := rest;
  }

  lemma SlotPermanent(ctx: BiCtx)
    requires ModulusSet(ctx)
    ensures forall o :: o in Slot(ctx) ==> o in ctx.live && o.refs == PERMANENT
  {
  }

  /** Operations that leave permanent objects alone leave every modulus in place. */
  twostate lemma ModulusKept(ctx: BiCtx)
    requires ctx.biMod == old(ctx.biMod) && ctx.biNormalisedMod == old(ctx.biNormalisedMod)
    requires PermanentKept(ctx)
    ensures forall slot :: old(ModulusAt(ctx, slot)) ==>
      ModulusAt(ctx, slot) && Digits(ctx.biMod[slot].buf) == old(Digits(ctx.biMod[slot].buf))
  {
    hide Val;
  }

  method PowerBetweenMods(ctx: BiCtx, n: nat) returns (r: Bigint)
    requires ctx.Valid() && ctx.RadixReady() && ModulusSet(ctx) && n >= 1
    modifies ctx`freeList, ctx`freeCount, ctx`activeCount, ctx`live, ctx`free, ctx.free
    ensures ctx.Valid() && ModulusSet(ctx) && Modulus(ctx) == old(Modulus(ctx))
    ensures r.refs == 1 && r.Canonical() && r.Value() == Weight(n)
    ensures r !in old(ctx.live) && (r in old(ctx.free) || fresh(r))
    ensures old(ctx.live) + {r} <= ctx.live && ctx.free <= old(ctx.free)
    ensures ctx.activeCount == old(ctx.activeCount) + 1
  {
    hide Val, Weight, BiCtx.Valid, NormalisedAt;
    LiveNotFree(ctx);
    r := PowerOfRadix(ctx, n);
    ModulusKept(ctx);
  }

  method PermanentBetweenMods(ctx: BiCtx, x: Bigint)
    requires ctx.Valid() && ModulusSet(ctx) && x in ctx.live && x.refs == 1
    modifies x`refs
    ensures ctx.Valid() && x.refs == PERMANENT && ModulusSet(ctx) && Modulus(ctx) == old(Modulus(ctx))
  {
    hide Val, Weight, BiCtx.Valid, NormalisedAt;
    ctx.Permanent(x);
    ModulusKept(ctx);
  }

  /** The powers of R stored for a slot are reduced by the current modulus. */
  ghost predicate ReducedPowers(ctx: BiCtx, slot: nat)
    reads ctx, ctx.live
  {
    && ModulusSet(ctx) && ModulusAt(ctx, slot) && slot in ctx.biRRModM && slot in ctx.biRModM
    && ctx.biRRModM[slot] in ctx.live && ctx.biRModM[slot] in ctx.live
    && var w := Weight(ctx.biMod[slot].buf.size);
       ctx.biRRModM[slot].Value() == (w * w) % Modulus(ctx) && ctx.biRModM[slot].Value() == w % Modulus(ctx)
  }

  /** For a prime p of the current modulus n a power of R is right exactly when its remainder by n happens
      to be below p. */
  lemma PowersOfPrime(w: nat, n: nat, p: nat)
    requires n > 0 && p > 0 && n % p == 0
    ensures w % n == w % p <==> w % n < p
  {
    CongruentMod(w, n);
    CongruentMod(w, p);
    var k := ToMultiple(w % n, w, n);
    var l := n / p;
    assert n == l * p;
    assert w % n == w + k * l * p by { assert k * (l * p) == k * l * p; }
    FromMultiple(w % n, w, k * l, p);
    if w % n < p { CongruentUnique(w % n, w % p, p); }
  }

  /** With n = 35 and p = 5 it is not. */
  lemma PowersOfPrimeDiffer()
    ensures Weight(1) % 35 == 11 && Weight(1) % 5 == 1
  {
    assert Weight(1) == RADIX * Weight(0);
  }

  method StorePowers(ctx: BiCtx, slot: nat, rr: Bigint, r: Bigint, n0: Comp)
    requires ctx.Valid() && ModulusAt(ctx, slot)
    modifies ctx`biRRModM, ctx`biRModM, ctx`n0Dash
    ensures ctx.Valid() && ModulusAt(ctx, slot) && (old(ModulusSet(ctx)) ==> ModulusSet(ctx))
    ensures ctx.biRRModM == old(ctx.biRRModM)[slot := rr] && ctx.biRModM == old(ctx.biRModM)[slot := r]
    ensures ctx.n0Dash == old(ctx.n0Dash)[slot := n0]
  {
    hide Val;
    ctx.biRRModM, ctx.biRModM, ctx.n0Dash := ctx.biRRModM[slot := rr], ctx.biRModM[slot := r], ctx.n0Dash[slot := n0];
  }

  /** n0 for an odd modulus. */
  method Inverse0(m: seq<Comp>) returns (n0: Comp)
    requires |m| >= 1 && Val(m) % 2 == 1
    ensures ((Val(m) % RADIX) * n0 + 1) % RADIX == 0
  {
    hide Val, Weight;
    LowDigit(m);
    assert m[0] % 2 == 1 by { OddDigit(Val(m)); }
    n0 := ModularInverse(m[0]);
  }

  lemma OddDigit(v: nat)
    requires v % 2 == 1
    ensures (v % RADIX) % 2 == 1
  {
  }

  /** The Montgomery part of `bi_set_mod`. The two powers of R are reduced by the modulus of the
      current slot, whatever slot is being set. */
  method MontgomeryConstants(ctx: BiCtx, slot: nat)
    requires ctx.Valid() && ctx.RadixReady() && ModulusAt(ctx, slot) && ModulusSet(ctx)
    requires ctx.biMod[slot].Value() % 2 == 1
    modifies ctx`freeList, ctx`freeCount, ctx`activeCount, ctx`live, ctx`free, ctx.free, Slot(ctx)
    modifies ctx`biRRModM, ctx`biRModM, ctx`n0Dash
    ensures ctx.Valid() && MontgomeryAt(ctx, slot) && slot in ctx.biRRModM && slot in ctx.biRModM
    ensures ReducedPowers(ctx, slot) && (slot == ctx.modOffset ==> PowersOfR(ctx))
    ensures New(ctx, [ctx.biRRModM[slot], ctx.biRModM[slot]], old(ctx.live))
    ensures ctx.biRRModM[slot] in old(ctx.free) || fresh(ctx.biRRModM[slot])
    ensures ctx.biRModM[slot] in old(ctx.free) || fresh(ctx.biRModM[slot])
    ensures ctx.biRRModM == old(ctx.biRRModM)[slot := ctx.biRRModM[slot]]
    ensures ctx.biRModM == old(ctx.biRModM)[slot := ctx.biRModM[slot]]
    ensures ctx.n0Dash == old(ctx.n0Dash)[slot := ctx.n0Dash[slot]]
    ensures old(ctx.live) <= ctx.live && fresh(ctx.free - old(ctx.free)) && ctx.activeCount == old(ctx.activeCount) + 2
    ensures PermanentKept(ctx)
  {
    hide Val, Weight, BiCtx.Valid, NormalisedAt, New, Factor;
    LiveNotFree(ctx);
    SlotPermanent(ctx);
    var k := ctx.biMod[slot].buf.size;
    var rr, r := BothPowers(ctx, k);
    ModulusKept(ctx);
    var n0 := Inverse0(Digits(ctx.biMod[slot].buf));
    StorePowers(ctx, slot, rr, r, n0);
    TwoNew(ctx, rr, r, old(ctx.live));
    assert |Digits(ctx.biMod[slot].buf)| == k;
  }

  lemma TwoNew(ctx: BiCtx, x: Bigint, y: Bigint, before: set<Bigint>)
    requires x in ctx.live && x !in before && x.refs == PERMANENT && x != y
    requires y in ctx.live && y !in before && y.refs == PERMANENT
    ensures New(ctx, [x, y], before)
  {
  }

  /** R^2 mod m and R mod m. */
  method BothPowers(ctx: BiCtx, k: nat) returns (rr: Bigint, r: Bigint)
    requires ctx.Valid() && ctx.RadixReady() && ModulusSet(ctx) && k >= 1
    modifies ctx`freeList, ctx`freeCount, ctx`activeCount, ctx`live, ctx`free, ctx.free, Slot(ctx)
    ensures ctx.Valid() && ModulusSet(ctx) && Modulus(ctx) == old(Modulus(ctx))
    ensures rr in ctx.live && rr.refs == PERMANENT && rr.Value() == (Weight(k) * Weight(k)) % Modulus(ctx)
    ensures r in ctx.live && r.refs == PERMANENT && r.Value() == Weight(k) % Modulus(ctx)
    ensures rr !in old(ctx.live) && r !in old(ctx.live) && rr != r
    ensures (rr in old(ctx.free) || fresh(rr)) && (r in old(ctx.free) || fresh(r))
    ensures old(ctx.live) <= ctx.live && fresh(ctx.free - old(ctx.free)) && ctx.activeCount == old(ctx.activeCount) + 2
    ensures PermanentKept(ctx)
  {
    hide Val, Weight, BiCtx.Valid, ModulusSet, Modulus;
    LiveNotFree(ctx);
    SlotPermanent(ctx);
    rr := RadixPowerMod(ctx, 2 * k);
    LiveNotFree(ctx);
    r := RadixPowerMod(ctx, k);
    WeightAdd(k, k);
    assert k + k == 2 * k;
  }

  // ---- Barrett ----

  /** The Barrett part: mu, the quotient of radix^2k by the modulus. */
  method BarrettConstant(ctx: BiCtx, slot: nat)
    requires ctx.Valid() && ctx.RadixReady() && ModulusAt(ctx, slot) && ctx.biMod[slot].buf.size <= 0x7FFF
    modifies ctx`freeList, ctx`freeCount, ctx`activeCount, ctx`live, ctx`free, ctx.free, ctx.biMod[slot], ctx`biMu
    ensures ctx.Valid() && BarrettAt(ctx, slot) && ctx.biMu == old(ctx.biMu)[slot := ctx.biMu[slot]]
    ensures New(ctx, [ctx.biMu[slot]], old(ctx.live)) && (ctx.biMu[slot] in old(ctx.free) || fresh(ctx.biMu[slot]))
    ensures old(ctx.live) <= ctx.live && fresh(ctx.free - old(ctx.free)) && ctx.activeCount == old(ctx.activeCount) + 1
    ensures PermanentKept(ctx)
  {
    hide Val, Weight, BiCtx.Valid, NormalisedAt;
    LiveNotFree(ctx);
    var bim := ctx.biMod[slot];
    ModulusObject(ctx, slot);
    var mu := RadixQuotient(ctx, bim);
    assert |Digits(bim.buf)| == bim.buf.size;
    ctx.Permanent(mu);
    ModulusKept(ctx);
    StoreMu(ctx, slot, mu);
    ModulusObject(ctx, slot);
  }

  /** `bi_divide(ctx, radix^2k, bim, 0)` for a permanent bim of k components. */
  method RadixQuotient(ctx: BiCtx, bim: Bigint) returns (mu: Bigint)
    requires ctx.Valid() && ctx.RadixReady() && bim in ctx.live && bim.refs == PERMANENT && bim.Canonical()
    requires bim.Value() > 0 && Factor(Digits(bim.buf)).Some?
    modifies ctx`freeList, ctx`freeCount, ctx`activeCount, ctx`live, ctx`free, ctx.free, bim
    ensures ctx.Valid() && mu in ctx.live && mu.refs == 1 && mu.Canonical() && mu !in old(ctx.live)
    ensures bim.Value() == old(bim.Value()) && mu.Value() == Weight(2 * old(bim.buf.size)) / old(bim.Value())
    ensures mu in old(ctx.free) || fresh(mu)
    ensures old(ctx.live) <= ctx.live && fresh(ctx.free - old(ctx.free)) && ctx.activeCount == old(ctx.activeCount) + 1
    ensures PermanentKept(ctx)
  {
    hide Val, Weight, BiCtx.Valid;
    LiveNotFree(ctx);
    var power := PowerOfRadix(ctx, 2 * bim.buf.size);
    LiveNotFree(ctx);
    mu := BiDivide(ctx, power, bim, false);
    LiveNotFree(ctx);
  }

  lemma ModulusObject(ctx: BiCtx, slot: nat)
    requires ModulusAt(ctx, slot)
    ensures ctx.biMod[slot].refs == PERMANENT && Factor(Digits(ctx.biMod[slot].buf)).Some?
    ensures slot in ctx.biNormalisedMod && ctx.biNormalisedMod[slot] in ctx.live
  {
  }

  method StoreMu(ctx: BiCtx, slot: nat, mu: Bigint)
    requires ctx.Valid() && ModulusAt(ctx, slot)
    modifies ctx`biMu
    ensures ctx.Valid() && ctx.biMu == old(ctx.biMu)[slot := mu] && ModulusAt(ctx, slot)
  {
    hide Val;
    ctx.biMu := ctx.biMu[slot := mu];
  }

  // ---- the whole ----

  /** The constants of a slot are the objects they were. */
  twostate predicate SameSlot(ctx: BiCtx, slot: nat)
    reads ctx
  {
    && (slot in old(ctx.biMod) ==> slot in ctx.biMod && ctx.biMod[slot] == old(ctx.biMod[slot]))
    && (slot in old(ctx.biNormalisedMod) ==>
        slot in ctx.biNormalisedMod && ctx.biNormalisedMod[slot] == old(ctx.biNormalisedMod[slot]))
    && (slot in old(ctx.n0Dash) ==> slot in ctx.n0Dash && ctx.n0Dash[slot] == old(ctx.n0Dash[slot]))
    && (slot in old(ctx.biMu) ==> slot in ctx.biMu && ctx.biMu[slot] == old(ctx.biMu[slot]))
    && (slot in old(ctx.biRRModM) ==> slot in ctx.biRRModM && ctx.biRRModM[slot] == old(ctx.biRRModM[slot]))
    && (slot in old(ctx.biRModM) ==> slot in ctx.biRModM && ctx.biRModM[slot] == old(ctx.biRModM[slot]))
  }

  /** Nothing has changed outside one slot. */
  twostate predicate SameElsewhere(ctx: BiCtx, slot: nat)
    reads ctx
  {
    && ctx.biMod - {slot} == old(ctx.biMod) - {slot}
    && ctx.biNormalisedMod - {slot} == old(ctx.biNormalisedMod) - {slot}
    && ctx.n0Dash - {slot} == old(ctx.n0Dash) - {slot} && ctx.biMu - {slot} == old(ctx.biMu) - {slot}
    && ctx.biRRModM - {slot} == old(ctx.biRRModM) - {slot} && ctx.biRModM - {slot} == old(ctx.biRModM) - {slot}
  }

  twostate lemma ElsewhereSame(ctx: BiCtx)
    ensures forall slot, other :: SameElsewhere(ctx, slot) && other != slot ==> SameSlot(ctx, other)
  {
    forall slot, other | SameElsewhere(ctx, slot) && other != slot
      ensures SameSlot(ctx, other)
    {
      EntryElsewhere(old(ctx.biMod), ctx.biMod, slot, other);
      EntryElsewhere(old(ctx.biNormalisedMod), ctx.biNormalisedMod, slot, other);
      EntryElsewhere(old(ctx.n0Dash), ctx.n0Dash, slot, other);
      EntryElsewhere(old(ctx.biMu), ctx.biMu, slot, other);
      EntryElsewhere(old(ctx.biRRModM), ctx.biRRModM, slot, other);
      EntryElsewhere(old(ctx.biRModM), ctx.biRModM, slot, other);
    }
  }

  lemma UpdateElsewhere<T>(m: map<nat, T>, slot: nat, x: T)
    ensures m[slot := x] - {slot} == m - {slot}
  {
  }

  lemma EntryElsewhere<T>(m: map<nat, T>, m': map<nat, T>, slot: nat, other: nat)
    requires m' - {slot} == m - {slot} && other != slot
    ensures other in m ==> other in m' && m'[other] == m[other]
  {
    assert other in m ==> other in m - {slot};
  }

  twostate lemma SameMaps(ctx: BiCtx)
    requires ctx.biMod == old(ctx.biMod) && ctx.biNormalisedMod == old(ctx.biNormalisedMod)
    requires ctx.n0Dash == old(ctx.n0Dash) && ctx.biMu == old(ctx.biMu)
    requires ctx.biRRModM == old(ctx.biRRModM) && ctx.biRModM == old(ctx.biRModM)
    ensures forall s :: SameSlot(ctx, s)
  {
  }

  twostate lemma SlotSeqKept(ctx: BiCtx)
    requires ctx.biMod == old(ctx.biMod) && ctx.biNormalisedMod == old(ctx.biNormalisedMod)
    requires ctx.biMu == old(ctx.biMu) && ctx.biRRModM == old(ctx.biRRModM) && ctx.biRModM == old(ctx.biRModM)
    ensures forall s :: old(ReductionAt(ctx, s)) && ReductionAt(ctx, s) ==>
      (ctx.reduction == Montgomery ==> s in ctx.biRRModM && s in ctx.biRModM) ==>
        SlotSeq(ctx, s) == old(SlotSeq(ctx, s))
  {
    hide ReductionAt;
  }

  /** Filling one slot leaves the others in place. */
  twostate lemma SlotsKept(ctx: BiCtx)
    requires PermanentKept(ctx)
    ensures forall s :: SameSlot(ctx, s) && old(ModulusAt(ctx, s)) ==> ModulusAt(ctx, s)
    ensures forall s :: SameSlot(ctx, s) && old(ReductionAt(ctx, s)) ==>
      ReductionAt(ctx, s) && s in old(ctx.biMod) && s in ctx.biMod && ctx.biMod[s] == old(ctx.biMod[s])
    ensures forall s :: SameSlot(ctx, s) && old(ModulusAt(ctx, s) && PowersAt(ctx, s)) ==>
      ModulusAt(ctx, s) && PowersAt(ctx, s)
  {
    hide Val, Weight, IsQuotient;
    forall s | SameSlot(ctx, s) && old(ModulusAt(ctx, s) && PowersAt(ctx, s))
      ensures ModulusAt(ctx, s) && PowersAt(ctx, s)
    {
      assert |Digits(ctx.biMod[s].buf)| == ctx.biMod[s].buf.size;
      assert old(|Digits(ctx.biMod[s].buf)| == ctx.biMod[s].buf.size);
    }
    forall s | SameSlot(ctx, s) && old(ReductionAt(ctx, s))
      ensures ReductionAt(ctx, s)
    {
      assert |Digits(ctx.biMod[s].buf)| == ctx.biMod[s].buf.size;
      assert old(|Digits(ctx.biMod[s].buf)| == ctx.biMod[s].buf.size);
    }
  }

  /** How many objects the constants of a modulus take. */
  function Constants(reduction: Reduction): (n: nat)
  {
    match reduction
    case Classical => 1
    case Montgomery => 3
    case Barrett => 2
  }

  /** The part of `bi_set_mod` that depends on the configuration. */
  method InstallConstants(ctx: BiCtx, slot: nat)
    requires ctx.Valid() && ctx.RadixReady() && ModulusAt(ctx, slot)
    requires ctx.reduction == Montgomery ==> ctx.biMod[slot].Value() % 2 == 1 && ModulusSet(ctx)
    requires ctx.reduction == Barrett ==> ctx.biMod[slot].buf.size <= 0x7FFF
    modifies ctx`freeList, ctx`freeCount, ctx`activeCount, ctx`live, ctx`free, ctx.free, ctx.biMod[slot], Slot(ctx)
    modifies ctx`biRRModM, ctx`biRModM, ctx`n0Dash, ctx`biMu
    ensures ctx.Valid() && ReductionAt(ctx, slot)
    ensures ctx.reduction == Montgomery && slot == ctx.modOffset ==> PowersOfR(ctx)
    ensures ctx.reduction == Montgomery ==> ReducedPowers(ctx, slot)
    ensures ctx.reduction == Montgomery ==>
      slot in ctx.biRRModM && slot in ctx.biRModM && New(ctx, [ctx.biRRModM[slot], ctx.biRModM[slot]], old(ctx.live))
    ensures ctx.reduction == Barrett ==> New(ctx, [ctx.biMu[slot]], old(ctx.live))
    ensures forall o :: o in SlotSeq(ctx, slot) && o != ctx.biMod[slot] && o != ctx.biNormalisedMod[slot] ==>
      o in old(ctx.free) || fresh(o)
    ensures old(ctx.live) <= ctx.live && fresh(ctx.free - old(ctx.free))
    ensures ctx.activeCount == old(ctx.activeCount) + Constants(ctx.reduction) - 1
    ensures PermanentKept(ctx)
    ensures SameElsewhere(ctx, slot)
  {
    hide Val, Weight, BiCtx.Valid, NormalisedAt, IsQuotient;
    match ctx.reduction {
      case Classical =>
      case Montgomery =>
        MontgomeryConstants(ctx, slot);
        UpdateElsewhere(old(ctx.biRRModM), slot, ctx.biRRModM[slot]);
        UpdateElsewhere(old(ctx.biRModM), slot, ctx.biRModM[slot]);
        UpdateElsewhere(old(ctx.n0Dash), slot, ctx.n0Dash[slot]);
      case Barrett =>
        BarrettConstant(ctx, slot);
        UpdateElsewhere(old(ctx.biMu), slot, ctx.biMu[slot]);
    }
  }

  /** The objects of a slot are new and distinct when each part of them is. */
  lemma SlotSeqNew(ctx: BiCtx, slot: nat, before: set<Bigint>, middle: set<Bigint>)
    requires ReductionAt(ctx, slot) && before <= middle
    requires ctx.biMod[slot] in middle && ctx.biNormalisedMod[slot] in middle
    requires ctx.biMod[slot] !in before && ctx.biNormalisedMod[slot] !in before
    requires ctx.reduction == Montgomery ==>
      slot in ctx.biRRModM && slot in ctx.biRModM && New(ctx, [ctx.biRRModM[slot], ctx.biRModM[slot]], middle)
    requires ctx.reduction == Barrett ==> New(ctx, [ctx.biMu[slot]], middle)
    ensures New(ctx, SlotSeq(ctx, slot), before) && |SlotSeq(ctx, slot)| == 1 + Constants(ctx.reduction)
  {
    hide Val, Weight, IsQuotient;
    var s := SlotSeq(ctx, slot);
    match ctx.reduction {
      case Classical =>
        assert s == [ctx.biMod[slot], ctx.biNormalisedMod[slot]];
      case Montgomery =>
        var pair := [ctx.biRRModM[slot], ctx.biRModM[slot]];
        assert pair[0] !in middle && pair[1] !in middle;
        assert s == [ctx.biMod[slot], pair[0], pair[1], ctx.biNormalisedMod[slot]];
      case Barrett =>
        var one := [ctx.biMu[slot]];
        assert one[0] !in middle;
        assert s == [ctx.biMod[slot], one[0], ctx.biNormalisedMod[slot]];
    }
  }

  /** `bi_set_mod`: everything that `bi_residue` and `bi_mod_power` need is in place for the slot. In
      the Montgomery configuration the current modulus must already be set when another slot is
      filled, and the powers of R are right only for the current slot. */
  method BiSetMod(ctx: BiCtx, bim: Bigint, slot: nat)
    requires ctx.Valid() && ctx.RadixReady() && bim in ctx.live && bim.refs == 1 && bim.Canonical() && bim.Value() > 0
    requires Factor(Digits(bim.buf)).Some?
    requires ctx.reduction == Montgomery ==> bim.Value() % 2 == 1 && (slot == ctx.modOffset || ModulusSet(ctx))
    requires ctx.reduction == Barrett ==> bim.buf.size <= 0x7FFF
    modifies ctx`freeList, ctx`freeCount, ctx`activeCount, ctx`live, ctx`free, ctx.free, bim, Slot(ctx)
    modifies ctx`biMod, ctx`biNormalisedMod, ctx`biRRModM, ctx`biRModM, ctx`n0Dash, ctx`biMu
    ensures ctx.Valid() && ReductionAt(ctx, slot) && ctx.biMod[slot] == bim && bim.Value() == old(bim.Value())
    ensures ctx.reduction == Montgomery && slot == ctx.modOffset ==> PowersOfR(ctx)
    ensures ctx.reduction == Montgomery ==> slot in ctx.biRRModM && slot in ctx.biRModM && ReducedPowers(ctx, slot)
    ensures New(ctx, SlotSeq(ctx, slot), old(ctx.live) - {bim}) && |SlotSeq(ctx, slot)| == 1 + Constants(ctx.reduction)
    ensures forall o :: o in SlotSeq(ctx, slot) ==> o == bim || o in old(ctx.free) || fresh(o)
    ensures old(ctx.live) <= ctx.live && fresh(ctx.free - old(ctx.free))
    ensures ctx.activeCount == old(ctx.activeCount) + Constants(ctx.reduction)
    ensures PermanentKept(ctx)
    ensures forall other :: other != slot ==> SameSlot(ctx, other)
    ensures forall other :: other != slot && old(ReductionAt(ctx, other)) ==>
      ReductionAt(ctx, other) && ctx.biMod[other] == old(ctx.biMod[other])
    ensures forall other :: other != slot && old(ModulusAt(ctx, other) && PowersAt(ctx, other)) ==>
      ModulusAt(ctx, other) && PowersAt(ctx, other)
  {
    hide Val, Weight, BiCtx.Valid, ReductionAt, PowersOfR, PowersAt, ReducedPowers, Factor, New, SlotSeq, Constants;
    hide NormalisedAt, ModulusAt, SameSlot;
    LiveNotFree(ctx);
    if ctx.reduction == Montgomery && slot != ctx.modOffset { SlotPermanent(ctx); }
    InstallModulus(ctx, bim, slot);
    SlotsKept(ctx);
    ElsewhereSame(ctx);
    LiveNotFree(ctx);
    ModulusObject(ctx, slot);
    ghost var middle := ctx.live;
    label installed:
    InstallConstants(ctx, slot);
    SlotSeqNew(ctx, slot, old(ctx.live) - {bim}, middle);
    SlotsKept(ctx);
    assert SameElsewhere(ctx, slot);
    ElsewhereSame(ctx);
    forall o | o in ctx.free && o !in old(ctx.free)
      ensures fresh(o)
    {
      assert !old@installed(allocated(o));
    }
    forall o | o in SlotSeq(ctx, slot) && o != bim && o !in old(ctx.free)
      ensures fresh(o)
    {
      assert o == ctx.biNormalisedMod[slot] || !old@installed(allocated(o));
    }
  }
}
