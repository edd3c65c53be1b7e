/** `bi_crt`: the RSA private operation by the Chinese Remainder Theorem (RSADP, section 5.1.2 of
    RFC 8017). */
module Crt {
  import opened Radix
  import opened Comps
  import opened Modular
  import opened Exponent
  import opened Bigints
  import opened Products
  import opened Reductions
  import opened BarrettTheory
  import opened Residue
  import opened ModularPower
  import opened CrtTheory

  /** The private operation by two powers. */
  ghost function CrtPower(c: nat, dP: nat, dQ: nat, p: nat, q: nat, qInv: int): (r: int)
    requires p > 0 && q > 0
  {
    Combined(Exp(c, PowerExponent(dP)) % p, Exp(c, PowerExponent(dQ)) % q, p, q, qInv)
  }


  /** Exactly when the recombination gives both powers back. */
  ghost predicate Recombines(m1: nat, m2: nat, p: nat)
    requires p > 0
  {
    m2 <= m1 + p || (m2 < Width(m1, p) && Width(m1, p) % p == 0)
  }

  lemma CrtPowerRight(c: nat, dP: nat, dQ: nat, p: nat, q: nat, qInv: int)
    requires p > 0 && q > 0 && Inverse(q, qInv, p)
    ensures var r, x1, x2 := CrtPower(c, dP, dQ, p, q, qInv), Exp(c, PowerExponent(dP)), Exp(c, PowerExponent(dQ));
            && 0 <= r < p * q
            && (Congruent(r, x1, p) && Congruent(r, x2, q) <==> Recombines(x1 % p, x2 % q, p))
  {
    hide Exp, PowerExponent, Width, Difference, Inverse, Combined;
    var x1, x2 := Exp(c, PowerExponent(dP)), Exp(c, PowerExponent(dQ));
    CongruentMod(x1, p);
    CongruentMod(x2, q);
    CombinedBound(x1 % p, x2 % q, p, q, qInv);
    CombinedExact(x1 % p, x2 % q, p, q, qInv);
  }

  /** That the primes are as `BarrettFull` wants them cannot be dropped under Barrett reduction. For this p and
      q and this c below p q, with exponents 1, both powers are the remainders of c, but the product of the
      difference and qInv comes back from `bi_barrett` as one p too many, and the recombination is not below
      p q. */
  lemma FullPrimesNeeded()
    ensures var p: seq<Comp>, mu: seq<Comp>, x: seq<Comp> :=
              [0x8930_a2fb, 0xffff_fffc], [0x76cf_5d10, 3, 1], [0xffff_fd5c, 0x30b, 0xffff_ff1f, 0xffff_ffff];
            var q: nat, qInv: nat := 0x242d_551c_2ac4_63e3, 0xffff_fff1_0000_001a;
            var c: nat := 0xb7f_181a_d82c_d2b3_21bd_1564;
            && Trimmed(x) && Trimmed(p) && Trimmed(mu) && IsQuotient(Val(mu), Weight(2 * |p|), Val(p))
            && ExactTop(p) && !FullModulus(Val(p)) && q <= Val(p) + 1 && Inverse(q, qInv, Val(p)) && c < Val(p) * q
            && ExactFor(Val(p), c) && ExactFor(q, c) && Val(x) == Difference(c % Val(p), c % q, Val(p)) * qInv
            && c % q + q * Reduced(Val(x), Val(p), Estimate(x, mu, |p|)) >= Val(p) * q
  {
    hide Val, Weight, Estimate, SizeOf, ExactModulus;
    var p: seq<Comp>, mu: seq<Comp>, x: seq<Comp> :=
      [0x8930_a2fb, 0xffff_fffc], [0x76cf_5d10, 3, 1], [0xffff_fd5c, 0x30b, 0xffff_ff1f, 0xffff_ffff];
    var q: nat, qInv: nat := 0x242d_551c_2ac4_63e3, 0xffff_fff1_0000_001a;
    var c: nat := 0xb7f_181a_d82c_d2b3_21bd_1564;
    FullNumbers();
    Weights();
    SizeOfTrimmed(p);
    ExactModulusIs(p);
    ExactModulusIs([0x2ac4_63e3, 0x242d_551c]);
    DivModUnique(Weight(4), Val(p), Val(mu), 0xffff_fffc_46cb_a150);
    DivModUnique(q * qInv, Val(p), 0x242d_551a_896e_9997, 1);
    DivModUnique(1, Val(p), 0, 1);
    DivModUnique(c, Val(p), 0xb7f_181b, 0x12_76cf_5ceb);
    DivModUnique(c, q, 0x515a_3a4c, 0);
    DivModUnique(0, Width(c % Val(p), Val(p)), 0, 0);
    assert x[1..] == [0x30b, 0xffff_ff1f, 0xffff_ffff];
    var e := 0x1_0000_0003_76cf_5c2e;
    WholeEstimate(x, mu, 2, Val(x[1..]), Val(x[1..]) * Val(mu), Weight(3), e);
  }

  /** The numbers of that example. */
  lemma FullNumbers()
    ensures Val([0x8930_a2fb, 0xffff_fffc]) == 0xffff_fffc_8930_a2fb
    ensures Val([0x2ac4_63e3, 0x242d_551c]) == 0x242d_551c_2ac4_63e3
    ensures Val([0x76cf_5d10, 3, 1]) == 0x1_0000_0003_76cf_5d10
    ensures Val([0x30b, 0xffff_ff1f, 0xffff_ffff]) == 0xffff_ffff_ffff_ff1f_0000_030b
    ensures Val([0xffff_fd5c, 0x30b, 0xffff_ff1f, 0xffff_ffff]) == 0xffff_ffff_ffff_ff1f_0000_030b_ffff_fd5c
  {
    hide Val, Weight;
    Weights();
    ValOne(0x8930_a2fb);
    ValOne(0xffff_fffc);
    ValConcat([0x8930_a2fb], [0xffff_fffc]);
    assert [0x8930_a2fb] + [0xffff_fffc] == [0x8930_a2fb, 0xffff_fffc];
    ValOne(0x2ac4_63e3);
    ValOne(0x242d_551c);
    ValConcat([0x2ac4_63e3], [0x242d_551c]);
    assert [0x2ac4_63e3] + [0x242d_551c] == [0x2ac4_63e3, 0x242d_551c];
    ValThree(0x76cf_5d10, 3, 1);
    ValThree(0x30b, 0xffff_ff1f, 0xffff_ffff);
    ValOne(0xffff_fd5c);
    ValConcat([0xffff_fd5c], [0x30b, 0xffff_ff1f, 0xffff_ffff]);
    assert [0xffff_fd5c] + [0x30b, 0xffff_ff1f, 0xffff_ffff] == [0xffff_fd5c, 0x30b, 0xffff_ff1f, 0xffff_ffff];
  }

  const P_OFFSET: nat := 1
  const Q_OFFSET: nat := 2

  /** Both primes have been set as moduli. */
  ghost predicate CrtReady(ctx: BiCtx)
    reads ctx, ctx.live
  {
    ReductionAt(ctx, P_OFFSET) && ReductionAt(ctx, Q_OFFSET) && ctx.biMod[P_OFFSET] != ctx.biMod[Q_OFFSET]
  }

  /** Residues are exact: under Barrett reduction the primes are as `BarrettFull` wants them. */
  ghost predicate CrtExact(ctx: BiCtx)
    requires CrtReady(ctx)
    reads ctx, ctx.live
  {
    ctx.reduction == Barrett ==> FullModulus(PrimeP(ctx)) && FullModulus(PrimeQ(ctx))
  }

  ghost function PrimeP(ctx: BiCtx): (p: nat)
    requires CrtReady(ctx)
    reads ctx, ctx.live
    ensures p > 0
  {
    ctx.biMod[P_OFFSET].Value()
  }

  ghost function PrimeQ(ctx: BiCtx): (q: nat)
    requires CrtReady(ctx)
    reads ctx, ctx.live
    ensures q > 0
  {
    ctx.biMod[Q_OFFSET].Value()
  }

  /** The objects of both slots that reductions borrow. */
  ghost function Moduli(ctx: BiCtx): (s: set<Bigint>)
    reads ctx
  {
    SlotObjects(ctx, P_OFFSET) + SlotObjects(ctx, Q_OFFSET)
  }

  ghost function SlotObjects(ctx: BiCtx, slot: nat): (s: set<Bigint>)
    reads ctx
  {
    (if slot in ctx.biMod then {ctx.biMod[slot]} else {})
    + (if slot in ctx.biNormalisedMod then {ctx.biNormalisedMod[slot]} else {})
    + if ctx.reduction == Barrett && slot in ctx.biMu then {ctx.biMu[slot]} else {}
  }

  /** The primes and the objects that hold them are what they were. */
  twostate predicate SamePrimes(ctx: BiCtx)
    reads ctx, ctx.live
  {
    && old(CrtReady(ctx)) && CrtReady(ctx) && PrimeP(ctx) == old(PrimeP(ctx)) && PrimeQ(ctx) == old(PrimeQ(ctx))
    && Moduli(ctx) == old(Moduli(ctx))
  }

  lemma ModuliPermanent(ctx: BiCtx)
    requires CrtReady(ctx)
    ensures forall o :: o in Moduli(ctx) ==> o in ctx.live && o.refs == PERMANENT
  {
  }

  /** Operations that leave permanent objects alone keep both moduli in place. */
  twostate lemma CrtKept(ctx: BiCtx)
    requires old(CrtReady(ctx)) && ctx.biMod == old(ctx.biMod) && ctx.biNormalisedMod == old(ctx.biNormalisedMod)
    requires ctx.n0Dash == old(ctx.n0Dash) && ctx.biMu == old(ctx.biMu)
    requires PermanentKept(ctx)
    ensures CrtReady(ctx) && PrimeP(ctx) == old(PrimeP(ctx)) && PrimeQ(ctx) == old(PrimeQ(ctx))
    ensures Moduli(ctx) == old(Moduli(ctx))
  {
    hide Val, Weight;
  }

  /** `ctx->mod_offset = slot`. */
  method SwitchTo(ctx: BiCtx, slot: nat)
    requires ctx.Valid() && CrtReady(ctx) && (slot == P_OFFSET || slot == Q_OFFSET)
    modifies ctx`modOffset
    ensures ctx.Valid() && CrtReady(ctx) && ctx.modOffset == slot && ReductionSet(ctx)
    ensures PrimeP(ctx) == old(PrimeP(ctx)) && PrimeQ(ctx) == old(PrimeQ(ctx)) && Moduli(ctx) == old(Moduli(ctx))
    ensures Touched(ctx) <= Moduli(ctx) && (CrtExact(ctx) && ctx.reduction == Barrett ==> FullModulus(Modulus(ctx)))
    ensures slot == P_OFFSET ==> Modulus(ctx) == PrimeP(ctx)
    ensures slot == Q_OFFSET ==> Modulus(ctx) == PrimeQ(ctx)
  {
    hide Val, Weight, FullModulus, IsQuotient;
    ctx.modOffset := slot;
    ReductionAtCurrent(ctx);
  }

  /** `ctx->use_classical = on`, which only the Montgomery configuration compiles in. */
  method SetClassical(ctx: BiCtx, on: bool)
    requires ctx.Valid() && CrtReady(ctx)
    modifies ctx`useClassical
    ensures ctx.Valid() && CrtReady(ctx)
    ensures ctx.useClassical == if ctx.reduction == Montgomery then on else old(ctx.useClassical)
    ensures PrimeP(ctx) == old(PrimeP(ctx)) && PrimeQ(ctx) == old(PrimeQ(ctx)) && Moduli(ctx) == old(Moduli(ctx))
  {
    hide Val, Weight;
    if ctx.reduction == Montgomery { ctx.useClassical := on; }
  }

  /** A modular power under one of the two primes. */
  method PowerAt(ctx: BiCtx, slot: nat, bi: Bigint, biexp: Bigint, thresh: nat) returns (r: Bigint)
    requires ctx.Valid() && CrtReady(ctx) && CrtExact(ctx) && thresh >= 4 && (slot == P_OFFSET || slot == Q_OFFSET)
    requires ctx.reduction == Montgomery ==> ctx.useClassical
    requires bi in ctx.live && biexp in ctx.live && bi != biexp && biexp.Canonical()
    requires bi.refs != PERMANENT && biexp.refs == PERMANENT
    modifies ctx`modOffset, ctx`freeList, ctx`freeCount, ctx`activeCount, ctx`live, ctx`free, ctx.free, bi, biexp
    modifies Moduli(ctx)
    ensures ctx.Valid() && CrtReady(ctx)
    ensures r in ctx.live && r.refs == 1 && r.Canonical()
    ensures PrimeP(ctx) == old(PrimeP(ctx)) && PrimeQ(ctx) == old(PrimeQ(ctx)) && Moduli(ctx) == old(Moduli(ctx))
    ensures slot == P_OFFSET ==> r.Value() == Exp(old(bi.Value()), PowerExponent(old(biexp.Value()))) % PrimeP(ctx)
    ensures slot == Q_OFFSET ==> r.Value() == Exp(old(bi.Value()), PowerExponent(old(biexp.Value()))) % PrimeQ(ctx)
    ensures r !in old(ctx.live) - {bi} && (r in old(ctx.free) || fresh(r) || (r == bi && old(bi.refs) == 1))
    ensures forall o :: o in old(ctx.live) && o != bi ==>
      o in ctx.live && o.refs == old(o.refs) && Digits(o.buf) == old(Digits(o.buf))
    ensures Kept(ctx, bi, old(bi.refs)) && (old(bi.refs) != 1 ==> Digits(bi.buf) == old(Digits(bi.buf)))
    ensures ctx.activeCount == old(ctx.activeCount) + 1 - Last(old(bi.refs))
    ensures fresh(ctx.free - old(ctx.free) - {bi})
  {
    hide Val, Weight, BiCtx.Valid, Exp, PowerExponent, ReductionSet, ModulusSet, Modulus, ReductionAt, PrimeP, PrimeQ;
    hide Touched, CrtReady, Moduli, FullModulus, ExactModulus;
    ModuliPermanent(ctx);
    LiveNotFree(ctx);
    SwitchTo(ctx, slot);
    PowerReadyMeans(ctx);
    r := BiModPower(ctx, bi, biexp, thresh);
    LiveNotFree(ctx);
    CrtKept(ctx);
  }

  /** `bi_add(ctx, m1, p)`: p keeps its size because m1 is below it. */
  method SumWithP(ctx: BiCtx, m1: Bigint)
    requires ctx.Valid() && CrtReady(ctx) && m1 in ctx.live && m1.refs == 1 && m1.Canonical()
    requires m1.Value() < PrimeP(ctx)
    modifies ctx`freeList, ctx`freeCount, ctx`activeCount, ctx`live, ctx`free, m1`buf, Moduli(ctx)
    ensures ctx.Valid() && CrtReady(ctx) && SamePrimes(ctx)
    ensures m1.Canonical() && m1.Value() == old(m1.Value()) + PrimeP(ctx)
    ensures forall o :: o in old(ctx.live) && o != m1 ==>
      o in ctx.live && o.refs == old(o.refs) && Digits(o.buf) == old(Digits(o.buf))
    ensures m1 in ctx.live && ctx.free <= old(ctx.free) && ctx.activeCount == old(ctx.activeCount)
  {
    hide Val, Weight, BiCtx.Valid, ReductionAt;
    PrimeObject(ctx, P_OFFSET);
    var p := ctx.biMod[P_OFFSET];
    if m1.buf.size > p.buf.size { LongerIsLarger(Digits(m1.buf), Digits(p.buf)); }
    var _ := ctx.Add(m1, p);
    assert Digits(p.buf) == old(Digits(p.buf));
    CrtKept(ctx);
  }

  /** `bi_subtract(ctx, bi_add(ctx, m1, p), bi_copy(m2), NULL)`. The copy is the object m2 itself, so that
      a cut of it is a cut of m2. */
  method DifferenceOf(ctx: BiCtx, m1: Bigint, m2: Bigint)
    requires ctx.Valid() && CrtReady(ctx) && m1 in ctx.live && m2 in ctx.live && m1 != m2
    requires m1.refs == 1 && m2.refs == 1 && m1.Canonical() && m2.Canonical() && m1.Value() < PrimeP(ctx)
    modifies ctx`freeList, ctx`freeCount, ctx`activeCount, ctx`live, ctx`free, m1`buf, m2, Moduli(ctx)
    ensures ctx.Valid() && CrtReady(ctx) && SamePrimes(ctx)
    ensures m1.refs == 1 && m1.Canonical() && m1.Value() == Difference(old(m1.Value()), old(m2.Value()), PrimeP(ctx))
    ensures m2.refs == 1 && m2.Canonical() && m2.Value() == old(m2.Value()) % Width(old(m1.Value()), PrimeP(ctx))
    ensures forall o :: o in old(ctx.live) && o != m1 && o != m2 ==>
      o in ctx.live && o.refs == old(o.refs) && Digits(o.buf) == old(Digits(o.buf))
    ensures m1 in ctx.live && m2 in ctx.live && ctx.free <= old(ctx.free) && ctx.activeCount == old(ctx.activeCount)
  {
    hide Val, Weight, BiCtx.Valid, CrtReady, PrimeP, PrimeQ, Moduli, LowValue;
    ModuliPermanent(ctx);
    SumWithP(ctx, m1);
    SizeOfTrimmed(Digits(m1.buf));
    LowValueIs(Digits(m2.buf), m1.buf.size);
    var copy := ctx.Copy(m2);
    var _, _ := ctx.Subtract(m1, copy);
    CrtKept(ctx);
  }

  lemma PrimeObject(ctx: BiCtx, slot: nat)
    requires ReductionAt(ctx, slot)
    ensures slot in ctx.biMod && ctx.biMod[slot] in ctx.live && ctx.biMod[slot].refs == PERMANENT
    ensures ctx.biMod[slot].Canonical() && ctx.biMod[slot].Value() > 0
  {
  }

  /** A product of a temporary and a permanent object. */
  method Product(ctx: BiCtx, x: Bigint, y: Bigint) returns (r: Bigint)
    requires ctx.Valid() && CrtReady(ctx) && x in ctx.live && y in ctx.live && x.refs == 1 && y.refs == PERMANENT
    modifies ctx`freeList, ctx`freeCount, ctx`activeCount, ctx`live, ctx`free, ctx.free, x, y`refs
    ensures ctx.Valid() && CrtReady(ctx) && SamePrimes(ctx)
    ensures r.Canonical() && r.refs == 1 && r.Value() == old(x.Value()) * old(y.Value())
    ensures r in ctx.live && r !in old(ctx.live) && (r in old(ctx.free) || fresh(r))
    ensures forall o :: o in old(ctx.live) && o != x ==>
      o in ctx.live && o.refs == old(o.refs) && Digits(o.buf) == old(Digits(o.buf))
    ensures ctx.activeCount == old(ctx.activeCount) && fresh(ctx.free - old(ctx.free) - {x})
  {
    hide Val, Weight, BiCtx.Valid, CrtReady, PrimeP, PrimeQ;
    LiveNotFree(ctx);
    r := BiMultiply(ctx, x, y);
    LiveNotFree(ctx);
    CrtKept(ctx);
  }

  /** h reduced modulo p. */
  method ReduceModP(ctx: BiCtx, h: Bigint) returns (r: Bigint)
    requires ctx.Valid() && CrtReady(ctx) && CrtExact(ctx) && h in ctx.live && h.refs == 1 && h.Canonical()
    requires ctx.reduction == Montgomery ==> ctx.useClassical
    modifies ctx`modOffset, ctx`freeList, ctx`freeCount, ctx`activeCount, ctx`live, ctx`free, ctx.free, h, Moduli(ctx)
    ensures ctx.Valid() && CrtReady(ctx) && SamePrimes(ctx)
    ensures r.Canonical() && r.refs == 1 && r in ctx.live
    ensures r.Value() < PrimeP(ctx) && Congruent(r.Value(), old(h.Value()), PrimeP(ctx))
    ensures r == h || (r !in old(ctx.live) && (r in old(ctx.free) || fresh(r)))
    ensures forall o :: o in old(ctx.live) && o != h ==>
      o in ctx.live && o.refs == old(o.refs) && Digits(o.buf) == old(Digits(o.buf))
    ensures ctx.activeCount == old(ctx.activeCount) && fresh(ctx.free - old(ctx.free) - {h})
  {
    hide Val, Weight, BiCtx.Valid, ReductionSet, ModulusSet, Modulus, ReductionAt, PrimeP, PrimeQ, Touched;
    hide CrtReady, Moduli, FullModulus, ExactModulus;
    ModuliPermanent(ctx);
    LiveNotFree(ctx);
    SwitchTo(ctx, P_OFFSET);
    ReductionMeans(ctx);
    r := BiResidue(ctx, h);
    LiveNotFree(ctx);
    CrtKept(ctx);
  }

  /** `bi_add(ctx, m2, bi_multiply(ctx, q, h))`. */
  method AddMultiple(ctx: BiCtx, m2: Bigint, h: Bigint) returns (r: Bigint)
    requires ctx.Valid() && CrtReady(ctx) && m2 in ctx.live && h in ctx.live && m2 != h
    requires m2.refs == 1 && h.refs == 1
    modifies ctx`freeList, ctx`freeCount, ctx`activeCount, ctx`live, ctx`free, ctx.free, m2, h, Moduli(ctx)
    ensures ctx.Valid() && CrtReady(ctx) && SamePrimes(ctx)
    ensures r == m2 && r.Canonical() && r.refs == 1 && r in ctx.live
    ensures r.Value() == old(m2.Value()) + PrimeQ(ctx) * old(h.Value())
    ensures forall o :: o in old(ctx.live) && o != h && o != m2 ==>
      o in ctx.live && o.refs == old(o.refs) && Digits(o.buf) == old(Digits(o.buf))
    ensures ctx.activeCount == old(ctx.activeCount) - 1 && fresh(ctx.free - old(ctx.free) - {h})
  {
    hide Val, Weight, BiCtx.Valid, ReductionAt;
    PrimeObject(ctx, Q_OFFSET);
    LiveNotFree(ctx);
    ghost var hv, qv := h.Value(), PrimeQ(ctx);
    var product := Product(ctx, h, ctx.biMod[Q_OFFSET]);
    LiveNotFree(ctx);
    assert hv * qv == qv * hv;
    r := ctx.Add(m2, product);
    CrtKept(ctx);
  }

  /** The two powers m1 and m2. */
  method TwoPowers(ctx: BiCtx, bi: Bigint, dP: Bigint, dQ: Bigint, thresh: nat) returns (m1: Bigint, m2: Bigint)
    requires ctx.Valid() && CrtReady(ctx) && CrtExact(ctx) && thresh >= 4
    requires ctx.reduction == Montgomery ==> ctx.useClassical
    requires bi in ctx.live && 1 <= bi.refs < PERMANENT - 1 && bi != dP && bi != dQ
    requires dP in ctx.live && dP.refs == PERMANENT && dP.Canonical()
    requires dQ in ctx.live && dQ.refs == PERMANENT && dQ.Canonical()
    modifies ctx`modOffset, ctx`freeList, ctx`freeCount, ctx`activeCount, ctx`live, ctx`free, ctx.free, bi, dP, dQ
    modifies Moduli(ctx)
    ensures ctx.Valid() && CrtReady(ctx) && SamePrimes(ctx)
    ensures m1 != m2 && m1 in ctx.live && m1.refs == 1 && m1.Canonical() && m2 in ctx.live && m2.refs == 1
    ensures m2.Canonical()
    ensures m1.Value() == Exp(old(bi.Value()), PowerExponent(old(dP.Value()))) % PrimeP(ctx)
    ensures m2.Value() == Exp(old(bi.Value()), PowerExponent(old(dQ.Value()))) % PrimeQ(ctx)
    ensures m1 !in old(ctx.live) && m2 !in old(ctx.live) - {bi}
    ensures (m1 in old(ctx.free) || fresh(m1)) && (m2 in old(ctx.free) || fresh(m2) || (m2 == bi && old(bi.refs) == 1))
    ensures forall o :: o in old(ctx.live) && o != bi ==>
      o in ctx.live && o.refs == old(o.refs) && Digits(o.buf) == old(Digits(o.buf))
    ensures ctx.activeCount == old(ctx.activeCount) + 2 - Last(old(bi.refs)) && fresh(ctx.free - old(ctx.free) - {bi})
  {
    hide Val, Weight, BiCtx.Valid, Exp, PowerExponent, PrimeP, PrimeQ, CrtReady, Moduli;
    LiveNotFree(ctx);
    ModuliPermanent(ctx);
    var copy := CopyOf(ctx, bi);
    m1 := PowerAt(ctx, P_OFFSET, copy, dP, thresh);
    LiveNotFree(ctx);
    m2 := PowerAt(ctx, Q_OFFSET, bi, dQ, thresh);
  }

  /** `bi_copy` while the moduli stay in place. */
  method CopyOf(ctx: BiCtx, bi: Bigint) returns (r: Bigint)
    requires ctx.Valid() && CrtReady(ctx) && bi in ctx.live && 1 <= bi.refs < PERMANENT - 1
    modifies bi`refs
    ensures ctx.Valid() && CrtReady(ctx) && SamePrimes(ctx)
    ensures r == bi && bi.refs == old(bi.refs) + 1
  {
    hide Val, Weight, BiCtx.Valid, PrimeP, PrimeQ, CrtReady;
    r := ctx.Copy(bi);
    CrtKept(ctx);
  }

  /** From the two powers to the result. */
  method RecombinePowers(ctx: BiCtx, m1: Bigint, m2: Bigint, qInv: Bigint) returns (r: Bigint)
    requires ctx.Valid() && CrtReady(ctx) && CrtExact(ctx) && m1 in ctx.live && m2 in ctx.live && m1 != m2
    requires ctx.reduction == Montgomery ==> ctx.useClassical
    requires m1.refs == 1 && m2.refs == 1 && m1.Canonical() && m2.Canonical()
    requires m1.Value() < PrimeP(ctx) && qInv in ctx.live && qInv.refs == PERMANENT
    modifies ctx`modOffset, ctx`useClassical, ctx`freeList, ctx`freeCount, ctx`activeCount, ctx`live, ctx`free
    modifies ctx.free, m1, m2, qInv`refs, Moduli(ctx)
    ensures ctx.Valid() && CrtReady(ctx) && SamePrimes(ctx)
    ensures r == m2 && r in ctx.live && r.refs == 1 && r.Canonical()
    ensures r.Value() == Combined(old(m1.Value()), old(m2.Value()), PrimeP(ctx), PrimeQ(ctx), old(qInv.Value()))
    ensures forall o :: o in old(ctx.live) && o != m1 && o != m2 ==>
      o in ctx.live && o.refs == old(o.refs) && Digits(o.buf) == old(Digits(o.buf))
    ensures ctx.activeCount == old(ctx.activeCount) - 1 && fresh(ctx.free - old(ctx.free) - {m1})
    ensures ctx.useClassical == (ctx.reduction != Montgomery && old(ctx.useClassical))
  {
    hide Val, Weight, BiCtx.Valid, PrimeP, PrimeQ, CrtReady, Moduli, Difference, Width;
    ghost var v1, v2, u := m1.Value(), m2.Value(), qInv.Value();
    LiveNotFree(ctx);
    ModuliPermanent(ctx);
    DifferenceOf(ctx, m1, m2);
    LiveNotFree(ctx);
    var product := Product(ctx, m1, qInv);
    LiveNotFree(ctx);
    var h := ReduceModP(ctx, product);
    LiveNotFree(ctx);
    SetClassical(ctx, false);
    LiveNotFree(ctx);
    CongruentMod(Difference(v1, v2, PrimeP(ctx)) * u, PrimeP(ctx));
    CongruentUnique(h.Value(), (Difference(v1, v2, PrimeP(ctx)) * u) % PrimeP(ctx), PrimeP(ctx));
    r := AddMultiple(ctx, m2, h);
  }

  /** `bi_crt` for two primes set as moduli: `Combined` of the powers bi^dP modulo p and bi^dQ modulo q. With
      q's inverse modulo p that is the number below p q with these remainders exactly when `CombinedExact`
      says so, and always for q <= p + 1 (`LargerPrimeFirst`). */
  method BiCrt(ctx: BiCtx, bi: Bigint, dP: Bigint, dQ: Bigint, qInv: Bigint, thresh: nat) returns (r: Bigint)
    requires ctx.Valid() && CrtReady(ctx) && CrtExact(ctx) && thresh >= 4
    requires bi in ctx.live && 1 <= bi.refs < PERMANENT - 1 && bi != dP && bi != dQ && bi != qInv
    requires dP in ctx.live && dP.refs == PERMANENT && dP.Canonical()
    requires dQ in ctx.live && dQ.refs == PERMANENT && dQ.Canonical()
    requires qInv in ctx.live && qInv.refs == PERMANENT
    modifies ctx`modOffset, ctx`useClassical, ctx`freeList, ctx`freeCount, ctx`activeCount, ctx`live, ctx`free
    modifies ctx.free, bi, dP, dQ, qInv, Moduli(ctx)
    ensures ctx.Valid() && CrtReady(ctx) && SamePrimes(ctx)
    ensures r in ctx.live && r.refs == 1 && r.Canonical() && r.Value() < PrimeP(ctx) * PrimeQ(ctx)
    ensures r.Value() == CrtPower(old(bi.Value()), old(dP.Value()), old(dQ.Value()), PrimeP(ctx), PrimeQ(ctx),
                                  old(qInv.Value()))
    ensures Inverse(PrimeQ(ctx), old(qInv.Value()), PrimeP(ctx)) ==>
      var x1 := Exp(old(bi.Value()), PowerExponent(old(dP.Value())));
      var x2 := Exp(old(bi.Value()), PowerExponent(old(dQ.Value())));
      Congruent(r.Value(), x1, PrimeP(ctx)) && Congruent(r.Value(), x2, PrimeQ(ctx))
      <==> Recombines(x1 % PrimeP(ctx), x2 % PrimeQ(ctx), PrimeP(ctx))
    ensures r !in old(ctx.live) - {bi} && (r in old(ctx.free) || fresh(r) || (r == bi && old(bi.refs) == 1))
    ensures forall o :: o in old(ctx.live) && o != bi ==>
      o in ctx.live && o.refs == old(o.refs) && Digits(o.buf) == old(Digits(o.buf))
    ensures ctx.activeCount == old(ctx.activeCount) + 1 - Last(old(bi.refs)) && fresh(ctx.free - old(ctx.free) - {bi})
    ensures ctx.useClassical == (ctx.reduction != Montgomery && old(ctx.useClassical))
  {
    hide Val, Weight, BiCtx.Valid, PrimeP, PrimeQ, Exp, PowerExponent, CrtReady, Moduli, Combined, Inverse, Recombines;
    ghost var c, d1, d2, u := bi.Value(), dP.Value(), dQ.Value(), qInv.Value();
    ModuliPermanent(ctx);
    ghost var x1 := Exp(bi.Value(), PowerExponent(dP.Value()));
    ghost var x2 := Exp(bi.Value(), PowerExponent(dQ.Value()));
    LiveNotFree(ctx);
    SetClassical(ctx, true);
    LiveNotFree(ctx);
    var m1, m2 := TwoPowers(ctx, bi, dP, dQ, thresh);
    LiveNotFree(ctx);
    CongruentMod(x1, PrimeP(ctx));
    CongruentMod(x2, PrimeQ(ctx));
    CombinedBound(m1.Value(), m2.Value(), PrimeP(ctx), PrimeQ(ctx), qInv.Value());
    r := RecombinePowers(ctx, m1, m2, qInv);
    LiveNotFree(ctx);
    if Inverse(PrimeQ(ctx), u, PrimeP(ctx)) { CrtPowerRight(c, d1, d2, PrimeP(ctx), PrimeQ(ctx), u); }
  }
}
