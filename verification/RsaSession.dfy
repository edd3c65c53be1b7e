/** `RSA_pub_key_new`, `RSA_priv_key_new` and `RSA_free`: a key context from creation to release, with
    every object accounted for. */
module RsaSession {
  import opened Bytes
  import opened Radix
  import opened Comps
  import opened Modular
  import opened Exponent
  import opened Bigints
  import opened Divide
  import opened Reductions
  import opened Residue
  import opened ModPower
  import opened ModularPower
  import opened SetMod
  import opened Crt
  import opened Octets
  import opened Pkcs1
  import opened RsaKey
  import opened Rsa
  import opened RsaBlocks

  /** These objects, and no others, are in use; all are permanent. */
  ghost predicate Accounts(ctx: BiCtx, objects: seq<Bigint>)
    reads ctx, ctx.live
  {
    && New(ctx, objects, {}) && ctx.activeCount == |objects|
  }

  /** `bi_depermanent` and `bi_free` of each. */
  method ReleaseAll(ctx: BiCtx, objects: seq<Bigint>, ghost rest: Bigint)
    requires ctx.Valid() && New(ctx, [rest] + objects, {})
    modifies ctx`freeList, ctx`freeCount, ctx`activeCount, ctx`live, ctx`free, objects`refs
    ensures ctx.Valid() && rest in ctx.live && rest.refs == PERMANENT
    ensures ctx.activeCount == old(ctx.activeCount) - |objects|
  {
    hide BiCtx.Valid;
    ghost var all := [rest] + objects;
    assert all[0] == rest;
    assert forall t :: 0 <= t < |objects| ==> all[1 + t] == objects[t];
    var i := 0;
    while i < |objects|
      invariant 0 <= i <= |objects| && ctx.Valid() && ctx.activeCount == old(ctx.activeCount) - i
      invariant forall t :: i <= t < |objects| ==> objects[t] in ctx.live && objects[t].refs == PERMANENT
      invariant rest in ctx.live && rest.refs == PERMANENT
    {
      var o := objects[i];
      assert all[1 + i] == o;
      ctx.Depermanent(o);
      ctx.Free(o);
      i := i + 1;
    }
  }

  /** A number whose top component is neither zero nor all ones, so that `bi_set_mod` can form the
      normalising factor. */
  ghost predicate Normalisable(v: nat)
  {
    v > 0 && forall s: seq<Comp> :: Trimmed(s) && Val(s) == v ==> Factor(s).Some?
  }

  /** `bi_import` and `bi_permanent`. */
  method ImportStored(ctx: BiCtx, data: seq<Byte>, ghost objects: seq<Bigint>) returns (x: Bigint)
    requires ctx.Valid() && Accounts(ctx, objects) && |data| >= 1
    modifies ctx`freeList, ctx`freeCount, ctx`activeCount, ctx`live, ctx`free, ctx.free
    ensures ctx.Valid() && Accounts(ctx, objects + [x]) && Stored(ctx, x) && x.Value() == Os2ip(data)
    ensures old(ctx.live) <= ctx.live && ctx.free <= old(ctx.free) && (x in old(ctx.free) || fresh(x))
    ensures forall s :: old(ReductionAt(ctx, s)) ==> ReductionAt(ctx, s) && ctx.biMod[s] == old(ctx.biMod[s])
    ensures forall s :: old(ModulusAt(ctx, s) && PowersAt(ctx, s)) ==> ModulusAt(ctx, s) && PowersAt(ctx, s)
  {
    hide Val, Weight, BiCtx.Valid, Os2ip, Accounts, New, ReductionAt, ModulusAt, PowersAt, SameSlot;
    LiveNotFree(ctx);
    AccountsMean(ctx, objects);
    ghost var before := ctx.live;
    x := BiImport(ctx, data);
    ctx.Permanent(x);
    OneNew(ctx, x, before);
    JoinAccounts(ctx, objects, [x], before);
    SlotsKept(ctx);
    SameMaps(ctx);
  }

  lemma OneNew(ctx: BiCtx, x: Bigint, before: set<Bigint>)
    requires x in ctx.live && x !in before && x.refs == PERMANENT
    ensures New(ctx, [x], before)
  {
  }

  /** `bi_import` and `bi_set_mod`. */
  method ImportModulus(ctx: BiCtx, data: seq<Byte>, slot: nat, ghost objects: seq<Bigint>)
    requires ctx.Valid() && ctx.RadixReady() && Accounts(ctx, objects) && |data| >= 1
    requires ctx.reduction == Barrett ==> |data| <= MAX_OCTETS
    requires Normalisable(Os2ip(data)) && (ctx.reduction == Montgomery ==> Os2ip(data) % 2 == 1)
    requires ctx.reduction == Montgomery ==> slot == ctx.modOffset || ModulusSet(ctx)
    modifies ctx`freeList, ctx`freeCount, ctx`activeCount, ctx`live, ctx`free, ctx.free, Slot(ctx)
    modifies ctx`biMod, ctx`biNormalisedMod, ctx`biRRModM, ctx`biRModM, ctx`n0Dash, ctx`biMu
    ensures ctx.Valid() && ReductionAt(ctx, slot) && ctx.biMod[slot].Value() == Os2ip(data)
    ensures ctx.reduction == Montgomery && slot == ctx.modOffset ==> PowersOfR(ctx)
    ensures ctx.reduction == Montgomery ==> slot in ctx.biRRModM && slot in ctx.biRModM
    ensures Accounts(ctx, objects + SlotSeq(ctx, slot))
    ensures forall o :: o in SlotSeq(ctx, slot) ==> o in old(ctx.free) || fresh(o)
    ensures old(ctx.live) <= ctx.live && fresh(ctx.free - old(ctx.free))
    ensures PermanentKept(ctx)
    ensures forall other :: other != slot ==> SameSlot(ctx, other)
    ensures forall other :: other != slot && old(ReductionAt(ctx, other)) ==>
      ReductionAt(ctx, other) && ctx.biMod[other] == old(ctx.biMod[other])
    ensures forall other :: other != slot && old(ModulusAt(ctx, other) && PowersAt(ctx, other)) ==>
      ModulusAt(ctx, other) && PowersAt(ctx, other)
  {
    hide Val, Weight, BiCtx.Valid, Os2ip, ReductionAt, ModulusSet, ModulusAt, SlotSeq, Slot, Accounts, New;
    hide PowersOfR, PowersAt, ReducedPowers, Distinct;
    LiveNotFree(ctx);
    AccountsMean(ctx, objects);
    assert ModulusSet(ctx) ==> forall o :: o in Slot(ctx) ==> o in ctx.live && o.refs == PERMANENT by {
      if ModulusSet(ctx) { SlotPermanent(ctx); }
    }
    var bim := ImportBetween(ctx, data);
    LiveNotFree(ctx);
    ghost var before := ctx.live - {bim};
    label imported:
    BiSetMod(ctx, bim, slot);
    forall o | o in ctx.free && o !in old(ctx.free)
      ensures fresh(o)
    {
      assert !old@imported(allocated(o));
    }
    forall other | other != slot
      ensures SameSlot(ctx, other)
    {
      assert SameSlot@imported(ctx, other);
    }
    JoinAccounts(ctx, objects, SlotSeq(ctx, slot), before);
  }

  lemma AccountsMean(ctx: BiCtx, objects: seq<Bigint>)
    requires Accounts(ctx, objects)
    ensures ctx.activeCount == |objects| && Distinct(objects)
    ensures forall i :: 0 <= i < |objects| ==> objects[i] in ctx.live && objects[i].refs == PERMANENT
  {
  }

  /** Old objects that are still there and new ones are accounted for together. */
  lemma JoinAccounts(ctx: BiCtx, objects: seq<Bigint>, more: seq<Bigint>, before: set<Bigint>)
    requires Distinct(objects) && New(ctx, more, before)
    requires forall i :: 0 <= i < |objects| ==>
      objects[i] in before && objects[i] in ctx.live && objects[i].refs == PERMANENT
    requires ctx.activeCount == |objects| + |more|
    ensures Accounts(ctx, objects + more)
  {
  }

  /** `bi_import` while the moduli set so far stay in place. */
  method ImportBetween(ctx: BiCtx, data: seq<Byte>) returns (r: Bigint)
    requires ctx.Valid() && ctx.RadixReady() && |data| >= 1 && Normalisable(Os2ip(data))
    modifies ctx`freeList, ctx`freeCount, ctx`activeCount, ctx`live, ctx`free, ctx.free
    ensures ctx.Valid() && ctx.RadixReady() && r in ctx.live && r.refs == 1 && r.Canonical() && r.Value() == Os2ip(data)
    ensures Factor(Digits(r.buf)).Some? && (|data| <= MAX_OCTETS ==> r.buf.size <= 0x7FFF)
    ensures r !in old(ctx.live) && (r in old(ctx.free) || fresh(r))
    ensures old(ctx.live) <= ctx.live && ctx.free <= old(ctx.free) && ctx.activeCount == old(ctx.activeCount) + 1
    ensures (old(ModulusSet(ctx)) ==> ModulusSet(ctx)) && Slot(ctx) == old(Slot(ctx))
    ensures forall s :: old(ReductionAt(ctx, s)) ==> ReductionAt(ctx, s) && ctx.biMod[s] == old(ctx.biMod[s])
    ensures forall s :: old(ModulusAt(ctx, s) && PowersAt(ctx, s)) ==> ModulusAt(ctx, s) && PowersAt(ctx, s)
  {
    hide Val, Weight, BiCtx.Valid, Os2ip, ReductionAt, ModulusAt, PowersAt;
    LiveNotFree(ctx);
    r := BiImport(ctx, data);
    if |data| <= MAX_OCTETS { ImportedSize(Digits(r.buf), data, 0x7FFF); }
    SlotsKept(ctx);
    SameMaps(ctx);
  }

  lemma ImportedSize(s: seq<Comp>, data: seq<Byte>, n: nat)
    requires Trimmed(s) && Val(s) == Os2ip(data) && n >= 1 && |data| <= 4 * n
    ensures |s| <= n
  {
    hide Val, Weight, Os2ip, Pow2;
    Os2ipBound(data);
    Pow2Monotone(8 * |data|, 32 * n);
    WeightIsPow2(n);
    if |s| > n {
      TrimmedLower(s);
      WeightMonotone(n, |s| - 1);
    }
  }

  /** The objects of a key context, which `RSA_free` releases one by one. */
  function KeyObjects(c: RsaCtx): (s: seq<Bigint>)
    requires KeyReady(c)
    reads c.biCtx, c.biCtx.live
  {
    SlotSeq(c.biCtx, M_OFFSET) + [c.e]
    + match c.priv
      case ByExponent(d) => [d]
      case ByCrt(d, dP, dQ, qInv) => [d, dP, dQ, qInv] + SlotSeq(c.biCtx, P_OFFSET) + SlotSeq(c.biCtx, Q_OFFSET)
  }

  /** What a key is made from: big-endian bytes. */
  datatype KeyBytes = KeyBytes(modulus: seq<Byte>, pubExp: seq<Byte>, privExp: seq<Byte>)

  /** The bytes that the largest number of components, a positive `short`, can hold. */
  const MAX_OCTETS: nat := 4 * 0x7FFF

  /** A key that `RSA_pub_key_new` and `RSA_priv_key_new` can set up. */
  ghost predicate UsableKey(reduction: Reduction, k: KeyBytes)
  {
    && |k.modulus| >= 3 && |k.pubExp| >= 1 && |k.privExp| >= 1 && Normalisable(Os2ip(k.modulus))
    && (reduction == Montgomery ==> k.modulus[0] != 0 && Os2ip(k.modulus) % 2 == 1)
    && (reduction == Barrett ==> |k.modulus| <= MAX_OCTETS)
  }

  lemma TopByteFills(s: seq<Byte>)
    requires |s| >= 1 && s[0] != 0
    ensures FillsBytes(Os2ip(s), |s|)
  {
    hide Pow2, Os2ip;
    var t := |s| - 1;
    Os2ipBound(s);
    assert s == [s[0]] + s[1..];
    Os2ipFront(s[0], s[1..]);
    MulMonotone(1, s[0], Pow2(8 * t));
  }

  /** What `RSA_pub_key_new` leaves: the modulus in its slot and the public exponent. */
  ghost predicate PublicPart(ctx: BiCtx, e: Bigint, modulus: seq<Byte>, pubExp: seq<Byte>)
    reads ctx, ctx.live
  {
    && !ctx.useClassical && ctx.modOffset == M_OFFSET && ReductionAt(ctx, M_OFFSET)
    && (ctx.reduction == Montgomery ==>
        M_OFFSET in ctx.biRRModM && M_OFFSET in ctx.biRModM && ModulusAt(ctx, M_OFFSET) && PowersAt(ctx, M_OFFSET))
    && ctx.biMod[M_OFFSET].Value() == Os2ip(modulus) && Stored(ctx, e) && e.Value() == Os2ip(pubExp)
  }

  /** `bi_initialize` and the modulus. */
  method NewContext(reduction: Reduction, modulus: seq<Byte>) returns (ctx: BiCtx)
    requires |modulus| >= 1 && Normalisable(Os2ip(modulus)) && (reduction == Barrett ==> |modulus| <= MAX_OCTETS)
    requires reduction == Montgomery ==> Os2ip(modulus) % 2 == 1
    ensures fresh(ctx) && fresh(ctx.biRadix) && ctx.Valid() && ctx.RadixReady() && ctx.reduction == reduction
    ensures !ctx.useClassical && ctx.modOffset == M_OFFSET && ReductionAt(ctx, M_OFFSET)
    ensures ctx.reduction == Montgomery ==> PowersOfR(ctx)
    ensures ctx.reduction == Montgomery ==> M_OFFSET in ctx.biRRModM && M_OFFSET in ctx.biRModM
    ensures ctx.biMod[M_OFFSET].Value() == Os2ip(modulus)
    ensures Accounts(ctx, [ctx.biRadix] + SlotSeq(ctx, M_OFFSET))
    ensures fresh(ctx.free) && fresh(set o | o in SlotSeq(ctx, M_OFFSET))
  {
    hide Val, Weight, BiCtx.Valid, Os2ip, ReductionAt, ModulusAt, New, Accounts, PowersOfR, Distinct, SlotSeq;
    ctx := new BiCtx(reduction);
    OneNew(ctx, ctx.biRadix, {});
    ghost var all := [ctx.biRadix];
    JoinAccounts(ctx, [], all, {});
    assert [] + all == all;
    ImportModulus(ctx, modulus, M_OFFSET, all);
  }

  /** `RSA_pub_key_new`. */
  method NewPublic(reduction: Reduction, k: KeyBytes) returns (ctx: BiCtx, e: Bigint)
    requires UsableKey(reduction, k)
    ensures fresh(ctx) && fresh(ctx.biRadix) && ctx.Valid() && ctx.RadixReady() && ctx.reduction == reduction
    ensures PublicPart(ctx, e, k.modulus, k.pubExp)
    ensures Accounts(ctx, [ctx.biRadix] + SlotSeq(ctx, M_OFFSET) + [e])
    ensures fresh(ctx.free) && fresh(set o | o in SlotSeq(ctx, M_OFFSET)) && fresh(e)
  {
    hide Val, Weight, BiCtx.Valid, Os2ip, ReductionAt, ModulusAt, New, Accounts, Distinct;
    ctx := NewContext(reduction, k.modulus);
    SlotEntries(ctx, M_OFFSET);
    ModulusSetHere(ctx);
    LiveNotFree(ctx);
    e := ImportStored(ctx, k.pubExp, [ctx.biRadix] + SlotSeq(ctx, M_OFFSET));
  }

  /** `RSA_priv_key_new` without the Chinese Remainder Theorem. */
  method NewKey(reduction: Reduction, k: KeyBytes) returns (c: RsaCtx)
    requires UsableKey(reduction, k)
    ensures fresh(c.biCtx) && c.biCtx.Valid() && c.biCtx.RadixReady() && c.biCtx.reduction == reduction
    ensures KeyReady(c) && c.numOctets == |k.modulus|
    ensures Numbers(c) == KeyNumbers(Os2ip(k.modulus), Os2ip(k.pubExp), Exponent(Os2ip(k.privExp)),
                                     reduction == Barrett)
    ensures Accounts(c.biCtx, [c.biCtx.biRadix] + KeyObjects(c))
    ensures fresh(c.biCtx.free) && fresh(set o | o in KeyObjects(c)) && fresh(c.biCtx.biRadix)
  {
    hide Val, Weight, BiCtx.Valid, Os2ip, ReductionAt, ModulusAt, PowersAt, New, Accounts, Distinct;
    hide KeyReady, Numbers, KeyObjects;
    var ctx, e := NewPublic(reduction, k);
    SlotEntries(ctx, M_OFFSET);
    LiveNotFree(ctx);
    ghost var m := SlotSeq(ctx, M_OFFSET);
    var d := ImportStored(ctx, k.privExp, [ctx.biRadix] + m + [e]);
    assert SlotSeq(ctx, M_OFFSET) == m;
    c := RsaCtx(ctx, |k.modulus|, e, ByExponent(d));
    AssembleKey(c, k);
    assert forall o :: o in m ==> o in set x | x in m;
  }

  /** The pieces of a key with one private exponent make a ready key. */
  lemma AssembleKey(c: RsaCtx, k: KeyBytes)
    requires PublicPart(c.biCtx, c.e, k.modulus, k.pubExp) && c.numOctets == |k.modulus| && c.priv.ByExponent?
    requires UsableKey(c.biCtx.reduction, k) && Stored(c.biCtx, c.priv.d) && c.priv.d.Value() == Os2ip(k.privExp)
    ensures KeyReady(c)
    ensures [c.biCtx.biRadix] + KeyObjects(c) == [c.biCtx.biRadix] + SlotSeq(c.biCtx, M_OFFSET) + [c.e] + [c.priv.d]
    ensures Numbers(c) == KeyNumbers(Os2ip(k.modulus), Os2ip(k.pubExp), Exponent(Os2ip(k.privExp)),
                                     c.biCtx.reduction == Barrett)
    ensures forall o :: o in KeyObjects(c) ==> o in SlotSeq(c.biCtx, M_OFFSET) || o == c.e || o == c.priv.d
  {
    hide Val, Weight, Os2ip, ReductionAt, ModulusAt, PowersAt, FillsBytes, SlotSeq;
    if c.biCtx.reduction == Montgomery { TopByteFills(k.modulus); }
  }

  lemma SlotInSeq(ctx: BiCtx, slot: nat)
    requires ReductionAt(ctx, slot) && (ctx.reduction == Montgomery ==> slot in ctx.biRRModM && slot in ctx.biRModM)
    ensures forall o :: o in SlotObjects(ctx, slot) ==> o in SlotSeq(ctx, slot)
    ensures ctx.reduction == Montgomery ==>
      ctx.biRRModM[slot] in SlotSeq(ctx, slot) && ctx.biRModM[slot] in SlotSeq(ctx, slot)
    ensures ctx.reduction == Barrett ==> ctx.biMu[slot] in SlotSeq(ctx, slot)
  {
    var s := SlotSeq(ctx, slot);
    assert s[0] == ctx.biMod[slot] && s[|s| - 1] == ctx.biNormalisedMod[slot];
    if ctx.reduction == Montgomery { assert s[1] == ctx.biRRModM[slot] && s[2] == ctx.biRModM[slot]; }
    if ctx.reduction == Barrett { assert s[1] == ctx.biMu[slot]; }
  }

  /** Everything a key operation borrows is one of the key's objects. */
  lemma HeldInSeq(c: RsaCtx)
    requires KeyReady(c)
    ensures forall o :: o in Held(c) ==> o in KeyObjects(c)
  {
    hide Val, Weight, Pow2, SlotSeq, SlotObjects, ReductionAt, FillsBytes;
    SlotInSeq(c.biCtx, M_OFFSET);
    if c.priv.ByCrt? {
      SlotInSeq(c.biCtx, P_OFFSET);
      SlotInSeq(c.biCtx, Q_OFFSET);
    }
  }

  // ---- with the primes ----

  datatype CrtBytes = CrtBytes(p: seq<Byte>, q: seq<Byte>, dP: seq<Byte>, dQ: seq<Byte>, qInv: seq<Byte>)

  /** Primes that can be set as moduli. */
  ghost predicate UsablePrimes(reduction: Reduction, t: CrtBytes)
  {
    && |t.p| >= 1 && |t.q| >= 1 && |t.dP| >= 1 && |t.dQ| >= 1 && |t.qInv| >= 1
    && Normalisable(Os2ip(t.p)) && Normalisable(Os2ip(t.q))
    && (reduction == Montgomery ==> Os2ip(t.p) % 2 == 1 && Os2ip(t.q) % 2 == 1)
    && (reduction == Barrett ==> |t.p| <= MAX_OCTETS && |t.q| <= MAX_OCTETS)
  }

  /** d, dP, dQ and qInv as permanent objects. */
  method StoreExponents(ctx: BiCtx, privExp: seq<Byte>, t: CrtBytes, ghost objects: seq<Bigint>)
    returns (d: Bigint, dP: Bigint, dQ: Bigint, qInv: Bigint)
    requires ctx.Valid() && Accounts(ctx, objects) && |privExp| >= 1 && |t.dP| >= 1 && |t.dQ| >= 1 && |t.qInv| >= 1
    modifies ctx`freeList, ctx`freeCount, ctx`activeCount, ctx`live, ctx`free, ctx.free
    ensures ctx.Valid() && Accounts(ctx, objects + [d, dP, dQ, qInv]) && Stored(ctx, d)
    ensures Stored(ctx, dP) && dP.Value() == Os2ip(t.dP) && Stored(ctx, dQ) && dQ.Value() == Os2ip(t.dQ)
    ensures Stored(ctx, qInv) && qInv.Value() == Os2ip(t.qInv)
    ensures old(ctx.live) <= ctx.live && ctx.free <= old(ctx.free)
    ensures forall o :: o in [d, dP, dQ, qInv] ==> o in old(ctx.free) || fresh(o)
    ensures forall s :: old(ReductionAt(ctx, s)) ==> ReductionAt(ctx, s) && ctx.biMod[s] == old(ctx.biMod[s])
    ensures forall s :: old(ModulusAt(ctx, s) && PowersAt(ctx, s)) ==> ModulusAt(ctx, s) && PowersAt(ctx, s)
  {
    hide Val, Weight, BiCtx.Valid, Os2ip, ReductionAt, ModulusAt, PowersAt, New, Accounts, Distinct;
    LiveNotFree(ctx);
    d := ImportStored(ctx, privExp, objects);
    LiveNotFree(ctx);
    dP := ImportStored(ctx, t.dP, objects + [d]);
    LiveNotFree(ctx);
    dQ := ImportStored(ctx, t.dQ, objects + [d] + [dP]);
    LiveNotFree(ctx);
    qInv := ImportStored(ctx, t.qInv, objects + [d] + [dP] + [dQ]);
    assert objects + [d] + [dP] + [dQ] + [qInv] == objects + [d, dP, dQ, qInv];
  }

  /** The two primes in their slots. */
  method SetPrimes(ctx: BiCtx, t: CrtBytes, ghost objects: seq<Bigint>)
    requires ctx.Valid() && ctx.RadixReady() && Accounts(ctx, objects) && UsablePrimes(ctx.reduction, t)
    requires ctx.modOffset == M_OFFSET && ReductionAt(ctx, M_OFFSET)
    modifies ctx`freeList, ctx`freeCount, ctx`activeCount, ctx`live, ctx`free, ctx.free, Slot(ctx)
    modifies ctx`biMod, ctx`biNormalisedMod, ctx`biRRModM, ctx`biRModM, ctx`n0Dash, ctx`biMu
    ensures ctx.Valid() && SameSlot(ctx, M_OFFSET) && ReductionAt(ctx, M_OFFSET)
    ensures ReductionAt(ctx, P_OFFSET) && ctx.biMod[P_OFFSET].Value() == Os2ip(t.p)
    ensures ReductionAt(ctx, Q_OFFSET) && ctx.biMod[Q_OFFSET].Value() == Os2ip(t.q)
    ensures ctx.reduction == Montgomery ==>
      && P_OFFSET in ctx.biRRModM && P_OFFSET in ctx.biRModM && Q_OFFSET in ctx.biRRModM && Q_OFFSET in ctx.biRModM
      && (old(ModulusAt(ctx, M_OFFSET) && PowersAt(ctx, M_OFFSET)) ==>
          ModulusAt(ctx, M_OFFSET) && PowersAt(ctx, M_OFFSET))
    ensures Accounts(ctx, objects + SlotSeq(ctx, P_OFFSET) + SlotSeq(ctx, Q_OFFSET))
    ensures forall o :: o in SlotSeq(ctx, P_OFFSET) || o in SlotSeq(ctx, Q_OFFSET) ==> o in old(ctx.free) || fresh(o)
    ensures fresh(ctx.free - old(ctx.free))
    ensures PermanentKept(ctx)
  {
    hide Val, Weight, BiCtx.Valid, Os2ip, ReductionAt, ModulusAt, PowersAt, New, Accounts, Distinct;
    hide Normalisable, PowersOfR, ModulusSet;
    LiveNotFree(ctx);
    ModulusSetHere(ctx);
    SlotPermanent(ctx);
    SlotEntries(ctx, M_OFFSET);
    ImportModulus(ctx, t.p, P_OFFSET, objects);
    LiveNotFree(ctx);
    ModulusSetHere(ctx);
    SlotEntries(ctx, P_OFFSET);
    assert SameSlot(ctx, M_OFFSET) && Slot(ctx) == old(Slot(ctx));
    label first:
    ImportModulus(ctx, t.q, Q_OFFSET, objects + SlotSeq(ctx, P_OFFSET));
    assert SameSlot@first(ctx, M_OFFSET) && SameSlot@first(ctx, P_OFFSET);
  }

  lemma SlotEntries(ctx: BiCtx, slot: nat)
    requires ReductionAt(ctx, slot)
    ensures slot in ctx.biMod && slot in ctx.biNormalisedMod && (ctx.reduction == Barrett ==> slot in ctx.biMu)
    ensures ctx.biMod[slot] in ctx.live && ctx.biMod[slot].refs == PERMANENT
  {
  }

  lemma ModulusSetHere(ctx: BiCtx)
    requires ReductionAt(ctx, ctx.modOffset)
    ensures ModulusSet(ctx)
  {
  }

  /** `RSA_priv_key_new` with the Chinese Remainder Theorem. */
  method NewCrtKey(reduction: Reduction, k: KeyBytes, t: CrtBytes) returns (c: RsaCtx)
    requires UsableKey(reduction, k) && UsablePrimes(reduction, t)
    ensures fresh(c.biCtx) && c.biCtx.Valid() && c.biCtx.RadixReady() && c.biCtx.reduction == reduction
    ensures KeyReady(c) && c.numOctets == |k.modulus|
    ensures Numbers(c) == KeyNumbers(Os2ip(k.modulus), Os2ip(k.pubExp),
              Primes(Os2ip(t.p), Os2ip(t.q), Os2ip(t.dP), Os2ip(t.dQ), Os2ip(t.qInv)),
              reduction == Barrett)
    ensures Accounts(c.biCtx, [c.biCtx.biRadix] + KeyObjects(c))
    ensures fresh(c.biCtx.free) && fresh(set o | o in KeyObjects(c)) && fresh(c.biCtx.biRadix)
  {
    hide Val, Weight, BiCtx.Valid, Os2ip, ReductionAt, ModulusAt, PowersAt, New, Accounts, Distinct, KeyReady, Numbers;
    hide Held, KeyObjects, Inverse;
    ghost var all;
    var ctx, e, d, dP, dQ, qInv;
    ctx, e, d, dP, dQ, qInv, all := NewWithExponents(reduction, k, t);
    SlotEntries(ctx, M_OFFSET);
    ModulusSetHere(ctx);
    SlotPermanent(ctx);
    ghost var m := SlotSeq(ctx, M_OFFSET);
    SlotInSeq(ctx, M_OFFSET);
    assert forall o :: o in m ==> o in set x | x in m;
    c := CompleteCrt(RsaCtx(ctx, |k.modulus|, e, ByCrt(d, dP, dQ, qInv)), k, t, all);
  }

  /** The primes, last, make the key complete. */
  method CompleteCrt(c0: RsaCtx, k: KeyBytes, t: CrtBytes, ghost all: seq<Bigint>) returns (c: RsaCtx)
    requires c0.biCtx.Valid() && c0.biCtx.RadixReady() && c0.numOctets == |k.modulus| && c0.priv.ByCrt?
    requires UsableKey(c0.biCtx.reduction, k) && UsablePrimes(c0.biCtx.reduction, t)
    requires PublicPart(c0.biCtx, c0.e, k.modulus, k.pubExp)
    requires Stored(c0.biCtx, c0.priv.d) && Stored(c0.biCtx, c0.priv.dP) && Stored(c0.biCtx, c0.priv.dQ)
    requires Stored(c0.biCtx, c0.priv.qInv)
    requires c0.priv.dP.Value() == Os2ip(t.dP) && c0.priv.dQ.Value() == Os2ip(t.dQ)
    requires c0.priv.qInv.Value() == Os2ip(t.qInv)
    requires all == [c0.biCtx.biRadix] + SlotSeq(c0.biCtx, M_OFFSET) + [c0.e]
                    + [c0.priv.d, c0.priv.dP, c0.priv.dQ, c0.priv.qInv]
    requires Accounts(c0.biCtx, all)
    modifies c0.biCtx, c0.biCtx.free, Slot(c0.biCtx)
    ensures c == c0 && c.biCtx.Valid() && c.biCtx.RadixReady() && KeyReady(c)
    ensures Numbers(c) == KeyNumbers(Os2ip(k.modulus), Os2ip(k.pubExp),
              Primes(Os2ip(t.p), Os2ip(t.q), Os2ip(t.dP), Os2ip(t.dQ), Os2ip(t.qInv)),
              c.biCtx.reduction == Barrett)
    ensures Accounts(c.biCtx, [c.biCtx.biRadix] + KeyObjects(c))
    ensures fresh(c.biCtx.free - old(c.biCtx.free))
    ensures forall o :: o in KeyObjects(c) ==>
      || o in old(c.biCtx.free) || fresh(o) || o in old(SlotSeq(c.biCtx, M_OFFSET))
      || o == c.e || o == c.priv.d || o == c.priv.dP || o == c.priv.dQ || o == c.priv.qInv
  {
    hide Val, Weight, BiCtx.Valid, Os2ip, ReductionAt, ModulusAt, PowersAt, New, Accounts, Distinct, KeyReady, Numbers;
    hide Held, KeyObjects, UsableKey, UsablePrimes;
    c := c0;
    var ctx := c.biCtx;
    SlotEntries(ctx, M_OFFSET);
    ModulusSetHere(ctx);
    SlotPermanent(ctx);
    LiveNotFree(ctx);
    ghost var m := SlotSeq(ctx, M_OFFSET);
    SetPrimes(ctx, t, all);
    assert SlotSeq(ctx, M_OFFSET) == m;
    AssembleCrt(c, k, t, all);
    KeyMembers(c);
  }

  lemma KeyMembers(c: RsaCtx)
    requires KeyReady(c) && c.priv.ByCrt?
    ensures forall o :: o in KeyObjects(c) ==>
      || o in SlotSeq(c.biCtx, M_OFFSET) || o in SlotSeq(c.biCtx, P_OFFSET) || o in SlotSeq(c.biCtx, Q_OFFSET)
      || o == c.e || o == c.priv.d || o == c.priv.dP || o == c.priv.dQ || o == c.priv.qInv
  {
    hide Val, Weight, Pow2, SlotSeq, FillsBytes, ReductionAt;
  }

  /** The pieces of a key with primes make a ready key. */
  lemma AssembleCrt(c: RsaCtx, k: KeyBytes, t: CrtBytes, all: seq<Bigint>)
    requires PublicPart(c.biCtx, c.e, k.modulus, k.pubExp) && c.numOctets == |k.modulus| && c.priv.ByCrt?
    requires UsableKey(c.biCtx.reduction, k) && UsablePrimes(c.biCtx.reduction, t)
    requires Stored(c.biCtx, c.priv.d) && Stored(c.biCtx, c.priv.dP) && Stored(c.biCtx, c.priv.dQ)
    requires Stored(c.biCtx, c.priv.qInv)
    requires c.priv.dP.Value() == Os2ip(t.dP) && c.priv.dQ.Value() == Os2ip(t.dQ)
    requires c.priv.qInv.Value() == Os2ip(t.qInv)
    requires ReductionAt(c.biCtx, P_OFFSET) && c.biCtx.biMod[P_OFFSET].Value() == Os2ip(t.p)
    requires ReductionAt(c.biCtx, Q_OFFSET) && c.biCtx.biMod[Q_OFFSET].Value() == Os2ip(t.q)
    requires c.biCtx.reduction == Montgomery ==>
      && P_OFFSET in c.biCtx.biRRModM && P_OFFSET in c.biCtx.biRModM
      && Q_OFFSET in c.biCtx.biRRModM && Q_OFFSET in c.biCtx.biRModM
    requires all == [c.biCtx.biRadix] + SlotSeq(c.biCtx, M_OFFSET) + [c.e]
                    + [c.priv.d, c.priv.dP, c.priv.dQ, c.priv.qInv]
    requires Accounts(c.biCtx, all + SlotSeq(c.biCtx, P_OFFSET) + SlotSeq(c.biCtx, Q_OFFSET))
    ensures KeyReady(c) && Accounts(c.biCtx, [c.biCtx.biRadix] + KeyObjects(c)) && c.biCtx.biRadix in c.biCtx.live
    ensures Numbers(c) == KeyNumbers(Os2ip(k.modulus), Os2ip(k.pubExp),
              Primes(Os2ip(t.p), Os2ip(t.q), Os2ip(t.dP), Os2ip(t.dQ), Os2ip(t.qInv)),
              c.biCtx.reduction == Barrett)
  {
    hide Val, Weight, Os2ip, ReductionAt, ModulusAt, PowersAt, Inverse, FillsBytes;
    if c.biCtx.reduction == Montgomery { TopByteFills(k.modulus); }
    var ctx := c.biCtx;
    SlotEntries(ctx, P_OFFSET);
    SlotEntries(ctx, Q_OFFSET);
    var ps, qs := SlotSeq(ctx, P_OFFSET), SlotSeq(ctx, Q_OFFSET);
    var whole := all + ps + qs;
    assert whole[0] == ctx.biRadix;
    assert whole[|all|] == ps[0] && whole[|all| + |ps|] == qs[0];
    assert ctx.biMod[P_OFFSET] != ctx.biMod[Q_OFFSET];
    assert [ctx.biRadix] + KeyObjects(c) == whole;
  }

  method NewWithExponents(reduction: Reduction, k: KeyBytes, t: CrtBytes)
    returns (ctx: BiCtx, e: Bigint, d: Bigint, dP: Bigint, dQ: Bigint, qInv: Bigint, ghost all: seq<Bigint>)
    requires UsableKey(reduction, k) && UsablePrimes(reduction, t)
    ensures fresh(ctx) && fresh(ctx.biRadix) && ctx.Valid() && ctx.RadixReady() && ctx.reduction == reduction
    ensures PublicPart(ctx, e, k.modulus, k.pubExp)
    ensures Stored(ctx, d) && Stored(ctx, dP) && dP.Value() == Os2ip(t.dP) && Stored(ctx, dQ)
    ensures dQ.Value() == Os2ip(t.dQ)
    ensures Stored(ctx, qInv) && qInv.Value() == Os2ip(t.qInv)
    ensures all == [ctx.biRadix] + SlotSeq(ctx, M_OFFSET) + [e] + [d, dP, dQ, qInv] && Accounts(ctx, all)
    ensures fresh(ctx.free) && fresh(set o | o in SlotSeq(ctx, M_OFFSET))
    ensures fresh(e) && fresh(d) && fresh(dP) && fresh(dQ) && fresh(qInv)
  {
    hide Val, Weight, BiCtx.Valid, Os2ip, ReductionAt, ModulusAt, PowersAt, New, Accounts, Distinct;
    hide Normalisable, SlotSeq;
    ctx, e := NewPublic(reduction, k);
    SlotEntries(ctx, M_OFFSET);
    LiveNotFree(ctx);
    ghost var m := SlotSeq(ctx, M_OFFSET);
    all := [ctx.biRadix] + m + [e];
    label public:
    d, dP, dQ, qInv := StoreExponents(ctx, k.privExp, t, all);
    SlotSeqKept@public(ctx);
    assert SlotSeq(ctx, M_OFFSET) == m;
    all := all + [d, dP, dQ, qInv];
    assert d in [d, dP, dQ, qInv] && dP in [d, dP, dQ, qInv] && dQ in [d, dP, dQ, qInv] && qInv in [d, dP, dQ, qInv];
  }

  // ---- release ----

  /** `RSA_free`: releases every object of the key and closes the bigint session, which finds nothing
      left in use. */
  method RsaFree(c: RsaCtx) returns (ok: bool)
    requires c.biCtx.Valid() && c.biCtx.RadixReady() && KeyReady(c)
    requires Accounts(c.biCtx, [c.biCtx.biRadix] + KeyObjects(c))
    modifies c.biCtx`freeList, c.biCtx`freeCount, c.biCtx`activeCount, c.biCtx`live, c.biCtx`free
    modifies KeyObjects(c)`refs, c.biCtx.biRadix`refs
    ensures ok && c.biCtx.live == {}
  {
    hide Val, Weight, BiCtx.Valid, New, KeyReady, KeyObjects;
    var ctx := c.biCtx;
    var objects := KeyObjects(c);
    ReleaseAll(ctx, objects, ctx.biRadix);
    OnlyOne(ctx, ctx.biRadix);
    ok := ctx.Terminate();
  }

  lemma OnlyOne(ctx: BiCtx, o: Bigint)
    requires ctx.Valid() && ctx.activeCount == 1 && o in ctx.live
    ensures ctx.live == {o}
  {
    var rest := ctx.live - {o};
    assert |rest| == 0;
    assert ctx.live == rest + {o};
  }

  // ---- whole sessions ----

  /** A key context between calls: in order, and with every object accounted for. */
  ghost predicate InOrder(c: RsaCtx)
    reads c.biCtx, c.biCtx.live, c.biCtx.free, c.biCtx.biRadix
  {
    c.biCtx.Valid() && c.biCtx.RadixReady() && KeyReady(c) && Accounts(c.biCtx, [c.biCtx.biRadix] + KeyObjects(c))
  }

  /** Operations that leave permanent objects and the count alone keep the account. */
  twostate lemma AccountsKept(c: RsaCtx)
    requires old(InOrder(c)) && c.biCtx.Valid() && KeyReady(c) && c.biCtx.activeCount == old(c.biCtx.activeCount)
    requires c.biCtx.biMod == old(c.biCtx.biMod) && c.biCtx.biNormalisedMod == old(c.biCtx.biNormalisedMod)
    requires c.biCtx.biRRModM == old(c.biCtx.biRRModM) && c.biCtx.biRModM == old(c.biCtx.biRModM)
    requires c.biCtx.biMu == old(c.biCtx.biMu)
    requires PermanentKept(c.biCtx)
    ensures InOrder(c) && KeyObjects(c) == old(KeyObjects(c))
  {
    hide Val, Weight, BiCtx.Valid, KeyReady, ReductionAt;
  }

  /** A request to the key: bytes to encrypt or sign, or bytes to decrypt or verify. */
  datatype Request =
    | Encrypt(data: seq<Byte>, random: Option<seq<Byte>>, t: BlockType)
    | Decrypt(input: seq<Byte>, t: BlockType)

  /** Input sizes as the two functions demand them. */
  ghost predicate Acceptable(r: Request, k: nat)
  {
    match r
    case Encrypt(data, random, _) => |data| + 3 <= k && (random.Some? ==> |random.value| == k - |data| - 3)
    case Decrypt(input, _) => |input| == k
  }

  /** Signing and decryption take the private key. */
  predicate Privately(r: Request)
  {
    match r
    case Encrypt(_, _, t) => t == Signature
    case Decrypt(_, t) => t == Encryption
  }

  method Serve(c: RsaCtx, r: Request, buffer: array<Byte>, thresh: nat)
    requires InOrder(c) && thresh >= 4 && Acceptable(r, c.numOctets) && c.numOctets <= buffer.Length
    requires Privately(r) ==> ExactPrimes(Numbers(c))
    modifies c.biCtx`modOffset, c.biCtx`useClassical, c.biCtx`freeList, c.biCtx`freeCount, c.biCtx`activeCount
    modifies c.biCtx`live, c.biCtx`free, c.biCtx.free, KeyObjects(c), buffer
    ensures InOrder(c) && SameKey(c) && KeyObjects(c) == old(KeyObjects(c))
    ensures fresh(c.biCtx.free - old(c.biCtx.free))
  {
    hide Val, Weight, BiCtx.Valid, KeyReady, KeyObjects, Held, Accounts, Numbers;
    hide Encrypted, Recovered, Delivered, ExactPrimes;
    HeldInSeq(c);
    match r {
      case Encrypt(data, random, t) =>
        var _ := RsaEncrypt(c, data, buffer, random, t, thresh);
      case Decrypt(input, t) =>
        var _, _ := RsaDecrypt(c, input, buffer, t, thresh);
    }
    AccountsKept(c);
  }

  /** The life of a key: set up, any number of operations, released. Whatever the requests, no object
      is left in use at the end. */
  method Session(c: RsaCtx, requests: seq<Request>, buffer: array<Byte>, thresh: nat) returns (ok: bool)
    requires InOrder(c) && thresh >= 4 && c.numOctets <= buffer.Length
    requires forall i :: 0 <= i < |requests| ==> Acceptable(requests[i], c.numOctets)
    requires (exists i :: 0 <= i < |requests| && Privately(requests[i])) ==> ExactPrimes(Numbers(c))
    modifies c.biCtx`modOffset, c.biCtx`useClassical, c.biCtx`freeList, c.biCtx`freeCount, c.biCtx`activeCount
    modifies c.biCtx`live, c.biCtx`free, c.biCtx.free, KeyObjects(c), c.biCtx.biRadix`refs, buffer
    ensures ok && c.biCtx.live == {}
  {
    hide Val, Weight, BiCtx.Valid, KeyReady, KeyObjects, Accounts, Acceptable, Numbers, ExactPrimes, Privately;
    var i := 0;
    while i < |requests|
      invariant 0 <= i <= |requests| && InOrder(c) && Numbers(c) == old(Numbers(c))
      invariant KeyObjects(c) == old(KeyObjects(c))
      invariant fresh(c.biCtx.free - old(c.biCtx.free))
    {
      Serve(c, requests[i], buffer, thresh);
      i := i + 1;
    }
    ok := RsaFree(c);
  }
}
