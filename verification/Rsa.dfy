/** `RSA_public`, `RSA_private`, `RSA_encrypt` and `RSA_decrypt` over bigint objects and byte buffers. */
module Rsa {
  import opened Radix
  import opened Comps
  import opened Modular
  import opened Exponent
  import opened Bigints
  import opened Reductions
  import opened BarrettTheory
  import opened Residue
  import opened ModularPower
  import opened Crt
  import opened RsaKey

  const M_OFFSET: nat := 0

  /** The private half of the key. With the primes at hand d is stored too, but never used. */
  datatype PrivateObjects = ByExponent(d: Bigint) | ByCrt(d: Bigint, dP: Bigint, dQ: Bigint, qInv: Bigint)

  datatype RsaCtx = RsaCtx(biCtx: BiCtx, numOctets: nat, e: Bigint, priv: PrivateObjects)

  /** A number of the key, kept for the life of the context. */
  ghost predicate Stored(ctx: BiCtx, x: Bigint)
    reads ctx, ctx.live
  {
    x in ctx.live && x.refs == PERMANENT && x.Canonical()
  }

  /** The public half of the key is in place. Montgomery reduction needs a modulus that fills its bytes, so
      that R has room for every input. */
  ghost predicate PublicReady(c: RsaCtx)
    reads c.biCtx, c.biCtx.live
  {
    && !c.biCtx.useClassical && Stored(c.biCtx, c.e) && c.numOctets >= 3 && ReductionAt(c.biCtx, M_OFFSET)
    && (c.biCtx.reduction == Montgomery ==>
        PowersAt(c.biCtx, M_OFFSET) && FillsBytes(c.biCtx.biMod[M_OFFSET].Value(), c.numOctets))
  }

  /** The private half is in place, in the form the library was configured for. */
  ghost predicate PrivateReady(c: RsaCtx)
    reads c.biCtx, c.biCtx.live
  {
    match c.priv
    case ByExponent(d) => Stored(c.biCtx, d)
    case ByCrt(d, dP, dQ, qInv) =>
      && CrtReady(c.biCtx) && Stored(c.biCtx, d) && Stored(c.biCtx, dP) && Stored(c.biCtx, dQ) && Stored(c.biCtx, qInv)
      && (c.biCtx.reduction == Montgomery ==>
          && P_OFFSET in c.biCtx.biRRModM && P_OFFSET in c.biCtx.biRModM
          && Q_OFFSET in c.biCtx.biRRModM && Q_OFFSET in c.biCtx.biRModM)
  }

  ghost predicate KeyReady(c: RsaCtx)
    reads c.biCtx, c.biCtx.live
  {
    PublicReady(c) && PrivateReady(c)
  }

  /** The numbers of the key. */
  ghost function Numbers(c: RsaCtx): (key: KeyNumbers)
    requires KeyReady(c)
    reads c.biCtx, c.biCtx.live
  {
    KeyNumbers(c.biCtx.biMod[M_OFFSET].Value(), c.e.Value(),
      match c.priv
      case ByExponent(d) => Exponent(d.Value())
      case ByCrt(_, dP, dQ, qInv) => Primes(PrimeP(c.biCtx), PrimeQ(c.biCtx), dP.Value(), dQ.Value(), qInv.Value()),
      c.biCtx.reduction == Barrett)
  }

  /** The objects of the key, which every operation borrows and leaves as they were. */
  ghost function Held(c: RsaCtx): (s: set<Bigint>)
    reads c.biCtx
  {
    SlotObjects(c.biCtx, M_OFFSET) + {c.e}
    + (if c.biCtx.reduction == Montgomery && M_OFFSET in c.biCtx.biRRModM then {c.biCtx.biRRModM[M_OFFSET]} else {})
    + (if c.biCtx.reduction == Montgomery && M_OFFSET in c.biCtx.biRModM then {c.biCtx.biRModM[M_OFFSET]} else {})
    + (match c.priv case ByExponent(d) => {d} case ByCrt(d, dP, dQ, qInv) => {d, dP, dQ, qInv} + Moduli(c.biCtx))
  }

  /** The key is what it was. */
  twostate predicate SameKey(c: RsaCtx)
    reads c.biCtx, c.biCtx.live
  {
    old(KeyReady(c)) && KeyReady(c) && Numbers(c) == old(Numbers(c)) && Held(c) == old(Held(c))
  }

  /** Operations that leave permanent objects alone keep the public half. */
  twostate lemma PublicKept(c: RsaCtx)
    requires old(PublicReady(c)) && c.biCtx.useClassical == old(c.biCtx.useClassical)
    requires c.biCtx.biMod == old(c.biCtx.biMod) && c.biCtx.biNormalisedMod == old(c.biCtx.biNormalisedMod)
    requires c.biCtx.n0Dash == old(c.biCtx.n0Dash) && c.biCtx.biMu == old(c.biCtx.biMu)
    requires c.biCtx.biRRModM == old(c.biCtx.biRRModM) && c.biCtx.biRModM == old(c.biCtx.biRModM)
    requires PermanentKept(c.biCtx)
    ensures PublicReady(c) && c.e.Value() == old(c.e.Value())
    ensures c.biCtx.biMod[M_OFFSET].Value() == old(c.biCtx.biMod[M_OFFSET].Value())
  {
    hide Val, Weight, Pow2, IsQuotient, FillsBytes;
    assert |Digits(c.biCtx.biMod[M_OFFSET].buf)| == c.biCtx.biMod[M_OFFSET].buf.size;
    assert old(|Digits(c.biCtx.biMod[M_OFFSET].buf)| == c.biCtx.biMod[M_OFFSET].buf.size);
  }

  /** Operations that leave permanent objects alone keep the key. */
  twostate lemma KeyKept(c: RsaCtx)
    requires old(KeyReady(c)) && c.biCtx.useClassical == old(c.biCtx.useClassical)
    requires c.biCtx.biMod == old(c.biCtx.biMod) && c.biCtx.biNormalisedMod == old(c.biCtx.biNormalisedMod)
    requires c.biCtx.n0Dash == old(c.biCtx.n0Dash) && c.biCtx.biMu == old(c.biCtx.biMu)
    requires c.biCtx.biRRModM == old(c.biCtx.biRRModM) && c.biCtx.biRModM == old(c.biCtx.biRModM)
    requires PermanentKept(c.biCtx)
    ensures KeyReady(c) && SameKey(c)
  {
    hide Val, CrtReady, PrimeP, PrimeQ, PublicReady;
    PublicKept(c);
    if c.priv.ByCrt? { CrtKept(c.biCtx); }
  }

  /** R has room for every number of k bytes. */
  lemma RoomInR(m: seq<Comp>, k: nat)
    requires |m| >= 1 && FillsBytes(Val(m), k)
    ensures Pow2(8 * k) <= Weight(|m|)
  {
    hide Val, Weight, Pow2;
    ValBound(m);
    WeightIsPow2(|m|);
    if 32 * |m| <= 8 * (k - 1) { Pow2Monotone(32 * |m|, 8 * (k - 1)); }
    Pow2Monotone(8 * k, 32 * |m|);
  }

  /** With the modulus n selected, modular powers are ready and borrow only objects of the key. */
  lemma SelectedReady(c: RsaCtx)
    requires KeyReady(c) && c.biCtx.modOffset == M_OFFSET
    ensures PowerReady(c.biCtx) && Modulus(c.biCtx) == Numbers(c).n
    ensures Powers(c.biCtx) <= Held(c) && Touched(c.biCtx) <= Held(c)
    ensures InMontgomery(c.biCtx) ==> Pow2(8 * c.numOctets) <= Factored(c.biCtx)
  {
    hide Val, Weight, Pow2, FillsBytes, Moduli, CrtReady, IsQuotient;
    var m := Digits(c.biCtx.biMod[M_OFFSET].buf);
    assert |m| == c.biCtx.biMod[M_OFFSET].buf.size;
    if InMontgomery(c.biCtx) { RoomInR(m, c.numOctets); }
  }

  lemma HeldPermanent(c: RsaCtx)
    requires KeyReady(c)
    ensures forall o :: o in Held(c) ==> o in c.biCtx.live && o.refs == PERMANENT
  {
    hide Val, Weight, Pow2;
    if c.priv.ByCrt? { ModuliPermanent(c.biCtx); }
  }

  /** `ctx->mod_offset = BIGINT_M_OFFSET`. */
  method SelectModulus(c: RsaCtx)
    requires c.biCtx.Valid() && KeyReady(c)
    modifies c.biCtx`modOffset
    ensures c.biCtx.Valid() && KeyReady(c) && SameKey(c)
    ensures c.biCtx.modOffset == M_OFFSET
  {
    hide Val, Weight, Pow2, KeyReady, Numbers, Held, BiCtx.Valid;
    Select(c.biCtx);
    KeyKept(c);
  }

  method Select(ctx: BiCtx)
    requires ctx.Valid()
    modifies ctx`modOffset
    ensures ctx.Valid() && ctx.modOffset == M_OFFSET
  {
    ctx.modOffset := M_OFFSET;
  }

  /** `RSA_public`: c = m^e mod n. */
  method RsaPublic(c: RsaCtx, msg: Bigint, thresh: nat) returns (r: Bigint)
    requires c.biCtx.Valid() && KeyReady(c) && thresh >= 4
    requires msg in c.biCtx.live && msg.refs == 1 && msg.Value() < Pow2(8 * c.numOctets)
    modifies c.biCtx`modOffset, c.biCtx`useClassical, c.biCtx`freeList, c.biCtx`freeCount, c.biCtx`activeCount
    modifies c.biCtx`live, c.biCtx`free, c.biCtx.free, msg, Held(c)
    ensures c.biCtx.Valid() && KeyReady(c) && SameKey(c)
    ensures r in c.biCtx.live && r.refs == 1 && PublicResult(Numbers(c), old(msg.Value()), r.Value())
    ensures r !in old(c.biCtx.live) - {msg} && (r in old(c.biCtx.free) || fresh(r) || r == msg)
    ensures c.biCtx.activeCount == old(c.biCtx.activeCount) && fresh(c.biCtx.free - old(c.biCtx.free) - {msg})
    ensures PermanentKept(c.biCtx)
  {
    hide Val, Weight, Pow2, KeyReady, Numbers, Held, BiCtx.Valid, PowerReady, Powers, Touched, Exp, PowerExponent;
    hide ExactModulus, FullModulus;
    LiveNotFree(c.biCtx);
    SelectModulus(c);
    HeldPermanent(c);
    SelectedReady(c);
    PublicObjects(c);
    r := BiModPower(c.biCtx, msg, c.e, thresh);
    LiveNotFree(c.biCtx);
    KeyKept(c);
  }

  lemma PublicObjects(c: RsaCtx)
    requires KeyReady(c)
    ensures Numbers(c).barrett == (c.biCtx.reduction == Barrett) && Stored(c.biCtx, c.e) && c.e in Held(c)
    ensures Numbers(c).e == c.e.Value() && Numbers(c).n > 0
    ensures InMontgomery(c.biCtx) && c.biCtx.modOffset == M_OFFSET ==>
      M_OFFSET in c.biCtx.biRRModM && c.biCtx.biRRModM[M_OFFSET] in Held(c)
  {
    hide Val, Weight, Pow2;
  }

  /** `RSA_private`: m = c^d mod n, by the Chinese Remainder Theorem when so configured. */
  method RsaPrivate(c: RsaCtx, msg: Bigint, thresh: nat) returns (r: Bigint)
    requires c.biCtx.Valid() && KeyReady(c) && ExactPrimes(Numbers(c)) && thresh >= 4
    requires msg in c.biCtx.live && msg.refs == 1 && msg.Value() < Pow2(8 * c.numOctets)
    modifies c.biCtx`modOffset, c.biCtx`useClassical, c.biCtx`freeList, c.biCtx`freeCount, c.biCtx`activeCount
    modifies c.biCtx`live, c.biCtx`free, c.biCtx.free, msg, Held(c)
    ensures c.biCtx.Valid() && KeyReady(c) && SameKey(c)
    ensures r in c.biCtx.live && r.refs == 1 && PrivateResult(Numbers(c), old(msg.Value()), r.Value())
    ensures r !in old(c.biCtx.live) - {msg} && (r in old(c.biCtx.free) || fresh(r) || r == msg)
    ensures c.biCtx.activeCount == old(c.biCtx.activeCount) && fresh(c.biCtx.free - old(c.biCtx.free) - {msg})
    ensures PermanentKept(c.biCtx)
  {
    if c.priv.ByExponent? {
      r := PrivateByExponent(c, msg, thresh);
    } else {
      r := PrivateByCrt(c, msg, thresh);
    }
  }

  method PrivateByExponent(c: RsaCtx, msg: Bigint, thresh: nat) returns (r: Bigint)
    requires c.biCtx.Valid() && KeyReady(c) && thresh >= 4 && c.priv.ByExponent?
    requires msg in c.biCtx.live && msg.refs == 1 && msg.Value() < Pow2(8 * c.numOctets)
    modifies c.biCtx`modOffset, c.biCtx`useClassical, c.biCtx`freeList, c.biCtx`freeCount, c.biCtx`activeCount
    modifies c.biCtx`live, c.biCtx`free, c.biCtx.free, msg, Held(c)
    ensures c.biCtx.Valid() && KeyReady(c) && SameKey(c)
    ensures r in c.biCtx.live && r.refs == 1 && PrivateResult(Numbers(c), old(msg.Value()), r.Value())
    ensures r !in old(c.biCtx.live) - {msg} && (r in old(c.biCtx.free) || fresh(r) || r == msg)
    ensures c.biCtx.activeCount == old(c.biCtx.activeCount) && fresh(c.biCtx.free - old(c.biCtx.free) - {msg})
    ensures PermanentKept(c.biCtx)
  {
    hide Val, Weight, Pow2, KeyReady, Numbers, Held, BiCtx.Valid, PowerReady, Powers, Touched, Moduli, Exp;
    hide PowerExponent, ExactModulus, FullModulus;
    LiveNotFree(c.biCtx);
    HeldPermanent(c);
    PrivateObjectsReady(c);
    SelectModulus(c);
    SelectedReady(c);
    PublicObjects(c);
    PrivateObjectsReady(c);
    r := BiModPower(c.biCtx, msg, c.priv.d, thresh);
    LiveNotFree(c.biCtx);
    KeyKept(c);
  }

  method PrivateByCrt(c: RsaCtx, msg: Bigint, thresh: nat) returns (r: Bigint)
    requires c.biCtx.Valid() && KeyReady(c) && ExactPrimes(Numbers(c)) && thresh >= 4 && c.priv.ByCrt?
    requires msg in c.biCtx.live && msg.refs == 1 && msg.Value() < Pow2(8 * c.numOctets)
    modifies c.biCtx`modOffset, c.biCtx`useClassical, c.biCtx`freeList, c.biCtx`freeCount, c.biCtx`activeCount
    modifies c.biCtx`live, c.biCtx`free, c.biCtx.free, msg, Held(c)
    ensures c.biCtx.Valid() && KeyReady(c) && SameKey(c)
    ensures r in c.biCtx.live && r.refs == 1 && PrivateResult(Numbers(c), old(msg.Value()), r.Value())
    ensures r !in old(c.biCtx.live) - {msg} && (r in old(c.biCtx.free) || fresh(r) || r == msg)
    ensures c.biCtx.activeCount == old(c.biCtx.activeCount) && fresh(c.biCtx.free - old(c.biCtx.free) - {msg})
    ensures PermanentKept(c.biCtx)
  {
    hide Val, Weight, Pow2, KeyReady, Numbers, Held, BiCtx.Valid, PowerReady, Powers, Touched, Moduli, Exp;
    hide PowerExponent, ExactModulus, FullModulus;
    LiveNotFree(c.biCtx);
    HeldPermanent(c);
    PublicObjects(c);
    PrivateObjectsReady(c);
    var dP, dQ, qInv := c.priv.dP, c.priv.dQ, c.priv.qInv;
    r := BiCrt(c.biCtx, msg, dP, dQ, qInv, thresh);
    LiveNotFree(c.biCtx);
    KeyKept(c);
    PrivateObjectsReady(c);
  }

  lemma PrivateObjectsReady(c: RsaCtx)
    requires KeyReady(c)
    ensures !c.biCtx.useClassical && PrivateReady(c)
    ensures c.priv.ByExponent? ==> c.priv.d in Held(c) && Numbers(c).priv == Exponent(c.priv.d.Value())
    ensures c.priv.ByCrt? ==>
      && c.priv.dP in Held(c) && c.priv.dQ in Held(c) && c.priv.qInv in Held(c) && Moduli(c.biCtx) <= Held(c)
      && Numbers(c).priv ==
         Primes(PrimeP(c.biCtx), PrimeQ(c.biCtx), c.priv.dP.Value(), c.priv.dQ.Value(), c.priv.qInv.Value())
  {
    hide Val, Weight, Pow2;
  }
}
