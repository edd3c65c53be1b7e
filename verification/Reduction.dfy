/** The three reductions behind `bi_residue`: classical `bi_mod`, Montgomery `bi_mont` and
    Barrett `bi_barrett`. */
module Reductions {
  import opened Radix
  import opened Comps
  import opened CompLoops
  import opened Modular
  import opened Bigints
  import opened Divide

  /** The objects of the current modulus slot that a reduction borrows. */
  ghost function Slot(ctx: BiCtx): (s: set<Bigint>)
    reads ctx
  {
    (if ctx.modOffset in ctx.biMod then {ctx.biMod[ctx.modOffset]} else {}) + Borrowed(ctx, true)
  }

  /** `bi_set_mod` has been called for the slot. */
  ghost predicate ModulusAt(ctx: BiCtx, slot: nat)
    reads ctx, ctx.live
  {
    && slot in ctx.biMod
    && var m := ctx.biMod[slot];
       m in ctx.live && m.Canonical() && m.Value() > 0 && NormalisedAt(ctx, slot, m)
  }

  /** `bi_set_mod` has been called for the current slot. */
  ghost predicate ModulusSet(ctx: BiCtx)
    reads ctx, ctx.live
  {
    ModulusAt(ctx, ctx.modOffset)
  }

  ghost function Modulus(ctx: BiCtx): (m: nat)
    requires ModulusSet(ctx)
    reads ctx, ctx.live
    ensures m > 0
  {
    ctx.biMod[ctx.modOffset].Value()
  }

  /** `bi_mod`: classical reduction by the current modulus. Permanent objects keep their value. */
  method BiMod(ctx: BiCtx, u: Bigint) returns (r: Bigint)
    requires ctx.Valid() && ModulusSet(ctx) && u in ctx.live && u.refs == 1 && u.Canonical()
    modifies ctx`freeList, ctx`freeCount, ctx`activeCount, ctx`live, ctx`free, ctx.free, u, Slot(ctx)
    ensures ctx.Valid() && ModulusSet(ctx) && Modulus(ctx) == old(Modulus(ctx))
    ensures r.Canonical() && r.refs == 1 && r.Value() == old(u.Value()) % Modulus(ctx)
    ensures r == u || (r !in old(ctx.live) && (r in old(ctx.free) || fresh(r)))
    ensures old(ctx.live) - {u} + {r} <= ctx.live && ctx.activeCount == old(ctx.activeCount)
    ensures fresh(ctx.free - old(ctx.free) - {u})
    ensures PermanentKept(ctx)
  {
    hide Val, Weight, BiCtx.Valid;
    LiveNotFree(ctx);
    r := BiDivide(ctx, u, ctx.biMod[ctx.modOffset], true);
    LiveNotFree(ctx);
  }

  // ---- Montgomery ----

  /** After i steps: x is x0 plus a multiple k of m, below Weight(i) of them, and divisible by
      Weight(i). */
  ghost predicate MontState(x0: nat, m: nat, x: nat, i: nat, k: nat)
  {
    x == x0 + k * m && k < Weight(i) && x % Weight(i) == 0
  }

  /** Each step clears component i: its digit times n0 is exactly the multiple of m that cancels it. */
  lemma MontgomeryStep(x0: nat, m: nat, x: nat, i: nat, k: nat, n0: Comp, c: Comp)
    requires MontState(x0, m, x, i, k)
    requires ((m % RADIX) * n0 + 1) % RADIX == 0
    requires c == (((x / Weight(i)) % RADIX) * n0) % RADIX
    ensures MontState(x0, m, x + m * c * Weight(i), i + 1, k + c * Weight(i))
  {
    hide Weight;
    var w := Weight(i);
    var y := x / w;
    assert x == y * w + x % w;
    DigitCancels(y, m, n0, c);
    var z := (y + m * c) / RADIX;
    assert y + m * c == z * RADIX;
    WeightNext(i);
    MontgomeryArithmetic(x0, m, k, c, w, y, z);
    DivModUnique(x + m * c * w, RADIX * w, z, 0);
    MulMonotone(c + 1, RADIX, w);
    assert (c + 1) * w == c * w + w;
  }

  lemma MontgomeryArithmetic(x0: int, m: int, k: int, c: int, w: int, y: int, z: int)
    requires x0 + k * m == y * w && y + m * c == z * RADIX
    ensures y * w + m * c * w == x0 + (k + c * w) * m
    ensures y * w + m * c * w == z * (RADIX * w)
  {
    assert (y + m * c) * w == z * RADIX * w;
    assert (k + c * w) * m == k * m + m * c * w;
  }

  lemma DigitCancels(y: nat, m: nat, n0: Comp, c: Comp)
    requires ((m % RADIX) * n0 + 1) % RADIX == 0
    requires c == ((y % RADIX) * n0) % RADIX
    ensures (y + m * c) % RADIX == 0
  {
    var d, m0 := y % RADIX, m % RADIX;
    CongruentMod(y, RADIX);
    CongruentMod(m, RADIX);
    CongruentMod(d * n0, RADIX);
    CongruentMul(m, m0, c, d * n0, RADIX);
    CongruentAdd(y, d, m * c, m0 * (d * n0), RADIX);
    assert d + m0 * (d * n0) == d * (m0 * n0 + 1);
    CongruentMul(d, d, m0 * n0 + 1, 0, RADIX);
  }

  lemma MontgomeryEnd(x0: nat, m: nat, x: nat, n: nat, k: nat)
    requires MontState(x0, m, x, n, k) && m > 0 && x0 < m * Weight(n)
    ensures x / Weight(n) < 2 * m
    ensures Congruent((x / Weight(n)) * Weight(n), x0, m)
    ensures x / Weight(n) >= m ==> Congruent((x / Weight(n) - m) * Weight(n), x0, m)
  {
    hide Weight;
    var w := Weight(n);
    var y := x / w;
    assert x == y * w + x % w;
    BelowTwice(x0, m, k, w, y);
    FromMultiple(y * w, x0, k, m);
    OneLess(x0, m, k, w, y);
    FromMultiple((y - m) * w, x0, k - w, m);
  }

  lemma BelowTwice(x0: nat, m: nat, k: nat, w: nat, y: int)
    requires y * w == x0 + k * m && k < w && 0 < m && x0 < m * w
    ensures y < 2 * m
  {
    MulMonotone(k, w, m);
    assert w * m == m * w;
    assert 2 * m * w == m * w + m * w;
    MulCancelLess(y, 2 * m, w);
  }

  lemma OneLess(x0: int, m: int, k: int, w: int, y: int)
    requires y * w == x0 + k * m
    ensures (y - m) * w == x0 + (k - w) * m
  {
    assert (y - m) * w == y * w - m * w;
    assert (k - w) * m == k * m - w * m;
  }

  /** The memory at position i of the buffer is component i of the number, or zero beyond it:
      the C code reads comps[i] without looking at the size. */
  ghost predicate ReadableAt(b: Buffer, i: nat)
  {
    i < |b.comps| && (i >= b.size ==> b.comps[i] == 0)
  }

  /** The Montgomery constants of a slot are in place: m is odd and n0 is minus its inverse
      modulo the radix. */
  ghost predicate MontgomeryAt(ctx: BiCtx, slot: nat)
    reads ctx, ctx.live
  {
    && ModulusAt(ctx, slot) && slot in ctx.n0Dash && ctx.biMod[slot].Value() % 2 == 1
    && ((ctx.biMod[slot].Value() % RADIX) * ctx.n0Dash[slot] + 1) % RADIX == 0
  }

  ghost predicate MontgomerySet(ctx: BiCtx)
    reads ctx, ctx.live
  {
    MontgomeryAt(ctx, ctx.modOffset)
  }

  /** One pass of the loop of `bi_mont`. */
  method MontgomeryPass(ctx: BiCtx, bixy: Bigint, bim: Bigint, n0: Comp, i: nat, ghost x0: nat, ghost k: nat)
    returns (ghost k': nat)
    requires ctx.Valid() && bixy in ctx.live && bim in ctx.live && bixy != bim
    requires bixy.refs == 1 && bim.refs == PERMANENT && bixy.Canonical()
    requires ((bim.Value() % RADIX) * n0 + 1) % RADIX == 0
    requires ReadableAt(bixy.buf, i) && MontState(x0, bim.Value(), bixy.Value(), i, k)
    modifies ctx`freeList, ctx`freeCount, ctx`activeCount, ctx`live, ctx`free, ctx.free, bixy`buf, bim`refs
    ensures ctx.Valid() && bim.refs == PERMANENT && bixy.Canonical()
    ensures ReadableAt(bixy.buf, i + 1) && MontState(x0, bim.Value(), bixy.Value(), i + 1, k')
    ensures old(ctx.live) <= ctx.live && ctx.activeCount == old(ctx.activeCount)
    ensures fresh(ctx.free - old(ctx.free))
  {
    hide Val, Weight, BiCtx.Valid, MontState;
    LiveNotFree(ctx);
    var c: Comp := (bixy.buf.comps[i] * n0) % RADIX;
    DigitAt(Digits(bixy.buf), i);
    MontgomeryStep(x0, bim.Value(), bixy.Value(), i, k, n0, c);
    k' := k + c * Weight(i);
    var p := ctx.IntMultiply(bim, c);
    LiveNotFree(ctx);
    p.buf := LeftShift(p.buf, i);
    assert p.buf.size == |Digits(p.buf)| >= i + 1;
    var _ := ctx.Add(bixy, p);
    ZeroedIsReadable(bixy.buf, p.buf.size, i + 1);
  }

  lemma ZeroedIsReadable(b: Buffer, top: nat, i: nat)
    requires i <= top < |b.comps| && b.size <= top + 1 && AllZero(b.comps[b.size..top + 1])
    ensures ReadableAt(b, i)
  {
    if i >= b.size {
      assert b.comps[b.size..top + 1][i - b.size] == b.comps[i];
    }
  }

  /** `bi_mont`: for x below m * R, the number below m that times R is congruent to x. */
  method BiMont(ctx: BiCtx, bixy: Bigint) returns (r: Bigint)
    requires ctx.Valid() && MontgomerySet(ctx) && bixy in ctx.live && bixy.refs == 1 && bixy.Canonical()
    requires bixy.Value() < Modulus(ctx) * Weight(ctx.biMod[ctx.modOffset].buf.size)
    modifies ctx`freeList, ctx`freeCount, ctx`activeCount, ctx`live, ctx`free, ctx.free, bixy, Slot(ctx)
    ensures ctx.Valid() && MontgomerySet(ctx) && Modulus(ctx) == old(Modulus(ctx))
    ensures r == bixy && r.Canonical() && r.refs == 1 && r.Value() < Modulus(ctx)
    ensures Congruent(r.Value() * Weight(old(ctx.biMod[ctx.modOffset].buf.size)), old(bixy.Value()), Modulus(ctx))
    ensures old(ctx.live) <= ctx.live && ctx.activeCount == old(ctx.activeCount)
    ensures fresh(ctx.free - old(ctx.free))
    ensures PermanentKept(ctx)
  {
    hide Val, Weight, BiCtx.Valid, MontState, ReadableAt;
    LiveNotFree(ctx);
    var bim, n0 := ctx.biMod[ctx.modOffset], ctx.n0Dash[ctx.modOffset];
    ghost var x0, m := bixy.Value(), bim.Value();
    ghost var k := MontgomeryLoop(ctx, bixy, bim, n0);
    LiveNotFree(ctx);
    MontgomeryEnd(x0, m, bixy.Value(), bim.buf.size, k);
    bixy.buf := RightShift(bixy.buf, bim.buf.size);
    SubtractOnce(ctx, bixy, bim);
    r := bixy;
  }

  /** The passes of `bi_mont` over all components of the modulus. */
  method MontgomeryLoop(ctx: BiCtx, bixy: Bigint, bim: Bigint, n0: Comp) returns (ghost k: nat)
    requires ctx.Valid() && bixy in ctx.live && bim in ctx.live && bixy != bim
    requires bixy.refs == 1 && bim.refs == PERMANENT && bixy.Canonical()
    requires ((bim.Value() % RADIX) * n0 + 1) % RADIX == 0
    modifies ctx`freeList, ctx`freeCount, ctx`activeCount, ctx`live, ctx`free, ctx.free, bixy`buf, bim`refs
    ensures ctx.Valid() && bim.refs == PERMANENT && bixy.Canonical()
    ensures MontState(old(bixy.Value()), bim.Value(), bixy.Value(), bim.buf.size, k)
    ensures old(ctx.live) <= ctx.live && ctx.activeCount == old(ctx.activeCount)
    ensures fresh(ctx.free - old(ctx.free))
  {
    hide Val, Weight, BiCtx.Valid, MontState, ReadableAt;
    LiveNotFree(ctx);
    ghost var x0 := bixy.Value();
    k := 0;
    MontgomeryStart(x0, bim.Value());
    assert ReadableAt(bixy.buf, 0) by { ZeroIsReadable(bixy.buf); }
    var i := 0;
    while i < bim.buf.size
      invariant 0 <= i <= bim.buf.size && ctx.Valid() && bixy.Canonical()
      invariant old(ctx.live) <= ctx.live && ctx.activeCount == old(ctx.activeCount)
      invariant fresh(ctx.free - old(ctx.free))
      invariant bim.refs == PERMANENT
      invariant ReadableAt(bixy.buf, i) && MontState(x0, bim.Value(), bixy.Value(), i, k)
    {
      LiveNotFree(ctx);
      k := MontgomeryPass(ctx, bixy, bim, n0, i, x0, k);
      i := i + 1;
    }
  }

  lemma ZeroIsReadable(b: Buffer)
    ensures ReadableAt(b, 0)
  {
  }

  /** `if (bi_compare(bi, bim) >= 0) bi = bi_subtract(ctx, bi, bim, NULL)`. */
  method SubtractOnce(ctx: BiCtx, bi: Bigint, bim: Bigint)
    requires ctx.Valid() && bi in ctx.live && bim in ctx.live && bi != bim
    requires bi.Canonical() && bim.Canonical() && bim.refs == PERMANENT
    modifies ctx`freeList, ctx`freeCount, ctx`activeCount, ctx`live, ctx`free, bi`buf, bim
    ensures ctx.Valid() && bi.Canonical() && bim.refs == PERMANENT && Digits(bim.buf) == old(Digits(bim.buf))
    ensures bi.Value() == old(if bi.Value() >= bim.Value() then bi.Value() - bim.Value() else bi.Value())
    ensures old(ctx.live) <= ctx.live && ctx.free <= old(ctx.free) && ctx.activeCount == old(ctx.activeCount)
  {
    hide Val, Weight, BiCtx.Valid;
    var c := Compare(Digits(bi.buf), Digits(bim.buf));
    if c >= 0 {
      if bi.buf.size < bim.buf.size { LongerIsLarger(Digits(bim.buf), Digits(bi.buf)); }
      var _, _ := ctx.Subtract(bi, bim);
    }
  }

  lemma MontgomeryStart(x0: nat, m: nat)
    ensures MontState(x0, m, x0, 0, 0)
  {
    assert 0 * m == 0;
  }
}
