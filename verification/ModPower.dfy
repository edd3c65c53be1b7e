/** `bi_mod_power`: sliding-window exponentiation over bigint objects, under any configured
    reduction. */
module ModPower {
  import opened Radix
  import opened Comps
  import opened Modular
  import opened Exponent
  import opened Bigints
  import opened Divide
  import opened Products
  import opened Reductions
  import opened BarrettTheory
  import opened BarrettReduction
  import opened Residue

  // ---- R has an inverse ----

  /** The Montgomery constant n0 exhibits an inverse of the radix modulo m. */
  lemma RadixInverse(m: nat, n0: nat) returns (t: int)
    requires m > 0 && ((m % RADIX) * n0 + 1) % RADIX == 0
    ensures Inverse(RADIX, t, m)
  {
    CongruentMod(m, RADIX);
    CongruentMul(m % RADIX, m, n0, n0, RADIX);
    CongruentAdd((m % RADIX) * n0, m * n0, 1, 1, RADIX);
    var x := m * n0 + 1;
    t := x / RADIX;
    assert x == RADIX * t;
    assert RADIX * t == 1 + n0 * m;
    FromMultiple(RADIX * t, 1, n0, m);
  }

  lemma {:induction false} WeightInverse(m: nat, t: int, n: nat) returns (inv: int)
    requires Inverse(RADIX, t, m)
    ensures Inverse(Weight(n), inv, m)
  {
    if n == 0 {
      inv := 1;
    } else {
      var u := WeightInverse(m, t, n - 1);
      inv := t * u;
      CongruentMul(RADIX * t, 1, Weight(n - 1) * u, 1, m);
      var w := Weight(n - 1);
      assert RADIX * w * (t * u) == RADIX * t * (w * u);
    }
  }

  /** Whatever the reduction, the factor it divides out is invertible modulo m. */
  lemma FactorInverse(ctx: BiCtx) returns (inv: int)
    requires ReductionSet(ctx)
    ensures ModulusSet(ctx) && Inverse(Factored(ctx), inv, Modulus(ctx))
  {
    hide Val, Weight;
    if InMontgomery(ctx) {
      var t := RadixInverse(Modulus(ctx), ctx.n0Dash[ctx.modOffset]);
      inv := WeightInverse(Modulus(ctx), t, ctx.biMod[ctx.modOffset].buf.size);
    } else {
      inv := 1;
    }
  }

  // ---- one squaring, one multiplication ----

  /** The number raised to a power, and whether every residue on the way stays below the modulus even under
      Barrett reduction. */
  datatype Base = Base(number: int, tight: bool)

  /** The running product: in Montgomery form it stays below the modulus, and so it does where it is tight
      unless the reduction is exact for every product, so that the next product can be reduced. */
  ghost predicate Fits(ctx: BiCtx, v: nat, tight: bool)
    reads ctx, ctx.live
  {
    && ModulusSet(ctx) && (InMontgomery(ctx) ==> v < Modulus(ctx))
    && (tight && ctx.reduction == Barrett ==> ExactBase(Modulus(ctx), v))
  }

  lemma ProductFits(ctx: BiCtx, v1: nat, v2: nat, tight: bool)
    requires Fits(ctx, v1, tight) && Fits(ctx, v2, tight)
    ensures InMontgomery(ctx) ==> v1 * v2 < Modulus(ctx) * Factored(ctx)
    ensures tight && ctx.reduction == Barrett ==> ExactFor(Modulus(ctx), v1 * v2)
  {
    hide Val, Weight, ExactBase, ExactFor;
    var m := Modulus(ctx);
    if tight && ctx.reduction == Barrett { ExactProduct(m, v1, v2); }
    if InMontgomery(ctx) {
      ValBound(Digits(ctx.biMod[ctx.modOffset].buf));
      MulMonotone(v1, m, v2);
      MulStrict(v2, Factored(ctx), m);
      assert v2 * m == m * v2;
    }
  }

  /** `bi_residue(ctx, bi_square(ctx, x))`. */
  method SquareStep(ctx: BiCtx, x: Bigint, thresh: nat, ghost tight: bool) returns (r: Bigint)
    requires ctx.Valid() && ReductionSet(ctx) && x in ctx.live && thresh >= 4
    requires (x.refs == 1 || x.refs == PERMANENT) && Fits(ctx, x.Value(), tight)
    modifies ctx`freeList, ctx`freeCount, ctx`activeCount, ctx`live, ctx`free, ctx.free, x, Touched(ctx)
    ensures ctx.Valid() && ReductionSet(ctx)
    ensures SameReduction(ctx)
    ensures r.Canonical() && r.refs == 1 && r.Value() < Bound(ctx, tight)
    ensures IsResidue(r.Value(), old(x.Value() * x.Value()), Factored(ctx), Modulus(ctx))
    ensures r !in old(ctx.live) - {x} && (r in old(ctx.free) || fresh(r) || (r == x && old(x.refs) == 1))
    ensures old(ctx.live) - {x} + {r} <= ctx.live
    ensures ctx.activeCount == old(ctx.activeCount) + 1 - Last(old(x.refs))
    ensures fresh(ctx.free - old(ctx.free) - {x})
    ensures PermanentKept(ctx)
  {
    hide Val, Weight, BiCtx.Valid, IsQuotient, NormalisedStored, MontgomerySet, BarrettSet, ExactBase, ExactFor;
    ProductFits(ctx, x.Value(), x.Value(), tight);
    var p := SquareOperand(ctx, x, thresh);
    r := BiResidue(ctx, p);
  }

  /** `bi_square` between reductions: the modulus and its constants are still in place. */
  method SquareOperand(ctx: BiCtx, x: Bigint, thresh: nat) returns (r: Bigint)
    requires ctx.Valid() && ReductionSet(ctx) && x in ctx.live && thresh >= 4
    requires x.refs == 1 || x.refs == PERMANENT
    modifies ctx`freeList, ctx`freeCount, ctx`activeCount, ctx`live, ctx`free, ctx.free, x
    ensures ctx.Valid() && ReductionSet(ctx)
    ensures SameReduction(ctx)
    ensures r.Canonical() && r.refs == 1 && r.Value() == old(x.Value() * x.Value())
    ensures r !in old(ctx.live) - {x} && (r in old(ctx.free) || fresh(r) || (r == x && old(x.refs) == 1))
    ensures old(ctx.live) - {x} + {r} <= ctx.live
    ensures ctx.activeCount == old(ctx.activeCount) + 1 - Last(old(x.refs))
    ensures fresh(ctx.free - old(ctx.free) - {x})
    ensures PermanentKept(ctx)
  {
    hide Val, Weight, BiCtx.Valid, IsQuotient;
    LiveNotFree(ctx);
    r := BiSquare(ctx, x, thresh);
  }

  /** `bi_residue(ctx, bi_multiply(ctx, x, y))` where y is permanent or has another
      reference, so that it stays. */
  method MultiplyStep(ctx: BiCtx, x: Bigint, y: Bigint, ghost tight: bool) returns (r: Bigint)
    requires ctx.Valid() && ReductionSet(ctx) && x in ctx.live && y in ctx.live && x != y
    requires (x.refs == 1 || x.refs == PERMANENT) && y.refs != 1
    requires Fits(ctx, x.Value(), tight) && Fits(ctx, y.Value(), tight)
    modifies ctx`freeList, ctx`freeCount, ctx`activeCount, ctx`live, ctx`free, ctx.free, x, y, Touched(ctx)
    ensures ctx.Valid() && ReductionSet(ctx)
    ensures SameReduction(ctx)
    ensures r.Canonical() && r.refs == 1 && r.Value() < Bound(ctx, tight)
    ensures IsResidue(r.Value(), old(x.Value() * y.Value()), Factored(ctx), Modulus(ctx))
    ensures r !in old(ctx.live) - {x} && (r in old(ctx.free) || fresh(r) || (r == x && old(x.refs) == 1))
    ensures old(ctx.live) - {x} + {r} <= ctx.live
    ensures y.refs == DropRef(old(y.refs)) && Digits(y.buf) == old(Digits(y.buf))
    ensures ctx.activeCount == old(ctx.activeCount) + 1 - Last(old(x.refs))
    ensures fresh(ctx.free - old(ctx.free) - {x})
    ensures PermanentKept(ctx)
  {
    hide Val, Weight, BiCtx.Valid, IsQuotient, NormalisedStored, MontgomerySet, BarrettSet, ExactBase, ExactFor;
    ProductFits(ctx, x.Value(), y.Value(), tight);
    var p := MultiplyOperands(ctx, x, y);
    LiveNotFree(ctx);
    TouchedPermanent(ctx);
    r := BiResidue(ctx, p);
  }

  method MultiplyOperands(ctx: BiCtx, x: Bigint, y: Bigint) returns (r: Bigint)
    requires ctx.Valid() && ReductionSet(ctx) && x in ctx.live && y in ctx.live && x != y
    requires (x.refs == 1 || x.refs == PERMANENT) && y.refs != 1
    modifies ctx`freeList, ctx`freeCount, ctx`activeCount, ctx`live, ctx`free, ctx.free, x`refs, y`refs
    ensures ctx.Valid() && ReductionSet(ctx)
    ensures SameReduction(ctx)
    ensures r.Canonical() && r.refs == 1 && r.Value() == old(x.Value() * y.Value())
    ensures r !in old(ctx.live) && (r in old(ctx.free) || fresh(r))
    ensures old(ctx.live) - {x} + {r} <= ctx.live
    ensures y.refs == DropRef(old(y.refs)) && Digits(y.buf) == old(Digits(y.buf))
    ensures ctx.activeCount == old(ctx.activeCount) + 1 - Last(old(x.refs))
    ensures fresh(ctx.free - old(ctx.free) - {x})
    ensures PermanentKept(ctx)
  {
    hide Val, Weight, BiCtx.Valid, IsQuotient;
    LiveNotFree(ctx);
    r := BiMultiply(ctx, x, y);
    LiveNotFree(ctx);
  }

  // ---- the table of odd powers ----

  /** Entry t of the table is permanent and represents the power 2t + 1 of b. */
  ghost predicate TableReady(ctx: BiCtx, g: seq<Bigint>, b: Base)
    requires ModulusSet(ctx)
    reads ctx, ctx.live
  {
    forall t :: 0 <= t < |g| ==>
      && g[t] in ctx.live && g[t].refs == PERMANENT && Fits(ctx, g[t].Value(), b.tight)
      && Represents(g[t].Value(), b.number, 2 * t + 1, Factored(ctx), Modulus(ctx))
  }

  /** acc represents the power x of b. */
  ghost predicate Running(ctx: BiCtx, acc: Bigint, b: Base, x: nat)
    requires ModulusSet(ctx)
    reads ctx, ctx.live, acc
  {
    && acc in ctx.live && (acc.refs == 1 || acc.refs == PERMANENT) && Fits(ctx, acc.Value(), b.tight)
    && Represents(acc.Value(), b.number, x, Factored(ctx), Modulus(ctx))
  }

  /** One squaring doubles the exponent; the table is still there. */
  method DoubleExponent(ctx: BiCtx, acc: Bigint, g: seq<Bigint>, thresh: nat, ghost b: Base, ghost x: nat)
    returns (r: Bigint)
    requires ctx.Valid() && ReductionSet(ctx) && thresh >= 4
    requires Running(ctx, acc, b, x) && TableReady(ctx, g, b)
    modifies ctx`freeList, ctx`freeCount, ctx`activeCount, ctx`live, ctx`free, ctx.free, acc, Touched(ctx)
    ensures ctx.Valid() && ReductionSet(ctx)
    ensures SameReduction(ctx)
    ensures r.refs == 1 && r.Canonical() && r.Value() < Bound(ctx, b.tight)
    ensures Running(ctx, r, b, 2 * x) && TableReady(ctx, g, b)
    ensures r !in old(ctx.live) - {acc} && (r in old(ctx.free) || fresh(r) || (r == acc && old(acc.refs) == 1))
    ensures old(ctx.live) - {acc} + {r} <= ctx.live
    ensures ctx.activeCount == old(ctx.activeCount) + 1 - Last(old(acc.refs))
    ensures fresh(ctx.free - old(ctx.free) - {acc})
    ensures PermanentKept(ctx)
  {
    hide Val, Weight, BiCtx.Valid, IsQuotient, NormalisedStored, MontgomerySet, BarrettSet, Represents;
    hide ExactModulus, FullModulus, ExactFor;
    ghost var v := acc.Value();
    r := SquareStep(ctx, acc, thresh, b.tight);
    ghost var inv := FactorInverse(ctx);
    ProductRepresents(v, v, r.Value(), b.number, x, x, Factored(ctx), inv, Modulus(ctx));
  }

  /** One multiplication by a table entry adds its odd exponent. */
  method AddExponent(ctx: BiCtx, acc: Bigint, g: seq<Bigint>, t: nat, ghost b: Base, ghost x: nat) returns (r: Bigint)
    requires ctx.Valid() && ReductionSet(ctx) && t < |g|
    requires Running(ctx, acc, b, x) && TableReady(ctx, g, b) && acc != g[t]
    modifies ctx`freeList, ctx`freeCount, ctx`activeCount, ctx`live, ctx`free, ctx.free, acc, g, Touched(ctx)
    ensures ctx.Valid() && ReductionSet(ctx)
    ensures SameReduction(ctx)
    ensures r.refs == 1 && r.Canonical() && r.Value() < Bound(ctx, b.tight)
    ensures Running(ctx, r, b, x + 2 * t + 1) && TableReady(ctx, g, b)
    ensures r !in old(ctx.live) - {acc} && (r in old(ctx.free) || fresh(r) || (r == acc && old(acc.refs) == 1))
    ensures old(ctx.live) - {acc} + {r} <= ctx.live
    ensures ctx.activeCount == old(ctx.activeCount) + 1 - Last(old(acc.refs))
    ensures fresh(ctx.free - old(ctx.free) - {acc})
    ensures PermanentKept(ctx)
  {
    hide Val, Weight, BiCtx.Valid, IsQuotient, NormalisedStored, MontgomerySet, BarrettSet, Represents;
    hide ExactModulus, FullModulus, ExactFor;
    ghost var v, w := acc.Value(), g[t].Value();
    r := MultiplyStep(ctx, acc, g[t], b.tight);
    ghost var inv := FactorInverse(ctx);
    ProductRepresents(v, w, r.Value(), b.number, x, 2 * t + 1, Factored(ctx), inv, Modulus(ctx));
  }

  // ---- one window ----

  /** The loop over the bits i down to l of a window: one squaring each, and the value of the
      window is collected. */
  method WindowSquares(ctx: BiCtx, acc: Bigint, g: seq<Bigint>, bits: seq<Comp>, i: nat, l: nat, thresh: nat,
                       ghost b: Base)
    returns (r: Bigint, partExp: nat)
    requires ctx.Valid() && ReductionSet(ctx) && thresh >= 4 && |bits| >= 1 && l <= i < 32 * |bits|
    requires Running(ctx, acc, b, Shr(Val(bits), i + 1)) && TableReady(ctx, g, b)
    modifies ctx`freeList, ctx`freeCount, ctx`activeCount, ctx`live, ctx`free, ctx.free, acc, Touched(ctx)
    ensures ctx.Valid() && ReductionSet(ctx)
    ensures SameReduction(ctx)
    ensures Chunk(Val(bits), i, l, partExp) && r.refs == 1
    ensures Running(ctx, r, b, Opened(Val(bits), i, i + 1 - l)) && TableReady(ctx, g, b)
    ensures r !in old(ctx.live) - {acc} && (r in old(ctx.free) || fresh(r) || (r == acc && old(acc.refs) == 1))
    ensures old(ctx.live) - {acc} + {r} <= ctx.live
    ensures ctx.activeCount == old(ctx.activeCount) + 1 - Last(old(acc.refs))
    ensures fresh(ctx.free - old(ctx.free) - {acc})
    ensures PermanentKept(ctx)
  {
    hide Val, Weight, BiCtx.Valid, ReductionSet, ModulusSet, Modulus, Factored, Touched, Represents, Bound, Fits;
    hide TableReady, Chunk, Shr, Bit, Opened;
    LiveNotFree(ctx);
    ReductionMeans(ctx);
    ghost var e := Val(bits);
    r, partExp := acc, 0;
    ghost var c := 0;
    var j: int := i;
    ChunkStart(e, i);
    OpenedStep(e, i, 0);
    while j >= l
      invariant l - 1 <= j <= i && ctx.Valid() && ReductionSet(ctx) && ModulusSet(ctx)
      invariant SameReduction(ctx)
      invariant Chunk(e, i, j + 1, c) && partExp == (if j >= l then 2 * c else c)
      invariant Running(ctx, r, b, Opened(e, i, i - j)) && TableReady(ctx, g, b)
      invariant j == i ==> r == acc && r.refs == old(acc.refs) && ctx.activeCount == old(ctx.activeCount)
      invariant j < i ==> r.refs == 1 && ctx.activeCount == old(ctx.activeCount) + 1 - Last(old(acc.refs))
      invariant r in old(ctx.free) || fresh(r) || (r == acc && (j == i || old(acc.refs) == 1))
      invariant r !in old(ctx.live) - {acc} && old(ctx.live) - {acc} <= ctx.live
      invariant fresh(ctx.free - old(ctx.free) - {acc})
      invariant PermanentKept(ctx)
    {
      LiveNotFree(ctx);
      ReductionMeans(ctx);
      OpenedStep(e, i, i - j);
      r := DoubleExponent(ctx, r, g, thresh, b, Opened(e, i, i - j));
      ChunkStep(e, i, j, c);
      var one := ExpBitIsOne(bits, j);
      if one { partExp := partExp + 1; }
      c := partExp;
      if j != l { partExp := 2 * partExp; }
      j := j - 1;
      ReductionMeans(ctx);
    }
  }

  /** The search for the end of a window: back up over zero bits. */
  method FindWindowEnd(bits: seq<Comp>, w: nat, i: nat) returns (l: nat)
    requires |bits| >= 1 && w >= 1 && i < 32 * |bits| && Bit(Val(bits), i)
    ensures l == WindowEnd(Val(bits), w, i)
  {
    hide Val, Bit;
    if i + 1 - w < 0 {
      l := 0;
    } else {
      l := i + 1 - w;
      ghost var l0 := l;
      var one := ExpBitIsOne(bits, l);
      while !one
        invariant l0 <= l <= i && one == Bit(Val(bits), l)
        invariant LowestOne(Val(bits), l, i) == LowestOne(Val(bits), l0, i)
        decreases i - l
      {
        l := l + 1;
        one := ExpBitIsOne(bits, l);
      }
    }
  }

  /** A window: its squarings, then one multiplication by a table entry. */
  method WindowStep(ctx: BiCtx, acc: Bigint, g: seq<Bigint>, bits: seq<Comp>, i: nat, w: nat, thresh: nat,
                    ghost b: Base, ghost bad: bool)
    returns (r: Bigint, l: nat)
    requires ctx.Valid() && ReductionSet(ctx) && thresh >= 4 && |bits| >= 1 && i < 32 * |bits|
    requires w >= 1 && |g| == Pow2(w - 1) && Bit(Val(bits), i) && BadTail(Val(bits), w, i) == bad
    requires Running(ctx, acc, b, Reached(Val(bits), i, bad)) && TableReady(ctx, g, b)
    modifies ctx`freeList, ctx`freeCount, ctx`activeCount, ctx`live, ctx`free, ctx.free, acc, g, Touched(ctx)
    ensures ctx.Valid() && ReductionSet(ctx)
    ensures SameReduction(ctx)
    ensures l <= i && (l >= 1 ==> BadTail(Val(bits), w, l - 1) == bad)
    ensures r.refs == 1 && r.Canonical() && r.Value() < Bound(ctx, b.tight)
    ensures Running(ctx, r, b, Reached(Val(bits), l - 1, bad)) && TableReady(ctx, g, b)
    ensures r !in old(ctx.live) - {acc} && (r in old(ctx.free) || fresh(r) || (r == acc && old(acc.refs) == 1))
    ensures old(ctx.live) - {acc} + {r} <= ctx.live
    ensures ctx.activeCount == old(ctx.activeCount) + 1 - Last(old(acc.refs))
    ensures fresh(ctx.free - old(ctx.free) - {acc})
    ensures PermanentKept(ctx)
  {
    hide Val, Weight, BiCtx.Valid, ReductionSet, ModulusSet, Modulus, Factored, Touched, Represents, Bound, Fits;
    hide Chunk, Shr, Bit, Opened, BadTail, WindowEnd, Pow2;
    LiveNotFree(ctx);
    ReductionMeans(ctx);
    ghost var e := Val(bits);
    l := FindWindowEnd(bits, w, i);
    var squared, partExp := WindowSquares(ctx, acc, g, bits, i, l, thresh, b);
    LiveNotFree(ctx);
    ReductionMeans(ctx);
    ReachedWindow(e, w, i, l, partExp, bad);
    r := AddExponent(ctx, squared, g, (partExp - 1) / 2, b, Opened(e, i, i + 1 - l));
  }

  // ---- the scan over the exponent ----

  /** One pass of the main loop at bit i; i' is where the next one stands. For a zero exponent the
      loop starts at -1 and makes a single pass. */
  method ScanStep(ctx: BiCtx, acc: Bigint, g: seq<Bigint>, bits: seq<Comp>, i: int, w: nat, thresh: nat,
                  ghost b: Base, ghost bad: bool)
    returns (r: Bigint, i': int)
    requires ctx.Valid() && ReductionSet(ctx) && thresh >= 4 && |bits| >= 1 && -1 <= i < 32 * |bits|
    requires w >= 1 && |g| == Pow2(w - 1) && BadTail(Val(bits), w, i) == bad && (i == -1 ==> Val(bits) == 0)
    requires Running(ctx, acc, b, Reached(Val(bits), i, bad)) && TableReady(ctx, g, b)
    modifies ctx`freeList, ctx`freeCount, ctx`activeCount, ctx`live, ctx`free, ctx.free, acc, g, Touched(ctx)
    ensures ctx.Valid() && ReductionSet(ctx)
    ensures SameReduction(ctx)
    ensures -2 <= i' < i && (i' >= 0 ==> BadTail(Val(bits), w, i') == bad)
    ensures r.refs == 1 && r.Canonical() && r.Value() < Bound(ctx, b.tight)
    ensures Running(ctx, r, b, Reached(Val(bits), i', bad)) && TableReady(ctx, g, b)
    ensures r !in old(ctx.live) - {acc} && (r in old(ctx.free) || fresh(r) || (r == acc && old(acc.refs) == 1))
    ensures old(ctx.live) - {acc} + {r} <= ctx.live
    ensures ctx.activeCount == old(ctx.activeCount) + 1 - Last(old(acc.refs))
    ensures fresh(ctx.free - old(ctx.free) - {acc})
    ensures PermanentKept(ctx)
  {
    hide Val, Weight, BiCtx.Valid, ReductionSet, ModulusSet, Modulus, Factored, Touched, Represents, Bound, Fits;
    hide Running, TableReady, Bit, BadTail, Pow2;
    ReductionMeans(ctx);
    ghost var e := Val(bits);
    var one := ExpBitIsOne(bits, i);
    if i == -1 { ZeroHasNoBit(); }
    if one {
      var l: nat;
      r, l := WindowStep(ctx, acc, g, bits, i, w, thresh, b, bad);
      i' := l as int - 1;
    } else {
      r := DoubleExponent(ctx, acc, g, thresh, b, Reached(e, i, bad));
      i' := i - 1;
      if i >= 0 { ReachedZeroBit(e, w, i, bad); }
    }
  }

  lemma ZeroHasNoBit()
    ensures !Bit(0, 0)
  {
  }

  /** The remaining passes of the main loop, once the running product is an object of its own. */
  method ScanRest(ctx: BiCtx, acc: Bigint, g: seq<Bigint>, bits: seq<Comp>, start: int, w: nat, thresh: nat,
                  ghost b: Base, ghost bad: bool)
    returns (r: Bigint)
    requires ctx.Valid() && ReductionSet(ctx) && thresh >= 4 && |bits| >= 1 && -2 <= start < 32 * |bits|
    requires w >= 1 && |g| == Pow2(w - 1) && (start >= 0 ==> BadTail(Val(bits), w, start) == bad)
    requires acc.refs == 1 && acc.Canonical() && acc.Value() < Bound(ctx, b.tight)
    requires Running(ctx, acc, b, Reached(Val(bits), start, bad)) && TableReady(ctx, g, b)
    modifies ctx`freeList, ctx`freeCount, ctx`activeCount, ctx`live, ctx`free, ctx.free, acc, g, Touched(ctx)
    ensures ctx.Valid() && ReductionSet(ctx)
    ensures SameReduction(ctx)
    ensures r.refs == 1 && r.Canonical() && r.Value() < Bound(ctx, b.tight)
    ensures Running(ctx, r, b, Reached(Val(bits), -1, bad)) && TableReady(ctx, g, b)
    ensures r !in old(ctx.live) - {acc} && (r in old(ctx.free) || fresh(r) || r == acc)
    ensures old(ctx.live) - {acc} + {r} <= ctx.live && ctx.activeCount == old(ctx.activeCount)
    ensures fresh(ctx.free - old(ctx.free) - {acc})
    ensures PermanentKept(ctx)
  {
    hide Val, Weight, BiCtx.Valid, ReductionSet, ModulusSet, Modulus, Factored, Touched, Represents, Bound, Fits, Bit;
    hide BadTail, Pow2, Shr, TableReady;
    LiveNotFree(ctx);
    ReductionMeans(ctx);
    var i := start;
    r := acc;
    while i >= 0
      invariant -2 <= i < 32 * |bits| && ctx.Valid() && ReductionSet(ctx) && ModulusSet(ctx)
      invariant SameReduction(ctx)
      invariant i >= 0 ==> BadTail(Val(bits), w, i) == bad
      invariant r.refs == 1 && r.Canonical() && r.Value() < Bound(ctx, b.tight)
      invariant ctx.activeCount == old(ctx.activeCount)
      invariant Running(ctx, r, b, Reached(Val(bits), i, bad)) && TableReady(ctx, g, b)
      invariant r !in old(ctx.live) - {acc} && (r in old(ctx.free) || fresh(r) || r == acc)
      invariant old(ctx.live) - {acc} <= ctx.live && fresh(ctx.free - old(ctx.free) - {acc})
      invariant PermanentKept(ctx)
      decreases i
    {
      LiveNotFree(ctx);
      ReductionMeans(ctx);
      r, i := ScanStep(ctx, r, g, bits, i, w, thresh, b, bad);
      ReductionMeans(ctx);
    }
  }

  /** The main do/while loop of `bi_mod_power`. */
  method PowerLoop(ctx: BiCtx, biR: Bigint, g: seq<Bigint>, bits: seq<Comp>, top: int, w: nat, thresh: nat,
                   ghost b: Base)
    returns (r: Bigint)
    requires ctx.Valid() && ReductionSet(ctx) && thresh >= 4 && |bits| >= 1 && -1 <= top < 32 * |bits|
    requires w >= 1 && |g| == Pow2(w - 1)
    requires if top == -1 then Val(bits) == 0 else Shr(Val(bits), top + 1) == 0
    requires Running(ctx, biR, b, 0) && TableReady(ctx, g, b)
    modifies ctx`freeList, ctx`freeCount, ctx`activeCount, ctx`live, ctx`free, ctx.free, biR, g, Touched(ctx)
    ensures ctx.Valid() && ReductionSet(ctx)
    ensures SameReduction(ctx)
    ensures r.refs == 1 && r.Canonical() && r.Value() < Bound(ctx, b.tight)
    ensures Running(ctx, r, b, Reached(Val(bits), -1, BadTail(Val(bits), w, top))) && TableReady(ctx, g, b)
    ensures r !in old(ctx.live) - {biR} && (r in old(ctx.free) || fresh(r) || (r == biR && old(biR.refs) == 1))
    ensures old(ctx.live) - {biR} + {r} <= ctx.live
    ensures ctx.activeCount == old(ctx.activeCount) + 1 - Last(old(biR.refs))
    ensures fresh(ctx.free - old(ctx.free) - {biR})
    ensures PermanentKept(ctx)
  {
    hide Val, Weight, BiCtx.Valid, ReductionSet, ModulusSet, Modulus, Factored, Touched, Represents, Bound, Fits, Bit;
    hide BadTail, Pow2, Shr, TableReady;
    LiveNotFree(ctx);
    ReductionMeans(ctx);
    ghost var bad := BadTail(Val(bits), w, top);
    var first, i := ScanStep(ctx, biR, g, bits, top, w, thresh, b, bad);
    LiveNotFree(ctx);
    ReductionMeans(ctx);
    r := ScanRest(ctx, first, g, bits, i, w, thresh, b, bad);
  }

  // ---- precomputation and clean-up ----

  /** A further odd power: the previous one times the square of the base. */
  method NextPower(ctx: BiCtx, last: Bigint, g2: Bigint, ghost b: Base, ghost t: nat) returns (r: Bigint)
    requires ctx.Valid() && ReductionSet(ctx) && last != g2
    requires Running(ctx, last, b, 2 * t + 1) && last.refs == PERMANENT
    requires Running(ctx, g2, b, 2) && g2.refs == 1
    modifies ctx`freeList, ctx`freeCount, ctx`activeCount, ctx`live, ctx`free, ctx.free, last, g2, Touched(ctx)
    ensures ctx.Valid() && ReductionSet(ctx)
    ensures SameReduction(ctx)
    ensures Running(ctx, r, b, 2 * t + 3) && r.refs == 1 && r != g2
    ensures Running(ctx, g2, b, 2) && g2.refs == 1
    ensures r !in old(ctx.live) && (r in old(ctx.free) || fresh(r))
    ensures old(ctx.live) + {r} <= ctx.live && ctx.activeCount == old(ctx.activeCount) + 1
    ensures fresh(ctx.free - old(ctx.free))
    ensures PermanentKept(ctx)
  {
    hide Val, Weight, BiCtx.Valid, IsQuotient, NormalisedStored, MontgomerySet, BarrettSet, Represents;
    hide ExactModulus, FullModulus, ExactFor;
    ghost var v, w := last.Value(), g2.Value();
    LiveNotFree(ctx);
    var copy := CopyBetween(ctx, g2);
    r := MultiplyStep(ctx, last, copy, b.tight);
    LiveNotFree(ctx);
    ghost var inv := FactorInverse(ctx);
    ProductRepresents(v, w, r.Value(), b.number, 2 * t + 1, 2, Factored(ctx), inv, Modulus(ctx));
  }

  /** `bi_copy` between reductions. */
  method CopyBetween(ctx: BiCtx, x: Bigint) returns (r: Bigint)
    requires ctx.Valid() && ReductionSet(ctx) && x in ctx.live && x.refs == 1
    modifies x`refs
    ensures ctx.Valid() && ReductionSet(ctx) && r == x && x.refs == 2
    ensures SameReduction(ctx)
  {
    hide Val, Weight, BiCtx.Valid, IsQuotient;
    r := ctx.Copy(x);
  }

  /** `bi_permanent` between reductions. */
  method MakePermanent(ctx: BiCtx, x: Bigint)
    requires ctx.Valid() && ReductionSet(ctx) && x in ctx.live && x.refs == 1
    modifies x`refs
    ensures ctx.Valid() && ReductionSet(ctx) && x.refs == PERMANENT
    ensures SameReduction(ctx)
  {
    hide Val, Weight, BiCtx.Valid, IsQuotient;
    ctx.Permanent(x);
  }

  /** Every entry of the table is an object of its own. */
  ghost predicate Distinct(g: seq<Bigint>)
  {
    forall i, j :: 0 <= i < j < |g| ==> g[i] != g[j]
  }

  /** `bi_clone` between reductions. */
  method CloneBetween(ctx: BiCtx, bi: Bigint) returns (r: Bigint)
    requires ctx.Valid() && ReductionSet(ctx) && bi in ctx.live
    modifies ctx`freeList, ctx`freeCount, ctx`activeCount, ctx`live, ctx`free, ctx.free
    ensures ctx.Valid() && ReductionSet(ctx)
    ensures SameReduction(ctx)
    ensures r.refs == 1 && Digits(r.buf) == Digits(bi.buf)
    ensures r !in old(ctx.live) && (r in old(ctx.free) || fresh(r))
    ensures old(ctx.live) + {r} <= ctx.live && ctx.activeCount == old(ctx.activeCount) + 1
    ensures ctx.free <= old(ctx.free)
  {
    hide Val, Weight, BiCtx.Valid, IsQuotient;
    LiveNotFree(ctx);
    r := ctx.Clone(bi);
  }

  /** The first table entry, a permanent copy of the base, and the base squared. */
  method FirstPowers(ctx: BiCtx, base: Bigint, thresh: nat, ghost b: Base) returns (g0: Bigint, g2: Bigint)
    requires ctx.Valid() && ReductionSet(ctx) && base in ctx.live && Fits(ctx, base.Value(), b.tight)
    requires Represents(base.Value(), b.number, 1, Factored(ctx), Modulus(ctx)) && thresh >= 4
    modifies ctx`freeList, ctx`freeCount, ctx`activeCount, ctx`live, ctx`free, ctx.free, Touched(ctx)
    ensures ctx.Valid() && ReductionSet(ctx)
    ensures SameReduction(ctx)
    ensures Running(ctx, g0, b, 1) && g0.refs == PERMANENT && Running(ctx, g2, b, 2) && g2.refs == 1
    ensures g0 !in old(ctx.live) && g2 !in old(ctx.live)
    ensures (g0 in old(ctx.free) || fresh(g0)) && (g2 in old(ctx.free) || fresh(g2))
    ensures old(ctx.live) <= ctx.live && ctx.activeCount == old(ctx.activeCount) + 2
    ensures fresh(ctx.free - old(ctx.free))
    ensures PermanentKept(ctx)
  {
    hide Val, Weight, BiCtx.Valid, ReductionSet, ModulusSet, Modulus, Factored, Touched, Represents, Bound;
    LiveNotFree(ctx);
    ReductionMeans(ctx);
    g0 := CloneBetween(ctx, base);
    MakePermanent(ctx, g0);
    LiveNotFree(ctx);
    ReductionMeans(ctx);
    g2 := BaseSquare(ctx, g0, thresh, b);
  }

  /** The square of the base, which leads from one odd power to the next. */
  method BaseSquare(ctx: BiCtx, g0: Bigint, thresh: nat, ghost b: Base) returns (g2: Bigint)
    requires ctx.Valid() && ReductionSet(ctx) && Running(ctx, g0, b, 1) && g0.refs == PERMANENT && thresh >= 4
    modifies ctx`freeList, ctx`freeCount, ctx`activeCount, ctx`live, ctx`free, ctx.free, g0, Touched(ctx)
    ensures ctx.Valid() && ReductionSet(ctx)
    ensures SameReduction(ctx)
    ensures Running(ctx, g2, b, 2) && g2.refs == 1
    ensures g2 !in old(ctx.live) && (g2 in old(ctx.free) || fresh(g2))
    ensures old(ctx.live) + {g2} <= ctx.live && ctx.activeCount == old(ctx.activeCount) + 1
    ensures fresh(ctx.free - old(ctx.free))
    ensures PermanentKept(ctx)
  {
    hide Val, Weight, BiCtx.Valid, IsQuotient, NormalisedStored, MontgomerySet, BarrettSet, Represents;
    hide ExactModulus, FullModulus, ExactFor;
    LiveNotFree(ctx);
    ghost var v := g0.Value();
    g2 := SquareStep(ctx, g0, thresh, b.tight);
    LiveNotFree(ctx);
    ghost var inv := FactorInverse(ctx);
    ProductRepresents(v, v, g2.Value(), b.number, 1, 1, Factored(ctx), inv, Modulus(ctx));
  }

  /** One more table entry. */
  method ExtendTable(ctx: BiCtx, g: seq<Bigint>, g2: Bigint, ghost b: Base) returns (g': seq<Bigint>)
    requires ctx.Valid() && ReductionSet(ctx) && |g| >= 1 && TableReady(ctx, g, b) && Distinct(g)
    requires Running(ctx, g2, b, 2) && g2.refs == 1
    modifies ctx`freeList, ctx`freeCount, ctx`activeCount, ctx`live, ctx`free, ctx.free, g, g2, Touched(ctx)
    ensures ctx.Valid() && ReductionSet(ctx)
    ensures SameReduction(ctx)
    ensures |g'| == |g| + 1 && g'[..|g|] == g && TableReady(ctx, g', b) && Distinct(g')
    ensures Running(ctx, g2, b, 2) && g2.refs == 1
    ensures g'[|g|] !in old(ctx.live) && (g'[|g|] in old(ctx.free) || fresh(g'[|g|]))
    ensures old(ctx.live) <= ctx.live && ctx.activeCount == old(ctx.activeCount) + 1
    ensures fresh(ctx.free - old(ctx.free))
    ensures PermanentKept(ctx)
  {
    hide Val, Weight, BiCtx.Valid, ReductionSet, ModulusSet, Modulus, Factored, Touched, Represents, Bound;
    LiveNotFree(ctx);
    ReductionMeans(ctx);
    var t := |g| - 1;
    var r := NextPower(ctx, g[t], g2, b, t);
    MakePermanent(ctx, r);
    ReductionMeans(ctx);
    g' := g + [r];
  }

  /** `bi_free` between reductions. */
  method FreeBetween(ctx: BiCtx, x: Bigint, ghost g: seq<Bigint>, ghost b: Base)
    requires ctx.Valid() && ReductionSet(ctx) && TableReady(ctx, g, b) && x in ctx.live && x.refs == 1
    modifies ctx`freeList, ctx`freeCount, ctx`activeCount, ctx`live, ctx`free, x`refs
    ensures ctx.Valid() && ReductionSet(ctx) && TableReady(ctx, g, b)
    ensures SameReduction(ctx)
    ensures old(ctx.live) - {x} <= ctx.live && ctx.free <= old(ctx.free) + {x}
    ensures ctx.activeCount == old(ctx.activeCount) - 1
  {
    hide Val, Weight, BiCtx.Valid, IsQuotient, Represents;
    ctx.Free(x);
  }

  lemma FirstEntry(ctx: BiCtx, first: Bigint, b: Base)
    requires ModulusSet(ctx) && Running(ctx, first, b, 1) && first.refs == PERMANENT
    ensures TableReady(ctx, [first], b) && Distinct([first])
  {
  }

  /** The loop of `precompute_slide_window` that fills the table up to k entries. */
  method FillTable(ctx: BiCtx, first: Bigint, g2: Bigint, k: nat, ghost b: Base) returns (g: seq<Bigint>)
    requires ctx.Valid() && ReductionSet(ctx) && k >= 1
    requires Running(ctx, first, b, 1) && first.refs == PERMANENT && Running(ctx, g2, b, 2) && g2.refs == 1
    modifies ctx`freeList, ctx`freeCount, ctx`activeCount, ctx`live, ctx`free, ctx.free, first, g2, Touched(ctx)
    ensures ctx.Valid() && ReductionSet(ctx)
    ensures SameReduction(ctx)
    ensures |g| == k && g[0] == first && TableReady(ctx, g, b) && Distinct(g)
    ensures Running(ctx, g2, b, 2) && g2.refs == 1
    ensures forall t :: 0 < t < k ==> g[t] !in old(ctx.live) && (g[t] in old(ctx.free) || fresh(g[t]))
    ensures old(ctx.live) <= ctx.live && ctx.activeCount == old(ctx.activeCount) + k - 1
    ensures fresh(ctx.free - old(ctx.free))
    ensures PermanentKept(ctx)
  {
    hide Val, Weight, BiCtx.Valid, ReductionSet, ModulusSet, Modulus, Factored, Touched, Represents, Bound;
    hide TableReady, Distinct;
    LiveNotFree(ctx);
    ReductionMeans(ctx);
    g := [first];
    FirstEntry(ctx, first, b);
    while |g| < k
      invariant 1 <= |g| <= k && g[0] == first && ctx.Valid() && ReductionSet(ctx) && ModulusSet(ctx)
      invariant SameReduction(ctx)
      invariant Running(ctx, g2, b, 2) && g2.refs == 1 && TableReady(ctx, g, b) && Distinct(g)
      invariant forall t :: 0 < t < |g| ==> g[t] !in old(ctx.live) && (g[t] in old(ctx.free) || fresh(g[t]))
      invariant old(ctx.live) <= ctx.live && ctx.activeCount == old(ctx.activeCount) + |g| - 1
      invariant fresh(ctx.free - old(ctx.free))
      invariant PermanentKept(ctx)
    {
      LiveNotFree(ctx);
      ReductionMeans(ctx);
      g := ExtendTable(ctx, g, g2, b);
    }
  }

  /** 2^(window - 1), the number of odd powers. */
  method TableSize(window: nat) returns (k: nat)
    requires window >= 1
    ensures k == Pow2(window - 1)
  {
    k := 1;
    var i := 0;
    while i < window - 1
      invariant 0 <= i <= window - 1 && k == Pow2(i)
    {
      k := 2 * k;
      i := i + 1;
    }
  }

  /** `precompute_slide_window`: the odd powers of the base up to 2^window - 1, as permanent
      objects. */
  method PrecomputeSlideWindow(ctx: BiCtx, window: nat, base: Bigint, thresh: nat, ghost b: Base)
    returns (g: seq<Bigint>)
    requires ctx.Valid() && ReductionSet(ctx) && base in ctx.live && Fits(ctx, base.Value(), b.tight)
    requires Represents(base.Value(), b.number, 1, Factored(ctx), Modulus(ctx)) && window >= 1 && thresh >= 4
    modifies ctx`freeList, ctx`freeCount, ctx`activeCount, ctx`live, ctx`free, ctx.free, Touched(ctx)
    ensures ctx.Valid() && ReductionSet(ctx)
    ensures SameReduction(ctx)
    ensures |g| == Pow2(window - 1) && TableReady(ctx, g, b) && Distinct(g)
    ensures forall t :: 0 <= t < |g| ==> g[t] !in old(ctx.live) && (g[t] in old(ctx.free) || fresh(g[t]))
    ensures old(ctx.live) <= ctx.live && ctx.activeCount == old(ctx.activeCount) + |g|
    ensures fresh(ctx.free - old(ctx.free))
    ensures PermanentKept(ctx)
  {
    hide Val, Weight, BiCtx.Valid, ReductionSet, ModulusSet, Modulus, Factored, Touched, Represents, Bound, Pow2;
    hide TableReady, Distinct;
    LiveNotFree(ctx);
    ReductionMeans(ctx);
    var k := TableSize(window);
    var g0, g2 := FirstPowers(ctx, base, thresh, b);
    LiveNotFree(ctx);
    ReductionMeans(ctx);
    g := FillTable(ctx, g0, g2, k, b);
    LiveNotFree(ctx);
    ReductionMeans(ctx);
    FreeBetween(ctx, g2, g, b);
  }

  /** The clean-up loop over the table. */
  method ReleaseTable(ctx: BiCtx, g: seq<Bigint>)
    requires ctx.Valid() && ReductionSet(ctx) && Distinct(g)
    requires forall t :: 0 <= t < |g| ==> g[t] in ctx.live && g[t].refs == PERMANENT && g[t] !in Touched(ctx)
    modifies ctx`freeList, ctx`freeCount, ctx`activeCount, ctx`live, ctx`free, g`refs
    ensures ctx.Valid() && ReductionSet(ctx)
    ensures SameReduction(ctx)
    ensures old(ctx.live) - (set o | o in g) <= ctx.live && ctx.free <= old(ctx.free) + (set o | o in g)
    ensures ctx.activeCount == old(ctx.activeCount) - |g|
  {
    hide Val, Weight, BiCtx.Valid, ReductionSet, ModulusSet, Modulus, Factored, Touched, Represents, Bound;
    ReductionMeans(ctx);
    var i := 0;
    while i < |g|
      invariant 0 <= i <= |g| && ctx.Valid() && ReductionSet(ctx) && ModulusSet(ctx)
      invariant SameReduction(ctx)
      invariant forall t :: i <= t < |g| ==> g[t] in ctx.live && g[t].refs == PERMANENT
      invariant old(ctx.live) - (set o | o in g) <= ctx.live && ctx.free <= old(ctx.free) + (set o | o in g)
      invariant ctx.activeCount == old(ctx.activeCount) - i
    {
      FreePermanent(ctx, g[i]);
      ReductionMeans(ctx);
      i := i + 1;
    }
  }

  /** `bi_depermanent` and `bi_free` of an object no reduction needs. */
  method FreePermanent(ctx: BiCtx, x: Bigint)
    requires ctx.Valid() && ReductionSet(ctx) && x in ctx.live && x.refs == PERMANENT && x !in Touched(ctx)
    modifies ctx`freeList, ctx`freeCount, ctx`activeCount, ctx`live, ctx`free, x`refs
    ensures ctx.Valid() && ReductionSet(ctx)
    ensures SameReduction(ctx)
    ensures old(ctx.live) - {x} <= ctx.live && ctx.free <= old(ctx.free) + {x}
    ensures ctx.activeCount == old(ctx.activeCount) - 1
  {
    hide Val, Weight, BiCtx.Valid, ReductionSet, ModulusSet, Modulus, Factored, Touched, Bound;
    ReductionMeans(ctx);
    ctx.Depermanent(x);
    ctx.Free(x);
    ReductionKept(ctx);
    ReductionMeans(ctx);
  }

  /** The entries of a table are permanent objects in use. */
  lemma TableKept(ctx: BiCtx, g: seq<Bigint>, b: Base)
    requires ModulusSet(ctx) && TableReady(ctx, g, b)
    ensures forall t :: 0 <= t < |g| ==> g[t] in ctx.live && g[t].refs == PERMANENT
  {
  }

  /** The main loop and the clean-up of the table. */
  method LoopAndRelease(ctx: BiCtx, biR: Bigint, g: seq<Bigint>, bits: seq<Comp>, top: int, w: nat, thresh: nat,
                        ghost b: Base)
    returns (r: Bigint)
    requires ctx.Valid() && ReductionSet(ctx) && thresh >= 4 && |bits| >= 1 && -1 <= top < 32 * |bits|
    requires w >= 1 && |g| == Pow2(w - 1) && Distinct(g) && biR !in g
    requires forall t :: 0 <= t < |g| ==> g[t] !in Touched(ctx)
    requires if top == -1 then Val(bits) == 0 else Shr(Val(bits), top + 1) == 0
    requires Running(ctx, biR, b, 0) && TableReady(ctx, g, b)
    modifies ctx`freeList, ctx`freeCount, ctx`activeCount, ctx`live, ctx`free, ctx.free, biR, g, Touched(ctx)
    ensures ctx.Valid() && ReductionSet(ctx)
    ensures SameReduction(ctx)
    ensures r.refs == 1 && r.Canonical() && r.Value() < Bound(ctx, b.tight)
    ensures Running(ctx, r, b, Reached(Val(bits), -1, BadTail(Val(bits), w, top)))
    ensures r !in old(ctx.live) - {biR} && (r in old(ctx.free) || fresh(r) || (r == biR && old(biR.refs) == 1))
    ensures old(ctx.live) - {biR} - (set o | o in g) + {r} <= ctx.live
    ensures ctx.activeCount == old(ctx.activeCount) + 1 - Last(old(biR.refs)) - |g|
    ensures fresh(ctx.free - old(ctx.free) - {biR} - (set o | o in g))
    ensures forall o :: o in old(ctx.live) && o !in g && old(o.refs) == PERMANENT ==>
      o in ctx.live && o.refs == PERMANENT && Digits(o.buf) == old(Digits(o.buf))
  {
    hide Val, Weight, BiCtx.Valid, ReductionSet, ModulusSet, Modulus, Factored, Touched, Represents, BadTail, Reached;
    hide Pow2, Shr, TableReady, Distinct;
    TableKept(ctx, g, b);
    r := PowerLoop(ctx, biR, g, bits, top, w, thresh, b);
    TableKept(ctx, g, b);
    LiveNotFree(ctx);
    ReductionMeans(ctx);
    ReleaseTable(ctx, g);
    ReductionMeans(ctx);
  }

  /** Everything between the choice of the base and the clean-up: the power of a base that
      already carries the factor. The base is left as it was. */
  method PowerWithBase(ctx: BiCtx, base: Bigint, biR: Bigint, bits: seq<Comp>, thresh: nat, ghost b: Base)
    returns (r: Bigint)
    requires ctx.Valid() && ReductionSet(ctx) && base in ctx.live && Fits(ctx, base.Value(), b.tight) && base != biR
    requires Represents(base.Value(), b.number, 1, Factored(ctx), Modulus(ctx)) && thresh >= 4
    requires Running(ctx, biR, b, 0) && Trimmed(bits)
    modifies ctx`freeList, ctx`freeCount, ctx`activeCount, ctx`live, ctx`free, ctx.free, biR, Touched(ctx)
    ensures ctx.Valid() && ReductionSet(ctx)
    ensures SameReduction(ctx)
    ensures r.refs == 1 && r.Canonical() && r.Value() < Bound(ctx, b.tight)
    ensures Running(ctx, r, b, PowerExponent(Val(bits)))
    ensures r !in old(ctx.live) - {biR} && (r in old(ctx.free) || fresh(r) || (r == biR && old(biR.refs) == 1))
    ensures old(ctx.live) - {biR} + {r} <= ctx.live
    ensures ctx.activeCount == old(ctx.activeCount) + 1 - Last(old(biR.refs))
    ensures fresh(ctx.free - old(ctx.free) - {biR})
    ensures PermanentKept(ctx)
  {
    hide Val, Weight, BiCtx.Valid, ReductionSet, ModulusSet, Modulus, Factored, Touched, Represents, Bound, BadTail;
    hide Reached, Pow2, Shr, TableReady, Distinct;
    LiveNotFree(ctx);
    ReductionMeans(ctx);
    var top := FindMaxExpIndex(bits);
    var w := OptimumWindow(top);
    var g := PrecomputeSlideWindow(ctx, w, base, thresh, b);
    LiveNotFree(ctx);
    ReductionMeans(ctx);
    r := LoopAndRelease(ctx, biR, g, bits, top, w, thresh, b);
  }
}
