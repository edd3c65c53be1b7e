/** Products of bigint objects: `regular_multiply`, `regular_square`, and squaring by Karatsuba's
    method, `karatsuba` and `bi_square`. */
module Products {
  import opened Radix
  import opened Comps
  import opened Multiply
  import opened Square
  import opened Bigints

  /** `regular_multiply`: a new object with the product; both operands are consumed. */
  method RegularMultiply(ctx: BiCtx, bia: Bigint, bib: Bigint, innerPartial: nat, outerPartial: nat)
    returns (r: Bigint)
    requires ctx.Valid() && bia in ctx.live && bib in ctx.live && bia != bib
    requires innerPartial == 0 || outerPartial == 0
    requires innerPartial <= bia.buf.size + bib.buf.size
    modifies ctx`freeList, ctx`freeCount, ctx`activeCount, ctx`live, ctx`free, ctx.free, bia`refs, bib`refs
    ensures ctx.Valid() && r.Canonical() && r.refs == 1
    ensures r !in old(ctx.live) && (r in old(ctx.free) || fresh(r))
    ensures old(ctx.live) - {bia, bib} + {r} <= ctx.live && fresh(ctx.free - old(ctx.free) - {bia, bib})
    ensures Kept(ctx, bia, old(bia.refs)) && Kept(ctx, bib, old(bib.refs))
    ensures ctx.activeCount == old(ctx.activeCount) + 1 - Last(old(bia.refs)) - Last(old(bib.refs))
    ensures innerPartial == 0 ==>
      r.Value() == bia.Value() * bib.Value() - Skipped(Digits(bia.buf), Digits(bib.buf), bib.buf.size, outerPartial)
    ensures innerPartial > 0 && bia.Value() * bib.Value() < Weight(innerPartial) ==>
      r.Value() == bia.Value() * bib.Value()
    ensures innerPartial > 0 ==> r.Value() % Weight(innerPartial) == (bia.Value() * bib.Value()) % Weight(innerPartial)
  {
    hide Val, Weight, BiCtx.Valid;
    LiveNotFree(ctx);
    var p := MultiplyComps(Digits(bia.buf), Digits(bib.buf), innerPartial, outerPartial);
    r := FromComps(ctx, p);
    FreeTwo(ctx, bia, bib);
    if innerPartial > 0 { LowComponents(p, innerPartial); }
  }

  /** `bi_multiply` in the configuration without Karatsuba multiplication. */
  method BiMultiply(ctx: BiCtx, bia: Bigint, bib: Bigint) returns (r: Bigint)
    requires ctx.Valid() && bia in ctx.live && bib in ctx.live && bia != bib
    modifies ctx`freeList, ctx`freeCount, ctx`activeCount, ctx`live, ctx`free, ctx.free, bia`refs, bib`refs
    ensures ctx.Valid() && r.Canonical() && r.refs == 1 && r.Value() == bia.Value() * bib.Value()
    ensures r !in old(ctx.live) && (r in old(ctx.free) || fresh(r))
    ensures old(ctx.live) - {bia, bib} + {r} <= ctx.live && fresh(ctx.free - old(ctx.free) - {bia, bib})
    ensures Kept(ctx, bia, old(bia.refs)) && Kept(ctx, bib, old(bib.refs))
    ensures ctx.activeCount == old(ctx.activeCount) + 1 - Last(old(bia.refs)) - Last(old(bib.refs))
  {
    hide Val, Weight, BiCtx.Valid, Skipped;
    LiveNotFree(ctx);
    NothingSkipped(Digits(bia.buf), Digits(bib.buf), bib.buf.size, 0);
    r := RegularMultiply(ctx, bia, bib, 0, 0);
  }

  // ---- squaring ----

  /** Karatsuba's identity for a number split at weight w. */
  lemma KaratsubaIdentity(low: nat, high: nat, w: nat)
    ensures (low + high) * (low + high) - high * high - low * low == 2 * (low * high)
    ensures low * low + (2 * (low * high)) * w + (high * high) * (w * w) == (low + high * w) * (low + high * w)
  {
    var y := high * w;
    assert high * high * (w * w) == y * y;
    assert low * high * w == low * y;
    assert (low + y) * (low + y) == low * low + 2 * (low * y) + y * y;
    assert (low + high) * (low + high) == low * low + 2 * (low * high) + high * high;
  }

  /** The low m components and the rest of bia, as two new objects; bia is consumed. */
  method Halves(ctx: BiCtx, bia: Bigint, m: nat) returns (x0: Bigint, x1: Bigint)
    requires ctx.Valid() && bia in ctx.live && 1 <= m < bia.buf.size
    modifies ctx`freeList, ctx`freeCount, ctx`activeCount, ctx`live, ctx`free, ctx.free, bia`refs
    ensures ctx.Valid() && x0 != x1 && x0 !in old(ctx.live) && x1 !in old(ctx.live)
    ensures (x0 in old(ctx.free) || fresh(x0)) && (x1 in old(ctx.free) || fresh(x1))
    ensures x0.refs == 1 && x1.refs == 1 && x0.buf.size == m && x1.buf.size == bia.buf.size - m
    ensures bia.Value() == x0.Value() + x1.Value() * Weight(m)
    ensures old(ctx.live) - {bia} + {x0, x1} <= ctx.live && Kept(ctx, bia, old(bia.refs))
    ensures fresh(ctx.free - old(ctx.free) - {bia})
    ensures ctx.activeCount == old(ctx.activeCount) + 2 - Last(old(bia.refs))
  {
    hide Val, Weight, BiCtx.Valid;
    LiveNotFree(ctx);
    x0 := LowHalf(ctx, bia, m);
    LiveNotFree(ctx);
    x1 := HighHalf(ctx, bia, m);
    ctx.Free(bia);
    HalvesValue(Digits(bia.buf), m);
  }

  method LowHalf(ctx: BiCtx, bia: Bigint, m: nat) returns (x0: Bigint)
    requires ctx.Valid() && bia in ctx.live && 1 <= m < bia.buf.size
    modifies ctx`freeList, ctx`freeCount, ctx`activeCount, ctx`live, ctx`free, ctx.free
    ensures ctx.Valid() && x0 !in old(ctx.live) && (x0 in old(ctx.free) || fresh(x0))
    ensures x0.refs == 1 && x0.buf.size == m && x0.Value() == Val(Digits(bia.buf)[..m])
    ensures ctx.live == old(ctx.live) + {x0} && ctx.free <= old(ctx.free)
    ensures ctx.activeCount == old(ctx.activeCount) + 1
  {
    hide Val, Weight, BiCtx.Valid;
    LiveNotFree(ctx);
    x0 := ctx.Clone(bia);
    assert x0.buf.comps[..m] == Digits(x0.buf)[..m];
    x0.buf := Buffer(x0.buf.comps, m);
  }

  method HighHalf(ctx: BiCtx, bia: Bigint, m: nat) returns (x1: Bigint)
    requires ctx.Valid() && bia in ctx.live && 1 <= m < bia.buf.size
    modifies ctx`freeList, ctx`freeCount, ctx`activeCount, ctx`live, ctx`free, ctx.free
    ensures ctx.Valid() && x1 !in old(ctx.live) && (x1 in old(ctx.free) || fresh(x1))
    ensures x1.refs == 1 && x1.buf.size == bia.buf.size - m && x1.Value() == bia.Value() / Weight(m)
    ensures ctx.live == old(ctx.live) + {x1} && ctx.free <= old(ctx.free)
    ensures ctx.activeCount == old(ctx.activeCount) + 1
  {
    hide Val, Weight, BiCtx.Valid;
    LiveNotFree(ctx);
    x1 := ctx.Clone(bia);
    x1.buf := RightShift(x1.buf, m);
  }

  lemma HalvesValue(s: seq<Comp>, m: nat)
    requires m <= |s|
    ensures Val(s) == Val(s[..m]) + (Val(s) / Weight(m)) * Weight(m)
  {
    hide Val, Weight;
    LowComponents(s, m);
    assert Val(s) == (Val(s) / Weight(m)) * Weight(m) + Val(s) % Weight(m);
  }

  /** p1 - p2 - p0 shifted by m components, plus p0 plus p2 shifted by 2 * m components. */
  method Recombine(ctx: BiCtx, p0: Bigint, p1: Bigint, p2: Bigint, m: nat) returns (r: Bigint)
    requires ctx.Valid() && {p0, p1, p2} <= ctx.live && p0 != p1 && p0 != p2 && p1 != p2
    requires p0.refs == 1 && p1.refs == 1 && p2.refs == 1
    requires p0.Canonical() && p1.Canonical() && p2.Canonical()
    requires p2.Value() + p0.Value() <= p1.Value()
    modifies ctx`freeList, ctx`freeCount, ctx`activeCount, ctx`live, ctx`free, p0, p1, p2
    ensures ctx.Valid() && r == p1 && r.Canonical() && r.refs == 1
    ensures r.Value() ==
            old(p0.Value() + (p1.Value() - p2.Value() - p0.Value()) * Weight(m) + p2.Value() * Weight(2 * m))
    ensures old(ctx.live) - {p0, p2} <= ctx.live && ctx.free <= old(ctx.free) + {p0, p2}
    ensures ctx.activeCount == old(ctx.activeCount) - 2
  {
    hide Val, Weight, BiCtx.Valid;
    SubtractCopy(ctx, p1, p2);
    SubtractCopy(ctx, p1, p0);
    p1.buf := LeftShift(p1.buf, m);
    p2.buf := LeftShift(p2.buf, 2 * m);
    var low := ctx.Add(p0, p2);
    r := ctx.Add(p1, low);
  }

  /** `bi_subtract(ctx, a, bi_copy(b), NULL)` where the difference is not negative. */
  method SubtractCopy(ctx: BiCtx, a: Bigint, b: Bigint)
    requires ctx.Valid() && a in ctx.live && b in ctx.live && a != b && b.refs == 1
    requires a.Canonical() && b.Canonical() && b.Value() <= a.Value()
    modifies ctx`freeList, ctx`freeCount, ctx`activeCount, ctx`live, ctx`free, a`buf, b
    ensures ctx.Valid() && b.refs == 1 && a.Canonical() && b.Canonical()
    ensures a.Value() == old(a.Value() - b.Value()) && b.Value() == old(b.Value())
    ensures old(ctx.live) <= ctx.live && ctx.free <= old(ctx.free) && ctx.activeCount == old(ctx.activeCount)
  {
    hide Val, Weight, BiCtx.Valid;
    if b.buf.size > a.buf.size { LongerIsLarger(Digits(b.buf), Digits(a.buf)); }
    var copy := ctx.Copy(b);
    var _, _ := ctx.Subtract(a, copy);
  }

  /** `regular_square`. */
  method RegularSquare(ctx: BiCtx, bi: Bigint) returns (r: Bigint)
    requires ctx.Valid() && bi in ctx.live
    modifies ctx`freeList, ctx`freeCount, ctx`activeCount, ctx`live, ctx`free, ctx.free, bi`refs
    ensures ctx.Valid() && r.Canonical() && r.refs == 1 && r.Value() == bi.Value() * bi.Value()
    ensures r !in old(ctx.live) && (r in old(ctx.free) || fresh(r))
    ensures old(ctx.live) - {bi} + {r} <= ctx.live && fresh(ctx.free - old(ctx.free) - {bi})
    ensures Kept(ctx, bi, old(bi.refs))
    ensures ctx.activeCount == old(ctx.activeCount) + 1 - Last(old(bi.refs))
  {
    hide Val, Weight, BiCtx.Valid;
    LiveNotFree(ctx);
    var w := SquareComps(Digits(bi.buf));
    r := FromComps(ctx, w);
    ctx.Free(bi);
  }

  /** `bi_square`: regular below the threshold, Karatsuba from it on. The recursion needs a
      threshold of at least 4 components (the configured default is 40), since the sum of the
      halves of three components may again have three. */
  method BiSquare(ctx: BiCtx, bia: Bigint, thresh: nat) returns (r: Bigint)
    requires ctx.Valid() && bia in ctx.live && thresh >= 4
    modifies ctx`freeList, ctx`freeCount, ctx`activeCount, ctx`live, ctx`free, ctx.free, bia
    ensures ctx.Valid() && r.Canonical() && r.refs == 1 && r.Value() == old(bia.Value() * bia.Value())
    ensures r !in old(ctx.live) - {bia} && (r in old(ctx.free) || fresh(r) || r == bia)
    ensures old(ctx.live) - {bia} + {r} <= ctx.live && fresh(ctx.free - old(ctx.free) - {bia})
    ensures old(bia.refs) != 1 ==> r != bia && bia.buf == old(bia.buf) && Kept(ctx, bia, old(bia.refs))
    ensures ctx.activeCount == old(ctx.activeCount) + 1 - Last(old(bia.refs))
    decreases bia.buf.size, 1
  {
    hide Val, Weight, BiCtx.Valid;
    LiveNotFree(ctx);
    if bia.buf.size < thresh {
      r := RegularSquare(ctx, bia);
    } else {
      r := KaratsubaSquare(ctx, bia, thresh);
    }
  }

  /** `karatsuba` with is_square: three squares of half the size. */
  method KaratsubaSquare(ctx: BiCtx, bia: Bigint, thresh: nat) returns (r: Bigint)
    requires ctx.Valid() && bia in ctx.live && 4 <= thresh <= bia.buf.size
    modifies ctx`freeList, ctx`freeCount, ctx`activeCount, ctx`live, ctx`free, ctx.free, bia
    ensures ctx.Valid() && r.Canonical() && r.refs == 1 && r.Value() == old(bia.Value() * bia.Value())
    ensures r !in old(ctx.live) - {bia} && (r in old(ctx.free) || fresh(r) || r == bia)
    ensures old(ctx.live) - {bia} + {r} <= ctx.live && fresh(ctx.free - old(ctx.free) - {bia})
    ensures old(bia.refs) != 1 ==> r != bia && bia.buf == old(bia.buf) && Kept(ctx, bia, old(bia.refs))
    ensures ctx.activeCount == old(ctx.activeCount) + 1 - Last(old(bia.refs))
    decreases bia.buf.size, 0
  {
    hide Val, Weight, BiCtx.Valid;
    LiveNotFree(ctx);
    var m := (bia.buf.size + 1) / 2;
    var x0, x1 := Halves(ctx, bia, m);
    LiveNotFree(ctx);
    r := SquareOfHalves(ctx, x0, x1, m, thresh);
  }

  /** The square of x0 + x1 radix^m, from three smaller squares; both halves are consumed. */
  method SquareOfHalves(ctx: BiCtx, x0: Bigint, x1: Bigint, m: nat, thresh: nat) returns (r: Bigint)
    requires ctx.Valid() && x0 in ctx.live && x1 in ctx.live && x0 != x1 && thresh >= 4
    requires x0.refs == 1 && x1.refs == 1 && x1.buf.size <= x0.buf.size
    modifies ctx`freeList, ctx`freeCount, ctx`activeCount, ctx`live, ctx`free, ctx.free, x0, x1
    ensures ctx.Valid() && r.Canonical() && r.refs == 1
    ensures r.Value() == old((x0.Value() + x1.Value() * Weight(m)) * (x0.Value() + x1.Value() * Weight(m)))
    ensures r !in old(ctx.live) - {x0, x1} && (r in old(ctx.free) || fresh(r) || r == x0 || r == x1)
    ensures old(ctx.live) - {x0, x1} + {r} <= ctx.live && fresh(ctx.free - old(ctx.free) - {x0, x1})
    ensures ctx.activeCount == old(ctx.activeCount) - 1
    decreases x0.buf.size + 1, 3
  {
    hide Val, Weight, BiCtx.Valid;
    LiveNotFree(ctx);
    KaratsubaIdentity(x0.Value(), x1.Value(), Weight(m));
    WeightAdd(m, m);
    assert m + m == 2 * m;
    var p0, p1, p2 := ThreeSquares(ctx, x0, x1, thresh);
    LiveNotFree(ctx);
    r := Recombine(ctx, p0, p1, p2, m);
  }

  /** The squares of both halves and of their sum; the halves are consumed. */
  method ThreeSquares(ctx: BiCtx, x0: Bigint, x1: Bigint, thresh: nat) returns (p0: Bigint, p1: Bigint, p2: Bigint)
    requires ctx.Valid() && x0 in ctx.live && x1 in ctx.live && x0 != x1 && thresh >= 4
    requires x0.refs == 1 && x1.refs == 1 && x1.buf.size <= x0.buf.size
    modifies ctx`freeList, ctx`freeCount, ctx`activeCount, ctx`live, ctx`free, ctx.free, x0, x1
    ensures ctx.Valid() && p0 != p1 && p0 != p2 && p1 != p2
    ensures p0.refs == 1 && p1.refs == 1 && p2.refs == 1
    ensures p0.Canonical() && p1.Canonical() && p2.Canonical()
    ensures p0.Value() == old(x0.Value() * x0.Value()) && p2.Value() == old(x1.Value() * x1.Value())
    ensures p1.Value() == old((x0.Value() + x1.Value()) * (x0.Value() + x1.Value()))
    ensures {p0, p1, p2} !! old(ctx.live) - {x0, x1} && fresh({p0, p1, p2} - old(ctx.free) - {x0, x1})
    ensures old(ctx.live) - {x0, x1} + {p0, p1, p2} <= ctx.live && fresh(ctx.free - old(ctx.free) - {x0, x1})
    ensures ctx.activeCount == old(ctx.activeCount) + 1
    decreases x0.buf.size + 1, 2
  {
    hide Val, Weight, BiCtx.Valid;
    LiveNotFree(ctx);
    p0 := SquareCopy(ctx, x0, thresh);
    LiveNotFree(ctx);
    p2 := SquareCopy(ctx, x1, thresh);
    LiveNotFree(ctx);
    var sum := ctx.Add(x0, x1);
    LiveNotFree(ctx);
    p1 := BiSquare(ctx, sum, thresh);
  }

  /** `bi_square(ctx, bi_copy(x))`: x itself stays. */
  method SquareCopy(ctx: BiCtx, x: Bigint, thresh: nat) returns (p: Bigint)
    requires ctx.Valid() && x in ctx.live && x.refs == 1 && thresh >= 4
    modifies ctx`freeList, ctx`freeCount, ctx`activeCount, ctx`live, ctx`free, ctx.free, x
    ensures ctx.Valid() && p.Canonical() && p.refs == 1 && p.Value() == x.Value() * x.Value()
    ensures p !in old(ctx.live) && (p in old(ctx.free) || fresh(p))
    ensures old(ctx.live) + {p} <= ctx.live && fresh(ctx.free - old(ctx.free))
    ensures x.buf == old(x.buf) && x.refs == 1
    ensures ctx.activeCount == old(ctx.activeCount) + 1
    decreases x.buf.size, 2
  {
    hide Val, Weight, BiCtx.Valid;
    LiveNotFree(ctx);
    var copy := ctx.Copy(x);
    p := BiSquare(ctx, copy, thresh);
    LiveNotFree(ctx);
  }
}
