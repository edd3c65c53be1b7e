/** Reference-counted bigint objects, the session context that recycles them, and the basic
    operations of nut/crypto/bigint.c that work in place on their component buffers. */
module Bigints {
  import opened Radix
  import opened Comps
  import opened CompLoops

  /** The magic reference count of an object that bi_free leaves alone. */
  const PERMANENT: nat := 0x7FFF55AA

  /** The reference count after `bi_free`. */
  function DropRef(refs: nat): (r: nat)
  {
    if refs == PERMANENT || refs == 0 then refs else refs - 1
  }

  /** How many objects leave the session when a reference is dropped. */
  function Last(refs: nat): (n: nat) { if refs == 1 then 1 else 0 }

  /** Component storage: `comps` is the whole allocated buffer (max_comps components), of which
      the first `size` are the number; the rest is memory left over from earlier use. */
  datatype RawBuffer = Buffer(comps: seq<Comp>, size: nat)
  type Buffer = b: RawBuffer | 1 <= b.size <= |b.comps| witness Buffer([0], 1)

  function Digits(b: Buffer): (s: seq<Comp>) { b.comps[..b.size] }

  /** Uninitialised memory: any n components. */
  method Garbage(n: nat) returns (g: seq<Comp>)
    ensures |g| == n
  {
    g := [];
    while |g| < n
      invariant |g| <= n
    {
      var x: Comp := *;
      g := g + [x];
    }
  }

  /** `more_comps`: resize to n components, zeroing new ones. Reallocated memory beyond n is
      uninitialised, so its contents are left open. */
  method MoreComps(b: Buffer, n: nat) returns (r: Buffer)
    requires n >= 1
    ensures r.size == n
    ensures n >= b.size ==> Digits(r) == Digits(b) + Zeros(n - b.size)
    ensures n < b.size ==> r.comps == b.comps
  {
    var comps := b.comps;
    if n > |comps| {
      var maxComps := if 2 * |comps| > n then 2 * |comps| else n;
      var grown := Garbage(maxComps - |comps|);
      comps := comps + grown;
    }
    if n > b.size {
      comps := comps[..b.size] + Zeros(n - b.size) + comps[n..];
    }
    r := Buffer(comps, n);
  }

  /** `trim`: forget leading zero components. */
  method Trim(b: Buffer) returns (r: Buffer)
    ensures r.comps == b.comps && r.size <= b.size
    ensures Trimmed(Digits(r)) && Val(Digits(r)) == Val(Digits(b))
    ensures AllZero(b.comps[r.size..b.size])
  {
    var n := TrimmedSize(Digits(b));
    assert Digits(b)[..n] == b.comps[..n];
    assert Digits(b)[n..] == b.comps[n..b.size];
    r := Buffer(b.comps, n);
  }

  /** The components of a number above position k. */
  function ShiftedDown(s: seq<Comp>, k: nat): (r: seq<Comp>)
    ensures |r| >= 1
  {
    if |s| > k then s[k..] else [0]
  }

  /** `comp_right_shift`: drop the k least significant components. */
  method RightShift(b: Buffer, k: nat) returns (r: Buffer)
    ensures Digits(r) == ShiftedDown(Digits(b), k) && Val(Digits(r)) == Val(Digits(b)) / Weight(k)
    ensures Trimmed(Digits(b)) ==> Trimmed(Digits(r))
    ensures r.size == if b.size > k then b.size - k else 1
  {
    hide Val, Weight;
    var i := b.size - k;
    if i <= 0 {
      r := Buffer(b.comps[0 := 0], 1);
      assert Digits(r) == [0];
      ValOne(0);
      ValBound(Digits(b));
      WeightMonotone(b.size, k);
      assert Val(Digits(b)) / Weight(k) == 0 by { DivModUnique(Val(Digits(b)), Weight(k), 0, Val(Digits(b))); }
    } else {
      var comps: seq<Comp> := b.comps;
      var x := 0;
      while x < i
        invariant 0 <= x <= i && |comps| == |b.comps|
        invariant forall y :: 0 <= y < x ==> comps[y] == b.comps[k + y]
        invariant forall y :: x <= y < |comps| ==> comps[y] == b.comps[y]
      {
        comps := comps[x := comps[k + x]];
        x := x + 1;
      }
      r := Buffer(comps, b.size - k);
      assert Digits(r) == Digits(b)[k..];
      ValSplit(Digits(b), k);
      ValBound(Digits(b)[..k]);
      DivModUnique(Val(Digits(b)), Weight(k), Val(Digits(r)), Val(Digits(b)[..k]));
    }
  }

  /** `comp_left_shift`: k zero components below the number. */
  method LeftShift(b: Buffer, k: nat) returns (r: Buffer)
    ensures Digits(r) == Zeros(k) + Digits(b)
    ensures Val(Digits(r)) == Val(Digits(b)) * Weight(k)
  {
    hide Val, Weight;
    ValConcat(Zeros(k), Digits(b));
    ValAllZero(Zeros(k));
    if k == 0 {
      assert Zeros(0) + Digits(b) == Digits(b);
      return b;
    }
    var grown := MoreComps(b, b.size + k);
    var comps := grown.comps;
    var i := b.size;
    while i > 0
      invariant 0 <= i <= b.size && |comps| == |grown.comps|
      invariant comps[..i] == b.comps[..i]
      invariant comps[i + k..b.size + k] == b.comps[i..b.size]
    {
      comps := comps[i - 1 + k := comps[i - 1]];
      i := i - 1;
    }
    r := Buffer(Zeros(k) + comps[k..], b.size + k);
    assert Digits(r) == Zeros(k) + comps[k..b.size + k];
  }

  /** The component work of `bi_add`: bia receives the sum, bib only grows leading zeros. */
  method AddBuffers(bia: Buffer, bib: Buffer) returns (sum: Buffer, bib': Buffer)
    ensures Trimmed(Digits(sum)) && Val(Digits(sum)) == Val(Digits(bia)) + Val(Digits(bib))
    ensures bib'.size == if bia.size > bib.size then bia.size else bib.size
    ensures Digits(bib') == Digits(bib) + Zeros(bib'.size - bib.size)
    ensures bib'.size < |sum.comps| && sum.size <= bib'.size + 1
    ensures AllZero(sum.comps[sum.size..bib'.size + 1])
  {
    hide Val, Weight;
    var n := if bia.size > bib.size then bia.size else bib.size;
    var a := MoreComps(bia, n + 1);
    bib' := MoreComps(bib, n);
    ValZeros(Digits(bia), n + 1 - bia.size);
    ValZeros(Digits(bib), n - bib.size);
    assert Digits(a) == a.comps[..n] + Zeros(1);
    ValZeros(a.comps[..n], 1);
    var s, carry := AddComps(a.comps[..n], bib'.comps[..n]);
    var full := Buffer(s + [carry] + a.comps[n + 1..], n + 1);
    assert Digits(full) == s + [carry];
    ValSnoc(s, carry);
    sum := Trim(full);
  }

  /** The component work of `bi_subtract`: bia receives the difference modulo its size. bib is resized
      for the loop, which cuts it when it is the longer one, and trimmed again. */
  method SubtractBuffers(bia: Buffer, bib: Buffer) returns (diff: Buffer, bib': Buffer, isNegative: bool)
    ensures Trimmed(Digits(diff)) && diff.size <= bia.size
    ensures isNegative <==> Val(Digits(bia)) < LowValue(Digits(bib), bia.size)
    ensures Val(Digits(diff)) ==
            Val(Digits(bia)) - LowValue(Digits(bib), bia.size) + (if isNegative then Weight(bia.size) else 0)
    ensures Trimmed(Digits(bib')) && Val(Digits(bib')) == LowValue(Digits(bib), bia.size)
    ensures Trimmed(Digits(bib)) && bib.size <= bia.size ==> Digits(bib') == Digits(bib)
  {
    hide Val, Weight;
    var n := bia.size;
    bib' := MoreComps(bib, n);
    if bib.size <= n { ValZeros(Digits(bib), n - bib.size); } else { assert Digits(bib') == Digits(bib)[..n]; }
    var s, borrow := SubComps(Digits(bia), Digits(bib'));
    ValBound(s);
    BorrowIsSign(Val(Digits(bia)), Val(Digits(bib')), Val(s), borrow, Weight(n));
    isNegative := borrow != 0;
    var full := Buffer(s + bia.comps[n..], n);
    assert Digits(full) == s;
    bib' := Trim(bib');
    diff := Trim(full);
    if Trimmed(Digits(bib)) && bib.size <= n { TrimmedInjective(Digits(bib'), Digits(bib)); }
  }

  lemma BorrowIsSign(a: nat, b: nat, s: nat, borrow: nat, w: nat)
    requires s + b == a + borrow * w && s < w && borrow <= 1
    ensures borrow != 0 <==> a < b
    ensures s == a - b + (if borrow != 0 then w else 0)
  {
  }

  /** One bigint object. */
  class Bigint {
    var buf: Buffer
    var refs: nat

    constructor (buffer: Buffer)
      ensures buf == buffer && refs == 1
    {
      buf, refs := buffer, 1;
    }

    /** The natural number this object holds. */
    ghost function Value(): (v: nat)
      reads this`buf
    {
      Val(Digits(buf))
    }

    /** No leading zero component. */
    ghost predicate Canonical()
      reads this`buf
    {
      Trimmed(Digits(buf))
    }
  }

  /** The reduction method chosen when the library is configured. */
  datatype Reduction = Classical | Montgomery | Barrett

  /** The session context: free list, counters, and (ghost) the sets of objects in use and on
      the free list. */
  class BiCtx {
    var freeList: seq<Bigint>
    var freeCount: int
    var activeCount: int
    ghost var live: set<Bigint>
    ghost var free: set<Bigint>

    /** Per modulus slot: the modulus, its normalised form, and the constants of the configured
        reduction method. */
    const reduction: Reduction
    var biMod: map<nat, Bigint>
    var biNormalisedMod: map<nat, Bigint>
    var biRRModM: map<nat, Bigint>
    var biRModM: map<nat, Bigint>
    var n0Dash: map<nat, Comp>
    var biMu: map<nat, Bigint>
    var modOffset: nat
    var useClassical: bool

    /** The radix itself, a permanent object that lives as long as the session. */
    const biRadix: Bigint

    /** `bi_initialize`. */
    constructor (reduction: Reduction)
      ensures Valid() && freeList == [] && free == {} && this.reduction == reduction
      ensures live == {biRadix} && fresh(biRadix) && RadixReady() && activeCount == 1
      ensures biMod == biNormalisedMod == biRRModM == biRModM == biMu == map[] && n0Dash == map[]
      ensures modOffset == 0 && !useClassical
    {
      this.reduction := reduction;
      var radix := new Bigint(Buffer([0, 1], 2));
      radix.refs := PERMANENT;
      biRadix := radix;
      freeList, freeCount, activeCount, live, free := [], 0, 1, {radix}, {};
      biMod, biNormalisedMod, biRRModM, biRModM, n0Dash, biMu := map[], map[], map[], map[], map[], map[];
      modOffset, useClassical := 0, false;
    }

    /** The stored radix is in place. */
    ghost predicate RadixReady()
      reads this, biRadix
    {
      biRadix in live && biRadix.refs == PERMANENT && Digits(biRadix.buf) == [0, 1]
    }

    /** `bi_clear_cache`: the recycled objects are given back to the heap. */
    method ClearCache()
      requires Valid()
      modifies `freeList, `freeCount, `free
      ensures Valid() && freeList == [] && free == {} && live == old(live)
    {
      if freeList == [] {
        EmptyFree(this);
        return;
      }
      freeList, freeCount, free := [], 0, {};
    }

    /** `bi_terminate`: it panics, here ok == false, exactly when an object other than the radix is
        still in use. */
    method Terminate() returns (ok: bool)
      requires Valid() && RadixReady()
      modifies `freeList, `freeCount, `activeCount, `live, `free, biRadix`refs
      ensures Valid() && (ok <==> old(live) == {biRadix})
      ensures live == old(live) - {biRadix} && (ok ==> freeList == [] && freeCount == 0 && activeCount == 0)
    {
      hide Valid;
      Depermanent(biRadix);
      Free(biRadix);
      ActiveIsLive(this);
      if activeCount != 0 { return false; }
      ClearCache();
      CountsEmpty(this);
      ok := true;
    }

    /** The pool invariant: the free list holds distinct unreferenced objects and free_count is
        its length; every object in use is referenced and active_count is how many there are. */
    ghost predicate Valid()
      reads this, free`refs, live`refs
    {
      && (forall i :: 0 <= i < |freeList| ==> freeList[i] in free)
      && (forall o :: o in free ==> o.refs == 0)
      && (forall i, j :: 0 <= i < j < |freeList| ==> freeList[i] != freeList[j])
      && freeCount == |freeList| == |free|
      && (forall o :: o in live ==> o.refs > 0)
      && activeCount == |live|
    }

    /** What `bi_free` leaves behind of an object with `refs` references. */
    ghost predicate Dropped(bi: Bigint, refs: nat, active0: int, live0: set<Bigint>, free0: set<Bigint>)
      reads this, bi`refs
    {
      && bi.refs == DropRef(refs)
      && activeCount == active0 - Last(refs)
      && live0 - {bi} <= live && (refs != 1 ==> bi in live)
      && free <= free0 + {bi} && (refs != 1 ==> free <= free0)
    }

    /** `alloc`: recycle the head of the free list, or create a new object. */
    method Alloc(size: nat) returns (r: Bigint)
      requires Valid() && size >= 1
      modifies `freeList, `freeCount, `activeCount, `live, `free, free
      ensures Valid() && r.buf.size == size && r.refs == 1
      ensures r !in old(live) && live == old(live) + {r} && activeCount == old(activeCount) + 1
      ensures free == old(free) - {r}
      ensures if old(freeList) == [] then fresh(r) && freeList == [] else [r] + freeList == old(freeList)
      ensures r in old(free) || fresh(r)
    {
      if freeList != [] {
        r := freeList[0];
        freeList, free := freeList[1..], free - {r};
        freeCount := freeCount - 1;
        r.buf := MoreComps(r.buf, size);
        r.refs := 1;
      } else {
        var garbage := Garbage(size);
        r := new Bigint(Buffer(garbage, size));
      }
      live := live + {r};
      activeCount := activeCount + 1;
    }

    /** `bi_copy`. */
    method Copy(bi: Bigint) returns (r: Bigint)
      requires Valid() && bi in live && bi.refs + 1 != PERMANENT
      modifies bi`refs
      ensures Valid() && r == bi
      ensures DropRef(bi.refs) == old(bi.refs) && (bi.refs == PERMANENT <==> old(bi.refs) == PERMANENT)
      ensures bi.refs != 1 && (old(bi.refs) != PERMANENT ==> bi.refs == old(bi.refs) + 1)
    {
      if bi.refs != PERMANENT {
        bi.refs := bi.refs + 1;
      }
      r := bi;
    }

    /** `bi_free`: drop one reference; the last one puts the object on the free list. */
    method Free(bi: Bigint)
      requires Valid() && bi in live
      modifies `freeList, `freeCount, `activeCount, `live, `free, bi`refs
      ensures Valid()
      ensures Dropped(bi, old(bi.refs), old(activeCount), old(live), old(free))
      ensures old(bi.refs) != 1 ==> live == old(live) && free == old(free) && freeList == old(freeList)
      ensures old(bi.refs) == 1 ==>
        live == old(live) - {bi} && free == old(free) + {bi} && freeList == [bi] + old(freeList)
    {
      if bi.refs == PERMANENT { return; }
      bi.refs := bi.refs - 1;
      if bi.refs > 0 { return; }
      freeList, free := [bi] + freeList, free + {bi};
      freeCount := freeCount + 1;
      live := live - {bi};
      activeCount := activeCount - 1;
    }

    /** `bi_permanent`; the C code panics unless the object has exactly one reference. */
    method Permanent(bi: Bigint)
      requires Valid() && bi in live && bi.refs == 1
      modifies bi`refs
      ensures Valid() && bi.refs == PERMANENT
    {
      bi.refs := PERMANENT;
    }

    /** `bi_depermanent`; the C code panics unless the object is permanent. */
    method Depermanent(bi: Bigint)
      requires Valid() && bi in live && bi.refs == PERMANENT
      modifies bi`refs
      ensures Valid() && bi.refs == 1
    {
      bi.refs := 1;
    }

    /** `bi_clone`: a full copy; bi keeps its reference. */
    method Clone(bi: Bigint) returns (r: Bigint)
      requires Valid() && bi in live
      modifies `freeList, `freeCount, `activeCount, `live, `free, free
      ensures Valid() && Digits(r.buf) == Digits(bi.buf) && r.refs == 1
      ensures r !in old(live) && live == old(live) + {r} && activeCount == old(activeCount) + 1
      ensures free == old(free) - {r}
      ensures r in old(free) || fresh(r)
    {
      r := Alloc(bi.buf.size);
      r.buf := Buffer(Digits(bi.buf) + r.buf.comps[bi.buf.size..], bi.buf.size);
    }

    /** `bi_add`: the sum replaces bia, and bib is consumed. bib keeps the leading zeros that
        `more_comps` gave it. */
    method Add(bia: Bigint, bib: Bigint) returns (r: Bigint)
      requires Valid() && bia in live && bib in live && bia != bib
      modifies `freeList, `freeCount, `activeCount, `live, `free, bia`buf, bib
      ensures Valid()
      ensures r == bia && r.Canonical() && r.Value() == old(bia.Value() + bib.Value())
      ensures bib.buf.size == if old(bia.buf.size) > old(bib.buf.size) then old(bia.buf.size) else old(bib.buf.size)
      ensures Digits(bib.buf) == old(Digits(bib.buf)) + Zeros(bib.buf.size - old(bib.buf.size))
      ensures bib.buf.size < |bia.buf.comps| && bia.buf.size <= bib.buf.size + 1
      ensures AllZero(bia.buf.comps[bia.buf.size..bib.buf.size + 1])
      ensures Dropped(bib, old(bib.refs), old(activeCount), old(live), old(free))
    {
      hide Val, Valid;
      bia.buf, bib.buf := AddBuffers(bia.buf, bib.buf);
      Free(bib);
      r := bia;
    }

    /** `bi_subtract`: the difference modulo the size of bia replaces bia, bib is consumed, and
        a borrow out of the top is reported as a negative result. A bib with more components than bia is
        cut to the size of bia, and stays cut for its other references. */
    method Subtract(bia: Bigint, bib: Bigint) returns (r: Bigint, isNegative: bool)
      requires Valid() && bia in live && bib in live && bia != bib
      modifies `freeList, `freeCount, `activeCount, `live, `free, bia`buf, bib
      ensures Valid()
      ensures r == bia && r.Canonical() && r.buf.size <= old(bia.buf.size)
      ensures isNegative <==> old(bia.Value()) < LowValue(old(Digits(bib.buf)), old(bia.buf.size))
      ensures r.Value() == old(bia.Value()) - LowValue(old(Digits(bib.buf)), old(bia.buf.size))
                           + (if isNegative then Weight(old(bia.buf.size)) else 0)
      ensures bib.Canonical() && bib.Value() == LowValue(old(Digits(bib.buf)), old(bia.buf.size))
      ensures old(bib.Canonical()) && old(bib.buf.size) <= old(bia.buf.size) ==>
        Digits(bib.buf) == old(Digits(bib.buf))
      ensures Dropped(bib, old(bib.refs), old(activeCount), old(live), old(free))
    {
      hide Val, Valid;
      bia.buf, bib.buf, isNegative := SubtractBuffers(bia.buf, bib.buf);
      Free(bib);
      r := bia;
    }

    /** `bi_int_multiply`: a new object holding bia times one component; bia is consumed. */
    method IntMultiply(bia: Bigint, b: Comp) returns (r: Bigint)
      requires Valid() && bia in live
      modifies `freeList, `freeCount, `activeCount, `live, `free, free, bia`refs
      ensures Valid() && r.Canonical() && r.refs == 1 && r.buf.size <= bia.buf.size + 1
      ensures r.Value() == old(bia.Value()) * b
      ensures r !in old(live)
      ensures r in old(free) || fresh(r)
      ensures Dropped(bia, old(bia.refs), old(activeCount) + 1, old(live) + {r}, old(free) - {r})
    {
      hide Val, Valid;
      LiveNotFree(this);
      var p := MulByComp(Digits(bia.buf), b);
      r := FromComps(this, p);
      Free(bia);
    }

    /** `bi_int_divide`: in place. */
    method IntDivide(biR: Bigint, denom: Comp) returns (r: Bigint)
      requires Valid() && biR in live && denom > 0
      modifies biR`buf
      ensures Valid() && r == biR && r.Canonical() && r.Value() == old(biR.Value()) / denom
    {
      hide Val, Valid;
      var n := biR.buf.size;
      var q := DivByComp(Digits(biR.buf), denom);
      var full := Buffer(q + biR.buf.comps[n..], n);
      assert Digits(full) == q;
      biR.buf := Trim(full);
      r := biR;
    }
  }

  /** One reference of an operand that had `refs` of them is gone; others, if any, still stand. */
  ghost predicate Kept(ctx: BiCtx, bi: Bigint, refs: nat)
    reads ctx, bi`refs
  {
    refs != 1 ==> bi in ctx.live && bi.refs == DropRef(refs)
  }

  /** Permanent objects are still in use, still permanent, and hold the same components. */
  twostate predicate PermanentKept(ctx: BiCtx)
    reads ctx, ctx.live
  {
    forall o :: o in old(ctx.live) && old(o.refs) == PERMANENT ==>
      o in ctx.live && o.refs == PERMANENT && Digits(o.buf) == old(Digits(o.buf))
  }

  /** active_count is zero only when nothing is in use. */
  lemma ActiveIsLive(ctx: BiCtx)
    requires ctx.Valid()
    ensures ctx.activeCount == 0 <==> ctx.live == {}
  {
  }

  lemma EmptyFree(ctx: BiCtx)
    requires ctx.Valid() && ctx.freeList == []
    ensures ctx.free == {}
  {
  }

  lemma CountsEmpty(ctx: BiCtx)
    requires ctx.Valid()
    ensures ctx.freeCount == |ctx.freeList| && ctx.activeCount == |ctx.live|
  {
  }

  /** An object in use is not on the free list. */
  lemma LiveNotFree(ctx: BiCtx)
    requires ctx.Valid()
    ensures ctx.live !! ctx.free
  {
  }

  /** An allocated object filled with the given components and trimmed. */
  method FromComps(ctx: BiCtx, p: seq<Comp>) returns (r: Bigint)
    requires ctx.Valid() && |p| >= 1
    modifies ctx`freeList, ctx`freeCount, ctx`activeCount, ctx`live, ctx`free, ctx.free
    ensures ctx.Valid() && r.Canonical() && r.refs == 1 && r.Value() == Val(p) && r.buf.size <= |p|
    ensures r !in old(ctx.live) && (r in old(ctx.free) || fresh(r))
    ensures ctx.live == old(ctx.live) + {r} && ctx.free == old(ctx.free) - {r}
    ensures ctx.activeCount == old(ctx.activeCount) + 1
  {
    hide Val, Weight, BiCtx.Valid;
    r := ctx.Alloc(|p|);
    var full := Buffer(p + r.buf.comps[|p|..], |p|);
    assert Digits(full) == p;
    r.buf := Trim(full);
  }

  /** The two `bi_free` calls that end a product. */
  method FreeTwo(ctx: BiCtx, a: Bigint, b: Bigint)
    requires ctx.Valid() && a in ctx.live && b in ctx.live && a != b
    modifies ctx`freeList, ctx`freeCount, ctx`activeCount, ctx`live, ctx`free, a`refs, b`refs
    ensures ctx.Valid() && Kept(ctx, a, old(a.refs)) && Kept(ctx, b, old(b.refs))
    ensures old(ctx.live) - {a, b} <= ctx.live && ctx.free <= old(ctx.free) + {a, b}
    ensures ctx.activeCount == old(ctx.activeCount) - Last(old(a.refs)) - Last(old(b.refs))
  {
    hide BiCtx.Valid;
    ctx.Free(a);
    ctx.Free(b);
  }

  /** `comp_right_shift` on an object. */
  method ShiftRight(ctx: BiCtx, bi: Bigint, k: nat)
    requires ctx.Valid() && bi in ctx.live
    modifies bi`buf
    ensures ctx.Valid() && Digits(bi.buf) == ShiftedDown(old(Digits(bi.buf)), k)
    ensures bi.Value() == old(bi.Value()) / Weight(k)
  {
    hide Val, Weight, BiCtx.Valid;
    bi.buf := RightShift(bi.buf, k);
  }
}
