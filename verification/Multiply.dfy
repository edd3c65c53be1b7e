/** Schoolbook multiplication with the two partial forms used by Barrett reduction, and
    column-wise squaring (algorithm 14.16 of the Handbook of Applied Cryptography). */
module Multiply {
  import opened Radix
  import opened Comps
  import opened CompLoops

  // ---- one row of regular_multiply ----

  /** Columns i to i + j of s hold sr plus x times the columns base to j of a, with a carry. */
  ghost predicate RowPart(sr: seq<Comp>, s: seq<Comp>, a: seq<Comp>, x: Comp, i: nat, j: nat, base: int, c: int)
  {
    && i + j <= |sr| == |s| && j <= |a|
    && Val(s[..i + j]) + c * Weight(i + j) == Val(sr[..i + j]) + x * Weight(i) * (Val(a[..j]) - base)
  }

  lemma RowStart(sr: seq<Comp>, a: seq<Comp>, x: Comp, i: nat, j: nat)
    requires i + j <= |sr| && j <= |a|
    ensures RowPart(sr, sr, a, x, i, j, Val(a[..j]), 0)
  {
    hide Val, Weight;
    assert 0 * Weight(i + j) == 0 && x * Weight(i) * 0 == 0;
  }

  lemma RowStep(sr: seq<Comp>, s0: seq<Comp>, s: seq<Comp>, a: seq<Comp>, x: Comp, i: nat, j: nat, base: int, c: int,
                c': int)
    requires i + j < |sr| == |s| && j < |a| && RowPart(sr, s0, a, x, i, j, base, c) && s[..i + j] == s0[..i + j]
    requires s[i + j] + c' * RADIX == sr[i + j] + a[j] * x + c
    ensures RowPart(sr, s, a, x, i, j + 1, base, c')
  {
    hide Val, Weight;
    ValPrefixStep(s, i + j);
    ValPrefixStep(sr, i + j);
    ValPrefixStep(a, j);
    WeightAdd(i, j);
    WeightNext(i + j);
    RowArithmetic(s[i + j], sr[i + j], a[j], x, c, c', Weight(i), Weight(j), Val(a[..j]) - base);
  }

  lemma RowEnd(sr: seq<Comp>, s: seq<Comp>, r: seq<Comp>, a: seq<Comp>, x: Comp, i: nat, j: nat, base: int, carry: Comp)
    requires i + j < |sr| && RowPart(sr, s, a, x, i, j, base, carry) && r == s[i + j := carry]
    ensures Val(r[..i + j + 1]) == Val(sr[..i + j]) + x * Weight(i) * (Val(a[..j]) - base)
  {
    hide Val, Weight;
    assert r[..i + j] == s[..i + j];
    ValPrefixStep(r, i + j);
  }

  lemma RowArithmetic(s: int, r: int, y: int, x: int, c: int, c': int, wi: int, wj: int, v: int)
    requires s + c' * RADIX == r + y * x + c
    ensures s * (wi * wj) + c' * (RADIX * (wi * wj)) - c * (wi * wj)
         == r * (wi * wj) + x * wi * (v + y * wj) - x * wi * v
  {
    var w := wi * wj;
    assert (s + c' * RADIX) * w == (r + y * x + c) * w;
    assert y * x * w == x * wi * (y * wj);
    assert x * wi * (v + y * wj) == x * wi * v + x * wi * (y * wj);
  }

  /** The inner loop of `regular_multiply`: row i of the product, from column j0 on, added into
      sr; it stops early at column innerPartial when that is set. The carry is stored after the
      last column handled. */
  method MultiplyRow(sr: seq<Comp>, a: seq<Comp>, x: Comp, i: nat, j0: nat, innerPartial: nat)
    returns (r: seq<Comp>, ghost j1: nat)
    requires j0 < |a| && i + |a| < |sr|
    ensures |r| == |sr| && j0 <= j1 <= |a|
    ensures innerPartial == 0 || i + |a| <= innerPartial ==> j1 == |a|
    ensures innerPartial > 0 && j1 < |a| ==> i + j1 == innerPartial || (j1 == j0 && innerPartial <= i + j0)
    ensures innerPartial > 0 && j1 == |a| ==> i + |a| <= innerPartial
    ensures r[..i + j0] == sr[..i + j0] && r[i + j1 + 1..] == sr[i + j1 + 1..]
    ensures Val(r[..i + j1 + 1]) == Val(sr[..i + j1]) + x * Weight(i) * (Val(a[..j1]) - Val(a[..j0]))
  {
    hide Val, Weight, RowPart;
    var s: seq<Comp> := sr;
    var carry: Comp := 0;
    var j := j0;
    ghost var base := Val(a[..j0]);
    RowStart(sr, a, x, i, j0);
    while j < |a|
      invariant j0 <= j <= |a| && |s| == |sr|
      invariant innerPartial > 0 && j > j0 ==> i + j <= innerPartial
      invariant s[i + j..] == sr[i + j..] && s[..i + j0] == sr[..i + j0]
      invariant RowPart(sr, s, a, x, i, j, base, carry)
    {
      if innerPartial != 0 && i + j >= innerPartial { break; }
      ghost var c, s0 := carry, s;
      var tmp := LongProduct(a[j], x, s[i + j], carry);
      s := s[i + j := Low(tmp)];
      carry := High(tmp);
      assert s[..i + j] == s0[..i + j];
      RowStep(sr, s0, s, a, x, i, j, base, c, carry);
      j := j + 1;
    }
    j1 := j;
    r := s[i + j := carry];
    RowEnd(sr, s, r, a, x, i, j, base, carry);
  }

  // ---- regular_multiply ----

  /** The first column of row i that `regular_multiply` computes. */
  function FirstColumn(i: nat, n: nat, outerPartial: nat): (j: nat)
    ensures n >= 1 ==> j < n
  {
    if outerPartial > i && outerPartial < n then outerPartial - i - 1 else 0
  }

  /** What the rows below i leave out because of outerPartial. */
  ghost function Skipped(a: seq<Comp>, b: seq<Comp>, i: nat, outerPartial: nat): (d: nat)
    requires i <= |b| && |a| >= 1
  {
    if i == 0 then 0
    else
      var low := Val(a[..FirstColumn(i - 1, |a|, outerPartial)]);
      MulNonNegative(b[i - 1], Weight(i - 1));
      MulNonNegative(b[i - 1] * Weight(i - 1), low);
      Skipped(a, b, i - 1, outerPartial) + b[i - 1] * Weight(i - 1) * low
  }

  lemma {:induction false} NothingSkipped(a: seq<Comp>, b: seq<Comp>, i: nat, outerPartial: nat)
    requires i <= |b| && |a| >= 1 && (outerPartial <= 1 || |a| <= outerPartial)
    ensures Skipped(a, b, i, outerPartial) == 0
  {
    if i > 0 {
      NothingSkipped(a, b, i - 1, outerPartial);
      assert a[..0] == [];
    }
  }

  /** Dropping the columns below outerPartial - 1 loses less than outerPartial * Weight(outerPartial). */
  lemma {:induction false} SkippedBound(a: seq<Comp>, b: seq<Comp>, i: nat, outerPartial: nat)
    requires i <= |b| && |a| >= 1
    ensures Skipped(a, b, i, outerPartial) <= (if i < outerPartial then i else outerPartial) * Weight(outerPartial)
  {
    hide Val, Weight;
    if i == 0 {
      assert 0 * Weight(outerPartial) == 0;
    } else {
      SkippedBound(a, b, i - 1, outerPartial);
      var j := FirstColumn(i - 1, |a|, outerPartial);
      if j == 0 {
        assert a[..0] == [];
        ValAllZero(a[..0]);
        assert b[i - 1] * Weight(i - 1) * 0 == 0;
        if i <= outerPartial { MulMonotone(i - 1, i, Weight(outerPartial)); }
      } else {
        ValBound(a[..j]);
        WeightAdd(i - 1, j);
        WeightNext(i - 1 + j);
        SkippedTerm(b[i - 1], Weight(i - 1), Val(a[..j]), Weight(j));
        assert i * Weight(outerPartial) == (i - 1) * Weight(outerPartial) + Weight(outerPartial);
      }
    }
  }

  lemma SkippedTerm(x: Comp, w: nat, v: nat, wj: nat)
    requires v <= wj
    ensures x * w * v <= RADIX * (w * wj)
  {
    MulMonotone(v, wj, x * w);
    MulMonotone(x, RADIX, w * wj);
    assert x * w * wj == x * (w * wj);
  }

  lemma RowDone(sr: seq<Comp>, r: seq<Comp>, a: seq<Comp>, x: Comp, i: nat, j0: nat)
    requires |r| == |sr| && i + |a| < |sr| && j0 <= |a|
    requires AllZero(sr[i + |a|..]) && r[i + |a| + 1..] == sr[i + |a| + 1..]
    requires Val(r[..i + |a| + 1]) == Val(sr[..i + |a|]) + x * Weight(i) * (Val(a) - Val(a[..j0]))
    ensures Val(r) == Val(sr) + x * Weight(i) * (Val(a) - Val(a[..j0]))
    ensures AllZero(r[i + 1 + |a|..])
  {
    hide Val, Weight;
    var k := i + |a|;
    assert sr == sr[..k] + sr[k..];
    ValPad(sr[..k], sr[k..]);
    assert sr[k + 1..] == sr[k..][1..];
    assert r == r[..k + 1] + r[k + 1..];
    ValPad(r[..k + 1], r[k + 1..]);
  }

  /** What a row stores: columns i + j1 and above are as before, except the carry. */
  ghost predicate RowStored(sr: seq<Comp>, r: seq<Comp>, a: seq<Comp>, x: Comp, i: nat, j1: nat)
  {
    && |r| == |sr| && j1 <= |a| && i + |a| < |sr|
    && r[..i] == sr[..i] && r[i + j1 + 1..] == sr[i + j1 + 1..]
    && Val(r[..i + j1 + 1]) == Val(sr[..i + j1]) + x * Weight(i) * Val(a[..j1])
  }

  /** What row i, cut off at column p, does to the value modulo Weight(p): g counts the
      multiples of Weight(p) that the cut drops. */
  ghost predicate RowCut(sr: seq<Comp>, r: seq<Comp>, a: seq<Comp>, x: Comp, i: nat, p: nat, g: int)
  {
    && |r| == |sr| && p <= |sr|
    && Val(r[..p]) + g * Weight(p) == Val(sr[..p]) + x * Weight(i) * Val(a)
    && g >= 0 && (g == 0 && AllZero(sr[p..]) ==> AllZero(r[p..]))
    && (i + 1 + |a| <= p ==> AllZero(r[i + 1 + |a|..p]))
  }

  /** The row ends below the cut. */
  lemma RowBelowCut(sr: seq<Comp>, r: seq<Comp>, a: seq<Comp>, x: Comp, i: nat, p: nat)
    requires RowStored(sr, r, a, x, i, |a|) && i + |a| < p <= |sr| && AllZero(sr[i + |a|..p])
    ensures RowCut(sr, r, a, x, i, p, 0)
  {
    hide Val, Weight;
    var k := i + |a|;
    assert a[..|a|] == a;
    assert sr[..p] == sr[..k] + sr[k..p];
    ValPad(sr[..k], sr[k..p]);
    assert r[k + 1..p] == r[k + 1..][..p - k - 1];
    assert sr[k + 1..p] == sr[k + 1..][..p - k - 1];
    assert sr[k + 1..p] == sr[k..p][1..];
    assert r[..p] == r[..k + 1] + r[k + 1..p];
    ValPad(r[..k + 1], r[k + 1..p]);
    assert r[p..] == r[k + 1..][p - k - 1..] && sr[p..] == sr[k + 1..][p - k - 1..];
    assert 0 * Weight(p) == 0;
  }

  /** The row is cut at column p, or ends there. */
  lemma RowAtCut(sr: seq<Comp>, r: seq<Comp>, a: seq<Comp>, x: Comp, i: nat, j1: nat, p: nat)
    requires RowStored(sr, r, a, x, i, j1) && i + j1 == p
    ensures RowCut(sr, r, a, x, i, p, r[p] + x * Val(a[j1..]))
  {
    hide Val, Weight;
    ValPrefixStep(r, p);
    ValSplit(a, j1);
    WeightAdd(i, j1);
    CutArithmetic(r[p], x, Weight(i), Weight(j1), Val(a[..j1]), Val(a[j1..]));
    assert r[p..] == [r[p]] + r[p + 1..] && sr[p..] == [sr[p]] + sr[p + 1..];
  }

  /** The row lies above the cut altogether. */
  lemma RowAboveCut(sr: seq<Comp>, r: seq<Comp>, a: seq<Comp>, x: Comp, i: nat, p: nat)
    requires RowStored(sr, r, a, x, i, 0) && p <= i
    ensures RowCut(sr, r, a, x, i, p, x * Weight(i - p) * Val(a))
  {
    hide Val, Weight;
    assert r[..p] == r[..i][..p] && sr[..p] == sr[..i][..p];
    WeightAdd(i - p, p);
    assert x * Weight(i - p) * Val(a) * Weight(p) == x * (Weight(i - p) * Weight(p)) * Val(a);
    ValAllZero(a[..0]);
    ValPrefixStep(r, i);
    assert r[i] == 0 by { if r[i] > 0 { MulMonotone(1, r[i], Weight(i)); } }
    assert r[p..] == r[..i][p..] + [0] + r[i + 1..] && sr[p..] == sr[..i][p..] + [sr[i]] + sr[i + 1..];
  }

  lemma CutRow(sr: seq<Comp>, r: seq<Comp>, a: seq<Comp>, x: Comp, i: nat, j1: nat, p: nat) returns (g: int)
    requires RowStored(sr, r, a, x, i, j1) && p <= |sr|
    requires j1 == |a| ==> i + |a| <= p && AllZero(sr[i + |a|..p])
    requires j1 < |a| ==> i + j1 == p || (j1 == 0 && p <= i)
    ensures RowCut(sr, r, a, x, i, p, g)
  {
    hide RowCut, Val, Weight;
    if i + j1 == p {
      RowAtCut(sr, r, a, x, i, j1, p);
      g := r[p] + x * Val(a[j1..]);
    } else if j1 == |a| {
      RowBelowCut(sr, r, a, x, i, p);
      g := 0;
    } else {
      RowAboveCut(sr, r, a, x, i, p);
      g := x * Weight(i - p) * Val(a);
    }
  }

  lemma CutArithmetic(top: int, x: int, wi: int, wj: int, low: int, high: int)
    ensures (top + x * high) * (wi * wj) == top * (wi * wj) + x * wi * (low + wj * high) - x * wi * low
  {
    assert x * wi * (low + wj * high) == x * wi * low + x * wi * (wj * high);
    assert x * high * (wi * wj) == x * wi * (wj * high);
  }

  /** After i rows without innerPartial: their product, less what is skipped. */
  ghost predicate Whole(r: seq<Comp>, a: seq<Comp>, b: seq<Comp>, i: nat, outerPartial: nat)
  {
    && |a| >= 1 && i <= |b| && |r| == |a| + |b| && AllZero(r[i + |a|..])
    && Val(r) == Val(a) * Val(b[..i]) - Skipped(a, b, i, outerPartial)
  }

  /** After i rows with innerPartial p: their product modulo Weight(p), g counting the multiples of
      Weight(p) that were dropped. */
  ghost predicate Cut(r: seq<Comp>, a: seq<Comp>, b: seq<Comp>, i: nat, p: nat, g: int)
  {
    && |a| >= 1 && i <= |b| && |r| == |a| + |b| && p <= |r| && (i + |a| <= p ==> AllZero(r[i + |a|..p]))
    && Val(r[..p]) + g * Weight(p) == Val(a) * Val(b[..i])
    && g >= 0 && (g == 0 ==> AllZero(r[p..]))
  }

  lemma ProductStart(r: seq<Comp>, a: seq<Comp>, b: seq<Comp>, p: nat, outerPartial: nat)
    requires |a| >= 1 && |r| == |a| + |b| && AllZero(r) && p <= |r|
    ensures Whole(r, a, b, 0, outerPartial) && Cut(r, a, b, 0, p, 0)
  {
    hide Val, Weight;
    ValAllZero(r);
    ValAllZero(r[..p]);
    ValAllZero(b[..0]);
    assert Val(a) * 0 == 0 && 0 * Weight(p) == 0;
  }

  lemma WholeStep(sr: seq<Comp>, r: seq<Comp>, a: seq<Comp>, b: seq<Comp>, i: nat, j0: nat, outerPartial: nat)
    requires Whole(sr, a, b, i, outerPartial) && i < |b| && |r| == |sr| && j0 == FirstColumn(i, |a|, outerPartial)
    requires r[i + |a| + 1..] == sr[i + |a| + 1..]
    requires Val(r[..i + |a| + 1]) == Val(sr[..i + |a|]) + b[i] * Weight(i) * (Val(a) - Val(a[..j0]))
    ensures Whole(r, a, b, i + 1, outerPartial)
  {
    hide Val, Weight;
    ValPrefixStep(b, i);
    ProductStep(Val(a), Val(b[..i]), b[i], Weight(i), Val(a[..j0]));
    RowDone(sr, r, a, b[i], i, j0);
  }

  lemma CutStep(sr: seq<Comp>, r: seq<Comp>, a: seq<Comp>, b: seq<Comp>, i: nat, j1: nat, p: nat, g: int)
    returns (g': int)
    requires Cut(sr, a, b, i, p, g) && i < |b| && RowStored(sr, r, a, b[i], i, j1)
    requires j1 == |a| ==> i + |a| <= p
    requires j1 < |a| ==> i + j1 == p || (j1 == 0 && p <= i)
    ensures Cut(r, a, b, i + 1, p, g')
  {
    hide Val, Weight, RowStored;
    ValPrefixStep(b, i);
    var more := CutRow(sr, r, a, b[i], i, j1, p);
    g' := g + more;
    assert (g + more) * Weight(p) == g * Weight(p) + more * Weight(p);
    ProductStep(Val(a), Val(b[..i]), b[i], Weight(i), 0);
  }

  lemma CutEnd(r: seq<Comp>, a: seq<Comp>, b: seq<Comp>, p: nat, g: int)
    requires Cut(r, a, b, |b|, p, g)
    ensures Val(r[..p]) == (Val(a) * Val(b)) % Weight(p)
    ensures Val(a) * Val(b) < Weight(p) ==> Val(r) == Val(a) * Val(b)
  {
    hide Val, Weight;
    assert b[..|b|] == b;
    ValBound(r[..p]);
    CutNumbers(Val(a) * Val(b), Weight(p), g, Val(r[..p]));
    if g == 0 {
      assert r == r[..p] + r[p..];
      ValPad(r[..p], r[p..]);
    }
  }

  lemma CutNumbers(product: int, w: int, g: int, low: int)
    requires 0 <= low < w && g >= 0 && low + g * w == product
    ensures low == product % w && (g > 0 ==> product >= w) && (g == 0 ==> product == low)
  {
    DivModUnique(product, w, g, low);
    if g > 0 { MulMonotone(1, g, w); }
  }

  /** `regular_multiply`: the product, less the columns that outerPartial leaves out; with
      innerPartial, the components below it are those of the product. */
  method MultiplyComps(a: seq<Comp>, b: seq<Comp>, innerPartial: nat, outerPartial: nat) returns (r: seq<Comp>)
    requires |a| >= 1 && |b| >= 1
    requires innerPartial == 0 || outerPartial == 0
    requires innerPartial <= |a| + |b|
    ensures |r| == |a| + |b|
    ensures innerPartial == 0 ==> Val(r) == Val(a) * Val(b) - Skipped(a, b, |b|, outerPartial)
    ensures innerPartial > 0 ==> Val(r[..innerPartial]) == (Val(a) * Val(b)) % Weight(innerPartial)
    ensures innerPartial > 0 && Val(a) * Val(b) < Weight(innerPartial) ==> Val(r) == Val(a) * Val(b)
  {
    hide Val, Weight, Skipped, Whole, Cut;
    var n, t, p := |a|, |b|, innerPartial;
    r := Zeros(n + t);
    ProductStart(r, a, b, p, outerPartial);
    var i := 0;
    ghost var g := 0;
    while i < t
      invariant 0 <= i <= t && |r| == n + t
      invariant p == 0 ==> Whole(r, a, b, i, outerPartial)
      invariant p > 0 ==> Cut(r, a, b, i, p, g)
    {
      var j0 := FirstColumn(i, n, outerPartial);
      ghost var sr := r;
      ghost var j1;
      r, j1 := MultiplyRow(r, a, b[i], i, j0, p);
      if p == 0 {
        assert a[..j1] == a;
        WholeStep(sr, r, a, b, i, j0, outerPartial);
      } else {
        RowIsStored(sr, r, a, b[i], i, j1);
        g := CutStep(sr, r, a, b, i, j1, p, g);
      }
      i := i + 1;
    }
    if p == 0 { WholeEnd(r, a, b, outerPartial); } else { CutEnd(r, a, b, p, g); }
  }

  lemma WholeEnd(r: seq<Comp>, a: seq<Comp>, b: seq<Comp>, outerPartial: nat)
    requires Whole(r, a, b, |b|, outerPartial)
    ensures Val(r) == Val(a) * Val(b) - Skipped(a, b, |b|, outerPartial)
  {
    hide Val, Skipped;
    assert b[..|b|] == b;
  }

  lemma RowIsStored(sr: seq<Comp>, r: seq<Comp>, a: seq<Comp>, x: Comp, i: nat, j1: nat)
    requires |r| == |sr| && j1 <= |a| && i + |a| < |sr|
    requires r[..i] == sr[..i] && r[i + j1 + 1..] == sr[i + j1 + 1..]
    requires Val(r[..i + j1 + 1]) == Val(sr[..i + j1]) + x * Weight(i) * (Val(a[..j1]) - Val(a[..0]))
    ensures RowStored(sr, r, a, x, i, j1)
  {
    hide Val, Weight;
    ValAllZero(a[..0]);
  }

  lemma ProductStep(a: int, b: int, x: int, w: int, low: int)
    ensures a * (b + x * w) == a * b + x * w * (a - low) + x * w * low
  {
    assert x * w * (a - low) == x * w * a - x * w * low;
    assert a * (x * w) == x * w * a;
  }
}
