/** Powers, exponent bits, and the arithmetic of sliding-window exponentiation (algorithm 14.85 of
    the Handbook of Applied Cryptography). */
module Exponent {
  import opened Radix
  import opened Comps
  import opened Modular

  function Exp(b: int, e: nat): (p: int)
  {
    if e == 0 then 1 else b * Exp(b, e - 1)
  }

  lemma {:induction false} ExpAdd(b: int, x: nat, y: nat)
    ensures Exp(b, x + y) == Exp(b, x) * Exp(b, y)
  {
    if x > 0 {
      ExpAdd(b, x - 1, y);
      assert b * (Exp(b, x - 1) * Exp(b, y)) == b * Exp(b, x - 1) * Exp(b, y);
    }
  }

  lemma {:induction false} ExpOfExp(b: int, x: nat, y: nat)
    ensures x * y >= 0 && Exp(Exp(b, x), y) == Exp(b, x * y)
  {
    MulNonNegative(x, y);
    if y > 0 {
      ExpOfExp(b, x, y - 1);
      MulNonNegative(x, y - 1);
      assert x + x * (y - 1) == x * y;
      ExpAdd(b, x, x * (y - 1));
    } else {
      assert x * y == 0;
    }
  }

  /** Congruent numbers have congruent powers. */
  lemma {:induction false} ExpCongruent(a: int, b: int, e: nat, m: int)
    requires m > 0 && Congruent(a, b, m)
    ensures Congruent(Exp(a, e), Exp(b, e), m)
  {
    if e > 0 {
      ExpCongruent(a, b, e - 1, m);
      CongruentMul(a, b, Exp(a, e - 1), Exp(b, e - 1), m);
    }
  }

  /** v stands for the power e of b, carried with the factor f, modulo m. */
  ghost predicate Represents(v: int, b: int, e: nat, f: int, m: int)
  {
    m > 0 && Congruent(v, Exp(b, e) * f, m)
  }

  ghost predicate Inverse(f: int, inv: int, m: int)
  {
    m > 0 && Congruent(f * inv, 1, m)
  }

  /** The residue of a product of two represented powers represents the power of the sum. */
  lemma ProductRepresents(v1: int, v2: int, r: int, b: int, e1: nat, e2: nat, f: int, inv: int, m: int)
    requires Represents(v1, b, e1, f, m) && Represents(v2, b, e2, f, m) && Inverse(f, inv, m)
    requires Congruent(r * f, v1 * v2, m)
    ensures Represents(r, b, e1 + e2, f, m)
  {
    hide Exp;
    var x, y := Exp(b, e1), Exp(b, e2);
    CongruentMul(v1, x * f, v2, y * f, m);
    ExpAdd(b, e1, e2);
    assert x * f * (y * f) == x * y * f * f;
    CancelFactor(r, x * y * f, f, inv, m);
  }

  // ---- bits ----

  /** e shifted right by i bits. */
  function Shr(e: nat, i: nat): (s: nat)
  {
    DivNonNegative(e, Pow2(i));
    e / Pow2(i)
  }

  predicate Bit(e: nat, i: nat) { Shr(e, i) % 2 == 1 }

  /** Each shift appends one bit. */
  lemma ShrStep(e: nat, i: nat)
    ensures Shr(e, i) == 2 * Shr(e, i + 1) + (if Bit(e, i) then 1 else 0)
  {
    DivDiv(e, Pow2(i), 2);
  }

  lemma ShrZero(e: nat)
    ensures Shr(e, 0) == e
  {
  }

  lemma {:induction false} Pow2Add(a: nat, b: nat)
    ensures Pow2(a + b) == Pow2(a) * Pow2(b)
  {
    if a > 0 { Pow2Add(a - 1, b); }
  }

  lemma {:induction false} WeightIsPow2(n: nat)
    ensures Weight(n) == Pow2(32 * n)
  {
    hide Pow2;
    if n > 0 {
      WeightIsPow2(n - 1);
      RadixIsPow2();
      Pow2Add(32, 32 * (n - 1));
    } else {
      Pow2Zero();
    }
  }

  lemma Pow2Zero()
    ensures Pow2(0) == 1
  {
  }

  /** Bit i of a number is bit i % 32 of its component i / 32. */
  lemma BitOfComponent(s: seq<Comp>, q: nat, r: nat)
    requires q < |s| && r < 32
    ensures Bit(Val(s), 32 * q + r) <==> (s[q] / Pow2(r)) % 2 == 1
  {
    hide Val, Weight, Pow2;
    var e := Val(s);
    var y := e / Weight(q);
    WeightIsPow2(q);
    Pow2Add(32 * q, r);
    DivDiv(e, Weight(q), Pow2(r));
    DigitAt(s, q);
    LowBits(y, r);
  }

  /** Reducing modulo the radix does not change the bits below 32. */
  lemma LowBits(y: nat, r: nat)
    requires r < 32
    ensures ((y % RADIX) / Pow2(r)) % 2 == (y / Pow2(r)) % 2
  {
    hide Pow2;
    RadixIsPow2();
    Pow2Add(r, 32 - r);
    Pow2Add(1, 31 - r);
    Pow2One();
    LowBitsOf(y, RADIX, Pow2(r), Pow2(31 - r));
  }

  lemma LowBitsOf(y: nat, radix: nat, p: nat, h: nat)
    requires p > 0 && h > 0 && radix > 0 && radix == p * (2 * h)
    ensures ((y % radix) / p) % 2 == (y / p) % 2
  {
    var hi, lo := y / radix, y % radix;
    var q, t := lo / p, lo % p;
    assert y == hi * radix + lo && lo == q * p + t;
    HighPart(hi, p, h, q, t);
    DivModUnique(y, p, 2 * (hi * h) + q, t);
    EvenShift(hi * h, q);
  }

  lemma HighPart(hi: int, p: int, h: int, q: int, t: int)
    ensures hi * (p * (2 * h)) + (q * p + t) == (2 * (hi * h) + q) * p + t
  {
    assert (2 * (hi * h) + q) * p == 2 * (hi * h) * p + q * p;
    assert hi * (p * (2 * h)) == 2 * (hi * h) * p;
  }

  lemma Pow2One()
    ensures Pow2(1) == 2
  {
  }

  lemma EvenShift(a: int, q: int)
    ensures (2 * a + q) % 2 == q % 2
  {
  }

  /** `exp_bit_is_one`: the tested bit is found by shifting a one up to it. The index -1, which the
      caller reaches for a zero exponent, reads bit 0. */
  method ExpBitIsOne(s: seq<Comp>, offset: int) returns (one: bool)
    requires |s| >= 1 && -1 <= offset < 32 * |s|
    ensures offset >= 0 ==> one == Bit(Val(s), offset)
    ensures offset == -1 ==> one == Bit(Val(s), 0)
  {
    hide Val, Bit;
    var test: nat := if offset < 0 then s[0] else s[offset / 32];
    var shifts := if offset < 0 then 0 else offset % 32;
    var shift: nat, i := 1, 0;
    while i < shifts
      invariant 0 <= i <= shifts && shift == Pow2(i)
    {
      shift := 2 * shift;
      i := i + 1;
    }
    one := (test / shift) % 2 == 1;
    BitOfComponent(s, if offset < 0 then 0 else offset / 32, shifts);
  }

  /** The position of the highest one bit of e, -1 for zero. */
  function TopIndex(e: nat): (i: int)
    ensures i >= -1 && (e == 0 <==> i == -1)
  {
    if e == 0 then -1 else 1 + TopIndex(e / 2)
  }

  lemma {:induction false} TopIndexUnique(e: nat, i: nat)
    requires Shr(e, i) == 1
    ensures TopIndex(e) == i
  {
    hide Pow2, Shr;
    if i == 0 {
      ShrZero(e);
      assert TopIndex(1) == 0;
    } else {
      ShrOfShr(e, 1, i - 1);
      Pow2One();
      assert Shr(e, 1) == e / 2 by { ShrOne(e); }
      assert Shr(e / 2, i - 1) == 1 by { ShrHalf(e / 2, i - 1); }
      TopIndexUnique(e / 2, i - 1);
      assert e > 0 by { if e == 0 { ShrOfZero(i); } }
    }
  }

  lemma ShrOne(e: nat)
    ensures Shr(e, 1) == e / 2
  {
  }

  lemma ShrHalf(x: nat, n: nat)
    ensures Shr(x, n) == x / Pow2(n)
  {
  }

  lemma ShrOfZero(n: nat)
    ensures Shr(0, n) == 0
  {
    DivModUnique(0, Pow2(n), 0, 0);
  }

  /** The exponent that `bi_mod_power` raises to: e itself, or e - 1 after a bad tail. */
  function PowerExponent(e: nat): (x: nat)
  {
    Reached(e, -1, BadTail(e, WindowSize(TopIndex(e)), TopIndex(e)))
  }

  /** An exponent is raised to exactly if and only if its scan meets no bad tail; otherwise one less is. */
  lemma PowerExponentIs(e: nat)
    ensures var i := TopIndex(e);
            && (PowerExponent(e) == e <==> !BadTail(e, WindowSize(i), i))
            && (BadTail(e, WindowSize(i), i) ==> e > 0 && e % 2 == 0 && PowerExponent(e) == e - 1)
  {
    if e % 2 == 1 { NoBadTail(e, WindowSize(TopIndex(e)), TopIndex(e)); }
  }

  /** Odd exponents, and all exponents of at most 165 bits, are raised to exactly. */
  lemma PowerExponentExact(e: nat)
    requires e % 2 == 1 || TopIndex(e) <= 164
    ensures PowerExponent(e) == e
  {
    var i := TopIndex(e);
    if i <= 164 {
      assert i > 32 ==> i / 5 <= 32;
      assert WindowSize(i) <= 2;
    }
    NoBadTail(e, WindowSize(i), i);
  }

  /** `find_max_exp_index`: the position of the highest one bit, -1 for zero. */
  method FindMaxExpIndex(s: seq<Comp>) returns (i: int)
    requires Trimmed(s)
    ensures i == TopIndex(Val(s)) && i < 32 * |s|
    ensures Val(s) > 0 ==> i >= 0 && Shr(Val(s), i + 1) == 0
  {
    hide Val, Weight, Shr;
    var n := |s| - 1;
    var test: nat, shift: nat := s[n], RADIX / 2;
    i := 31;
    RadixIsPow2();
    assert Pow2(32) == 2 * Pow2(31);
    while i >= 0
      invariant -1 <= i <= 31 && test < Pow2(i + 1)
      invariant i >= 0 ==> shift == Pow2(i)
    {
      if (test / shift) % 2 == 1 {
        TopBit(s, i, n);
        i := i + 32 * n;
        TopIndexUnique(Val(s), i);
        return;
      }
      HalfBelow(test, shift);
      shift := shift / 2;
      i := i - 1;
    }
    ZeroTop(s);
    return -1;
  }

  lemma HalfBelow(test: nat, shift: nat)
    requires shift > 0 && test < 2 * shift && (test / shift) % 2 != 1
    ensures test < shift
  {
    if test >= shift {
      DivModUnique(test, shift, 1, test - shift);
    }
  }

  lemma ZeroTop(s: seq<Comp>)
    requires Trimmed(s) && s[|s| - 1] == 0
    ensures Val(s) == 0
  {
    assert s == [0];
    ValOne(0);
  }

  lemma TopBit(s: seq<Comp>, i: nat, n: nat)
    requires n == |s| - 1 && |s| >= 1 && i <= 31 && s[n] < 2 * Pow2(i) && (s[n] / Pow2(i)) % 2 == 1
    ensures Val(s) > 0 && Shr(Val(s), i + 32 * n) == 1 && Shr(Val(s), i + 1 + 32 * n) == 0
  {
    hide Val, Weight, Pow2, Shr;
    var e := Val(s);
    ShrComponent(e, n, i);
    DigitAt(s, n);
    ValBound(s);
    WeightNext(n);
    TopQuotient(e, Weight(n), s[n]);
    OneQuotient(s[n], Pow2(i));
    ShrStep(e, i + 32 * n);
    assert e > 0 by { if e == 0 { ShrOfZero(i + 32 * n); } }
  }

  /** Shifting by i + 32 n drops n components and then i bits. */
  lemma ShrComponent(e: nat, n: nat, i: nat)
    ensures Shr(e, i + 32 * n) == (e / Weight(n)) / Pow2(i)
  {
    hide Weight, Pow2;
    WeightIsPow2(n);
    Pow2Add(32 * n, i);
    DivDiv(e, Weight(n), Pow2(i));
  }

  lemma OneQuotient(y: nat, p: nat)
    requires p > 0 && y < 2 * p && (y / p) % 2 == 1
    ensures y / p == 1
  {
    var q := y / p;
    assert y == q * p + y % p;
    if q >= 2 { MulMonotone(2, q, p); }
    DivNonNegative(y, p);
  }

  lemma TopQuotient(e: nat, w: nat, d: nat)
    requires w > 0 && e < RADIX * w && (e / w) % RADIX == d
    ensures e / w == d
  {
    assert e == (e / w) * w + e % w;
    MulCancelLess(e / w, RADIX, w);
    DivModUnique(e / w, RADIX, 0, e / w);
  }

  // ---- windows ----

  /** The window size for an exponent whose top bit is at i. */
  function WindowSize(i: int): (w: nat)
    ensures w >= 1 && (i <= 32 ==> w == 1)
    decreases if i <= 0 then 0 else i
  {
    if i <= 32 then 1 else 1 + WindowSize(i / 5)
  }

  /** The loop that works out the window size. */
  method OptimumWindow(i: int) returns (w: nat)
    ensures w == WindowSize(i)
  {
    w := 1;
    var j := i;
    while j > 32
      invariant w + WindowSize(j) == 1 + WindowSize(i)
      decreases j
    {
      w := w + 1;
      j := j / 5;
    }
  }

  /** The lowest one bit between l and the one bit i. */
  function LowestOne(e: nat, l: nat, i: nat): (r: nat)
    requires l <= i && Bit(e, i)
    ensures l <= r <= i && Bit(e, r)
    decreases i - l
  {
    if Bit(e, l) then l else LowestOne(e, l + 1, i)
  }

  /** Where the window that starts at the one bit i ends. Near the bottom the code takes bit 0
      whatever its value. */
  function WindowEnd(e: nat, w: nat, i: nat): (l: nat)
    requires w >= 1 && Bit(e, i)
    ensures l <= i && i - l < w && (l > 0 || w <= i + 1 ==> Bit(e, l))
  {
    if i < w - 1 then 0 else LowestOne(e, i + 1 - w, i)
  }

  /** The scan from bit i meets a window that ends at bit 0 with that bit zero. */
  predicate BadTail(e: nat, w: nat, i: int)
    requires w >= 1
    decreases i + 1
  {
    if i < 0 then false
    else if !Bit(e, i) then BadTail(e, w, i - 1)
    else if i < w - 1 then e % 2 == 0
    else BadTail(e, w, WindowEnd(e, w, i) - 1)
  }

  /** Odd exponents have no bad tail, and windows of one or two bits never do. */
  lemma {:induction false} NoBadTail(e: nat, w: nat, i: int)
    requires w >= 1 && (e % 2 == 1 || w <= 2)
    ensures !BadTail(e, w, i)
    decreases i + 1
  {
    if i >= 0 {
      if !Bit(e, i) {
        NoBadTail(e, w, i - 1);
      } else if i < w - 1 {
        ShrZero(e);
      } else {
        NoBadTail(e, w, WindowEnd(e, w, i) - 1);
      }
    }
  }

  /** The exponent read down to bit i, with n more bits of room. */
  function Opened(e: nat, i: nat, n: nat): (x: nat) { Shr(e, i + 1) * Pow2(n) }

  lemma OpenedStep(e: nat, i: nat, n: nat)
    ensures Opened(e, i, 0) == Shr(e, i + 1) && Opened(e, i, n + 1) == 2 * Opened(e, i, n)
  {
    hide Shr;
    assert Shr(e, i + 1) * (2 * Pow2(n)) == 2 * (Shr(e, i + 1) * Pow2(n));
  }

  /** The exponent reached when the scan stands at bit i; bad tells how the scan will end. */
  function Reached(e: nat, i: int, bad: bool): (x: nat)
  {
    if i >= 0 then Shr(e, i + 1) else if bad && e > 0 then e - 1 else e
  }

  /** A zero bit: one squaring, and the scan goes on below it. */
  lemma ReachedZeroBit(e: nat, w: nat, i: nat, bad: bool)
    requires w >= 1 && !Bit(e, i) && BadTail(e, w, i) == bad
    ensures BadTail(e, w, i - 1) == bad && 2 * Reached(e, i, bad) == Reached(e, i - 1, bad)
  {
    hide Shr;
    ShrStep(e, i);
    assert Bit(e, i) <==> Shr(e, i) % 2 == 1;
    ShrZero(e);
  }

  /** A window: its squarings and its table entry lead to the bits below it, or, when it ends on a
      zero bit 0, to one less than the exponent. */
  lemma ReachedWindow(e: nat, w: nat, i: nat, l: nat, pe: nat, bad: bool)
    requires w >= 1 && Bit(e, i) && l == WindowEnd(e, w, i) && Chunk(e, i, l, pe) && BadTail(e, w, i) == bad
    ensures pe >= 1 && 0 <= (pe - 1) / 2 < Pow2(w - 1)
    ensures Opened(e, i, i + 1 - l) + 2 * ((pe - 1) / 2) + 1 == Reached(e, l - 1, bad)
    ensures l >= 1 ==> BadTail(e, w, l - 1) == bad
  {
    hide Pow2, Shr, Bit;
    ChunkIndex(e, w, i, l, pe);
    assert Shr(e, l) == Opened(e, i, i + 1 - l) + pe;
    ShrZero(e);
    BitZero(e);
  }

  lemma BitZero(e: nat)
    ensures Bit(e, 0) <==> e % 2 == 1
  {
  }

  /** The bits from i down to l: what a window adds to the exponent read so far. */
  ghost predicate Chunk(e: nat, i: nat, l: nat, pe: nat)
  {
    l <= i + 1 && Shr(e, l) == Shr(e, i + 1) * Pow2(i + 1 - l) + pe && pe < Pow2(i + 1 - l)
  }

  lemma ChunkStep(e: nat, i: nat, j: nat, pe: nat)
    requires j <= i && Chunk(e, i, j + 1, pe)
    ensures Chunk(e, i, j, 2 * pe + (if Bit(e, j) then 1 else 0))
  {
    hide Shr, Bit;
    ShrStep(e, j);
    var p := Pow2(i - j);
    assert Pow2(i + 1 - j) == 2 * p;
    assert 2 * (Shr(e, i + 1) * p) == Shr(e, i + 1) * (2 * p);
  }

  lemma ChunkStart(e: nat, i: nat)
    ensures Chunk(e, i, i + 1, 0)
  {
    hide Shr;
    Pow2Zero();
  }

  /** Where the table index of a window lies, and which odd power it selects. */
  lemma ChunkIndex(e: nat, w: nat, i: nat, l: nat, pe: nat)
    requires w >= 1 && Bit(e, i) && l == WindowEnd(e, w, i) && Chunk(e, i, l, pe)
    ensures pe >= 1 && 0 <= (pe - 1) / 2 < Pow2(w - 1)
    ensures 2 * ((pe - 1) / 2) + 1 == if Bit(e, l) then pe else pe - 1
    ensures Bit(e, l) <==> pe % 2 == 1
  {
    hide Pow2, Bit, Shr, WindowEnd;
    var n := i + 1 - l;
    ChunkParity(e, i, l, pe);
    Pow2Monotone(n, w);
    assert Pow2(w) == 2 * Pow2(w - 1) by { Pow2Next(w - 1); }
    ChunkPositive(e, i, l, pe);
  }

  lemma Pow2Next(n: nat)
    ensures Pow2(n + 1) == 2 * Pow2(n)
  {
  }

  lemma {:induction false} Pow2Monotone(a: nat, b: nat)
    requires a <= b
    ensures Pow2(a) <= Pow2(b)
  {
    if a < b { Pow2Monotone(a, b - 1); }
  }

  lemma ChunkParity(e: nat, i: nat, l: nat, pe: nat)
    requires l <= i && Chunk(e, i, l, pe)
    ensures Bit(e, l) <==> pe % 2 == 1
  {
    hide Pow2, Shr;
    Pow2Next(i - l);
    var q := Shr(e, i + 1) * Pow2(i - l);
    assert Shr(e, i + 1) * (2 * Pow2(i - l)) == 2 * q;
    EvenShift(q, pe);
  }

  /** A window that starts at a one bit is not empty. */
  lemma ChunkPositive(e: nat, i: nat, l: nat, pe: nat)
    requires l <= i && Bit(e, i) && Chunk(e, i, l, pe)
    ensures pe >= 1
  {
    hide Pow2, Shr;
    if pe == 0 {
      var n := i - l;
      Pow2Add(l, n);
      DivDiv(e, Pow2(l), Pow2(n));
      assert Shr(e, i) == Shr(e, l) / Pow2(n) by { ShrOfShr(e, l, n); }
      Pow2Next(n);
      assert Shr(e, l) == 2 * Shr(e, i + 1) * Pow2(n) + 0;
      DivModUnique(Shr(e, l), Pow2(n), 2 * Shr(e, i + 1), 0);
    }
  }

  lemma ShrOfShr(e: nat, l: nat, n: nat)
    ensures Shr(e, l + n) == Shr(e, l) / Pow2(n)
  {
    Pow2Add(l, n);
    DivDiv(e, Pow2(l), Pow2(n));
  }

  lemma SparseShift(n: nat, i: nat)
    requires 2 <= i <= n
    ensures Shr(Pow2(n) + 2, i) == Pow2(n - i)
  {
    hide Pow2;
    Pow2Add(n - i, i);
    assert Pow2(i) >= 4 by {
      Pow2Monotone(2, i);
      Pow2Next(0);
      Pow2Next(1);
      Pow2Zero();
    }
    DivModUnique(Pow2(n) + 2, Pow2(i), Pow2(n - i), 2);
  }

  lemma SparseBit(n: nat, i: nat)
    requires 2 <= i < n
    ensures !Bit(Pow2(n) + 2, i)
  {
    SparseShift(n, i);
    Pow2Next(n - i - 1);
    EvenShift(Pow2(n - i - 1), 0);
  }

  lemma {:induction false} SparseScan(n: nat, i: nat)
    requires 1 <= i < n && n >= 3
    ensures BadTail(Pow2(n) + 2, 3, i)
  {
    hide Pow2, Shr, Bit;
    if i == 1 {
      Pow2Next(n - 1);
      Pow2Next(n - 2);
      assert Bit(Pow2(n) + 2, 1) by { SparseBitOne(n); }
    } else {
      SparseBit(n, i);
      SparseScan(n, i - 1);
    }
  }

  lemma SparseBitOne(n: nat)
    requires n >= 2
    ensures Bit(Pow2(n) + 2, 1) && (Pow2(n) + 2) % 2 == 0
  {
    hide Pow2, Shr;
    Pow2Next(n - 1);
    Pow2Next(n - 2);
    ShrOne(Pow2(n) + 2);
    HalfIsOdd(Pow2(n) + 2, Pow2(n - 2));
  }

  lemma HalfIsOdd(x: nat, k: nat)
    requires x == 4 * k + 2
    ensures x % 2 == 0 && (x / 2) % 2 == 1
  {
    assert x / 2 == 2 * k + 1;
  }

  /** The even exponent 2^165 + 2 selects a window of three bits and has a bad tail with it. */
  lemma EvenExponentScan()
    ensures TopIndex(Pow2(165) + 2) == 165 && WindowSize(165) == 3 && BadTail(Pow2(165) + 2, WindowSize(165), 165)
  {
    hide Pow2, Shr;
    var e := Pow2(165) + 2;
    assert WindowSize(33) == 2;
    SparseShift(165, 165);
    Pow2Zero();
    ShrStep(e, 165);
    SparseBit(165, 164);
    SparseBit(165, 163);
    SparseScan(165, 164);
    TopIndexUnique(e, 165);
  }

  /** A concrete failure: the power raised to is one less. */
  lemma EvenExponentFails()
    ensures TopIndex(Pow2(165) + 2) == 165 && WindowSize(165) == 3 && BadTail(Pow2(165) + 2, WindowSize(165), 165)
    ensures PowerExponent(Pow2(165) + 2) == Pow2(165) + 1
  {
    hide *;
    EvenExponentScan();
    PowerExponentIs(Pow2(165) + 2);
  }
}
