/** The carry loops of nut/crypto/bigint.c over component buffers. A buffer that the C code
    walks with a pointer is a sequence here; each loop is proved against the value of the
    whole buffer. Casts to `comp` and `long_comp` are written out as remainders. */
module CompLoops {
  import opened Radix
  import opened Comps

  /** A double-precision component (`long_comp`, an unsigned 64-bit integer). */
  type LongComp = x: nat | x < RADIX * RADIX witness 0

  /** The cast `(comp)x`. */
  function Low(x: LongComp): (c: Comp) { x % RADIX }

  /** `x >> COMP_BIT_SIZE`. */
  function High(x: LongComp): (c: Comp)
    ensures Low(x) + c * RADIX == x
  {
    x / RADIX
  }

  /** `r + (long_comp)x*y + carry`: the double-precision sum never overflows. */
  function LongProduct(x: Comp, y: Comp, r: Comp, carry: Comp): (t: LongComp)
    ensures t == r + x * y + carry
  {
    MulMonotone(x, RADIX - 1, y);
    r + x * y + carry
  }

  lemma CarryStep(x: int, y: int, c: int, r: int, c': int, w: int)
    requires r + c' * RADIX == x + y + c
    ensures r * w + c' * (RADIX * w) == x * w + y * w + c * w
  {
    assert (r + c' * RADIX) * w == (x + y + c) * w;
  }

  /** The carry loop of `bi_add`: the low |b| components of the sum, and the carry out. */
  method AddComps(a: seq<Comp>, b: seq<Comp>) returns (s: seq<Comp>, carry: Comp)
    requires |a| == |b| >= 1
    ensures |s| == |a| && carry <= 1
    ensures Val(s) + carry * Weight(|a|) == Val(a) + Val(b)
  {
    hide Val, Weight;
    ValAllZero([]);
    s, carry := a, 0;
    var i := 0;
    while i < |a|
      invariant 0 <= i <= |a| && |s| == |a| && carry <= 1
      invariant s[i..] == a[i..]
      invariant Val(s[..i]) + carry * Weight(i) == Val(a[..i]) + Val(b[..i])
    {
      ghost var c := carry;
      var sl: Comp := (s[i] + b[i]) % RADIX;
      var rl: Comp := (sl + carry) % RADIX;
      var cy1 := if sl < s[i] then 1 else 0;
      carry := if cy1 == 1 || rl < sl then 1 else 0;
      ghost var s0 := s;
      s := s[i := rl];
      assert s[..i] == s0[..i];
      AddStep(a, b, s, i, c, carry);
      i := i + 1;
    }
    assert s[..i] == s && a[..i] == a && b[..i] == b;
  }

  lemma AddStep(a: seq<Comp>, b: seq<Comp>, s: seq<Comp>, i: nat, c: int, c': int)
    requires i < |a| && |a| == |b| == |s|
    requires Val(s[..i]) + c * Weight(i) == Val(a[..i]) + Val(b[..i])
    requires s[i] + c' * RADIX == a[i] + b[i] + c
    ensures Val(s[..i + 1]) + c' * Weight(i + 1) == Val(a[..i + 1]) + Val(b[..i + 1])
  {
    hide Val;
    ValPrefixStep(a, i);
    ValPrefixStep(b, i);
    ValPrefixStep(s, i);
    CarryStep(a[i], b[i], c, s[i], c', Weight(i));
  }

  /** The borrow loop of `bi_subtract`: the difference modulo RADIX^|a|, and the borrow. */
  method SubComps(a: seq<Comp>, b: seq<Comp>) returns (s: seq<Comp>, borrow: Comp)
    requires |a| == |b| >= 1
    ensures |s| == |a| && borrow <= 1
    ensures Val(s) + Val(b) == Val(a) + borrow * Weight(|a|)
  {
    hide Val, Weight;
    ValAllZero([]);
    s, borrow := a, 0;
    var i := 0;
    while i < |a|
      invariant 0 <= i <= |a| && |s| == |a| && borrow <= 1
      invariant s[i..] == a[i..]
      invariant Val(s[..i]) - borrow * Weight(i) == Val(a[..i]) - Val(b[..i])
    {
      ghost var c := borrow;
      var sl: Comp := (s[i] - b[i]) % RADIX;
      var rl: Comp := (sl - borrow) % RADIX;
      var cy1 := if sl > s[i] then 1 else 0;
      borrow := if cy1 == 1 || rl > sl then 1 else 0;
      ghost var s0 := s;
      s := s[i := rl];
      assert s[..i] == s0[..i];
      SubStep(a, b, s, i, c, borrow);
      i := i + 1;
    }
    assert s[..i] == s && a[..i] == a && b[..i] == b;
  }

  lemma SubStep(a: seq<Comp>, b: seq<Comp>, s: seq<Comp>, i: nat, c: int, c': int)
    requires i < |a| && |a| == |b| == |s|
    requires Val(s[..i]) - c * Weight(i) == Val(a[..i]) - Val(b[..i])
    requires s[i] - c' * RADIX == a[i] - b[i] - c
    ensures Val(s[..i + 1]) - c' * Weight(i + 1) == Val(a[..i + 1]) - Val(b[..i + 1])
  {
    hide Val;
    ValPrefixStep(a, i);
    ValPrefixStep(b, i);
    ValPrefixStep(s, i);
    var w := Weight(i);
    assert (s[i] - c' * RADIX) * w == (a[i] - b[i] - c) * w;
  }

  /** The loop of `bi_int_multiply`: |a| + 1 components holding a times the component d. */
  method MulByComp(a: seq<Comp>, d: Comp) returns (r: seq<Comp>)
    requires |a| >= 1
    ensures |r| == |a| + 1
    ensures Val(r) == Val(a) * d
  {
    r := [];
    var carry: Comp := 0;
    var j := 0;
    hide Val, Weight;
    assert Val(r) + carry * Weight(0) == Val(a[..0]) * d by {
      ValAllZero([]);
    }
    while j < |a|
      invariant 0 <= j == |r| <= |a|
      invariant Val(r) + carry * Weight(j) == Val(a[..j]) * d
    {
      ghost var c, r0 := carry, r;
      var tmp := LongProduct(a[j], d, 0, carry);
      r := r + [Low(tmp)];
      carry := High(tmp);
      MulStep(a, d, r0, j, c, Low(tmp), carry);
      j := j + 1;
    }
    assert a[..j] == a;
    ValSnoc(r, carry);
    r := r + [carry];
  }

  lemma MulStep(a: seq<Comp>, d: Comp, r: seq<Comp>, j: nat, c: int, x: Comp, c': int)
    requires j == |r| < |a|
    requires Val(r) + c * Weight(j) == Val(a[..j]) * d
    requires x + c' * RADIX == a[j] * d + c
    ensures Val(r + [x]) + c' * Weight(j + 1) == Val(a[..j + 1]) * d
  {
    hide Val;
    ValPrefixStep(a, j);
    ValSnoc(r, x);
    var w := Weight(j);
    assert (x + c' * RADIX) * w == (a[j] * d + c) * w;
    assert (Val(a[..j]) + a[j] * w) * d == Val(a[..j]) * d + a[j] * d * w;
  }

  /** The loop of `bi_int_divide`: every component divided from the top, remainder carried. */
  method DivByComp(a: seq<Comp>, d: Comp) returns (q: seq<Comp>)
    requires |a| >= 1 && d > 0
    ensures |q| == |a|
    ensures Val(q) == Val(a) / d
  {
    hide Val, Weight;
    ValAllZero([]);
    q := a;
    var i := |a|;
    var r := 0;
    assert q[i..] == [] && a[i..] == [];
    while i > 0
      invariant 0 <= i <= |a| && |q| == |a| && 0 <= r < d
      invariant q[..i] == a[..i]
      invariant Val(q[i..]) * d + r == Val(a[i..])
    {
      ghost var r0, q0 := r, q;
      var t := r * RADIX + q[i - 1];
      DigitBound(r, q[i - 1], d);
      q := q[i - 1 := t / d];
      r := t % d;
      assert (t / d) * d + r == t;
      assert q[i..] == q0[i..];
      DivStep(a, q, i - 1, d, r0, r);
      i := i - 1;
    }
    assert q[0..] == q && a[0..] == a;
    DivModUnique(Val(a), d, Val(q), r);
  }

  lemma DigitBound(r: int, x: Comp, d: int)
    requires 0 <= r < d
    ensures 0 <= (r * RADIX + x) / d < RADIX
  {
    var t := r * RADIX + x;
    assert t < d * RADIX;
    assert t == (t / d) * d + t % d;
    MulCancelLess(t / d, RADIX, d);
  }

  lemma DivStep(a: seq<Comp>, q: seq<Comp>, i: nat, d: int, r0: int, r: int)
    requires i < |a| == |q| && d > 0
    requires Val(q[i + 1..]) * d + r0 == Val(a[i + 1..])
    requires q[i] * d + r == r0 * RADIX + a[i]
    ensures Val(q[i..]) * d + r == Val(a[i..])
  {
    hide Val;
    assert q[i..] == [q[i]] + q[i + 1..];
    assert a[i..] == [a[i]] + a[i + 1..];
    ValConcat([q[i]], q[i + 1..]);
    ValConcat([a[i]], a[i + 1..]);
    ValOne(q[i]);
    ValOne(a[i]);
    var vq := Val(q[i + 1..]);
    assert Weight(1) == RADIX;
    assert (q[i] + RADIX * vq) * d == q[i] * d + RADIX * (vq * d);
  }

  /** The loop of `trim`: the size that drops leading zero components but keeps one. */
  method TrimmedSize(a: seq<Comp>) returns (n: nat)
    requires |a| >= 1
    ensures 1 <= n <= |a|
    ensures Trimmed(a[..n]) && AllZero(a[n..]) && Val(a[..n]) == Val(a)
  {
    n := |a|;
    while a[n - 1] == 0 && n > 1
      invariant 1 <= n <= |a| && AllZero(a[n..])
    {
      n := n - 1;
    }
    assert a == a[..n] + a[n..];
    ValPad(a[..n], a[n..]);
  }

  /** `bi_compare`: -1, 0 or 1, deciding by size first and then from the top component down. */
  method Compare(a: seq<Comp>, b: seq<Comp>) returns (r: int)
    requires Trimmed(a) && Trimmed(b)
    ensures r == (if Val(a) < Val(b) then -1 else if Val(a) > Val(b) then 1 else 0)
  {
    if |a| > |b| {
      LongerIsLarger(a, b);
      return 1;
    } else if |a| < |b| {
      LongerIsLarger(b, a);
      return -1;
    }
    var i := |a|;
    while i > 0
      invariant 0 <= i <= |a|
      invariant a[i..] == b[i..]
    {
      if a[i - 1] > b[i - 1] {
        OrderedAt(b, a, i - 1);
        return 1;
      } else if a[i - 1] < b[i - 1] {
        OrderedAt(a, b, i - 1);
        return -1;
      }
      i := i - 1;
    }
    assert a[0..] == a && b[0..] == b;
    return 0;
  }
}
