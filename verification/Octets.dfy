/** `bi_import` and `bi_export`: bigints as byte strings, most significant byte first. */
module Octets {
  import opened Bytes
  import opened Radix
  import opened Comps
  import opened Modular
  import opened Exponent
  import opened Bigints


  /** The number a byte string stands for (OS2IP of RFC 8017). */
  function Os2ip(s: seq<Byte>): (v: nat)
  {
    if s == [] then 0 else Os2ip(s[..|s| - 1]) * 256 + s[|s| - 1]
  }

  /** The low k bytes of a number (I2OSP of RFC 8017, without its range check). */
  function I2osp(v: nat, k: nat): (s: seq<Byte>)
    ensures |s| == k
  {
    if k == 0 then [] else I2osp(v / 256, k - 1) + [v % 256]
  }

  lemma Pow2Byte(t: nat)
    ensures Pow2(8 * (t + 1)) == 256 * Pow2(8 * t)
  {
    Pow2Add(8, 8 * t);
    assert Pow2(8) == 256;
  }

  lemma {:induction false} Os2ipBound(s: seq<Byte>)
    ensures Os2ip(s) < Pow2(8 * |s|)
  {
    hide Pow2;
    if s == [] {
      Pow2Zero();
    } else {
      var t := |s| - 1;
      Os2ipBound(s[..t]);
      Pow2Byte(t);
    }
  }

  /** Import after export: the number modulo 256^k. */
  lemma {:induction false} ImportExported(v: nat, k: nat)
    ensures Os2ip(I2osp(v, k)) == v % Pow2(8 * k)
  {
    hide Pow2;
    if k == 0 {
      Pow2Zero();
    } else {
      var p, rest := Pow2(8 * (k - 1)), I2osp(v / 256, k - 1);
      ImportExported(v / 256, k - 1);
      assert I2osp(v, k)[..k - 1] == rest;
      Pow2Byte(k - 1);
      AppendByte(v, p);
    }
  }

  lemma AppendByte(v: nat, p: nat)
    requires p > 0
    ensures ((v / 256) % p) * 256 + v % 256 == v % (256 * p)
  {
    var h := v / 256;
    var q, low := h / p, h % p;
    assert h == q * p + low;
    assert q * (256 * p) == 256 * (q * p);
    DivModUnique(v, 256 * p, q, low * 256 + v % 256);
  }

  /** Export after import is the identity on byte strings. */
  lemma {:induction false} ExportImported(s: seq<Byte>)
    ensures I2osp(Os2ip(s), |s|) == s
  {
    if s != [] {
      var t := |s| - 1;
      ExportImported(s[..t]);
      var high: nat := Os2ip(s[..t]);
      DivModUnique(high * 256 + s[t], 256, high, s[t]);
      assert s == s[..t] + [s[t]];
    }
  }

  lemma {:induction false} I2ospAt(v: nat, k: nat, i: nat)
    requires i < k
    ensures I2osp(v, k)[i] == (v / Pow2(8 * (k - 1 - i))) % 256
  {
    hide Pow2;
    if i == k - 1 {
      Pow2Zero();
    } else {
      I2ospAt(v / 256, k - 1, i);
      Pow2Byte(k - 2 - i);
      DivDiv(v, 256, Pow2(8 * (k - 2 - i)));
    }
  }

  /** One more byte in front. */
  lemma {:induction false} Os2ipFront(b: Byte, s: seq<Byte>)
    ensures Os2ip([b] + s) == b * Pow2(8 * |s|) + Os2ip(s)
  {
    hide Pow2;
    var x := [b] + s;
    if s == [] {
      assert x[..0] == [];
      Pow2Zero();
    } else {
      var t := |s| - 1;
      assert x[..|x| - 1] == [b] + s[..t];
      Os2ipFront(b, s[..t]);
      Pow2Byte(t);
      assert b * (256 * Pow2(8 * t)) == b * Pow2(8 * t) * 256;
    }
  }

  /** Byte j of component i stands at 256^(4 i + j). */
  lemma ByteWeight(i: nat, j: nat)
    ensures Pow2(8 * (4 * i + j)) == Weight(i) * Pow2(8 * j)
  {
    hide Pow2;
    WeightIsPow2(i);
    Pow2Add(32 * i, 8 * j);
    assert 8 * (4 * i + j) == 32 * i + 8 * j;
  }

  lemma RadixSplit(j: nat)
    requires j < 4
    ensures RADIX == Pow2(8 * j) * (256 * Pow2(8 * (3 - j)))
  {
    hide Pow2;
    RadixIsPow2();
    Pow2Byte(3 - j);
    Pow2Add(8 * j, 8 * (4 - j));
    assert 8 * j + 8 * (4 - j) == 32;
  }

  // ---- import ----

  lemma ByteFits(c: nat, b: Byte, j: nat)
    requires j < 4 && c < Pow2(8 * j)
    ensures c + b * Pow2(8 * j) < Pow2(8 * (j + 1)) <= RADIX
  {
    hide Pow2;
    var p := Pow2(8 * j);
    Pow2Byte(j);
    Pow2Monotone(8 * (j + 1), 32);
    RadixIsPow2();
    MulMonotone(b + 1, 256, p);
    assert (b + 1) * p == b * p + p;
  }

  /** A byte added at position j of component `offset` weighs 256^(4 offset + j). */
  lemma BytePlace(comps: seq<Comp>, offset: nat, j: nat, b: Byte, x: Comp)
    requires offset < |comps| && x == comps[offset] + b * Pow2(8 * j)
    ensures Val(comps[offset := x]) == Val(comps) + b * Pow2(8 * (4 * offset + j))
  {
    hide Val, Weight, Pow2;
    ByteWeight(offset, j);
    ValUpdate(comps, offset, x);
    PlaceArithmetic(comps[offset], b, Pow2(8 * j), Weight(offset));
  }

  lemma PlaceArithmetic(c: int, b: int, p: int, w: int)
    ensures (c + b * p - c) * w == b * (w * p)
  {
    assert b * p * w == b * (w * p);
  }

  /** The component loop of `bi_import`. */
  method ImportComps(data: seq<Byte>) returns (comps: seq<Comp>)
    requires |data| >= 1
    ensures |comps| == (|data| + 3) / 4 && Val(comps) == Os2ip(data)
  {
    hide Val, Weight, Pow2, Os2ip;
    var n := (|data| + 3) / 4;
    comps := Zeros(n);
    ValAllZero(comps);
    EmptyImport();
    Pow2Zero();
    var i, j, offset := |data| - 1, 0, 0;
    assert data[i + 1..] == [];
    while i >= 0
      invariant -1 <= i < |data| && |comps| == n && 0 <= j < 4 && offset >= 0
      invariant |data| - 1 - i == 4 * offset + j
      invariant Val(comps) == Os2ip(data[i + 1..])
      invariant offset < n ==> comps[offset] < Pow2(8 * j)
      invariant forall k :: offset < k < n ==> comps[k] == 0
    {
      var b := data[i];
      ByteFits(comps[offset], b, j);
      Os2ipFront(b, data[i + 1..]);
      assert [b] + data[i + 1..] == data[i..];
      var shifted := ShiftUp(b, j);
      BytePlace(comps, offset, j, b, comps[offset] + shifted);
      comps := comps[offset := comps[offset] + shifted];
      j := j + 1;
      if j == 4 {
        j, offset := 0, offset + 1;
        Pow2Zero();
      }
      i := i - 1;
    }
    assert data[0..] == data;
  }

  lemma EmptyImport()
    ensures Os2ip([]) == 0
  {
  }

  /** b << (j * 8) */
  method ShiftUp(b: Byte, j: nat) returns (x: nat)
    ensures x == b * Pow2(8 * j)
  {
    hide Pow2;
    x := b;
    Pow2Zero();
    var i := 0;
    while i < j
      invariant 0 <= i <= j && x == b * Pow2(8 * i)
    {
      Pow2Byte(i);
      assert b * (256 * Pow2(8 * i)) == 256 * (b * Pow2(8 * i));
      x := 256 * x;
      i := i + 1;
    }
  }

  /** `bi_import`. */
  method BiImport(ctx: BiCtx, data: seq<Byte>) returns (r: Bigint)
    requires ctx.Valid() && |data| >= 1
    modifies ctx`freeList, ctx`freeCount, ctx`activeCount, ctx`live, ctx`free, ctx.free
    ensures ctx.Valid() && r.Canonical() && r.refs == 1 && r.Value() == Os2ip(data)
    ensures r !in old(ctx.live) && (r in old(ctx.free) || fresh(r))
    ensures ctx.live == old(ctx.live) + {r} && ctx.free == old(ctx.free) - {r}
    ensures ctx.activeCount == old(ctx.activeCount) + 1
  {
    hide Val, Weight, BiCtx.Valid, Os2ip;
    var comps := ImportComps(data);
    r := FromComps(ctx, comps);
  }

  // ---- export ----

  lemma LowByte(y: nat, j: nat)
    requires j < 4
    ensures ((y % RADIX) / Pow2(8 * j)) % 256 == (y / Pow2(8 * j)) % 256
  {
    hide Pow2;
    RadixSplit(j);
    DigitBelow(y, Pow2(8 * j), 256, Pow2(8 * (3 - j)));
  }

  /** Byte j of component i is byte 4 i + j of the number. */
  lemma ByteOfComponent(s: seq<Comp>, i: nat, j: nat)
    requires i < |s| && j < 4
    ensures (Val(s) / Pow2(8 * (4 * i + j))) % 256 == (s[i] / Pow2(8 * j)) % 256
  {
    hide Val, Weight, Pow2;
    ByteBelow(Val(s), i, j);
    DigitAt(s, i);
    LowByte(Val(s) / Weight(i), j);
  }

  lemma ByteBelow(v: nat, i: nat, j: nat)
    ensures v / Pow2(8 * (4 * i + j)) == (v / Weight(i)) / Pow2(8 * j)
  {
    hide Weight, Pow2;
    ByteWeight(i, j);
    DivDiv(v, Weight(i), Pow2(8 * j));
  }

  /** Beyond the components every byte is zero. */
  lemma ByteBeyond(s: seq<Comp>, t: nat)
    requires t >= 4 * |s|
    ensures (Val(s) / Pow2(8 * t)) % 256 == 0
  {
    hide Val, Weight, Pow2;
    ValBound(s);
    WeightIsPow2(|s|);
    Pow2Monotone(32 * |s|, 8 * t);
    DivModUnique(Val(s), Pow2(8 * t), 0, Val(s));
  }

  /** One byte extracted with a mask and a shift. */
  method ByteAt(x: Comp, j: nat) returns (b: Byte)
    ensures b == (x / Pow2(8 * j)) % 256
  {
    hide Pow2;
    var y: nat := x;
    Pow2Zero();
    var i := 0;
    while i < j
      invariant 0 <= i <= j && y == x / Pow2(8 * i)
    {
      DivDiv(x, Pow2(8 * i), 256);
      Pow2Byte(i);
      y := y / 256;
      i := i + 1;
    }
    b := y % 256;
  }

  /** The byte loops of `bi_export`: the low `size` bytes, with leading zeros when the number is
      shorter. */
  method ExportComps(s: seq<Comp>, size: nat) returns (data: seq<Byte>)
    requires size >= 1
    ensures data == I2osp(Val(s), size)
  {
    hide Val, Weight, Pow2, I2osp;
    ghost var want := I2osp(Val(s), size);
    data := seq(size, i => 0);
    var k, i := size - 1, 0;
    while i < |s|
      invariant 0 <= i <= |s| && 0 <= k < size == |data| && size - 1 - k == 4 * i
      invariant data[k + 1..] == want[k + 1..] && forall x :: 0 <= x <= k ==> data[x] == 0
    {
      var j := 0;
      while j < 4
        invariant 0 <= j <= 4 && 0 <= k < size == |data| && size - 1 - k == 4 * i + j
        invariant data[k + 1..] == want[k + 1..] && forall x :: 0 <= x <= k ==> data[x] == 0
      {
        var b := ByteAt(s[i], j);
        ByteOfComponent(s, i, j);
        I2ospAt(Val(s), size, k);
        data := data[k := b];
        assert data[k..] == [b] + data[k + 1..] && want[k..] == [want[k]] + want[k + 1..];
        k := k - 1;
        if k < 0 {
          assert data[0..] == data && want[0..] == want;
          return;
        }
        j := j + 1;
      }
      i := i + 1;
    }
    forall x | 0 <= x <= k
      ensures want[x] == 0
    {
      I2ospAt(Val(s), size, x);
      ByteBeyond(s, size - 1 - x);
    }
    assert data[..k + 1] == want[..k + 1];
    assert data == data[..k + 1] + data[k + 1..] && want == want[..k + 1] + want[k + 1..];
  }

  /** `bi_export`: the bigint is consumed. */
  method BiExport(ctx: BiCtx, x: Bigint, size: nat) returns (data: seq<Byte>)
    requires ctx.Valid() && x in ctx.live && size >= 1
    modifies ctx`freeList, ctx`freeCount, ctx`activeCount, ctx`live, ctx`free, x`refs
    ensures ctx.Valid() && data == I2osp(old(x.Value()), size)
    ensures ctx.Dropped(x, old(x.refs), old(ctx.activeCount), old(ctx.live), old(ctx.free))
  {
    hide Val, Weight, BiCtx.Valid, I2osp;
    data := ExportComps(Digits(x.buf), size);
    ctx.Free(x);
  }
}
