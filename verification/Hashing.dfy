/** Iterated hash functions as their standards define them: absorb whole blocks, pad, encode the
    length; and what a streaming context must hold at any moment. The compression functions are
    parameters: everything here is about the message they are given. */
module Hashing {
  import opened Radix
  import Bytes

  type Byte = bv8

  /** A chaining step: from a chaining value and a block to the next chaining value. */
  type Compression<!S> = (S, seq<Byte>) -> S

  /** Absorb the whole blocks of a message, n bytes each. */
  function Absorb<S>(f: Compression<S>, s: S, m: seq<Byte>, n: nat): (r: S)
    requires n > 0
    decreases |m|
  {
    if |m| < n then s else Absorb(f, f(s, m[..n]), m[n..], n)
  }

  lemma {:induction false} AbsorbConcat<S>(f: Compression<S>, s: S, a: seq<Byte>, b: seq<Byte>, n: nat)
    requires n > 0 && |a| % n == 0
    ensures Absorb(f, s, a + b, n) == Absorb(f, Absorb(f, s, a, n), b, n)
    decreases |a|
  {
    if |a| < n {
      assert a == [] by { if |a| > 0 { SmallMod(|a|, n); } }
      assert a + b == b;
    } else {
      assert (a + b)[..n] == a[..n] && (a + b)[n..] == a[n..] + b;
      ModDown(|a|, n);
      AbsorbConcat(f, f(s, a[..n]), a[n..], b, n);
    }
  }

  /** Nothing and a single block, from which every message is built. */
  lemma AbsorbOne<S>(f: Compression<S>, s: S, block: seq<Byte>, n: nat)
    requires |block| == n > 0
    ensures Absorb(f, s, [], n) == s && Absorb(f, s, block, n) == f(s, block)
  {
    assert block[..n] == block && block[n..] == [];
    assert Absorb(f, f(s, block), [], n) == f(s, block);
  }

  lemma SmallMod(x: nat, n: nat)
    requires x < n
    ensures x % n == x
  {
  }

  lemma ModDown(x: nat, n: nat)
    requires 0 < n <= x
    ensures (x - n) % n == x % n
  {
    var q, r := x / n, x % n;
    assert x == q * n + r;
    assert x - n == (q - 1) * n + r by { assert (q - 1) * n == q * n - n; }
    DivModUnique(x - n, n, q - 1, r);
  }

  /** The part of a message that has been compressed, and the part still in the buffer. */
  function Done(m: seq<Byte>, n: nat): (d: seq<Byte>)
    requires n > 0
    ensures |d| <= |m|
  {
    m[..|m| - |m| % n]
  }

  function Pending(m: seq<Byte>, n: nat): (p: seq<Byte>)
    requires n > 0
    ensures |p| == |m| % n && |p| < n
  {
    m[|m| - |m| % n..]
  }

  lemma DonePending(m: seq<Byte>, n: nat)
    requires n > 0
    ensures m == Done(m, n) + Pending(m, n) && |Done(m, n)| % n == 0
  {
    var q, r := |m| / n, |m| % n;
    assert |m| == q * n + r;
    DivModUnique(|m| - r, n, q, 0);
  }

  /** The state of a streaming hash after the bytes m, in whatever pieces they came. */
  ghost predicate Streamed<S>(f: Compression<S>, iv: S, m: seq<Byte>, n: nat, state: S, buffered: seq<Byte>)
  {
    n > 0 && state == Absorb(f, iv, Done(m, n), n) && buffered == Pending(m, n)
  }

  /** More bytes that do not fill the block stay in the buffer. */
  lemma StreamBuffer<S>(f: Compression<S>, iv: S, m: seq<Byte>, n: nat, state: S, buffered: seq<Byte>, more: seq<Byte>)
    requires Streamed(f, iv, m, n, state, buffered) && |buffered| + |more| < n
    ensures Streamed(f, iv, m + more, n, state, buffered + more)
  {
    var r := |m| % n;
    DonePending(m, n);
    var q := |m| / n;
    assert |m| == q * n + r;
    DivModUnique(|m| + |more|, n, q, r + |more|);
    assert Done(m + more, n) == Done(m, n);
    assert Pending(m + more, n) == Pending(m, n) + more;
  }

  /** Bytes that complete the block are compressed with it. */
  lemma StreamBlock<S>(f: Compression<S>, iv: S, m: seq<Byte>, n: nat, state: S, buffered: seq<Byte>, more: seq<Byte>)
    requires Streamed(f, iv, m, n, state, buffered) && |buffered| + |more| == n
    ensures Streamed(f, iv, m + more, n, f(state, buffered + more), [])
  {
    DonePending(m, n);
    var r, q := |m| % n, |m| / n;
    assert |m| == q * n + r;
    assert |m| + |more| == (q + 1) * n + 0 by { assert (q + 1) * n == q * n + n; }
    DivModUnique(|m| + |more|, n, q + 1, 0);
    var block := buffered + more;
    assert m + more == Done(m, n) + block;
    assert Done(m + more, n) == Done(m, n) + block;
    AbsorbConcat(f, iv, Done(m, n), block, n);
    assert block[..n] == block && block[n..] == [];
    assert Absorb(f, state, block, n) == Absorb(f, f(state, block), [], n);
  }

  lemma StreamNothing<S>(f: Compression<S>, iv: S, n: nat)
    requires n > 0
    ensures Streamed(f, iv, [], n, iv, [])
  {
    DivModUnique(0, n, 0, 0);
  }

  /** When the bytes fill their blocks the state is the whole message absorbed. */
  lemma StreamWhole<S>(f: Compression<S>, iv: S, m: seq<Byte>, n: nat, state: S, buffered: seq<Byte>)
    requires Streamed(f, iv, m, n, state, buffered) && |m| % n == 0
    ensures state == Absorb(f, iv, m, n) && buffered == []
  {
    assert Done(m, n) == m;
  }

  // ---- padding ----

  function ZeroBytes(k: nat): (z: seq<Byte>)
    ensures |z| == k
  {
    seq(k, i => 0)
  }

  /** Low byte i of a number, i counted from the least significant. */
  function ByteOf(x: nat, i: nat): (b: Byte) { (x / Power256(i) % 256) as bv8 }

  function Power256(i: nat): (p: nat)
    ensures p >= 1
  {
    if i == 0 then 1 else 256 * Power256(i - 1)
  }

  /** The low k bytes of a number, most or least significant first. */
  function BigEndian(x: nat, k: nat): (s: seq<Byte>)
    ensures |s| == k
  {
    seq(k, i requires 0 <= i < k => ByteOf(x, k - 1 - i))
  }

  function LittleEndian(x: nat, k: nat): (s: seq<Byte>)
    ensures |s| == k
  {
    seq(k, i requires 0 <= i < k => ByteOf(x, i))
  }

  /** What bytes stand for, most or least significant first. */
  function BigEndianValue(s: seq<Byte>): (x: nat)
  {
    if s == [] then 0 else 256 * BigEndianValue(s[..|s| - 1]) + s[|s| - 1] as nat
  }

  function LittleEndianValue(s: seq<Byte>): (x: nat)
  {
    if s == [] then 0 else s[0] as nat + 256 * LittleEndianValue(s[1..])
  }

  lemma LittleEndianFour(a: Byte, b: Byte, c: Byte, d: Byte)
    ensures LittleEndianValue([a, b, c, d]) == a as nat + 256 * (b as nat + 256 * (c as nat + 256 * (d as nat)))
  {
    LittleEndianFront(a, [b, c, d]);
    LittleEndianFront(b, [c, d]);
    LittleEndianFront(c, [d]);
    LittleEndianFront(d, []);
    assert [a] + [b, c, d] == [a, b, c, d] && [b] + [c, d] == [b, c, d] && [c] + [d] == [c, d] && [d] + [] == [d];
  }

  lemma LittleEndianFront(a: Byte, s: seq<Byte>)
    ensures LittleEndianValue([]) == 0 && LittleEndianValue([a] + s) == a as nat + 256 * LittleEndianValue(s)
  {
    assert ([a] + s)[1..] == s;
  }

  /** The low byte, and the bytes above it. */
  lemma LowByte(x: nat, j: nat)
    ensures ByteOf(x, 0) as nat == x % 256 && ByteOf(x, j + 1) == ByteOf(x / 256, j)
  {
    hide Power256;
    PowerZero();
    PowerAdd(1, j);
    PowerOne();
    DivDiv(x, 256, Power256(j));
    assert x / 1 == x;
    Bytes.BitsBack(x % 256);
  }

  lemma PowerZero()
    ensures Power256(0) == 1
  {
  }

  lemma RemainderStep(x: nat, k: nat)
    ensures x % Power256(k + 1) == 256 * ((x / 256) % Power256(k)) + x % 256
  {
    hide Power256;
    PowerAdd(1, k);
    PowerOne();
    var p, y := Power256(k), x / 256;
    assert x == 256 * y + x % 256 && y == (y / p) * p + y % p;
    assert 256 * ((y / p) * p) == (y / p) * (256 * p);
    DivModUnique(x, 256 * p, y / p, 256 * (y % p) + x % 256);
  }

  /** The bytes written stand for the number, modulo what they can hold. */
  lemma {:induction false} BigEndianIs(x: nat, k: nat)
    ensures BigEndianValue(BigEndian(x, k)) == x % Power256(k)
  {
    if k > 0 {
      hide ByteOf, Power256;
      var s := BigEndian(x, k);
      forall i | 0 <= i < k - 1
        ensures s[i] == BigEndian(x / 256, k - 1)[i]
      {
        LowByte(x, k - 2 - i);
      }
      assert s[..k - 1] == BigEndian(x / 256, k - 1);
      LowByte(x, 0);
      BigEndianIs(x / 256, k - 1);
      RemainderStep(x, k - 1);
    }
  }

  lemma {:induction false} LittleEndianIs(x: nat, k: nat)
    ensures LittleEndianValue(LittleEndian(x, k)) == x % Power256(k)
  {
    if k > 0 {
      hide ByteOf, Power256;
      var s := LittleEndian(x, k);
      forall i | 0 <= i < k - 1
        ensures s[1..][i] == LittleEndian(x / 256, k - 1)[i]
      {
        LowByte(x, i);
      }
      assert s[1..] == LittleEndian(x / 256, k - 1);
      LowByte(x, 0);
      LittleEndianIs(x / 256, k - 1);
      RemainderStep(x, k - 1);
    }
  }

  lemma PowerOfFour()
    ensures Power256(4) == RADIX
  {
    assert Power256(2) == 65536;
  }

  lemma {:induction false} PowerAdd(a: nat, b: nat)
    ensures Power256(a + b) == Power256(a) * Power256(b)
  {
    if a > 0 { PowerAdd(a - 1, b); }
  }

  /** The bytes of a 64-bit number are those of its two halves. */
  lemma HalfBytes(x: nat, j: nat)
    requires j < 4
    ensures ByteOf(x % RADIX, j) == ByteOf(x, j) && ByteOf(x / RADIX % RADIX, j) == ByteOf(x, 4 + j)
  {
    hide Power256;
    LowHalf(x, j);
    LowHalf(x / RADIX, j);
    PowerOfFour();
    PowerAdd(4, j);
    DivDiv(x, RADIX, Power256(j));
  }

  lemma LowHalf(x: nat, j: nat)
    requires j < 4
    ensures x % RADIX / Power256(j) % 256 == x / Power256(j) % 256
  {
    hide Power256;
    PowerOfFour();
    PowerAdd(j, 4 - j);
    PowerAdd(1, 3 - j);
    PowerOne();
    DigitBelow(x, Power256(j), 256, Power256(3 - j));
  }

  lemma PowerOne()
    ensures Power256(1) == 256
  {
    assert Power256(0) == 1;
  }

  lemma BigEndian8(x: nat)
    ensures BigEndian(x, 8) == BigEndian(x / RADIX % RADIX, 4) + BigEndian(x % RADIX, 4)
  {
    hide ByteOf;
    forall i | 0 <= i < 4
      ensures BigEndian(x, 8)[i] == BigEndian(x / RADIX % RADIX, 4)[i]
      ensures BigEndian(x, 8)[4 + i] == BigEndian(x % RADIX, 4)[i]
    {
      HalfBytes(x, 3 - i);
    }
  }

  lemma LittleEndian8(x: nat)
    ensures LittleEndian(x, 8) == LittleEndian(x % RADIX, 4) + LittleEndian(x / RADIX % RADIX, 4)
  {
    hide ByteOf;
    forall i | 0 <= i < 4
      ensures LittleEndian(x, 8)[i] == LittleEndian(x % RADIX, 4)[i]
      ensures LittleEndian(x, 8)[4 + i] == LittleEndian(x / RADIX % RADIX, 4)[i]
    {
      HalfBytes(x, i);
    }
  }

  /** The padding of an l-byte message to blocks of n bytes with c bytes of length: one bit, and the
      fewest zero bits that leave just room for the length. */
  function Padding(l: nat, n: nat, c: nat): (p: seq<Byte>)
    requires c < n
    ensures |p| >= 1
  {
    [0x80] + ZeroBytes((n - 1 - c - l) % n)
  }

  lemma PaddingFits(l: nat, n: nat, c: nat)
    requires c < n
    ensures 1 <= |Padding(l, n, c)| <= n && (l + |Padding(l, n, c)| + c) % n == 0
  {
    var x := n - 1 - c - l;
    var q := x / n;
    assert x == q * n + x % n;
    assert l + 1 + x % n + c == (1 - q) * n + 0 by { assert (1 - q) * n == n - q * n; }
    DivModUnique(l + 1 + x % n + c, n, 1 - q, 0);
  }

  /** The padded message, written out: the message, one bit, the fewest zero bytes that leave room, and the bit
      count in c bytes. */
  lemma PaddedIs(m: seq<Byte>, n: nat, c: nat, big: bool)
    requires c < n
    ensures var p := Padded(m, n, c, big);
            && |p| % n == 0 && |m| + 1 + c <= |p| < |m| + 1 + c + n && p[..|m|] == m && p[|m|] == 0x80
            && (forall i :: |m| < i < |p| - c ==> p[i] == 0)
            && var field := p[|p| - c..];
               (if big then BigEndianValue(field) else LittleEndianValue(field)) == 8 * |m| % Power256(c)
  {
    hide BigEndian, LittleEndian, Power256;
    PaddingFits(|m|, n, c);
    BigEndianIs(8 * |m|, c);
    LittleEndianIs(8 * |m|, c);
    var p := Padded(m, n, c, big);
    var front := m + Padding(|m|, n, c);
    var field := if big then BigEndian(8 * |m|, c) else LittleEndian(8 * |m|, c);
    assert p == front + field && p[|p| - c..] == field && p[..|m|] == m;
    assert forall i :: |m| < i < |front| ==> p[i] == Padding(|m|, n, c)[i - |m|];
  }

  /** How the code computes the number of padding bytes. */
  lemma PaddingLength(l: nat, n: nat, c: nat)
    requires c < n
    ensures |Padding(l, n, c)| == if l % n < n - c then n - c - l % n else 2 * n - c - l % n
  {
    var q, r := l / n, l % n;
    assert l == q * n + r;
    var x := n - 1 - c - l;
    if r < n - c {
      assert x == (-q) * n + (n - 1 - c - r) by { assert (-q) * n == -(q * n); }
      DivModUnique(x, n, -q, n - 1 - c - r);
    } else {
      assert x == (-q - 1) * n + (2 * n - 1 - c - r) by { assert (-q - 1) * n == -(q * n) - n; }
      DivModUnique(x, n, -q - 1, 2 * n - 1 - c - r);
    }
  }

  /** The padded message with a big-endian bit count (section 5.1 of FIPS 180-4), or little-endian
      (section 3 of RFC 1321); bit counts are taken modulo 256^8. */
  function Padded(m: seq<Byte>, n: nat, c: nat, big: bool): (p: seq<Byte>)
    requires c < n
  {
    m + Padding(|m|, n, c) + (if big then BigEndian(8 * |m|, c) else LittleEndian(8 * |m|, c))
  }

  lemma PaddedWhole(m: seq<Byte>, n: nat, c: nat, big: bool)
    requires c < n
    ensures |Padded(m, n, c, big)| % n == 0
  {
    PaddingFits(|m|, n, c);
  }

  /** The hash of a message in one go. */
  function OneShot<S>(f: Compression<S>, iv: S, m: seq<Byte>, n: nat, c: nat, big: bool): (s: S)
    requires 0 < n && c < n
  {
    Absorb(f, iv, Padded(m, n, c, big), n)
  }

  lemma StreamedLength<S>(f: Compression<S>, iv: S, m: seq<Byte>, n: nat, state: S, b: seq<Byte>)
    requires Streamed(f, iv, m, n, state, b)
    ensures |b| == |m| % n
  {
  }

  // ---- initial values ----

  /** w is the fractional part of the square root of p, in units of 1 / scale and rounded down; r is its whole
      part. */
  predicate RootBits(p: nat, r: nat, w: nat, scale: nat)
  {
    var x := r * scale + w;
    r * r <= p < (r + 1) * (r + 1) && w < scale && x * x <= p * (scale * scale) < (x + 1) * (x + 1)
  }

  // ---- counters ----

  /** Two 32-bit counters hold the number n modulo 2^64. */
  ghost predicate Counts(t0: nat, t1: nat, n: nat) { t0 == n % RADIX && t1 == n / RADIX % RADIX }
}
