/** The streaming SHA-512 context of nut/crypto/sha512.c. */
module Sha512 {
  import opened Radix
  import opened Hashing

  type Chain = seq<bv64>

  const TWO_64: nat := 0x1_0000_0000_0000_0000

  function InitialState(): (s: Chain)
  {
    [0x6A09E667F3BCC908, 0xBB67AE8584CAA73B, 0x3C6EF372FE94F82B, 0xA54FF53A5F1D36F1,
     0x510E527FADE682D1, 0x9B05688C2B3E6C1F, 0x1F83D9ABFB41BD6B, 0x5BE0CD19137E2179]
  }

  /** The initial value is that of section 5.3.5 of FIPS 180-4: the first 64 fraction bits of the square roots of
      the first eight primes. */
  lemma InitialStateIs()
    ensures |InitialState()| == 8
    ensures RootBits(2, 1, InitialState()[0] as nat, TWO_64)
    ensures RootBits(3, 1, InitialState()[1] as nat, TWO_64)
    ensures RootBits(5, 2, InitialState()[2] as nat, TWO_64)
    ensures RootBits(7, 2, InitialState()[3] as nat, TWO_64)
    ensures RootBits(11, 3, InitialState()[4] as nat, TWO_64)
    ensures RootBits(13, 3, InitialState()[5] as nat, TWO_64)
    ensures RootBits(17, 4, InitialState()[6] as nat, TWO_64)
    ensures RootBits(19, 4, InitialState()[7] as nat, TWO_64)
  {
  }

  const PADDING: seq<Byte> := [0x80] + ZeroBytes(127)

  /** SHA-512 of a message in one go, with the compression function f. */
  function Hash(f: Compression<Chain>, m: seq<Byte>): (s: Chain) { OneShot(f, InitialState(), m, 128, 16, true) }

  /** The message as the source pads it: its length field counts bits modulo 2^64. */
  function SourcePadded(m: seq<Byte>): (p: seq<Byte>)
  {
    m + Padding(|m|, 128, 16) + (ZeroBytes(8) + BigEndian(8 * |m| % TWO_64, 8))
  }

  /** For every length that the standard allows, that is the standard's padding exactly below 2^64 bits. */
  lemma SourcePaddedIs(m: seq<Byte>)
    requires 8 * |m| < TWO_64 * TWO_64
    ensures SourcePadded(m) == Padded(m, 128, 16, true) <==> 8 * |m| < TWO_64
  {
    hide Padding;
    var x := 8 * |m|;
    var front, field, wanted := m + Padding(|m|, 128, 16), ZeroBytes(8) + BigEndian(x % TWO_64, 8), BigEndian(x, 16);
    if x < TWO_64 {
      BitField(x);
    } else if SourcePadded(m) == Padded(m, 128, 16, true) {
      assert field == (front + field)[|front|..] && wanted == (front + wanted)[|front|..];
      FieldBelow(x);
    }
  }

  /** A message of 2^61 bytes is the shortest that is padded differently. */
  lemma LongMessage(m: seq<Byte>)
    requires |m| == 0x2000_0000_0000_0000
    ensures SourcePadded(m) != Padded(m, 128, 16, true)
  {
    hide SourcePadded, Padded;
    SourcePaddedIs(m);
  }

  /** A 128-bit field whose upper eight bytes are zero holds a number below 2^64. */
  lemma FieldBelow(x: nat)
    requires x < TWO_64 * TWO_64 && BigEndian(x, 16)[..8] == ZeroBytes(8)
    ensures x < TWO_64
  {
    hide Power256, ByteOf;
    PowerOfFour();
    PowerAdd(4, 4);
    PowerAdd(8, 8);
    forall j | 8 <= j < 16
      ensures ByteOf(x, j) == 0
    {
      assert BigEndian(x, 16)[..8][15 - j] == ByteOf(x, j);
    }
    ZeroBytesBelow(x, 8, 16);
  }

  lemma {:induction false} ZeroBytesBelow(x: nat, low: nat, high: nat)
    requires low <= high && x < Power256(high) && forall j :: low <= j < high ==> ByteOf(x, j) == 0
    ensures x < Power256(low)
    decreases high - low
  {
    hide Power256;
    if low < high {
      var p := Power256(high - 1);
      PowerAdd(1, high - 1);
      PowerOne();
      ByteValue(x, high - 1);
      ZeroDigit(x, p);
      ZeroBytesBelow(x, low, high - 1);
    }
  }

  lemma ByteValue(x: nat, j: nat)
    requires ByteOf(x, j) == 0
    ensures x / Power256(j) % 256 == 0
  {
    hide Power256;
  }

  lemma ZeroDigit(x: nat, p: nat)
    requires p > 0 && x < 256 * p && x / p % 256 == 0
    ensures x < p
  {
    var q := x / p;
    assert x == q * p + x % p;
    DivNonNegative(x, p);
    if q >= 256 { MulMonotone(256, q, p); }
    if q > 0 { DivModUnique(q, 256, 0, q); }
  }

  class Sha512Ctx {
    var size: nat
    var totalSize: nat
    var h: Chain
    /** The first 128 bytes of the union of words and bytes. */
    const buffer: array<Byte>
    const process: Compression<Chain>
    ghost var message: seq<Byte>

    ghost predicate Valid()
      reads this, buffer
    {
      && buffer.Length == 128 && size < 128 && totalSize == |message| % TWO_64
      && Streamed(process, InitialState(), message, 128, h, buffer[..size])
    }

    /** `SHA512_Init`. */
    constructor (process: Compression<Chain>)
      ensures Valid() && message == [] && this.process == process && fresh(buffer)
    {
      this.process := process;
      size, totalSize, h, message := 0, 0, InitialState(), [];
      buffer := new Byte[128];
      new;
      StartValid(this);
    }

    /** `SHA512_Update`. */
    method Update(msg: seq<Byte>)
      requires Valid()
      modifies this, buffer
      ensures Valid() && message == old(message) + msg
    {
      hide Streamed;
      var i := 0;
      while i < |msg|
        invariant 0 <= i <= |msg| && Valid() && message == old(message) + msg[..i]
        decreases |msg| - i
      {
        var len := |msg| - i;
        var n := if len < 128 - size then len else 128 - size;
        PutBytes(msg[i..i + n]);
        assert msg[..i] + msg[i..i + n] == msg[..i + n];
        i := i + n;
      }
      assert msg[..i] == msg;
    }

    /** One pass: copy what fits, and compress when the buffer is full. */
    method PutBytes(part: seq<Byte>)
      requires Valid() && size + |part| <= 128
      modifies this, buffer
      ensures Valid() && message == old(message) + part
    {
      hide Streamed;
      ghost var b0 := buffer[..size];
      forall j | 0 <= j < |part| { buffer[size + j] := part[j]; }
      CountMore(|message|, |part|);
      size, totalSize := size + |part|, (totalSize + |part|) % TWO_64;
      assert buffer[..size] == b0 + part;
      if size == 128 {
        StreamBlock(process, InitialState(), message, 128, h, b0, part);
        assert buffer[..] == b0 + part;
        h, size := process(h, buffer[..]), 0;
        assert buffer[..0] == [];
      } else {
        StreamBuffer(process, InitialState(), message, 128, h, b0, part);
      }
      message := message + part;
    }

    /** `SHA512_Final`: padding through Update, then the length written straight into the last sixteen
        bytes of the buffer. The source keeps a 64-bit count, so that the upper half of the length
        field is always zero; from 2^64 bits on the hash is that of another padding. */
    method Final() returns (s: Chain)
      requires Valid()
      modifies this, buffer
      ensures s == Absorb(process, InitialState(), SourcePadded(old(message)), 128)
      ensures 8 * |old(message)| < TWO_64 ==> s == Hash(process, old(message))
    {
      var bits := totalSize * 8 % TWO_64;
      ghost var m := message;
      CountBitsOf(|m|);
      if 8 * |m| < TWO_64 { SourcePaddedIs(m); }
      Pad();
      WriteLength(bits, m);
      s := h;
    }

    /** The padding bytes, up to the length field. */
    method Pad()
      requires Valid()
      modifies this, buffer
      ensures Valid() && size == 112 && message == old(message) + Padding(|old(message)|, 128, 16)
    {
      hide Streamed;
      ghost var m := message;
      StreamedLength(process, InitialState(), m, 128, h, buffer[..size]);
      var paddingSize := if size < 112 then 112 - size else 128 + 112 - size;
      PaddingLength(|m|, 128, 16);
      assert PADDING[..paddingSize] == Padding(|m|, 128, 16);
      Update(PADDING[..paddingSize]);
      PaddingFits(|m|, 128, 16);
      StreamedLength(process, InitialState(), message, 128, h, buffer[..size]);
      AtLength(|message|);
    }

    method WriteLength(bits: nat, ghost m: seq<Byte>)
      requires Valid() && size == 112 && message == m + Padding(|m|, 128, 16) && bits == 8 * |m| % TWO_64
      modifies this`h, buffer
      ensures h == Absorb(process, InitialState(), SourcePadded(m), 128)
    {
      hide Streamed, Padding;
      ghost var b0 := buffer[..112];
      var field := ZeroBytes(8) + BigEndian(bits, 8);
      forall i | 0 <= i < 16 { buffer[112 + i] := field[i]; }
      assert buffer[..] == b0 + field;
      assert message + field == SourcePadded(m);
      StreamBlock(process, InitialState(), message, 128, h, b0, field);
      PaddingFits(|m|, 128, 16);
      h := process(h, buffer[..]);
      StreamWhole(process, InitialState(), message + field, 128, h, []);
    }
  }

  lemma StartValid(c: Sha512Ctx)
    requires c.buffer.Length == 128 && c.size == 0 && c.totalSize == 0 && c.h == InitialState() && c.message == []
    ensures c.Valid()
  {
    hide Streamed, InitialState;
    StreamNothing(c.process, InitialState(), 128);
    assert c.buffer[..0] == [];
  }

  lemma CountMore(n: nat, l: nat)
    ensures (n % TWO_64 + l) % TWO_64 == (n + l) % TWO_64
  {
    var r := (n % TWO_64 + l) % TWO_64;
    DivModUnique(n + l, TWO_64, n / TWO_64 + (n % TWO_64 + l) / TWO_64, r);
  }

  lemma CountBitsOf(n: nat)
    ensures (n % TWO_64) * 8 % TWO_64 == 8 * n % TWO_64
  {
    var q := n / TWO_64;
    var r := (n % TWO_64) * 8;
    DivModUnique(8 * n, TWO_64, 8 * q + r / TWO_64, r % TWO_64);
  }

  lemma AtLength(n: nat)
    requires (n + 16) % 128 == 0
    ensures n % 128 == 112
  {
  }

  /** A bit count below 2^64 leaves the upper eight bytes of its field zero. */
  lemma BitField(x: nat)
    requires x < TWO_64
    ensures BigEndian(x, 16) == ZeroBytes(8) + BigEndian(x, 8)
  {
    hide ByteOf;
    forall i | 0 <= i < 8
      ensures BigEndian(x, 16)[i] == 0
    {
      HighByteZero(x, 15 - i);
    }
  }

  lemma HighByteZero(x: nat, j: nat)
    requires x < TWO_64 && j >= 8
    ensures ByteOf(x, j) == 0
  {
    hide Power256;
    assert x < Power256(j) by { PowerAtLeast(j); }
    DivModUnique(x, Power256(j), 0, x);
  }

  lemma PowerAtLeast(j: nat)
    requires j >= 8
    ensures Power256(j) >= TWO_64
  {
    hide Power256;
    PowerOfFour();
    PowerAdd(4, 4);
    PowerAdd(8, j - 8);
    MulMonotone(1, Power256(j - 8), TWO_64);
    assert TWO_64 * Power256(j - 8) == Power256(j - 8) * TWO_64;
  }
}
