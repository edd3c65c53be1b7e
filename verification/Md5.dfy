/** The streaming MD5 context of nut/crypto/md5.c. */
module Md5 {
  import opened Radix
  import opened Hashing

  type Chain = seq<bv32>

  function InitialState(): (s: Chain)
  {
    [0x67452301, 0xefcdab89, 0x98badcfe, 0x10325476]
  }

  /** The initial value of section 3.3 of RFC 1321, whose bytes count up and down. */
  lemma InitialStateIs()
    ensures |InitialState()| == 4
    ensures InitialState()[0] as nat == LittleEndianValue([0x01, 0x23, 0x45, 0x67])
    ensures InitialState()[1] as nat == LittleEndianValue([0x89, 0xab, 0xcd, 0xef])
    ensures InitialState()[2] as nat == LittleEndianValue([0xfe, 0xdc, 0xba, 0x98])
    ensures InitialState()[3] as nat == LittleEndianValue([0x76, 0x54, 0x32, 0x10])
  {
    hide LittleEndianValue;
    LittleEndianFour(0x01, 0x23, 0x45, 0x67);
    LittleEndianFour(0x89, 0xab, 0xcd, 0xef);
    LittleEndianFour(0xfe, 0xdc, 0xba, 0x98);
    LittleEndianFour(0x76, 0x54, 0x32, 0x10);
  }

  const PADDING: seq<Byte> := [0x80] + ZeroBytes(63)

  /** MD5 of a message in one go, with the compression function f. */
  function Hash(f: Compression<Chain>, m: seq<Byte>): (s: Chain) { OneShot(f, InitialState(), m, 64, 8, false) }

  class Md5Ctx {
    var count0: nat
    var count1: nat
    var state: Chain
    const buffer: array<Byte>
    const transform: Compression<Chain>
    ghost var message: seq<Byte>

    /** State, buffer and bit counters are functions of the bytes accepted. */
    ghost predicate Valid()
      reads this, buffer
    {
      && buffer.Length == 64 && Counts(count0, count1, 8 * |message|)
      && Streamed(transform, InitialState(), message, 64, state, buffer[..count0 / 8 % 64])
    }

    /** `MD5_Init`. */
    constructor (transform: Compression<Chain>)
      ensures Valid() && message == [] && this.transform == transform && fresh(buffer)
    {
      this.transform := transform;
      count0, count1, state, message := 0, 0, InitialState(), [];
      buffer := new Byte[64];
      new;
      StartValid(this);
    }

    /** `MD5_Update`. */
    method Update(msg: seq<Byte>)
      requires Valid() && |msg| < 0x8000_0000
      modifies this, buffer
      ensures Valid() && message == old(message) + msg
    {
      hide Streamed, Counts;
      var x := count0 / 8 % 64;
      var bits := 8 * |msg| % RADIX;
      CountBits(count0, count1, |message|, |msg|);
      count0 := (count0 + bits) % RADIX;
      if count0 < bits { count1 := (count1 + 1) % RADIX; }
      count1 := (count1 + |msg| / 0x2000_0000) % RADIX;
      AbsorbBytes(msg, x);
    }

    /** Everything of `MD5_Update` but the counters, which already include msg. */
    method AbsorbBytes(msg: seq<Byte>, x0: nat)
      requires buffer.Length == 64 && x0 < 64 && Streamed(transform, InitialState(), message, 64, state, buffer[..x0])
      requires Counts(count0, count1, 8 * (|message| + |msg|))
      modifies this`state, this`message, buffer
      ensures Valid() && message == old(message) + msg
    {
      hide Streamed, Counts;
      var x := x0;
      var partLen, i := 64 - x, 0;
      ghost var m0 := message;
      if |msg| >= partLen {
        FillBlock(msg[..partLen], x);
        i := partLen;
        while i + 63 < |msg|
          invariant partLen <= i <= |msg| && |message| == |m0| + i && message == m0 + msg[..i]
          invariant Streamed(transform, InitialState(), message, 64, state, [])
        {
          CompressBlock(msg[i..i + 64]);
          assert msg[..i] + msg[i..i + 64] == msg[..i + 64];
          i := i + 64;
        }
        x := 0;
        assert buffer[..x] == [];
      }
      KeepRest(msg[i..], x);
      assert msg[..i] + msg[i..] == msg;
    }

    method FillBlock(part: seq<Byte>, x: nat)
      requires buffer.Length == 64 && x + |part| == 64
      requires Streamed(transform, InitialState(), message, 64, state, buffer[..x])
      modifies this`state, this`message, buffer
      ensures Streamed(transform, InitialState(), message, 64, state, []) && message == old(message) + part
    {
      hide Streamed;
      ghost var b0 := buffer[..x];
      forall j | 0 <= j < |part| { buffer[x + j] := part[j]; }
      assert buffer[..] == b0 + part;
      StreamBlock(transform, InitialState(), message, 64, state, b0, part);
      state := transform(state, buffer[..]);
      message := message + part;
    }

    method CompressBlock(block: seq<Byte>)
      requires |block| == 64 && Streamed(transform, InitialState(), message, 64, state, [])
      modifies this`state, this`message
      ensures Streamed(transform, InitialState(), message, 64, state, []) && message == old(message) + block
    {
      hide Streamed;
      StreamBlock(transform, InitialState(), message, 64, state, [], block);
      assert [] + block == block;
      state := transform(state, block);
      message := message + block;
    }

    method KeepRest(rest: seq<Byte>, x: nat)
      requires buffer.Length == 64 && x + |rest| < 64
      requires Streamed(transform, InitialState(), message, 64, state, buffer[..x])
      requires Counts(count0, count1, 8 * (|message| + |rest|))
      modifies this`message, buffer
      ensures Valid() && message == old(message) + rest
    {
      hide Streamed, Counts;
      ghost var b0 := buffer[..x];
      forall j | 0 <= j < |rest| { buffer[x + j] := rest[j]; }
      StreamBuffer(transform, InitialState(), message, 64, state, b0, rest);
      message := message + rest;
      assert buffer[..x + |rest|] == b0 + rest;
      StreamedLength(transform, InitialState(), message, 64, state, b0 + rest);
      ByteCount(|message|, count0, count1);
    }

    /** `MD5_Final`: the chaining value of the padded message. */
    method Final() returns (s: Chain)
      requires Valid()
      modifies this, buffer
      ensures s == Hash(transform, old(message))
    {
      hide Streamed, Counts;
      ghost var m := message;
      var bits := LittleEndian(count0, 4) + LittleEndian(count1, 4);
      LittleEndian8(8 * |m|);
      CountsAre(count0, count1, 8 * |m|);
      var x := count0 / 8 % 64;
      var padLen := if x < 56 then 56 - x else 120 - x;
      ByteCount(|m|, count0, count1);
      PaddingLength(|m|, 64, 8);
      assert PADDING[..padLen] == Padding(|m|, 64, 8);
      Update(PADDING[..padLen]);
      Update(bits);
      assert message == Padded(m, 64, 8, false);
      PaddedWhole(m, 64, 8, false);
      StreamWhole(transform, InitialState(), message, 64, state, buffer[..count0 / 8 % 64]);
      s := state;
    }
  }

  lemma StartValid(c: Md5Ctx)
    requires c.buffer.Length == 64 && c.count0 == 0 && c.count1 == 0 && c.state == InitialState() && c.message == []
    ensures c.Valid()
  {
    hide Streamed, InitialState;
    StreamNothing(c.transform, InitialState(), 64);
    assert c.buffer[..0] == [];
  }

  lemma CountsAre(c0: nat, c1: nat, n: nat)
    requires Counts(c0, c1, n)
    ensures c0 == n % RADIX && c1 == n / RADIX % RADIX
  {
  }

  lemma ByteCount(n: nat, c0: nat, c1: nat)
    requires Counts(c0, c1, 8 * n)
    ensures c0 / 8 % 64 == n % 64
  {
    var q := 8 * n / RADIX;
    assert c0 / 8 == n - q * 0x2000_0000;
  }

  /** Adding 8 l bits: l << 3 to the low counter with its carry, l >> 29 to the high one. */
  lemma CountBits(c0: nat, c1: nat, n: nat, l: nat)
    requires Counts(c0, c1, 8 * n) && l < RADIX
    ensures var bits := 8 * l % RADIX;
            var c := (c0 + bits) % RADIX;
            var d := if c < bits then (c1 + 1) % RADIX else c1;
            Counts(c, (d + l / 0x2000_0000) % RADIX, 8 * (n + l))
  {
    var x, top := 8 * n, l / 0x2000_0000;
    var bits := 8 * l - top * RADIX;
    DivModUnique(8 * l, RADIX, top, bits);
    var q := x / RADIX;
    var c := if c0 + bits >= RADIX then 1 else 0;
    DivModUnique(c0 + bits, RADIX, c, c0 + bits - c * RADIX);
    DivModUnique(x + 8 * l, RADIX, q + top + c, c0 + bits - c * RADIX);
    HighCounter(q, c1, c, top);
  }

  lemma HighCounter(q: nat, c1: nat, c: nat, top: nat)
    requires c1 == q % RADIX && c <= 1
    ensures (q + top + c) % RADIX == ((if c == 1 then (c1 + 1) % RADIX else c1) + top) % RADIX
  {
    var d := if c == 1 then (c1 + 1) % RADIX else c1;
    var e := (c1 + c - d) / RADIX;
    var y := d + top;
    DivModUnique(q + top + c, RADIX, q / RADIX + e + y / RADIX, y % RADIX);
  }
}
