/** The streaming SHA-1 context of nut/crypto/sha1.c. */
module Sha1 {
  import opened Radix
  import opened Hashing

  type Chain = seq<bv32>

  function InitialState(): (s: Chain)
  {
    [0x67452301, 0xEFCDAB89, 0x98BADCFE, 0x10325476, 0xC3D2E1F0]
  }

  /** The initial value of section 5.3.1 of FIPS 180-4: that of MD5, and a fifth word. */
  lemma InitialStateIs()
    ensures |InitialState()| == 5
    ensures InitialState()[0] as nat == LittleEndianValue([0x01, 0x23, 0x45, 0x67])
    ensures InitialState()[1] as nat == LittleEndianValue([0x89, 0xab, 0xcd, 0xef])
    ensures InitialState()[2] as nat == LittleEndianValue([0xfe, 0xdc, 0xba, 0x98])
    ensures InitialState()[3] as nat == LittleEndianValue([0x76, 0x54, 0x32, 0x10])
    ensures InitialState()[4] as nat == LittleEndianValue([0xf0, 0xe1, 0xd2, 0xc3])
  {
    hide LittleEndianValue;
    LittleEndianFour(0x01, 0x23, 0x45, 0x67);
    LittleEndianFour(0x89, 0xab, 0xcd, 0xef);
    LittleEndianFour(0xfe, 0xdc, 0xba, 0x98);
    LittleEndianFour(0x76, 0x54, 0x32, 0x10);
    LittleEndianFour(0xf0, 0xe1, 0xd2, 0xc3);
  }

  /** SHA-1 of a message in one go, with the compression function f. */
  function Hash(f: Compression<Chain>, m: seq<Byte>): (s: Chain) { OneShot(f, InitialState(), m, 64, 8, true) }

  class Sha1Ctx {
    var lengthLow: nat
    var lengthHigh: nat
    var blockIndex: nat
    const block: array<Byte>
    var intermediateHash: Chain
    const process: Compression<Chain>
    ghost var message: seq<Byte>

    ghost predicate Valid()
      reads this, block
    {
      && block.Length == 64 && blockIndex < 64 && Counts(lengthLow, lengthHigh, 8 * |message|)
      && Streamed(process, InitialState(), message, 64, intermediateHash, block[..blockIndex])
    }

    /** `SHA1_Init`. */
    constructor (process: Compression<Chain>)
      ensures Valid() && message == [] && this.process == process && fresh(block)
    {
      this.process := process;
      lengthLow, lengthHigh, blockIndex, intermediateHash, message := 0, 0, 0, InitialState(), [];
      block := new Byte[64];
      new;
      StartValid(this);
    }

    /** `SHA1_Update`, one byte at a time. */
    method Update(msg: seq<Byte>)
      requires Valid()
      modifies this, block
      ensures Valid() && message == old(message) + msg
    {
      hide Streamed, Counts;
      var i := 0;
      while i < |msg|
        invariant 0 <= i <= |msg| && Valid() && message == old(message) + msg[..i]
      {
        PutByte(msg[i]);
        assert msg[..i] + [msg[i]] == msg[..i + 1];
        i := i + 1;
      }
      assert msg[..i] == msg;
    }

    method PutByte(b: Byte)
      requires Valid()
      modifies this, block
      ensures Valid() && message == old(message) + [b]
    {
      hide Streamed, Counts;
      ghost var b0 := block[..blockIndex];
      CountByte(lengthLow, lengthHigh, |message|);
      block[blockIndex] := b;
      blockIndex := blockIndex + 1;
      assert block[..blockIndex] == b0 + [b];
      lengthLow := (lengthLow + 8) % RADIX;
      if lengthLow == 0 { lengthHigh := (lengthHigh + 1) % RADIX; }
      if blockIndex == 64 {
        StreamBlock(process, InitialState(), message, 64, intermediateHash, b0, [b]);
        assert block[..] == b0 + [b];
        ProcessBlock();
        assert block[..0] == [];
      } else {
        StreamBuffer(process, InitialState(), message, 64, intermediateHash, b0, [b]);
      }
      message := message + [b];
    }

    /** `SHA1ProcessMessageBlock`. */
    method ProcessBlock()
      requires block.Length == 64
      modifies this`intermediateHash, this`blockIndex
      ensures intermediateHash == process(old(intermediateHash), block[..]) && blockIndex == 0
    {
      intermediateHash, blockIndex := process(intermediateHash, block[..]), 0;
    }

    /** Zero bytes up to position `to`. */
    method ZeroTo(to: nat)
      requires block.Length == 64 && blockIndex <= to <= 64
      modifies this`blockIndex, block
      ensures blockIndex == to && block[..to] == old(block[..blockIndex]) + ZeroBytes(to - old(blockIndex))
    {
      ghost var start := blockIndex;
      while blockIndex < to
        invariant start <= blockIndex <= to && block[..start] == old(block[..blockIndex])
        invariant forall i :: start <= i < blockIndex ==> block[i] == 0
      {
        block[blockIndex] := 0;
        blockIndex := blockIndex + 1;
      }
    }

    /** `SHA1PadMessage`: in one block, or in two when the length does not fit. */
    method PadMessage()
      requires Valid()
      modifies this, block
      ensures intermediateHash == Hash(process, old(message))
    {
      hide Streamed, Counts, Hash;
      ghost var m, b0, h0 := message, block[..blockIndex], intermediateHash;
      var k := blockIndex;
      var len := BigEndian(lengthHigh, 4) + BigEndian(lengthLow, 4);
      LengthField(lengthLow, lengthHigh, |m|);
      ghost var one: seq<Byte> := [0x80];
      block[blockIndex] := 0x80;
      blockIndex := blockIndex + 1;
      assert block[..blockIndex] == b0 + one;
      if k > 55 {
        ZeroTo(64);
        assert block[..] == block[..64] == b0 + one + ZeroBytes(63 - k);
        ProcessBlock();
        ZeroTo(56);
        assert block[..56] == ZeroBytes(56);
        LastBlock(len);
        TwoBlocks(process, m, h0, b0, len);
      } else {
        ZeroTo(56);
        LastBlock(len);
        OneBlock(process, m, h0, b0, len);
      }
    }

    /** The length in the last eight bytes, and the final block. */
    method LastBlock(len: seq<Byte>)
      requires block.Length == 64 && |len| == 8
      modifies this`intermediateHash, this`blockIndex, block
      ensures intermediateHash == process(old(intermediateHash), old(block[..56]) + len)
    {
      forall i | 0 <= i < 8 { block[56 + i] := len[i]; }
      assert block[..] == old(block[..56]) + len;
      ProcessBlock();
    }

    /** `SHA1_Final`: the chaining value of the padded message; the context is wiped. */
    method Final() returns (s: Chain)
      requires Valid()
      modifies this, block
      ensures s == Hash(process, old(message))
    {
      PadMessage();
      forall i | 0 <= i < 64 { block[i] := 0; }
      lengthLow, lengthHigh := 0, 0;
      s := intermediateHash;
    }
  }

  lemma StartValid(c: Sha1Ctx)
    requires c.block.Length == 64 && c.lengthLow == 0 && c.lengthHigh == 0 && c.blockIndex == 0
    requires c.intermediateHash == InitialState() && c.message == []
    ensures c.Valid()
  {
    hide Streamed, InitialState;
    StreamNothing(c.process, InitialState(), 64);
    assert c.block[..0] == [];
  }

  lemma CountByte(low: nat, high: nat, n: nat)
    requires Counts(low, high, 8 * n)
    ensures var l := (low + 8) % RADIX;
            Counts(l, if l == 0 then (high + 1) % RADIX else high, 8 * (n + 1))
  {
    var q := 8 * n / RADIX;
    var c := if low + 8 >= RADIX then 1 else 0;
    assert low == 8 * (n - q * 0x2000_0000);
    DivModUnique(low + 8, RADIX, c, low + 8 - c * RADIX);
    DivModUnique(8 * n + 8, RADIX, q + c, low + 8 - c * RADIX);
    var d := if high + c >= RADIX then 1 else 0;
    DivModUnique(q + c, RADIX, q / RADIX + d, high + c - d * RADIX);
    DivModUnique(high + c, RADIX, d, high + c - d * RADIX);
  }

  lemma LengthField(low: nat, high: nat, n: nat)
    requires Counts(low, high, 8 * n)
    ensures BigEndian(high, 4) + BigEndian(low, 4) == BigEndian(8 * n, 8)
  {
    BigEndian8(8 * n);
  }

  /** The padding fits behind the pending bytes. */
  lemma OneBlock(f: Compression<Chain>, m: seq<Byte>, h: Chain, b: seq<Byte>, len: seq<Byte>)
    requires Streamed(f, InitialState(), m, 64, h, b) && |b| <= 55 && |len| == 8
    ensures len == BigEndian(8 * |m|, 8) ==> f(h, b + [0x80] + ZeroBytes(55 - |b|) + len) == Hash(f, m)
  {
    hide Streamed;
    StreamedLength(f, InitialState(), m, 64, h, b);
    PaddingLength(|m|, 64, 8);
    if len == BigEndian(8 * |m|, 8) {
      var more := [0x80] + ZeroBytes(55 - |b|) + len;
      assert Padding(|m|, 64, 8) == [0x80] + ZeroBytes(55 - |b|);
      assert m + more == Padded(m, 64, 8, true);
      StreamBlock(f, InitialState(), m, 64, h, b, more);
      assert b + more == b + [0x80] + ZeroBytes(55 - |b|) + len;
      PaddedWhole(m, 64, 8, true);
      StreamWhole(f, InitialState(), m + more, 64, f(h, b + more), []);
    }
  }

  /** The length goes into a block of its own. */
  lemma TwoBlocks(f: Compression<Chain>, m: seq<Byte>, h: Chain, b: seq<Byte>, len: seq<Byte>)
    requires Streamed(f, InitialState(), m, 64, h, b) && 55 < |b| < 64 && |len| == 8
    ensures len == BigEndian(8 * |m|, 8) ==>
      f(f(h, b + [0x80] + ZeroBytes(63 - |b|)), ZeroBytes(56) + len) == Hash(f, m)
  {
    hide Streamed;
    StreamedLength(f, InitialState(), m, 64, h, b);
    PaddingLength(|m|, 64, 8);
    if len == BigEndian(8 * |m|, 8) {
      var first := [0x80] + ZeroBytes(63 - |b|);
      var second := ZeroBytes(56) + len;
      assert Padding(|m|, 64, 8) == first + ZeroBytes(56);
      assert m + first + second == Padded(m, 64, 8, true);
      StreamBlock(f, InitialState(), m, 64, h, b, first);
      assert b + first == b + [0x80] + ZeroBytes(63 - |b|);
      StreamBlock(f, InitialState(), m + first, 64, f(h, b + first), [], second);
      assert [] + second == second;
      PaddedWhole(m, 64, 8, true);
      StreamWhole(f, InitialState(), m + first + second, 64, f(f(h, b + first), second), []);
    }
  }
}
