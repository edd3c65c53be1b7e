/** The streaming SHA-256 context of nut/crypto/sha256.c. */
module Sha256 {
  import opened Radix
  import opened Hashing

  type Chain = seq<bv32>

  function InitialState(): (s: Chain)
  {
    [0x6A09E667, 0xBB67AE85, 0x3C6EF372, 0xA54FF53A, 0x510E527F, 0x9B05688C, 0x1F83D9AB, 0x5BE0CD19]
  }

  /** The initial value is that of section 5.3.3 of FIPS 180-4: the first 32 fraction bits of the square roots of
      the first eight primes. */
  lemma InitialStateIs()
    ensures |InitialState()| == 8
    ensures RootBits(2, 1, InitialState()[0] as nat, RADIX)
    ensures RootBits(3, 1, InitialState()[1] as nat, RADIX)
    ensures RootBits(5, 2, InitialState()[2] as nat, RADIX)
    ensures RootBits(7, 2, InitialState()[3] as nat, RADIX)
    ensures RootBits(11, 3, InitialState()[4] as nat, RADIX)
    ensures RootBits(13, 3, InitialState()[5] as nat, RADIX)
    ensures RootBits(17, 4, InitialState()[6] as nat, RADIX)
    ensures RootBits(19, 4, InitialState()[7] as nat, RADIX)
  {
  }

  /** `sha256_padding`. */
  const PADDING: seq<Byte> := [0x80] + ZeroBytes(63)

  /** SHA-256 of a message in one go, with the compression function f. */
  function Hash(f: Compression<Chain>, m: seq<Byte>): (s: Chain) { OneShot(f, InitialState(), m, 64, 8, true) }

  class Sha256Ctx {
    var total0: nat
    var total1: nat
    var state: Chain
    const buffer: array<Byte>
    const process: Compression<Chain>
    /** All bytes accepted so far. */
    ghost var message: seq<Byte>

    /** State, buffer and counters are functions of the bytes accepted, not of how they were cut. */
    ghost predicate Valid()
      reads this, buffer
    {
      && buffer.Length == 64 && Counts(total0, total1, |message|)
      && Streamed(process, InitialState(), message, 64, state, buffer[..total0 % 64])
    }

    /** `SHA256_Init`. */
    constructor (process: Compression<Chain>)
      ensures Valid() && message == [] && this.process == process && fresh(buffer)
    {
      this.process := process;
      total0, total1, state, message := 0, 0, InitialState(), [];
      buffer := new Byte[64];
      new;
      StartValid(this);
    }

    /** `SHA256_Update`. */
    method Update(msg: seq<Byte>)
      requires Valid() && |msg| < 0x8000_0000
      modifies this, buffer
      ensures Valid() && message == old(message) + msg
    {
      hide Streamed, Counts;
      var left := total0 % 64;
      var fill := 64 - left;
      CountBytes(total0, total1, |message|, |msg|);
      total0 := (total0 + |msg|) % RADIX;
      if total0 < |msg| { total1 := (total1 + 1) % RADIX; }
      AbsorbBytes(msg, left, fill);
    }

    /** Everything of `SHA256_Update` but the counters, which already include msg. */
    method AbsorbBytes(msg: seq<Byte>, left: nat, fill: nat)
      requires buffer.Length == 64 && left < 64 && fill == 64 - left
      requires Streamed(process, InitialState(), message, 64, state, buffer[..left])
      requires Counts(total0, total1, |message| + |msg|)
      modifies this`state, this`message, buffer
      ensures Valid() && message == old(message) + msg
    {
      hide Streamed, Counts;
      var i, at := 0, left;
      ghost var m0 := message;
      if left != 0 && |msg| >= fill {
        FillBlock(msg[..fill], left);
        i, at := fill, 0;
        assert buffer[..at] == [];
      }
      while |msg| - i >= 64
        invariant 0 <= i <= |msg| && message == m0 + msg[..i] && at < 64 && (at > 0 ==> |msg| - i + at < 64)
        invariant Streamed(process, InitialState(), message, 64, state, buffer[..at])
      {
        assert buffer[..at] == [];
        CompressBlock(msg[i..i + 64]);
        assert msg[..i] + msg[i..i + 64] == msg[..i + 64];
        i := i + 64;
      }
      KeepRest(msg[i..], at);
      assert msg[..i] + msg[i..] == msg;
    }

    /** A whole block straight from the input. */
    method CompressBlock(block: seq<Byte>)
      requires |block| == 64 && Streamed(process, InitialState(), message, 64, state, [])
      modifies this`state, this`message
      ensures Streamed(process, InitialState(), message, 64, state, []) && message == old(message) + block
    {
      hide Streamed;
      StreamBlock(process, InitialState(), message, 64, state, [], block);
      assert [] + block == block;
      state := process(state, block);
      message := message + block;
    }

    /** Complete the buffered block and compress it. */
    method FillBlock(part: seq<Byte>, left: nat)
      requires buffer.Length == 64 && left + |part| == 64
      requires Streamed(process, InitialState(), message, 64, state, buffer[..left])
      modifies this`state, this`message, buffer
      ensures Streamed(process, InitialState(), message, 64, state, []) && message == old(message) + part
    {
      hide Streamed;
      ghost var b0 := buffer[..left];
      forall j | 0 <= j < |part| { buffer[left + j] := part[j]; }
      assert buffer[..] == b0 + part;
      StreamBlock(process, InitialState(), message, 64, state, b0, part);
      state := process(state, buffer[..]);
      message := message + part;
    }

    /** The bytes after the last whole block stay in the buffer. */
    method KeepRest(rest: seq<Byte>, at: nat)
      requires buffer.Length == 64 && at + |rest| < 64
      requires Streamed(process, InitialState(), message, 64, state, buffer[..at])
      requires Counts(total0, total1, |message| + |rest|)
      modifies this`message, buffer
      ensures Valid() && message == old(message) + rest
    {
      hide Streamed, Counts;
      ghost var b0 := buffer[..at];
      if |rest| > 0 {
        forall j | 0 <= j < |rest| { buffer[at + j] := rest[j]; }
      }
      StreamBuffer(process, InitialState(), message, 64, state, b0, rest);
      message := message + rest;
      assert buffer[..at + |rest|] == b0 + rest;
      StreamedLength(process, InitialState(), message, 64, state, b0 + rest);
      ModMod(|message|, total0, total1);
    }

    /** `SHA256_Final`: the chaining value of the padded message. */
    method Final() returns (s: Chain)
      requires Valid()
      modifies this, buffer
      ensures s == Hash(process, old(message))
    {
      hide Streamed, Counts;
      ghost var m := message;
      var high := (total0 / 0x2000_0000 + total1 * 8) % RADIX;
      var low := total0 * 8 % RADIX;
      BitCount(|m|, total0, total1);
      var msglen := BigEndian(high, 4) + BigEndian(low, 4);
      BigEndian8(8 * |m|);
      var last := total0 % 64;
      var padn := if last < 56 then 56 - last else 120 - last;
      ModMod(|m|, total0, total1);
      PaddingLength(|m|, 64, 8);
      assert PADDING[..padn] == Padding(|m|, 64, 8);
      Update(PADDING[..padn]);
      Update(msglen);
      assert message == Padded(m, 64, 8, true);
      PaddedWhole(m, 64, 8, true);
      StreamWhole(process, InitialState(), message, 64, state, buffer[..total0 % 64]);
      s := state;
    }
  }

  lemma StartValid(c: Sha256Ctx)
    requires c.buffer.Length == 64 && c.total0 == 0 && c.total1 == 0 && c.state == InitialState() && c.message == []
    ensures c.Valid()
  {
    hide Streamed, InitialState;
    StreamNothing(c.process, InitialState(), 64);
    assert c.buffer[..0] == [];
  }

  /** Adding l bytes: the carry shows as a low counter below l. */
  lemma CountBytes(t0: nat, t1: nat, n: nat, l: nat)
    requires Counts(t0, t1, n) && l < RADIX
    ensures var t := (t0 + l) % RADIX;
            Counts(t, if t < l then (t1 + 1) % RADIX else t1, n + l)
  {
    var q := n / RADIX;
    var c := if t0 + l >= RADIX then 1 else 0;
    DivModUnique(t0 + l, RADIX, c, t0 + l - c * RADIX);
    DivModUnique(n + l, RADIX, q + c, t0 + l - c * RADIX);
    var d := if t1 + c >= RADIX then 1 else 0;
    DivModUnique(q + c, RADIX, q / RADIX + d, t1 + c - d * RADIX);
    DivModUnique(t1 + c, RADIX, d, t1 + c - d * RADIX);
  }

  lemma ModMod(n: nat, t0: nat, t1: nat)
    requires Counts(t0, t1, n)
    ensures t0 % 64 == n % 64
  {
  }

  /** The bit count, formed from the two counters by shifts. */
  lemma BitCount(n: nat, t0: nat, t1: nat)
    requires Counts(t0, t1, n)
    ensures (t0 / 0x2000_0000 + t1 * 8) % RADIX == 8 * n / RADIX % RADIX
    ensures t0 * 8 % RADIX == 8 * n % RADIX
  {
    var q, c := n / RADIX, t0 / 0x2000_0000;
    var low := 8 * t0 - c * RADIX;
    DivModUnique(8 * n, RADIX, 8 * q + c, low);
    DivModUnique(8 * t0, RADIX, c, low);
    var y := (8 * t1 + c) / RADIX;
    DivModUnique(8 * q + c, RADIX, 8 * (q / RADIX) + y, (8 * t1 + c) % RADIX);
  }
}
