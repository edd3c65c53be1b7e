/** Keyed hashing over the streaming contexts (nut/crypto/hmac.c; section 2 of RFC 2104). */
module Hmac {
  import opened Radix
  import opened Hashing
  import Sha256
  import Md5
  import Sha1

  /** Words of a chaining value as digest bytes. */
  function BigEndianWords(s: seq<bv32>): (d: seq<Byte>)
    ensures |d| == 4 * |s|
  {
    if s == [] then [] else BigEndian(s[0] as nat, 4) + BigEndianWords(s[1..])
  }

  function LittleEndianWords(s: seq<bv32>): (d: seq<Byte>)
    ensures |d| == 4 * |s|
  {
    if s == [] then [] else LittleEndian(s[0] as nat, 4) + LittleEndianWords(s[1..])
  }

  /** Each four bytes of a digest stand for a word of the chaining value. */
  lemma {:induction false} BigEndianDigest(s: seq<bv32>, i: nat)
    requires i < |s|
    ensures BigEndianValue(BigEndianWords(s)[4 * i..4 * i + 4]) == s[i] as nat
  {
    hide BigEndian, BigEndianValue;
    var d := BigEndianWords(s);
    if i == 0 {
      assert d[..4] == BigEndian(s[0] as nat, 4);
      BigEndianIs(s[0] as nat, 4);
      PowerOfFour();
      WordBelow(s[0]);
    } else {
      BigEndianDigest(s[1..], i - 1);
      assert d[4 * i..4 * i + 4] == BigEndianWords(s[1..])[4 * (i - 1)..4 * (i - 1) + 4];
    }
  }

  /** Each four bytes of a digest stand for a word of the chaining value. */
  lemma {:induction false} LittleEndianDigest(s: seq<bv32>, i: nat)
    requires i < |s|
    ensures LittleEndianValue(LittleEndianWords(s)[4 * i..4 * i + 4]) == s[i] as nat
  {
    hide LittleEndian, LittleEndianValue;
    var d := LittleEndianWords(s);
    if i == 0 {
      assert d[..4] == LittleEndian(s[0] as nat, 4);
      LittleEndianIs(s[0] as nat, 4);
      PowerOfFour();
      WordBelow(s[0]);
    } else {
      LittleEndianDigest(s[1..], i - 1);
      assert d[4 * i..4 * i + 4] == LittleEndianWords(s[1..])[4 * (i - 1)..4 * (i - 1) + 4];
    }
  }

  lemma WordBelow(w: bv32)
    ensures (w as nat) % RADIX == w as nat
  {
  }

  /** The key, filled up with zeros to a block, each byte combined with x. */
  function PadKey(key: seq<Byte>, x: Byte): (k: seq<Byte>)
    ensures |k| == 64
  {
    seq(64, i requires 0 <= i < 64 => (if i < |key| then key[i] else 0) ^ x)
  }

  /** H(K xor opad, H(K xor ipad, m)) for a hash function H with blocks of 64 bytes. */
  function Keyed(hash: seq<Byte> -> seq<Byte>, key: seq<Byte>, m: seq<Byte>): (d: seq<Byte>)
  {
    hash(PadKey(key, 0x5c) + hash(PadKey(key, 0x36) + m))
  }

  /** The two pads of RFC 2104: each byte of the key, or zero behind it, combined with 0x36 and 0x5c. */
  lemma KeyedIs(hash: seq<Byte> -> seq<Byte>, key: seq<Byte>, m: seq<Byte>)
    returns (ipad: seq<Byte>, opad: seq<Byte>)
    ensures |ipad| == 64 && |opad| == 64 && Keyed(hash, key, m) == hash(opad + hash(ipad + m))
    ensures forall i :: 0 <= i < 64 ==> ipad[i] == (if i < |key| then key[i] else 0) ^ 0x36
    ensures forall i :: 0 <= i < 64 ==> opad[i] == (if i < |key| then key[i] else 0) ^ 0x5c
  {
    ipad, opad := PadKey(key, 0x36), PadKey(key, 0x5c);
  }

  function Sha256Digest(f: Compression<Sha256.Chain>): (h: seq<Byte> -> seq<Byte>)
  {
    m => BigEndianWords(Sha256.Hash(f, m))
  }

  function Sha1Digest(f: Compression<Sha1.Chain>): (h: seq<Byte> -> seq<Byte>)
  {
    m => BigEndianWords(Sha1.Hash(f, m))
  }

  function Md5Digest(f: Compression<Md5.Chain>): (h: seq<Byte> -> seq<Byte>)
  {
    m => LittleEndianWords(Md5.Hash(f, m))
  }

  /** The two pads, made in place. */
  method MakePads(key: seq<Byte>) returns (ipad: array<Byte>, opad: array<Byte>)
    requires |key| <= 64
    ensures fresh(ipad) && fresh(opad) && ipad[..] == PadKey(key, 0x36) && opad[..] == PadKey(key, 0x5c)
  {
    ipad, opad := new Byte[64](i => 0), new Byte[64](i => 0);
    forall i | 0 <= i < |key| { ipad[i] := key[i]; }
    forall i | 0 <= i < |key| { opad[i] := key[i]; }
    ghost var zeroed := seq(64, i requires 0 <= i < 64 => if i < |key| then key[i] else 0);
    var i := 0;
    while i < 64
      invariant 0 <= i <= 64
      invariant forall j :: 0 <= j < 64 ==> ipad[j] == if j < i then PadKey(key, 0x36)[j] else zeroed[j]
      invariant forall j :: 0 <= j < 64 ==> opad[j] == if j < i then PadKey(key, 0x5c)[j] else zeroed[j]
    {
      ipad[i] := ipad[i] ^ 0x36;
      opad[i] := opad[i] ^ 0x5c;
      i := i + 1;
    }
  }

  /** `hmac_sha256`. */
  method HmacSha256(f: Compression<Sha256.Chain>, msg: seq<Byte>, key: seq<Byte>) returns (digest: seq<Byte>)
    requires |key| <= 64 && |msg| < 0x8000_0000
    requires forall s, b :: |f(s, b)| == 8
    ensures digest == Keyed(Sha256Digest(f), key, msg)
  {
    hide PadKey, Sha256.Hash;
    var ipad, opad := MakePads(key);
    var inner := new Sha256.Sha256Ctx(f);
    inner.Update(ipad[..]);
    inner.Update(msg);
    assert inner.message == PadKey(key, 0x36) + msg;
    var s := inner.Final();
    digest := BigEndianWords(s);
    ShortDigest(f, PadKey(key, 0x36) + msg);
    var outer := new Sha256.Sha256Ctx(f);
    outer.Update(opad[..]);
    outer.Update(digest);
    assert outer.message == PadKey(key, 0x5c) + digest;
    s := outer.Final();
    digest := BigEndianWords(s);
  }

  /** Every digest is eight words long. */
  lemma ShortDigest(f: Compression<Sha256.Chain>, m: seq<Byte>)
    requires forall s, b :: |f(s, b)| == 8
    ensures |Sha256.Hash(f, m)| == 8
  {
    AbsorbLength(f, Sha256.InitialState(), Padded(m, 64, 8, true), 8);
  }

  lemma {:induction false} AbsorbLength(f: Compression<seq<bv32>>, s: seq<bv32>, m: seq<Byte>, n: nat)
    requires |s| == n && forall s, b :: |f(s, b)| == n
    ensures |Absorb(f, s, m, 64)| == n
    decreases |m|
  {
    if |m| >= 64 { AbsorbLength(f, f(s, m[..64]), m[64..], n); }
  }

  /** `hmac_sha1`. */
  method HmacSha1(f: Compression<Sha1.Chain>, msg: seq<Byte>, key: seq<Byte>) returns (digest: seq<Byte>)
    requires |key| <= 64
    ensures digest == Keyed(Sha1Digest(f), key, msg)
  {
    hide PadKey, Sha1.Hash;
    var ipad, opad := MakePads(key);
    var inner := new Sha1.Sha1Ctx(f);
    inner.Update(ipad[..]);
    inner.Update(msg);
    assert inner.message == PadKey(key, 0x36) + msg;
    var s := inner.Final();
    digest := BigEndianWords(s);
    var outer := new Sha1.Sha1Ctx(f);
    outer.Update(opad[..]);
    outer.Update(digest);
    assert outer.message == PadKey(key, 0x5c) + digest;
    s := outer.Final();
    digest := BigEndianWords(s);
  }

  /** `hmac_md5`. */
  method HmacMd5(f: Compression<Md5.Chain>, msg: seq<Byte>, key: seq<Byte>) returns (digest: seq<Byte>)
    requires |key| <= 64 && |msg| < 0x8000_0000
    requires forall s, b :: |f(s, b)| == 4
    ensures digest == Keyed(Md5Digest(f), key, msg)
  {
    hide PadKey, Md5.Hash, LittleEndianWords, Absorb;
    var ipad, opad := MakePads(key);
    var inner := new Md5.Md5Ctx(f);
    inner.Update(ipad[..]);
    inner.Update(msg);
    assert inner.message == PadKey(key, 0x36) + msg;
    var s := inner.Final();
    digest := LittleEndianWords(s);
    ShortMd5(f, PadKey(key, 0x36) + msg);
    var outer := new Md5.Md5Ctx(f);
    outer.Update(opad[..]);
    outer.Update(digest);
    assert outer.message == PadKey(key, 0x5c) + digest;
    s := outer.Final();
    digest := LittleEndianWords(s);
  }

  lemma ShortMd5(f: Compression<Md5.Chain>, m: seq<Byte>)
    requires forall s, b :: |f(s, b)| == 4
    ensures |Md5.Hash(f, m)| == 4
  {
    AbsorbLength(f, Md5.InitialState(), Padded(m, 64, 8, false), 4);
  }
}
