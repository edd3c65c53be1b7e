/** The PKCS #1 v1.5 blocks of `RSA_encrypt` and `RSA_decrypt` (sections 7.2 and 9.2 of RFC 8017). */
module Pkcs1 {
  import opened Bytes

  /** Encryption blocks are padded with random non-zero bytes, signature blocks with 0xff. */
  datatype BlockType = Encryption | Signature

  function TypeByte(t: BlockType): (b: Byte) { if t == Encryption then 2 else 1 }

  predicate IsPad(t: BlockType, b: Byte) { if t == Encryption then b != 0 else b == 0xff }

  predicate AllPad(t: BlockType, s: seq<Byte>) { forall i :: 0 <= i < |s| ==> IsPad(t, s[i]) }

  /** The block that `RSA_encrypt` builds. */
  function Block(t: BlockType, pads: seq<Byte>, data: seq<Byte>): (b: seq<Byte>)
  {
    [0, TypeByte(t)] + pads + [0] + data
  }

  /** What `RSA_decrypt` accepts: at least eight padding bytes, a byte that is no padding, and a
      non-empty message. For signatures the separating byte need not be zero. */
  ghost predicate Framed(t: BlockType, block: seq<Byte>, message: seq<Byte>, padCount: nat)
  {
    && padCount >= 8 && message != [] && |block| == 3 + padCount + |message|
    && block[0] == 0 && block[1] == TypeByte(t)
    && (forall i :: 2 <= i < 2 + padCount ==> IsPad(t, block[i])) && !IsPad(t, block[2 + padCount])
    && block[3 + padCount..] == message
  }

  /** A block frames at most one message. */
  lemma FramedUnique(t: BlockType, block: seq<Byte>, m1: seq<Byte>, n1: nat, m2: seq<Byte>, n2: nat)
    requires Framed(t, block, m1, n1) && Framed(t, block, m2, n2)
    ensures m1 == m2 && n1 == n2
  {
  }

  /** Unpadding undoes padding. */
  lemma BlockFramed(t: BlockType, pads: seq<Byte>, data: seq<Byte>)
    requires AllPad(t, pads) && |pads| >= 8 && data != []
    ensures Framed(t, Block(t, pads, data), data, |pads|)
  {
    var b := Block(t, pads, data);
    assert forall i :: 2 <= i < 2 + |pads| ==> b[i] == pads[i - 2];
    assert b[3 + |pads|..] == data;
  }

  /** An empty message is padded into a block that is not accepted. */
  lemma EmptyNotFramed(t: BlockType, pads: seq<Byte>, m: seq<Byte>, n: nat)
    requires AllPad(t, pads)
    ensures !Framed(t, Block(t, pads, []), m, n)
  {
    var b := Block(t, pads, []);
    assert forall i :: 2 <= i < 2 + |pads| ==> b[i] == pads[i - 2];
  }

  /** The blocks of section 7.2.1 and 9.2 of RFC 8017, byte by byte. */
  lemma BlockIs(pads: seq<Byte>, data: seq<Byte>)
    ensures Block(Encryption, pads, data) == [0, 2] + pads + [0] + data
    ensures Block(Signature, pads, data) == [0, 1] + pads + [0] + data
    ensures AllPad(Encryption, pads) <==> forall i :: 0 <= i < |pads| ==> pads[i] != 0
    ensures AllPad(Signature, pads) <==> forall i :: 0 <= i < |pads| ==> pads[i] == 0xff
  {
  }

  /** Exactly which encryption blocks are accepted: 0, 2, at least eight non-zero bytes, a zero byte and a
      message. */
  lemma EncryptionAccepted(b0: Byte, b1: Byte, pads: seq<Byte>, sep: Byte, data: seq<Byte>)
    ensures Framed(Encryption, [b0, b1] + pads + [sep] + data, data, |pads|) <==>
      && b0 == 0 && b1 == 2 && |pads| >= 8 && (forall i :: 0 <= i < |pads| ==> pads[i] != 0)
      && sep == 0 && data != []
  {
    var b := [b0, b1] + pads + [sep] + data;
    assert forall i :: 0 <= i < |pads| ==> b[2 + i] == pads[i];
    assert b[2 + |pads|] == sep && b[3 + |pads|..] == data;
  }

  /** And which signature blocks: 0, 1, at least eight bytes 0xff, any other byte and a message. */
  lemma SignatureAccepted(b0: Byte, b1: Byte, pads: seq<Byte>, sep: Byte, data: seq<Byte>)
    ensures Framed(Signature, [b0, b1] + pads + [sep] + data, data, |pads|) <==>
      && b0 == 0 && b1 == 1 && |pads| >= 8 && (forall i :: 0 <= i < |pads| ==> pads[i] == 0xff)
      && sep != 0xff && data != []
  {
    var b := [b0, b1] + pads + [sep] + data;
    assert forall i :: 0 <= i < |pads| ==> b[2 + i] == pads[i];
    assert b[2 + |pads|] == sep && b[3 + |pads|..] == data;
  }

  /** In verification any byte but 0xff passes for the separator. */
  lemma SeparatorAccepted(pads: seq<Byte>, sep: Byte, data: seq<Byte>)
    requires AllPad(Signature, pads) && |pads| >= 8 && data != []
    ensures Framed(Signature, [0, 1] + pads + [sep] + data, data, |pads|) <==> sep != 0xff
  {
    var b := [0, 1] + pads + [sep] + data;
    assert forall i :: 2 <= i < 2 + |pads| ==> b[i] == pads[i - 2];
    assert b[2 + |pads|] == sep && b[3 + |pads|..] == data;
  }

  /** The checks and scanning loop of `RSA_decrypt`: where the message starts, or None. */
  method Unpad(t: BlockType, block: seq<Byte>) returns (start: int)
    requires |block| >= 3
    ensures start == -1 || 11 <= start < |block|
    ensures start >= 0 ==> Framed(t, block, block[start..], start - 3)
    ensures start == -1 ==> forall m, n :: !Framed(t, block, m, n)
  {
    var i, padCount := 0, 0;
    if block[i] != 0 { return -1; }
    i := i + 1;
    if block[i] != TypeByte(t) { return -1; }
    i := i + 1;
    var more := IsPad(t, block[i]);
    i := i + 1;
    while more && i < |block|
      invariant 3 <= i <= |block| && padCount == i - 3
      invariant more == IsPad(t, block[i - 1]) && forall x :: 2 <= x < i - 1 ==> IsPad(t, block[x])
      decreases |block| - i
    {
      padCount := padCount + 1;
      more := IsPad(t, block[i]);
      i := i + 1;
    }
    if i == |block| || padCount < 8 {
      return -1;
    }
    return i;
  }
}
