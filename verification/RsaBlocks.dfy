/** `RSA_encrypt` and `RSA_decrypt`: padded blocks in byte buffers, and their round trip. */
module RsaBlocks {
  import opened Bytes
  import opened Modular
  import opened Bigints
  import opened Divide
  import opened Octets
  import opened Pkcs1
  import opened RsaKey
  import opened Rsa
  import opened Comps
  import opened Radix

  /** Import, the public or private operation, and export. */
  method Transform(c: RsaCtx, data: seq<Byte>, privately: bool, thresh: nat) returns (out: seq<Byte>, ghost r: nat)
    requires c.biCtx.Valid() && KeyReady(c) && thresh >= 4 && |data| == c.numOctets
    requires privately ==> ExactPrimes(Numbers(c))
    modifies c.biCtx`modOffset, c.biCtx`useClassical, c.biCtx`freeList, c.biCtx`freeCount, c.biCtx`activeCount
    modifies c.biCtx`live, c.biCtx`free, c.biCtx.free, Held(c)
    ensures c.biCtx.Valid() && KeyReady(c) && SameKey(c)
    ensures out == I2osp(r, c.numOctets)
    ensures if privately then PrivateResult(Numbers(c), Os2ip(data), r) else PublicResult(Numbers(c), Os2ip(data), r)
    ensures c.biCtx.activeCount == old(c.biCtx.activeCount) && fresh(c.biCtx.free - old(c.biCtx.free))
    ensures PermanentKept(c.biCtx)
  {
    hide Val, Weight, Pow2, KeyReady, Numbers, Held, BiCtx.Valid;
    hide ExactPrimes, I2osp, Os2ip, PublicResult, PrivateResult;
    LiveNotFree(c.biCtx);
    HeldPermanent(c);
    var dat := Import(c, data);
    LiveNotFree(c.biCtx);
    var result := Apply(c, dat, privately, thresh);
    r := result.Value();
    LiveNotFree(c.biCtx);
    out := Export(c, result);
  }

  method Import(c: RsaCtx, data: seq<Byte>) returns (r: Bigint)
    requires c.biCtx.Valid() && KeyReady(c) && |data| == c.numOctets
    modifies c.biCtx`freeList, c.biCtx`freeCount, c.biCtx`activeCount, c.biCtx`live, c.biCtx`free, c.biCtx.free
    ensures c.biCtx.Valid() && KeyReady(c) && SameKey(c)
    ensures r in c.biCtx.live && r.refs == 1 && r.Value() == Os2ip(data) < Pow2(8 * c.numOctets)
    ensures r !in old(c.biCtx.live) && (r in old(c.biCtx.free) || fresh(r))
    ensures c.biCtx.activeCount == old(c.biCtx.activeCount) + 1 && c.biCtx.free <= old(c.biCtx.free)
    ensures old(c.biCtx.live) <= c.biCtx.live
  {
    hide Val, Weight, Pow2, KeyReady, Numbers, Held, BiCtx.Valid, ExactPrimes, Os2ip;
    LiveNotFree(c.biCtx);
    SizeReady(c);
    Os2ipBound(data);
    r := BiImport(c.biCtx, data);
    KeyKept(c);
  }

  /** The private or the public operation. */
  method Apply(c: RsaCtx, msg: Bigint, privately: bool, thresh: nat) returns (r: Bigint)
    requires c.biCtx.Valid() && KeyReady(c) && thresh >= 4
    requires msg in c.biCtx.live && msg.refs == 1 && msg.Value() < Pow2(8 * c.numOctets)
    requires privately ==> ExactPrimes(Numbers(c))
    modifies c.biCtx`modOffset, c.biCtx`useClassical, c.biCtx`freeList, c.biCtx`freeCount, c.biCtx`activeCount
    modifies c.biCtx`live, c.biCtx`free, c.biCtx.free, msg, Held(c)
    ensures c.biCtx.Valid() && KeyReady(c) && SameKey(c)
    ensures r in c.biCtx.live && r.refs == 1 && r !in old(c.biCtx.live) - {msg}
    ensures (r in old(c.biCtx.free) || fresh(r) || r == msg)
    ensures if privately then PrivateResult(Numbers(c), old(msg.Value()), r.Value())
            else PublicResult(Numbers(c), old(msg.Value()), r.Value())
    ensures c.biCtx.activeCount == old(c.biCtx.activeCount) && fresh(c.biCtx.free - old(c.biCtx.free) - {msg})
    ensures PermanentKept(c.biCtx)
  {
    hide Val, Weight, Pow2, KeyReady, Numbers, Held, BiCtx.Valid, ExactPrimes, PublicResult, PrivateResult;
    if privately {
      r := RsaPrivate(c, msg, thresh);
    } else {
      r := RsaPublic(c, msg, thresh);
    }
  }

  lemma SizeReady(c: RsaCtx)
    requires KeyReady(c)
    ensures c.numOctets >= 3
  {
  }

  method Export(c: RsaCtx, x: Bigint) returns (out: seq<Byte>)
    requires c.biCtx.Valid() && KeyReady(c) && x in c.biCtx.live && x.refs == 1
    modifies c.biCtx`freeList, c.biCtx`freeCount, c.biCtx`activeCount, c.biCtx`live, c.biCtx`free, x`refs
    ensures c.biCtx.Valid() && KeyReady(c) && SameKey(c)
    ensures out == I2osp(old(x.Value()), c.numOctets)
    ensures c.biCtx.activeCount == old(c.biCtx.activeCount) - 1 && c.biCtx.free <= old(c.biCtx.free) + {x}
    ensures old(c.biCtx.live) - {x} <= c.biCtx.live
  {
    hide Val, Weight, Pow2, KeyReady, Numbers, Held, BiCtx.Valid, ExactPrimes, I2osp;
    SizeReady(c);
    out := BiExport(c.biCtx, x, c.numOctets);
    KeyKept(c);
  }

  /** The padded block of `RSA_encrypt`, written into the output buffer. None stands for a failure
      of the random number generator. */
  method WriteBlock(k: nat, data: seq<Byte>, out: array<Byte>, random: Option<seq<Byte>>, t: BlockType)
    returns (ok: bool)
    requires |data| + 3 <= k <= out.Length
    requires random.Some? ==> |random.value| == k - |data| - 3
    modifies out
    ensures ok <==> t == Signature || random.Some?
    ensures ok && t == Encryption ==> out[..k] == Block(t, random.value, data) == [0, 2] + random.value + [0] + data
    ensures ok && t == Signature ==>
      exists pads :: |pads| == k - |data| - 3 && AllPad(t, pads) && out[..k] == Block(t, pads, data)
    ensures out[k..] == old(out[k..])
  {
    var padsNeeded := k - |data| - 3;
    out[0] := 0;
    var pads: seq<Byte>;
    if t == Signature {
      out[1] := 1;
      pads := seq(padsNeeded, i => 0xff);
    } else {
      out[1] := 2;
      if random.None? { return false; }
      pads := random.value;
    }
    forall i | 0 <= i < padsNeeded { out[2 + i] := pads[i]; }
    out[2 + padsNeeded] := 0;
    forall i | 0 <= i < |data| { out[3 + padsNeeded + i] := data[i]; }
    assert out[..k] == Block(t, pads, data);
    ok := true;
  }

  /** `RSA_encrypt`: encrypts with the public key, or signs with the private key. */
  method RsaEncrypt(c: RsaCtx, data: seq<Byte>, out: array<Byte>, random: Option<seq<Byte>>, t: BlockType, thresh: nat)
    returns (len: int)
    requires c.biCtx.Valid() && KeyReady(c) && thresh >= 4 && |data| + 3 <= c.numOctets <= out.Length
    requires random.Some? ==> |random.value| == c.numOctets - |data| - 3
    requires t == Signature ==> ExactPrimes(Numbers(c))
    modifies c.biCtx`modOffset, c.biCtx`useClassical, c.biCtx`freeList, c.biCtx`freeCount, c.biCtx`activeCount
    modifies c.biCtx`live, c.biCtx`free, c.biCtx.free, Held(c), out
    ensures c.biCtx.Valid() && KeyReady(c) && SameKey(c)
    ensures len == if t == Signature || random.Some? then c.numOctets else -1
    ensures len >= 0 && t == Encryption ==> Encrypted(Numbers(c), c.numOctets, t, random.value, data, out[..len])
    ensures len >= 0 && t == Signature ==>
      exists pads :: |pads| == c.numOctets - |data| - 3 && AllPad(t, pads)
                     && Encrypted(Numbers(c), c.numOctets, t, pads, data, out[..len])
    ensures c.biCtx.activeCount == old(c.biCtx.activeCount) && fresh(c.biCtx.free - old(c.biCtx.free))
    ensures PermanentKept(c.biCtx)
  {
    hide Val, Weight, Pow2, KeyReady, Numbers, Held, BiCtx.Valid;
    hide ExactPrimes, I2osp, Os2ip, PublicResult, PrivateResult, Block;
    var k := c.numOctets;
    var ok := WriteBlock(k, data, out, random, t);
    if !ok { return -1; }
    ghost var pads := if t == Encryption then random.value
                      else var p :| |p| == k - |data| - 3 && AllPad(t, p) && out[..k] == Block(t, p, data); p;
    var bytes, r := Transform(c, out[..k], t == Signature, thresh);
    assert Encrypted(Numbers(c), k, t, pads, data, bytes);
    forall i | 0 <= i < k { out[i] := bytes[i]; }
    assert out[..k] == bytes;
    ClearCache(c);
    len := k;
  }

  /** `bi_clear_cache` at the end of an encryption. */
  method ClearCache(c: RsaCtx)
    requires c.biCtx.Valid() && KeyReady(c)
    modifies c.biCtx`freeList, c.biCtx`freeCount, c.biCtx`free
    ensures c.biCtx.Valid() && KeyReady(c) && SameKey(c)
    ensures c.biCtx.free == {}
  {
    hide Val, Weight, Pow2, KeyReady, Numbers, Held, BiCtx.Valid, ExactPrimes;
    c.biCtx.ClearCache();
    KeyKept(c);
  }

  /** `RSA_decrypt`: decrypts with the private key, or verifies with the public key. The message is
      returned exactly when the recovered block frames one; otherwise the result is -1. */
  method RsaDecrypt(c: RsaCtx, inData: seq<Byte>, out: array<Byte>, t: BlockType, thresh: nat)
    returns (size: int, ghost block: seq<Byte>)
    requires c.biCtx.Valid() && KeyReady(c) && thresh >= 4 && |inData| == c.numOctets
    requires t == Encryption ==> ExactPrimes(Numbers(c))
    modifies c.biCtx`modOffset, c.biCtx`useClassical, c.biCtx`freeList, c.biCtx`freeCount, c.biCtx`activeCount
    modifies c.biCtx`live, c.biCtx`free, c.biCtx.free, Held(c), out
    ensures c.biCtx.Valid() && KeyReady(c) && SameKey(c)
    ensures out.Length < c.numOctets ==> size == -1 && out[..] == old(out[..])
    ensures out.Length >= c.numOctets ==>
      Recovered(Numbers(c), c.numOctets, t, inData, block) && Delivered(t, block, c.numOctets, out[..], size)
    ensures c.biCtx.activeCount == old(c.biCtx.activeCount) && fresh(c.biCtx.free - old(c.biCtx.free))
    ensures PermanentKept(c.biCtx)
  {
    hide Val, Weight, Pow2, KeyReady, Numbers, Held, BiCtx.Valid;
    hide ExactPrimes, I2osp, Os2ip, PublicResult, PrivateResult;
    var k := c.numOctets;
    SizeReady(c);
    block := [];
    if out.Length < k { return -1, []; }
    var bytes, r := Transform(c, inData, t == Encryption, thresh);
    block := bytes;
    assert Recovered(Numbers(c), k, t, inData, block);
    size := Deliver(t, bytes, out);
  }

  /** The result and the output buffer of `RSA_decrypt` for a recovered block. */
  ghost predicate Delivered(t: BlockType, block: seq<Byte>, k: nat, buffer: seq<Byte>, size: int)
  {
    if size == -1 then
      (forall m, n :: !Framed(t, block, m, n)) && (forall i :: 0 <= i < |buffer| ==> buffer[i] == 0)
    else
      && 1 <= size <= k - 11 && size <= |buffer| && Framed(t, block, buffer[..size], k - size - 3)
      && (forall i :: size <= i < |buffer| ==> buffer[i] == 0)
  }

  /** The unpadding and the copy into the output buffer, whose other bytes are cleared (by a memset
      that the source does earlier; nothing reads the buffer in between). */
  method Deliver(t: BlockType, block: seq<Byte>, out: array<Byte>) returns (size: int)
    requires 3 <= |block| <= out.Length
    modifies out
    ensures Delivered(t, block, |block|, out[..], size)
  {
    forall i | 0 <= i < out.Length { out[i] := 0; }
    var start := Unpad(t, block);
    if start == -1 { return -1; }
    size := |block| - start;
    forall i | 0 <= i < size { out[i] := block[start + i]; }
    assert out[..size] == block[start..];
    assert out[..][..size] == out[..size];
  }

  /** Decrypting what was encrypted, or verifying what was signed, gives back the data and its length, for
      every key whose exponents are inverse on residues and whose modulus fills its bytes. */
  method EncryptThenDecrypt(c: RsaCtx, data: seq<Byte>, cipher: array<Byte>, plain: array<Byte>, random: seq<Byte>,
                            t: BlockType, thresh: nat)
    returns (size: int)
    requires c.biCtx.Valid() && KeyReady(c) && thresh >= 4 && cipher != plain
    requires cipher.Length == c.numOctets <= plain.Length && 1 <= |data| <= c.numOctets - 11
    requires |random| == c.numOctets - |data| - 3 && AllPad(Encryption, random)
    requires FillsBytes(Numbers(c).n, c.numOctets)
    requires InverseKey(Numbers(c))
    requires ExactPrimes(Numbers(c))
    modifies c.biCtx`modOffset, c.biCtx`useClassical, c.biCtx`freeList, c.biCtx`freeCount, c.biCtx`activeCount
    modifies c.biCtx`live, c.biCtx`free, c.biCtx.free, Held(c), cipher, plain
    ensures c.biCtx.Valid() && KeyReady(c) && Numbers(c) == old(Numbers(c))
    ensures size == |data| && plain[..size] == data
    ensures c.biCtx.activeCount == old(c.biCtx.activeCount)
  {
    hide Val, Weight, Pow2, KeyReady, Numbers, Held, BiCtx.Valid;
    hide ExactPrimes, Encrypted, Recovered, InverseKey, Framed;
    SizeReady(c);
    var len := RsaEncrypt(c, data, cipher, Some(random), t, thresh);
    ghost var key, k := Numbers(c), c.numOctets;
    ghost var pads := if t == Encryption then random
                      else var p :| |p| == k - |data| - 3 && AllPad(t, p)
                                    && Encrypted(key, k, t, p, data, cipher[..len]); p;
    ghost var block;
    ghost var c0 := cipher[..len];
    size, block := RsaDecrypt(c, cipher[..], plain, t, thresh);
    assert cipher[..] == c0;
    RoundTrip(key, k, t, pads, data, c0, block);
    assert size != -1;
    FramedUnique(t, block, data, |pads|, plain[..][..size], k - size - 3);
  }
}
