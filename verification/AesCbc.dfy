/** Cipher block chaining over AES blocks (section 6.2 of NIST SP 800-38A), on byte strings. */
module AesCbc {
  import opened AesColumn
  import opened Aes

  type Bytes16 = s: seq<bv8> | |s| == 16 witness seq(16, i => 0)

  /** A byte string made of whole blocks. */
  type Blocks = s: seq<bv8> | |s| % 16 == 0 witness []

  /** Big-endian words of a block. */
  function WordAt(b: Bytes16, i: nat): (w: Word)
    requires i < 4
  {
    Pack(b[4 * i], b[4 * i + 1], b[4 * i + 2], b[4 * i + 3])
  }

  function Load(b: Bytes16): (s: State)
  {
    hide *;
    [WordAt(b, 0), WordAt(b, 1), WordAt(b, 2), WordAt(b, 3)]
  }

  function WordBytes(w: Word): (b: seq<bv8>)
    ensures |b| == 4
  {
    hide *;
    [B0(w), B1(w), B2(w), B3(w)]
  }

  function Store(s: State): (b: Bytes16)
  {
    hide *;
    WordBytes(s[0]) + WordBytes(s[1]) + WordBytes(s[2]) + WordBytes(s[3])
  }

  lemma StoreAt(s: State, i: nat)
    requires i < 4
    ensures Store(s)[4 * i] == B0(s[i]) && Store(s)[4 * i + 1] == B1(s[i])
    ensures Store(s)[4 * i + 2] == B2(s[i]) && Store(s)[4 * i + 3] == B3(s[i])
  {
    hide WordBytes;
    assert Store(s)[4 * i..4 * i + 4] == WordBytes(s[i]);
    WordBytesAre(s[i]);
  }

  lemma WordBytesAre(w: Word)
    ensures WordBytes(w) == [B0(w), B1(w), B2(w), B3(w)]
  {
    hide B0, B1, B2, B3;
  }

  lemma LoadStore(s: State)
    ensures Load(Store(s)) == s
  {
    hide B0, B1, B2, B3, Pack, Store;
    forall i | 0 <= i < 4
      ensures WordAt(Store(s), i) == s[i]
    {
      StoreAt(s, i);
      SameBytes(WordAt(Store(s), i), s[i]);
    }
  }

  lemma StoreLoad(b: Bytes16)
    ensures Store(Load(b)) == b
  {
    hide B0, B1, B2, B3, Store, Load;
    var s, t := Load(b), Store(Load(b));
    forall i | 0 <= i < 4
      ensures t[4 * i] == b[4 * i] && t[4 * i + 1] == b[4 * i + 1]
      ensures t[4 * i + 2] == b[4 * i + 2] && t[4 * i + 3] == b[4 * i + 3]
    {
      StoreAt(s, i);
      LoadAt(b, i);
    }
    forall j | 0 <= j < 16
      ensures t[j] == b[j]
    {
      assert j == 4 * (j / 4) + j % 4;
    }
  }

  lemma LoadAt(b: Bytes16, i: nat)
    requires i < 4
    ensures Load(b)[i] == WordAt(b, i)
  {
    hide WordAt;
  }

  // ---- chaining ----

  /** Ciphertext of a string of blocks, with the chaining value iv. */
  function CbcEnc(ks: seq<Word>, rounds: nat, iv: State, m: Blocks): (c: Blocks)
    requires Schedule(ks, rounds)
    ensures |c| == |m|
    decreases |m|
  {
    hide EncryptBlock, Load, Store, AddKey;
    if m == [] then []
    else
      var out := EncryptBlock(ks, rounds, AddKey(Load(m[..16]), iv));
      Store(out) + CbcEnc(ks, rounds, out, m[16..])
  }

  /** Plaintext of a string of blocks. */
  function CbcDec(ks: seq<Word>, rounds: nat, iv: State, c: Blocks): (m: Blocks)
    requires Schedule(ks, rounds)
    ensures |m| == |c|
    decreases |c|
  {
    hide DecryptBlock, Load, Store, AddKey;
    if c == [] then []
    else
      var tin := Load(c[..16]);
      Store(AddKey(DecryptBlock(ks, rounds, tin), iv)) + CbcDec(ks, rounds, tin, c[16..])
  }

  /** The chaining value after a string of ciphertext. */
  function Chain(iv: State, c: Blocks): (s: State)
  {
    if c == [] then iv else Load(c[|c| - 16..])
  }

  /** Chained decryption with the converted schedule undoes chained encryption. */
  lemma {:induction false} CbcRoundTrip(ks: seq<Word>, rounds: nat, iv: State, m: Blocks)
    requires Schedule(ks, rounds)
    ensures CbcDec(Converted(ks, rounds), rounds, iv, CbcEnc(ks, rounds, iv, m)) == m
    decreases |m|
  {
    hide EncryptBlock, DecryptBlock, Load, Store, AddKey, Converted, Chain;
    if m != [] {
      var ks' := Converted(ks, rounds);
      var b: Bytes16 := m[..16];
      var x := AddKey(Load(b), iv);
      var out := EncryptBlock(ks, rounds, x);
      var c := CbcEnc(ks, rounds, iv, m);
      assert c[..16] == Store(out) && c[16..] == CbcEnc(ks, rounds, out, m[16..]);
      LoadStore(out);
      DecryptUndoesEncrypt(ks, rounds, x);
      AddKeyTwice(Load(b), iv);
      StoreLoad(b);
      CbcRoundTrip(ks, rounds, out, m[16..]);
      assert m == b + m[16..];
    }
  }

  /** Encrypting in two calls is encrypting in one. */
  lemma {:induction false} CbcEncSplit(ks: seq<Word>, rounds: nat, iv: State, m1: Blocks, m2: Blocks)
    requires Schedule(ks, rounds)
    ensures CbcEnc(ks, rounds, iv, m1 + m2)
         == CbcEnc(ks, rounds, iv, m1) + CbcEnc(ks, rounds, Chain(iv, CbcEnc(ks, rounds, iv, m1)), m2)
    decreases |m1|
  {
    hide EncryptBlock, Load, Store, AddKey;
    if m1 == [] {
      assert m1 + m2 == m2;
    } else {
      var out := EncryptBlock(ks, rounds, AddKey(Load(m1[..16]), iv));
      var rest: Blocks := m1[16..];
      assert (m1 + m2)[..16] == m1[..16] && (m1 + m2)[16..] == rest + m2;
      CbcEncSplit(ks, rounds, out, rest, m2);
      ChainStep(iv, out, CbcEnc(ks, rounds, out, rest));
    }
  }

  lemma ChainStep(iv: State, out: State, c: Blocks)
    ensures Chain(iv, Store(out) + c) == Chain(out, c)
  {
    hide Load, Store;
    LoadStore(out);
    var all := Store(out) + c;
    if c == [] {
      assert all[|all| - 16..] == Store(out);
    } else {
      assert all[|all| - 16..] == c[|c| - 16..];
    }
  }

  /** Decrypting in two calls is decrypting in one. */
  lemma {:induction false} CbcDecSplit(ks: seq<Word>, rounds: nat, iv: State, c1: Blocks, c2: Blocks)
    requires Schedule(ks, rounds)
    ensures CbcDec(ks, rounds, iv, c1 + c2) == CbcDec(ks, rounds, iv, c1) + CbcDec(ks, rounds, Chain(iv, c1), c2)
    decreases |c1|
  {
    hide DecryptBlock, Load, Store, AddKey;
    if c1 == [] {
      assert c1 + c2 == c2;
    } else {
      var tin := Load(c1[..16]);
      var rest: Blocks := c1[16..];
      assert (c1 + c2)[..16] == c1[..16] && (c1 + c2)[16..] == rest + c2;
      CbcDecSplit(ks, rounds, tin, rest, c2);
      assert Chain(iv, c1) == Chain(tin, rest) by {
        if rest != [] { assert c1[|c1| - 16..] == rest[|rest| - 16..]; }
      }
    }
  }

  // ---- any number of calls ----

  function Joined(pieces: seq<Blocks>): (m: Blocks)
  {
    if pieces == [] then [] else pieces[0] + Joined(pieces[1..])
  }

  /** What successive `AES_cbc_encrypt` calls produce, each starting from the iv the last one left. */
  function EncCalls(ks: seq<Word>, rounds: nat, iv: State, pieces: seq<Blocks>): (c: Blocks)
    requires Schedule(ks, rounds)
    decreases |pieces|
  {
    hide CbcEnc, Chain;
    if pieces == [] then []
    else
      var first := CbcEnc(ks, rounds, iv, pieces[0]);
      first + EncCalls(ks, rounds, Chain(iv, first), pieces[1..])
  }

  function DecCalls(ks: seq<Word>, rounds: nat, iv: State, pieces: seq<Blocks>): (m: Blocks)
    requires Schedule(ks, rounds)
    decreases |pieces|
  {
    hide CbcDec, Chain;
    if pieces == [] then []
    else CbcDec(ks, rounds, iv, pieces[0]) + DecCalls(ks, rounds, Chain(iv, pieces[0]), pieces[1..])
  }

  lemma {:induction false} EncCallsJoined(ks: seq<Word>, rounds: nat, iv: State, pieces: seq<Blocks>)
    requires Schedule(ks, rounds)
    ensures EncCalls(ks, rounds, iv, pieces) == CbcEnc(ks, rounds, iv, Joined(pieces))
    decreases |pieces|
  {
    hide CbcEnc, Chain;
    if pieces == [] {
      assert CbcEnc(ks, rounds, iv, []) == [];
    } else {
      var first := CbcEnc(ks, rounds, iv, pieces[0]);
      EncCallsJoined(ks, rounds, Chain(iv, first), pieces[1..]);
      CbcEncSplit(ks, rounds, iv, pieces[0], Joined(pieces[1..]));
    }
  }

  lemma {:induction false} DecCallsJoined(ks: seq<Word>, rounds: nat, iv: State, pieces: seq<Blocks>)
    requires Schedule(ks, rounds)
    ensures DecCalls(ks, rounds, iv, pieces) == CbcDec(ks, rounds, iv, Joined(pieces))
    decreases |pieces|
  {
    hide CbcDec, Chain;
    if pieces == [] {
      assert CbcDec(ks, rounds, iv, []) == [];
    } else {
      DecCallsJoined(ks, rounds, Chain(iv, pieces[0]), pieces[1..]);
      CbcDecSplit(ks, rounds, iv, pieces[0], Joined(pieces[1..]));
    }
  }

  /** However the plaintext is cut into encryption calls and the ciphertext into decryption calls,
      the plaintext comes back. */
  lemma CallsRoundTrip(ks: seq<Word>, rounds: nat, iv: State, plain: seq<Blocks>, cipher: seq<Blocks>)
    requires Schedule(ks, rounds) && Joined(cipher) == EncCalls(ks, rounds, iv, plain)
    ensures DecCalls(Converted(ks, rounds), rounds, iv, cipher) == Joined(plain)
  {
    hide CbcEnc, CbcDec, EncCalls, DecCalls, Converted, Joined;
    EncCallsJoined(ks, rounds, iv, plain);
    DecCallsJoined(Converted(ks, rounds), rounds, iv, cipher);
    CbcRoundTrip(ks, rounds, iv, Joined(plain));
  }
}
