/** The AES context of nut/crypto/aes.c and the functions that work in place on it. */
module AesContext {
  import opened AesTables
  import opened AesColumn
  import opened Aes
  import opened AesCbc

  /** AES_MODE; any other value makes `AES_set_key` fail silently. */
  datatype Mode = Mode128 | Mode256 | OtherMode

  function ModeRounds(mode: Mode): (n: nat) { if mode == Mode128 then 10 else 14 }
  function ModeWords(mode: Mode): (n: nat) { if mode == Mode128 then 4 else 8 }

  /** The first entries of Rcon: as many as either key size uses. */
  function Rcon(i: nat): (b: bv8)
    ensures i == 0 ==> b == 1
    ensures i < 9 ==> Rcon(i + 1) == Xtime(b)
    decreases 10 - i
  {
    match i
    case 0 => 0x01 case 1 => 0x02 case 2 => 0x04 case 3 => 0x08 case 4 => 0x10
    case 5 => 0x20 case 6 => 0x40 case 7 => 0x80 case 8 => 0x1b case _ => 0x36
  }

  function SubWord(w: Word): (v: Word) { Pack(SBox(B0(w)), SBox(B1(w)), SBox(B2(w)), SBox(B3(w))) }

  /** SubWord after RotWord, with the round constant. */
  function RotSubRcon(w: Word, i: nat): (v: Word)
  {
    Xor(Pack(SBox(B1(w)), SBox(B2(w)), SBox(B3(w)), SBox(B0(w))), Pack(Rcon(i), 0, 0, 0))
  }

  /** Word i of the expanded key (section 5.2 of FIPS 197). */
  function Expanded(key: seq<bv8>, words: nat, i: nat): (w: Word)
    requires (words == 4 || words == 8) && |key| == 4 * words
  {
    if i < words then Pack(key[4 * i], key[4 * i + 1], key[4 * i + 2], key[4 * i + 3])
    else
      var tmp := Expanded(key, words, i - 1);
      var t := if i % words == 0 then RotSubRcon(tmp, i / words - 1)
               else if words == 8 && i % words == 4 then SubWord(tmp)
               else tmp;
      Xor(Expanded(key, words, i - words), t)
  }

  /** How many round constants have been used when word i is next. */
  function RconIndex(i: nat, words: nat): (n: int)
    requires words > 0
  {
    (i + words - 1) / words - 1
  }

  lemma RconStart(words: nat)
    requires words == 4 || words == 8
    ensures RconIndex(words, words) == 0
  {
  }

  lemma RconStep(i: nat, words: nat)
    requires (words == 4 || words == 8) && i >= words
    ensures RconIndex(i, words) >= 0
    ensures RconIndex(i + 1, words) == RconIndex(i, words) + (if i % words == 0 then 1 else 0)
    ensures i % words == 0 ==> RconIndex(i, words) == i / words - 1
  {
    if words == 4 { } else { }
  }

  lemma ExpandedStart(key: seq<bv8>, words: nat, i: nat)
    requires (words == 4 || words == 8) && |key| == 4 * words && i < words
    ensures Expanded(key, words, i) == Pack(key[4 * i], key[4 * i + 1], key[4 * i + 2], key[4 * i + 3])
  {
    hide Pack;
  }

  lemma ExpandedStep(key: seq<bv8>, words: nat, i: nat)
    requires (words == 4 || words == 8) && |key| == 4 * words && i >= words
    ensures i / words >= 1
    ensures var tmp := Expanded(key, words, i - 1);
            var t := if i % words == 0 then RotSubRcon(tmp, i / words - 1)
                     else if words == 8 && i % words == 4 then SubWord(tmp)
                     else tmp;
            Expanded(key, words, i) == Xor(Expanded(key, words, i - words), t)
  {
    hide Xor, RotSubRcon, SubWord, Pack;
    if words == 4 { assert i / 4 >= 1; } else { assert i / 8 >= 1; }
  }

  lemma RoundKeyAt(ks: seq<Word>, r: nat)
    requires 4 * (r + 1) <= |ks|
    ensures RoundKey(ks, r)[0] == ks[4 * r] && RoundKey(ks, r)[1] == ks[4 * r + 1]
    ensures RoundKey(ks, r)[2] == ks[4 * r + 2] && RoundKey(ks, r)[3] == ks[4 * r + 3]
  {
  }

  lemma EncColumnsAre(s: State, last: bool)
    ensures EncColumns(s, last) ==
            [EncColumn(s, 0, last), EncColumn(s, 1, last), EncColumn(s, 2, last), EncColumn(s, 3, last)]
  {
    hide EncColumn;
  }

  lemma DecColumnsAre(s: State, last: bool)
    ensures DecColumns(s, last) ==
            [DecColumn(s, 1, last), DecColumn(s, 2, last), DecColumn(s, 3, last), DecColumn(s, 4, last)]
  {
    hide DecColumn;
  }

  class AesCtx {
    var rounds: nat
    var keySize: nat
    const ks: array<Word>
    var iv: seq<bv8>

    constructor ()
      ensures Sized() && fresh(ks)
    {
      rounds, keySize, iv := 0, 0, seq(16, i => 0);
      ks := new Word[120](i => Word(0));
    }

    /** The field sizes. */
    ghost predicate Sized()
      reads this
    {
      ks.Length == 120 && |iv| == 16
    }

    /** A key has been set. */
    ghost predicate Keyed()
      reads this
    {
      Sized() && (rounds == 10 || rounds == 14)
    }

    /** `AES_set_key`. */
    method SetKey(key: seq<bv8>, newIv: seq<bv8>, mode: Mode)
      requires Sized() && |newIv| == 16 && (mode != OtherMode ==> |key| == 4 * ModeWords(mode))
      modifies this, ks
      ensures mode == OtherMode ==> unchanged(this) && unchanged(ks)
      ensures mode != OtherMode ==>
        && Keyed() && rounds == ModeRounds(mode) && keySize == ModeWords(mode) && iv == newIv
        && forall i :: 0 <= i < 4 * (rounds + 1) ==> ks[i] == Expanded(key, keySize, i)
    {
      if mode == OtherMode { return; }
      var words := ModeWords(mode);
      rounds, keySize := ModeRounds(mode), words;
      ExpandInto(key, words);
      iv := newIv;
    }

    /** The two loops that fill the schedule. */
    method ExpandInto(key: seq<bv8>, words: nat)
      requires Sized() && (rounds == 10 || rounds == 14) && (words == 4 || words == 8) && |key| == 4 * words
      modifies ks
      ensures forall i :: 0 <= i < 4 * (rounds + 1) ==> ks[i] == Expanded(key, words, i)
    {
      hide Pack, RotSubRcon, SubWord, Xor, Expanded, RconIndex;
      var i := 0;
      while i < words
        invariant 0 <= i <= words && i % 2 == 0
        invariant forall j :: 0 <= j < i ==> ks[j] == Expanded(key, words, j)
      {
        ExpandedStart(key, words, i);
        ExpandedStart(key, words, i + 1);
        ks[i] := Pack(key[4 * i], key[4 * i + 1], key[4 * i + 2], key[4 * i + 3]);
        ks[i + 1] := Pack(key[4 * i + 4], key[4 * i + 5], key[4 * i + 6], key[4 * i + 7]);
        i := i + 2;
      }
      var ip, ii := 0, 4 * (rounds + 1);
      RconStart(words);
      while i < ii
        invariant words <= i <= ii && ip == RconIndex(i, words)
        invariant forall j :: 0 <= j < i ==> ks[j] == Expanded(key, words, j)
      {
        var tmp := ks[i - 1];
        assert tmp == Expanded(key, words, i - 1) && ks[i - words] == Expanded(key, words, i - words);
        RconStep(i, words);
        if i % words == 0 {
          tmp := RotSubRcon(tmp, ip);
          ip := ip + 1;
        }
        if words == 8 && i % words == 4 {
          tmp := SubWord(tmp);
        }
        ExpandedStep(key, words, i);
        ks[i] := Xor(ks[i - words], tmp);
        i := i + 1;
      }
    }

    /** `AES_convert_key`. */
    method ConvertKey()
      requires Keyed()
      modifies ks
      ensures ks[..] == Converted(old(ks[..]), rounds)
    {
      hide InvMixCol;
      var k, i := 4, 4 * rounds;
      while i > 4
        invariant 4 <= i <= 4 * rounds && k == 4 * rounds + 4 - i
        invariant forall j :: 0 <= j < 120 ==>
          ks[j] == if 4 <= j < k then InvMixCol(old(ks[j])) else old(ks[j])
      {
        ks[k] := InvMixCol(ks[k]);
        k, i := k + 1, i - 1;
      }
    }

    /** `AES_encrypt`: one block, in place. */
    method Encrypt(data: array<Word>)
      requires Keyed() && data.Length == 4 && data != ks
      modifies data
      ensures data[..] == EncryptBlock(ks[..], rounds, old(data[..]))
    {
      hide EncColumn, Xor;
      ghost var d0: State, key := data[..], ks[..];
      var k, row := 0, 0;
      while row < 4
        invariant 0 <= row <= 4 && k == row
        invariant forall r :: 0 <= r < 4 ==> data[r] == if r < row then Xor(d0[r], key[r]) else d0[r]
      {
        data[row] := Xor(data[row], ks[k]);
        k, row := k + 1, row + 1;
      }
      assert data[..] == EncState(key, rounds, d0, 0);
      var currRnd := 0;
      while currRnd < rounds
        invariant 0 <= currRnd <= rounds && data[..] == EncState(key, rounds, d0, currRnd)
      {
        EncryptRound(data, currRnd, 4 * (currRnd + 1));
        currRnd := currRnd + 1;
      }
    }

    /** One pass of the round loop; the key is added in a second loop, after all columns are done. */
    method EncryptRound(data: array<Word>, currRnd: nat, k0: nat)
      requires Keyed() && data.Length == 4 && data != ks && currRnd < rounds && k0 == 4 * (currRnd + 1)
      modifies data
      ensures data[..] == AddKey(EncColumns(old(data[..]), currRnd + 1 == rounds), RoundKey(ks[..], currRnd + 1))
    {
      hide EncColumn, EncColumns, Xor, RoundKey;
      ghost var s: State := data[..];
      var tmp := new Word[4](i => Word(0));
      var row := 0;
      while row < 4
        invariant 0 <= row <= 4 && data[..] == s
        invariant forall r :: 0 <= r < row ==> tmp[r] == EncColumn(s, r, currRnd + 1 == rounds)
      {
        tmp[row] := EncColumn(data[..], row, currRnd + 1 == rounds);
        row := row + 1;
      }
      var k := k0;
      row := 0;
      while row < 4
        invariant 0 <= row <= 4 && k == k0 + row
        invariant forall r :: 0 <= r < 4 ==> tmp[r] == EncColumn(s, r, currRnd + 1 == rounds)
        invariant forall r :: 0 <= r < row ==> data[r] == Xor(tmp[r], ks[k0 + r])
      {
        data[row] := Xor(tmp[row], ks[k]);
        k, row := k + 1, row + 1;
      }
      EncColumnsAre(s, currRnd + 1 == rounds);
      ghost var cols, key := EncColumns(s, currRnd + 1 == rounds), RoundKey(ks[..], currRnd + 1);
      RoundKeyAt(ks[..], currRnd + 1);
      assert data[0] == Xor(cols[0], key[0]) && data[1] == Xor(cols[1], key[1]);
      assert data[2] == Xor(cols[2], key[2]) && data[3] == Xor(cols[3], key[3]);
      assert data[..] == AddKey(cols, key);
    }

    /** `AES_decrypt`: one block, in place; the key pointer runs backwards from the end. */
    method Decrypt(data: array<Word>)
      requires Keyed() && data.Length == 4 && data != ks
      modifies data
      ensures data[..] == DecryptBlock(ks[..], rounds, old(data[..]))
    {
      hide DecColumn, Xor;
      ghost var d0: State, key := data[..], ks[..];
      var k, row := 4 * (rounds + 1), 4;
      while row > 0
        invariant 0 <= row <= 4 && k == 4 * rounds + row
        invariant forall r :: 0 <= r < 4 ==> data[r] == if r >= row then Xor(d0[r], key[4 * rounds + r]) else d0[r]
      {
        k := k - 1;
        data[row - 1] := Xor(data[row - 1], ks[k]);
        row := row - 1;
      }
      assert data[..] == DecState(key, rounds, d0, 0);
      var currRnd := 0;
      while currRnd < rounds
        invariant 0 <= currRnd <= rounds && data[..] == DecState(key, rounds, d0, currRnd)
      {
        DecryptRound(data, currRnd, 4 * (rounds - currRnd));
        currRnd := currRnd + 1;
      }
    }

    method DecryptRound(data: array<Word>, currRnd: nat, k0: nat)
      requires Keyed() && data.Length == 4 && data != ks && currRnd < rounds && k0 == 4 * (rounds - currRnd)
      modifies data
      ensures data[..] ==
              AddKey(DecColumns(old(data[..]), currRnd + 1 == rounds), RoundKey(ks[..], rounds - currRnd - 1))
    {
      hide DecColumn, DecColumns, Xor, RoundKey;
      ghost var s: State := data[..];
      var tmp := new Word[4](i => Word(0));
      var row := 4;
      while row > 0
        invariant 0 <= row <= 4 && data[..] == s
        invariant forall r :: row <= r < 4 ==> tmp[r] == DecColumn(s, r + 1, currRnd + 1 == rounds)
      {
        tmp[row - 1] := DecColumn(data[..], row, currRnd + 1 == rounds);
        row := row - 1;
      }
      var k := k0;
      row := 4;
      while row > 0
        invariant 0 <= row <= 4 && k == k0 - 4 + row
        invariant forall r :: 0 <= r < 4 ==> tmp[r] == DecColumn(s, r + 1, currRnd + 1 == rounds)
        invariant forall r :: row <= r < 4 ==> data[r] == Xor(tmp[r], ks[k0 - 4 + r])
      {
        k := k - 1;
        data[row - 1] := Xor(tmp[row - 1], ks[k]);
        row := row - 1;
      }
      DecColumnsAre(s, currRnd + 1 == rounds);
      ghost var cols, key := DecColumns(s, currRnd + 1 == rounds), RoundKey(ks[..], rounds - currRnd - 1);
      RoundKeyAt(ks[..], rounds - currRnd - 1);
      assert data[0] == Xor(cols[0], key[0]) && data[1] == Xor(cols[1], key[1]);
      assert data[2] == Xor(cols[2], key[2]) && data[3] == Xor(cols[3], key[3]);
      assert data[..] == AddKey(cols, key);
    }
  
    /** `AES_cbc_encrypt`: the whole blocks among the first `length` bytes; the iv of the context
        becomes the last ciphertext block. */
    method CbcEncrypt(msg: seq<bv8>, length: int) returns (out: Blocks)
      requires Keyed() && length <= |msg|
      modifies this`iv
      ensures Keyed()
      ensures out == CbcEnc(ks[..], rounds, Load(old(iv)), msg[..WholeBlocks(length)])
      ensures Load(iv) == Chain(Load(old(iv)), out)
    {
      hide EncryptBlock, Load, Store, AddKey, CbcEnc, Chain;
      ghost var iv0 := Load(iv);
      var tout := Load(iv);
      var off, rest := 0, length - 16;
      out := [];
      ghost var key := ks[..];
      CbcNothing(key, rounds, iv0);
      var tin := new Word[4](i => Word(0));
      while rest >= 0
        invariant Keyed() && off >= 0 && off % 16 == 0 && rest == length - off - 16 && (off > 0 ==> rest >= -16)
        invariant ks[..] == key && out == CbcEnc(key, rounds, iv0, msg[..off]) && tout == Chain(iv0, out)
      {
        var block: Bytes16 := msg[off..off + 16];
        var x := AddKey(Load(block), tout);
        forall i | 0 <= i < 4 { tin[i] := x[i]; }
        assert tin[..] == x;
        Encrypt(tin);
        CbcEncSplit(key, rounds, iv0, msg[..off], block);
        OneEncBlock(key, rounds, tout, block);
        assert msg[..off] + block == msg[..off + 16];
        tout := tin[..];
        LoadStore(tout);
        ChainAppend(iv0, out, Store(tout));
        out := out + Store(tout);
        off, rest := off + 16, rest - 16;
      }
      iv := Store(tout);
      LoadStore(tout);
    }

    /** `AES_cbc_decrypt`. */
    method CbcDecrypt(msg: seq<bv8>, length: int) returns (out: Blocks)
      requires Keyed() && length <= |msg|
      modifies this`iv
      ensures Keyed()
      ensures out == CbcDec(ks[..], rounds, Load(old(iv)), msg[..WholeBlocks(length)])
      ensures Load(iv) == Chain(Load(old(iv)), msg[..WholeBlocks(length)])
    {
      hide DecryptBlock, Load, Store, AddKey, CbcDec, Chain;
      ghost var iv0 := Load(iv);
      var prior := Load(iv);
      var off, rest := 0, length - 16;
      out := [];
      ghost var key := ks[..];
      CbcNothing(key, rounds, iv0);
      var data := new Word[4](i => Word(0));
      while rest >= 0
        invariant Keyed() && off >= 0 && off % 16 == 0 && rest == length - off - 16 && (off > 0 ==> rest >= -16)
        invariant ks[..] == key && out == CbcDec(key, rounds, iv0, msg[..off]) && prior == Chain(iv0, msg[..off])
      {
        var block: Bytes16 := msg[off..off + 16];
        var tin := Load(block);
        forall i | 0 <= i < 4 { data[i] := tin[i]; }
        assert data[..] == tin;
        Decrypt(data);
        CbcDecSplit(key, rounds, iv0, msg[..off], block);
        OneDecBlock(key, rounds, prior, block);
        ChainAppend(iv0, msg[..off], block);
        assert msg[..off] + block == msg[..off + 16];
        out := out + Store(AddKey(data[..], prior));
        prior := tin;
        off, rest := off + 16, rest - 16;
      }
      iv := Store(prior);
      LoadStore(prior);
    }
  }

  /** Bytes past the last whole block are left alone. */
  function WholeBlocks(length: int): (n: nat)
    ensures n % 16 == 0 && (length >= 0 ==> n <= length < n + 16) && (length < 0 ==> n == 0)
  {
    if length < 0 then 0 else length - length % 16
  }

  lemma CbcNothing(ks: seq<Word>, rounds: nat, iv: State)
    requires Schedule(ks, rounds)
    ensures CbcEnc(ks, rounds, iv, []) == [] && CbcDec(ks, rounds, iv, []) == [] && Chain(iv, []) == iv
  {
  }

  lemma ChainAppend(iv: State, c: Blocks, b: Bytes16)
    ensures Chain(iv, c + b) == Load(b)
  {
    hide Load;
    assert (c + b)[|c|..] == b;
  }

  lemma OneEncBlock(ks: seq<Word>, rounds: nat, iv: State, b: Bytes16)
    requires Schedule(ks, rounds)
    ensures CbcEnc(ks, rounds, iv, b) == Store(EncryptBlock(ks, rounds, AddKey(Load(b), iv)))
  {
    hide EncryptBlock, Load, Store, AddKey;
    assert b[..16] == b && b[16..] == [];
  }

  lemma OneDecBlock(ks: seq<Word>, rounds: nat, iv: State, b: Bytes16)
    requires Schedule(ks, rounds)
    ensures CbcDec(ks, rounds, iv, b) == Store(AddKey(DecryptBlock(ks, rounds, Load(b)), iv))
  {
    hide DecryptBlock, Load, Store, AddKey;
    assert b[..16] == b && b[16..] == [];
  }

  /** One context encrypts, another with the same key and iv, converted for decryption, decrypts: the
      whole blocks of the message come back. */
  method EncryptThenDecrypt(key: seq<bv8>, iv: Bytes16, mode: Mode, msg: seq<bv8>) returns (back: Blocks)
    requires mode != OtherMode && |key| == 4 * ModeWords(mode)
    ensures back == msg[..WholeBlocks(|msg|)]
  {
    hide CbcEnc, CbcDec, Converted, Load, Chain, Expanded;
    var e := new AesCtx();
    e.SetKey(key, iv, mode);
    var d := new AesCtx();
    d.SetKey(key, iv, mode);
    ghost var ks := d.ks[..];
    d.ConvertKey();
    var cipher := e.CbcEncrypt(msg, |msg|);
    back := d.CbcDecrypt(cipher, |cipher|);
    assert cipher[..WholeBlocks(|cipher|)] == cipher;
    SameSchedule(e.ks[..], ks, d.rounds, Load(iv), msg[..WholeBlocks(|msg|)]);
    CbcRoundTrip(ks, d.rounds, Load(iv), msg[..WholeBlocks(|msg|)]);
  }

  /** Only the words that the rounds use matter. */
  lemma {:induction false} SameSchedule(ks: seq<Word>, ks': seq<Word>, rounds: nat, iv: State, m: Blocks)
    requires Schedule(ks, rounds) && Schedule(ks', rounds) && ks[..4 * (rounds + 1)] == ks'[..4 * (rounds + 1)]
    ensures CbcEnc(ks, rounds, iv, m) == CbcEnc(ks', rounds, iv, m)
    decreases |m|
  {
    hide EncryptBlock, Load, Store, AddKey;
    if m != [] {
      var x := AddKey(Load(m[..16]), iv);
      SameBlock(ks, ks', rounds, x);
      SameSchedule(ks, ks', rounds, EncryptBlock(ks, rounds, x), m[16..]);
    }
  }

  lemma SameBlock(ks: seq<Word>, ks': seq<Word>, rounds: nat, x: State)
    requires Schedule(ks, rounds) && Schedule(ks', rounds) && ks[..4 * (rounds + 1)] == ks'[..4 * (rounds + 1)]
    ensures EncryptBlock(ks, rounds, x) == EncryptBlock(ks', rounds, x)
  {
    hide EncState;
    SameRounds(ks, ks', rounds, x, rounds);
  }

  lemma {:induction false} SameRounds(ks: seq<Word>, ks': seq<Word>, rounds: nat, x: State, r: nat)
    requires Schedule(ks, rounds) && Schedule(ks', rounds) && ks[..4 * (rounds + 1)] == ks'[..4 * (rounds + 1)]
    requires r <= rounds
    ensures EncState(ks, rounds, x, r) == EncState(ks', rounds, x, r)
  {
    hide AddKey, EncColumns;
    assert RoundKey(ks, r) == ks[..4 * (rounds + 1)][4 * r..4 * r + 4];
    assert RoundKey(ks', r) == ks'[..4 * (rounds + 1)][4 * r..4 * r + 4];
    if r > 0 { SameRounds(ks, ks', rounds, x, r - 1); }
  }
}
