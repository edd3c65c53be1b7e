/** The AES block cipher of nut/crypto/aes.c: encryption, and decryption by the equivalent inverse
    cipher with a converted key schedule (section 5.3.5 of FIPS 197). */
module Aes {
  import opened AesTables
  import opened AesColumn
  import opened AesInverse

  /** Four words, one per column. */
  type State = s: seq<Word> | |s| == 4 witness [Word(0), Word(0), Word(0), Word(0)]

  /** SubBytes and ShiftRows together: column `row` of the result. */
  function SubShift(s: State, row: nat): (w: Word)
    requires row < 4
  {
    Pack(SBox(B0(s[row % 4])), SBox(B1(s[(row + 1) % 4])), SBox(B2(s[(row + 2) % 4])), SBox(B3(s[(row + 3) % 4])))
  }

  /** The inverse of both; the source counts row from 4 down to 1. */
  function InvSubShift(s: State, row: nat): (w: Word)
    requires 1 <= row <= 4
  {
    Pack(InvSBox(B0(s[(row + 3) % 4])), InvSBox(B1(s[(row + 2) % 4])), InvSBox(B2(s[(row + 1) % 4])),
         InvSBox(B3(s[row % 4])))
  }

  function Substituted(s: State): (t: State)
  {
    hide *;
    [SubShift(s, 0), SubShift(s, 1), SubShift(s, 2), SubShift(s, 3)]
  }

  /** The inverse substitution gives back every column. */
  lemma InvSubShiftUndoes(s: State, row: nat)
    requires row < 4
    ensures InvSubShift(Substituted(s), row + 1) == s[row]
  {
    hide SBox, InvSBox, B0, B1, B2, B3;
    var w := s[row];
    InvSBoxInverts(B0(w));
    InvSBoxInverts(B1(w));
    InvSBoxInverts(B2(w));
    InvSBoxInverts(B3(w));
    SameBytes(InvSubShift(Substituted(s), row + 1), w);
  }

  function Mix(w: Word): (v: Word) { FromColumn(MixColumn(Bytes(w))) }

  function InvMix(w: Word): (v: Word) { FromColumn(InvMixColumn(Bytes(w))) }

  lemma InvMixMix(w: Word)
    ensures InvMix(Mix(w)) == w
  {
    hide MixColumn, InvMixColumn, Bytes;
    InvMixUndoesMix(Bytes(w));
    BytesInjective(InvMix(Mix(w)), w);
  }

  /** The packed macro on key words is the same function. */
  lemma InvMixColIsInvMix(w: Word)
    ensures InvMixCol(w) == InvMix(w)
  {
    hide InvMixCol, InvMixColumn, PackedColumn, Bytes;
    PackedBytes(w);
    PackedIsInverse(Bytes(w));
    BytesInjective(InvMixCol(w), InvMix(w));
  }

  lemma InvMixXor(v: Word, w: Word)
    ensures InvMix(Xor(v, w)) == Xor(InvMix(v), InvMix(w))
  {
    hide InvMixColumn, Bytes, Xor, AddColumns;
    BytesXor(v, w);
    InvMixLinear(Bytes(v), Bytes(w));
    BytesXor(InvMix(v), InvMix(w));
    BytesInjective(InvMix(Xor(v, w)), Xor(InvMix(v), InvMix(w)));
  }

  lemma XorCancels(v: Word, w: Word)
    ensures Xor(Xor(v, w), w) == v
  {
  }

  // ---- the rounds ----

  /** A key schedule for the given number of rounds. */
  ghost predicate Schedule(ks: seq<Word>, rounds: nat) { rounds >= 1 && |ks| >= 4 * (rounds + 1) }

  function RoundKey(ks: seq<Word>, r: nat): (k: State)
    requires 4 * (r + 1) <= |ks|
  {
    ks[4 * r..4 * r + 4]
  }

  function AddKey(s: State, k: State): (t: State)
  {
    [Xor(s[0], k[0]), Xor(s[1], k[1]), Xor(s[2], k[2]), Xor(s[3], k[3])]
  }

  /** Column `row` before the key is added; MixColumn is skipped in the last round. */
  function EncColumn(s: State, row: nat, last: bool): (w: Word)
    requires row < 4
  {
    if last then SubShift(s, row) else Mix(SubShift(s, row))
  }

  function DecColumn(s: State, row: nat, last: bool): (w: Word)
    requires 1 <= row <= 4
  {
    if last then InvSubShift(s, row) else InvMix(InvSubShift(s, row))
  }

  function EncColumns(s: State, last: bool): (t: State)
  {
    hide *;
    [EncColumn(s, 0, last), EncColumn(s, 1, last), EncColumn(s, 2, last), EncColumn(s, 3, last)]
  }

  function DecColumns(s: State, last: bool): (t: State)
  {
    hide *;
    [DecColumn(s, 1, last), DecColumn(s, 2, last), DecColumn(s, 3, last), DecColumn(s, 4, last)]
  }

  /** The state of `AES_encrypt` after r rounds. */
  function EncState(ks: seq<Word>, rounds: nat, data: State, r: nat): (s: State)
    requires Schedule(ks, rounds) && r <= rounds
  {
    if r == 0 then AddKey(data, RoundKey(ks, 0))
    else AddKey(EncColumns(EncState(ks, rounds, data, r - 1), r == rounds), RoundKey(ks, r))
  }

  /** The state of `AES_decrypt` after r rounds. */
  function DecState(ks: seq<Word>, rounds: nat, data: State, r: nat): (s: State)
    requires Schedule(ks, rounds) && r <= rounds
  {
    if r == 0 then AddKey(data, RoundKey(ks, rounds))
    else AddKey(DecColumns(DecState(ks, rounds, data, r - 1), r == rounds), RoundKey(ks, rounds - r))
  }

  function EncryptBlock(ks: seq<Word>, rounds: nat, data: State): (s: State)
    requires Schedule(ks, rounds)
  {
    EncState(ks, rounds, data, rounds)
  }

  function DecryptBlock(ks: seq<Word>, rounds: nat, data: State): (s: State)
    requires Schedule(ks, rounds)
  {
    DecState(ks, rounds, data, rounds)
  }

  /** `AES_convert_key`: the round keys between the first and the last go through the inverse column. */
  function Converted(ks: seq<Word>, rounds: nat): (t: seq<Word>)
    ensures |t| == |ks|
  {
    seq(|ks|, i requires 0 <= i < |ks| => if 4 <= i < 4 * rounds then InvMixCol(ks[i]) else ks[i])
  }

  lemma ConvertedKey(ks: seq<Word>, rounds: nat, r: nat, row: nat)
    requires Schedule(ks, rounds) && 1 <= r < rounds && row < 4
    ensures RoundKey(Converted(ks, rounds), r)[row] == InvMix(RoundKey(ks, r)[row])
  {
    hide InvMix, InvMixCol;
    InvMixColIsInvMix(ks[4 * r + row]);
  }

  lemma OuterKeys(ks: seq<Word>, rounds: nat)
    requires Schedule(ks, rounds)
    ensures RoundKey(Converted(ks, rounds), 0) == RoundKey(ks, 0)
    ensures RoundKey(Converted(ks, rounds), rounds) == RoundKey(ks, rounds)
  {
    hide InvMixCol;
  }

  lemma AddKeyTwice(s: State, k: State)
    ensures AddKey(AddKey(s, k), k) == s
  {
    hide Xor;
    XorCancels(s[0], k[0]);
    XorCancels(s[1], k[1]);
    XorCancels(s[2], k[2]);
    XorCancels(s[3], k[3]);
  }

  /** One inner round of decryption, column by column: it turns the substituted state into the
      substituted state of the round before. */
  lemma InnerColumn(x: State, before: State, k: State, k': State, row: nat)
    requires row < 4 && x == AddKey(EncColumns(before, false), k) && k'[row] == InvMix(k[row])
    ensures Xor(DecColumn(Substituted(x), row + 1, false), k'[row]) == SubShift(before, row)
  {
    hide InvSubShift, SubShift, InvMix, Mix, Xor, Substituted;
    InvSubShiftUndoes(x, row);
    InvMixXor(x[row], k[row]);
    XorCancels(Mix(SubShift(before, row)), k[row]);
    InvMixMix(SubShift(before, row));
  }

  lemma InnerRound(x: State, before: State, k: State, k': State)
    requires x == AddKey(EncColumns(before, false), k)
    requires forall row :: 0 <= row < 4 ==> k'[row] == InvMix(k[row])
    ensures AddKey(DecColumns(Substituted(x), false), k') == Substituted(before)
  {
    hide InvMix, Xor, SubShift, DecColumn, EncColumns;
    InnerColumn(x, before, k, k', 0);
    InnerColumn(x, before, k, k', 1);
    InnerColumn(x, before, k, k', 2);
    InnerColumn(x, before, k, k', 3);
  }

  /** After r rounds decryption stands at the substituted state of encryption's round rounds - 1 - r. */
  lemma {:induction false} DecryptFollows(ks: seq<Word>, rounds: nat, data: State, r: nat)
    requires Schedule(ks, rounds) && r < rounds
    ensures DecState(Converted(ks, rounds), rounds, EncryptBlock(ks, rounds, data), r)
         == Substituted(EncState(ks, rounds, data, rounds - 1 - r))
  {
    hide Substituted, InvMix, Xor, Converted, RoundKey, AddKey, EncColumns, DecColumns;
    var ks' := Converted(ks, rounds);
    OuterKeys(ks, rounds);
    if r == 0 {
      var s := EncState(ks, rounds, data, rounds - 1);
      LastColumns(s);
      AddKeyTwice(EncColumns(s, true), RoundKey(ks, rounds));
    } else {
      DecryptFollows(ks, rounds, data, r - 1);
      var q := rounds - r;
      forall row | 0 <= row < 4
        ensures RoundKey(ks', q)[row] == InvMix(RoundKey(ks, q)[row])
      {
        ConvertedKey(ks, rounds, q, row);
      }
      InnerRound(EncState(ks, rounds, data, q), EncState(ks, rounds, data, q - 1), RoundKey(ks, q), RoundKey(ks', q));
    }
  }

  lemma LastColumns(s: State)
    ensures EncColumns(s, true) == Substituted(s)
  {
    hide SubShift;
  }

  lemma LastDecColumns(s: State)
    ensures DecColumns(Substituted(s), true) == s
  {
    hide InvSubShift, Substituted;
    InvSubShiftUndoes(s, 0);
    InvSubShiftUndoes(s, 1);
    InvSubShiftUndoes(s, 2);
    InvSubShiftUndoes(s, 3);
  }

  /** Decryption with the converted schedule undoes encryption, for every schedule and every block. */
  lemma DecryptUndoesEncrypt(ks: seq<Word>, rounds: nat, data: State)
    requires Schedule(ks, rounds)
    ensures DecryptBlock(Converted(ks, rounds), rounds, EncryptBlock(ks, rounds, data)) == data
  {
    hide Substituted, Xor, Converted, RoundKey, EncColumns, DecColumns;
    DecryptFollows(ks, rounds, data, rounds - 1);
    OuterKeys(ks, rounds);
    var s := EncState(ks, rounds, data, 0);
    LastDecColumns(s);
    AddKeyTwice(data, RoundKey(ks, 0));
  }
}
