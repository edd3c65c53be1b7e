/** What FIPS 197 says of the pieces of the cipher, on bytes: the field, the substitution table, the four
    transformations of a round, and the whole cipher. */
module AesStandard {
  import opened AesTables
  import opened AesColumn
  import opened AesInverse
  import opened Aes
  import opened AesCbc
  import opened AesContext

  // ---- the field (section 4.2) ----

  /** Multiplication in GF(2^8): the sum of the doublings of x that the bits of y select. */
  function Times(x: bv8, y: bv8): (z: bv8)
  {
    var x1 := Doubled(x);
    var x2 := Doubled(x1);
    var x3 := Doubled(x2);
    var x4 := Doubled(x3);
    var x5 := Doubled(x4);
    var x6 := Doubled(x5);
    var x7 := Doubled(x6);
    Pick(x, y, 0) ^ Pick(x1, y, 1) ^ Pick(x2, y, 2) ^ Pick(x3, y, 3)
    ^ Pick(x4, y, 4) ^ Pick(x5, y, 5) ^ Pick(x6, y, 6) ^ Pick(x7, y, 7)
  }

  function Pick(x: bv8, y: bv8, i: bv8): (z: bv8)
    requires i < 8
  {
    if (y >> i) & 1 == 1 then x else 0
  }

  /** The doubling of the source is multiplication by x modulo x^8 + x^4 + x^3 + x + 1. */
  lemma XtimeIs(x: bv8)
    ensures x < 128 ==> Xtime(x) == x + x
    ensures x >= 128 ==> Xtime(x) == ((x - 128) + (x - 128)) ^ 0x1b
  {
  }

  /** The affine transformation of section 5.1.1. */
  function Affine(b: bv8): (y: bv8)
  {
    b ^ b.RotateLeft(1) ^ b.RotateLeft(2) ^ b.RotateLeft(3) ^ b.RotateLeft(4) ^ 0x63
  }

  function Unaffine(y: bv8): (b: bv8) { y.RotateLeft(1) ^ y.RotateLeft(3) ^ y.RotateLeft(6) ^ 0x05 }

  /** b is the inverse of x in the field, or zero for zero. */
  predicate Inverse(x: bv8, b: bv8) { if x == 0 then b == 0 else Times(x, b) == 1 }

  lemma UnaffineUndoes(y: bv8)
    ensures Affine(Unaffine(y)) == y
  {
  }

  /** The table of the source is the S-box of section 5.1.1: the inverse in the field, then the affine
      transformation. */
  lemma SBoxIs(x: bv8) returns (b: bv8)
    ensures if x == 0 then b == 0 else Times(x, b) == 1
    ensures SBox(x) == b ^ b.RotateLeft(1) ^ b.RotateLeft(2) ^ b.RotateLeft(3) ^ b.RotateLeft(4) ^ 0x63
  {
    b := Unaffine(SBox(x));
    UnaffineUndoes(SBox(x));
    SubstitutesInverse(x);
  }

  lemma SubstitutesInverse(x: bv8)
    ensures Inverse(x, Unaffine(SBox(x)))
  {
    hide SBox, Inverse, Unaffine;
    match x >> 4 {
      case 0 => Substitutes0(x);
      case 1 => Substitutes1(x);
      case 2 => Substitutes2(x);
      case 3 => Substitutes3(x);
      case 4 => Substitutes4(x);
      case 5 => Substitutes5(x);
      case 6 => Substitutes6(x);
      case 7 => Substitutes7(x);
      case 8 => Substitutes8(x);
      case 9 => Substitutes9(x);
      case 10 => SubstitutesA(x);
      case 11 => SubstitutesB(x);
      case 12 => SubstitutesC(x);
      case 13 => SubstitutesD(x);
      case 14 => SubstitutesE(x);
      case _ => SubstitutesF(x);
    }
  }

  lemma Substitutes0(x: bv8)
    requires x >> 4 == 0
    ensures Inverse(x, Unaffine(SBox(x)))
  {
  }

  lemma Substitutes1(x: bv8)
    requires x >> 4 == 1
    ensures Inverse(x, Unaffine(SBox(x)))
  {
  }

  lemma Substitutes2(x: bv8)
    requires x >> 4 == 2
    ensures Inverse(x, Unaffine(SBox(x)))
  {
  }

  lemma Substitutes3(x: bv8)
    requires x >> 4 == 3
    ensures Inverse(x, Unaffine(SBox(x)))
  {
  }

  lemma Substitutes4(x: bv8)
    requires x >> 4 == 4
    ensures Inverse(x, Unaffine(SBox(x)))
  {
  }

  lemma Substitutes5(x: bv8)
    requires x >> 4 == 5
    ensures Inverse(x, Unaffine(SBox(x)))
  {
  }

  lemma Substitutes6(x: bv8)
    requires x >> 4 == 6
    ensures Inverse(x, Unaffine(SBox(x)))
  {
  }

  lemma Substitutes7(x: bv8)
    requires x >> 4 == 7
    ensures Inverse(x, Unaffine(SBox(x)))
  {
  }

  lemma Substitutes8(x: bv8)
    requires x >> 4 == 8
    ensures Inverse(x, Unaffine(SBox(x)))
  {
  }

  lemma Substitutes9(x: bv8)
    requires x >> 4 == 9
    ensures Inverse(x, Unaffine(SBox(x)))
  {
  }

  lemma SubstitutesA(x: bv8)
    requires x >> 4 == 10
    ensures Inverse(x, Unaffine(SBox(x)))
  {
  }

  lemma SubstitutesB(x: bv8)
    requires x >> 4 == 11
    ensures Inverse(x, Unaffine(SBox(x)))
  {
  }

  lemma SubstitutesC(x: bv8)
    requires x >> 4 == 12
    ensures Inverse(x, Unaffine(SBox(x)))
  {
  }

  lemma SubstitutesD(x: bv8)
    requires x >> 4 == 13
    ensures Inverse(x, Unaffine(SBox(x)))
  {
  }

  lemma SubstitutesE(x: bv8)
    requires x >> 4 == 14
    ensures Inverse(x, Unaffine(SBox(x)))
  {
  }

  lemma SubstitutesF(x: bv8)
    requires x >> 4 == 15
    ensures Inverse(x, Unaffine(SBox(x)))
  {
  }

  // ---- the transformations of a round (sections 5.1.1 to 5.1.4), byte 4 c + r in column c and row r ----

  function SubBytes(b: Bytes16): (r: Bytes16)
  {
    hide *;
    seq(16, i requires 0 <= i < 16 => SBox(b[i]))
  }

  /** Row r moves r columns to the left. */
  function ShiftRows(b: Bytes16): (r: Bytes16)
  {
    seq(16, i requires 0 <= i < 16 => b[4 * ((i / 4 + i % 4) % 4) + i % 4])
  }

  function Product(n: bv8, a: Element): (b: Element) { Element(Times(n, a.bits)) }

  /** 2 a0 + 3 a1 + a2 + a3. */
  function MixByte(a0: Element, a1: Element, a2: Element, a3: Element): (b: Element)
  {
    Sum4(Product(2, a0), Product(3, a1), a2, a3)
  }

  function MixAt(b: Bytes16, c: nat, r: nat): (e: Element)
    requires c < 4 && r < 4
  {
    hide *;
    MixByte(Element(b[4 * c + r]), Element(b[4 * c + (r + 1) % 4]), Element(b[4 * c + (r + 2) % 4]),
            Element(b[4 * c + (r + 3) % 4]))
  }

  function MixColumns(b: Bytes16): (r: Bytes16)
  {
    hide *;
    seq(16, i requires 0 <= i < 16 => MixAt(b, i / 4, i % 4).bits)
  }

  function AddRoundKey(b: Bytes16, k: Bytes16): (r: Bytes16)
  {
    hide *;
    seq(16, i requires 0 <= i < 16 => Add(Element(b[i]), Element(k[i])).bits)
  }

  /** The cipher of section 5.1 after r rounds. */
  function Cipher(keys: seq<Bytes16>, b: Bytes16, r: nat): (s: Bytes16)
    requires r < |keys|
  {
    hide *;
    if r == 0 then AddRoundKey(b, keys[0])
    else
      var shifted := ShiftRows(SubBytes(Cipher(keys, b, r - 1)));
      AddRoundKey(if r == |keys| - 1 then shifted else MixColumns(shifted), keys[r])
  }

  // ---- the source computes it ----

  /** The round keys of a schedule, as bytes. */
  function KeyBytes(ks: seq<Word>, rounds: nat): (keys: seq<Bytes16>)
    requires Schedule(ks, rounds)
  {
    hide Store;
    seq(rounds + 1, r requires 0 <= r <= rounds => Store(RoundKey(ks, r)))
  }

  /** Byte r of a word, from the top. */
  function ByteAt(w: Word, r: nat): (b: bv8)
    requires r < 4
  {
    hide *;
    if r == 0 then B0(w) else if r == 1 then B1(w) else if r == 2 then B2(w) else B3(w)
  }

  lemma StoredByte(s: State, i: nat)
    requires i < 16
    ensures Store(s)[i] == ByteAt(s[i / 4], i % 4)
  {
    hide B0, B1, B2, B3, Store;
    StoreAt(s, i / 4);
    assert i == 4 * (i / 4) + i % 4;
  }

  /** Where each byte of a shifted column comes from. */
  lemma ShiftedByte(s: State, c: nat, r: nat)
    requires c < 4 && r < 4
    ensures ByteAt(SubShift(s, c), r) == SBox(ByteAt(s[(c + r) % 4], r))
  {
    hide SBox, B0, B1, B2, B3;
  }

  lemma ShiftedAt(b: Bytes16, c: nat, r: nat)
    requires c < 4 && r < 4
    ensures ShiftRows(SubBytes(b))[4 * c + r] == SBox(b[4 * ((c + r) % 4) + r])
  {
    hide SBox;
    assert (4 * c + r) / 4 == c && (4 * c + r) % 4 == r;
    assert SubBytes(b)[4 * ((c + r) % 4) + r] == SBox(b[4 * ((c + r) % 4) + r]);
  }

  lemma SubShiftBytes(s: State, c: nat, r: nat)
    requires c < 4 && r < 4
    ensures ByteAt(SubShift(s, c), r) == ShiftRows(SubBytes(Store(s)))[4 * c + r]
  {
    hide SBox, Store, SubBytes, ShiftRows, SubShift, ByteAt;
    ShiftedByte(s, c, r);
    ShiftedAt(Store(s), c, r);
    StoredByte(s, 4 * ((c + r) % 4) + r);
  }

  lemma TimesSmall(a: bv8)
    ensures Times(2, a) == Xtime(a) && Times(3, a) == Xtime(a) ^ a
  {
  }

  lemma ProductSmall(a: Element)
    ensures Product(2, a) == Double(a) && Product(3, a) == Add(Double(a), a)
  {
    hide Times, Xtime;
    TimesSmall(a.bits);
  }

  /** The entry of a mixed column that the source forms with one doubling. */
  lemma MixEntry(a: Element, b: Element, c: Element, d: Element)
    ensures MixByte(a, b, c, d) == Add(a, Add(Sum4(a, b, c, d), Double(Add(a, b))))
  {
    hide Product, Double, Add;
    ProductSmall(a);
    ProductSmall(b);
    DoubleAdd(a, b);
    MixTerms(a, b, c, d, Double(a), Double(b));
  }

  lemma MixTerms(a: Element, b: Element, c: Element, d: Element, x: Element, y: Element)
    ensures Sum4(x, Add(y, b), c, d) == Add(a, Add(Sum4(a, b, c, d), Add(x, y)))
  {
    hide Add;
    var t, z := Sum3(b, c, d), Add(x, y);
    SumFromFirst(a, b, c, d);
    Associate(a, Add(a, t), z);
    AddTwice(a, t);
    Associate(x, y, b);
    SumFromFirst(z, b, c, d);
    Commute(z, t);
  }

  lemma SumFromFirst(a: Element, b: Element, c: Element, d: Element)
    ensures Sum4(a, b, c, d) == Add(a, Sum3(b, c, d))
  {
    hide Add;
    Associate(a, b, c);
    Associate(a, Add(b, c), d);
  }

  lemma AddTwice(a: Element, t: Element)
    ensures Add(a, Add(a, t)) == t
  {
  }

  /** Element r of a column. */
  function Entry(c: Column, r: nat): (a: Element)
    requires r < 4
  {
    if r == 0 then c.a0 else if r == 1 then c.a1 else if r == 2 then c.a2 else c.a3
  }

  lemma MixedEntry(c: Column, r: nat)
    requires r < 4
    ensures Entry(MixColumn(c), r)
         == MixByte(Entry(c, r), Entry(c, (r + 1) % 4), Entry(c, (r + 2) % 4), Entry(c, (r + 3) % 4))
  {
    hide Add, Double, MixByte;
    MixEntry(c.a0, c.a1, c.a2, c.a3);
    MixEntry(c.a1, c.a2, c.a3, c.a0);
    MixEntry(c.a2, c.a3, c.a0, c.a1);
    MixEntry(c.a3, c.a0, c.a1, c.a2);
    RotatedSums(c.a0, c.a1, c.a2, c.a3);
  }

  lemma RotatedSums(a: Element, b: Element, c: Element, d: Element)
    ensures Sum4(b, c, d, a) == Sum4(a, b, c, d) == Sum4(c, d, a, b) == Sum4(d, a, b, c)
  {
    hide Add;
    RotateSum4(a, b, c, d);
    RotateSum4(b, c, d, a);
    RotateSum4(c, d, a, b);
  }

  lemma EntryIs(w: Word, r: nat)
    requires r < 4
    ensures Entry(Bytes(w), r) == Element(ByteAt(w, r))
  {
    hide B0, B1, B2, B3;
  }

  lemma MixedByte(w: Word, r: nat)
    requires r < 4
    ensures Element(ByteAt(Mix(w), r))
         == MixByte(Element(ByteAt(w, r)), Element(ByteAt(w, (r + 1) % 4)), Element(ByteAt(w, (r + 2) % 4)),
                    Element(ByteAt(w, (r + 3) % 4)))
  {
    hide ByteAt, MixByte, MixColumn, Bytes, FromColumn, Entry;
    EntryIs(w, r);
    EntryIs(w, (r + 1) % 4);
    EntryIs(w, (r + 2) % 4);
    EntryIs(w, (r + 3) % 4);
    MixedEntry(Bytes(w), r);
    EntryIs(Mix(w), r);
  }

  lemma MixedAt(x: Bytes16, c: nat, r: nat)
    requires c < 4 && r < 4
    ensures MixColumns(x)[4 * c + r] == MixAt(x, c, r).bits
  {
    hide MixAt;
    assert (4 * c + r) / 4 == c && (4 * c + r) % 4 == r;
  }

  lemma MixedColumn(x: Bytes16, w: Word, c: nat, r: nat)
    requires c < 4 && r < 4 && forall i :: 0 <= i < 4 ==> ByteAt(w, i) == x[4 * c + i]
    ensures Element(ByteAt(Mix(w), r)) == MixAt(x, c, r)
  {
    hide ByteAt, MixByte, Mix;
    MixedByte(w, r);
  }

  /** A column of a round before the key is added. */
  lemma ColumnByte(s: State, c: nat, r: nat, last: bool)
    requires c < 4 && r < 4
    ensures var x := ShiftRows(SubBytes(Store(s)));
            ByteAt(EncColumn(s, c, last), r) == (if last then x else MixColumns(x))[4 * c + r]
  {
    hide Store, SubBytes, ShiftRows, SubShift, ByteAt, Mix, MixAt, MixColumns;
    var x, w := ShiftRows(SubBytes(Store(s))), SubShift(s, c);
    forall i | 0 <= i < 4
      ensures ByteAt(w, i) == x[4 * c + i]
    {
      SubShiftBytes(s, c, i);
    }
    if !last {
      MixedColumn(x, w, c, r);
      MixedAt(x, c, r);
    }
  }

  lemma RoundBytes(s: State, last: bool)
    ensures var x := ShiftRows(SubBytes(Store(s)));
            Store(EncColumns(s, last)) == if last then x else MixColumns(x)
  {
    hide Store, SubBytes, ShiftRows, ByteAt, MixColumns, EncColumn;
    var x := ShiftRows(SubBytes(Store(s)));
    var y := if last then x else MixColumns(x);
    forall i | 0 <= i < 16
      ensures Store(EncColumns(s, last))[i] == y[i]
    {
      StoredByte(EncColumns(s, last), i);
      ColumnByte(s, i / 4, i % 4, last);
      assert i == 4 * (i / 4) + i % 4;
      assert EncColumns(s, last)[i / 4] == EncColumn(s, i / 4, last);
    }
  }

  lemma XorByte(v: Word, w: Word, r: nat)
    requires r < 4
    ensures Element(ByteAt(Xor(v, w), r)) == Add(Element(ByteAt(v, r)), Element(ByteAt(w, r)))
  {
    hide Xor, Add, B0, B1, B2, B3;
    XorB0(v, w);
    XorB1(v, w);
    XorB2(v, w);
    XorB3(v, w);
  }

  lemma KeyAdded(s: State, k: State)
    ensures Store(AddKey(s, k)) == AddRoundKey(Store(s), Store(k))
  {
    hide Store, ByteAt, Xor, Add;
    forall i | 0 <= i < 16
      ensures Store(AddKey(s, k))[i] == AddRoundKey(Store(s), Store(k))[i]
    {
      StoredByte(AddKey(s, k), i);
      StoredByte(s, i);
      StoredByte(k, i);
      XorByte(s[i / 4], k[i / 4], i % 4);
    }
  }

  lemma {:induction false} StateBytes(ks: seq<Word>, rounds: nat, b: Bytes16, r: nat)
    requires Schedule(ks, rounds) && r <= rounds
    ensures Store(EncState(ks, rounds, Load(b), r)) == Cipher(KeyBytes(ks, rounds), b, r)
  {
    hide Store, Load, AddKey, AddRoundKey, EncColumns, ShiftRows, SubBytes, MixColumns;
    var keys := KeyBytes(ks, rounds);
    assert keys[r] == Store(RoundKey(ks, r));
    if r == 0 {
      KeyAdded(Load(b), RoundKey(ks, 0));
      StoreLoad(b);
    } else {
      StateBytes(ks, rounds, b, r - 1);
      var s := EncState(ks, rounds, Load(b), r - 1);
      RoundBytes(s, r == rounds);
      KeyAdded(EncColumns(s, r == rounds), RoundKey(ks, r));
    }
  }

  /** The block function of the source is the cipher of the standard, for every schedule and block. */
  lemma EncryptIsCipher(ks: seq<Word>, rounds: nat, b: Bytes16)
    requires Schedule(ks, rounds)
    ensures Store(EncryptBlock(ks, rounds, Load(b))) == Cipher(KeyBytes(ks, rounds), b, rounds)
  {
    hide Store, Load, EncState, Cipher;
    StateBytes(ks, rounds, b, rounds);
  }

  // ---- key expansion (section 5.2) ----

  /** The power j of x in the field. */
  function PowerOfX(j: nat): (b: bv8) { if j == 0 then 1 else Doubled(PowerOfX(j - 1)) }

  lemma {:induction false} RconIs(j: nat)
    requires j <= 9
    ensures Rcon(j) == PowerOfX(j)
  {
    hide Xtime, Doubled;
    if j > 0 {
      RconIs(j - 1);
      assert Rcon(j - 1 + 1) == Xtime(Rcon(j - 1));
    }
  }

  /** Key sizes, and where the bytes of a core word come from: rotated, substituted, and the round constant in
      the first. */
  lemma CoreBytes(w: Word, j: nat, r: nat)
    requires r < 4
    ensures Element(ByteAt(RotSubRcon(w, j), r))
         == Add(Element(SBox(ByteAt(w, (r + 1) % 4))), Element(if r == 0 then Rcon(j) else 0))
    ensures ByteAt(SubWord(w), r) == SBox(ByteAt(w, r))
    ensures ModeRounds(Mode128) == 10 && ModeWords(Mode128) == 4 && ModeRounds(Mode256) == 14 && ModeWords(Mode256) == 8
  {
    hide SBox, B0, B1, B2, B3, Add, Xor, Rcon;
    XorByte(Pack(SBox(B1(w)), SBox(B2(w)), SBox(B3(w)), SBox(B0(w))), Pack(Rcon(j), 0, 0, 0), r);
  }

  /** The expanded key, byte by byte: the first words are the key, and every other byte is the sum of the byte
      one key length back and of what the word before it gives. */
  lemma ExpansionBytes(key: seq<bv8>, words: nat, i: nat, r: nat)
    requires (words == 4 || words == 8) && |key| == 4 * words && r < 4 && i / words <= 10
    ensures i < words ==> ByteAt(Expanded(key, words, i), r) == key[4 * i + r]
    ensures i >= words ==>
      var w := Expanded(key, words, i - 1);
      var t := if i % words == 0 then Add(Element(SBox(ByteAt(w, (r + 1) % 4))),
                                          Element(if r == 0 then PowerOfX(i / words - 1) else 0))
               else if words == 8 && i % 8 == 4 then Element(SBox(ByteAt(w, r)))
               else Element(ByteAt(w, r));
      Element(ByteAt(Expanded(key, words, i), r)) == Add(Element(ByteAt(Expanded(key, words, i - words), r)), t)
  {
    hide SBox, B0, B1, B2, B3, Add, Xor, Expanded, RotSubRcon, SubWord, PowerOfX;
    if i < words {
      ExpandedStart(key, words, i);
    } else {
      ExpandedStep(key, words, i);
      var w := Expanded(key, words, i - 1);
      var t := if i % words == 0 then RotSubRcon(w, i / words - 1)
               else if words == 8 && i % words == 4 then SubWord(w)
               else w;
      XorByte(Expanded(key, words, i - words), t, r);
      CoreBytes(w, i / words - 1, r);
      if i % words == 0 { RconIs(i / words - 1); }
    }
  }

  // ---- chaining (section 6.2 of NIST SP 800-38A) ----

  /** Block k of a string of blocks. */
  function BlockAt(m: Blocks, k: nat): (b: Bytes16)
    requires 16 * (k + 1) <= |m|
  {
    m[16 * k..16 * k + 16]
  }

  /** Ciphertext block k is the cipher of plaintext block k plus the ciphertext block before it, or the iv. */
  lemma {:induction false} ChainedBlock(ks: seq<Word>, rounds: nat, iv: State, m: Blocks, k: nat)
    requires Schedule(ks, rounds) && 16 * (k + 1) <= |m|
    ensures var c := CbcEnc(ks, rounds, iv, m);
            var before := if k == 0 then Store(iv) else BlockAt(c, k - 1);
            BlockAt(c, k) == Cipher(KeyBytes(ks, rounds), AddRoundKey(BlockAt(m, k), before), rounds)
    decreases k
  {
    hide Store, Load, AddKey, AddRoundKey, EncryptBlock, Cipher, KeyBytes;
    var out := EncryptBlock(ks, rounds, AddKey(Load(m[..16]), iv));
    var c, rest := CbcEnc(ks, rounds, iv, m), CbcEnc(ks, rounds, out, m[16..]);
    assert c == Store(out) + rest;
    if k == 0 {
      assert BlockAt(c, 0) == Store(out) && BlockAt(m, 0) == m[..16];
      var x := AddKey(Load(m[..16]), iv);
      KeyAdded(Load(m[..16]), iv);
      StoreLoad(m[..16]);
      LoadStore(x);
      EncryptIsCipher(ks, rounds, Store(x));
    } else {
      ChainedBlock(ks, rounds, out, m[16..], k - 1);
      assert BlockAt(c, k) == BlockAt(rest, k - 1) && BlockAt(m, k) == BlockAt(m[16..], k - 1);
      assert k == 1 ==> BlockAt(c, 0) == Store(out);
      assert k > 1 ==> BlockAt(c, k - 1) == BlockAt(rest, k - 2);
    }
  }
}
