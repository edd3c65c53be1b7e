/** Arithmetic in GF(2^8) and on AES columns: the per-byte forms used by the block cipher and the
    packed form used to convert the key schedule (sections 4.2 and 5.3.3 of FIPS 197). */
module AesColumn {
  /** A 32-bit word. */
  datatype Word = Word(bits: bv32)

  function Xor(v: Word, w: Word): (x: Word) { Word(v.bits ^ w.bits) }

  /** The bytes of a word, most significant first. */
  function B0(w: Word): (b: bv8) { Byte0(w.bits) }
  function B1(w: Word): (b: bv8) { Byte1(w.bits) }
  function B2(w: Word): (b: bv8) { Byte2(w.bits) }
  function B3(w: Word): (b: bv8) { Byte3(w.bits) }

  function Byte0(x: bv32): (b: bv8) { ((x >> 24) & 0xff) as bv8 }
  function Byte1(x: bv32): (b: bv8) { ((x >> 16) & 0xff) as bv8 }
  function Byte2(x: bv32): (b: bv8) { ((x >> 8) & 0xff) as bv8 }
  function Byte3(x: bv32): (b: bv8) { (x & 0xff) as bv8 }

  function Pack(a0: bv8, a1: bv8, a2: bv8, a3: bv8): (w: Word)
    ensures B0(w) == a0 && B1(w) == a1 && B2(w) == a2 && B3(w) == a3
  {
    Word(((a0 as bv32) << 24) | ((a1 as bv32) << 16) | ((a2 as bv32) << 8) | (a3 as bv32))
  }

  /** Two words with the same bytes are the same. */
  lemma SameBytes(v: Word, w: Word)
    requires B0(v) == B0(w) && B1(v) == B1(w) && B2(v) == B2(w) && B3(v) == B3(w)
    ensures v == w
  {
  }

  /** `AES_xtime`: doubling in GF(2^8). */
  function Xtime(x: bv8): (y: bv8)
  {
    if x & 0x80 != 0 then (x << 1) ^ 0x1b else x << 1
  }

  /** Doubling without a branch. */
  function Doubled(x: bv8): (y: bv8)
    ensures y == Xtime(x)
  {
    (x << 1) ^ ((0 - (x >> 7)) & 0x1b)
  }

  lemma DoubledLinear(x: bv8, y: bv8)
    ensures Doubled(x ^ y) == Doubled(x) ^ Doubled(y)
  {
    hide Xtime;
  }

  lemma XtimeLinear(x: bv8, y: bv8)
    ensures Xtime(x ^ y) == Xtime(x) ^ Xtime(y)
  {
    hide Xtime, Doubled;
    DoubledLinear(x, y);
    var a, b, c := Doubled(x ^ y), Doubled(x), Doubled(y);
  }

  /** `mul2`: four doublings at once. */
  function Mul2(x: Word): (y: Word) { Word(Mul2Bits(x.bits)) }

  function Mul2Bits(x: bv32): (y: bv32)
  {
    var t := x & 0x80808080;
    ((x + x) & 0xfefefefe) ^ ((t - (t >> 7)) & 0x1b1b1b1b)
  }

  /** The packed doubling doubles each byte. */
  lemma Mul2Bytes(x: Word)
    ensures B0(Mul2(x)) == Xtime(B0(x)) && B1(Mul2(x)) == Xtime(B1(x))
    ensures B2(Mul2(x)) == Xtime(B2(x)) && B3(Mul2(x)) == Xtime(B3(x))
  {
    hide Xtime, Doubled, Mul2Bits;
    Mul2High(x);
    Mul2Low(x);
    var a, b, c, d := Doubled(B0(x)), Doubled(B1(x)), Doubled(B2(x)), Doubled(B3(x));
  }

  /** The mask that the subtraction spreads over each byte whose top bit is set. */
  lemma SpreadMask(t: bv32)
    requires t == t & 0x80808080
    ensures (t - (t >> 7)) & 0x1b1b1b1b == (t >> 3) ^ (t >> 4) ^ (t >> 6) ^ (t >> 7)
  {
  }

  lemma Twice(x: bv32)
    ensures x + x == x << 1
  {
  }

  lemma TopBits(x: bv32)
    ensures x & 0x80808080 == (x & 0x80808080) & 0x80808080
  {
  }

  lemma Mul2Shifts(x: bv32)
    ensures var t := x & 0x80808080;
            Mul2Bits(x) == ((x << 1) & 0xfefefefe) ^ ((t >> 3) ^ (t >> 4) ^ (t >> 6) ^ (t >> 7))
  {
    Twice(x);
    TopBits(x);
    SpreadMask(x & 0x80808080);
  }

  lemma Mul2High(x: Word)
    ensures B0(Mul2(x)) == Doubled(B0(x)) && B1(Mul2(x)) == Doubled(B1(x))
  {
    hide Xtime, Mul2Bits;
    Mul2Shifts(x.bits);
  }

  lemma Mul2Low(x: Word)
    ensures B2(Mul2(x)) == Doubled(B2(x)) && B3(Mul2(x)) == Doubled(B3(x))
  {
    hide Xtime, Mul2Bits;
    Mul2Shifts(x.bits);
  }

  function Rot1(x: Word): (y: Word) { Word(Rotated1(x.bits)) }
  function Rot2(x: Word): (y: Word) { Word(Rotated2(x.bits)) }
  function Rot3(x: Word): (y: Word) { Word(Rotated3(x.bits)) }

  function Rotated1(x: bv32): (y: bv32) { (x << 24) | (x >> 8) }
  function Rotated2(x: bv32): (y: bv32) { (x << 16) | (x >> 16) }
  function Rotated3(x: bv32): (y: bv32) { (x << 8) | (x >> 24) }

  lemma RotatedBytes(x: bv32)
    ensures Byte0(Rotated1(x)) == Byte3(x) && Byte1(Rotated1(x)) == Byte0(x)
    ensures Byte2(Rotated1(x)) == Byte1(x) && Byte3(Rotated1(x)) == Byte2(x)
    ensures Byte0(Rotated2(x)) == Byte2(x) && Byte1(Rotated2(x)) == Byte3(x)
    ensures Byte2(Rotated2(x)) == Byte0(x) && Byte3(Rotated2(x)) == Byte1(x)
    ensures Byte0(Rotated3(x)) == Byte1(x) && Byte1(Rotated3(x)) == Byte2(x)
    ensures Byte2(Rotated3(x)) == Byte3(x) && Byte3(Rotated3(x)) == Byte0(x)
  {
  }

  /** `inv_mix_col`, the macro behind `AES_convert_key`. */
  function InvMixCol(x: Word): (y: Word)
  {
    var f2 := Mul2(x);
    var f4 := Mul2(f2);
    var f8 := Mul2(f4);
    var f9 := Xor(x, f8);
    var sum := Xor(Xor(f2, f4), f8);
    Xor(Xor(Xor(sum, Rot3(Xor(f2, f9))), Rot2(Xor(f4, f9))), Rot1(f9))
  }

  // ---- the field, as seen by the columns ----

  /** An element of GF(2^8), with its two operations. */
  datatype Element = Element(bits: bv8)

  function Add(a: Element, b: Element): (c: Element) { Element(a.bits ^ b.bits) }

  function Double(a: Element): (b: Element) { Element(Xtime(a.bits)) }

  lemma DoubleAdd(a: Element, b: Element)
    ensures Double(Add(a, b)) == Add(Double(a), Double(b))
  {
    hide Xtime;
    var x, y := a.bits, b.bits;
    assert Add(a, b).bits == x ^ y;
    XtimeLinear(x, y);
    assert Add(Double(a), Double(b)).bits == Xtime(x) ^ Xtime(y);
  }

  datatype Column = Column(a0: Element, a1: Element, a2: Element, a3: Element)

  function Bytes(w: Word): (c: Column) { Column(Element(B0(w)), Element(B1(w)), Element(B2(w)), Element(B3(w))) }

  function FromColumn(c: Column): (w: Word)
    ensures Bytes(w) == c
  {
    Pack(c.a0.bits, c.a1.bits, c.a2.bits, c.a3.bits)
  }

  lemma BytesInjective(v: Word, w: Word)
    requires Bytes(v) == Bytes(w)
    ensures v == w
  {
    SameBytes(v, w);
  }

  function AddColumns(x: Column, y: Column): (z: Column)
  {
    Column(Add(x.a0, y.a0), Add(x.a1, y.a1), Add(x.a2, y.a2), Add(x.a3, y.a3))
  }

  /** Xor works byte by byte. */
  lemma BytesXor(v: Word, w: Word)
    ensures Bytes(Xor(v, w)) == AddColumns(Bytes(v), Bytes(w))
  {
    hide Xor, Add, B0, B1, B2, B3;
    XorB0(v, w);
    XorB1(v, w);
    XorB2(v, w);
    XorB3(v, w);
  }

  lemma XorB0(v: Word, w: Word)
    ensures Element(B0(Xor(v, w))) == Add(Element(B0(v)), Element(B0(w)))
  {
  }

  lemma XorB1(v: Word, w: Word)
    ensures Element(B1(Xor(v, w))) == Add(Element(B1(v)), Element(B1(w)))
  {
  }

  lemma XorB2(v: Word, w: Word)
    ensures Element(B2(Xor(v, w))) == Add(Element(B2(v)), Element(B2(w)))
  {
  }

  lemma XorB3(v: Word, w: Word)
    ensures Element(B3(Xor(v, w))) == Add(Element(B3(v)), Element(B3(w)))
  {
  }

  function Sum3(a: Element, b: Element, c: Element): (s: Element) { Add(Add(a, b), c) }
  function Sum4(a: Element, b: Element, c: Element, d: Element): (s: Element) { Add(Sum3(a, b, c), d) }
  function Sum5(a: Element, b: Element, c: Element, d: Element, e: Element): (s: Element) { Add(Sum4(a, b, c, d), e) }

  /** MixColumn as `AES_encrypt` does it. */
  function MixColumn(c: Column): (d: Column)
  {
    var t := Sum4(c.a0, c.a1, c.a2, c.a3);
    Column(Add(c.a0, Add(t, Double(Add(c.a0, c.a1)))), Add(c.a1, Add(t, Double(Add(c.a1, c.a2)))),
           Add(c.a2, Add(t, Double(Add(c.a2, c.a3)))), Add(c.a3, Add(t, Double(Add(c.a3, c.a0)))))
  }

  /** The inverse as `AES_decrypt` does it. */
  function InvMixColumn(c: Column): (d: Column)
  {
    var xt0, xt1 := Double(Add(c.a0, c.a1)), Double(Add(c.a1, c.a2));
    var xt2, xt3 := Double(Add(c.a2, c.a3)), Double(Add(c.a3, c.a0));
    var xt4, xt5 := Double(Add(xt0, xt1)), Double(Add(xt1, xt2));
    var xt6 := Double(Add(xt4, xt5));
    Column(Add(xt0, Sum5(c.a1, c.a2, c.a3, xt4, xt6)), Add(xt1, Sum5(c.a0, c.a2, c.a3, xt5, xt6)),
           Add(xt2, Sum5(c.a0, c.a1, c.a3, xt4, xt6)), Add(xt3, Sum5(c.a0, c.a1, c.a2, xt5, xt6)))
  }

  /** `inv_mix_col` on columns: what the packed operations do to the four bytes. */
  function PackedColumn(c: Column): (d: Column)
  {
    var f2 := DoubleColumn(c);
    var f4 := DoubleColumn(f2);
    var f8 := DoubleColumn(f4);
    var f9 := AddColumns(c, f8);
    AddColumns(AddColumns(AddColumns(AddColumns(AddColumns(f2, f4), f8),
      Up3(AddColumns(f2, f9))), Up2(AddColumns(f4, f9))), Up1(f9))
  }

  function DoubleColumn(c: Column): (d: Column) { Column(Double(c.a0), Double(c.a1), Double(c.a2), Double(c.a3)) }
  function Up1(c: Column): (d: Column) { Column(c.a3, c.a0, c.a1, c.a2) }
  function Up2(c: Column): (d: Column) { Column(c.a2, c.a3, c.a0, c.a1) }
  function Up3(c: Column): (d: Column) { Column(c.a1, c.a2, c.a3, c.a0) }

  lemma Mul2Column(w: Word)
    ensures Bytes(Mul2(w)) == DoubleColumn(Bytes(w))
  {
    hide Mul2, Xtime, B0, B1, B2, B3;
    Mul2Bytes(w);
  }

  lemma RotColumn(w: Word)
    ensures Bytes(Rot1(w)) == Up1(Bytes(w)) && Bytes(Rot2(w)) == Up2(Bytes(w)) && Bytes(Rot3(w)) == Up3(Bytes(w))
  {
    hide Rotated1, Rotated2, Rotated3, Byte0, Byte1, Byte2, Byte3;
    RotatedBytes(w.bits);
  }

  /** The packed macro computes the packed column. */
  lemma PackedBytes(w: Word)
    ensures Bytes(InvMixCol(w)) == PackedColumn(Bytes(w))
  {
    hide Xor, Mul2, Rot1, Rot2, Rot3, Bytes, DoubleColumn, AddColumns, Up1, Up2, Up3;
    var f2 := Mul2(w);
    var f4 := Mul2(f2);
    var f8 := Mul2(f4);
    var f9 := Xor(w, f8);
    Mul2Column(w);
    Mul2Column(f2);
    Mul2Column(f4);
    BytesXor(w, f8);
    BytesXor(f2, f9);
    BytesXor(f4, f9);
    RotColumn(Xor(f2, f9));
    RotColumn(Xor(f4, f9));
    RotColumn(f9);
    BytesXor(f2, f4);
    var sum := Xor(Xor(f2, f4), f8);
    BytesXor(Xor(f2, f4), f8);
    BytesXor(sum, Rot3(Xor(f2, f9)));
    BytesXor(Xor(sum, Rot3(Xor(f2, f9))), Rot2(Xor(f4, f9)));
    BytesXor(Xor(Xor(sum, Rot3(Xor(f2, f9))), Rot2(Xor(f4, f9))), Rot1(f9));
  }

  // ---- linearity ----

  lemma Regroup2(a: Element, b: Element, c: Element, d: Element)
    ensures Add(Add(a, b), Add(c, d)) == Add(Add(a, c), Add(b, d))
  {
  }

  lemma Regroup5(a: Column, b: Column, e: Element, f: Element, g: Element, h: Element)
    ensures Sum5(Add(a.a0, b.a0), Add(a.a1, b.a1), Add(a.a2, b.a2), Add(e, f), Add(g, h))
         == Add(Sum5(a.a0, a.a1, a.a2, e, g), Sum5(b.a0, b.a1, b.a2, f, h))
  {
    hide Add;
    Regroup2(a.a0, b.a0, a.a1, b.a1);
    Regroup2(Add(a.a0, a.a1), Add(b.a0, b.a1), a.a2, b.a2);
    Regroup2(Sum3(a.a0, a.a1, a.a2), Sum3(b.a0, b.a1, b.a2), e, f);
    Regroup2(Sum4(a.a0, a.a1, a.a2, e), Sum4(b.a0, b.a1, b.a2, f), g, h);
  }

  lemma DoubleOfSum(a: Element, b: Element, c: Element, d: Element)
    ensures Double(Add(Add(a, b), Add(c, d))) == Add(Double(Add(a, c)), Double(Add(b, d)))
  {
    hide Double, Add;
    Regroup2(a, b, c, d);
    DoubleAdd(Add(a, c), Add(b, d));
  }

  /** A column function that respects addition. */
  ghost predicate Linear(f: Column -> Column)
  {
    forall x: Column, y: Column :: f(AddColumns(x, y)) == AddColumns(f(x), f(y))
  }

  lemma MixLinear(c: Column, d: Column)
    ensures MixColumn(AddColumns(c, d)) == AddColumns(MixColumn(c), MixColumn(d))
  {
    hide Double, Add;
    var s := AddColumns(c, d);
    var tc, td := Sum4(c.a0, c.a1, c.a2, c.a3), Sum4(d.a0, d.a1, d.a2, d.a3);
    Regroup2(c.a0, d.a0, c.a1, d.a1);
    Regroup2(Add(c.a0, c.a1), Add(d.a0, d.a1), c.a2, d.a2);
    Regroup2(Sum3(c.a0, c.a1, c.a2), Sum3(d.a0, d.a1, d.a2), c.a3, d.a3);
    MixEntryLinear(c.a0, d.a0, c.a1, d.a1, tc, td);
    MixEntryLinear(c.a1, d.a1, c.a2, d.a2, tc, td);
    MixEntryLinear(c.a2, d.a2, c.a3, d.a3, tc, td);
    MixEntryLinear(c.a3, d.a3, c.a0, d.a0, tc, td);
  }

  lemma MixEntryLinear(a: Element, a': Element, b: Element, b': Element, t: Element, t': Element)
    ensures Add(Add(a, a'), Add(Add(t, t'), Double(Add(Add(a, a'), Add(b, b')))))
         == Add(Add(a, Add(t, Double(Add(a, b)))), Add(a', Add(t', Double(Add(a', b')))))
  {
    hide Double, Add;
    DoubleOfSum(a, a', b, b');
    var x, x' := Double(Add(a, b)), Double(Add(a', b'));
    Regroup2(t, t', x, x');
    Regroup2(a, a', Add(t, x), Add(t', x'));
  }

  lemma InvMixLinear(c: Column, d: Column)
    ensures InvMixColumn(AddColumns(c, d)) == AddColumns(InvMixColumn(c), InvMixColumn(d))
  {
    hide Double, Add, Sum5;
    DoubleOfSum(c.a0, d.a0, c.a1, d.a1);
    DoubleOfSum(c.a1, d.a1, c.a2, d.a2);
    DoubleOfSum(c.a2, d.a2, c.a3, d.a3);
    DoubleOfSum(c.a3, d.a3, c.a0, d.a0);
    var p0, p1, p2, p3 :=
      Double(Add(c.a0, c.a1)), Double(Add(c.a1, c.a2)), Double(Add(c.a2, c.a3)), Double(Add(c.a3, c.a0));
    var q0, q1, q2, q3 :=
      Double(Add(d.a0, d.a1)), Double(Add(d.a1, d.a2)), Double(Add(d.a2, d.a3)), Double(Add(d.a3, d.a0));
    DoubleOfSum(p0, q0, p1, q1);
    DoubleOfSum(p1, q1, p2, q2);
    var p4, p5 := Double(Add(p0, p1)), Double(Add(p1, p2));
    var q4, q5 := Double(Add(q0, q1)), Double(Add(q1, q2));
    DoubleOfSum(p4, q4, p5, q5);
    var p6, q6 := Double(Add(p4, p5)), Double(Add(q4, q5));
    InvEntryLinear(p0, q0, Column(c.a1, c.a2, c.a3, c.a3), Column(d.a1, d.a2, d.a3, d.a3), p4, q4, p6, q6);
    InvEntryLinear(p1, q1, Column(c.a0, c.a2, c.a3, c.a3), Column(d.a0, d.a2, d.a3, d.a3), p5, q5, p6, q6);
    InvEntryLinear(p2, q2, Column(c.a0, c.a1, c.a3, c.a3), Column(d.a0, d.a1, d.a3, d.a3), p4, q4, p6, q6);
    InvEntryLinear(p3, q3, Column(c.a0, c.a1, c.a2, c.a3), Column(d.a0, d.a1, d.a2, d.a3), p5, q5, p6, q6);
  }

  lemma InvEntryLinear(x: Element, x': Element, a: Column, a': Column, e: Element, e': Element, g: Element, g': Element)
    ensures Add(Add(x, x'), Sum5(Add(a.a0, a'.a0), Add(a.a1, a'.a1), Add(a.a2, a'.a2), Add(e, e'), Add(g, g')))
         == Add(Add(x, Sum5(a.a0, a.a1, a.a2, e, g)), Add(x', Sum5(a'.a0, a'.a1, a'.a2, e', g')))
  {
    hide Add, Sum5;
    Regroup5(a, a', e, e', g, g');
    Regroup2(x, x', Sum5(a.a0, a.a1, a.a2, e, g), Sum5(a'.a0, a'.a1, a'.a2, e', g'));
  }
}
