/** The inverse of MixColumn, and its packed form, by linearity: functions that respect addition and
    agree on the 32 single-bit columns agree everywhere. */
module AesInverse {
  import opened AesColumn

  const ZERO := Element(0)

  const ZERO_COLUMN := Column(ZERO, ZERO, ZERO, ZERO)

  lemma AddZero(a: Element)
    ensures Add(a, ZERO) == a && Add(ZERO, a) == a && Add(a, a) == ZERO
  {
  }

  /** The column with a at position j. */
  function At(j: nat, a: Element): (c: Column)
    requires j < 4
  {
    match j
    case 0 => Column(a, ZERO, ZERO, ZERO)
    case 1 => Column(ZERO, a, ZERO, ZERO)
    case 2 => Column(ZERO, ZERO, a, ZERO)
    case _ => Column(ZERO, ZERO, ZERO, a)
  }

  lemma AtAdd(j: nat, a: Element, b: Element)
    requires j < 4
    ensures At(j, Add(a, b)) == AddColumns(At(j, a), At(j, b))
  {
    hide Add;
    AddZero(ZERO);
  }

  lemma ColumnParts(c: Column)
    ensures c == AddColumns(AddColumns(At(0, c.a0), At(1, c.a1)), AddColumns(At(2, c.a2), At(3, c.a3)))
  {
    hide Add;
    AddZero(ZERO);
    AddZero(c.a0);
    AddZero(c.a1);
    AddZero(c.a2);
    AddZero(c.a3);
  }

  lemma LinearZero(f: Column -> Column)
    requires Linear(f)
    ensures f(ZERO_COLUMN) == ZERO_COLUMN
  {
    hide Add;
    AddZero(ZERO);
    assert AddColumns(ZERO_COLUMN, ZERO_COLUMN) == ZERO_COLUMN;
    var z := f(ZERO_COLUMN);
    assert z == AddColumns(z, z);
    AddZero(z.a0);
    AddZero(z.a1);
    AddZero(z.a2);
    AddZero(z.a3);
  }

  ghost predicate Agree(f: Column -> Column, g: Column -> Column, j: nat, a: Element)
    requires j < 4
  {
    f(At(j, a)) == g(At(j, a))
  }

  lemma AgreeSum(f: Column -> Column, g: Column -> Column, j: nat, a: Element, b: Element)
    requires Linear(f) && Linear(g) && j < 4 && Agree(f, g, j, a) && Agree(f, g, j, b)
    ensures Agree(f, g, j, Add(a, b))
  {
    hide Add, At;
    AtAdd(j, a, b);
  }

  /** Bit by bit: a masked to one bit is zero or that bit. */
  function Masked(a: Element, m: bv8): (b: Element) { Element(a.bits & m) }

  lemma MaskedBits(a: Element)
    ensures Masked(a, 1) == ZERO || Masked(a, 1) == Element(1)
    ensures Masked(a, 2) == ZERO || Masked(a, 2) == Element(2)
    ensures Masked(a, 4) == ZERO || Masked(a, 4) == Element(4)
    ensures Masked(a, 8) == ZERO || Masked(a, 8) == Element(8)
    ensures Masked(a, 16) == ZERO || Masked(a, 16) == Element(16)
    ensures Masked(a, 32) == ZERO || Masked(a, 32) == Element(32)
    ensures Masked(a, 64) == ZERO || Masked(a, 64) == Element(64)
    ensures Masked(a, 128) == ZERO || Masked(a, 128) == Element(128)
  {
  }

  lemma MaskJoin(a: Element, m: bv8, n: bv8)
    requires m & n == 0
    ensures Masked(a, m | n) == Add(Masked(a, m), Masked(a, n))
  {
  }

  lemma MaskAll(a: Element)
    ensures Masked(a, 0xff) == a
  {
  }

  /** The eight bits at position j. */
  ghost predicate AgreeOnBits(f: Column -> Column, g: Column -> Column, j: nat)
    requires j < 4
  {
    && Agree(f, g, j, Element(1)) && Agree(f, g, j, Element(2))
    && Agree(f, g, j, Element(4)) && Agree(f, g, j, Element(8))
    && Agree(f, g, j, Element(16)) && Agree(f, g, j, Element(32))
    && Agree(f, g, j, Element(64)) && Agree(f, g, j, Element(128))
  }

  lemma AgreeOnZero(f: Column -> Column, g: Column -> Column, j: nat)
    requires Linear(f) && Linear(g) && j < 4
    ensures Agree(f, g, j, ZERO)
  {
    LinearZero(f);
    LinearZero(g);
    assert At(j, ZERO) == ZERO_COLUMN;
  }

  lemma JoinMasks(f: Column -> Column, g: Column -> Column, j: nat, a: Element, m: bv8, n: bv8)
    requires Linear(f) && Linear(g) && j < 4 && m & n == 0
    requires Agree(f, g, j, Masked(a, m)) && Agree(f, g, j, Masked(a, n))
    ensures Agree(f, g, j, Masked(a, m | n))
  {
    hide Agree, Add, Masked, Linear;
    MaskJoin(a, m, n);
    AgreeSum(f, g, j, Masked(a, m), Masked(a, n));
  }

  lemma AgreeOnElement(f: Column -> Column, g: Column -> Column, j: nat, a: Element)
    requires Linear(f) && Linear(g) && j < 4 && AgreeOnBits(f, g, j)
    ensures Agree(f, g, j, a)
  {
    hide Agree, Add, Masked, Linear;
    AgreeOnZero(f, g, j);
    MaskedBits(a);
    JoinMasks(f, g, j, a, 1, 2);
    JoinMasks(f, g, j, a, 3, 4);
    JoinMasks(f, g, j, a, 7, 8);
    JoinMasks(f, g, j, a, 15, 16);
    JoinMasks(f, g, j, a, 31, 32);
    JoinMasks(f, g, j, a, 63, 64);
    JoinMasks(f, g, j, a, 127, 128);
    MaskAll(a);
  }

  /** Linear functions that agree on all single bits agree on every column. */
  lemma AgreeEverywhere(f: Column -> Column, g: Column -> Column, c: Column)
    requires Linear(f) && Linear(g)
    requires AgreeOnBits(f, g, 0) && AgreeOnBits(f, g, 1) && AgreeOnBits(f, g, 2) && AgreeOnBits(f, g, 3)
    ensures f(c) == g(c)
  {
    hide Add, At, AgreeOnBits;
    AgreeOnElement(f, g, 0, c.a0);
    AgreeOnElement(f, g, 1, c.a1);
    AgreeOnElement(f, g, 2, c.a2);
    AgreeOnElement(f, g, 3, c.a3);
    ColumnParts(c);
  }

  // ---- the packed form ----

  lemma ColumnsRegroup(a: Column, b: Column, c: Column, d: Column)
    ensures AddColumns(AddColumns(a, b), AddColumns(c, d)) == AddColumns(AddColumns(a, c), AddColumns(b, d))
  {
    hide Add;
    Regroup2(a.a0, b.a0, c.a0, d.a0);
    Regroup2(a.a1, b.a1, c.a1, d.a1);
    Regroup2(a.a2, b.a2, c.a2, d.a2);
    Regroup2(a.a3, b.a3, c.a3, d.a3);
  }

  lemma DoubleColumnAdd(c: Column, d: Column)
    ensures DoubleColumn(AddColumns(c, d)) == AddColumns(DoubleColumn(c), DoubleColumn(d))
  {
    hide Add, Double;
    DoubleAdd(c.a0, d.a0);
    DoubleAdd(c.a1, d.a1);
    DoubleAdd(c.a2, d.a2);
    DoubleAdd(c.a3, d.a3);
  }

  lemma UpAdd(c: Column, d: Column)
    ensures Up1(AddColumns(c, d)) == AddColumns(Up1(c), Up1(d))
    ensures Up2(AddColumns(c, d)) == AddColumns(Up2(c), Up2(d))
    ensures Up3(AddColumns(c, d)) == AddColumns(Up3(c), Up3(d))
  {
    hide Add;
  }

  lemma PackedLinear(c: Column, d: Column)
    ensures PackedColumn(AddColumns(c, d)) == AddColumns(PackedColumn(c), PackedColumn(d))
  {
    hide AddColumns, DoubleColumn, Up1, Up2, Up3;
    var f2, g2 := DoubleColumn(c), DoubleColumn(d);
    var f4, g4 := DoubleColumn(f2), DoubleColumn(g2);
    var f8, g8 := DoubleColumn(f4), DoubleColumn(g4);
    DoubleColumnAdd(c, d);
    DoubleColumnAdd(f2, g2);
    DoubleColumnAdd(f4, g4);
    ColumnsRegroup(c, d, f8, g8);
    var f9, g9 := AddColumns(c, f8), AddColumns(d, g8);
    ColumnsRegroup(f2, g2, f9, g9);
    ColumnsRegroup(f4, g4, f9, g9);
    UpAdd(AddColumns(f2, f9), AddColumns(g2, g9));
    UpAdd(AddColumns(f4, f9), AddColumns(g4, g9));
    UpAdd(f9, g9);
    ColumnsRegroup(f2, g2, f4, g4);
    var f, g := AddColumns(f2, f4), AddColumns(g2, g4);
    ColumnsRegroup(f, g, f8, g8);
    f, g := AddColumns(f, f8), AddColumns(g, g8);
    ColumnsRegroup(f, g, Up3(AddColumns(f2, f9)), Up3(AddColumns(g2, g9)));
    f, g := AddColumns(f, Up3(AddColumns(f2, f9))), AddColumns(g, Up3(AddColumns(g2, g9)));
    ColumnsRegroup(f, g, Up2(AddColumns(f4, f9)), Up2(AddColumns(g4, g9)));
    f, g := AddColumns(f, Up2(AddColumns(f4, f9))), AddColumns(g, Up2(AddColumns(g4, g9)));
    ColumnsRegroup(f, g, Up1(f9), Up1(g9));
  }

  // ---- multiples and rotations ----

  /** A column function that is linear over the field and commutes with rotation: it is determined by
      its value at a single bit. */
  ghost predicate Circulant(f: Column -> Column)
  {
    && Linear(f)
    && (forall c: Column :: f(DoubleColumn(c)) == DoubleColumn(f(c)))
    && (forall c: Column :: f(Up1(c)) == Up1(f(c)))
  }

  lemma AtDouble(j: nat, a: Element)
    requires j < 4
    ensures At(j, Double(a)) == DoubleColumn(At(j, a))
  {
    assert Double(ZERO) == ZERO;
  }

  lemma AtUp(j: nat, a: Element)
    requires j < 3
    ensures At(j + 1, a) == Up1(At(j, a))
  {
  }

  lemma AgreeDouble(f: Column -> Column, g: Column -> Column, j: nat, a: Element)
    requires Circulant(f) && Circulant(g) && j < 4 && Agree(f, g, j, a)
    ensures Agree(f, g, j, Double(a))
  {
    hide At, Double, DoubleColumn, Up1, AddColumns;
    AtDouble(j, a);
  }

  lemma DoublesOfOne()
    ensures Double(Element(1)) == Element(2) && Double(Element(2)) == Element(4) && Double(Element(4)) == Element(8)
    ensures Double(Element(8)) == Element(16) && Double(Element(16)) == Element(32)
    ensures Double(Element(32)) == Element(64) && Double(Element(64)) == Element(128)
  {
  }

  lemma BitsFromOne(f: Column -> Column, g: Column -> Column, j: nat)
    requires Circulant(f) && Circulant(g) && j < 4 && Agree(f, g, j, Element(1))
    ensures AgreeOnBits(f, g, j)
  {
    hide Agree, Double, Circulant;
    DoublesOfOne();
    AgreeDouble(f, g, j, Element(1));
    AgreeDouble(f, g, j, Element(2));
    AgreeDouble(f, g, j, Element(4));
    AgreeDouble(f, g, j, Element(8));
    AgreeDouble(f, g, j, Element(16));
    AgreeDouble(f, g, j, Element(32));
    AgreeDouble(f, g, j, Element(64));
  }

  lemma AgreeUp(f: Column -> Column, g: Column -> Column, j: nat, a: Element)
    requires Circulant(f) && Circulant(g) && j < 3 && Agree(f, g, j, a)
    ensures Agree(f, g, j + 1, a)
  {
    hide At, DoubleColumn, Up1, AddColumns;
    AtUp(j, a);
  }

  /** Circulant functions that agree on one column agree on every column. */
  lemma CirculantsAgree(f: Column -> Column, g: Column -> Column, c: Column)
    requires Circulant(f) && Circulant(g) && Agree(f, g, 0, Element(1))
    ensures f(c) == g(c)
  {
    hide Agree, AgreeOnBits, AddColumns, DoubleColumn, Up1;
    AgreeUp(f, g, 0, Element(1));
    AgreeUp(f, g, 1, Element(1));
    AgreeUp(f, g, 2, Element(1));
    BitsFromOne(f, g, 0);
    BitsFromOne(f, g, 1);
    BitsFromOne(f, g, 2);
    BitsFromOne(f, g, 3);
    AgreeEverywhere(f, g, c);
  }

  lemma Commute(a: Element, b: Element)
    ensures Add(a, b) == Add(b, a)
  {
  }

  lemma Associate(a: Element, b: Element, c: Element)
    ensures Add(Add(a, b), c) == Add(a, Add(b, c))
  {
  }

  lemma RotateSum3(a: Element, b: Element, c: Element)
    ensures Sum3(c, a, b) == Sum3(a, b, c)
  {
    hide Add;
    Associate(c, a, b);
    Commute(c, Add(a, b));
  }

  lemma RotateSum4(a: Element, b: Element, c: Element, d: Element)
    ensures Sum4(d, a, b, c) == Sum4(a, b, c, d)
  {
    hide Add;
    Associate(d, a, b);
    Associate(d, Add(a, b), c);
    Commute(d, Sum3(a, b, c));
  }

  lemma MixUp(c: Column)
    ensures MixColumn(Up1(c)) == Up1(MixColumn(c))
  {
    hide Add, Double, Sum4;
    RotateSum4(c.a0, c.a1, c.a2, c.a3);
  }

  lemma MixDouble(c: Column)
    ensures MixColumn(DoubleColumn(c)) == DoubleColumn(MixColumn(c))
  {
    hide Add, Double;
    var t := Sum4(c.a0, c.a1, c.a2, c.a3);
    DoubleAdd(c.a0, c.a1);
    DoubleAdd(Add(c.a0, c.a1), c.a2);
    DoubleAdd(Sum3(c.a0, c.a1, c.a2), c.a3);
    DoubleEntry(c.a0, c.a1, t);
    DoubleEntry(c.a1, c.a2, t);
    DoubleEntry(c.a2, c.a3, t);
    DoubleEntry(c.a3, c.a0, t);
  }

  lemma DoubleEntry(a: Element, b: Element, t: Element)
    ensures Add(Double(a), Add(Double(t), Double(Add(Double(a), Double(b))))) ==
            Double(Add(a, Add(t, Double(Add(a, b)))))
  {
    hide Add, Double;
    DoubleAdd(a, b);
    DoubleAdd(t, Double(Add(a, b)));
    DoubleAdd(a, Add(t, Double(Add(a, b))));
  }

  /** Two shared doublings: the middle terms cancel. */
  lemma SharedDoubling(a: Element, b: Element, c: Element)
    ensures Add(Double(Add(a, b)), Double(Add(b, c))) == Double(Add(a, c))
  {
    hide Double;
    DoubleAdd(Add(a, b), Add(b, c));
    assert Add(Add(a, b), Add(b, c)) == Add(a, c);
  }

  lemma InvMixUp(c: Column)
    ensures InvMixColumn(Up1(c)) == Up1(InvMixColumn(c))
  {
    hide Add, Double;
    SharedDoubling(c.a3, c.a0, c.a1);
    SharedDoubling(c.a1, c.a2, c.a3);
    Commute(c.a3, c.a1);
    var xt0, xt1, xt2 := Double(Add(c.a0, c.a1)), Double(Add(c.a1, c.a2)), Double(Add(c.a2, c.a3));
    Commute(Double(Add(xt0, xt1)), Double(Add(xt1, xt2)));
    RotateSum3(c.a1, c.a2, c.a3);
    RotateSum3(c.a0, c.a2, c.a3);
    RotateSum3(c.a0, c.a1, c.a3);
  }

  lemma DoubleSum5(a: Element, b: Element, c: Element, d: Element, e: Element)
    ensures Sum5(Double(a), Double(b), Double(c), Double(d), Double(e)) == Double(Sum5(a, b, c, d, e))
  {
    hide Add, Double;
    DoubleAdd(a, b);
    DoubleAdd(Add(a, b), c);
    DoubleAdd(Sum3(a, b, c), d);
    DoubleAdd(Sum4(a, b, c, d), e);
  }

  lemma InvMixDouble(c: Column)
    ensures InvMixColumn(DoubleColumn(c)) == DoubleColumn(InvMixColumn(c))
  {
    hide Add, Double, Sum5;
    DoubleAdd(c.a0, c.a1);
    DoubleAdd(c.a1, c.a2);
    DoubleAdd(c.a2, c.a3);
    DoubleAdd(c.a3, c.a0);
    var xt0, xt1 := Double(Add(c.a0, c.a1)), Double(Add(c.a1, c.a2));
    var xt2, xt3 := Double(Add(c.a2, c.a3)), Double(Add(c.a3, c.a0));
    DoubleAdd(xt0, xt1);
    DoubleAdd(xt1, xt2);
    var xt4, xt5 := Double(Add(xt0, xt1)), Double(Add(xt1, xt2));
    DoubleAdd(xt4, xt5);
    var xt6 := Double(Add(xt4, xt5));
    DoubleSum5(c.a1, c.a2, c.a3, xt4, xt6);
    DoubleSum5(c.a0, c.a2, c.a3, xt5, xt6);
    DoubleSum5(c.a0, c.a1, c.a3, xt4, xt6);
    DoubleSum5(c.a0, c.a1, c.a2, xt5, xt6);
    DoubleAdd(xt0, Sum5(c.a1, c.a2, c.a3, xt4, xt6));
    DoubleAdd(xt1, Sum5(c.a0, c.a2, c.a3, xt5, xt6));
    DoubleAdd(xt2, Sum5(c.a0, c.a1, c.a3, xt4, xt6));
    DoubleAdd(xt3, Sum5(c.a0, c.a1, c.a2, xt5, xt6));
  }

  lemma UpCommutes(c: Column, d: Column)
    ensures AddColumns(Up1(c), Up1(d)) == Up1(AddColumns(c, d)) && DoubleColumn(Up1(c)) == Up1(DoubleColumn(c))
    ensures Up2(Up1(c)) == Up1(Up2(c)) && Up3(Up1(c)) == Up1(Up3(c))
    ensures DoubleColumn(Up2(c)) == Up2(DoubleColumn(c)) && DoubleColumn(Up3(c)) == Up3(DoubleColumn(c))
  {
    hide Add, Double;
  }

  lemma PackedUp(c: Column)
    ensures PackedColumn(Up1(c)) == Up1(PackedColumn(c))
  {
    hide AddColumns, DoubleColumn, Up1, Up2, Up3;
    var f2 := DoubleColumn(c);
    var f4 := DoubleColumn(f2);
    var f8 := DoubleColumn(f4);
    var f9 := AddColumns(c, f8);
    UpCommutes(c, f8);
    UpCommutes(f2, f9);
    UpCommutes(f4, f9);
    UpCommutes(f2, f4);
    UpCommutes(AddColumns(f2, f9), AddColumns(f2, f9));
    UpCommutes(AddColumns(f4, f9), AddColumns(f4, f9));
    UpCommutes(f9, f9);
    var f := AddColumns(f2, f4);
    UpCommutes(f, f8);
    f := AddColumns(f, f8);
    UpCommutes(f, Up3(AddColumns(f2, f9)));
    f := AddColumns(f, Up3(AddColumns(f2, f9)));
    UpCommutes(f, Up2(AddColumns(f4, f9)));
    f := AddColumns(f, Up2(AddColumns(f4, f9)));
    UpCommutes(f, Up1(f9));
  }

  lemma PackedDouble(c: Column)
    ensures PackedColumn(DoubleColumn(c)) == DoubleColumn(PackedColumn(c))
  {
    hide AddColumns, DoubleColumn, Up1, Up2, Up3;
    var f2 := DoubleColumn(c);
    var f4 := DoubleColumn(f2);
    var f8 := DoubleColumn(f4);
    var f9 := AddColumns(c, f8);
    DoubleColumnAdd(c, f8);
    DoubleColumnAdd(f2, f9);
    DoubleColumnAdd(f4, f9);
    UpCommutes(AddColumns(f2, f9), c);
    UpCommutes(AddColumns(f4, f9), c);
    UpCommutes(f9, c);
    DoubleColumnAdd(f2, f4);
    var f := AddColumns(f2, f4);
    DoubleColumnAdd(f, f8);
    f := AddColumns(f, f8);
    DoubleColumnAdd(f, Up3(AddColumns(f2, f9)));
    f := AddColumns(f, Up3(AddColumns(f2, f9)));
    DoubleColumnAdd(f, Up2(AddColumns(f4, f9)));
    f := AddColumns(f, Up2(AddColumns(f4, f9)));
    DoubleColumnAdd(f, Up1(f9));
  }

  // ---- the value at one ----

  lemma SmallSums()
    ensures Double(ZERO) == ZERO && Double(Element(3)) == Element(6) && Double(Element(6)) == Element(12)
    ensures Add(Element(4), Element(8)) == Element(12) && Add(Element(2), Element(12)) == Element(14)
    ensures Add(Element(1), Element(8)) == Element(9) && Add(Element(9), Element(4)) == Element(13)
    ensures Add(Element(2), Element(9)) == Element(11) && Add(Element(4), Element(9)) == Element(13)
    ensures Add(Element(2), Element(4)) == Element(6) && Add(Element(6), Element(8)) == Element(14)
    ensures Add(Element(1), Element(4)) == Element(5) && Add(Element(5), Element(8)) == Element(13)
  {
  }

  lemma InvMixOfOne()
    ensures InvMixColumn(At(0, Element(1))) == Column(Element(14), Element(9), Element(13), Element(11))
  {
    hide Add, Double;
    SmallSums();
    DoublesOfOne();
    AddZero(ZERO);
    AddZero(Element(1));
    AddZero(Element(2));
    AddZero(Element(4));
    AddZero(Element(8));
    AddZero(Element(9));
    AddZero(Element(13));
  }

  lemma PackedOfOne()
    ensures PackedColumn(At(0, Element(1))) == Column(Element(14), Element(9), Element(13), Element(11))
  {
    hide Add, Double;
    SmallSums();
    DoublesOfOne();
    AddZero(ZERO);
    AddZero(Element(1));
    AddZero(Element(2));
    AddZero(Element(4));
    AddZero(Element(8));
    AddZero(Element(9));
    AddZero(Element(11));
    AddZero(Element(13));
    AddZero(Element(14));
  }

  /** The packed macro and the per-byte code of `AES_decrypt` compute the same column. */
  lemma PackedIsInverse(c: Column)
    ensures InvMixColumn(c) == PackedColumn(c)
  {
    hide InvMixColumn, PackedColumn, AddColumns, DoubleColumn, Up1, At;
    InvMixCirculant();
    PackedCirculant();
    InvMixOfOne();
    PackedOfOne();
    CirculantsAgree(InvMixColumn, PackedColumn, c);
  }

  lemma PackedCirculant()
    ensures Circulant(PackedColumn)
  {
    hide PackedColumn, AddColumns, DoubleColumn, Up1;
    forall x: Column, y: Column
      ensures PackedColumn(AddColumns(x, y)) == AddColumns(PackedColumn(x), PackedColumn(y))
    {
      PackedLinear(x, y);
    }
    forall x: Column
      ensures PackedColumn(DoubleColumn(x)) == DoubleColumn(PackedColumn(x))
      ensures PackedColumn(Up1(x)) == Up1(PackedColumn(x))
    {
      PackedDouble(x);
      PackedUp(x);
    }
  }

  lemma InvMixCirculant()
    ensures Circulant(InvMixColumn)
  {
    hide InvMixColumn, AddColumns, DoubleColumn, Up1;
    forall x: Column, y: Column
      ensures InvMixColumn(AddColumns(x, y)) == AddColumns(InvMixColumn(x), InvMixColumn(y))
    {
      InvMixLinear(x, y);
    }
    forall x: Column
      ensures InvMixColumn(DoubleColumn(x)) == DoubleColumn(InvMixColumn(x))
      ensures InvMixColumn(Up1(x)) == Up1(InvMixColumn(x))
    {
      InvMixDouble(x);
      InvMixUp(x);
    }
  }

  // ---- the inverse ----

  function MixedBack(c: Column): (d: Column) { InvMixColumn(MixColumn(c)) }

  function Same(c: Column): (d: Column) { c }

  lemma MixedBackCirculant()
    ensures Circulant(MixedBack)
  {
    hide InvMixColumn, MixColumn, AddColumns, DoubleColumn, Up1;
    InvMixCirculant();
    forall x: Column, y: Column
      ensures MixedBack(AddColumns(x, y)) == AddColumns(MixedBack(x), MixedBack(y))
    {
      MixLinear(x, y);
    }
    forall x: Column
      ensures MixedBack(DoubleColumn(x)) == DoubleColumn(MixedBack(x)) && MixedBack(Up1(x)) == Up1(MixedBack(x))
    {
      MixDouble(x);
      MixUp(x);
    }
  }

  lemma MixOfOne()
    ensures MixColumn(At(0, Element(1))) == Column(Element(2), Element(1), Element(1), Element(3))
  {
    hide Double;
    SmallSums();
    DoublesOfOne();
  }

  lemma InvMixOfMixed()
    ensures InvMixColumn(Column(Element(2), Element(1), Element(1), Element(3))) == At(0, Element(1))
  {
    hide Double;
    SmallSums();
    DoublesOfOne();
  }

  /** The column operation of `AES_decrypt` undoes that of `AES_encrypt`. */
  lemma InvMixUndoesMix(c: Column)
    ensures InvMixColumn(MixColumn(c)) == c
  {
    hide InvMixColumn, MixColumn, AddColumns, DoubleColumn, Up1, At;
    MixedBackCirculant();
    assert Circulant(Same);
    MixOfOne();
    InvMixOfMixed();
    CirculantsAgree(MixedBack, Same, c);
  }
}
