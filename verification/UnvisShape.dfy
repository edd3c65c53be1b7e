/** What the decoder accepts, said of characters: every sequence after a backslash or a percent sign, also those
    that the encoder never writes. */
module UnvisShape {
  import opened Bytes
  import opened Unvis

  /** The letters that stand for one character: backslash, newline, return, backspace, bell, vertical tab, tab,
      form feed, blank and escape. */
  const LETTERS: map<int, Byte> :=
    map[92 := 92, 110 := 10, 114 := 13, 98 := 8, 97 := 7, 118 := 11, 116 := 9, 102 := 12, 115 := 32, 69 := 27]

  /** The character behind a backslash decides: a letter of the table, a hidden newline or marker, the start of an
      octal, control or meta sequence, and otherwise an error. */
  lemma Escapes(l: Byte, rest: seq<Byte>, http: bool)
    ensures l in LETTERS ==> DecodesTo([92, l], LETTERS[l], rest, http)
    ensures l == 10 || l == 36 ==> Decode([92, l] + rest, Ground, 0, http) == Decode(rest, Ground, 0, http)
    ensures l !in LETTERS && !(48 <= l <= 55) && l != 10 && l != 36 && l != 77 && l != 94 ==>
      Decode([92, l] + rest, Ground, 0, http) == Bad
  {
    hide Decode;
    First([92, l], rest, Ground, 0, http);
    assert [92, l][1..] == [l];
    First([l], rest, Start, 0, http);
    assert [l][1..] + rest == rest;
  }

  /** Any other character stands for itself. */
  lemma Plain(c: Byte, rest: seq<Byte>, http: bool)
    requires c != 92 && !(http && c == 37)
    ensures DecodesTo([c], c, rest, http)
  {
    PlainDecodes(c, rest, http);
  }

  /** One to three octal digits, modulo 256; fewer than three end where no octal digit follows. */
  lemma Octals(d1: nat, d2: nat, d3: nat, rest: seq<Byte>, http: bool)
    requires d1 < 8 && d2 < 8 && d3 < 8
    ensures DecodesTo([92, 48 + d1, 48 + d2, 48 + d3], (64 * d1 + 8 * d2 + d3) % 256, rest, http)
    ensures rest == [] || !(48 <= rest[0] <= 55) ==>
      DecodesTo([92, 48 + d1], d1, rest, http) && DecodesTo([92, 48 + d1, 48 + d2], 8 * d1 + d2, rest, http)
  {
    hide Decode;
    var e: seq<Byte> := [48 + d1, 48 + d2, 48 + d3];
    First([92] + e, rest, Ground, 0, http);
    assert [92] + e == [92, 48 + d1, 48 + d2, 48 + d3] && ([92] + e)[1..] == e;
    First(e, rest, Start, 0, http);
    assert e[1..] == [48 + d2, 48 + d3];
    First([48 + d2, 48 + d3], rest, Octal2, d1, http);
    assert [48 + d2, 48 + d3][1..] == [48 + d3];
    First([48 + d3], rest, Octal3, 8 * d1 + d2, http);
    assert [48 + d3][1..] + rest == rest;
    if rest == [] || !(48 <= rest[0] <= 55) { ShortOctals(d1, d2, rest, http); }
  }

  lemma ShortOctals(d1: nat, d2: nat, rest: seq<Byte>, http: bool)
    requires d1 < 8 && d2 < 8 && (rest == [] || !(48 <= rest[0] <= 55))
    ensures DecodesTo([92, 48 + d1], d1, rest, http) && DecodesTo([92, 48 + d1, 48 + d2], 8 * d1 + d2, rest, http)
  {
    hide Decode;
    var one: seq<Byte>, two: seq<Byte> := [48 + d1], [48 + d1, 48 + d2];
    Pushed(rest, Octal2, d1, http);
    Pushed(rest, Octal3, 8 * d1 + d2, http);
    First([92] + one, rest, Ground, 0, http);
    assert [92] + one == [92, 48 + d1] && ([92] + one)[1..] == one;
    First(one, rest, Start, 0, http);
    assert one[1..] + rest == rest;
    First([92] + two, rest, Ground, 0, http);
    assert [92] + two == [92, 48 + d1, 48 + d2] && ([92] + two)[1..] == two;
    First(two, rest, Start, 0, http);
    assert two[1..] == [48 + d2];
    First([48 + d2], rest, Octal2, d1, http);
    assert [48 + d2][1..] + rest == rest;
  }

  /** A sequence that ends early gives its character and leaves the next one to be read again. */
  lemma Pushed(rest: seq<Byte>, st: State, cell: Byte, http: bool)
    requires st == Octal2 || st == Octal3
    requires rest == [] || !(48 <= rest[0] <= 55)
    ensures Decode(rest, st, cell, http) == Prepend(cell, Decode(rest, Ground, 0, http))
  {
  }

  /** Control characters by their low five bits or a question mark, and meta characters with bit 7 set. */
  lemma ControlAndMeta(x: Byte, rest: seq<Byte>, http: bool)
    ensures DecodesTo([92, 94, x], if x == 63 then 127 else x % 32, rest, http)
    ensures DecodesTo([92, 77, 94, x], if x == 63 then 255 else 128 + x % 32, rest, http)
    ensures DecodesTo([92, 77, 45, x], if x < 128 then 128 + x else x, rest, http)
    ensures x != 45 && x != 94 ==> Decode([92, 77, x] + rest, Ground, 0, http) == Bad
  {
    hide Decode;
    First([92, 94, x], rest, Ground, 0, http);
    assert [92, 94, x][1..] == [94, x];
    First([94, x], rest, Start, 0, http);
    assert [94, x][1..] == [x] && [x][1..] + rest == rest;
    First([x], rest, Ctrl, 0, http);
    First([92, 77, 94, x], rest, Ground, 0, http);
    assert [92, 77, 94, x][1..] == [77, 94, x];
    First([77, 94, x], rest, Start, 0, http);
    assert [77, 94, x][1..] == [94, x];
    First([94, x], rest, Meta, 128, http);
    First([x], rest, Ctrl, 128, http);
    First([92, 77, 45, x], rest, Ground, 0, http);
    assert [92, 77, 45, x][1..] == [77, 45, x];
    First([77, 45, x], rest, Start, 0, http);
    assert [77, 45, x][1..] == [45, x] && [45, x][1..] == [x];
    First([45, x], rest, Meta, 128, http);
    First([x], rest, Meta1, 128, http);
    First([92, 77, x], rest, Ground, 0, http);
    assert [92, 77, x][1..] == [77, x] && [77, x][1..] == [x];
    First([77, x], rest, Start, 0, http);
    First([x], rest, Meta, 128, http);
  }

  /** A hexadecimal digit of either case. */
  predicate IsHex(c: Byte) { 48 <= c <= 57 || 65 <= c <= 70 || 97 <= c <= 102 }

  function HexOf(c: Byte): (v: int) { if c <= 57 then c - 48 else if c <= 70 then c - 55 else c - 87 }

  /** Two of them behind a percent sign, when VIS_HTTPSTYLE is given. */
  lemma Hexadecimal(h: Byte, l: Byte, rest: seq<Byte>)
    requires IsHex(h) && IsHex(l)
    ensures DecodesTo([37, h, l], 16 * HexOf(h) + HexOf(l), rest, true) && DecodesTo([37], 37, [h, l] + rest, false)
  {
    hide Decode;
    First([37, h, l], rest, Ground, 0, true);
    assert [37, h, l][1..] == [h, l];
    First([h, l], rest, Hex1, 0, true);
    assert [h, l][1..] == [l];
    First([l], rest, Hex2, HexOf(h), true);
    assert [l][1..] + rest == rest;
    PlainDecodes(37, [h, l] + rest, false);
  }
}
