/** `unvis`: the decoder's state machine, strings, and the round trip with `vis` (nut/crt/unvis.c). */
module Unvis {
  import opened Bytes
  import opened Vis

  /** The nine states. */
  datatype State = Ground | Start | Meta | Meta1 | Ctrl | Octal2 | Octal3 | Hex1 | Hex2

  /** What one call of `unvis` reports: 0, UNVIS_VALID, UNVIS_VALIDPUSH, UNVIS_NOCHAR or UNVIS_SYNBAD. */
  datatype Code = More | Valid | ValidPush | NoChar | SynBad

  /** The result of a call: code, new state, and the character cell. */
  datatype Out = Out(code: Code, state: State, cell: Byte)

  predicate IsXDigit(c: Byte) { IsDigit(c) || 65 <= c <= 70 || 97 <= c <= 102 }

  /** The macro `xtod`. */
  function XtoD(c: Byte): (d: nat)
    requires IsXDigit(c)
    ensures d < 16
  {
    if IsDigit(c) then c - 48 else if c >= 97 then c - 97 + 10 else c - 65 + 10
  }

  /** `*cp |= v`, where the cell is 0 or 0200. */
  function OrInto(cell: Byte, v: Byte): (r: Byte) { if cell >= 128 && v < 128 then v + 128 else v }

  /** The character of a simple escape; None for those that are not. */
  function Simple(c: Byte): (r: int)
    ensures -1 <= r < 256
  {
    match c
    case 92 => 92 case 110 => 10 case 114 => 13 case 98 => 8 case 97 => 7
    case 118 => 11 case 116 => 9 case 102 => 12 case 115 => 32 case 69 => 27
    case _ => -1
  }

  /** `unvis` for one character, not at the end of the input. */
  function Step(c: Byte, st: State, cell: Byte, http: bool): (o: Out)
  {
    match st
    case Ground =>
      if c == BACKSLASH then Out(More, Start, 0)
      else if http && c == PERCENT then Out(More, Hex1, 0)
      else Out(Valid, Ground, c)
    case Start =>
      if Simple(c) >= 0 then Out(Valid, Ground, Simple(c))
      else if IsOctal(c) then Out(More, Octal2, c - 48)
      else if c == 77 then Out(More, Meta, 128)
      else if c == 94 then Out(More, Ctrl, cell)
      else if c == 10 || c == 36 then Out(NoChar, Ground, cell)
      else Out(SynBad, Ground, cell)
    case Meta =>
      if c == 45 then Out(More, Meta1, cell)
      else if c == 94 then Out(More, Ctrl, cell)
      else Out(SynBad, Ground, cell)
    case Meta1 => Out(Valid, Ground, OrInto(cell, c))
    case Ctrl => Out(Valid, Ground, OrInto(cell, if c == 63 then 127 else c % 32))
    case Octal2 =>
      if IsOctal(c) then Out(More, Octal3, (cell * 8 + (c - 48)) % 256) else Out(ValidPush, Ground, cell)
    case Octal3 =>
      if IsOctal(c) then Out(Valid, Ground, (cell * 8 + (c - 48)) % 256) else Out(ValidPush, Ground, cell)
    case Hex1 =>
      if IsXDigit(c) then Out(More, Hex2, XtoD(c)) else Out(ValidPush, Ground, cell)
    case Hex2 =>
      if IsXDigit(c) then Out(Valid, Ground, cell * 16 % 256 + XtoD(c)) else Out(ValidPush, Ground, cell)
  }

  /** `unvis` with UNVIS_END. */
  function End(st: State, cell: Byte): (o: Out)
  {
    if st == Octal2 || st == Octal3 || st == Hex2 then Out(Valid, Ground, cell)
    else if st == Ground then Out(NoChar, Ground, cell)
    else Out(SynBad, st, cell)
  }

  datatype Result = Ok(bytes: seq<Byte>) | Bad

  function Prepend(b: Byte, r: Result): (r': Result) { if r.Ok? then Ok([b] + r.bytes) else Bad }

  /** Everything `strunvisx` produces from the characters left, from a given state. */
  function Decode(s: seq<Byte>, st: State, cell: Byte, http: bool): (r: Result)
    decreases |s|, if st == Ground then 0 else 1
  {
    if s == [] then (if End(st, cell).code == Valid then Ok([cell]) else Ok([]))
    else
      var o := Step(s[0], st, cell, http);
      match o.code
      case Valid => Prepend(o.cell, Decode(s[1..], o.state, 0, http))
      case ValidPush => Prepend(o.cell, Decode(s, o.state, 0, http))
      case More => Decode(s[1..], o.state, o.cell, http)
      case NoChar => Decode(s[1..], o.state, o.cell, http)
      case SynBad => Bad
  }

  // ---- each form decodes to its byte ----

  /** Following the machine through the first character. */
  lemma First(e: seq<Byte>, rest: seq<Byte>, st: State, cell: Byte, http: bool)
    requires |e| >= 1
    ensures var o := Step(e[0], st, cell, http);
            Decode(e + rest, st, cell, http)
            == match o.code
               case Valid => Prepend(o.cell, Decode(e[1..] + rest, o.state, 0, http))
               case ValidPush => Prepend(o.cell, Decode(e + rest, o.state, 0, http))
               case More => Decode(e[1..] + rest, o.state, o.cell, http)
               case NoChar => Decode(e[1..] + rest, o.state, o.cell, http)
               case SynBad => Bad
  {
    hide Step;
    assert (e + rest)[0] == e[0] && (e + rest)[1..] == e[1..] + rest;
  }

  /** e decodes to the single byte c, whatever follows. */
  ghost predicate DecodesTo(e: seq<Byte>, c: Byte, rest: seq<Byte>, http: bool)
  {
    Decode(e + rest, Ground, 0, http) == Prepend(c, Decode(rest, Ground, 0, http))
  }

  lemma PlainDecodes(c: Byte, rest: seq<Byte>, http: bool)
    requires c != BACKSLASH && !(http && c == PERCENT)
    ensures DecodesTo([c], c, rest, http)
  {
    hide Decode;
    First([c], rest, Ground, 0, http);
    assert [c][1..] + rest == rest;
  }

  lemma EscapeDecodes(l: Byte, rest: seq<Byte>, http: bool)
    requires Simple(l) >= 0
    ensures DecodesTo([BACKSLASH, l], Simple(l), rest, http)
  {
    hide Decode;
    var e := [BACKSLASH, l];
    First(e, rest, Ground, 0, http);
    assert e[1..] == [l];
    First([l], rest, Start, 0, http);
    assert [l][1..] + rest == rest;
  }

  lemma OctalDecodes(d1: nat, d2: nat, d3: nat, rest: seq<Byte>, http: bool)
    requires d1 < 4 && d2 < 8 && d3 < 8
    ensures DecodesTo([BACKSLASH, 48 + d1, 48 + d2, 48 + d3], 64 * d1 + 8 * d2 + d3, rest, http)
  {
    hide Decode;
    var e: seq<Byte> := [BACKSLASH, 48 + d1, 48 + d2, 48 + d3];
    First(e, rest, Ground, 0, http);
    var e1: seq<Byte> := [48 + d1, 48 + d2, 48 + d3];
    assert e[1..] == e1;
    First(e1, rest, Start, 0, http);
    var e2: seq<Byte> := [48 + d2, 48 + d3];
    assert e1[1..] == e2;
    First(e2, rest, Octal2, d1, http);
    var e3: seq<Byte> := [48 + d3];
    assert e2[1..] == e3;
    First(e3, rest, Octal3, 8 * d1 + d2, http);
    assert e3[1..] + rest == rest;
  }

  /** The short form of NUL is complete when no octal digit follows. */
  lemma ShortNulDecodes(rest: seq<Byte>, http: bool)
    requires rest == [] || !IsOctal(rest[0])
    ensures DecodesTo([BACKSLASH, 48], 0, rest, http)
  {
    var e := [BACKSLASH, 48];
    First(e, rest, Ground, 0, http);
    assert e[1..] == [48];
    First([48], rest, Start, 0, http);
    assert [48][1..] + rest == rest;
    assert Decode(rest, Octal2, 0, http) == Prepend(0, Decode(rest, Ground, 0, http));
  }

  lemma HexDecodes(c: Byte, rest: seq<Byte>)
    ensures DecodesTo(HexForm(c), c, rest, true)
  {
    hide Decode;
    var h, l := HexDigit(c / 16), HexDigit(c % 16);
    var e := HexForm(c);
    First(e, rest, Ground, 0, true);
    assert e[1..] == [h, l];
    First([h, l], rest, Hex1, 0, true);
    assert [h, l][1..] == [l];
    First([l], rest, Hex2, c / 16, true);
    assert [l][1..] + rest == rest;
  }

  /** Caret and minus forms: the tail after the backslash and the M. */
  lemma TailDecodes(low: Byte, st: State, cell: Byte, rest: seq<Byte>, http: bool)
    requires low < 128 && ((st == Start && cell == 0 && IsCntrl(low)) || (st == Meta && cell == 128))
    ensures var e: seq<Byte> := if IsCntrl(low) then [94, if low == 127 then 63 else low + 64] else [45, low];
            Decode(e + rest, st, cell, http) == Prepend(cell + low, Decode(rest, Ground, 0, http))
  {
    hide Decode;
    if IsCntrl(low) {
      var x: Byte := if low == 127 then 63 else low + 64;
      var e := [94, x];
      First(e, rest, st, cell, http);
      assert e[1..] == [x];
      First([x], rest, Ctrl, cell, http);
      assert [x][1..] + rest == rest;
    } else {
      var e := [45, low];
      First(e, rest, st, cell, http);
      assert e[1..] == [low];
      First([low], rest, Meta1, cell, http);
      assert [low][1..] + rest == rest;
    }
  }

  lemma MetaDecodes(c: Byte, f: Flags, rest: seq<Byte>, http: bool)
    requires !f.noslash && (c >= 128 || IsCntrl(c))
    ensures DecodesTo(MetaForm(c, f), c, rest, http)
  {
    hide Decode;
    var low: Byte := c % 128;
    var tail: seq<Byte> := if IsCntrl(low) then [94, if low == 127 then 63 else low + 64] else [45, low];
    var e := MetaForm(c, f);
    First(e, rest, Ground, 0, http);
    if c >= 128 {
      assert e[1..] == [77] + tail;
      First([77] + tail, rest, Start, 0, http);
      assert ([77] + tail)[1..] == tail;
      TailDecodes(low, Meta, 128, rest, http);
    } else {
      assert e[1..] == tail;
      TailDecodes(low, Start, 0, rest, http);
    }
  }

  /** What follows the encoding of c cannot be taken for a further octal digit of it. */
  ghost predicate Separated(nextc: Byte, rest: seq<Byte>)
  {
    IsOctal(nextc) || rest == [] || !IsOctal(rest[0])
  }

  /** Every encoding decodes to its byte: all flags but VIS_NOSLASH, decoding with VIS_HTTPSTYLE
      exactly when it was used to encode. */
  lemma VisByteDecodes(c: Byte, f: Flags, nextc: Byte, rest: seq<Byte>)
    requires !f.noslash && Separated(nextc, rest)
    ensures DecodesTo(VisByte(c, f, nextc), c, rest, f.httpstyle)
  {
    hide Decode, DecodesTo;
    var http := f.httpstyle;
    if f.httpstyle && !(IsAlnum(c) || IsUriMark(c)) {
      HexDecodes(c, rest);
    } else if IsVisible(c, f) {
      if c == BACKSLASH { EscapeDecodes(BACKSLASH, rest, http); } else { PlainDecodes(c, rest, http); }
    } else if f.cstyle && CLetter(c) != 0 {
      EscapeDecodes(CLetter(c), rest, http);
    } else if f.cstyle && c == 0 {
      if IsOctal(nextc) { OctalDecodes(0, 0, 0, rest, http); } else { ShortNulDecodes(rest, http); }
    } else if c % 128 == 32 || f.octal || (f.glob && IsGlob(c)) {
      OctalDecodes(c / 64, c / 8 % 8, c % 8, rest, http);
    } else {
      MetaDecodes(c, f, rest, http);
    }
  }

  /** An encoding starts with an octal digit only if the byte is that digit. */
  lemma FirstCharacter(c: Byte, f: Flags, nextc: Byte)
    requires !f.noslash
    ensures IsOctal(VisByte(c, f, nextc)[0]) ==> IsOctal(c)
  {
  }

  lemma {:induction false} DecodeEncoded(s: seq<Byte>, f: Flags, i: nat)
    requires !f.noslash && i <= |s|
    ensures Decode(EncodeFrom(s, f, i), Ground, 0, f.httpstyle) == Ok(s[i..])
    decreases |s| - i
  {
    hide VisByte, Decode;
    if i == |s| {
      NothingDecodes(f.httpstyle);
    } else {
      var rest := EncodeFrom(s, f, i + 1);
      DecodeEncoded(s, f, i + 1);
      if i + 1 < |s| { FirstCharacter(s[i + 1], f, Next(s, i + 1)); }
      VisByteDecodes(s[i], f, Next(s, i), rest);
      assert s[i..] == [s[i]] + s[i + 1..];
    }
  }

  lemma NothingDecodes(http: bool)
    ensures Decode([], Ground, 0, http) == Ok([])
  {
  }

  // ---- strings ----

  /** `strunvisx`. The flag VIS_OCTAL has the value of UNVIS_END, so with it every character is taken
      for the end of the input and nothing is produced. */
  method StrUnvisx(src: seq<Byte>, f: Flags) returns (r: Result)
    requires NoNul(src)
    ensures r == if f.octal then Ok([]) else Decode(src, Ground, 0, f.httpstyle)
  {
    hide Step, Decode;
    var dst: seq<Byte>, st, cell: Byte, i := [], Ground, 0, 0;
    ghost var whole := Decode(src, Ground, 0, f.httpstyle);
    assert src[0..] == src;
    while i < |src|
      invariant 0 <= i <= |src|
      invariant f.octal ==> st == Ground && dst == []
      invariant !f.octal ==> whole == Joined(dst, Decode(src[i..], st, cell, f.httpstyle))
      decreases |src| - i, if st == Ground then 0 else 1
    {
      var c := src[i];
      var o := if f.octal then End(st, cell) else Step(c, st, cell, f.httpstyle);
      DecodeAt(src, i, st, cell, f.httpstyle);
      PushLeavesState(c, st, cell, f.httpstyle);
      st := o.state;
      match o.code
      case Valid =>
        dst, cell, i := dst + [o.cell], 0, i + 1;
      case ValidPush =>
        dst, cell := dst + [o.cell], 0;
      case More =>
        cell, i := o.cell, i + 1;
      case NoChar =>
        cell, i := o.cell, i + 1;
      case SynBad =>
        return Bad;
    }
    DecodeEnd(st, cell, f.httpstyle);
    assert src[i..] == [];
    if End(st, cell).code == Valid {
      dst := dst + [cell];
    }
    return Ok(dst);
  }

  lemma DecodeEnd(st: State, cell: Byte, http: bool)
    ensures Decode([], st, cell, http) == if End(st, cell).code == Valid then Ok([cell]) else Ok([])
  {
  }

  /** One character of the input, in place. */
  lemma DecodeAt(src: seq<Byte>, i: nat, st: State, cell: Byte, http: bool)
    requires i < |src|
    ensures var o := Step(src[i], st, cell, http);
            Decode(src[i..], st, cell, http)
            == match o.code
               case Valid => Prepend(o.cell, Decode(src[i + 1..], o.state, 0, http))
               case ValidPush => Prepend(o.cell, Decode(src[i..], o.state, 0, http))
               case More => Decode(src[i + 1..], o.state, o.cell, http)
               case NoChar => Decode(src[i + 1..], o.state, o.cell, http)
               case SynBad => Bad
  {
    hide Step;
    assert src[i..][0] == src[i] && src[i..][1..] == src[i + 1..];
  }

  lemma PushLeavesState(c: Byte, st: State, cell: Byte, http: bool)
    ensures Step(c, st, cell, http).code == ValidPush ==> st != Ground && Step(c, st, cell, http).state == Ground
  {
  }

  /** Bytes already produced, then the rest. */
  function Joined(done: seq<Byte>, r: Result): (r': Result) { if r.Ok? then Ok(done + r.bytes) else Bad }

  /** `strunvisx` after `strvis` or `strvisx` gives back every byte string. */
  lemma RoundTrip(s: seq<Byte>, f: Flags)
    requires !f.noslash
    ensures Decode(Encode(s, f), Ground, 0, f.httpstyle) == Ok(s)
  {
    DecodeEncoded(s, f, 0);
    assert s[0..] == s;
  }

  /** An encoding contains no NUL, so that it is itself a C string. */
  lemma {:induction false} EncodedNoNul(s: seq<Byte>, f: Flags, i: nat)
    requires i <= |s| && !f.noslash
    ensures NoNul(EncodeFrom(s, f, i))
    decreases |s| - i
  {
    hide VisByte;
    if i < |s| {
      EncodedNoNul(s, f, i + 1);
      VisByteNoNul(s[i], f, Next(s, i));
    }
  }

  lemma VisByteNoNul(c: Byte, f: Flags, nextc: Byte)
    requires !f.noslash
    ensures NoNul(VisByte(c, f, nextc))
  {
  }

  /** Encoding and decoding through the two functions; the decoding flags carry only VIS_HTTPSTYLE. */
  method EncodeThenDecode(s: seq<Byte>, f: Flags) returns (r: Result)
    requires !f.noslash
    ensures r == Ok(s)
  {
    var e := StrVisx(s, f);
    EncodedNoNul(s, f, 0);
    r := StrUnvisx(e, Flags(false, false, false, false, false, false, false, f.httpstyle, false));
    RoundTrip(s, f);
  }

  /** Decoding with the flags of an octal encoding gives the empty string instead. */
  method OctalFlagDecodesNothing(s: seq<Byte>, f: Flags) returns (r: Result)
    requires !f.noslash && f.octal
    ensures r == Ok([])
  {
    var e := StrVisx(s, f);
    EncodedNoNul(s, f, 0);
    r := StrUnvisx(e, f);
  }
}
