/** `vis`: the visual encoding of one byte, and of byte strings (nut/crt/vis.c). */
module Vis {
  import opened Bytes

  /** The flag word, bit by bit. */
  datatype Flags = Flags(octal: bool, cstyle: bool, sp: bool, tab: bool, nl: bool, safe: bool, noslash: bool,
                         httpstyle: bool, glob: bool)

  const BACKSLASH: Byte := 92
  const PERCENT: Byte := 37

  // ---- character classes, in the C locale ----

  predicate IsGraph(c: Byte) { 33 <= c <= 126 }
  predicate IsCntrl(c: Byte) { c < 32 || c == 127 }
  predicate IsDigit(c: Byte) { 48 <= c <= 57 }
  predicate IsAlnum(c: Byte) { IsDigit(c) || 65 <= c <= 90 || 97 <= c <= 122 }
  predicate IsOctal(c: Byte) { 48 <= c <= 55 }

  /** '*', '?', '[' and '#'. */
  predicate IsGlob(c: Byte) { c == 42 || c == 63 || c == 91 || c == 35 }

  /** The unreserved characters of RFC 1808 besides letters and digits: $ - _ . + ! * ' ( ) , */
  predicate IsUriMark(c: Byte)
  {
    || c == 36 || c == 45 || c == 95 || c == 46 || c == 43 || c == 33
    || c == 42 || c == 39 || c == 40 || c == 41 || c == 44
  }

  /** The macro `isvisible`. */
  predicate IsVisible(c: Byte, f: Flags)
  {
    || (c <= 127 && (!IsGlob(c) || !f.glob) && IsGraph(c))
    || (!f.sp && c == 32) || (!f.tab && c == 9) || (!f.nl && c == 10)
    || (f.safe && (c == 8 || c == 7 || c == 13 || IsGraph(c)))
  }

  // ---- the forms ----

  function HexDigit(d: nat): (c: Byte)
    requires d < 16
  {
    if d < 10 then 48 + d else 97 + d - 10
  }

  function HexForm(c: Byte): (s: seq<Byte>) { [PERCENT, HexDigit(c / 16), HexDigit(c % 16)] }

  function OctalForm(c: Byte): (s: seq<Byte>) { [BACKSLASH, 48 + c / 64, 48 + c / 8 % 8, 48 + c % 8] }

  /** The letter of a C-style sequence; 0 where there is none. */
  function CLetter(c: Byte): (l: Byte)
  {
    match c
    case 10 => 110 case 13 => 114 case 8 => 98 case 7 => 97
    case 11 => 118 case 9 => 116 case 12 => 102 case 32 => 115
    case _ => 0
  }

  /** Caret and minus forms, with M for bytes above 127. */
  function MetaForm(c: Byte, f: Flags): (s: seq<Byte>)
  {
    var low := c % 128;
    (if f.noslash then [] else [BACKSLASH])
    + (if c >= 128 then [77] else [])
    + (if IsCntrl(low) then [94, if low == 127 then 63 else low + 64] else [45, low])
  }

  /** `vis`: what is appended for the byte c when nextc follows it. */
  function VisByte(c: Byte, f: Flags, nextc: Byte): (s: seq<Byte>)
    ensures 1 <= |s| <= 4
  {
    if f.httpstyle && !(IsAlnum(c) || IsUriMark(c)) then HexForm(c)
    else if IsVisible(c, f) then (if c == BACKSLASH && !f.noslash then [c, BACKSLASH] else [c])
    else if f.cstyle && CLetter(c) != 0 then [BACKSLASH, CLetter(c)]
    else if f.cstyle && c == 0 then (if IsOctal(nextc) then [BACKSLASH, 48, 48, 48] else [BACKSLASH, 48])
    else if c % 128 == 32 || f.octal || (f.glob && IsGlob(c)) then OctalForm(c)
    else MetaForm(c, f)
  }

  // ---- strings ----

  /** The byte after position i; the end of a buffer counts as NUL, like the end of a C string. */
  function Next(s: seq<Byte>, i: nat): (c: Byte)
    requires i < |s|
  {
    if i + 1 < |s| then s[i + 1] else 0
  }

  /** The encodings of the bytes from position i on. */
  function EncodeFrom(s: seq<Byte>, f: Flags, i: nat): (e: seq<Byte>)
    requires i <= |s|
    ensures |e| <= 4 * (|s| - i)
    decreases |s| - i
  {
    if i == |s| then [] else VisByte(s[i], f, Next(s, i)) + EncodeFrom(s, f, i + 1)
  }

  function Encode(s: seq<Byte>, f: Flags): (e: seq<Byte>)
    ensures |e| <= 4 * |s|
  {
    EncodeFrom(s, f, 0)
  }

  /** The encodings of the first k bytes. */
  function EncodeUpTo(s: seq<Byte>, f: Flags, k: nat): (e: seq<Byte>)
    requires k <= |s|
  {
    if k == 0 then [] else EncodeUpTo(s, f, k - 1) + VisByte(s[k - 1], f, Next(s, k - 1))
  }

  /** A cut between two bytes is a cut between two encodings. */
  lemma {:induction false} EncodeCut(s: seq<Byte>, f: Flags, k: nat)
    requires k <= |s|
    ensures Encode(s, f) == EncodeUpTo(s, f, k) + EncodeFrom(s, f, k)
  {
    hide VisByte;
    if k > 0 {
      EncodeCut(s, f, k - 1);
      assert EncodeFrom(s, f, k - 1) == VisByte(s[k - 1], f, Next(s, k - 1)) + EncodeFrom(s, f, k);
    }
  }

  /** A C string: no NUL among its characters. */
  predicate NoNul(s: seq<Byte>) { forall i :: 0 <= i < |s| ==> s[i] != 0 }

  /** `strvis`: reads up to the terminating NUL. */
  method StrVis(src: seq<Byte>, f: Flags) returns (dst: seq<Byte>)
    requires NoNul(src)
    ensures dst == Encode(src, f) && |dst| <= 4 * |src|
  {
    hide VisByte;
    var i := 0;
    dst := [];
    while i < |src|
      invariant 0 <= i <= |src| && dst == EncodeUpTo(src, f, i)
    {
      var c := src[i];
      i := i + 1;
      dst := dst + VisByte(c, f, if i < |src| then src[i] else 0);
    }
    EncodeCut(src, f, |src|);
  }

  /** `strvisx`: any len bytes; the last one is encoded as if NUL followed. */
  method StrVisx(src: seq<Byte>, f: Flags) returns (dst: seq<Byte>)
    ensures dst == Encode(src, f) && |dst| <= 4 * |src|
  {
    hide VisByte;
    var i, len := 0, |src|;
    dst := [];
    while len > 1
      invariant 0 <= i <= |src| && len == |src| - i && (|src| > 0 ==> len >= 1) && dst == EncodeUpTo(src, f, i)
    {
      dst := dst + VisByte(src[i], f, src[i + 1]);
      i, len := i + 1, len - 1;
    }
    if len > 0 {
      dst := dst + VisByte(src[i], f, 0);
      i := i + 1;
    }
    EncodeCut(src, f, |src|);
  }
}
