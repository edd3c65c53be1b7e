/** What visual encodings look like, said of their characters: which of them can appear, which bytes stand
    for themselves, and the exact form of every escape. */
module VisShape {
  import opened Bytes
  import opened Vis
  import opened VisBuffers

  // ---- which bytes stand for themselves ----

  /** Printable ASCII, blanks that no flag asks to encode, and with VIS_SAFE bell, backspace and return. */
  predicate Showable(c: Byte, f: Flags)
  {
    || 33 <= c <= 126 || (c == 32 && !f.sp) || (c == 9 && !f.tab) || (c == 10 && !f.nl)
    || (f.safe && (c == 7 || c == 8 || c == 13))
  }

  /** A pattern character that VIS_GLOB asks to encode; VIS_SAFE takes precedence. */
  predicate Globbed(c: Byte, f: Flags) { f.glob && !f.safe && (c == 42 || c == 63 || c == 91 || c == 35) }

  /** A byte that must be encoded in a URI: not a letter, a digit, or one of $ - _ . + ! * ' ( ) , */
  predicate Reserved(c: Byte)
  {
    !(48 <= c <= 57 || 65 <= c <= 90 || 97 <= c <= 122
      || c in [36, 45, 95, 46, 43, 33, 42, 39, 40, 41, 44])
  }

  /** Without VIS_HTTPSTYLE a byte stands for itself, or doubled if it is a backslash, exactly when it is
      showable and no pattern character. */
  lemma RawExactly(c: Byte, f: Flags, nextc: Byte)
    requires !f.httpstyle
    ensures VisByte(c, f, nextc) == (if c == 92 && !f.noslash then [92, 92] else [c])
            <==> Showable(c, f) && !Globbed(c, f)
  {
  }

  /** With VIS_HTTPSTYLE a byte is written as % and two hexadecimal digits exactly when it is reserved. */
  lemma HexExactly(c: Byte, f: Flags, nextc: Byte)
    requires f.httpstyle
    ensures var e := VisByte(c, f, nextc);
            (|e| == 3 && e[0] == 37 && HexValue(e[1]) * 16 + HexValue(e[2]) == c) <==> Reserved(c)
  {
  }

  /** What a lower-case hexadecimal digit stands for. */
  function HexValue(c: Byte): (v: int) { if 48 <= c <= 57 then c - 48 else if 97 <= c <= 102 then c - 87 else 1000 }

  // ---- the escapes ----

  /** A backslash and three octal digits. */
  predicate IsOctalOf(e: seq<Byte>, c: Byte)
  {
    && |e| == 4 && e[0] == 92 && (forall i :: 1 <= i < 4 ==> 48 <= e[i] <= 55)
    && (e[1] as int - 48) * 64 + (e[2] as int - 48) * 8 + (e[3] as int - 48) == c
  }

  /** With VIS_OCTAL and without VIS_CSTYLE and VIS_HTTPSTYLE every escape is octal. */
  lemma OctalEscapes(c: Byte, f: Flags, nextc: Byte)
    requires f.octal && !f.cstyle && !f.httpstyle && !(Showable(c, f) && !Globbed(c, f))
    ensures IsOctalOf(VisByte(c, f, nextc), c)
  {
    OctalDigits(c);
  }

  lemma OctalDigits(c: Byte)
    ensures IsOctalOf(OctalForm(c), c)
  {
    assert c == c / 64 * 64 + c / 8 % 8 * 8 + c % 8;
  }

  /** The letters of the C-style sequences: newline, return, backspace, bell, vertical tab, tab, form feed
      and blank. */
  const C_LETTERS: map<int, Byte> :=
    map[10 := 110, 13 := 114, 8 := 98, 7 := 97, 11 := 118, 9 := 116, 12 := 102, 32 := 115]

  /** With VIS_CSTYLE these eight are written with their letter, and NUL as \\0, or \\000 before an octal digit. */
  lemma CEscapes(c: Byte, f: Flags, nextc: Byte)
    requires f.cstyle && !f.httpstyle && !(Showable(c, f) && !Globbed(c, f))
    ensures c in C_LETTERS ==> VisByte(c, f, nextc) == [92, C_LETTERS[c]]
    ensures c == 0 ==> VisByte(c, f, nextc) == if 48 <= nextc <= 55 then [92, 48, 48, 48] else [92, 48]
  {
  }

  /** In the default form blanks and pattern characters are octal, controls take a caret, DEL is \\^? and bytes
      above 127 take M. */
  lemma MetaEscapes(c: Byte, f: Flags, nextc: Byte)
    requires !f.octal && !f.cstyle && !f.httpstyle && !f.noslash && !(Showable(c, f) && !Globbed(c, f))
    ensures var e := VisByte(c, f, nextc);
            if c == 32 || c == 160 || Globbed(c, f) then IsOctalOf(e, c)
            else if c < 32 then e == [92, 94, c + 64]
            else if c == 127 then e == [92, 94, 63]
            else if c < 160 then e == [92, 77, 94, c - 64]
            else if c == 255 then e == [92, 77, 94, 63]
            else e == [92, 77, 45, c - 128]
  {
    hide VisByte, OctalForm, MetaForm, IsOctalOf;
    OctalDigits(c);
    EscapeKind(c, f, nextc);
    if !(c == 32 || c == 160 || Globbed(c, f)) { MetaFormIs(c, f); }
  }

  lemma EscapeKind(c: Byte, f: Flags, nextc: Byte)
    requires !f.octal && !f.cstyle && !f.httpstyle && !(Showable(c, f) && !Globbed(c, f))
    ensures VisByte(c, f, nextc) == if c == 32 || c == 160 || Globbed(c, f) then OctalForm(c) else MetaForm(c, f)
  {
    hide OctalForm, MetaForm;
  }

  lemma MetaFormIs(c: Byte, f: Flags)
    requires !f.noslash && (c < 32 || c >= 127) && c != 160
    ensures MetaForm(c, f) == if c < 32 then [92, 94, c + 64]
                              else if c == 127 then [92, 94, 63]
                              else if c < 160 then [92, 77, 94, c - 64]
                              else if c == 255 then [92, 77, 94, 63]
                              else [92, 77, 45, c - 128]
  {
  }

  /** VIS_HTTPSTYLE makes no difference to a byte that is not reserved, and VIS_CSTYLE none to a byte without a
      sequence of its own. */
  lemma FlagsApart(c: Byte, f: Flags, nextc: Byte)
    ensures f.httpstyle && !Reserved(c) ==> VisByte(c, f, nextc) == VisByte(c, f.(httpstyle := false), nextc)
    ensures f.cstyle && !f.httpstyle && c !in C_LETTERS && c != 0 ==>
      VisByte(c, f, nextc) == VisByte(c, f.(cstyle := false), nextc)
  {
    hide OctalForm, MetaForm, HexForm;
    assert MetaForm(c, f) == MetaForm(c, f.(cstyle := false)) == MetaForm(c, f.(httpstyle := false)) by {
      MetaFlags(c, f);
    }
  }

  lemma MetaFlags(c: Byte, f: Flags)
    ensures MetaForm(c, f) == MetaForm(c, f.(cstyle := false)) == MetaForm(c, f.(httpstyle := false))
    ensures f.noslash ==> [92] + MetaForm(c, f) == MetaForm(c, f.(noslash := false))
  {
  }

  /** VIS_NOSLASH only drops the backslash of control and meta forms. */
  lemma SlashApart(c: Byte, f: Flags, nextc: Byte)
    requires f.noslash && !f.octal && !f.cstyle && !f.httpstyle && c != 32 && c != 160 && !Showable(c, f)
    ensures [92] + VisByte(c, f, nextc) == VisByte(c, f.(noslash := false), nextc)
  {
    hide VisByte, MetaForm, OctalForm;
    EscapeKind(c, f, nextc);
    EscapeKind(c, f.(noslash := false), nextc);
    MetaFlags(c, f);
  }

  // ---- whole strings ----

  /** Every character of an encoding is showable, whatever the bytes and the flags. */
  lemma {:induction false} EncodingShows(s: seq<Byte>, f: Flags, i: nat, j: nat)
    requires i <= |s| && j < |EncodeFrom(s, f, i)|
    ensures Showable(EncodeFrom(s, f, i)[j], f)
    decreases |s| - i
  {
    hide VisByte, Showable;
    if i < |s| {
      var e := VisByte(s[i], f, Next(s, i));
      if j < |e| { FormShows(s[i], f, Next(s, i), j); } else { EncodingShows(s, f, i + 1, j - |e|); }
    }
  }

  lemma FormShows(c: Byte, f: Flags, nextc: Byte, j: nat)
    requires j < |VisByte(c, f, nextc)|
    ensures Showable(VisByte(c, f, nextc)[j], f)
  {
  }

  /** A pattern character appears under VIS_GLOB, without VIS_SAFE, VIS_HTTPSTYLE and VIS_NOSLASH, only inside an
      escape: as the question mark of \\^? or behind \\M-. */
  lemma GlobEscaped(c: Byte, f: Flags, nextc: Byte, j: nat)
    requires f.glob && !f.safe && !f.httpstyle && !f.noslash && j < |VisByte(c, f, nextc)|
    requires Globbed(VisByte(c, f, nextc)[j], f)
    ensures VisByte(c, f, nextc)[0] == 92 && j >= 2
  {
  }

  /** A character of a URI encoding. */
  predicate UriCharacter(c: Byte) { !Reserved(c) || c == 37 }

  ghost predicate AllUri(e: seq<Byte>) { forall j :: 0 <= j < |e| ==> UriCharacter(e[j]) }

  lemma AllUriConcat(a: seq<Byte>, b: seq<Byte>)
    ensures AllUri(a + b) <==> AllUri(a) && AllUri(b)
  {
    hide UriCharacter;
    if AllUri(a + b) {
      forall j | 0 <= j < |a|
        ensures UriCharacter(a[j])
      {
        assert (a + b)[j] == a[j];
      }
      forall j | 0 <= j < |b|
        ensures UriCharacter(b[j])
      {
        assert (a + b)[|a| + j] == b[j];
      }
    }
  }

  /** Under VIS_HTTPSTYLE only these appear, unless VIS_GLOB makes an escape of an asterisk. */
  lemma {:induction false} UriEncoding(s: seq<Byte>, f: Flags, i: nat)
    requires f.httpstyle && i <= |s|
    ensures AllUri(EncodeFrom(s, f, i)) <==> !(f.glob && !f.safe && 42 in s[i..])
    decreases |s| - i
  {
    hide VisByte, UriCharacter;
    if i < |s| {
      UriEncoding(s, f, i + 1);
      UriForm(s[i], f, Next(s, i));
      AllUriConcat(VisByte(s[i], f, Next(s, i)), EncodeFrom(s, f, i + 1));
      assert s[i..] == [s[i]] + s[i + 1..];
    }
  }

  lemma UriForm(c: Byte, f: Flags, nextc: Byte)
    requires f.httpstyle
    ensures AllUri(VisByte(c, f, nextc)) <==> !(f.glob && !f.safe && c == 42)
  {
    if f.glob && !f.safe && c == 42 { assert VisByte(c, f, nextc)[0] == 92; }
  }

  // ---- strnvis ----

  /** The forms of `strnvis` are showable too. */
  lemma {:induction false} PrefixShows(s: seq<Byte>, f: Flags, k: nat, j: nat)
    requires k <= |s| && j < |ShortUpTo(s, f, k)|
    ensures Showable(ShortUpTo(s, f, k)[j], f)
  {
    hide VisByte, Showable, IsVisible;
    if k > 0 {
      var before := ShortUpTo(s, f, k - 1);
      if j < |before| {
        PrefixShows(s, f, k - 1, j);
      } else {
        ShortShows(s[k - 1], f, Next(s, k - 1), j - |before|);
      }
    }
  }

  lemma ShortShows(c: Byte, f: Flags, nextc: Byte, j: nat)
    requires j < |ShortForm(c, f, nextc)|
    ensures Showable(ShortForm(c, f, nextc)[j], f)
  {
    hide VisByte;
    if !IsVisible(c, f) { FormShows(c, f, nextc, j); }
  }
}
