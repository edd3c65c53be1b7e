/** `strnvis` and `strnunvis`: the same codings into buffers of limited size. */
module VisBuffers {
  import opened Bytes
  import opened Vis
  import opened Unvis

  /** What `strnvis` writes for a byte: visible ones are copied before VIS_HTTPSTYLE is looked at. */
  function ShortForm(c: Byte, f: Flags, nextc: Byte): (s: seq<Byte>)
    ensures 1 <= |s| <= 4
  {
    if IsVisible(c, f) then (if c == BACKSLASH && !f.noslash then [c, BACKSLASH] else [c]) else VisByte(c, f, nextc)
  }

  /** The forms of the first k bytes. */
  function ShortUpTo(s: seq<Byte>, f: Flags, k: nat): (e: seq<Byte>)
    requires k <= |s|
  {
    if k == 0 then [] else ShortUpTo(s, f, k - 1) + ShortForm(s[k - 1], f, Next(s, k - 1))
  }

  /** A byte that `vis` would encode for a URI and `strnvis` copies. */
  predicate CopiedRaw(c: Byte, f: Flags) { f.httpstyle && IsVisible(c, f) && !IsAlnum(c) && !IsUriMark(c) }

  /** These are exactly the bytes that the two treat differently. */
  lemma FormsDiffer(c: Byte, f: Flags, nextc: Byte)
    ensures ShortForm(c, f, nextc) == VisByte(c, f, nextc) <==> !CopiedRaw(c, f)
  {
  }

  /** Without such bytes, and so always without VIS_HTTPSTYLE, `strnvis` writes the encoding of `strvis`. */
  lemma {:induction false} ShortIsEncoding(s: seq<Byte>, f: Flags, k: nat)
    requires k <= |s| && forall i :: 0 <= i < |s| ==> !CopiedRaw(s[i], f)
    ensures ShortUpTo(s, f, k) == EncodeUpTo(s, f, k)
  {
    hide VisByte, ShortForm;
    if k > 0 {
      ShortIsEncoding(s, f, k - 1);
      FormsDiffer(s[k - 1], f, Next(s, k - 1));
    }
  }

  /** The longest prefix that ends between two forms and leaves room for a NUL in `room` + 1 bytes: how many
      bytes of the source it covers. */
  ghost predicate Fitting(src: seq<Byte>, f: Flags, k: nat, room: int)
  {
    && k <= |src| && |ShortUpTo(src, f, k)| <= room
    && (k < |src| ==> |ShortUpTo(src, f, k + 1)| > room)
  }

  /** Bytes of the buffer from position at on. */
  method CopyIn(dst: array<Byte>, at: nat, bytes: seq<Byte>)
    requires at + |bytes| <= dst.Length
    modifies dst
    ensures dst[..at] == old(dst[..at]) && dst[at..at + |bytes|] == bytes
    ensures dst[at + |bytes|..] == old(dst[at + |bytes|..])
  {
    forall i | 0 <= i < |bytes| { dst[at + i] := bytes[i]; }
  }

  /** One pass of the loop of `strnvis` for source byte k: false when its encoding does not fit. i is
      the length that the final truncation test uses. */
  method CopyOne(dst: array<Byte>, src: seq<Byte>, k: nat, d: nat, end: nat, f: Flags) returns (fits: bool, i: nat)
    requires k < |src| && d < end < dst.Length
    modifies dst
    ensures fits <==> d + |ShortForm(src[k], f, Next(src, k))| <= end
    ensures fits ==> var e := ShortForm(src[k], f, Next(src, k)); dst[..] == old(dst[..d]) + e + old(dst[d + |e|..])
    ensures !fits ==> dst[..d] == old(dst[..d]) && dst[d + 1..] == old(dst[d + 1..]) && d + i > end
    ensures i >= 1
  {
    hide VisByte, IsVisible;
    var c := src[k];
    if IsVisible(c, f) {
      i := 1;
      dst[d] := c;
      if c == BACKSLASH && !f.noslash {
        if d + 1 < end {
          dst[d + 1] := BACKSLASH;
        } else {
          return false, 2;
        }
      }
      fits := true;
    } else {
      var tbuf := VisByte(c, f, if k + 1 < |src| then src[k + 1] else 0);
      i := |tbuf|;
      fits := d + i <= end;
      if fits { CopyIn(dst, d, tbuf); }
    }
  }

  /** The copying loop: stops at the end of the source or of the buffer. k counts source bytes and d
      encoded bytes. */
  method CopyLoop(dst: array<Byte>, src: seq<Byte>, end: int, f: Flags) returns (k: nat, d: nat, i: nat)
    requires NoNul(src) && end < dst.Length
    modifies dst
    ensures k <= |src| && d == |ShortUpTo(src, f, k)| && (d > 0 ==> d <= end) && d <= dst.Length
    ensures dst[..d] == ShortUpTo(src, f, k) && (d < dst.Length ==> dst[d + 1..] == old(dst[d + 1..]))
    ensures k < |src| && end > 0 ==> d + i > end && |ShortUpTo(src, f, k + 1)| > end
    ensures end <= 0 ==> k == 0 && i == 0 && dst[..] == old(dst[..])
  {
    hide VisByte, ShortForm;
    k, d, i := 0, 0, 0;
    while k < |src| && d < end
      invariant k <= |src| && d == |ShortUpTo(src, f, k)| && (d > 0 ==> d <= end) && d <= dst.Length
      invariant dst[..d] == ShortUpTo(src, f, k) && dst[d..] == old(dst[d..])
      invariant (k > 0 ==> i >= 1) && (end <= 0 ==> k == 0) && (k == 0 ==> i == 0)
      decreases |src| - k
    {
      ghost var before := dst[..];
      var fits: bool;
      fits, i := CopyOne(dst, src, k, d, end, f);
      if !fits {
        assert dst[d + 1..] == before[d + 1..] == before[d..][1..];
        break;
      }
      ghost var e := ShortForm(src[k], f, Next(src, k));
      assert dst[..d + |e|] == before[..d] + e && dst[d + |e|..] == before[d..][|e|..];
      d, k := d + |ShortForm(src[k], f, if k + 1 < |src| then src[k + 1] else 0)|, k + 1;
    }
  }

  /** `strnvis`: with room for at least one character the buffer receives the longest prefix that ends between
      two forms, terminated by NUL, nothing past siz bytes is written, and the length returned is that of the
      prefix and of the encoding by `vis` of the rest. That is the length of the whole encoding unless a byte
      is treated differently. A buffer of one byte returns 0 instead. */
  method StrnVis(dst: array<Byte>, src: seq<Byte>, siz: nat, f: Flags) returns (n: nat, ghost k: nat)
    requires NoNul(src) && siz <= dst.Length
    modifies dst
    ensures k <= |src| && (siz <= 1 ==> k == 0)
    ensures n == if siz == 1 then 0 else |ShortUpTo(src, f, k)| + |EncodeFrom(src, f, k)|
    ensures (forall i :: 0 <= i < |src| ==> !CopiedRaw(src[i], f)) && siz != 1 ==> n == |Encode(src, f)|
    ensures dst[siz..] == old(dst[siz..])
    ensures siz >= 1 ==>
      && Fitting(src, f, k, siz - 1) && dst[..|ShortUpTo(src, f, k)|] == ShortUpTo(src, f, k)
      && dst[|ShortUpTo(src, f, k)|] == 0
  {
    hide VisByte;
    var end := siz - 1;
    var at, d, i := CopyLoop(dst, src, end, f);
    k := at;
    ghost var copied := dst[..];
    if siz > 0 { dst[d] := 0; }
    assert dst[..d] == copied[..d];
    assert siz > 0 ==> dst[siz..] == copied[d + 1..][siz - d - 1..];
    n := d;
    EncodeCut(src, f, at);
    if forall i :: 0 <= i < |src| ==> !CopiedRaw(src[i], f) { ShortIsEncoding(src, f, at); }
    if d + i > end {
      ghost var start := at;
      while at < |src|
        invariant start <= at <= |src| && n + |EncodeFrom(src, f, at)| == d + |EncodeFrom(src, f, start)|
      {
        var tbuf := VisByte(src[at], f, if at + 1 < |src| then src[at + 1] else 0);
        n, at := n + |tbuf|, at + 1;
      }
    }
  }

  /** `strnunvis`: as `strunvisx` without flags, storing only what fits. */
  method StrnUnvis(dst: array<Byte>, src: seq<Byte>, sz: nat) returns (n: int)
    requires NoNul(src) && sz <= dst.Length
    modifies dst
    ensures var r := Decode(src, Ground, 0, false);
            && n == (if r.Ok? then |r.bytes| else -1)
            && (r.Ok? && sz > 0 ==>
                && dst[..Least(|r.bytes|, sz - 1)] == r.bytes[..Least(|r.bytes|, sz - 1)]
                && dst[Least(|r.bytes|, sz - 1)] == 0)
    ensures dst[sz..] == old(dst[sz..])
  {
    hide Step, Decode;
    var end := sz - 1;
    if sz > 0 { dst[end] := 0; }
    ghost var made: seq<Byte> := [];
    var d, st, cell: Byte, i := 0, Ground, 0, 0;
    ghost var whole := Decode(src, Ground, 0, false);
    assert src[0..] == src;
    while i < |src|
      invariant 0 <= i <= |src| && d == |made| && dst[sz..] == old(dst[sz..])
      invariant whole == Joined(made, Decode(src[i..], st, cell, false))
      invariant sz > 0 ==> dst[..Least(d, end)] == made[..Least(d, end)] && dst[end] == 0
      decreases |src| - i, if st == Ground then 0 else 1
    {
      var o := Step(src[i], st, cell, false);
      PushLeavesState(src[i], st, cell, false);
      DecodeAt(src, i, st, cell, false);
      st := o.state;
      if o.code == SynBad {
        if d <= end { dst[d] := 0; }
        return -1;
      }
      if o.code == Valid || o.code == ValidPush {
        PutByte(dst, d, end, o.cell, made);
        made, d, cell := made + [o.cell], d + 1, 0;
      } else {
        cell := o.cell;
      }
      if o.code != ValidPush { i := i + 1; }
    }
    DecodeEnd(st, cell, false);
    assert src[i..] == [];
    if End(st, cell).code == Valid {
      PutByte(dst, d, end, cell, made);
      made, d := made + [cell], d + 1;
    }
    if d <= end { dst[d] := 0; }
    return d;
  }

  function Least(a: int, b: int): (m: int) { if a < b then a else b }

  /** `if (dst < end) *dst = p`. */
  method PutByte(dst: array<Byte>, d: nat, end: int, p: Byte, ghost made: seq<Byte>)
    requires d == |made| && -1 <= end < dst.Length
    requires end >= 0 ==> dst[..Least(d, end)] == made[..Least(d, end)] && dst[end] == 0
    modifies dst
    ensures end >= 0 ==> dst[..Least(d + 1, end)] == (made + [p])[..Least(d + 1, end)] && dst[end] == 0
    ensures dst[end + 1..] == old(dst[end + 1..])
  {
    if d < end { dst[d] := p; }
  }
}
