/** Environment entries: their order, and their image in non-volatile memory (nut/crt/setenv.c and
    nut/crt/environ.c). */
module EnvImage {
  import opened Bytes
  type Text = seq<Byte>

  datatype Entry = Entry(name: Text, value: Text)

  const MAX_ITEM: nat := 64

  /** ENVIRON_MAGIC, 0x00564E45, as stored by a little-endian machine. */
  const MAGIC: seq<Byte> := [0x45, 0x4E, 0x56, 0x00]

  // ---- strcmp ----

  function Compare(a: Text, b: Text): (c: int)
  {
    if a == [] then (if b == [] then 0 else -1)
    else if b == [] then 1
    else if a[0] != b[0] then (if a[0] < b[0] then -1 else 1)
    else Compare(a[1..], b[1..])
  }

  predicate Less(a: Text, b: Text) { Compare(a, b) < 0 }

  lemma {:induction false} CompareEqual(a: Text, b: Text)
    ensures Compare(a, b) == 0 <==> a == b
  {
    if a != [] && b != [] && a[0] == b[0] {
      CompareEqual(a[1..], b[1..]);
      assert a == [a[0]] + a[1..] && b == [b[0]] + b[1..];
    }
  }

  lemma {:induction false} CompareSwap(a: Text, b: Text)
    ensures Compare(b, a) == -Compare(a, b)
  {
    if a != [] && b != [] && a[0] == b[0] { CompareSwap(a[1..], b[1..]); }
  }

  /** The order of `strcmp`: by the first position where the names differ, or the shorter one first. */
  lemma {:induction false} CompareIs(a: Text, b: Text, k: nat)
    requires k <= |a| && k <= |b| && a[..k] == b[..k]
    ensures k < |a| && k < |b| && a[k] < b[k] ==> Compare(a, b) == -1
    ensures k < |a| && k < |b| && a[k] > b[k] ==> Compare(a, b) == 1
    ensures k == |a| < |b| ==> Compare(a, b) == -1
    ensures k == |b| < |a| ==> Compare(a, b) == 1
  {
    if k > 0 {
      assert a[..k][0] == b[..k][0];
      assert a[1..][..k - 1] == a[..k][1..] && b[1..][..k - 1] == b[..k][1..];
      CompareIs(a[1..], b[1..], k - 1);
    }
  }

  lemma {:induction false} LessTransitive(a: Text, b: Text, c: Text)
    requires Less(a, b) && Less(b, c)
    ensures Less(a, c)
  {
    if a != [] && a[0] == b[0] && b[0] == c[0] { LessTransitive(a[1..], b[1..], c[1..]); }
  }

  /** Strictly increasing names. */
  ghost predicate Sorted(es: seq<Entry>)
  {
    forall i, j :: 0 <= i < j < |es| ==> Less(es[i].name, es[j].name)
  }

  /** Inserting before the first larger name keeps the order. */
  lemma InsertKeepsOrder(es: seq<Entry>, e: Entry, p: nat)
    requires Sorted(es) && p <= |es|
    requires forall i :: 0 <= i < p ==> !Less(e.name, es[i].name) && es[i].name != e.name
    requires p < |es| ==> Less(e.name, es[p].name)
    ensures Sorted(es[..p] + [e] + es[p..])
  {
    var out := es[..p] + [e] + es[p..];
    forall i, j | 0 <= i < j < |out|
      ensures Less(out[i].name, out[j].name)
    {
      if i == p {
        if j > p + 1 { LessTransitive(e.name, es[p].name, es[j - 1].name); }
      } else if j == p {
        CompareEqual(es[i].name, e.name);
        CompareSwap(es[i].name, e.name);
      } else {
        assert out[i] == es[if i < p then i else i - 1] && out[j] == es[if j < p then j else j - 1];
      }
    }
  }

  // ---- what may be stored ----

  predicate IsText(t: Text) { |t| <= MAX_ITEM && forall i :: 0 <= i < |t| ==> t[i] != 0 }

  /** A name that is not empty, and items within MAX_ENVIRON_ITEM_SIZE. */
  predicate Storable(e: Entry) { e.name != [] && IsText(e.name) && IsText(e.value) }

  /** One to 64 characters of name, up to 64 of value, and no NUL. */
  lemma StorableIs(e: Entry)
    ensures Storable(e) <==>
      && 1 <= |e.name| <= 64 && |e.value| <= 64
      && (forall i :: 0 <= i < |e.name| ==> e.name[i] != 0) && (forall i :: 0 <= i < |e.value| ==> e.value[i] != 0)
  {
  }

  ghost predicate AllStorable(es: seq<Entry>) { forall i :: 0 <= i < |es| ==> Storable(es[i]) }

  // ---- the image ----

  function Item(e: Entry): (s: seq<Byte>)
    ensures |s| == |e.name| + |e.value| + 2
  {
    e.name + [0] + e.value + [0]
  }

  function Items(es: seq<Entry>): (s: seq<Byte>)
  {
    if es == [] then [] else Items(es[..|es| - 1]) + Item(es[|es| - 1])
  }

  /** What `save_env` writes. */
  function Image(es: seq<Entry>): (s: seq<Byte>) { MAGIC + Items(es) + [0] }

  /** The image of the list stands at the start of the storage; nothing was ever written otherwise. */
  ghost predicate Stored(nv: seq<Byte>, es: seq<Entry>)
  {
    if es == [] then nv == [] else |Image(es)| <= |nv| && nv[..|Image(es)|] == Image(es)
  }

  /** The image, byte by byte: the magic number, name and value of each entry with a NUL behind each, and a
      last NUL. */
  lemma ImageIs(es: seq<Entry>, e: Entry)
    ensures Image([]) == [0x45, 0x4E, 0x56, 0x00, 0]
    ensures Image(es + [e]) == Image(es)[..|Image(es)| - 1] + e.name + [0] + e.value + [0] + [0]
  {
    assert (es + [e])[..|es|] == es;
    var items := MAGIC + Items(es);
    assert Image(es)[..|Image(es)| - 1] == items;
    assert Image(es + [e]) == items + (e.name + [0] + e.value + [0]) + [0];
  }

  lemma ItemsNext(es: seq<Entry>, k: nat)
    requires k < |es|
    ensures Items(es[..k + 1]) == Items(es[..k]) + Item(es[k])
  {
    assert es[..k + 1][..k] == es[..k];
  }

  lemma {:induction false} ItemsPrefix(es: seq<Entry>, k: nat)
    requires k <= |es|
    ensures |Items(es[..k])| <= |Items(es)| && Items(es)[..|Items(es[..k])|] == Items(es[..k])
    decreases |es| - k
  {
    if k == |es| {
      assert es[..k] == es;
    } else {
      ItemsPrefix(es, k + 1);
      ItemsNext(es, k);
      var a, b := Items(es[..k]), Items(es[..k + 1]);
      assert Items(es)[..|a|] == Items(es)[..|b|][..|a|];
    }
  }

  /** Where entry k of the stored list stands. */
  lemma EntryAt(nv: seq<Byte>, es: seq<Entry>, k: nat)
    requires Stored(nv, es) && k < |es|
    ensures var a := 4 + |Items(es[..k])|;
            && a + |Item(es[k])| < |nv| && nv[a..a + |Item(es[k])|] == Item(es[k])
            && a + |Item(es[k])| == 4 + |Items(es[..k + 1])|
  {
    hide Items, Item, Image;
    var left, item := Items(es[..k]), Item(es[k]);
    ItemsNext(es, k);
    ItemsPrefix(es, k + 1);
    MiddleOf(Items(es), left, item);
    ImageSlice(es, |left|, |left| + |item|);
    PrefixSlice(nv, Image(es), 4 + |left|, 4 + |left| + |item|);
  }

  lemma MiddleOf(whole: seq<Byte>, left: seq<Byte>, item: seq<Byte>)
    requires |left| + |item| <= |whole| && whole[..|left| + |item|] == left + item
    ensures whole[|left|..|left| + |item|] == item
  {
    assert whole[|left|..|left| + |item|] == whole[..|left| + |item|][|left|..];
  }

  lemma PrefixSlice(nv: seq<Byte>, image: seq<Byte>, lo: nat, hi: nat)
    requires lo <= hi <= |image| <= |nv| && nv[..|image|] == image
    ensures nv[lo..hi] == image[lo..hi]
  {
    forall i | lo <= i < hi
      ensures nv[i] == image[i]
    {
      assert nv[..|image|][i] == nv[i];
    }
  }

  lemma ImageSlice(es: seq<Entry>, lo: nat, hi: nat)
    requires lo <= hi <= |Items(es)|
    ensures |Image(es)| == |Items(es)| + 5 && Image(es)[4 + lo..4 + hi] == Items(es)[lo..hi]
  {
    hide Items;
  }

  lemma EndAt(nv: seq<Byte>, es: seq<Entry>)
    requires Stored(nv, es) && es != []
    ensures 4 + |Items(es)| < |nv| && nv[4 + |Items(es)|] == 0 && nv[..4] == MAGIC
  {
    var image := Image(es);
    assert image[|image| - 1] == 0 && image[..4] == MAGIC;
    assert nv[|image| - 1] == nv[..|image|][|image| - 1];
    assert nv[..4] == nv[..|image|][..4];
  }
}
