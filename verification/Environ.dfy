/** The environment: a sorted doubly linked list of variables, mirrored in non-volatile memory. */
module Environ {
  import opened Bytes
  import opened EnvImage

  class Node {
    var next: Node?
    var prev: Node?
    var name: Text
    var value: Text

    constructor (name: Text, value: Text)
      ensures this.name == name && this.value == value && next == null && prev == null
    {
      this.name, this.value := name, value;
      next, prev := null, null;
    }
  }

  /** The C string t stands at address a. */
  ghost predicate TextAt(nv: seq<Byte>, a: nat, t: Text)
  {
    IsText(t) && a + |t| < |nv| && nv[a..a + |t|] == t && nv[a + |t|] == 0
  }

  /** `read_string`: the characters up to NUL, at most siz + 1 of them; addr moves past what was read. */
  method ReadString(nv: seq<Byte>, addr0: nat, siz: nat) returns (text: Text, addr: nat)
    requires addr0 <= |nv|
    ensures addr0 <= addr <= |nv|
    ensures forall t: Text :: TextAt(nv, addr0, t) && |t| <= siz ==> text == t && addr == addr0 + |t| + 1
  {
    hide TextAt;
    text, addr := [], addr0;
    ghost var n := 0;
    while |text| <= siz
      invariant addr == addr0 + |text| <= |nv| && |text| <= siz + 1 && text == nv[addr0..addr] && n == |text|
      invariant forall i :: addr0 <= i < addr ==> nv[i] != 0
      decreases siz + 1 - |text|
    {
      if addr >= |nv| {
        text := [];
        break;
      }
      var ch := nv[addr];
      addr := addr + 1;
      if ch == 0 { break; }
      text, n := text + [ch], n + 1;
    }
    forall t: Text | TextAt(nv, addr0, t) && |t| <= siz
      ensures text == t && addr == addr0 + |t| + 1
    {
      TextLength(nv, addr0, n, siz, t);
    }
  }

  /** The scan for the first NUL stops at the end of the string. */
  lemma TextLength(nv: seq<Byte>, a: nat, n: nat, siz: nat, t: Text)
    requires TextAt(nv, a, t) && |t| <= siz && a + n <= |nv| && (forall i :: a <= i < a + n ==> nv[i] != 0)
    requires n == siz + 1 || a + n == |nv| || nv[a + n] == 0
    ensures n == |t| && a + n < |nv| && nv[a + n] == 0 && nv[a..a + n] == t
  {
    assert forall i :: 0 <= i < |t| ==> nv[a + i] == t[i];
  }

  /** Where the strings of entry k stand. */
  lemma StringsAt(nv: seq<Byte>, es: seq<Entry>, k: nat)
    requires Stored(nv, es) && k < |es| && Storable(es[k])
    ensures var a := 4 + |Items(es[..k])|;
            && TextAt(nv, a, es[k].name) && a + |Item(es[k])| <= |nv|
            && TextAt(nv, a + |es[k].name| + 1, es[k].value)
            && a + |Item(es[k])| == 4 + |Items(es[..k + 1])|
  {
    hide Items, Stored;
    EntryAt(nv, es, k);
    var a, e := 4 + |Items(es[..k])|, es[k];
    var item := Item(e);
    var b := a + |e.name| + 1;
    SliceOf(nv, a, item, 0, |e.name|);
    SliceOf(nv, a, item, |e.name|, |e.name| + 1);
    SliceOf(nv, a, item, |e.name| + 1, |item| - 1);
    SliceOf(nv, a, item, |item| - 1, |item|);
    assert nv[a + |e.name|] == nv[a + |e.name|..a + |e.name| + 1][0];
    assert nv[a + |item| - 1] == nv[a + |item| - 1..a + |item|][0];
  }

  lemma SliceOf(nv: seq<Byte>, a: nat, item: seq<Byte>, lo: nat, hi: nat)
    requires a + |item| <= |nv| && nv[a..a + |item|] == item && lo <= hi <= |item|
    ensures nv[a + lo..a + hi] == item[lo..hi]
  {
    forall i | lo <= i < hi
      ensures nv[a + i] == item[i]
    {
      assert nv[a..a + |item|][i] == nv[a + i];
    }
  }

  lemma EndText(nv: seq<Byte>, es: seq<Entry>)
    requires Stored(nv, es) && es != []
    ensures TextAt(nv, 4 + |Items(es)|, []) && |nv| >= 4 + |Items(es)| && nv[..4] == MAGIC
  {
    hide Items;
    EndAt(nv, es);
  }

  /** The length of the longest string among the first k entries. */
  ghost predicate Longest(es: seq<Entry>, k: nat, len: nat)
    requires k <= |es|
  {
    forall i :: 0 <= i < k ==> |es[i].name| <= len && |es[i].value| <= len
  }

  /** Where entry k of the stored list begins; behind the last one the closing NUL. */
  ghost function EntryStart(es: seq<Entry>, k: nat): (a: nat)
    requires k <= |es|
  {
    4 + |Items(es[..k])|
  }

  /** The next name; an empty one behind the last entry. */
  method ReadName(nv: seq<Byte>, addr0: nat, siz: nat, ghost es: seq<Entry>, ghost k: nat)
    returns (text: Text, addr: nat)
    requires Stored(nv, es) && es != [] && AllStorable(es) && k <= |es| && addr0 == EntryStart(es, k)
    requires Longest(es, |es|, siz)
    ensures addr <= |nv| && (k < |es| ==> text == es[k].name && addr == addr0 + |text| + 1)
    ensures (k == |es| ==> text == [])
  {
    hide Stored, Items, TextAt, Storable, Item;
    if k < |es| { StringsAt(nv, es, k); } else { EndText(nv, es); assert es[..k] == es; }
    text, addr := ReadString(nv, addr0, siz);
  }

  /** The value that follows a name, up to the next entry. */
  method ReadValue(nv: seq<Byte>, addr0: nat, siz: nat, ghost es: seq<Entry>, ghost k: nat)
    returns (text: Text, addr: nat)
    requires Stored(nv, es) && AllStorable(es) && k < |es| && addr0 == EntryStart(es, k) + |es[k].name| + 1
    requires Longest(es, |es|, siz)
    ensures text == es[k].value && addr == EntryStart(es, k + 1) && addr <= |nv|
  {
    hide Stored, Items, TextAt, Storable, Item;
    StringsAt(nv, es, k);
    text, addr := ReadString(nv, addr0, siz);
  }

  lemma WithinMax(es: seq<Entry>)
    requires AllStorable(es)
    ensures Longest(es, |es|, MAX_ITEM)
  {
  }

  /** The first pass of the reload: the longest string. */
  method MaxLength(nv: seq<Byte>, ghost es: seq<Entry>) returns (maxLen: nat)
    requires Stored(nv, es) && es != [] && AllStorable(es)
    ensures Longest(es, |es|, maxLen) && maxLen > 0
  {
    hide Items, Stored;
    WithinMax(es);
    NoItems();
    assert es[..0] == [];
    maxLen := 0;
    ghost var k := 0;
    var name, addr := ReadName(nv, 4, MAX_ITEM, es, 0);
    while |name| > 0
      invariant k <= |es| && addr <= |nv| && Longest(es, k, maxLen) && (k > 0 ==> maxLen > 0)
      invariant k < |es| ==> name == es[k].name && addr == EntryStart(es, k) + |name| + 1
      invariant k == |es| ==> name == []
      decreases |es| - k
    {
      if |name| > maxLen { maxLen := |name|; }
      var value;
      value, addr := ReadValue(nv, addr, MAX_ITEM, es, k);
      if |value| > maxLen { maxLen := |value|; }
      k := k + 1;
      name, addr := ReadName(nv, addr, MAX_ITEM, es, k);
    }
  }

  lemma NoItems()
    ensures Items([]) == []
  {
  }

  class Environment {
    var head: Node?
    /** Storage from the environment's offset on, as far as it has been written. */
    var nv: seq<Byte>
    ghost var nodes: seq<Node>
    /** The list whose image is in storage. */
    ghost var saved: seq<Entry>

    constructor ()
      ensures Valid() && Entries() == [] && saved == []
    {
      head, nv, nodes, saved := null, [], [], [];
    }

    /** The links agree in both directions. */
    ghost predicate Linked()
      reads this`head, this`nodes, nodes
    {
      && head == At(0)
      && (forall i {:trigger nodes[i].next} :: 0 <= i < |nodes| ==> nodes[i].next == At(i + 1))
      && (forall i {:trigger nodes[i].prev} :: 0 <= i < |nodes| ==> nodes[i].prev == At(i - 1))
      && (forall i, j :: 0 <= i < j < |nodes| ==> nodes[i] != nodes[j])
    }

    ghost function At(i: int): (n: Node?)
      reads this`nodes
    {
      if 0 <= i < |nodes| then nodes[i] else null
    }

    /** Names and values in list order. */
    ghost function Entries(): (es: seq<Entry>)
      reads this`nodes, nodes
      ensures |es| == |nodes|
    {
      var ns := nodes;
      seq(|ns|, i requires 0 <= i < |ns| reads ns => Entry(ns[i].name, ns[i].value))
    }

    /** Sorted, storable, and mirrored in storage whenever it is not empty. */
    ghost predicate Valid()
      reads this, nodes
    {
      && Linked() && Sorted(Entries()) && AllStorable(Entries())
      && Stored(nv, saved) && Sorted(saved) && AllStorable(saved)
      && (nodes != [] ==> saved == Entries())
    }

    /** What `findenv` works on: an empty list is first read back from storage. */
    ghost function Current(): (es: seq<Entry>)
      reads this, nodes
    {
      if nodes == [] then saved else Entries()
    }

    /** Append a node that was read back. */
    method Append(last: Node?, n: Node)
      requires Linked() && n !in nodes && n.next == null && n.prev == null && last == At(|nodes| - 1)
      modifies this`head, this`nodes, n`prev, nodes
      ensures Linked() && nodes == old(nodes) + [n] && Entries() == old(Entries()) + [Entry(n.name, n.value)]
    {
      if last != null {
        last.next := n;
        n.prev := last;
      } else {
        head := n;
      }
      nodes := nodes + [n];
    }
  
    /** The reload part of `findenv`. */
    method Load()
      requires Valid() && nodes == []
      modifies this`head, this`nodes
      ensures Valid() && Entries() == saved && fresh(nodes)
    {
      hide Stored, Items, Sorted, AllStorable, Linked, Entries;
      NoEntries(this);
      if saved != [] { EndText(nv, saved); } else { NothingStored(nv, saved); }
      if |nv| >= 4 && nv[..4] == MAGIC {
        NoItems();
        assert saved[..0] == [];
        var maxLen := MaxLength(nv, saved);
        ghost var k := 0;
        var prv: Node? := null;
        var name, addr := ReadName(nv, 4, maxLen, saved, 0);
        StorableNames(saved);
        while |name| > 0
          invariant k <= |saved| && addr <= |nv| && Linked() && fresh(nodes) && |nodes| == k
          invariant Entries() == saved[..k] && prv == At(k - 1)
          invariant k < |saved| ==> name == saved[k].name && addr == EntryStart(saved, k) + |name| + 1
          invariant k == |saved| ==> name == []
          decreases |saved| - k
        {
          var value;
          value, addr := ReadValue(nv, addr, maxLen, saved, k);
          var n := new Node(name, value);
          Append(prv, n);
          prv := n;
          k := k + 1;
          name, addr := ReadName(nv, addr, maxLen, saved, k);
        }
        assert saved[..k] == saved;
      }
    }

    /** `findenv`. */
    method FindEnv(name: Text) returns (r: Node?, ghost p: nat)
      requires Valid()
      modifies this`head, this`nodes
      ensures Valid() && Entries() == old(Current()) && (nodes == old(nodes) || (old(nodes) == [] && fresh(nodes)))
      ensures r == null ==> forall i :: 0 <= i < |Entries()| ==> Entries()[i].name != name
      ensures r != null ==> p < |nodes| && r == nodes[p] && Entries()[p].name == name
    {
      hide Stored, Items, Sorted, AllStorable;
      HeadIsFirst(this);
      if head == null { Load(); }
      r, p := Search(name);
    }

    /** The search through the list. */
    method Search(name: Text) returns (r: Node?, ghost p: nat)
      requires Linked()
      ensures r == null ==> forall i :: 0 <= i < |Entries()| ==> Entries()[i].name != name
      ensures r != null ==> p < |nodes| && r == nodes[p] && Entries()[p].name == name
    {
      hide Linked, Entries, Compare;
      Links(this);
      r, p := head, 0;
      while r != null
        invariant p <= |nodes| && r == At(p)
        invariant forall i :: 0 <= i < p ==> Entries()[i].name != name
        decreases |nodes| - p
      {
        EntryOf(this, p);
        CompareEqual(r.name, name);
        if Compare(r.name, name) == 0 { return; }
        r, p := r.next, p + 1;
      }
    }

    /** `NutNvMemSave` at an address that has been reached. */
    method Write(addr: nat, bytes: seq<Byte>)
      requires addr <= |nv|
      modifies this`nv
      ensures |nv| >= addr + |bytes| && nv[..addr + |bytes|] == old(nv[..addr]) + bytes
    {
      nv := nv[..addr] + bytes + (if addr + |bytes| <= |nv| then nv[addr + |bytes|..] else []);
    }

    /** One variable: its name and its value, each with a NUL. */
    method WriteEntry(addr0: nat, name: Text, value: Text) returns (addr: nat)
      requires addr0 <= |nv|
      modifies this`nv
      ensures addr == addr0 + |Item(Entry(name, value))| <= |nv|
      ensures nv[..addr] == old(nv[..addr0]) + Item(Entry(name, value))
    {
      ghost var before := nv[..addr0];
      Write(addr0, name + [0]);
      addr := addr0 + |name| + 1;
      assert nv[..addr] == before + (name + [0]);
      Write(addr, value + [0]);
      addr := addr + |value| + 1;
      assert before + (name + [0]) + (value + [0]) == before + Item(Entry(name, value));
    }

    /** `save_env`: nothing is written for an empty list. */
    method Save()
      requires Linked() && AllStorable(Entries()) && Sorted(Entries())
      requires Stored(nv, saved) && Sorted(saved) && AllStorable(saved)
      modifies this`nv, this`saved
      ensures Valid() && saved == if nodes == [] then old(saved) else Entries()
      ensures nodes == [] ==> nv == old(nv)
    {
      hide Items, Sorted, AllStorable, Entries, Item, Linked;
      Links(this);
      if head != null {
        Write(0, MAGIC);
        var addr, envp := 4, head;
        ghost var k := 0;
        ghost var es := Entries();
        NoItems();
        assert es[..0] == [] && MAGIC + [] == MAGIC;
        while envp != null
          invariant k <= |nodes| && envp == At(k) && Entries() == es && Linked()
          invariant addr == 4 + |Items(es[..k])| <= |nv| && nv[..addr] == MAGIC + Items(es[..k])
          decreases |nodes| - k
        {
          EntryOf(this, k);
          ItemsNext(es, k);
          addr := WriteEntry(addr, envp.name, envp.value);
          assert nv[..addr] == MAGIC + Items(es[..k + 1]);
          envp, k := envp.next, k + 1;
        }
        assert es[..k] == es;
        Write(addr, [0]);
        assert nv[..addr + 1] == Image(es);
        saved := es;
      }
    }

    /** Where a new name goes: before the first node with a larger one. The search of `setenv`. */
    method Position(name: Text) returns (nxt: Node?, prv: Node?, ghost p: nat)
      requires Linked()
      ensures p <= |nodes| && nxt == At(p) && prv == At(p - 1)
      ensures forall i :: 0 <= i < p ==> !Less(name, Entries()[i].name)
      ensures p < |nodes| ==> Less(name, Entries()[p].name)
    {
      hide Linked, Entries, Compare;
      Links(this);
      nxt, prv, p := head, null, 0;
      while nxt != null
        invariant p <= |nodes| && nxt == At(p) && prv == At(p - 1)
        invariant forall i :: 0 <= i < p ==> !Less(name, Entries()[i].name)
        decreases |nodes| - p
      {
        EntryOf(this, p);
        if Compare(name, nxt.name) < 0 { return; }
        nxt, prv, p := nxt.next, nxt, p + 1;
      }
    }

    /** The relinking of `setenv`: n goes between prv and nxt. */
    method LinkIn(n: Node, nxt: Node?, prv: Node?, ghost p: nat)
      requires Linked() && n !in nodes && n.next == null && n.prev == null
      requires p <= |nodes| && nxt == At(p) && prv == At(p - 1)
      modifies this`head, this`nodes, n, nodes
      ensures Linked() && nodes == old(nodes[..p] + [n] + nodes[p..])
      ensures n.name == old(n.name) && n.value == old(n.value)
      ensures forall o :: o in old(nodes) ==> o.name == old(o.name) && o.value == old(o.value)
    {
      if nxt != null {
        if nxt.prev != null { nxt.prev.next := n; } else { head := n; }
        n.next := nxt;
        n.prev := nxt.prev;
        nxt.prev := n;
      } else if prv != null {
        prv.next := n;
        n.prev := prv;
      } else {
        head := n;
      }
      ghost var ns := nodes;
      assert forall i {:trigger ns[i].next} :: 0 <= i < |ns| ==>
        ns[i].next == if i + 1 == p then n else Pick(ns, i + 1);
      assert forall i {:trigger ns[i].prev} :: 0 <= i < |ns| ==> ns[i].prev == if i == p then n else Pick(ns, i - 1);
      nodes := nodes[..p] + [n] + nodes[p..];
      LinkedIn(this, ns, n, p);
    }

    /** The relinking of `unsetenv`. */
    method LinkOut(n: Node, ghost p: nat)
      requires Linked() && p < |nodes| && n == nodes[p]
      modifies this`head, this`nodes, nodes
      ensures Linked() && nodes == old(nodes[..p] + nodes[p + 1..])
      ensures forall o :: o in old(nodes) ==> o.name == old(o.name) && o.value == old(o.value)
    {
      if n.prev != null { n.prev.next := n.next; }
      if n.next != null { n.next.prev := n.prev; }
      if head == n { head := n.next; }
      ghost var ns := nodes;
      assert forall i {:trigger ns[i].next} :: 0 <= i < |ns| && i != p ==>
        ns[i].next == Pick(ns, if i + 1 == p then p + 1 else i + 1);
      assert forall i {:trigger ns[i].prev} :: 0 <= i < |ns| && i != p ==>
        ns[i].prev == Pick(ns, if i - 1 == p then p - 1 else i - 1);
      nodes := nodes[..p] + nodes[p + 1..];
      LinkedOut(this, ns, p);
    }

    /** Change the value of a node in place. */
    method SetValue(n: Node, value: Text, ghost p: nat)
      requires Linked() && p < |nodes| && n == nodes[p]
      modifies n`value
      ensures Linked() && n.value == value && Entries() == old(Entries())[p := Entry(n.name, value)]
    {
      n.value := value;
    }

    /** Insert a new variable in its place. */
    method Insert(name: Text, value: Text) returns (ghost p: nat)
      requires Linked() && Sorted(Entries()) && forall i :: 0 <= i < |Entries()| ==> Entries()[i].name != name
      modifies this`head, this`nodes, nodes
      ensures Linked() && Sorted(Entries()) && p <= |old(Entries())| && fresh(set n | n in nodes && n !in old(nodes))
      ensures Entries() == old(Entries())[..p] + [Entry(name, value)] + old(Entries())[p..]
    {
      hide Linked, Sorted;
      ghost var es := Entries();
      var n := new Node(name, value);
      var nxt, prv;
      nxt, prv, p := Position(name);
      assert forall i :: 0 <= i < |es| ==> Entries()[i] == es[i];
      LinkIn(n, nxt, prv, p);
      assert Entries() == es[..p] + [Entry(name, value)] + es[p..];
      InsertKeepsOrder(es, Entry(name, value), p);
    }

    /** `setenv`: an existing variable is changed only with force; a new one is inserted. */
    method SetEnv(name: Text, value: Text, force: bool) returns (ghost found: bool, ghost p: nat)
      requires Valid() && Storable(Entry(name, value))
      modifies this, nodes
      ensures Valid() && (forall n :: n in nodes ==> n in old(nodes) || fresh(n))
      ensures found ==>
        && p < |old(Current())| && old(Current())[p].name == name
        && Entries() == if force then old(Current())[p := Entry(name, value)] else old(Current())
      ensures !found ==>
        && (forall i :: 0 <= i < |old(Current())| ==> old(Current())[i].name != name)
        && p <= |old(Current())| && Entries() == old(Current())[..p] + [Entry(name, value)] + old(Current())[p..]
    {
      hide Linked, Stored, Sorted, AllStorable, Storable, Compare;
      ghost var cur := Current();
      var envp;
      envp, p := FindEnv(name);
      found := envp != null;
      if envp == null {
        p := Insert(name, value);
        StorableInserted(cur, Entry(name, value), p);
        Save();
      } else if force {
        CompareEqual(envp.value, value);
        if Compare(envp.value, value) != 0 {
          SetValue(envp, value, p);
          Replaced(cur, p, value);
          Save();
        }
      }
    }

    /** `unsetenv`: when the last variable goes, storage still holds its image. */
    method UnsetEnv(name: Text) returns (rc: int, ghost p: nat)
      requires Valid()
      modifies this, nodes
      ensures Valid() && (forall n :: n in nodes ==> n in old(nodes) || fresh(n))
      ensures rc == 0 || rc == -1
      ensures rc == -1 ==>
        Entries() == old(Current()) && forall i :: 0 <= i < |Entries()| ==> Entries()[i].name != name
      ensures rc == 0 ==>
        && p < |old(Current())| && old(Current())[p].name == name
        && Entries() == old(Current())[..p] + old(Current())[p + 1..]
        && saved == if Entries() == [] then old(Current()) else Entries()
    {
      hide Linked, Stored, Sorted, AllStorable, Storable;
      ghost var cur := Current();
      var envp;
      envp, p := FindEnv(name);
      if envp == null { return -1, 0; }
      LinkOut(envp, p);
      assert Entries() == cur[..p] + cur[p + 1..];
      Removed(cur, p);
      Save();
      rc := 0;
    }

    /** `getenv`. */
    method GetEnv(name: Text) returns (found: bool, value: Text, ghost p: nat)
      requires Valid()
      modifies this`head, this`nodes
      ensures Valid() && Entries() == old(Current()) && (forall n :: n in nodes ==> n in old(nodes) || fresh(n))
      ensures found ==> p < |Entries()| && Entries()[p] == Entry(name, value)
      ensures !found ==> forall i :: 0 <= i < |Entries()| ==> Entries()[i].name != name
    {
      hide Linked, Stored, Sorted, AllStorable;
      var envp;
      envp, p := FindEnv(name);
      if envp == null { return false, [], 0; }
      return true, envp.value, p;
    }
  }

  lemma StorableInserted(es: seq<Entry>, e: Entry, p: nat)
    requires AllStorable(es) && Storable(e) && p <= |es|
    ensures AllStorable(es[..p] + [e] + es[p..])
  {
    hide Storable;
  }

  lemma Replaced(es: seq<Entry>, p: nat, value: Text)
    requires Sorted(es) && AllStorable(es) && p < |es| && Storable(Entry(es[p].name, value))
    ensures Sorted(es[p := Entry(es[p].name, value)]) && AllStorable(es[p := Entry(es[p].name, value)])
  {
    hide Storable, Less;
  }

  lemma Removed(es: seq<Entry>, p: nat)
    requires Sorted(es) && AllStorable(es) && p < |es|
    ensures Sorted(es[..p] + es[p + 1..]) && AllStorable(es[..p] + es[p + 1..])
  {
    hide Storable, Less;
  }

  /** Node i, or null outside the list. */
  ghost function Pick(ns: seq<Node>, i: int): (n: Node?) { if 0 <= i < |ns| then ns[i] else null }

  ghost predicate AllDifferent(ns: seq<Node>) { forall i, j :: 0 <= i < j < |ns| ==> ns[i] != ns[j] }

  /** The links after an insertion. */
  lemma LinkedIn(e: Environment, ns: seq<Node>, n: Node, p: nat)
    requires p <= |ns| && e.nodes == ns[..p] + [n] + ns[p..] && AllDifferent(ns) && n !in ns
    requires e.head == if p == 0 then n else Pick(ns, 0)
    requires n.next == Pick(ns, p) && n.prev == Pick(ns, p - 1)
    requires forall i {:trigger ns[i].next} :: 0 <= i < |ns| ==> ns[i].next == if i + 1 == p then n else Pick(ns, i + 1)
    requires forall i {:trigger ns[i].prev} :: 0 <= i < |ns| ==> ns[i].prev == if i == p then n else Pick(ns, i - 1)
    ensures e.Linked()
  {
    var out := e.nodes;
    forall i | 0 <= i < |out|
      ensures out[i].next == e.At(i + 1) && out[i].prev == e.At(i - 1)
    {
      if i < p { assert out[i] == ns[i]; } else if i > p { assert out[i] == ns[i - 1]; }
    }
    forall i, j | 0 <= i < j < |out|
      ensures out[i] != out[j]
    {
      if i == p { assert out[j] == ns[j - 1]; }
      else if j == p { assert out[i] == ns[i]; }
      else { assert out[i] == ns[if i < p then i else i - 1] && out[j] == ns[if j < p then j else j - 1]; }
    }
  }

  /** The links after a removal. */
  lemma LinkedOut(e: Environment, ns: seq<Node>, p: nat)
    requires p < |ns| && e.nodes == ns[..p] + ns[p + 1..] && AllDifferent(ns)
    requires e.head == Pick(ns, if p == 0 then 1 else 0)
    requires forall i {:trigger ns[i].next} :: 0 <= i < |ns| && i != p ==>
      ns[i].next == Pick(ns, if i + 1 == p then p + 1 else i + 1)
    requires forall i {:trigger ns[i].prev} :: 0 <= i < |ns| && i != p ==>
      ns[i].prev == Pick(ns, if i - 1 == p then p - 1 else i - 1)
    ensures e.Linked()
  {
    var out := e.nodes;
    forall i {:trigger out[i].next} | 0 <= i < |out|
      ensures out[i].next == e.At(i + 1)
    {
      PickOut(ns, p, i);
      PickOut(ns, p, i + 1);
    }
    forall i {:trigger out[i].prev} | 0 <= i < |out|
      ensures out[i].prev == e.At(i - 1)
    {
      PickOut(ns, p, i);
      PickOut(ns, p, i - 1);
    }
    PickOut(ns, p, 0);
    OutDifferent(ns, p);
  }

  lemma PickOut(ns: seq<Node>, p: nat, i: int)
    requires p < |ns|
    ensures Pick(ns[..p] + ns[p + 1..], i) == Pick(ns, if i < p then i else i + 1)
  {
  }

  lemma OutDifferent(ns: seq<Node>, p: nat)
    requires p < |ns| && AllDifferent(ns)
    ensures AllDifferent(ns[..p] + ns[p + 1..])
  {
  }

  lemma Links(e: Environment)
    requires e.Linked()
    ensures e.head == e.At(0)
    ensures forall i {:trigger e.nodes[i].next} :: 0 <= i < |e.nodes| ==> e.nodes[i].next == e.At(i + 1)
  {
  }

  lemma EntryOf(e: Environment, k: nat)
    requires k < |e.nodes|
    ensures e.Entries()[k] == Entry(e.nodes[k].name, e.nodes[k].value)
  {
  }

  lemma HeadIsFirst(e: Environment)
    requires e.Valid()
    ensures e.head == null <==> e.nodes == []
  {
    hide Sorted, AllStorable, Stored;
  }

  lemma NoEntries(e: Environment)
    requires e.nodes == []
    ensures e.Entries() == []
  {
  }

  lemma NothingStored(nv: seq<Byte>, es: seq<Entry>)
    requires Stored(nv, es) && es == []
    ensures nv == []
  {
  }

  lemma StorableNames(es: seq<Entry>)
    requires AllStorable(es)
    ensures forall i :: 0 <= i < |es| ==> es[i].name != []
  {
  }

  /** Removing a variable and looking it up again. The lookup finds nothing exactly when another
      variable remained; a lone variable comes back from storage with its old value. */
  method UnsetThenGet(env: Environment, name: Text) returns (found: bool, ghost value: Text, ghost others: bool)
    requires env.Valid() && exists i :: 0 <= i < |env.Current()| && env.Current()[i].name == name
    modifies env, env.nodes
    ensures env.Valid() && others == (|old(env.Current())| > 1)
    ensures found <==> !others
    ensures found ==> old(env.Current()) == [Entry(name, value)]
  {
    hide Environment.Linked, Stored, AllStorable, Sorted;
    ghost var cur := env.Current();
    others := |cur| > 1;
    var rc, p := env.UnsetEnv(name);
    ghost var rest := cur[..p] + cur[p + 1..];
    OthersDiffer(cur, p);
    ghost var q;
    var text;
    found, text, q := env.GetEnv(name);
    value := text;
  }

  lemma OthersDiffer(es: seq<Entry>, p: nat)
    requires Sorted(es) && p < |es|
    ensures forall i :: 0 <= i < |es| && i != p ==> es[i].name != es[p].name
  {
    forall i | 0 <= i < |es| && i != p
      ensures es[i].name != es[p].name
    {
      CompareEqual(es[i].name, es[p].name);
      CompareEqual(es[p].name, es[i].name);
    }
  }

  /** What can happen to the environment; a restart forgets the list in memory and keeps the storage. */
  datatype Operation = Set(name: Text, value: Text, force: bool) | Unset(name: Text) | Get(name: Text) | Reboot

  ghost predicate Proper(op: Operation) { op.Set? ==> Storable(Entry(op.name, op.value)) }

  method Apply(env: Environment, op: Operation) returns (after: Environment)
    requires env.Valid() && Proper(op)
    modifies env, env.nodes
    ensures after.Valid() && (after == env || fresh(after))
    ensures forall n :: n in after.nodes ==> n in old(env.nodes) || fresh(n)
    ensures op.Reboot? ==> after.Entries() == [] && after.saved == old(env.saved)
  {
    after := env;
    hide Environment.Linked, Stored, AllStorable, Sorted, Storable, Environment.Entries, Environment.Current;
    match op {
      case Set(name, value, force) => var _, _ := env.SetEnv(name, value, force);
      case Unset(name) => var _, _ := env.UnsetEnv(name);
      case Get(name) => var _, _, _ := env.GetEnv(name);
      case Reboot => after := Reopened(env.nv, env.saved);
    }
  }

  /** Any run of operations from empty storage: after every one, restarts among them, the list is sorted and
      linked both ways, and, whenever it is not empty, reading the storage back gives exactly the same list. */
  method Run(ops: seq<Operation>) returns (env: Environment)
    requires forall i :: 0 <= i < |ops| ==> Proper(ops[i])
    ensures env.Valid() && (env.Entries() != [] ==> env.saved == env.Entries())
  {
    hide Environment.Linked, Stored, AllStorable, Sorted, Storable, Proper;
    env := new Environment();
    var i := 0;
    while i < |ops|
      invariant 0 <= i <= |ops| && fresh(env) && env.Valid()
      invariant forall k :: 0 <= k < |env.nodes| ==> fresh(env.nodes[k])
    {
      label before:
      ghost var ns := env.nodes;
      env := Apply(env, ops[i]);
      forall k | 0 <= k < |env.nodes|
        ensures fresh(env.nodes[k])
      {
        var n := env.nodes[k];
        assert n in ns || !old@before(allocated(n));
      }
      i := i + 1;
    }
  }

  /** A restart: the list in memory is gone, storage remains. The next lookup reads back the same list. */
  method Restart(env: Environment) returns (other: Environment)
    requires env.Valid()
    ensures other.Valid() && fresh(other) && other.Entries() == env.saved
  {
    hide Environment.Linked, Stored, AllStorable, Sorted;
    other := Reopened(env.nv, env.saved);
    var _, _ := other.FindEnv([]);
  }

  method Reopened(nv: seq<Byte>, ghost saved: seq<Entry>) returns (env: Environment)
    requires Stored(nv, saved) && AllStorable(saved) && Sorted(saved)
    ensures fresh(env) && env.Valid() && env.nodes == [] && env.saved == saved
  {
    env := new Environment();
    env.nv, env.saved := nv, saved;
  }
}
