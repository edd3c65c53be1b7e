/** The wait lists of nut/crt/select.c: entries of sleeping callers, hung on devices. */
module WaitList {
  datatype Event = Readable | Writable | Exceptional

  /** An entry: whose event queue, and the events it waits for. */
  datatype WqEntry = WqEntry(wq: nat, flags: set<Event>)

  /** The entries of one queue, and all the others, in list order. */
  function Mine(list: seq<WqEntry>, wq: nat): (r: seq<WqEntry>)
  {
    if list == [] then [] else (if list[0].wq == wq then [list[0]] else []) + Mine(list[1..], wq)
  }

  function Others(list: seq<WqEntry>, wq: nat): (r: seq<WqEntry>)
  {
    if list == [] then [] else (if list[0].wq == wq then [] else [list[0]]) + Others(list[1..], wq)
  }

  /** Without the first entry of the queue. */
  function Unhooked(list: seq<WqEntry>, wq: nat): (r: seq<WqEntry>)
  {
    if list == [] then [] else if list[0].wq == wq then list[1..] else [list[0]] + Unhooked(list[1..], wq)
  }

  /** Removing the first entry of a queue leaves the others in their order. */
  lemma {:induction false} UnhookedKeepsOthers(list: seq<WqEntry>, wq: nat)
    ensures Others(Unhooked(list, wq), wq) == Others(list, wq)
    ensures Mine(Unhooked(list, wq), wq) == if Mine(list, wq) == [] then [] else Mine(list, wq)[1..]
  {
    if list != [] && list[0].wq != wq {
      UnhookedKeepsOthers(list[1..], wq);
      var u := Unhooked(list, wq);
      assert u[0] == list[0] && u[1..] == Unhooked(list[1..], wq);
    }
  }

  /** What one queue does leaves the entries of any other queue alone. */
  lemma {:induction false} UnhookedOther(list: seq<WqEntry>, wq: nat, other: nat)
    requires other != wq
    ensures Mine(Unhooked(list, wq), other) == Mine(list, other)
  {
    if list != [] && list[0].wq != wq {
      UnhookedOther(list[1..], wq, other);
      var u := Unhooked(list, wq);
      assert u[0] == list[0] && u[1..] == Unhooked(list[1..], wq);
    }
  }

  lemma Hooked(list: seq<WqEntry>, e: WqEntry, other: nat)
    ensures Mine([e] + list, e.wq) == [e] + Mine(list, e.wq) && Others([e] + list, e.wq) == Others(list, e.wq)
    ensures other != e.wq ==> Mine([e] + list, other) == Mine(list, other)
  {
    assert ([e] + list)[1..] == list;
  }

  datatype Command = Nop | Init | Cleanup

  /** `NutSelectManageWq`: an entry is put at the head of the list, or the first one of the queue is
      taken out. None stands for a null queue handle. */
  method ManageWq(list: seq<WqEntry>, wq: nat, hasWq: bool, flags: set<Event>, cmd: Command) returns (r: seq<WqEntry>)
    ensures cmd == Nop || !hasWq || flags == {} ==> r == list
    ensures cmd == Init && hasWq && flags != {} ==> r == [WqEntry(wq, flags)] + list
    ensures cmd == Cleanup && hasWq && flags != {} ==> r == Unhooked(list, wq)
  {
    r := list;
    if cmd != Nop && hasWq && flags != {} {
      if cmd == Init {
        r := [WqEntry(wq, flags)] + list;
      } else {
        var i := 0;
        while i < |list|
          invariant 0 <= i <= |list| && forall j :: 0 <= j < i ==> list[j].wq != wq
        {
          if list[i].wq == wq {
            r := list[..i] + list[i + 1..];
            UnhookedAt(list, wq, i);
            return;
          }
          i := i + 1;
        }
        UnhookedNone(list, wq);
      }
    }
  }

  lemma {:induction false} UnhookedAt(list: seq<WqEntry>, wq: nat, i: nat)
    requires i < |list| && list[i].wq == wq && forall j :: 0 <= j < i ==> list[j].wq != wq
    ensures Unhooked(list, wq) == list[..i] + list[i + 1..]
  {
    if i > 0 { UnhookedAt(list[1..], wq, i - 1); }
  }

  lemma {:induction false} UnhookedNone(list: seq<WqEntry>, wq: nat)
    requires forall j :: 0 <= j < |list| ==> list[j].wq != wq
    ensures Unhooked(list, wq) == list
  {
    if list != [] { UnhookedNone(list[1..], wq); }
  }

  /** `NutSelectWakeup`: the queues that a wakeup with these events signals. */
  function Woken(list: seq<WqEntry>, events: set<Event>): (r: set<nat>)
  {
    if list == [] then {} else (if list[0].flags * events != {} then {list[0].wq} else {}) + Woken(list[1..], events)
  }

  method SelectWakeup(list: seq<WqEntry>, events: set<Event>) returns (posted: set<nat>)
    ensures posted == Woken(list, events)
  {
    posted := {};
    var i := 0;
    assert list[0..] == list;
    while i < |list|
      invariant 0 <= i <= |list| && Woken(list, events) == posted + Woken(list[i..], events)
    {
      if list[i].flags * events != {} { posted := posted + {list[i].wq}; }
      i := i + 1;
    }
  }

  /** A queue with an interested entry is signalled. */
  lemma {:induction false} InterestedWoken(list: seq<WqEntry>, events: set<Event>, e: WqEntry)
    requires e in Mine(list, e.wq) && e.flags * events != {}
    ensures e.wq in Woken(list, events)
  {
    if list[0].wq != e.wq || list[0] != e { InterestedWoken(list[1..], events, e); }
  }

  /** A queue is signalled if and only if one of its entries, wherever it stands, waits for one of the events. */
  lemma {:induction false} WokenIs(list: seq<WqEntry>, events: set<Event>, q: nat)
    ensures q in Woken(list, events) <==>
      exists i :: 0 <= i < |list| && list[i].wq == q && list[i].flags * events != {}
  {
    if list != [] {
      WokenIs(list[1..], events, q);
      if q in Woken(list[1..], events) {
        var i :| 0 <= i < |list[1..]| && list[1..][i].wq == q && list[1..][i].flags * events != {};
        assert list[i + 1] == list[1..][i];
      }
      if i :| 0 <= i < |list| && list[i].wq == q && list[i].flags * events != {} {
        if i > 0 { assert list[1..][i - 1] == list[i]; }
      }
    }
  }
}
