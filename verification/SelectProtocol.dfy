/** `do_select` as a protocol: any number of callers and devices, interleaved step by step. A device sets
    its ready flag and later calls `NutSelectWakeup`; a driver's select function looks at the flags and
    manages the wait list in either order. */
module SelectProtocol {
  import opened WaitList

  /** pending: events that became ready and whose wakeup call is still to come. */
  datatype Dev = Dev(ready: set<Event>, pending: set<Event>, waiters: seq<WqEntry>)

  /** How far the driver's select function has come with SELECT_CMD_INIT. */
  datatype Half = Fresh | Sampled | Registered

  datatype Phase =
    | Scanning(fd: nat, half: Half, count: nat)
    | Rescanning(fd: nat, count: nat)
    | Waiting
    | Asleep
    | Cleaning(fd: nat)
    | Returned

  /** want: requested events per descriptor; signalled: the state of its event queue; got: rflags. */
  datatype Caller = Caller(want: seq<set<Event>>, phase: Phase, signalled: bool, got: seq<set<Event>>)

  datatype Sys = Sys(devs: seq<Dev>, callers: map<nat, Caller>)

  datatype Action =
    | BecomeReady(d: nat, e: Event)
    | WakeUp(d: nat)
    | Consume(d: nat, e: Event)
    | Start(c: nat, want: seq<set<Event>>)
    | Sample(c: nat, result: set<Event>)
    | Register(c: nat)
    | Advance(c: nat)
    | Sleep(c: nat)
    | Resume(c: nat)
    | Timeout(c: nat)

  // ---- steps ----

  /** What a driver may report: all requested events that are ready, and nothing that is not. */
  predicate Reportable(d: Dev, want: set<Event>, result: set<Event>) { d.ready * want <= result <= d.ready }

  predicate Enabled(s: Sys, a: Action)
  {
    match a
    case BecomeReady(d, _) => d < |s.devs|
    case WakeUp(d) => d < |s.devs|
    case Consume(d, _) => d < |s.devs|
    case Start(c, want) => |want| == |s.devs| && (c in s.callers ==> s.callers[c].phase == Returned)
    case Sample(c, result) =>
      && c in s.callers && |s.callers[c].want| == |s.callers[c].got| == |s.devs|
      && (var p := s.callers[c].phase;
          && (p.Scanning? || p.Rescanning?) && p.fd < |s.devs| && s.callers[c].want[p.fd] != {}
          && (p.Scanning? ==> p.half != Sampled) && Reportable(s.devs[p.fd], s.callers[c].want[p.fd], result))
    case Register(c) =>
      && c in s.callers && |s.callers[c].want| == |s.devs|
      && (var p := s.callers[c].phase;
          p.Scanning? && p.fd < |s.devs| && s.callers[c].want[p.fd] != {} && p.half != Registered)
    case Advance(c) =>
      && c in s.callers && |s.callers[c].want| == |s.callers[c].got| == |s.devs|
      && (match s.callers[c].phase
          case Scanning(fd, half, _) => half == Fresh && (fd < |s.devs| ==> s.callers[c].want[fd] == {})
          case Rescanning(fd, _) => fd < |s.devs| ==> s.callers[c].want[fd] == {}
          case Cleaning(_) => true
          case _ => false)
    case Sleep(c) => c in s.callers && s.callers[c].phase == Waiting
    case Resume(c) => c in s.callers && s.callers[c].phase == Asleep && s.callers[c].signalled
    case Timeout(c) => c in s.callers && s.callers[c].phase == Asleep
  }

  function Noted(got: seq<set<Event>>, fd: nat, events: set<Event>): (r: seq<set<Event>>)
    requires fd < |got|
  {
    got[fd := got[fd] + events]
  }

  /** One scan step with a result, for the caller alone. */
  function AfterSample(k: Caller, result: set<Event>): (r: Caller)
    requires (k.phase.Scanning? || k.phase.Rescanning?) && k.phase.fd < |k.want| == |k.got|
  {
    var n := if result == {} then 0 else 1;
    var noted := k.(got := Noted(k.got, k.phase.fd, result * k.want[k.phase.fd]));
    match k.phase
    case Scanning(fd, half, count) =>
      noted.(phase := if half == Fresh then Scanning(fd, Sampled, count + n) else Scanning(fd + 1, Fresh, count + n))
    case Rescanning(fd, count) => noted.(phase := Rescanning(fd + 1, count + n))
  }

  function AfterRegister(k: Caller): (r: Caller)
    requires k.phase.Scanning?
  {
    match k.phase
    case Scanning(fd, half, count) =>
      k.(phase := if half == Fresh then Scanning(fd, Registered, count) else Scanning(fd + 1, Fresh, count))
  }

  /** Moving on, at the end of a scan or past a descriptor without requests. */
  function AfterAdvance(k: Caller, n: nat): (r: Caller)
  {
    match k.phase
    case Scanning(fd, half, count) =>
      k.(phase := if fd < n then Scanning(fd + 1, Fresh, count)
                  else if count == 0 then Rescanning(0, 0) else Cleaning(0))
    case Rescanning(fd, count) =>
      k.(phase := if fd < n then Rescanning(fd + 1, count) else if count == 0 then Waiting else Cleaning(0))
    case Cleaning(fd) => k.(phase := if fd < n then Cleaning(fd + 1) else Returned)
    case _ => k
  }

  /** The third scan: note what is ready and take the entry off the list. */
  function Cleaned(s: Sys, c: nat, fd: nat): (r: Sys)
    requires c in s.callers && fd < |s.devs| && |s.callers[c].want| == |s.callers[c].got| == |s.devs|
  {
    var k, d := s.callers[c], s.devs[fd];
    if k.want[fd] == {} then Put(s, c, AfterAdvance(k, |s.devs|))
    else Put(s, c, AfterAdvance(k.(got := Noted(k.got, fd, d.ready * k.want[fd])), |s.devs|))
         .(devs := s.devs[fd := d.(waiters := Unhooked(d.waiters, c))])
  }

  function Put(s: Sys, c: nat, k: Caller): (r: Sys) { s.(callers := s.callers[c := k]) }

  function Signal(callers: map<nat, Caller>, posted: set<nat>): (r: map<nat, Caller>)
  {
    map c | c in callers :: if c in posted then callers[c].(signalled := true) else callers[c]
  }

  function Next(s: Sys, a: Action): (t: Sys)
    requires Enabled(s, a)
  {
    match a
    case BecomeReady(d, e) =>
      s.(devs := s.devs[d := s.devs[d].(ready := s.devs[d].ready + {e}, pending := s.devs[d].pending + {e})])
    case WakeUp(d) =>
      Sys(s.devs[d := s.devs[d].(pending := {})], Signal(s.callers, Woken(s.devs[d].waiters, s.devs[d].pending)))
    case Consume(d, e) => s.(devs := s.devs[d := s.devs[d].(ready := s.devs[d].ready - {e})])
    case Start(c, want) => Put(s, c, Caller(want, Scanning(0, Fresh, 0), false, seq(|want|, i => {})))
    case Sample(c, result) => Put(s, c, AfterSample(s.callers[c], result))
    case Register(c) =>
      var k := s.callers[c];
      var d := s.devs[k.phase.fd];
      Put(s, c, AfterRegister(k))
        .(devs := s.devs[k.phase.fd := d.(waiters := [WqEntry(c, k.want[k.phase.fd])] + d.waiters)])
    case Advance(c) =>
      var k := s.callers[c];
      if k.phase.Cleaning? && k.phase.fd < |s.devs| then Cleaned(s, c, k.phase.fd)
      else Put(s, c, AfterAdvance(k, |s.devs|))
    case Sleep(c) =>
      var k := s.callers[c];
      Put(s, c, if k.signalled then k.(phase := Cleaning(0), signalled := false) else k.(phase := Asleep))
    case Resume(c) => Put(s, c, s.callers[c].(phase := Cleaning(0), signalled := false))
    case Timeout(c) => Put(s, c, s.callers[c].(phase := Cleaning(0)))
  }

  // ---- what every step keeps ----

  /** The caller has an entry on the list of this descriptor. */
  predicate OnList(k: Caller, fd: nat)
    requires fd < |k.want|
  {
    k.want[fd] != {} &&
    match k.phase
    case Scanning(i, half, _) => fd < i || (fd == i && half == Registered)
    case Cleaning(i) => fd >= i
    case Returned => false
    case _ => true
  }

  /** Every requested event that is ready has either signalled the caller or has its wakeup still to come. */
  predicate Covered(d: Dev, want: set<Event>, signalled: bool) { signalled || d.ready * want <= d.pending }

  /** The descriptors that have been seen without an event after the entry was in place. */
  predicate Watched(k: Caller, fd: nat, early: bool)
    requires fd < |k.want|
  {
    match k.phase
    case Scanning(i, _, count) => early && fd < i && count == 0
    case Rescanning(i, count) => fd < i && count == 0
    case Waiting => true
    case Asleep => true
    case _ => false
  }

  /** With `early`, drivers put the entry on the list before they look at their flags. */
  predicate Allowed(s: Sys, a: Action, early: bool)
  {
    && Enabled(s, a)
    && (early && a.Sample? && s.callers[a.c].phase.Scanning? ==> s.callers[a.c].phase.half == Registered)
    && (early && a.Register? ==> s.callers[a.c].phase.half == Fresh)
  }

  predicate FdOk(d: Dev, c: nat, k: Caller, fd: nat, early: bool)
    requires fd < |k.want| == |k.got|
  {
    && Mine(d.waiters, c) == (if OnList(k, fd) then [WqEntry(c, k.want[fd])] else [])
    && (Watched(k, fd, early) && k.want[fd] != {} ==> Covered(d, k.want[fd], k.signalled))
    && k.got[fd] <= k.want[fd]
  }

  predicate PhaseOk(p: Phase, n: nat)
  {
    p.Scanning? || p.Rescanning? || p.Cleaning? ==> p.fd <= n && (p.Scanning? && p.fd == n ==> p.half == Fresh)
  }

  ghost predicate CallerOk(s: Sys, c: nat, k: Caller, early: bool)
  {
    && |k.want| == |k.got| == |s.devs| && PhaseOk(k.phase, |s.devs|)
    && forall fd :: 0 <= fd < |s.devs| ==> FdOk(s.devs[fd], c, k, fd, early)
  }

  ghost predicate Inv(s: Sys, early: bool)
  {
    && (forall c :: c in s.callers ==> CallerOk(s, c, s.callers[c], early))
    && (forall c, fd :: c !in s.callers && 0 <= fd < |s.devs| ==> Mine(s.devs[fd].waiters, c) == [])
  }

  /** A step of one caller that leaves all wait lists alone. */
  lemma PutOk(s: Sys, c: nat, k: Caller, early: bool)
    requires Inv(s, early) && c in s.callers && CallerOk(s, c, k, early)
    ensures Inv(Put(s, c, k), early)
  {
    hide FdOk, Mine;
    var t := Put(s, c, k);
    forall x | x in t.callers
      ensures CallerOk(t, x, t.callers[x], early)
    {
      assert x == c || (x in s.callers && t.callers[x] == s.callers[x]);
    }
  }

  /** A device step that changes neither wait lists nor coverage. */
  lemma DeviceOk(s: Sys, d: nat, dev: Dev, early: bool)
    requires Inv(s, early) && d < |s.devs| && dev.waiters == s.devs[d].waiters
    requires forall want, signalled :: Covered(s.devs[d], want, signalled) ==> Covered(dev, want, signalled)
    ensures Inv(s.(devs := s.devs[d := dev]), early)
  {
    hide Mine;
    var t := s.(devs := s.devs[d := dev]);
    forall c | c in t.callers
      ensures CallerOk(t, c, t.callers[c], early)
    {
      assert CallerOk(s, c, s.callers[c], early);
      forall fd | 0 <= fd < |t.devs|
        ensures FdOk(t.devs[fd], c, t.callers[c], fd, early)
      {
        assert FdOk(s.devs[fd], c, s.callers[c], fd, early);
      }
    }
  }

  /** The wakeup: whoever has an entry for a pending event is signalled. */
  lemma WakeUpOk(s: Sys, d: nat, early: bool)
    requires Inv(s, early) && Enabled(s, WakeUp(d))
    ensures Inv(Next(s, WakeUp(d)), early)
  {
    hide Mine, Woken;
    var t := Next(s, WakeUp(d));
    forall c | c in t.callers
      ensures CallerOk(t, c, t.callers[c], early)
    {
      var k := s.callers[c];
      assert CallerOk(s, c, k, early);
      forall fd | 0 <= fd < |t.devs|
        ensures FdOk(t.devs[fd], c, t.callers[c], fd, early)
      {
        assert FdOk(s.devs[fd], c, k, fd, early);
        if fd == d && Watched(k, fd, early) && k.want[fd] != {} && k.want[fd] * s.devs[d].pending != {} {
          InterestedWoken(s.devs[d].waiters, s.devs[d].pending, WqEntry(c, k.want[fd]));
        }
      }
    }
  }

  lemma SampleOk(s: Sys, c: nat, result: set<Event>, early: bool)
    requires Inv(s, early) && Allowed(s, Sample(c, result), early)
    ensures Inv(Next(s, Sample(c, result)), early)
  {
    hide Mine;
    var k := s.callers[c];
    var k' := AfterSample(k, result);
    assert CallerOk(s, c, k, early);
    forall fd | 0 <= fd < |s.devs|
      ensures FdOk(s.devs[fd], c, k', fd, early)
    {
      assert FdOk(s.devs[fd], c, k, fd, early);
    }
    PutOk(s, c, k', early);
  }

  /** Changing the wait list of one descriptor on behalf of one caller. */
  lemma ListOk(s: Sys, c: nat, k: Caller, fd: nat, list: seq<WqEntry>, early: bool)
    requires Inv(s, early) && c in s.callers && fd < |s.devs|
    requires forall x :: x != c ==> Mine(list, x) == Mine(s.devs[fd].waiters, x)
    requires CallerOk(s.(devs := s.devs[fd := s.devs[fd].(waiters := list)]), c, k, early)
    ensures Inv(Put(s, c, k).(devs := s.devs[fd := s.devs[fd].(waiters := list)]), early)
  {
    hide Mine;
    var t := Put(s, c, k).(devs := s.devs[fd := s.devs[fd].(waiters := list)]);
    forall x | x in t.callers
      ensures CallerOk(t, x, t.callers[x], early)
    {
      if x != c {
        assert CallerOk(s, x, s.callers[x], early);
        forall f | 0 <= f < |t.devs|
          ensures FdOk(t.devs[f], x, t.callers[x], f, early)
        {
          assert FdOk(s.devs[f], x, s.callers[x], f, early);
        }
      } else {
        forall f | 0 <= f < |t.devs|
          ensures FdOk(t.devs[f], c, k, f, early)
        {
          assert FdOk(s.devs[fd := s.devs[fd].(waiters := list)][f], c, k, f, early);
        }
      }
    }
  }

  lemma RegisterOk(s: Sys, c: nat, early: bool)
    requires Inv(s, early) && Allowed(s, Register(c), early)
    ensures Inv(Next(s, Register(c)), early)
  {
    hide Mine;
    var k := s.callers[c];
    var fd := k.phase.fd;
    var e := WqEntry(c, k.want[fd]);
    var list := [e] + s.devs[fd].waiters;
    var k' := AfterRegister(k);
    forall x: nat
      ensures x != c ==> Mine(list, x) == Mine(s.devs[fd].waiters, x)
      ensures Mine(list, c) == [e] + Mine(s.devs[fd].waiters, c)
    {
      Hooked(s.devs[fd].waiters, e, x);
    }
    assert CallerOk(s, c, k, early);
    assert FdOk(s.devs[fd], c, k, fd, early);
    var t := s.(devs := s.devs[fd := s.devs[fd].(waiters := list)]);
    forall f | 0 <= f < |t.devs|
      ensures FdOk(t.devs[f], c, k', f, early)
    {
      assert FdOk(s.devs[f], c, k, f, early);
    }
    ListOk(s, c, k', fd, list, early);
  }

  lemma CleanOk(s: Sys, c: nat, fd: nat, early: bool)
    requires Inv(s, early) && c in s.callers && s.callers[c].phase == Cleaning(fd) && fd < |s.devs|
    requires |s.callers[c].want| == |s.callers[c].got| == |s.devs|
    ensures Inv(Cleaned(s, c, fd), early)
  {
    hide Mine;
    var k, d := s.callers[c], s.devs[fd];
    assert CallerOk(s, c, k, early) && FdOk(d, c, k, fd, early);
    if k.want[fd] == {} {
      var k' := AfterAdvance(k, |s.devs|);
      forall f | 0 <= f < |s.devs|
        ensures FdOk(s.devs[f], c, k', f, early)
      {
        assert FdOk(s.devs[f], c, k, f, early);
      }
      PutOk(s, c, k', early);
    } else {
      var k' := AfterAdvance(k.(got := Noted(k.got, fd, d.ready * k.want[fd])), |s.devs|);
      var list := Unhooked(d.waiters, c);
      UnhookedKeepsOthers(d.waiters, c);
      forall x: nat | x != c
        ensures Mine(list, x) == Mine(d.waiters, x)
      {
        UnhookedOther(d.waiters, c, x);
      }
      var t := s.(devs := s.devs[fd := d.(waiters := list)]);
      forall f | 0 <= f < |t.devs|
        ensures FdOk(t.devs[f], c, k', f, early)
      {
        assert FdOk(s.devs[f], c, k, f, early);
      }
      ListOk(s, c, k', fd, list, early);
    }
  }

  lemma PlainAdvanceOk(s: Sys, c: nat, early: bool)
    requires Inv(s, early) && Enabled(s, Advance(c))
    requires !(s.callers[c].phase.Cleaning? && s.callers[c].phase.fd < |s.devs|)
    ensures Inv(Next(s, Advance(c)), early)
  {
    hide Mine;
    var k := s.callers[c];
    var k' := AfterAdvance(k, |s.devs|);
    assert CallerOk(s, c, k, early);
    forall f | 0 <= f < |s.devs|
      ensures FdOk(s.devs[f], c, k', f, early)
    {
      assert FdOk(s.devs[f], c, k, f, early);
    }
    PutOk(s, c, k', early);
  }

  /** Sleep, Resume and Timeout only move the caller on. */
  lemma WaitOk(s: Sys, c: nat, k': Caller, early: bool)
    requires Inv(s, early) && c in s.callers && (s.callers[c].phase == Waiting || s.callers[c].phase == Asleep)
    requires k'.want == s.callers[c].want && k'.got == s.callers[c].got
    requires k'.phase == Cleaning(0) || (k'.phase == Asleep && k'.signalled == s.callers[c].signalled)
    ensures Inv(Put(s, c, k'), early)
  {
    hide Mine;
    var k := s.callers[c];
    assert CallerOk(s, c, k, early);
    forall f | 0 <= f < |s.devs|
      ensures FdOk(s.devs[f], c, k', f, early)
    {
      assert FdOk(s.devs[f], c, k, f, early);
    }
    PutOk(s, c, k', early);
  }

  lemma StartOk(s: Sys, c: nat, want: seq<set<Event>>, early: bool)
    requires Inv(s, early) && Enabled(s, Start(c, want))
    ensures Inv(Next(s, Start(c, want)), early)
  {
    hide Mine;
    var t := Next(s, Start(c, want));
    forall x | x in t.callers
      ensures CallerOk(t, x, t.callers[x], early)
    {
      if x == c {
        forall f | 0 <= f < |s.devs|
          ensures FdOk(t.devs[f], c, t.callers[c], f, early)
        {
          if c in s.callers { assert FdOk(s.devs[f], c, s.callers[c], f, early); }
        }
      } else {
        assert CallerOk(s, x, s.callers[x], early);
      }
    }
  }

  /** Every step of every caller and device keeps the invariant. */
  lemma NextOk(s: Sys, a: Action, early: bool)
    requires Inv(s, early) && Allowed(s, a, early)
    ensures Inv(Next(s, a), early)
  {
    hide Inv;
    match a {
      case BecomeReady(d, e) =>
        DeviceOk(s, d, s.devs[d].(ready := s.devs[d].ready + {e}, pending := s.devs[d].pending + {e}), early);
      case WakeUp(d) => WakeUpOk(s, d, early);
      case Consume(d, e) => DeviceOk(s, d, s.devs[d].(ready := s.devs[d].ready - {e}), early);
      case Start(c, want) => StartOk(s, c, want, early);
      case Sample(c, result) => SampleOk(s, c, result, early);
      case Register(c) => RegisterOk(s, c, early);
      case Advance(c) =>
        if s.callers[c].phase.Cleaning? && s.callers[c].phase.fd < |s.devs| {
          CleanOk(s, c, s.callers[c].phase.fd, early);
        } else {
          PlainAdvanceOk(s, c, early);
        }
      case Sleep(c) =>
        var k := s.callers[c];
        WaitOk(s, c, if k.signalled then k.(phase := Cleaning(0), signalled := false) else k.(phase := Asleep), early);
      case Resume(c) => WaitOk(s, c, s.callers[c].(phase := Cleaning(0), signalled := false), early);
      case Timeout(c) => WaitOk(s, c, s.callers[c].(phase := Cleaning(0)), early);
    }
  }

  // ---- runs ----

  /** A run from one state to another, any interleaving of allowed steps. */
  ghost predicate Run(start: Sys, actions: seq<Action>, end: Sys, early: bool)
    decreases |actions|
  {
    if actions == [] then end == start
    else Allowed(start, actions[0], early) && Run(Next(start, actions[0]), actions[1..], end, early)
  }

  ghost predicate Initial(s: Sys)
  {
    s.callers == map[] && forall fd :: 0 <= fd < |s.devs| ==> s.devs[fd].waiters == []
  }

  lemma {:induction false} RunOk(start: Sys, actions: seq<Action>, end: Sys, early: bool)
    requires Inv(start, early) && Run(start, actions, end, early)
    ensures Inv(end, early)
    decreases |actions|
  {
    hide Inv, Next, Enabled;
    if actions != [] {
      NextOk(start, actions[0], early);
      RunOk(Next(start, actions[0]), actions[1..], end, early);
    }
  }

  lemma InitialOk(s: Sys, early: bool)
    requires Initial(s)
    ensures Inv(s, early)
  {
  }

  lemma Reached(start: Sys, actions: seq<Action>, s: Sys, early: bool, c: nat, fd: nat)
    requires Initial(start) && Run(start, actions, s, early) && c in s.callers && fd < |s.devs|
    ensures |s.callers[c].want| == |s.callers[c].got| == |s.devs| && FdOk(s.devs[fd], c, s.callers[c], fd, early)
  {
    hide Run, FdOk;
    InitialOk(start, early);
    RunOk(start, actions, s, early);
    assert CallerOk(s, c, s.callers[c], early);
  }

  /** No lost wakeup: in every reachable state, a caller that sleeps with its queue unsignalled has no
      requested event ready whose wakeup is not still to come. */
  lemma NoLostWakeup(start: Sys, actions: seq<Action>, s: Sys, c: nat, fd: nat)
    requires Initial(start) && Run(start, actions, s, false) && c in s.callers && fd < |s.devs|
    requires s.callers[c].phase == Asleep && !s.callers[c].signalled
    ensures fd < |s.callers[c].want| && s.devs[fd].ready * s.callers[c].want[fd] <= s.devs[fd].pending
  {
    hide Run, Mine;
    Reached(start, actions, s, false, c, fd);
  }

  /** On return none of the caller's entries is on any list, and only requested events are reported. */
  lemma ReturnsClean(start: Sys, actions: seq<Action>, s: Sys, c: nat, fd: nat)
    requires Initial(start) && Run(start, actions, s, false) && c in s.callers && fd < |s.devs|
    requires s.callers[c].phase == Returned
    ensures Mine(s.devs[fd].waiters, c) == []
    ensures fd < |s.callers[c].want| == |s.callers[c].got| && s.callers[c].got[fd] <= s.callers[c].want[fd]
  {
    hide Run, Mine;
    Reached(start, actions, s, false, c, fd);
  }

  /** Who takes a step. */
  function Actor(a: Action): (c: int)
  {
    match a
    case Start(c, _) => c case Sample(c, _) => c case Register(c) => c case Advance(c) => c
    case Sleep(c) => c case Resume(c) => c case Timeout(c) => c
    case _ => -1
  }

  /** The steps of one caller leave the entries of all others in their order. */
  lemma OthersKeepOrder(s: Sys, a: Action, fd: nat)
    requires Enabled(s, a) && fd < |s.devs|
    ensures |Next(s, a).devs| == |s.devs|
    ensures Actor(a) >= 0 ==> Others(Next(s, a).devs[fd].waiters, Actor(a)) == Others(s.devs[fd].waiters, Actor(a))
    ensures Actor(a) < 0 ==> Next(s, a).devs[fd].waiters == s.devs[fd].waiters
  {
    hide Mine, Others, Unhooked;
    if a.Register? {
      var k := s.callers[a.c];
      Hooked(s.devs[k.phase.fd].waiters, WqEntry(a.c, k.want[k.phase.fd]), 0);
    }
    if a.Advance? { UnhookedKeepsOthers(s.devs[fd].waiters, a.c); }
  }

  // ---- is the second scan needed? ----

  /** The end of the first scan, without an event. */
  ghost predicate ScannedOnce(s: Sys, c: nat)
  {
    c in s.callers && s.callers[c].phase == Scanning(|s.devs|, Fresh, 0)
  }

  /** Sleeping at once would not lose a wakeup. */
  ghost predicate SafeToSleep(s: Sys, c: nat)
  {
    && c in s.callers && |s.callers[c].want| == |s.devs|
    && forall fd :: 0 <= fd < |s.devs| ==> Covered(s.devs[fd], s.callers[c].want[fd], s.callers[c].signalled)
  }

  /** The comment in `do_select` asks whether the second scan is needed. Not if every driver puts the
      entry on its list before it looks at its flags. */
  lemma OneScanIsEnough(start: Sys, actions: seq<Action>, s: Sys, c: nat)
    requires Initial(start) && Run(start, actions, s, true) && ScannedOnce(s, c) && |s.callers[c].want| == |s.devs|
    ensures SafeToSleep(s, c)
  {
    hide Run, Mine;
    forall fd | 0 <= fd < |s.devs|
      ensures Covered(s.devs[fd], s.callers[c].want[fd], s.callers[c].signalled)
    {
      Reached(start, actions, s, true, c, fd);
    }
  }

  const IDLE: Sys := Sys([Dev({}, {}, [])], map[])

  const REQUEST: seq<set<Event>> := [{Readable}]

  /** It is needed for a driver that looks first: here an event and its wakeup fall between the two. */
  lemma SecondScanNeeded() returns (run: seq<Action>, s: Sys)
    ensures Initial(IDLE) && Run(IDLE, run, s, false) && ScannedOnce(s, 0) && !SafeToSleep(s, 0)
  {
    hide Run;
    var s1 := Next(IDLE, Start(0, REQUEST));
    var s2 := Next(s1, Sample(0, {}));
    assert s2.callers[0].phase == Scanning(0, Sampled, 0) && s2.callers[0].want == REQUEST && s2.devs == IDLE.devs;
    var s3 := Next(s2, BecomeReady(0, Readable));
    var s4 := Next(s3, WakeUp(0));
    assert s4.callers[0] == s2.callers[0] && s4.devs[0].ready == {Readable} && s4.devs[0].pending == {} by {
      assert s3.devs[0].waiters == [];
      assert Woken(s3.devs[0].waiters, s3.devs[0].pending) == {};
    }
    s := Next(s4, Register(0));
    run := [];
    RunNothing(s);
    run := Prefixed(s4, Register(0), run, s);
    run := Prefixed(s3, WakeUp(0), run, s);
    run := Prefixed(s2, BecomeReady(0, Readable), run, s);
    run := Prefixed(s1, Sample(0, {}), run, s);
    run := Prefixed(IDLE, Start(0, REQUEST), run, s);
    assert !Covered(s.devs[0], s.callers[0].want[0], s.callers[0].signalled);
  }

  lemma RunNothing(s: Sys)
    ensures Run(s, [], s, false)
  {
  }

  lemma Prefixed(s: Sys, a: Action, rest: seq<Action>, end: Sys) returns (run: seq<Action>)
    requires Allowed(s, a, false) && Run(Next(s, a), rest, end, false)
    ensures Run(s, run, end, false)
  {
    run := [a] + rest;
    assert run[0] == a && run[1..] == rest;
  }
}
