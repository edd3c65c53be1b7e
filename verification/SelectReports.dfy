/** What `do_select` reports, over whole runs: nothing but events that were ready when a scan looked, and
    everything that stays ready through the last scan. */
module SelectReports {
  import opened WaitList
  import opened SelectProtocol

  /** What caller c has been told about a descriptor so far. */
  function Told(s: Sys, c: nat, fd: nat): (events: set<Event>)
  {
    if c in s.callers && fd < |s.callers[c].got| then s.callers[c].got[fd] else {}
  }

  /** The step begins a new call of caller c. */
  predicate Begins(a: Action, c: nat) { a.Start? && a.c == c }

  // ---- one step ----

  /** Until the next call nothing that was reported is taken back, and the request stays. */
  lemma ReportsStay(s: Sys, a: Action, c: nat, fd: nat)
    requires Enabled(s, a) && !Begins(a, c) && c in s.callers
    ensures c in Next(s, a).callers && Next(s, a).callers[c].want == s.callers[c].want
    ensures Told(s, c, fd) <= Told(Next(s, a), c, fd)
  {
    hide Woken, Unhooked;
  }

  /** Whatever a step adds to a report is requested, and ready on that descriptor at that moment. */
  lemma ReportsReady(s: Sys, a: Action, c: nat, fd: nat)
    requires Enabled(s, a) && fd < |s.devs|
    ensures forall e :: e in Told(Next(s, a), c, fd) && e !in Told(s, c, fd) ==>
      e in s.devs[fd].ready && c in s.callers && fd < |s.callers[c].want| && e in s.callers[c].want[fd]
  {
    hide Woken, Unhooked;
  }

  /** The last scan reports every requested event that is ready when it looks. */
  lemma LastScanLooks(s: Sys, c: nat, fd: nat)
    requires Enabled(s, Advance(c)) && s.callers[c].phase == Cleaning(fd) && fd < |s.devs|
    ensures s.devs[fd].ready * s.callers[c].want[fd] <= Told(Next(s, Advance(c)), c, fd)
    ensures Next(s, Advance(c)).callers[c].phase == Cleaning(fd + 1)
  {
    hide Unhooked;
  }

  /** So do the scans before it. */
  lemma ScanLooks(s: Sys, c: nat, result: set<Event>)
    requires Enabled(s, Sample(c, result))
    ensures var k := s.callers[c];
            s.devs[k.phase.fd].ready * k.want[k.phase.fd] <= Told(Next(s, Sample(c, result)), c, k.phase.fd)
  {
  }

  // ---- whole runs ----

  /** e is ready on the descriptor in every state of the run. */
  ghost predicate AlwaysReady(s: Sys, actions: seq<Action>, fd: nat, e: Event, early: bool)
    decreases |actions|
  {
    && fd < |s.devs| && e in s.devs[fd].ready
    && (actions != [] ==>
        Allowed(s, actions[0], early) && AlwaysReady(Next(s, actions[0]), actions[1..], fd, e, early))
  }

  /** e is ready on the descriptor in some state of the run. */
  ghost predicate EverReady(s: Sys, actions: seq<Action>, fd: nat, e: Event, early: bool)
    decreases |actions|
  {
    || (fd < |s.devs| && e in s.devs[fd].ready)
    || (actions != [] && Allowed(s, actions[0], early)
        && EverReady(Next(s, actions[0]), actions[1..], fd, e, early))
  }

  /** The run belongs to one call of caller c. */
  ghost predicate SameCall(actions: seq<Action>, c: nat) { forall i :: 0 <= i < |actions| ==> !Begins(actions[i], c) }

  /** Between the start of the last scan of a call and its return: before descriptor fd, or with e reported. */
  ghost predicate InLastScan(s: Sys, c: nat, fd: nat, e: Event)
  {
    && c in s.callers && |s.callers[c].want| == |s.callers[c].got| == |s.devs| && fd < |s.devs|
    && e in s.callers[c].want[fd]
    && match s.callers[c].phase
       case Cleaning(i) => i <= fd || e in s.callers[c].got[fd]
       case Returned => e in s.callers[c].got[fd]
       case _ => false
  }

  lemma LastScanStep(s: Sys, a: Action, c: nat, fd: nat, e: Event)
    requires Enabled(s, a) && !Begins(a, c) && InLastScan(s, c, fd, e) && e in s.devs[fd].ready
    ensures InLastScan(Next(s, a), c, fd, e)
  {
    hide Woken, Unhooked;
  }

  /** On return every requested event that was ready throughout the last scan is reported. */
  lemma {:induction false} LastScanReports(s: Sys, actions: seq<Action>, end: Sys, c: nat, fd: nat, e: Event,
                                           early: bool)
    requires Run(s, actions, end, early) && SameCall(actions, c) && AlwaysReady(s, actions, fd, e, early)
    requires InLastScan(s, c, fd, e)
    ensures InLastScan(end, c, fd, e)
    decreases |actions|
  {
    hide Next, Enabled, InLastScan;
    if actions != [] {
      LastScanStep(s, actions[0], c, fd, e);
      LastScanReports(Next(s, actions[0]), actions[1..], end, c, fd, e, early);
    }
  }

  /** The call returns with the event: from any state at the beginning of the last scan. */
  lemma ReadyIsReported(s: Sys, actions: seq<Action>, end: Sys, c: nat, fd: nat, e: Event, early: bool)
    requires Run(s, actions, end, early) && SameCall(actions, c) && AlwaysReady(s, actions, fd, e, early)
    requires c in s.callers && |s.callers[c].want| == |s.callers[c].got| == |s.devs| && fd < |s.devs|
    requires s.callers[c].phase == Cleaning(0) && e in s.callers[c].want[fd]
    requires c in end.callers && end.callers[c].phase == Returned
    ensures e in Told(end, c, fd)
  {
    hide Run, AlwaysReady;
    LastScanReports(s, actions, end, c, fd, e, early);
  }

  /** Nothing is reported that was not ready at some moment of the run. */
  lemma {:induction false} ReportedWasReady(s: Sys, actions: seq<Action>, end: Sys, c: nat, fd: nat, e: Event,
                                            early: bool)
    requires Run(s, actions, end, early) && fd < |s.devs| && e in Told(end, c, fd) && e !in Told(s, c, fd)
    ensures EverReady(s, actions, fd, e, early)
    decreases |actions|
  {
    hide Next, Enabled, Told;
    if actions != [] {
      var t := Next(s, actions[0]);
      DevicesStay(s, actions[0]);
      if e in Told(t, c, fd) {
        ReportsReady(s, actions[0], c, fd);
      } else {
        ReportedWasReady(t, actions[1..], end, c, fd, e, early);
      }
    }
  }

  lemma DevicesStay(s: Sys, a: Action)
    requires Enabled(s, a)
    ensures |Next(s, a).devs| == |s.devs|
  {
    hide Woken, Unhooked;
  }

  // ---- who sleeps has nothing to report ----

  /** A scan that has counted nothing, and everything after it up to the wakeup, has reported nothing. */
  ghost predicate Quiet(k: Caller)
  {
    (match k.phase
     case Scanning(_, _, count) => count == 0
     case Rescanning(_, count) => count == 0
     case Waiting => true
     case Asleep => true
     case _ => false)
    ==> forall fd :: 0 <= fd < |k.got| ==> k.got[fd] == {}
  }

  lemma QuietStep(s: Sys, a: Action, c: nat)
    requires Enabled(s, a) && (c in s.callers ==> Quiet(s.callers[c]))
    ensures c in Next(s, a).callers ==> Quiet(Next(s, a).callers[c])
  {
    hide Woken, Unhooked;
  }

  /** In every reachable state a caller that waits or sleeps has seen no event. */
  lemma {:induction false} SleepsUninformed(s: Sys, actions: seq<Action>, end: Sys, c: nat, early: bool)
    requires Run(s, actions, end, early) && (c in s.callers ==> Quiet(s.callers[c]))
    ensures c in end.callers ==> Quiet(end.callers[c])
    decreases |actions|
  {
    hide Next, Enabled, Quiet;
    if actions != [] {
      QuietStep(s, actions[0], c);
      SleepsUninformed(Next(s, actions[0]), actions[1..], end, c, early);
    }
  }

  // ---- every call makes progress ----

  /** The steps that move a call on, in the order of its phases. */
  lemma PhasesInOrder(s: Sys, c: nat)
    requires c in s.callers && |s.callers[c].want| == |s.callers[c].got| == |s.devs|
    ensures var k, n := s.callers[c], |s.devs|;
            && (k.phase == Scanning(n, Fresh, 0) ==> Next(s, Advance(c)).callers[c].phase == Rescanning(0, 0))
            && (k.phase == Rescanning(n, 0) ==> Next(s, Advance(c)).callers[c].phase == Waiting)
            && (k.phase == Cleaning(n) ==> Next(s, Advance(c)).callers[c].phase == Returned)
            && (k.phase == Waiting && !k.signalled ==> Next(s, Sleep(c)).callers[c].phase == Asleep)
            && (k.phase == Waiting && k.signalled ==> Next(s, Sleep(c)).callers[c].phase == Cleaning(0))
            && (k.phase == Asleep && k.signalled ==> Next(s, Resume(c)).callers[c].phase == Cleaning(0))
    ensures forall i: nat :: i > 0 && s.callers[c].phase == Scanning(|s.devs|, Fresh, i) ==>
      Next(s, Advance(c)).callers[c].phase == Cleaning(0)
    ensures forall i: nat :: i > 0 && s.callers[c].phase == Rescanning(|s.devs|, i) ==>
      Next(s, Advance(c)).callers[c].phase == Cleaning(0)
  {
    hide Unhooked;
  }

  /** A driver is only ever halfway through a descriptor with a request. */
  predicate HalfOk(k: Caller)
  {
    k.phase.Scanning? && k.phase.half != Fresh ==> k.phase.fd < |k.want| && k.want[k.phase.fd] != {}
  }

  lemma HalfStep(s: Sys, a: Action, c: nat)
    requires Enabled(s, a) && (c in s.callers ==> HalfOk(s.callers[c]))
    ensures c in Next(s, a).callers ==> HalfOk(Next(s, a).callers[c])
  {
    hide Woken, Unhooked;
  }

  lemma {:induction false} HalvesOk(s: Sys, actions: seq<Action>, end: Sys, c: nat, early: bool)
    requires Run(s, actions, end, early) && (c in s.callers ==> HalfOk(s.callers[c]))
    ensures c in end.callers ==> HalfOk(end.callers[c])
    decreases |actions|
  {
    hide Next, Enabled, HalfOk;
    if actions != [] {
      HalfStep(s, actions[0], c);
      HalvesOk(Next(s, actions[0]), actions[1..], end, c, early);
    }
  }

  /** In every reachable state a caller that has not returned can take a step, if only that of its timeout while
      it sleeps. */
  lemma CallsGoOn(start: Sys, actions: seq<Action>, s: Sys, c: nat) returns (a: Action)
    requires Initial(start) && Run(start, actions, s, false) && c in s.callers && s.callers[c].phase != Returned
    ensures Enabled(s, a) && Actor(a) == c && !a.Start? && (a.Timeout? ==> s.callers[c].phase == Asleep)
  {
    hide Run, FdOk;
    InitialOk(start, false);
    RunOk(start, actions, s, false);
    HalvesOk(start, actions, s, c, false);
    var k := s.callers[c];
    assert CallerOk(s, c, k, false);
    match k.phase {
      case Scanning(fd, half, _) =>
        if fd == |s.devs| || k.want[fd] == {} {
          a := Advance(c);
        } else if half == Registered {
          a := Sample(c, s.devs[fd].ready);
        } else {
          a := Register(c);
        }
      case Rescanning(fd, _) =>
        a := if fd == |s.devs| || k.want[fd] == {} then Advance(c) else Sample(c, s.devs[fd].ready);
      case Waiting => a := Sleep(c);
      case Asleep => a := Timeout(c);
      case Cleaning(_) => a := Advance(c);
    }
  }

  /** The steps still to come: three scans with up to two steps a descriptor in the first, and the wait. */
  function Remaining(k: Caller, n: nat): (r: int)
  {
    match k.phase
    case Scanning(fd, half, _) => 2 * (n - fd) + 2 * n + 6 + if half == Fresh then 0 else -1
    case Rescanning(fd, _) => 2 * n - fd + 5
    case Waiting => n + 4
    case Asleep => n + 3
    case Cleaning(fd) => n - fd + 1
    case Returned => 0
  }

  /** Every step of a call brings its return closer, and no other step puts it off: with n descriptors a call
      returns after at most 4 n + 6 steps of its own. */
  lemma StepsRunOut(s: Sys, a: Action, c: nat)
    requires Enabled(s, a) && c in s.callers && !Begins(a, c)
    requires |s.callers[c].want| == |s.callers[c].got| == |s.devs| && PhaseOk(s.callers[c].phase, |s.devs|)
    ensures 0 <= Remaining(s.callers[c], |s.devs|) <= 4 * |s.devs| + 6
    ensures c in Next(s, a).callers && Remaining(Next(s, a).callers[c], |s.devs|)
            <= Remaining(s.callers[c], |s.devs|) - (if Actor(a) == c then 1 else 0)
  {
    hide Woken, Unhooked;
  }

  /** How many steps of a run are caller c's own. */
  function OwnSteps(actions: seq<Action>, c: nat): (n: nat)
  {
    if actions == [] then 0 else (if Actor(actions[0]) == c then 1 else 0) + OwnSteps(actions[1..], c)
  }

  /** Over any run of one call, whatever the others do in between. */
  lemma {:induction false} CallIsShort(s: Sys, actions: seq<Action>, end: Sys, c: nat, early: bool)
    requires Inv(s, early) && Run(s, actions, end, early) && SameCall(actions, c) && c in s.callers
    ensures c in end.callers && |end.devs| == |s.devs|
    ensures OwnSteps(actions, c) + Remaining(end.callers[c], |s.devs|) <= Remaining(s.callers[c], |s.devs|)
    ensures Remaining(end.callers[c], |s.devs|) >= 0 && OwnSteps(actions, c) <= 4 * |s.devs| + 6
    decreases |actions|
  {
    hide Next, Enabled, Inv, Remaining;
    InvMeans(s, c, early);
    RemainingBounds(s.callers[c], |s.devs|);
    if actions != [] {
      NextOk(s, actions[0], early);
      StepsRunOut(s, actions[0], c);
      DevicesStay(s, actions[0]);
      CallIsShort(Next(s, actions[0]), actions[1..], end, c, early);
    }
  }

  lemma InvMeans(s: Sys, c: nat, early: bool)
    requires Inv(s, early) && c in s.callers
    ensures |s.callers[c].want| == |s.callers[c].got| == |s.devs| && PhaseOk(s.callers[c].phase, |s.devs|)
  {
    assert CallerOk(s, c, s.callers[c], early);
  }

  lemma RemainingBounds(k: Caller, n: nat)
    requires PhaseOk(k.phase, n)
    ensures 0 <= Remaining(k, n) <= 4 * n + 6
  {
  }
}
