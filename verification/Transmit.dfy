/** The two-slot transmit queue of nut/dev/dm9000.c, shared between `DmOutput` callers under a mutex and
    the transmit-complete interrupt. */
module Transmit {
  /** A frame: an identity and its length in bytes as computed by `DmOutput`. */
  datatype Frame = Frame(id: nat, size: nat)

  /** The driver's fields, and the controller: what it is sending, its transmit-complete flag, and the
      frame in its memory that has not been started. started and accepted are the history. */
  datatype Tx = Tx(queued: nat, quelen: nat, insane: bool, sending: bool, complete: bool, waiting: seq<Frame>,
                   started: seq<Frame>, accepted: seq<Frame>, overlap: bool)

  /** A transmit request with the length in the two TXPL registers: the controller sends the oldest frame
      in its memory, cut or extended to that length. */
  function Start(t: Tx, lowByte: nat, highByte: nat): (r: Tx)
  {
    if t.waiting == [] then t
    else
      var f := t.waiting[0];
      t.(sending := true, overlap := t.overlap || t.sending, waiting := t.waiting[1..],
         started := t.started + [Frame(f.id, lowByte + 256 * highByte)])
  }

  /** The transmit part of `NicInterrupt`. */
  function AfterInterrupt(t: Tx): (r: Tx)
    requires t.complete
  {
    var t1 :=
      if t.queued > 0 then
        var t2 := if t.quelen != 0 then Start(t, t.quelen % 256, t.quelen / 256 % 256).(quelen := 0) else t;
        t2.(queued := t2.queued - 1)
      else t;
    t1.(complete := false)
  }

  /** `NicPutPacket`, with interrupts disabled. */
  function AfterPut(t: Tx, f: Frame): (r: Tx)
    requires !t.insane
  {
    var t1 := t.(waiting := t.waiting + [f], accepted := t.accepted + [f]);
    var t2 := if t.queued == 0 then Start(t1, f.size % 256, f.size / 256 % 256) else t1.(quelen := f.size);
    t2.(queued := t2.queued + 1)
  }

  class NicInfo {
    var txQueued: nat
    var txQuelen: nat
    var insane: bool
    ghost var chip: Tx

    /** The fields and the model of the controller agree. */
    ghost predicate Matches()
      reads this
    {
      chip.queued == txQueued && chip.quelen == txQuelen && chip.insane == insane
    }

    /** The transmit branch of the interrupt handler; start tells that a transmit request was made. */
    method TransmitInterrupt() returns (start: bool, len: nat)
      requires Matches() && chip.complete
      modifies this
      ensures Matches() && chip == AfterInterrupt(old(chip))
      ensures (start <==> old(txQueued) > 0 && old(txQuelen) != 0) && (start ==> len == old(txQuelen))
    {
      chip := AfterInterrupt(chip);
      start, len := false, 0;
      if txQueued != 0 {
        if txQuelen != 0 {
          start, len := true, txQuelen;
          txQuelen := 0;
        }
        txQueued := txQueued - 1;
      }
    }

    /** `NicPutPacket`. */
    method PutPacket(f: Frame) returns (rc: int)
      requires Matches()
      modifies this
      ensures Matches() && rc == (if old(insane) then -1 else 0)
      ensures chip == if old(insane) then old(chip) else AfterPut(old(chip), f)
    {
      rc := -1;
      if !insane {
        chip := AfterPut(chip, f);
        if txQueued != 0 { txQuelen := f.size; }
        txQueued := txQueued + 1;
        rc := 0;
      }
    }
  }

  // ---- the protocol ----

  /** Where a `DmOutput` call stands. */
  datatype Phase =
    | Outside(f: Frame)
    | Locked(f: Frame)
    | Putting(f: Frame)
    | AwaitingSpace(f: Frame)
    | Settling(f: Frame)
    | Finished(sent: bool)

  datatype Sys = Sys(tx: Tx, threads: map<nat, Phase>, owner: int)

  datatype Action =
    | Call(th: nat, f: Frame)
    | Lock(th: nat)
    | Check(th: nat)
    | Put(th: nat)
    | SpaceSignalled(th: nat)
    | SpaceTimeout(th: nat)
    | Settled(th: nat)
    | GiveUp(th: nat)
    | Transmitted
    | Interrupt
    | Overflow

  predicate Holds(s: Sys, th: nat) { th in s.threads && s.owner == th }

  predicate Enabled(s: Sys, a: Action)
  {
    match a
    case Call(th, f) => th !in s.threads || s.threads[th].Finished?
    case Lock(th) => th in s.threads && s.threads[th].Outside? && s.owner == -1
    case Check(th) => Holds(s, th) && s.threads[th].Locked?
    case Put(th) => Holds(s, th) && s.threads[th].Putting?
    case SpaceSignalled(th) => Holds(s, th) && s.threads[th].AwaitingSpace?
    case SpaceTimeout(th) => Holds(s, th) && s.threads[th].AwaitingSpace?
    case Settled(th) => Holds(s, th) && s.threads[th].Settling?
    case GiveUp(th) => th in s.threads && s.threads[th].Outside?
    case Transmitted => s.tx.sending
    case Interrupt => s.tx.complete
    case Overflow => true
  }

  function To(s: Sys, th: nat, p: Phase): (r: Sys) { s.(threads := s.threads[th := p]) }

  function Unlock(s: Sys): (r: Sys) { s.(owner := -1) }

  function Next(s: Sys, a: Action): (t: Sys)
    requires Enabled(s, a)
  {
    match a
    case Call(th, f) => To(s, th, Outside(f))
    case Lock(th) => To(s, th, Locked(s.threads[th].f)).(owner := th)
    case Check(th) => To(s, th, if s.tx.queued > 1 then AwaitingSpace(s.threads[th].f) else Putting(s.threads[th].f))
    case Put(th) =>
      var f := s.threads[th].f;
      if s.tx.insane then Unlock(To(s, th, Outside(f))) else To(s, th, Settling(f)).(tx := AfterPut(s.tx, f))
    case SpaceSignalled(th) => Unlock(To(s, th, Outside(s.threads[th].f)))
    case SpaceTimeout(th) => Unlock(To(s, th, Finished(false)))
    case Settled(th) => Unlock(To(s, th, Finished(true)))
    case GiveUp(th) => To(s, th, Finished(false))
    case Transmitted => s.(tx := s.tx.(sending := false, complete := true))
    case Interrupt => s.(tx := AfterInterrupt(s.tx))
    case Overflow => s.(tx := s.tx.(insane := true))
  }

  /** Frame lengths that the registers can hold. */
  predicate Sendable(f: Frame) { 0 < f.size < 65536 }

  predicate AllSendable(fs: seq<Frame>) { forall i :: 0 <= i < |fs| ==> Sendable(fs[i]) }

  /** The queue counts 0, 1 or 2; a length is stored exactly with two; something is being sent, or its
      completion is still to be handled, exactly when the queue is not empty; and the frames started,
      followed by the one waiting, are the frames accepted, in order and at full length. */
  predicate TxOk(t: Tx)
  {
    && t.queued <= 2 && (t.quelen != 0 <==> t.queued == 2) && !t.overlap
    && !(t.sending && t.complete) && (t.queued > 0 <==> t.sending || t.complete)
    && |t.waiting| == (if t.queued == 2 then 1 else 0) && (t.queued == 2 ==> t.quelen == t.waiting[0].size)
    && t.started + t.waiting == t.accepted && AllSendable(t.accepted)
  }

  predicate PhaseSendable(p: Phase) { !p.Finished? ==> Sendable(p.f) }

  ghost predicate Inv(s: Sys)
  {
    && TxOk(s.tx)
    && (forall th :: th in s.threads ==> PhaseSendable(s.threads[th]))
    && (forall th :: th in s.threads && s.owner != th ==> s.threads[th].Outside? || s.threads[th].Finished?)
    && (forall th :: th in s.threads && s.threads[th].Putting? ==> s.tx.queued <= 1)
  }

  lemma RegisterBytes(n: nat)
    requires n < 65536
    ensures n % 256 + 256 * (n / 256 % 256) == n
  {
  }

  lemma PutOk(t: Tx, f: Frame)
    requires TxOk(t) && t.queued <= 1 && Sendable(f) && !t.insane
    ensures TxOk(AfterPut(t, f)) && AfterPut(t, f).queued == t.queued + 1
  {
    RegisterBytes(f.size);
    assert t.waiting == [] && t.waiting + [f] == [f];
    assert t.started + [] == t.started && [f][1..] == [];
    var r := AfterPut(t, f);
    if t.queued == 0 {
      assert r.started == t.started + [f] && r.waiting == [];
    } else {
      assert r.waiting == [f] && r.started == t.started;
    }
  }

  lemma InterruptOk(t: Tx)
    requires TxOk(t) && t.complete
    ensures TxOk(AfterInterrupt(t)) && AfterInterrupt(t).queued == t.queued - 1
  {
    var r := AfterInterrupt(t);
    if t.queued == 2 {
      var f := t.waiting[0];
      assert t.waiting == [f] && t.accepted[|t.started|] == f;
      RegisterBytes(f.size);
      assert r.started == t.started + [f] && r.waiting == [];
    }
  }

  /** Only sendable frames are handed over. */
  predicate Sane(a: Action) { a.Call? ==> Sendable(a.f) }

  lemma NextOk(s: Sys, a: Action)
    requires Inv(s) && Enabled(s, a) && Sane(a)
    ensures Inv(Next(s, a))
  {
    hide TxOk, AfterPut, AfterInterrupt;
    QueuedAtMostTwo(s.tx);
    match a {
      case Put(th) => if !s.tx.insane { PutOk(s.tx, s.threads[th].f); }
      case Interrupt => InterruptOk(s.tx);
      case Transmitted => FlagOk(s.tx);
      case Overflow => FlagOk(s.tx);
      case _ =>
    }
  }

  lemma QueuedAtMostTwo(t: Tx)
    requires TxOk(t)
    ensures t.queued <= 2 && t.sending != (t.complete || t.queued == 0)
  {
  }

  lemma FlagOk(t: Tx)
    requires TxOk(t)
    ensures TxOk(t.(insane := true)) && (t.sending ==> TxOk(t.(sending := false, complete := true)))
  {
  }

  // ---- runs ----

  ghost predicate Run(start: Sys, actions: seq<Action>, end: Sys)
    decreases |actions|
  {
    if actions == [] then end == start
    else Enabled(start, actions[0]) && Sane(actions[0]) && Run(Next(start, actions[0]), actions[1..], end)
  }

  const IDLE: Sys := Sys(Tx(0, 0, false, false, false, [], [], [], false), map[], -1)

  lemma {:induction false} RunOk(start: Sys, actions: seq<Action>, end: Sys)
    requires Inv(start) && Run(start, actions, end)
    ensures Inv(end)
    decreases |actions|
  {
    hide Inv, Next, Enabled;
    if actions != [] {
      NextOk(start, actions[0]);
      RunOk(Next(start, actions[0]), actions[1..], end);
    }
  }

  /** Queue safety over every interleaving: at most two frames, a stored length exactly with two, and every
      accepted frame started once, in order, never while another is being sent. */
  lemma QueueSafe(actions: seq<Action>, s: Sys)
    requires Run(IDLE, actions, s)
    ensures s.tx.queued <= 2 && (s.tx.quelen != 0 <==> s.tx.queued == 2) && !s.tx.overlap
    ensures s.tx.started + s.tx.waiting == s.tx.accepted && |s.tx.waiting| == if s.tx.queued == 2 then 1 else 0
  {
    hide Run;
    RunOk(IDLE, actions, s);
  }

  /** When the queue has drained, everything accepted has been sent. */
  lemma DrainedSentAll(actions: seq<Action>, s: Sys)
    requires Run(IDLE, actions, s) && s.tx.queued == 0
    ensures s.tx.started == s.tx.accepted && !s.tx.sending
  {
    hide Run;
    RunOk(IDLE, actions, s);
    assert s.tx.started + [] == s.tx.started;
  }

  /** A frame is accepted by exactly one kind of step: a successful put, which appends it and, when nothing else
      is queued, starts it at its length. */
  lemma PutAccepts(s: Sys, a: Action)
    requires Inv(s) && Enabled(s, a)
    ensures var t := Next(s, a).tx;
            if a.Put? && !s.tx.insane
            then && t.accepted == s.tx.accepted + [s.threads[a.th].f] && Next(s, a).threads[a.th].Settling?
                 && (s.tx.queued == 0 ==> t.started == s.tx.started + [s.threads[a.th].f] && t.sending)
            else t.accepted == s.tx.accepted
  {
    if a.Put? { RegisterBytes(s.threads[a.th].f.size); }
  }

  /** A call that is about to report success has had its frame accepted. */
  lemma {:induction false} SuccessMeansAccepted(start: Sys, actions: seq<Action>, end: Sys, th: nat)
    requires Inv(start) && Run(start, actions, end)
    requires forall x :: x in start.threads && start.threads[x].Settling? ==> start.threads[x].f in start.tx.accepted
    ensures th in end.threads && end.threads[th].Settling? ==> end.threads[th].f in end.tx.accepted
    decreases |actions|
  {
    hide Inv, Next, Enabled;
    if actions != [] {
      var t := Next(start, actions[0]);
      NextOk(start, actions[0]);
      forall x | x in t.threads && t.threads[x].Settling?
        ensures t.threads[x].f in t.tx.accepted
      {
        SettlingStep(start, actions[0], x);
      }
      SuccessMeansAccepted(t, actions[1..], end, th);
    }
  }

  lemma SettlingStep(s: Sys, a: Action, x: nat)
    requires Inv(s) && Enabled(s, a) && x in Next(s, a).threads && Next(s, a).threads[x].Settling?
    ensures (x in s.threads && s.threads[x] == Next(s, a).threads[x])
            || Next(s, a).threads[x].f in Next(s, a).tx.accepted
    ensures forall f :: f in s.tx.accepted ==> f in Next(s, a).tx.accepted
  {
    hide AfterInterrupt, AfterPut;
    AcceptedGrow(s.tx, if a.Put? then s.threads[a.th].f else Frame(0, 1));
  }

  lemma AcceptedGrow(t: Tx, f: Frame)
    ensures !t.insane ==> AfterPut(t, f).accepted == t.accepted + [f]
    ensures t.complete ==> AfterInterrupt(t).accepted == t.accepted
  {
  }

  /** The mutex admits one caller at a time to the queue. */
  lemma OneAtATime(actions: seq<Action>, s: Sys, x: nat, y: nat)
    requires Run(IDLE, actions, s) && x in s.threads && y in s.threads && x != y
    ensures s.threads[x].Outside? || s.threads[x].Finished? || s.threads[y].Outside? || s.threads[y].Finished?
  {
    hide Run;
    RunOk(IDLE, actions, s);
  }

  /** A queue that is not empty goes on: the controller finishes, and the interrupt that follows takes one frame
      off the count and starts the next. */
  lemma QueueDrains(actions: seq<Action>, s: Sys)
    requires Run(IDLE, actions, s) && s.tx.queued > 0
    ensures Enabled(s, Transmitted) || Enabled(s, Interrupt)
    ensures Enabled(s, Transmitted) ==> Enabled(Next(s, Transmitted), Interrupt)
    ensures Enabled(s, Interrupt) ==>
      && Next(s, Interrupt).tx.queued == s.tx.queued - 1
      && (s.tx.queued == 2 ==> Next(s, Interrupt).tx.sending && Next(s, Interrupt).tx.started == s.tx.accepted)
  {
    hide Run;
    RunOk(IDLE, actions, s);
    if s.tx.complete {
      InterruptOk(s.tx);
      if s.tx.queued == 2 { assert AfterInterrupt(s.tx).started + [] == AfterInterrupt(s.tx).started; }
    }
  }

  /** Every unfinished call can take a step, or waits for the mutex that another one holds. */
  lemma CallsGoOn(actions: seq<Action>, s: Sys, th: nat)
    requires Run(IDLE, actions, s) && th in s.threads && !s.threads[th].Finished?
    ensures || Enabled(s, Lock(th)) || Enabled(s, Check(th)) || Enabled(s, Put(th)) || Enabled(s, Settled(th))
            || Enabled(s, SpaceTimeout(th)) || (s.threads[th].Outside? && s.owner != -1)
  {
    hide Run;
    RunOk(IDLE, actions, s);
  }

  /** The length in `DmOutput`: header and data, made even. */
  function OutputSize(dl: nat, nw: nat, tp: nat, ap: nat): (sz: nat) { (nw + tp + ap + dl + 1) / 2 * 2 }

  /** It is zero only for a frame without any bytes, so that an Ethernet header suffices. */
  lemma OutputSizeSendable(dl: nat, nw: nat, tp: nat, ap: nat, mtu: nat)
    requires dl > 0 && nw + tp + ap <= mtu && mtu + dl < 65534
    ensures Sendable(Frame(0, OutputSize(dl, nw, tp, ap))) && OutputSize(dl, nw, tp, ap) % 2 == 0
    ensures dl + nw + tp + ap <= OutputSize(dl, nw, tp, ap) <= dl + nw + tp + ap + 1
  {
  }

  /** A length of zero would be lost: queued second, it is never started. */
  lemma ZeroLengthLost(t: Tx, f: Frame)
    requires TxOk(t) && t.queued == 1 && !t.insane && f.size == 0
    ensures var u := AfterPut(t, f).(sending := false, complete := true);
            AfterInterrupt(u).queued == 1 && AfterInterrupt(u).started == t.started && !AfterInterrupt(u).sending
  {
  }
}
