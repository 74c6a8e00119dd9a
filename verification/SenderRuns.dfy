/** Two laws of the sender that speak about its past: it respects the windows it was offered, and it
    backs off exponentially. */
module SenderRuns {
  import opened Words
  import opened Wrapping
  import opened SenderSpec
  import opened SenderInvariant
  import opened Powers

  // ----- Window discipline

  /** The furthest right edge offered so far by an acknowledgment that was in range when it arrived.  Before any,
      the SYN alone may be sent. */
  function Furthest(c: Config, es: seq<Event>): nat
  {
    if es == [] then 1
    else
      var init, e := es[..|es| - 1], es[|es| - 1];
      var s := Run(c, init);
      if e.Ack? && InRange(s, e.ackno) then Max(Furthest(c, init), AbsoluteAck(s, e.ackno) + e.win)
      else Furthest(c, init)
  }

  /** The offered window is closed and nothing is in flight, so one number may be sent to probe it. */
  predicate Probing(s: Sender) { s.window == 0 && s.remain == 1 && !Flying(s) }

  predicate WithinOffer(s: Sender, furthest: nat)
  {
    && 1 <= furthest
    && s.nextAckno + s.window <= furthest
    && (s.nextAckno + s.remain <= furthest || Probing(s))
  }

  /** What a segment sent for the first time may occupy: no byte at or past the furthest offered edge, and at most a
      FIN right at it; or, as a probe, a single number that may be that edge. */
  predicate Disciplined(f: Flight, furthest: nat, probing: bool)
  {
    && End(f) <= furthest + 1
    && (if probing then Len(f) == 1 else f.start + (if f.syn then 1 else 0) + |f.payload| <= furthest)
  }

  lemma FillStepDisciplined(s: Sender, furthest: nat)
    requires FlightInv(s) && MayFill(s) && WithinOffer(s, furthest)
    ensures Disciplined(NextFlight(s), furthest, Probing(s)) && WithinOffer(FillStep(s), furthest)
    ensures !Probing(FillStep(s))
    ensures Probing(s) ==> !MayFill(FillStep(s))
  {
    FlightBounds(s);
    FillStepProgress(s);
    hide FlightInv;
  }

  ghost predicate AddsDisciplined(s: Sender, s': Sender, furthest: nat)
  {
    && |s.firsts| <= |s'.firsts|
    && (forall k | |s.firsts| <= k < |s'.firsts| :: Disciplined(s'.firsts[k], furthest, Probing(s)))
    && (Probing(s) ==> |s'.firsts| <= |s.firsts| + 1)
    && WithinOffer(s', furthest)
  }

  lemma {:induction false} FillLoopDisciplined(s: Sender, furthest: nat)
    requires FlightInv(s) && WindowInv(s) && s.retired > 0 && WithinOffer(s, furthest)
    ensures AddsDisciplined(s, FillLoop(s), furthest)
    decreases Unsent(s)
  {
    FlightBounds(s);
    if MayFill(s) {
      var t := FillStep(s);
      FillStepProgress(s);
      FillStepKeeps(s);
      FillStepDisciplined(s, furthest);
      FillLoopDisciplined(t, furthest);
      FillLoopKeeps(t);
      hide FlightInv, WindowInv, Disciplined, NextFlight;
      assert FillLoop(s).firsts[|s.firsts|] == t.firsts[|s.firsts|] == NextFlight(s);
    }
  }

  lemma FillDisciplined(s: Sender, furthest: nat)
    requires FlightInv(s) && WindowInv(s) && WithinOffer(s, furthest)
    ensures AddsDisciplined(s, FillWindow(s), furthest)
  {
    PhaseDecided(s);
    FlightBounds(s);
    if s.retired > 0 {
      hide FillLoop;
      FillLoopDisciplined(s, furthest);
    }
  }

  lemma AckWithinOffer(s: Sender, ackno: Seqno, win: U16, furthest: nat)
    requires FlightInv(s) && WithinOffer(s, furthest)
    ensures var furthest' := if InRange(s, ackno) then Max(furthest, AbsoluteAck(s, ackno) + win) else furthest;
            WithinOffer(AckReceived(s, ackno, win), furthest')
  {
    FlightBounds(s);
    var found := FindEnd(s.firsts, s.retired, AbsoluteAck(s, ackno));
    if found.Some? {
      InFlightBounds(s, found.value);
    }
    hide AbsoluteAck, FlightInv;
  }

  lemma StepWithinOffer(s: Sender, e: Event, furthest: nat)
    requires FlightInv(s) && WindowInv(s) && WithinOffer(s, furthest)
    ensures var furthest' := if e.Ack? && InRange(s, e.ackno) then Max(furthest, AbsoluteAck(s, e.ackno) + e.win)
              else furthest;
            WithinOffer(Step(s, e), furthest')
  {
    hide FillWindow, AckReceived, InRange, FlightInv, WindowInv;
    match e
    case Fill => FillDisciplined(s, furthest);
    case Ack(ackno, win) => AckWithinOffer(s, ackno, win, furthest);
    case _ =>
  }

  lemma {:induction false} RunWithinOffer(c: Config, es: seq<Event>)
    requires Legal(c, es)
    ensures WithinOffer(Run(c, es), Furthest(c, es))
  {
    hide Step, WithinOffer, InRange, AbsoluteAck;
    if es == [] {
      NewWithinOffer(c);
    } else {
      var init, e := es[..|es| - 1], es[|es| - 1];
      RunWithinOffer(c, init);
      RunKeeps(c, init);
      StepWithinOffer(Run(c, init), e, Furthest(c, init));
    }
  }

  lemma NewWithinOffer(c: Config)
    ensures WithinOffer(NewSender(c.capacity, c.isn, c.initialRto), 1)
  {
  }

  /** Over any run, whatever acknowledgments arrive: every segment that `fill_window` sends for the first time
      stays within the furthest right edge offered so far, save for a FIN right at it or for the one number that
      probes a closed window. */
  lemma WindowRespected(c: Config, es: seq<Event>)
    requires Legal(c, es)
    ensures AddsDisciplined(Run(c, es), FillWindow(Run(c, es)), Furthest(c, es))
  {
    RunKeeps(c, es);
    RunWithinOffer(c, es);
    FillDisciplined(Run(c, es), Furthest(c, es));
  }

  /** Nothing but `fill_window` sends anything for the first time, and whatever else is queued is a segment in
      flight or empty. */
  lemma OnlyFillSends(s: Sender, e: Event)
    requires !e.Fill?
    ensures Step(s, e).firsts == s.firsts
    ensures e.Drain? || (s.queue <= Step(s, e).queue &&
              forall k | |s.queue| <= k < |Step(s, e).queue| ::
                var f := Step(s, e).queue[k]; Len(f) == 0 || (Flying(s) && f == s.firsts[s.retired]))
  {
    hide AbsoluteAck, FindEnd;
  }

  // ----- Exponential backoff

  predicate Retires(s: Sender, e: Event)
  {
    e.Ack? && FindEnd(s.firsts, s.retired, AbsoluteAck(s, e.ackno)).Some?
  }

  predicate TimesOut(s: Sender, e: Event) { e.TickBy? && Expires(s, e.ms) }

  /** Timeouts since the last acknowledgment that retired a segment. */
  function Timeouts(c: Config, es: seq<Event>): nat
  {
    if es == [] then 0
    else
      var s, e := Run(c, es[..|es| - 1]), es[|es| - 1];
      if Retires(s, e) then 0
      else Timeouts(c, es[..|es| - 1]) + (if TimesOut(s, e) then 1 else 0)
  }

  /** Those of them that happened while the window was open. */
  function Backoffs(c: Config, es: seq<Event>): nat
  {
    if es == [] then 0
    else
      var s, e := Run(c, es[..|es| - 1]), es[|es| - 1];
      if Retires(s, e) then 0
      else Backoffs(c, es[..|es| - 1]) + (if TimesOut(s, e) && s.window != 0 then 1 else 0)
  }

  /** The timer is below the timeout and stopped when nothing is in flight; the timeout is the initial one doubled
      once per backoff; and the timeouts are counted. */
  predicate TimerOk(s: Sender, timeouts: nat, backoffs: nat)
  {
    && s.rto == s.initialRto * Pow2(backoffs)
    && s.timer < s.rto
    && (!Flying(s) ==> s.timer == 0)
    && (timeouts < 0x1_0000 ==> s.timeouts == timeouts)
  }

  lemma FillTimer(s: Sender, timeouts: nat, backoffs: nat)
    requires TimerOk(s, timeouts, backoffs)
    ensures TimerOk(FillWindow(s), timeouts, backoffs)
  {
    hide FillLoop, Pow2;
    FillLoopFrame(s);
  }

  lemma TickTimer(s: Sender, ms: U64, timeouts: nat, backoffs: nat)
    requires TimerOk(s, timeouts, backoffs)
    requires s.initialRto * Pow2(backoffs + 1) < TWO64 || s.window == 0 || !Expires(s, ms)
    ensures var expired := Expires(s, ms);
            TimerOk(Tick(s, ms), timeouts + (if expired then 1 else 0), backoffs
                + (if expired && s.window != 0 then 1 else 0))
  {
    if Expires(s, ms) && s.window != 0 {
      assert s.initialRto * Pow2(backoffs + 1) == 2 * (s.initialRto * Pow2(backoffs));
    }
  }

  lemma StepTimer(s: Sender, e: Event, timeouts: nat, backoffs: nat)
    requires s.initialRto > 0
    requires Retires(s, e) || TimerOk(s, timeouts, backoffs)
    requires s.initialRto * Pow2(backoffs + 1) < TWO64 || s.window == 0 || !TimesOut(s, e)
    ensures if Retires(s, e) then TimerOk(Step(s, e), 0, 0)
            else TimerOk(Step(s, e), timeouts + (if TimesOut(s, e) then 1 else 0),
                         backoffs + (if TimesOut(s, e) && s.window != 0 then 1 else 0))
    ensures Step(s, e).initialRto == s.initialRto
  {
    hide FillWindow, Tick, Expires, AbsoluteAck, FindEnd;
    match e
    case Fill =>
      FillTimer(s, timeouts, backoffs);
      FillInitial(s);
    case TickBy(ms) =>
      TickTimer(s, ms, timeouts, backoffs);
      TickInitial(s, ms);
    case _ =>
  }

  lemma FillInitial(s: Sender)
    ensures FillWindow(s).initialRto == s.initialRto
  {
    hide FillLoop;
    FillLoopFrame(s);
  }

  lemma TickInitial(s: Sender, ms: U64)
    ensures Tick(s, ms).initialRto == s.initialRto
  {
  }

  /** Over any run with a positive initial timeout: the timer stays below the timeout, is stopped when nothing is
      in flight, and the timeout is the initial one doubled once for each timeout with an open window since the
      last acknowledgment that retired a segment, exactly as long as that many doublings fit in 64 bits. */
  lemma {:induction false} BackoffLaw(c: Config, es: seq<Event>)
    requires c.initialRto > 0
    ensures TimerOk(Run(c, es), Timeouts(c, es), Backoffs(c, es)) <==> c.initialRto * Pow2(Backoffs(c, es)) < TWO64
    ensures Run(c, es).initialRto == c.initialRto
  {
    InitialKept(c, es);
    if c.initialRto * Pow2(Backoffs(c, es)) < TWO64 {
      BackoffHolds(c, es);
    }
  }

  lemma {:induction false} BackoffHolds(c: Config, es: seq<Event>)
    requires c.initialRto > 0 && c.initialRto * Pow2(Backoffs(c, es)) < TWO64
    ensures TimerOk(Run(c, es), Timeouts(c, es), Backoffs(c, es))
  {
    hide Step, TimerOk, FindEnd, AbsoluteAck, Expires, Pow2;
    if es == [] {
      NewTimer(c);
    } else {
      var init, e := es[..|es| - 1], es[|es| - 1];
      var s := Run(c, init);
      InitialKept(c, init);
      if !Retires(s, e) {
        DoublingGrows(c.initialRto, Backoffs(c, init));
        BackoffHolds(c, init);
      }
      StepTimer(s, e, Timeouts(c, init), Backoffs(c, init));
    }
  }

  lemma DoublingGrows(initial: U16, n: nat)
    ensures initial * Pow2(n) <= initial * Pow2(n + 1)
  {
    assert initial * Pow2(n + 1) == initial * Pow2(n) + initial * Pow2(n);
  }

  lemma {:induction false} InitialKept(c: Config, es: seq<Event>)
    ensures Run(c, es).initialRto == c.initialRto
  {
    if es != [] {
      var s, e := Run(c, es[..|es| - 1]), es[|es| - 1];
      InitialKept(c, es[..|es| - 1]);
      hide FillWindow, Tick, AbsoluteAck, FindEnd;
      match e
      case Fill => FillInitial(s);
      case TickBy(ms) => TickInitial(s, ms);
      case _ =>
    }
  }

  lemma NewTimer(c: Config)
    requires c.initialRto > 0
    ensures TimerOk(NewSender(c.capacity, c.isn, c.initialRto), 0, 0)
  {
  }

  // ----- Retransmission

  /** Milliseconds that pass during `es`. */
  function Ticks(es: seq<Event>): nat
  {
    if es == [] then 0
    else Ticks(es[..|es| - 1]) + (if es[|es| - 1].TickBy? then es[|es| - 1].ms else 0)
  }

  /** From `s` on, every write is allowed, no acknowledgment retires a segment, and no tick overflows the timer. */
  predicate Waiting(s: Sender, es: seq<Event>)
  {
    es == [] ||
    var t, e := Replay(s, es[..|es| - 1]), es[|es| - 1];
    && Waiting(s, es[..|es| - 1])
    && (e.Write? ==> Writable(t, e.data)) && !Retires(t, e) && (e.TickBy? ==> s.rto + e.ms <= TWO64)
  }

  /** Nothing that matters for the timer has changed but the time. */
  predicate Waited(s: Sender, t: Sender, elapsed: nat)
  {
    && FlightInv(t) && WindowInv(t) && s.firsts <= t.firsts && t.retired == s.retired
    && t.rto == s.rto && t.timer == s.timer + elapsed
  }

  lemma StepWaits(s: Sender, t: Sender, e: Event, elapsed: nat)
    requires Flying(s) && Waited(s, t, elapsed)
    requires (e.Write? ==> Writable(t, e.data)) && !Retires(t, e) && (e.TickBy? ==> s.rto + e.ms <= TWO64)
    requires s.timer + elapsed < s.rto
    ensures var elapsed' := elapsed + (if e.TickBy? then e.ms else 0);
            if s.timer + elapsed' < s.rto then !TimesOut(t, e) && Waited(s, Step(t, e), elapsed')
            else TimesOut(t, e) && Step(t, e).queue == t.queue + [s.firsts[s.retired]]
  {
    hide FlightInv, WindowInv, FillLoop, AbsoluteAck, FindEnd;
    if e.Fill? {
      PhaseDecided(t);
      FlightBounds(t);
      FillLoopFrame(t);
      FillKeeps(t);
    } else {
      StepKeeps(t, e);
    }
  }

  /** As long as the ticks do not add up to the timeout nothing is retransmitted. */
  lemma {:induction false} StillWaiting(s: Sender, es: seq<Event>)
    requires FlightInv(s) && WindowInv(s) && Flying(s) && Waiting(s, es) && s.timer + Ticks(es) < s.rto
    ensures Waited(s, Replay(s, es), Ticks(es))
  {
    hide FlightInv, WindowInv, Step, Waited, Retires;
    if es == [] {
      NotWaited(s);
    } else {
      StillWaiting(s, es[..|es| - 1]);
      StepWaits(s, Replay(s, es[..|es| - 1]), es[|es| - 1], Ticks(es[..|es| - 1]));
    }
  }

  lemma NotWaited(s: Sender)
    requires FlightInv(s) && WindowInv(s)
    ensures Waited(s, s, 0)
  {
  }

  /** With something in flight, and no acknowledgment that retires it, the oldest segment is queued again by the very
      tick at which the ticks add up to the timeout, whatever else happens in between. */
  lemma {:induction false} RetransmittedInTime(s: Sender, es: seq<Event>) returns (k: nat)
    requires FlightInv(s) && WindowInv(s) && Flying(s) && Waiting(s, es)
    requires s.timer < s.rto <= s.timer + Ticks(es)
    ensures k < |es| && s.timer + Ticks(es[..k]) < s.rto <= s.timer + Ticks(es[..k + 1])
    ensures TimesOut(Replay(s, es[..k]), es[k])
    ensures Replay(s, es[..k + 1]).queue == Replay(s, es[..k]).queue + [s.firsts[s.retired]]
    ensures s.firsts[s.retired].start == s.nextAckno
  {
    hide FlightInv, WindowInv, Step, Waited, Retires;
    InFlightBounds(s, s.retired);
    var init, e := es[..|es| - 1], es[|es| - 1];
    if s.rto <= s.timer + Ticks(init) {
      k := RetransmittedInTime(s, init);
      assert init[..k] == es[..k] && init[..k + 1] == es[..k + 1];
    } else {
      k := |es| - 1;
      assert es[..k + 1] == es;
      StillWaiting(s, init);
      StepWaits(s, Replay(s, init), e, Ticks(init));
    }
  }

  /** In a run the timer is below the timeout to begin with. */
  lemma RetransmittedInRun(c: Config, es: seq<Event>, more: seq<Event>) returns (k: nat)
    requires c.initialRto > 0 && c.initialRto * Pow2(Backoffs(c, es)) < TWO64
    requires Legal(c, es) && Flying(Run(c, es)) && Waiting(Run(c, es), more)
    requires Run(c, es).rto <= Run(c, es).timer + Ticks(more)
    ensures k < |more|
    ensures var s := Run(c, es);
            && Run(c, es + more[..k + 1]).queue == Run(c, es + more[..k]).queue + [s.firsts[s.retired]]
            && s.firsts[s.retired].start == s.nextAckno
            && s.timer + Ticks(more[..k]) < s.rto <= s.timer + Ticks(more[..k + 1])
  {
    hide Step, Run;
    RunKeeps(c, es);
    BackoffLaw(c, es);
    k := RetransmittedInTime(Run(c, es), more);
    ReplayRun(c, es, more[..k]);
    ReplayRun(c, es, more[..k + 1]);
  }
}
