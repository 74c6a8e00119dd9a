/** What holds of a connection over every run. */
module ConnectionLaws {
  import opened Words
  import opened Wrapping
  import opened ByteStreams
  import opened Segments
  import opened Powers
  import opened ConnectionSpec
  import S = SenderSpec
  import R = ReceiverSpec
  import I = SenderInvariant
  import W = SenderRuns

  // ----- The sender's part of every state

  /** Between calls the sender has sent what it may: it waits for an acknowledgment, or has nothing left to send, or
      has not been opened. */
  predicate Settled(s: S.Sender)
  {
    (s.nextSeqno == 0 && !s.stream.ended) || S.Flying(s) || !I.HasUnsent(s)
  }

  predicate SenderOk(s: S.Sender) { I.FlightInv(s) && I.WindowInv(s) && Settled(s) }

  lemma FillSettles(s: S.Sender)
    requires I.FlightInv(s) && I.WindowInv(s)
    ensures SenderOk(S.FillWindow(s))
  {
    hide S.FillWindow, I.FlightInv, I.WindowInv;
    I.FillKeeps(s);
    I.NeverStalls(s);
  }

  /** Taking the queue, marking the stream as failed, ticking and sending an empty segment leave the sender settled. */
  lemma QuietStep(s: S.Sender, e: S.Event)
    requires SenderOk(s) && (e.Drain? || e.Fail? || e.TickBy? || e.Empty?)
    ensures SenderOk(S.Step(s, e))
    ensures S.Step(s, e).nextSeqno == s.nextSeqno && S.Step(s, e).nextAckno == s.nextAckno
    ensures S.Step(s, e).stream == s.stream.(error := S.Step(s, e).stream.error)
    ensures S.Flying(S.Step(s, e)) == S.Flying(s)
    ensures !e.TickBy? ==> S.Step(s, e).timeouts == s.timeouts
  {
    hide I.FlightInv, I.WindowInv;
    I.StepKeeps(s, e);
  }

  lemma ConnectOk(c: Connection)
    requires I.FlightInv(c.sender) && I.WindowInv(c.sender)
    ensures SenderOk(Connect(c).sender)
    ensures Connect(c).sender.timeouts == c.sender.timeouts && Connect(c).sender.stream.ended == c.sender.stream.ended
    ensures Connect(c).sender.nextSeqno != 0
  {
    hide SenderOk, S.FillWindow, StampedAll, I.FlightInv, I.WindowInv;
    FillSettles(c.sender);
    FillFacts(c.sender);
    QuietStep(S.FillWindow(c.sender), S.Drain);
  }

  lemma FillFacts(s: S.Sender)
    requires I.FlightInv(s) && I.WindowInv(s)
    ensures var t := S.FillWindow(s);
            && t.timeouts == s.timeouts && t.stream.ended == s.stream.ended && t.stream.written == s.stream.written
            && t.nextSeqno != 0
    ensures FinOut(s) ==> S.FillWindow(s).stream == s.stream && S.FillWindow(s).nextSeqno == s.nextSeqno
  {
    hide S.FillLoop;
    I.PhaseDecided(s);
    I.FlightBounds(s);
    S.FillLoopFrame(s);
    if FinOut(s) {
      S.NothingToFill(s);
    }
  }

  // ----- The invariant of a connection

  predicate ConnectionOk(c: Connection)
  {
    && SenderOk(c.sender) && R.ReceiverOk(c.receiver)
    && c.sender.timeouts <= MAX_RETX_ATTEMPTS + 1
    && (c.active ==> c.sender.timeouts <= MAX_RETX_ATTEMPTS)
  }

  lemma TakenInOk(c: Connection, seg: TcpSegment)
    requires ConnectionOk(c)
    ensures ConnectionOk(TakenIn(c, seg))
    ensures var d := TakenIn(c, seg);
            && d.sender == (if seg.header.rst then S.Step(c.sender, S.Fail) else c.sender)
            && d.sender.nextSeqno == c.sender.nextSeqno && d.sender.stream.ended == c.sender.stream.ended
            && d.active == (c.active && !seg.header.rst) && d.linger == c.linger && d.sinceLast == 0 && d.out == c.out
            && (FinOut(c.sender) ==> FinOut(d.sender)) && d.rtTimeout == c.rtTimeout
  {
    hide SenderOk, R.Received;
    R.ReceivedOk(c.receiver, seg);
    QuietStep(c.sender, S.Fail);
  }

  lemma AckTakenOk(c: Connection, header: TcpHeader)
    requires ConnectionOk(c)
    ensures ConnectionOk(AckTaken(c, header))
    ensures var d := AckTaken(c, header);
            && d.active == c.active && d.linger == c.linger && d.receiver == c.receiver && d.sinceLast == c.sinceLast
            && d.sender.stream.ended == c.sender.stream.ended && (FinOut(c.sender) ==> FinOut(d.sender))
            && (c.sender.nextSeqno != 0 <==> d.sender.nextSeqno != 0) && d.rtTimeout == c.rtTimeout
  {
    hide S.AckReceived, S.FillWindow, StampedAll, I.FlightInv, I.WindowInv, Settled;
    if c.sender.nextSeqno != 0 && header.ack {
      var s := S.AckReceived(c.sender, header.ackno, header.win);
      I.AckKeeps(c.sender, header.ackno, header.win);
      AckFacts(c.sender, header.ackno, header.win);
      FillFacts(s);
      ConnectOk(c.(sender := s));
    }
  }

  lemma AckFacts(s: S.Sender, ackno: Seqno, win: U16)
    ensures var t := S.AckReceived(s, ackno, win);
            t.timeouts <= s.timeouts && t.stream == s.stream && t.nextSeqno == s.nextSeqno && t.firsts == s.firsts
  {
    hide S.FindEnd, S.AbsoluteAck, S.InRange;
  }

  lemma AnsweredOk(c: Connection)
    requires ConnectionOk(c)
    ensures ConnectionOk(Answered(c))
    ensures var d := Answered(c);
            && d.active == c.active && d.linger == c.linger && d.receiver == c.receiver && d.sinceLast == c.sinceLast
            && d.sender.stream == c.sender.stream.(error := d.sender.stream.error)
            && d.sender.nextSeqno == c.sender.nextSeqno && (FinOut(c.sender) ==> FinOut(d.sender))
            && d.rtTimeout == c.rtTimeout
  {
    hide SenderOk, StampedAll;
    var s := if c.out == [] then S.SendEmpty(c.sender) else c.sender;
    QuietStep(c.sender, S.Empty);
    QuietStep(s, S.Drain);
  }

  /** An inbound segment.  `d` is the connection as the closing test finds it. */
  lemma SegmentOk(c: Connection, seg: TcpSegment) returns (d: Connection, tested: bool)
    requires ConnectionOk(c)
    ensures ConnectionOk(d) && ConnectionOk(SegmentReceived(c, seg))
    ensures SegmentReceived(c, seg) == (if tested then CloseCheck(d) else d)
    ensures d.active == (c.active && !seg.header.rst) && d.linger == c.linger && d.sinceLast == 0
    ensures d.sender.stream.ended == c.sender.stream.ended && d.rtTimeout == c.rtTimeout
    ensures FinOut(c.sender) ==> FinOut(d.sender)
  {
    hide TakenIn, AckTaken, Answered, Connect, SenderOk, Finished;
    var t := TakenIn(c, seg);
    TakenInOk(c, seg);
    AckTakenOk(t, seg.header);
    d := AckTaken(t, seg.header);
    tested := true;
    if SequenceLength(seg) != 0 {
      if d.sender.nextSeqno == 0 {
        tested := false;
        SynAnswered(d);
        d := Connect(d);
      } else {
        AnsweredOk(d);
        d := Answered(d);
      }
    }
  }

  lemma SynAnswered(c: Connection)
    requires ConnectionOk(c) && c.sender.nextSeqno == 0
    ensures ConnectionOk(Connect(c)) && !FinOut(c.sender)
    ensures Connect(c) == c.(sender := Connect(c).sender, out := Connect(c).out)
    ensures Connect(c).sender.stream.ended == c.sender.stream.ended
  {
    hide I.FlightInv, I.WindowInv, S.FillWindow, StampedAll;
    ConnectOk(c);
  }

  lemma TickOk(c: Connection, ms: U64)
    requires ConnectionOk(c) && c.active
    ensures ConnectionOk(Tick(c, ms))
    ensures Tick(c, ms).sender.stream.ended == c.sender.stream.ended
    ensures FinOut(c.sender) ==> FinOut(Tick(c, ms).sender)
  {
    hide SenderOk, StampedAll, Finished;
    var s := S.Tick(c.sender, ms);
    QuietStep(c.sender, S.TickBy(ms));
    QuietStep(s, S.Drain);
    QuietStep(s, S.Fail);
    assert s.timeouts <= c.sender.timeouts + 1;
  }

  lemma OpenOk(c: Connection, e: Event)
    requires ConnectionOk(c) && LegalHere(c, e) && (e.WriteOut? || e.EndOut? || e.Open?)
    ensures ConnectionOk(Step(c, e))
    ensures FinOut(c.sender) ==> FinOut(Step(c, e).sender)
    ensures Step(c, e) == c.(sender := Step(c, e).sender, out := Step(c, e).out)
  {
    hide I.FlightInv, I.WindowInv, Settled, S.FillWindow, StampedAll;
    var s := match e
      case WriteOut(data) => S.Step(c.sender, S.Write(data))
      case EndOut => S.Step(c.sender, S.EndInput)
      case _ => c.sender;
    if e.WriteOut? { I.WriteKeeps(c.sender, e.data); }
    if e.EndOut? { I.EndKeeps(c.sender); }
    ConnectOk(c.(sender := s));
    FillFacts(s);
  }

  lemma StepOk(c: Connection, e: Event)
    requires ConnectionOk(c) && LegalHere(c, e)
    ensures ConnectionOk(Step(c, e))
    ensures FinOut(c.sender) ==> FinOut(Step(c, e).sender)
  {
    hide SegmentReceived, Tick, Connect, SenderOk;
    match e
    case SegmentIn(seg) =>
      var d, tested := SegmentOk(c, seg);
    case TickBy(ms) => TickOk(c, ms);
    case ReadIn(len) => R.StepOk(c.receiver, R.ReadOut(len));
    case Pop =>
    case _ => OpenOk(c, e);
  }

  lemma {:induction false} RunOk(cfg: Config, es: seq<Event>)
    requires Legal(cfg, es)
    ensures ConnectionOk(Run(cfg, es))
  {
    hide Step, ConnectionOk;
    if es == [] {
      NewOk(cfg);
    } else {
      RunOk(cfg, es[..|es| - 1]);
      StepOk(Run(cfg, es[..|es| - 1]), es[|es| - 1]);
    }
  }

  lemma NewOk(cfg: Config)
    ensures ConnectionOk(NewConnection(cfg))
  {
    I.NewKeeps(S.Config(cfg.sendCapacity, cfg.isn, cfg.rtTimeout));
  }

  // ----- Clean close

  /** The sender's whole stream, its SYN and its FIN have been acknowledged. */
  predicate AllAcknowledged(s: S.Sender)
  {
    s.nextSeqno == s.nextAckno == |s.stream.written| + 2
  }

  /** The closing test never looks at the FIN, yet it passes only when the FIN has been acknowledged. */
  lemma FinishedIsAcknowledged(c: Connection)
    requires SenderOk(c.sender) && Finished(c)
    ensures AllAcknowledged(c.sender)
  {
    I.FlightBounds(c.sender);
  }

  /** The connection has just gone inactive, and neither because of a RST nor by giving up. */
  predicate ClosesCleanly(c: Connection, e: Event)
  {
    && c.active && !Step(c, e).active
    && !(e.SegmentIn? && e.seg.header.rst)
    && !(e.TickBy? && GivesUp(c, e.ms))
  }

  lemma CloseStep(c: Connection, e: Event)
    requires ConnectionOk(c) && LegalHere(c, e) && ClosesCleanly(c, e)
    ensures AtEof(Step(c, e).receiver.asm.out) && AllAcknowledged(Step(c, e).sender)
    ensures e.SegmentIn? || (e.TickBy? && Add64(c.sinceLast, e.ms) >= 10 * c.rtTimeout)
    ensures e.SegmentIn? ==> !Step(c, e).linger
  {
    hide SegmentReceived, Connect, SenderOk, AllAcknowledged;
    match e
    case SegmentIn(seg) =>
      var d, tested := SegmentOk(c, seg);
      assert Finished(d);
      FinishedIsAcknowledged(d);
    case TickBy(ms) =>
      TickCloses(c, ms);
    case ReadIn(len) =>
    case Pop =>
    case _ => OpenOk(c, e);
  }

  lemma TickCloses(c: Connection, ms: U64)
    requires ConnectionOk(c) && c.active && !Tick(c, ms).active && !GivesUp(c, ms)
    ensures AtEof(Tick(c, ms).receiver.asm.out) && AllAcknowledged(Tick(c, ms).sender)
    ensures Add64(c.sinceLast, ms) >= 10 * c.rtTimeout
  {
    hide SenderOk, StampedAll;
    QuietStep(c.sender, S.TickBy(ms));
    FinishedIsAcknowledged(c.(sender := S.Tick(c.sender, ms)));
  }

  /** In any run, a connection that goes inactive other than by a RST or by giving up has read its inbound stream to
      the end, and the peer has acknowledged everything it sent, including the FIN. */
  lemma CleanClose(cfg: Config, es: seq<Event>, e: Event)
    requires Legal(cfg, es + [e]) && ClosesCleanly(Run(cfg, es), e)
    ensures var c := Run(cfg, es + [e]); AtEof(c.receiver.asm.out) && AllAcknowledged(c.sender)
  {
    RunOk(cfg, es);
    RunLast(cfg, es, e);
    CloseStep(Run(cfg, es), e);
  }

  lemma RunLast(cfg: Config, es: seq<Event>, e: Event)
    ensures Run(cfg, es + [e]) == Step(Run(cfg, es), e)
    ensures Legal(cfg, es + [e]) <==> Legal(cfg, es) && LegalHere(Run(cfg, es), e)
  {
    hide Step;
    assert (es + [e])[..|es|] == es;
  }

  // ----- Lingering

  /** Milliseconds since the last segment arrived. */
  function Elapsed(es: seq<Event>): nat
  {
    if es == [] then 0
    else match es[|es| - 1]
      case SegmentIn(_) => 0
      case TickBy(ms) => Elapsed(es[..|es| - 1]) + ms
      case _ => Elapsed(es[..|es| - 1])
  }

  lemma StepClock(c: Connection, e: Event, elapsed: nat)
    requires ConnectionOk(c) && LegalHere(c, e) && c.sinceLast <= elapsed
    ensures Step(c, e).sinceLast <= (match e case SegmentIn(_) => 0 case TickBy(ms) => elapsed + ms case _ => elapsed)
    ensures Step(c, e).rtTimeout == c.rtTimeout
  {
    hide SegmentReceived, Connect, SenderOk, Finished, StampedAll, S.Tick;
    match e
    case SegmentIn(seg) =>
      var d, tested := SegmentOk(c, seg);
    case TickBy(ms) =>
    case ReadIn(len) =>
    case Pop =>
    case _ => OpenOk(c, e);
  }

  lemma {:induction false} RunClock(cfg: Config, es: seq<Event>)
    requires Legal(cfg, es)
    ensures Run(cfg, es).sinceLast <= Elapsed(es) && Run(cfg, es).rtTimeout == cfg.rtTimeout
  {
    hide Step, ConnectionOk;
    if es != [] {
      var init := es[..|es| - 1];
      RunClock(cfg, init);
      RunOk(cfg, init);
      StepClock(Run(cfg, init), es[|es| - 1], Elapsed(init));
    }
  }

  /** With its FIN out and the linger flag set, a connection that stays active keeps both. */
  lemma LingerStep(c: Connection, e: Event)
    requires ConnectionOk(c) && LegalHere(c, e) && FinOut(c.sender) && c.linger && Step(c, e).active
    ensures Step(c, e).linger && FinOut(Step(c, e).sender) && c.active
  {
    hide SegmentReceived, Connect, SenderOk, Finished, StampedAll;
    StepOk(c, e);
    match e
    case SegmentIn(seg) =>
      var d, tested := SegmentOk(c, seg);
    case TickBy(ms) =>
    case ReadIn(len) =>
    case Pop =>
    case _ => OpenOk(c, e);
  }

  lemma {:induction false} LingerKept(cfg: Config, es: seq<Event>, more: seq<Event>)
    requires Legal(cfg, es + more) && FinOut(Run(cfg, es).sender) && Run(cfg, es).linger && Run(cfg, es + more).active
    ensures var c := Run(cfg, es + more); FinOut(c.sender) && c.linger
  {
    hide Step, FinOut, LegalHere;
    if more == [] {
      assert es + more == es;
    } else {
      var init, e := more[..|more| - 1], more[|more| - 1];
      assert es + more == es + init + [e];
      RunLast(cfg, es + init, e);
      RunOk(cfg, es + init);
      StaysInactive(Run(cfg, es + init), e);
      LingerKept(cfg, es, init);
      LingerStep(Run(cfg, es + init), e);
    }
  }

  lemma StaysInactive(c: Connection, e: Event)
    requires ConnectionOk(c) && LegalHere(c, e) && Step(c, e).active
    ensures c.active
  {
    hide SegmentReceived, Connect, SenderOk, Finished, StampedAll, S.Tick;
    match e
    case SegmentIn(seg) =>
      var d, tested := SegmentOk(c, seg);
    case TickBy(ms) =>
    case ReadIn(len) =>
    case Pop =>
    case _ => OpenOk(c, e);
  }

  /** If the linger flag is still set once the FIN has been sent, a clean close comes only from the clock, at least
      ten initial timeouts after the last segment arrived. */
  lemma LingerClose(cfg: Config, es: seq<Event>, more: seq<Event>, e: Event)
    requires Legal(cfg, es + more + [e]) && FinOut(Run(cfg, es).sender) && Run(cfg, es).linger
    requires ClosesCleanly(Run(cfg, es + more), e)
    ensures e.TickBy? && Elapsed(es + more + [e]) >= 10 * cfg.rtTimeout
  {
    hide Step, FinOut, LegalHere;
    var c := Run(cfg, es + more);
    RunLast(cfg, es + more, e);
    RunOk(cfg, es + more);
    LingerKept(cfg, es, more);
    RunClock(cfg, es + more);
    CloseStep(c, e);
    LingerSegment(c, e);
    assert (es + more + [e])[..|es + more|] == es + more;
  }

  lemma LingerSegment(c: Connection, e: Event)
    requires ConnectionOk(c) && LegalHere(c, e) && FinOut(c.sender) && c.linger
    ensures e.SegmentIn? ==> Step(c, e).linger
  {
    hide SegmentReceived, Connect, SenderOk, Finished, FinOut;
    if e.SegmentIn? {
      var d, tested := SegmentOk(c, e.seg);
    }
  }

  // ----- A connection's sender is a sender

  lemma {:induction false} ReplayConcat(s: S.Sender, es: seq<S.Event>, more: seq<S.Event>)
    ensures S.Replay(s, es + more) == S.Replay(S.Replay(s, es), more)
  {
    hide S.Step;
    if more == [] {
      assert es + more == es;
    } else {
      assert (es + more)[..|es + more| - 1] == es + more[..|more| - 1];
      ReplayConcat(s, es, more[..|more| - 1]);
    }
  }

  lemma ReplaySnoc(s: S.Sender, es: seq<S.Event>, e: S.Event)
    ensures S.Replay(s, es + [e]) == S.Step(S.Replay(s, es), e)
  {
    hide S.Step;
    assert (es + [e])[..|es|] == es;
  }

  lemma ReplayOne(s: S.Sender, e: S.Event)
    ensures S.Replay(s, [e]) == S.Step(s, e)
  {
    hide S.Step, S.Replay;
    assert [] + [e] == [e];
    ReplaySnoc(s, [], e);
    ReplayNone(s);
  }

  lemma ReplayTwo(s: S.Sender, e: S.Event, f: S.Event)
    ensures S.Replay(s, [e, f]) == S.Step(S.Step(s, e), f)
  {
    hide S.Step, S.Replay;
    assert [e] + [f] == [e, f];
    ReplaySnoc(s, [e], f);
    ReplayOne(s, e);
  }

  lemma ReplayThree(s: S.Sender, e: S.Event, f: S.Event, g: S.Event)
    ensures S.Replay(s, [e, f, g]) == S.Step(S.Step(S.Step(s, e), f), g)
  {
    hide S.Step, S.Replay;
    assert [e, f] + [g] == [e, f, g];
    ReplaySnoc(s, [e, f], g);
    ReplayTwo(s, e, f);
  }

  /** What each connection event does to the sender is a sequence of sender events. */
  lemma StepSender(c: Connection, e: Event)
    ensures Step(c, e).sender == S.Replay(c.sender, SenderEvents(c, e))
  {
    hide S.FillWindow, S.AckReceived, S.SendEmpty, S.Tick, R.Received, StampedAll, Finished, S.Replay;
    match e
    case SegmentIn(seg) => SegmentSender(c, seg);
    case WriteOut(data) => ReplayThree(c.sender, S.Write(data), S.Fill, S.Drain);
    case EndOut => ReplayThree(c.sender, S.EndInput, S.Fill, S.Drain);
    case Open => ReplayTwo(c.sender, S.Fill, S.Drain);
    case TickBy(ms) =>
      ReplayTwo(c.sender, S.TickBy(ms), S.Drain);
      ReplayTwo(c.sender, S.TickBy(ms), S.Fail);
    case ReadIn(_) => ReplayNone(c.sender);
    case Pop => ReplayNone(c.sender);
  }

  lemma ReplayNone(s: S.Sender)
    ensures S.Replay(s, []) == s
  {
  }

  lemma SegmentSender(c: Connection, seg: TcpSegment)
    ensures SegmentReceived(c, seg).sender == S.Replay(c.sender, SenderEvents(c, SegmentIn(seg)))
  {
    hide S.FillWindow, S.AckReceived, S.SendEmpty, R.Received, StampedAll, Finished, S.Replay;
    var t := TakenIn(c, seg);
    var d := AckTaken(t, seg.header);
    var fail := if seg.header.rst then [S.Fail] else [];
    var ack := if c.sender.nextSeqno != 0
        && seg.header.ack then [S.Ack(seg.header.ackno, seg.header.win), S.Fill, S.Drain] else [];
    ReplayNone(c.sender);
    ReplayOne(c.sender, S.Fail);
    assert t.sender == S.Replay(c.sender, fail);
    ReplayNone(t.sender);
    ReplayThree(t.sender, S.Ack(seg.header.ackno, seg.header.win), S.Fill, S.Drain);
    assert d.sender == S.Replay(t.sender, ack);
    ReplayConcat(c.sender, fail, ack);
    ReplayNone(d.sender);
    ReplayOne(d.sender, S.Drain);
    ReplayTwo(d.sender, S.Fill, S.Drain);
    ReplayTwo(d.sender, S.Empty, S.Drain);
    var answer := if SequenceLength(seg) == 0 then [] else if d.sender.nextSeqno == 0 then [S.Fill, S.Drain]
                  else if d.out == [] then [S.Empty, S.Drain] else [S.Drain];
    assert SegmentReceived(c, seg).sender == S.Replay(d.sender, answer);
    ReplayConcat(c.sender, fail + ack, answer);
  }

  /** The sender events of a whole run. */
  function Trace(cfg: Config, es: seq<Event>): seq<S.Event>
  {
    if es == [] then []
    else
      var init := es[..|es| - 1];
      Trace(cfg, init) + SenderEvents(Run(cfg, init), es[|es| - 1])
  }

  function SenderConfig(cfg: Config): S.Config { S.Config(cfg.sendCapacity, cfg.isn, cfg.rtTimeout) }

  /** In every legal run the connection's sender is in a state that the sender by itself reaches in a legal run, so
      every law of the sender's runs is a law of the connection. */
  lemma {:induction false} TraceRun(cfg: Config, es: seq<Event>)
    requires Legal(cfg, es)
    ensures Run(cfg, es).sender == S.Run(SenderConfig(cfg), Trace(cfg, es))
    ensures S.Legal(SenderConfig(cfg), Trace(cfg, es))
  {
    hide Step, SenderEvents, S.Step, S.Replay;
    if es != [] {
      var init, e := es[..|es| - 1], es[|es| - 1];
      var c := Run(cfg, init);
      TraceRun(cfg, init);
      StepSender(c, e);
      S.ReplayRun(SenderConfig(cfg), Trace(cfg, init), SenderEvents(c, e));
      EventsLegal(c, e);
      LegalExtends(SenderConfig(cfg), Trace(cfg, init), SenderEvents(c, e));
    }
  }

  lemma EventsLegal(c: Connection, e: Event)
    requires LegalHere(c, e)
    ensures forall k | 0 <= k < |SenderEvents(c, e)| ::
              SenderEvents(c, e)[k].Write? ==> k == 0 && S.Writable(c.sender, SenderEvents(c, e)[k].data)
  {
    hide TakenIn, AckTaken, GivesUp;
  }

  lemma {:induction false} LegalExtends(cfg: S.Config, es: seq<S.Event>, more: seq<S.Event>)
    requires S.Legal(cfg, es)
    requires forall k | 0 <= k < |more| ::
              more[k].Write? ==> k == 0 && S.Writable(S.Run(cfg, es), more[k].data)
    ensures S.Legal(cfg, es + more)
  {
    hide S.Step;
    if more == [] {
      assert es + more == es;
    } else {
      var init := more[..|more| - 1];
      assert (es + more)[..|es + more| - 1] == es + init;
      LegalExtends(cfg, es, init);
      if init == [] { assert es + init == es; }
    }
  }

  // ----- Retransmission limit

  /** Only ticks make timeouts. */
  lemma {:induction false} TimeoutsQuiet(cfg: S.Config, es: seq<S.Event>, more: seq<S.Event>)
    requires forall k | 0 < k < |more| :: !more[k].TickBy?
    ensures W.Timeouts(cfg, es + more) <= W.Timeouts(cfg, es) + 1
    ensures more == [] || !more[0].TickBy? ==> W.Timeouts(cfg, es + more) <= W.Timeouts(cfg, es)
  {
    hide S.Step, W.Retires;
    if more == [] {
      assert es + more == es;
    } else {
      var init := more[..|more| - 1];
      assert (es + more)[..|es + more| - 1] == es + init;
      TimeoutsQuiet(cfg, es, init);
    }
  }

  lemma {:induction false} BackoffsBounded(cfg: S.Config, es: seq<S.Event>)
    ensures W.Backoffs(cfg, es) <= W.Timeouts(cfg, es)
  {
    if es != [] {
      BackoffsBounded(cfg, es[..|es| - 1]);
      hide S.Step, W.Retires, W.TimesOut;
    }
  }

  lemma EventsTick(c: Connection, e: Event)
    ensures forall k | 0 < k < |SenderEvents(c, e)| :: !SenderEvents(c, e)[k].TickBy?
    ensures !e.TickBy? ==> SenderEvents(c, e) == [] || !SenderEvents(c, e)[0].TickBy?
  {
    hide TakenIn, AckTaken, GivesUp;
  }

  /** While the event loop ticks only active connections there are never more than nine timeouts in a row, and the
      retransmission timeout is the initial one doubled once for each of them that met an open window. */
  lemma {:induction false} RetransmissionLimit(cfg: Config, es: seq<Event>)
    requires Legal(cfg, es) && cfg.rtTimeout > 0
    ensures W.Timeouts(SenderConfig(cfg), Trace(cfg, es)) <= MAX_RETX_ATTEMPTS + 1
    ensures var t := Trace(cfg, es);
            W.TimerOk(Run(cfg, es).sender, W.Timeouts(SenderConfig(cfg), t), W.Backoffs(SenderConfig(cfg), t))
  {
    hide Step, SenderEvents, S.Step, W.TimerOk, ConnectionOk;
    var sc := SenderConfig(cfg);
    TraceRun(cfg, es);
    if es != [] {
      var init, e := es[..|es| - 1], es[|es| - 1];
      var c := Run(cfg, init);
      RetransmissionLimit(cfg, init);
      RunOk(cfg, init);
      ActiveCount(c, W.Timeouts(sc, Trace(cfg, init)), W.Backoffs(sc, Trace(cfg, init)));
      EventsTick(c, e);
      TimeoutsQuiet(sc, Trace(cfg, init), SenderEvents(c, e));
    }
    BackoffsBounded(sc, Trace(cfg, es));
    LimitFits(cfg.rtTimeout, W.Backoffs(sc, Trace(cfg, es)));
    W.BackoffLaw(sc, Trace(cfg, es));
  }

  /** Nine doublings of a 16-bit timeout fit in 64 bits. */
  lemma LimitFits(timeout: U16, n: nat)
    requires n <= MAX_RETX_ATTEMPTS + 1
    ensures timeout * Pow2(n) < TWO64
  {
    hide Pow2;
    SmallPower(n);
    ProductFits(timeout, Pow2(n));
  }

  lemma ProductFits(a: U16, p: nat)
    requires p <= 512
    ensures a * p < TWO64
  {
    assert a * (512 - p) >= 0;
    assert a * p + a * (512 - p) == a * 512;
  }

  lemma SmallPower(n: nat)
    requires n <= 9
    ensures Pow2(n) <= 512
  {
    Pow2Sum(n, 9 - n);
    assert Pow2(9) == 8 * Pow2(6) == 64 * Pow2(3) == 512;
    assert Pow2(n) * Pow2(9 - n) >= Pow2(n);
  }

  lemma ActiveCount(c: Connection, timeouts: nat, backoffs: nat)
    requires ConnectionOk(c) && W.TimerOk(c.sender, timeouts, backoffs) && timeouts <= MAX_RETX_ATTEMPTS + 1
    ensures c.active ==> timeouts <= MAX_RETX_ATTEMPTS
  {
    hide SenderOk, R.ReceiverOk;
  }
}
