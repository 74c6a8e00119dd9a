/** When a connection goes inactive, and that a finished one does. */
module ClosingLaws {
  import opened Words
  import opened Wrapping
  import opened ByteStreams
  import opened Segments
  import opened ConnectionSpec
  import opened ConnectionLaws
  import S = SenderSpec
  import I = SenderInvariant
  import R = ReceiverSpec

  // ----- What it means to be finished

  /** Everything from the peer has been put out and read to its end, and the peer has acknowledged everything, the FIN
      included, that went to it from a stream that has ended. */
  predicate Done(c: Connection)
  {
    && c.receiver.asm.staged == map[] && AtEof(c.receiver.asm.out)
    && c.sender.stream.ended && c.sender.stream.read == |c.sender.stream.written|
    && c.sender.nextAckno == c.sender.nextSeqno == |c.sender.stream.written| + 2
  }

  /** The closing test is exactly that. */
  lemma FinishedExactly(c: Connection)
    requires SenderOk(c.sender)
    ensures Finished(c) <==> Done(c)
  {
    hide I.Tiled, I.Total, I.FlightsOk;
    I.FlightBounds(c.sender);
  }

  // ----- A segment

  /** The linger flag is dropped exactly when the peer's stream has been read to its end before the FIN is out. */
  predicate ClosesSecond(c: Connection) { AtEof(c.receiver.asm.out) && !FinOut(c.sender) }

  /** A segment makes an active connection inactive exactly when it is a RST, or when the connection is then done and
      does not linger. */
  lemma SegmentCloses(c: Connection, seg: TcpSegment)
    requires ConnectionOk(c) && c.active
    ensures var c' := SegmentReceived(c, seg);
            && (c'.active <==> !seg.header.rst && !(Done(c') && !c'.linger))
            && (seg.header.rst ==> c'.sender.stream.error && c'.receiver.asm.out.error)
            && c'.sinceLast == 0
  {
    hide SenderOk, S.FillWindow, S.AckReceived, R.Received, StampedAll, Finished, Done;
    var d := AckTaken(TakenIn(c, seg), seg.header);
    var c' := SegmentReceived(c, seg);
    TakenInOk(c, seg);
    AckTakenOk(TakenIn(c, seg), seg.header);
    if SequenceLength(seg) == 0 {
      SameDone(d, c');
      FinishedExactly(d);
    } else if d.sender.nextSeqno == 0 {
      SynAnswered(d);
      JustOpened(d);
      assert c' == Connect(d);
    } else {
      AnsweredOk(d);
      SameDone(Answered(d), c');
      FinishedExactly(Answered(d));
    }
    if seg.header.rst {
      FailedStays(c, seg);
    }
  }

  lemma FailedStays(c: Connection, seg: TcpSegment)
    requires seg.header.rst
    ensures SegmentReceived(c, seg).sender.stream.error && SegmentReceived(c, seg).receiver.asm.out.error
  {
    hide S.FillWindow, S.AckReceived, R.Received, StampedAll, Finished, Connect;
    var t := TakenIn(c, seg);
    var acked := t.(sender := S.AckReceived(t.sender, seg.header.ackno, seg.header.win));
    AckKeepsStream(t.sender, seg.header.ackno, seg.header.win);
    ConnectKeepsError(acked);
    ConnectKeepsError(AckTaken(t, seg.header));
  }

  lemma AckKeepsStream(s: S.Sender, ackno: Seqno, win: U16)
    ensures S.AckReceived(s, ackno, win).stream == s.stream
  {
  }

  lemma ConnectKeepsError(c: Connection)
    ensures Connect(c).sender.stream.error == c.sender.stream.error && Connect(c).receiver == c.receiver
  {
    hide S.FillLoop, StampedAll;
    S.FillLoopFrame(c.sender);
  }

  lemma SameDone(d: Connection, c': Connection)
    requires c' == CloseCheck(d)
    ensures Done(c') == Done(d)
  {
  }

  /** What has just sent its SYN is not done. */
  lemma JustOpened(c: Connection)
    requires ConnectionOk(c) && c.sender.nextSeqno == 0
    ensures !Done(Connect(c))
  {
    hide I.Tiled, I.Total, I.FlightsOk, StampedAll;
    I.FlightBounds(c.sender);
  }

  /** The flag after a segment that tests for closing. */
  lemma SegmentLingers(c: Connection, seg: TcpSegment)
    requires SequenceLength(seg) == 0 || c.sender.nextSeqno != 0
    requires ConnectionOk(c)
    ensures var c' := SegmentReceived(c, seg); c'.linger == (c.linger && !ClosesSecond(c'))
  {
    hide SenderOk, S.FillWindow, S.AckReceived, R.Received, StampedAll, Finished;
    TakenInOk(c, seg);
    AckTakenOk(TakenIn(c, seg), seg.header);
  }

  // ----- The clock

  /** A tick makes it inactive exactly when a ninth timeout in a row is reached, or when it is done and ten initial
      timeouts have passed since the last segment. */
  lemma TickClosesExactly(c: Connection, ms: U64)
    requires ConnectionOk(c) && c.active
    ensures var c' := Tick(c, ms);
            && (c'.active <==> c'.sender.timeouts <= MAX_RETX_ATTEMPTS
                               && !(Done(c) && Add64(c.sinceLast, ms) >= 10 * c.rtTimeout))
            && c'.sinceLast == Add64(c.sinceLast, ms)
  {
    hide SenderOk, S.Tick, StampedAll, Finished;
    var d := c.(sender := S.Tick(c.sender, ms), sinceLast := Add64(c.sinceLast, ms));
    QuietStep(c.sender, S.TickBy(ms));
    FinishedExactly(d);
  }

  /** No other event makes it inactive. */
  lemma OthersKeepActive(c: Connection, e: Event)
    requires ConnectionOk(c) && LegalHere(c, e) && !e.SegmentIn? && !e.TickBy?
    ensures Step(c, e).active == c.active && Step(c, e).linger == c.linger && Step(c, e).sinceLast == c.sinceLast
  {
    hide Connect, SenderOk;
    if !e.ReadIn? && !e.Pop? {
      OpenOk(c, e);
    }
  }

  // ----- A finished connection does close

  /** Only time passes: ticks, and the owner taking segments. */
  predicate Idle(es: seq<Event>) { forall e | e in es :: e.TickBy? || e.Pop? }

  function Passed(es: seq<Event>): nat
  {
    if es == [] then 0 else (if es[0].TickBy? then es[0].ms else 0) + Passed(es[1..])
  }

  /** The state after `es` from `c`, up to the moment it goes inactive. */
  function Waited(c: Connection, es: seq<Event>): Connection
    decreases |es|
  {
    if es == [] || !c.active then c else Waited(Step(c, es[0]), es[1..])
  }

  lemma IdleStep(c: Connection, e: Event)
    requires ConnectionOk(c) && c.active && Done(c) && (e.TickBy? || e.Pop?)
    requires e.TickBy? ==> c.sinceLast + e.ms < TWO64
    ensures var c' := Step(c, e);
            var now := c.sinceLast + (if e.TickBy? then e.ms else 0);
            && ConnectionOk(c') && Done(c') && c'.sinceLast == now && c'.rtTimeout == c.rtTimeout
            && (e.TickBy? ==> (c'.active <==> now < 10 * c.rtTimeout)) && (e.Pop? ==> c'.active)
  {
    hide SenderOk, StampedAll, SegmentReceived, Connect, Done;
    if e.TickBy? {
      TickOk(c, e.ms);
      QuietTick(c, e.ms);
      TickClosesExactly(c, e.ms);
    } else {
      PopDone(c);
    }
  }

  lemma QuietTick(c: Connection, ms: U64)
    requires ConnectionOk(c) && c.active && Done(c)
    ensures var c' := Tick(c, ms);
            Done(c') && c'.sender.timeouts == c.sender.timeouts <= MAX_RETX_ATTEMPTS && c'.rtTimeout == c.rtTimeout
  {
    hide I.Tiled, I.Total, I.FlightsOk, StampedAll;
    I.FlightBounds(c.sender);
  }

  lemma PopDone(c: Connection)
    requires ConnectionOk(c) && c.active && Done(c)
    ensures var c' := Step(c, Pop);
            ConnectionOk(c') && Done(c') && c'.active && c'.sinceLast == c.sinceLast && c'.rtTimeout == c.rtTimeout
  {
    hide SenderOk, SegmentReceived, Connect, Tick;
  }

  /** A connection that is done goes inactive once ten initial timeouts have passed since the last segment, however the
      time is cut into ticks, and not before. */
  lemma {:induction false} FinishedCloses(c: Connection, es: seq<Event>)
    requires ConnectionOk(c) && c.active && Done(c) && Idle(es) && c.sinceLast + Passed(es) < TWO64
    requires c.sinceLast < 10 * c.rtTimeout
    ensures Waited(c, es).active <==> c.sinceLast + Passed(es) < 10 * c.rtTimeout
    decreases |es|
  {
    hide Step, ConnectionOk, Done;
    if es != [] {
      var c' := Step(c, es[0]);
      assert es[0] in es;
      assert forall e | e in es[1..] :: e in es;
      IdleStep(c, es[0]);
      if c'.active {
        FinishedCloses(c', es[1..]);
      } else {
        assert Waited(c', es[1..]) == c';
      }
    }
  }

  // ----- The clock over runs

  /** As long as the clock has not wrapped around it tells exactly the time since the last segment. */
  lemma {:induction false} ClockExact(cfg: Config, es: seq<Event>)
    requires Legal(cfg, es) && forall k | 0 <= k <= |es| :: Elapsed(es[..k]) < TWO64
    ensures Run(cfg, es).sinceLast == Elapsed(es)
  {
    hide Step, ConnectionOk;
    if es != [] {
      var init, e := es[..|es| - 1], es[|es| - 1];
      forall k | 0 <= k <= |init|
        ensures Elapsed(init[..k]) < TWO64
      {
        assert init[..k] == es[..k];
      }
      ClockExact(cfg, init);
      RunOk(cfg, init);
      assert es[..|es|] == es;
      ClockStep(Run(cfg, init), e, Elapsed(init));
    }
  }

  lemma ClockStep(c: Connection, e: Event, elapsed: nat)
    requires ConnectionOk(c) && LegalHere(c, e) && c.sinceLast == elapsed && (e.TickBy? ==> elapsed + e.ms < TWO64)
    ensures Step(c, e).sinceLast == (match e case SegmentIn(_) => 0 case TickBy(ms) => elapsed + ms case _ => elapsed)
  {
    hide SegmentReceived, Tick, Connect, SenderOk;
    match e
    case SegmentIn(seg) => var d, tested := SegmentOk(c, seg);
    case TickBy(ms) => TickClosesExactly(c, ms);
    case _ => OthersKeepActive(c, e);
  }
}
