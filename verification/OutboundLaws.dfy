/** What a connection puts into its outbound queue. */
module OutboundLaws {
  import opened Words
  import opened Wrapping
  import opened ByteStreams
  import opened Segments
  import opened ConnectionSpec
  import S = SenderSpec
  import R = ReceiverSpec
  import L = ConnectionLaws
  import P = ReceiverLaws

  // ----- The sender's queue

  /** The segments an event of the sender queues. */
  function NewlyQueued(s: S.Sender, e: S.Event): seq<S.Flight>
  {
    if e.Drain? || |S.Step(s, e).queue| < |s.queue| then [] else S.Step(s, e).queue[|s.queue|..]
  }

  function QueuedBy(s: S.Sender, es: seq<S.Event>): seq<S.Flight>
  {
    if es == [] then []
    else QueuedBy(s, es[..|es| - 1]) + NewlyQueued(S.Replay(s, es[..|es| - 1]), es[|es| - 1])
  }

  /** The segments the owner takes out of the queue. */
  function DrainedBy(s: S.Sender, es: seq<S.Event>): seq<S.Flight>
  {
    if es == [] then []
    else DrainedBy(s, es[..|es| - 1]) + (if es[|es| - 1].Drain? then S.Replay(s, es[..|es| - 1]).queue else [])
  }

  lemma QueueGrows(s: S.Sender, e: S.Event)
    requires !e.Drain?
    ensures s.queue <= S.Step(s, e).queue && S.Step(s, e).queue == s.queue + NewlyQueued(s, e)
  {
    hide S.FillLoop, S.AbsoluteAck, S.FindEnd;
    S.FillLoopFrame(s);
  }

  /** Whatever is queued is taken out once, in order, or is still there. */
  lemma {:induction false} QueueConserves(s: S.Sender, es: seq<S.Event>)
    ensures s.queue + QueuedBy(s, es) == DrainedBy(s, es) + S.Replay(s, es).queue
  {
    hide S.Step;
    if es != [] {
      var init, e := es[..|es| - 1], es[|es| - 1];
      var t := S.Replay(s, init);
      QueueConserves(s, init);
      if e.Drain? {
        DrainEmpties(t);
      } else {
        QueueGrows(t, e);
      }
      Regroup(s.queue, QueuedBy(s, init), NewlyQueued(t, e), DrainedBy(s, init), t.queue);
    }
  }

  lemma DrainEmpties(s: S.Sender)
    ensures S.Step(s, S.Drain).queue == [] && NewlyQueued(s, S.Drain) == []
  {
  }

  lemma Regroup(a: seq<S.Flight>, b: seq<S.Flight>, c: seq<S.Flight>, d: seq<S.Flight>, e: seq<S.Flight>)
    requires a + b == d + e
    ensures a + (b + c) == d + (e + c) && d + [] == d && a + (b + []) == d + e
  {
    assert a + (b + c) == (a + b) + c;
    assert b + [] == b;
  }

  lemma {:induction false} DrainedConcat(s: S.Sender, es: seq<S.Event>, more: seq<S.Event>)
    ensures DrainedBy(s, es + more) == DrainedBy(s, es) + DrainedBy(S.Replay(s, es), more)
  {
    hide S.Step;
    if more == [] {
      assert es + more == es;
    } else {
      var init := more[..|more| - 1];
      assert (es + more)[..|es + more| - 1] == es + init;
      DrainedConcat(s, es, init);
      L.ReplayConcat(s, es, init);
    }
  }

  // ----- Segments on the way out

  /** `seg` is the segment `f`: same place, same payload, same SYN and FIN, and nothing else set. */
  predicate Carries(isn: Seqno, f: S.Flight, seg: TcpSegment)
  {
    && seg.payload == f.payload && seg.header.seqno == Wrap(f.start, isn)
    && seg.header.syn == f.syn && seg.header.fin == f.fin && !seg.header.rst && !seg.header.urg && !seg.header.psh
    && seg.header.doff == 5
  }

  /** Once a SYN has arrived, `seg` says what has been received and what there is room for.  The number is understood
      near the count of bytes put out: the SYN, these bytes, and the FIN once it ended the output. */
  predicate Acknowledges(r: R.Receiver, seg: TcpSegment)
  {
    r.haveSyn ==>
      && seg.header.ack
      && (|r.asm.out.written| + 2 < TWO64 ==>
            Unwrap(seg.header.ackno, r.icn, |r.asm.out.written|)
            == |r.asm.out.written| + (if r.haveFin && r.asm.out.ended then 2 else 1))
      && seg.header.win == (r.asm.out.capacity - Buffered(r.asm.out)) % 0x1_0000
  }

  lemma StampAcknowledges(r: R.Receiver, isn: Seqno, f: S.Flight)
    ensures Acknowledges(r, Stamped(r, S.Concrete(isn, f))) && Carries(isn, f, Stamped(r, S.Concrete(isn, f)))
  {
    hide Unwrap, Wrap;
    if r.haveSyn && |r.asm.out.written| + 2 < TWO64 {
      RoundTrip(R.AbsoluteAckno(r), r.icn, |r.asm.out.written|);
    }
  }

  /** `segs` are the segments `fs`, in order, each acknowledging what `r` has received. */
  ghost predicate Stamps(isn: Seqno, r: R.Receiver, fs: seq<S.Flight>, segs: seq<TcpSegment>)
  {
    |segs| == |fs| && forall k | 0 <= k < |fs| :: Carries(isn, fs[k], segs[k]) && Acknowledges(r, segs[k])
  }

  /** From `c` to `c'` exactly the segments `fs` have been appended, acknowledging what `c'` has received. */
  ghost predicate Appends(c: Connection, c': Connection, fs: seq<S.Flight>)
  {
    c'.sender.isn == c.sender.isn && c.out <= c'.out && Stamps(c.sender.isn, c'.receiver, fs, c'.out[|c.out|..])
  }

  /** The same things have been received. */
  predicate SameReceived(r: R.Receiver, r': R.Receiver)
  {
    r'.haveSyn == r.haveSyn && r'.haveFin == r.haveFin && r'.icn == r.icn
    && r'.asm.out == r.asm.out.(error := r'.asm.out.error)
  }

  lemma AppendsNone(c: Connection, c': Connection)
    requires c'.out == c.out && c'.sender.isn == c.sender.isn
    ensures Appends(c, c', [])
  {
  }

  lemma SameAcknowledges(r: R.Receiver, r': R.Receiver, seg: TcpSegment)
    requires SameReceived(r, r') && Acknowledges(r, seg)
    ensures Acknowledges(r', seg)
  {
    hide Unwrap;
  }

  lemma StampsConcat(isn: Seqno, r: R.Receiver, r': R.Receiver, fs: seq<S.Flight>, gs: seq<S.Flight>,
                     a: seq<TcpSegment>, b: seq<TcpSegment>)
    requires Stamps(isn, r, fs, a) && Stamps(isn, r', gs, b) && SameReceived(r, r')
    ensures Stamps(isn, r', fs + gs, a + b)
  {
    hide Acknowledges, Carries, SameReceived;
    forall k | 0 <= k < |fs + gs|
      ensures Carries(isn, (fs + gs)[k], (a + b)[k]) && Acknowledges(r', (a + b)[k])
    {
      if k < |fs| {
        SameAcknowledges(r, r', a[k]);
      }
    }
  }

  lemma AppendsMore(c: Connection, d: Connection, e: Connection, fs: seq<S.Flight>, gs: seq<S.Flight>)
    requires Appends(c, d, fs) && Appends(d, e, gs) && SameReceived(d.receiver, e.receiver)
    ensures Appends(c, e, fs + gs)
  {
    hide Stamps, SameReceived;
    assert c.out <= e.out && e.out[|c.out|..] == d.out[|c.out|..] + e.out[|d.out|..];
    StampsConcat(c.sender.isn, d.receiver, e.receiver, fs, gs, d.out[|c.out|..], e.out[|d.out|..]);
  }

  lemma MoveAppends(c: Connection)
    ensures Appends(c, MoveOut(c), c.sender.queue)
  {
    hide Stamped, S.Concrete, Acknowledges, Carries;
    var segs := StampedAll(c.receiver, c.sender.isn, c.sender.queue);
    forall k | 0 <= k < |c.sender.queue|
      ensures Carries(c.sender.isn, c.sender.queue[k], segs[k]) && Acknowledges(c.receiver, segs[k])
    {
      StampAcknowledges(c.receiver, c.sender.isn, c.sender.queue[k]);
    }
    assert MoveOut(c).out[|c.out|..] == segs;
  }

  // ----- What one event appends

  lemma DrainedNext(s: S.Sender, es: seq<S.Event>, e: S.Event)
    ensures DrainedBy(s, es + [e]) == DrainedBy(s, es) + (if e.Drain? then S.Replay(s, es).queue else [])
  {
    hide S.Step, S.Replay;
    assert (es + [e])[..|es|] == es;
  }

  /** What is taken out in the sequences of sender events that occur. */
  lemma DrainedAtEnd(s: S.Sender, e: S.Event, f: S.Event)
    requires !e.Drain? && !f.Drain?
    ensures DrainedBy(s, []) == DrainedBy(s, [e]) == [] && DrainedBy(s, [S.Drain]) == s.queue
    ensures DrainedBy(s, [e, S.Drain]) == S.Step(s, e).queue
    ensures DrainedBy(s, [e, f]) == [] && DrainedBy(s, [e, f, S.Drain]) == S.Step(S.Step(s, e), f).queue
  {
    hide S.Step, S.Replay;
    L.ReplayNone(s);
    L.ReplayOne(s, e);
    L.ReplayTwo(s, e, f);
    assert [] + [e] == [e] && [] + [S.Drain] == [S.Drain] && [e] + [f] == [e, f];
    assert [e] + [S.Drain] == [e, S.Drain] && [e, f] + [S.Drain] == [e, f, S.Drain];
    DrainedNext(s, [], e);
    DrainedNext(s, [], S.Drain);
    DrainedNext(s, [e], f);
    DrainedNext(s, [e], S.Drain);
    DrainedNext(s, [e, f], S.Drain);
  }

  lemma ConnectAppends(c: Connection)
    ensures Appends(c, Connect(c), S.FillWindow(c.sender).queue) && Connect(c).receiver == c.receiver
  {
    hide S.FillLoop, StampedAll, Stamps;
    S.FillLoopFrame(c.sender);
    MoveAppends(c.(sender := S.FillWindow(c.sender)));
  }

  lemma IsnKept(s: S.Sender, e: S.Event)
    ensures S.Step(s, e).isn == s.isn
  {
    hide S.FillLoop, S.AbsoluteAck, S.FindEnd;
    S.FillLoopFrame(s);
  }

  /** Opening, writing, ending, and ticking without giving up. */
  lemma OwnEventAppends(c: Connection, e: Event)
    requires e.WriteOut? || e.EndOut? || e.Open? || (e.TickBy? && !GivesUp(c, e.ms)) || e.ReadIn?
    ensures Appends(c, Step(c, e), DrainedBy(c.sender, SenderEvents(c, e)))
  {
    hide S.FillWindow, S.Tick, StampedAll, Stamps, Finished, DrainedBy, S.Replay;
    DrainedAtEnd(c.sender, S.Fill, S.Fill);
    match e
    case WriteOut(data) =>
      DrainedAtEnd(c.sender, S.Write(data), S.Fill);
      ConnectAppends(c.(sender := S.Step(c.sender, S.Write(data))));
    case EndOut =>
      DrainedAtEnd(c.sender, S.EndInput, S.Fill);
      ConnectAppends(c.(sender := S.Step(c.sender, S.EndInput)));
    case Open => ConnectAppends(c);
    case TickBy(ms) =>
      DrainedAtEnd(c.sender, S.TickBy(ms), S.Fill);
      IsnKept(c.sender, S.TickBy(ms));
      var d := c.(sender := S.Tick(c.sender, ms), active := Step(c, e).active, sinceLast := Add64(c.sinceLast, ms));
      assert Step(c, e) == MoveOut(d);
      MoveAppends(d);
    case ReadIn(len) => AppendsNone(c, Step(c, e));
  }

  /** A segment that comes in. */
  lemma SegmentAppends(c: Connection, seg: TcpSegment)
    ensures Appends(c, SegmentReceived(c, seg), DrainedBy(c.sender, SenderEvents(c, SegmentIn(seg))))
  {
    hide S.Replay, DrainedBy, S.FillWindow, S.AckReceived, S.SendEmpty, R.Received, StampedAll, Stamps;
    hide Finished;
    var t := TakenIn(c, seg);
    var d := AckTaken(t, seg.header);
    var c' := SegmentReceived(c, seg);
    var fail, ack, answer := FailEvents(seg), AckEvents(c, seg), AnswerEvents(c, seg);
    DrainedConcat(c.sender, fail, ack);
    DrainedConcat(c.sender, fail + ack, answer);
    assert SenderEvents(c, SegmentIn(seg)) == fail + ack + answer;
    FailTaken(c, seg);
    AckAppends(c, seg);
    AnswerAppends(c, seg);
    AppendsMore(t, d, c', DrainedBy(t.sender, ack), DrainedBy(d.sender, answer));
    L.ReplayConcat(c.sender, fail, ack);
    assert [] + DrainedBy(t.sender, ack) == DrainedBy(t.sender, ack);
    assert Appends(c, c', DrainedBy(t.sender, ack) + DrainedBy(d.sender, answer));
  }

  function FailEvents(seg: TcpSegment): seq<S.Event> { if seg.header.rst then [S.Fail] else [] }

  function AckEvents(c: Connection, seg: TcpSegment): seq<S.Event>
  {
    if c.sender.nextSeqno != 0 && seg.header.ack then [S.Ack(seg.header.ackno, seg.header.win), S.Fill, S.Drain] else []
  }

  function AnswerEvents(c: Connection, seg: TcpSegment): seq<S.Event>
  {
    var d := AckTaken(TakenIn(c, seg), seg.header);
    if SequenceLength(seg) == 0 then []
    else if d.sender.nextSeqno == 0 then [S.Fill, S.Drain]
    else if d.out == [] then [S.Empty, S.Drain]
    else [S.Drain]
  }

  lemma FailTaken(c: Connection, seg: TcpSegment)
    ensures var t := TakenIn(c, seg);
            && t.out == c.out && t.sender.isn == c.sender.isn && t.sender.nextSeqno == c.sender.nextSeqno
            && S.Replay(c.sender, FailEvents(seg)) == t.sender && DrainedBy(c.sender, FailEvents(seg)) == []
  {
    hide R.Received;
    DrainedAtEnd(c.sender, S.Fail, S.Fill);
    L.ReplayNone(c.sender);
    L.ReplayOne(c.sender, S.Fail);
  }

  lemma AckAppends(c: Connection, seg: TcpSegment)
    ensures var t := TakenIn(c, seg);
            var d := AckTaken(t, seg.header);
            && Appends(t, d, DrainedBy(t.sender, AckEvents(c, seg))) && d.receiver == t.receiver
            && S.Replay(t.sender, AckEvents(c, seg)) == d.sender
  {
    hide S.Replay, DrainedBy, S.FillWindow, S.AckReceived, R.Received, StampedAll, Stamps;
    var t := TakenIn(c, seg);
    var e := S.Ack(seg.header.ackno, seg.header.win);
    DrainedAtEnd(t.sender, e, S.Fill);
    L.ReplayNone(t.sender);
    if AckEvents(c, seg) != [] {
      IsnKept(t.sender, e);
      ConnectAppends(t.(sender := S.AckReceived(t.sender, seg.header.ackno, seg.header.win)));
      L.ReplayThree(t.sender, e, S.Fill, S.Drain);
    } else {
      AppendsNone(t, t);
    }
  }

  lemma AnswerAppends(c: Connection, seg: TcpSegment)
    ensures var d := AckTaken(TakenIn(c, seg), seg.header);
            var c' := SegmentReceived(c, seg);
            Appends(d, c', DrainedBy(d.sender, AnswerEvents(c, seg))) && SameReceived(d.receiver, c'.receiver)
  {
    hide S.Replay, DrainedBy, S.FillWindow, TakenIn, AckTaken, StampedAll, Stamps, Finished;
    var d := AckTaken(TakenIn(c, seg), seg.header);
    DrainedAtEnd(d.sender, S.Empty, S.Fill);
    DrainedAtEnd(d.sender, S.Fill, S.Fill);
    if SequenceLength(seg) == 0 {
      AppendsNone(d, CloseCheck(d));
    } else if d.sender.nextSeqno == 0 {
      ConnectAppends(d);
    } else {
      MoveAppends(if d.out == [] then d.(sender := S.SendEmpty(d.sender)) else d);
    }
  }

  const RESET: TcpSegment := TcpSegment(BLANK.(rst := true), [])

  /** Giving up sends a RST and nothing else, and ends both streams in error. */
  lemma GivingUp(c: Connection, ms: U64)
    requires GivesUp(c, ms)
    ensures var c' := Tick(c, ms);
            && c'.out == c.out + [RESET] && DrainedBy(c.sender, SenderEvents(c, TickBy(ms))) == []
            && !c'.active && !c'.linger && c'.sender.stream.error && c'.receiver.asm.out.error
  {
    hide DrainedBy, Finished;
    DrainedAtEnd(c.sender, S.TickBy(ms), S.Fail);
  }

  /** Any event but taking a segment appends exactly the segments the sender hands over meanwhile, in order, each
      acknowledging what has then been received; or, on giving up, a RST. */
  lemma StepOutbound(c: Connection, e: Event)
    requires !e.Pop?
    ensures if e.TickBy? && GivesUp(c, e.ms) then Step(c, e).out == c.out + [RESET]
            else Appends(c, Step(c, e), DrainedBy(c.sender, SenderEvents(c, e)))
  {
    hide Appends, DrainedBy, GivesUp, SegmentReceived, SenderEvents, Connect, Tick;
    match e
    case SegmentIn(seg) => SegmentAppends(c, seg);
    case TickBy(ms) =>
      if GivesUp(c, ms) {
        GivingUp(c, ms);
      } else {
        OwnEventAppends(c, e);
      }
    case _ => OwnEventAppends(c, e);
  }

  /** A SYN is among the segments that came in. */
  predicate SynArrived(es: seq<Event>) { exists e | e in es :: e.SegmentIn? && e.seg.header.syn }

  lemma StepSyn(c: Connection, e: Event)
    ensures Step(c, e).receiver.haveSyn <==> c.receiver.haveSyn || (e.SegmentIn? && e.seg.header.syn)
  {
    hide SegmentReceived, Connect, Tick, S.Step, R.Received;
    match e
    case SegmentIn(seg) => SegmentKeepsReceiver(c, seg); P.ReceivedSyn(c.receiver, seg);
    case TickBy(ms) => TickKeepsSyn(c, ms);
    case WriteOut(data) => ConnectKeepsReceiver(c.(sender := S.Step(c.sender, S.Write(data))));
    case EndOut => ConnectKeepsReceiver(c.(sender := S.Step(c.sender, S.EndInput)));
    case Open => ConnectKeepsReceiver(c);
    case _ =>
  }

  lemma ConnectKeepsReceiver(c: Connection)
    ensures Connect(c).receiver == c.receiver
  {
    hide S.Step, S.FillWindow, StampedAll;
  }

  lemma SegmentKeepsReceiver(c: Connection, seg: TcpSegment)
    ensures var r := SegmentReceived(c, seg).receiver;
            r == if seg.header.rst then R.Errored(R.Received(c.receiver, seg)) else R.Received(c.receiver, seg)
  {
    hide Connect, Finished, StampedAll, S.SendEmpty, S.Step, S.AckReceived, R.Received;
    var t := TakenIn(c, seg);
    ConnectKeepsReceiver(t.(sender := S.AckReceived(t.sender, seg.header.ackno, seg.header.win)));
    ConnectKeepsReceiver(AckTaken(t, seg.header));
  }

  lemma TickKeepsSyn(c: Connection, ms: U64)
    ensures Tick(c, ms).receiver.haveSyn == c.receiver.haveSyn
  {
    hide S.Tick, S.Step, StampedAll, Finished;
  }

  lemma {:induction false} RunSyn(cfg: Config, es: seq<Event>)
    ensures Run(cfg, es).receiver.haveSyn <==> SynArrived(es)
  {
    hide Step;
    if es != [] {
      var init, e := es[..|es| - 1], es[|es| - 1];
      RunSyn(cfg, init);
      StepSyn(Run(cfg, init), e);
      assert es == init + [e];
    }
  }

  /** Over every run: once a SYN has come in, each segment put into the outbound queue, except the RST of giving up, has
      the ACK flag, the number of bytes put out so far plus one, or two once the stream has ended with a FIN, and the
      low sixteen bits of the room that is left. */
  lemma AllAcknowledge(cfg: Config, es: seq<Event>, e: Event, k: nat)
    requires !e.Pop? && !(e.TickBy? && GivesUp(Run(cfg, es), e.ms)) && SynArrived(es + [e])
    requires |Run(cfg, es).out| <= k < |Run(cfg, es + [e]).out|
    ensures var h, out := Run(cfg, es + [e]).out[k].header, Run(cfg, es + [e]).receiver.asm.out;
            var r := Run(cfg, es + [e]).receiver;
            && h.ack && h.win == (out.capacity - Buffered(out)) % 0x1_0000
            && (|out.written| + 2 < TWO64 ==>
                  Unwrap(h.ackno, r.icn, |out.written|) == |out.written| + (if r.haveFin && out.ended then 2 else 1))
  {
    hide Step, GivesUp, DrainedBy, SenderEvents, SynArrived, Unwrap, Carries;
    var c := Run(cfg, es);
    assert (es + [e])[..|es|] == es;
    RunSyn(cfg, es + [e]);
    StepOutbound(c, e);
    var c' := Step(c, e);
    assert c'.out[|c.out|..][k - |c.out|] == c'.out[k];
    assert Acknowledges(c'.receiver, c'.out[k]);
  }

  // ----- Answers

  /** A segment that occupies sequence numbers is answered: if nothing was waiting to go out, something is now, and all
      of it acknowledges what has been received. */
  lemma Answers(c: Connection, seg: TcpSegment)
    requires SequenceLength(seg) > 0 && c.out == []
    ensures var c' := SegmentReceived(c, seg);
            c'.out != [] && forall s | s in c'.out :: Acknowledges(c'.receiver, s)
  {
    var c' := SegmentReceived(c, seg);
    SegmentAppends(c, seg);
    assert c'.out[|c.out|..] == c'.out;
    hide TakenIn, AckTaken, StampedAll, Acknowledges, Carries, Finished, S.FillLoop, DrainedBy, SenderEvents;
    S.FillLoopFrame(AckTaken(TakenIn(c, seg), seg.header).sender);
    forall s | s in c'.out
      ensures Acknowledges(c'.receiver, s)
    {
      var k :| 0 <= k < |c'.out| && c'.out[k] == s;
    }
  }

  /** When there is nothing else to send, the answer is one empty segment at the next sequence number. */
  lemma BareAnswer(c: Connection, seg: TcpSegment)
    requires SequenceLength(seg) > 0 && !seg.header.ack
    requires c.out == [] && c.sender.queue == [] && c.sender.nextSeqno != 0
    ensures var out := SegmentReceived(c, seg).out;
            && |out| == 1 && out[0].payload == [] && out[0].header.seqno == Wrap(c.sender.nextSeqno, c.sender.isn)
            && !out[0].header.syn && !out[0].header.fin && !out[0].header.rst
  {
    hide R.Received, R.Ackno, R.WindowSize, Wrap, Finished, FinOut, S.FillWindow, S.AckReceived;
  }

  /** A connection that has not been opened stays silent until something that occupies sequence numbers comes in. */
  lemma StaysSilent(c: Connection, seg: TcpSegment)
    requires SequenceLength(seg) == 0 && c.sender.nextSeqno == 0
    ensures var c' := SegmentReceived(c, seg);
            c'.out == c.out && c'.sender == c.sender.(stream := c'.sender.stream)
            && c'.sender.stream == c.sender.stream.(error := c.sender.stream.error || seg.header.rst)
  {
    hide R.Received, Finished;
  }

  /** A SYN opens it: the answer is its own SYN, which acknowledges the peer's and what came with it. */
  lemma PassiveOpen(cfg: Config, seg: TcpSegment)
    requires seg.header.syn
    ensures var out := SegmentReceived(NewConnection(cfg), seg).out;
            && |out| == 1 && out[0].payload == [] && out[0].header.syn && !out[0].header.fin && !out[0].header.rst
            && out[0].header.seqno == cfg.isn && out[0].header.ack
            && out[0].header.ackno ==
                 Wrap(Min(|seg.payload|, cfg.receiveCapacity) + (if seg.header.fin then 2 else 1), seg.header.seqno)
  {
    hide SegmentReceived, R.Received;
    OpensWithSyn(cfg, seg);
    SegmentKeepsReceiver(NewConnection(cfg), seg);
    P.SynCarriesData(cfg.receiveCapacity, seg);
  }

  lemma OpensWithSyn(cfg: Config, seg: TcpSegment)
    requires seg.header.syn
    ensures var c := SegmentReceived(NewConnection(cfg), seg);
            c.out == [Stamped(c.receiver, S.Concrete(cfg.isn, S.SYN))]
  {
    hide R.Received, Stamped, S.Concrete, CloseCheck, Answered;
  }

  // ----- Every run

  /** Everything ever put into the outbound queue, and everything ever taken out of it. */
  function OutLog(cfg: Config, es: seq<Event>): seq<TcpSegment>
  {
    if es == [] then []
    else
      var c, e := Run(cfg, es[..|es| - 1]), es[|es| - 1];
      OutLog(cfg, es[..|es| - 1]) + (if e.Pop? || |Step(c, e).out| < |c.out| then [] else Step(c, e).out[|c.out|..])
  }

  function TakenOut(cfg: Config, es: seq<Event>): seq<TcpSegment>
  {
    if es == [] then []
    else
      var c, e := Run(cfg, es[..|es| - 1]), es[|es| - 1];
      TakenOut(cfg, es[..|es| - 1]) + (if e.Pop? && c.out != [] then [c.out[0]] else [])
  }

  lemma OnlyAppends(c: Connection, e: Event)
    requires !e.Pop?
    ensures c.out <= Step(c, e).out
  {
    hide Step, DrainedBy, SenderEvents, Stamps;
    StepOutbound(c, e);
  }

  /** The owner takes the segments in the order in which they were put in. */
  lemma {:induction false} FirstInFirstOut(cfg: Config, es: seq<Event>)
    ensures TakenOut(cfg, es) + Run(cfg, es).out == OutLog(cfg, es)
  {
    hide Step;
    if es != [] {
      var init, e := es[..|es| - 1], es[|es| - 1];
      var c := Run(cfg, init);
      FirstInFirstOut(cfg, init);
      if e.Pop? {
        PopTakes(c);
        Refill(TakenOut(cfg, init), c.out, c.out);
      } else {
        OnlyAppends(c, e);
        Refill(TakenOut(cfg, init), c.out, Step(c, e).out);
      }
    }
  }

  lemma PopTakes(c: Connection)
    ensures Step(c, Pop).out == if c.out == [] then [] else c.out[1..]
  {
  }

  lemma Refill(taken: seq<TcpSegment>, out: seq<TcpSegment>, out': seq<TcpSegment>)
    requires out <= out'
    ensures taken + out' == (taken + out) + out'[|out|..] && taken + [] == taken && taken + out + [] == taken + out
    ensures out != [] ==> (taken + [out[0]]) + out[1..] == taken + out
  {
  }

  /** The segments that are not RSTs. */
  function Sequenced(segs: seq<TcpSegment>): seq<TcpSegment>
  {
    if segs == [] then []
    else
      var s := segs[|segs| - 1];
      Sequenced(segs[..|segs| - 1]) + (if s.header.rst then [] else [s])
  }

  lemma {:induction false} SequencedConcat(a: seq<TcpSegment>, b: seq<TcpSegment>)
    ensures Sequenced(a + b) == Sequenced(a) + Sequenced(b)
  {
    if b == [] {
      assert a + b == a;
    } else {
      assert (a + b)[..|a + b| - 1] == a + b[..|b| - 1];
      SequencedConcat(a, b[..|b| - 1]);
    }
  }

  /** `segs` are the segments `fs`, in order. */
  ghost predicate CarryAll(isn: Seqno, fs: seq<S.Flight>, segs: seq<TcpSegment>)
  {
    |segs| == |fs| && forall k | 0 <= k < |fs| :: Carries(isn, fs[k], segs[k])
  }

  lemma CarryConcat(isn: Seqno, fs: seq<S.Flight>, gs: seq<S.Flight>, a: seq<TcpSegment>, b: seq<TcpSegment>)
    requires CarryAll(isn, fs, a) && CarryAll(isn, gs, b)
    ensures CarryAll(isn, fs + gs, a + b)
  {
    hide Carries;
  }

  lemma {:induction false} AllSequenced(isn: Seqno, fs: seq<S.Flight>, segs: seq<TcpSegment>)
    requires CarryAll(isn, fs, segs)
    ensures Sequenced(segs) == segs
  {
    hide Wrap;
    if segs != [] {
      var n := |segs| - 1;
      AllSequenced(isn, fs[..n], segs[..n]);
      assert Carries(isn, fs[n], segs[n]);
      assert segs == segs[..n] + [segs[n]];
    }
  }

  lemma OnlyReset()
    ensures Sequenced([RESET]) == []
  {
    assert [RESET][..0] == [];
  }

  /** The sender as it starts. */
  function Fresh(cfg: Config): S.Sender { S.NewSender(cfg.sendCapacity, cfg.isn, cfg.rtTimeout) }

  lemma {:induction false} RunCarries(cfg: Config, es: seq<Event>)
    requires Legal(cfg, es)
    ensures CarryAll(cfg.isn, DrainedBy(Fresh(cfg), L.Trace(cfg, es)), Sequenced(OutLog(cfg, es)))
    ensures S.Replay(Fresh(cfg), L.Trace(cfg, es)) == Run(cfg, es).sender && Run(cfg, es).sender.isn == cfg.isn
  {
    hide Step, DrainedBy, S.Step, SenderEvents, Carries, Stamps, GivesUp;
    ReplayTrace(cfg, es);
    if es == [] {
      TraceNone(cfg);
    } else {
      var init, e := es[..|es| - 1], es[|es| - 1];
      var c := Run(cfg, init);
      RunCarries(cfg, init);
      DrainedConcat(Fresh(cfg), L.Trace(cfg, init), SenderEvents(c, e));
      if e.Pop? {
        PopDrains(c);
        assert OutLog(cfg, es) == OutLog(cfg, init);
      } else {
        OnlyAppends(c, e);
        var more := Step(c, e).out[|c.out|..];
        StepOutbound(c, e);
        SequencedConcat(OutLog(cfg, init), more);
        StepSequenced(c, e);
        CarryConcat(cfg.isn, DrainedBy(Fresh(cfg), L.Trace(cfg, init)), DrainedBy(c.sender, SenderEvents(c, e)),
                    Sequenced(OutLog(cfg, init)), Sequenced(more));
      }
    }
  }

  lemma StepSequenced(c: Connection, e: Event)
    requires !e.Pop?
    ensures c.out <= Step(c, e).out && Step(c, e).sender.isn == c.sender.isn
    ensures CarryAll(c.sender.isn, DrainedBy(c.sender, SenderEvents(c, e)), Sequenced(Step(c, e).out[|c.out|..]))
  {
    hide Step, DrainedBy, SenderEvents, Carries, Acknowledges, GivesUp;
    OnlyAppends(c, e);
    StepOutbound(c, e);
    if e.TickBy? && GivesUp(c, e.ms) {
      assert Step(c, e).out[|c.out|..] == [RESET];
      OnlyReset();
      GiveUpDrains(c, e.ms);
    } else {
      AllSequenced(c.sender.isn, DrainedBy(c.sender, SenderEvents(c, e)), Step(c, e).out[|c.out|..]);
    }
  }

  lemma GiveUpDrains(c: Connection, ms: U64)
    requires GivesUp(c, ms)
    ensures DrainedBy(c.sender, SenderEvents(c, TickBy(ms))) == [] && Step(c, TickBy(ms)).sender.isn == c.sender.isn
  {
    GivingUp(c, ms);
    IsnKept(c.sender, S.TickBy(ms));
  }

  lemma PopDrains(c: Connection)
    ensures DrainedBy(c.sender, SenderEvents(c, Pop)) == [] && Step(c, Pop).sender == c.sender
  {
    hide DrainedBy, SegmentReceived, Connect, Tick;
    DrainedAtEnd(c.sender, S.Fill, S.Fill);
  }

  lemma TraceNone(cfg: Config)
    ensures L.Trace(cfg, []) == [] && DrainedBy(Fresh(cfg), []) == [] && Run(cfg, []).sender == Fresh(cfg)
  {
  }

  lemma ReplayTrace(cfg: Config, es: seq<Event>)
    requires Legal(cfg, es)
    ensures S.Replay(Fresh(cfg), L.Trace(cfg, es)) == Run(cfg, es).sender
  {
    hide S.Step, Step;
    L.TraceRun(cfg, es);
    S.ReplayRun(L.SenderConfig(cfg), [], L.Trace(cfg, es));
    assert [] + L.Trace(cfg, es) == L.Trace(cfg, es);
  }

  /** Over every run: the segments the sender has ever queued are, in this order, those put into the outbound queue,
      RSTs aside, followed by those it still holds; none is lost, repeated or changed. */
  lemma EverythingGoesOut(cfg: Config, es: seq<Event>)
    requires Legal(cfg, es)
    ensures var queued := QueuedBy(Fresh(cfg), L.Trace(cfg, es));
            var n := |Sequenced(OutLog(cfg, es))|;
            && n <= |queued| && queued[n..] == Run(cfg, es).sender.queue
            && CarryAll(cfg.isn, queued[..n], Sequenced(OutLog(cfg, es)))
  {
    hide Step, DrainedBy, QueuedBy, S.Step, S.Replay, Carries, OutLog, Sequenced, Run, L.Trace;
    RunCarries(cfg, es);
    QueueConserves(Fresh(cfg), L.Trace(cfg, es));
    var queued := QueuedBy(Fresh(cfg), L.Trace(cfg, es));
    assert [] + queued == queued;
  }
}
