/** The official names of the sender's and receiver's states. */
module TcpStateSummary {
  import opened Words
  import opened ByteStreams
  import opened Segments
  import opened SenderSpec
  import opened SenderInvariant
  import R = ReceiverSpec
  import P = ReceiverLaws

  datatype SenderSummary = SenderError | SenderClosed | SenderSynSent | SenderSynAcked | SenderFinSent | SenderFinAcked

  datatype ReceiverSummary = ReceiverError | ReceiverListen | ReceiverSynRecv | ReceiverFinRecv

  function SummarizeSender(s: Sender): SenderSummary
  {
    var inFlight := s.nextSeqno - s.nextAckno;
    if s.stream.error then SenderError
    else if s.nextSeqno == 0 then SenderClosed
    else if s.nextSeqno == inFlight then SenderSynSent
    else if !AtEof(s.stream) then SenderSynAcked
    else if s.nextSeqno < |s.stream.written| + 2 then SenderSynAcked
    else if inFlight != 0 then SenderFinSent
    else SenderFinAcked
  }

  function SummarizeReceiver(r: R.Receiver): ReceiverSummary
  {
    if r.asm.out.error then ReceiverError
    else if R.Ackno(r).None? then ReceiverListen
    else if r.asm.out.ended then ReceiverFinRecv
    else ReceiverSynRecv
  }

  /** The sender's own idea of its phase, with the two phases before the FIN taken together. */
  function PhaseSummary(p: Phase): SenderSummary
  {
    match p
    case Closed => SenderClosed
    case SynSent => SenderSynSent
    case SynAcked => SenderSynAcked
    case SynAckedEof => SenderSynAcked
    case FinSent => SenderFinSent
    case FinAcked => SenderFinAcked
  }

  /** In every reachable state without a stream error the two agree, and the last two names mean that the FIN is out
      and that it has been acknowledged. */
  lemma SummariesAgree(c: Config, es: seq<Event>)
    requires Legal(c, es) && !Run(c, es).stream.error
    ensures var s := Run(c, es);
            && SummarizeSender(s) == PhaseSummary(CurrentPhase(s))
            && (SummarizeSender(s) in {SenderFinSent, SenderFinAcked} <==>
                  s.nextSeqno == |s.stream.written| + 2 && s.retired > 0)
            && (SummarizeSender(s) == SenderFinAcked <==> s.nextAckno == |s.stream.written| + 2)
  {
    hide Run, FlightInv, WindowInv;
    RunKeeps(c, es);
    AgreeHere(Run(c, es));
  }

  lemma AgreeHere(s: Sender)
    requires FlightInv(s) && !s.stream.error
    ensures SummarizeSender(s) == PhaseSummary(CurrentPhase(s))
    ensures SummarizeSender(s) in {SenderFinSent, SenderFinAcked} <==>
              s.nextSeqno == |s.stream.written| + 2 && s.retired > 0
    ensures SummarizeSender(s) == SenderFinAcked <==> s.nextAckno == |s.stream.written| + 2
  {
    hide Tiled, Total, FlightsOk;
    PhaseDecided(s);
    FlightBounds(s);
  }

  /** How far the receiver has come. */
  function Progress(r: R.Receiver): nat
  {
    match SummarizeReceiver(r)
    case ReceiverListen => 0
    case ReceiverSynRecv => 1
    case ReceiverFinRecv => 2
    case ReceiverError => 3
  }

  lemma StepProgresses(r: R.Receiver, e: R.Event)
    requires R.ReceiverOk(r)
    ensures Progress(r) <= Progress(R.Step(r, e))
  {
    hide R.Received;
    if e.SegmentIn? {
      R.ReceivedOk(r, e.seg);
    }
  }

  /** Over every run of segments and reads the receiver's state never goes back. */
  lemma {:induction false} ReceiverProgresses(capacity: Capacity, es: seq<R.Event>, more: seq<R.Event>)
    ensures Progress(R.Run(capacity, es)) <= Progress(R.Run(capacity, es + more))
  {
    hide Progress;
    if more == [] {
      assert es + more == es;
    } else {
      var init := more[..|more| - 1];
      ReceiverProgresses(capacity, es, init);
      R.RunOk(capacity, es + init);
      assert (es + more)[..|es + more| - 1] == es + init;
      StepProgresses(R.Run(capacity, es + init), more[|more| - 1]);
    }
  }

  // ----- What the receiver's names mean

  lemma ReceivedEnds(r: R.Receiver, seg: TcpSegment)
    requires R.ReceiverOk(r) && r.haveFin == r.asm.haveEof && (r.asm.out.ended ==> r.haveFin)
    ensures R.Received(r, seg).asm.out.ended ==> R.Received(r, seg).haveFin
    ensures R.Received(r, seg).asm.out.error == r.asm.out.error
  {
    hide R.Received, R.KnownAfter;
    R.ReceivedOk(r, seg);
    R.ReceivedFin(r, seg);
    if !r.asm.out.ended {
      R.EndsExactly(r, seg);
      FinSeen(r, seg);
    }
  }

  lemma FinSeen(r: R.Receiver, seg: TcpSegment)
    ensures !R.Ignored(r, seg.header) && seg.header.fin ==> R.Received(r, seg).haveFin
  {
    hide R.StreamIndex;
  }

  /** A read asked for more than there was. */
  predicate OverRead(capacity: Capacity, es: seq<R.Event>)
  {
    exists k | 0 <= k < |es| :: es[k].ReadOut? && es[k].len > Buffered(R.Run(capacity, es[..k]).asm.out)
  }

  lemma OverReadLast(capacity: Capacity, es: seq<R.Event>)
    requires es != []
    ensures var init, e := es[..|es| - 1], es[|es| - 1];
            OverRead(capacity, es) <==>
              OverRead(capacity, init) || (e.ReadOut? && e.len > Buffered(R.Run(capacity, init).asm.out))
  {
    hide R.Run;
    var init := es[..|es| - 1];
    forall k | 0 <= k < |init|
      ensures init[k] == es[k] && init[..k] == es[..k]
    {
    }
  }

  lemma {:induction false} ReceiverFlags(capacity: Capacity, es: seq<R.Event>)
    ensures var r := R.Run(capacity, es);
            && (r.asm.out.error <==> OverRead(capacity, es)) && (r.asm.out.ended ==> r.haveFin)
  {
    hide R.Received, OverRead;
    if es == [] {
      NoOverRead(capacity);
    } else {
      var init, e := es[..|es| - 1], es[|es| - 1];
      ReceiverFlags(capacity, init);
      OverReadLast(capacity, es);
      R.RunOk(capacity, init);
      R.RunFinKnown(capacity, init);
      if e.SegmentIn? {
        ReceivedEnds(R.Run(capacity, init), e.seg);
      }
    }
  }

  lemma NoOverRead(capacity: Capacity)
    ensures !OverRead(capacity, [])
  {
  }

  /** Over every run the receiver has failed exactly when a read asked for too much; otherwise it listens exactly until
      a SYN comes in, and has received the FIN exactly when its output has ended, which it then acknowledges. */
  lemma ReceiverNames(capacity: Capacity, es: seq<R.Event>)
    ensures var r := R.Run(capacity, es);
            && (SummarizeReceiver(r) == ReceiverError <==> OverRead(capacity, es))
            && (SummarizeReceiver(r) == ReceiverListen <==> !OverRead(capacity, es) && !P.SawSyn(es))
            && (SummarizeReceiver(r) == ReceiverFinRecv <==>
                  !OverRead(capacity, es) && P.SawSyn(es) && r.asm.out.ended)
            && (SummarizeReceiver(r) == ReceiverFinRecv ==> R.AbsoluteAckno(r) == |r.asm.out.written| + 2)
            && (SummarizeReceiver(r) in {ReceiverListen, ReceiverSynRecv} ==>
                  R.AbsoluteAckno(r) == |r.asm.out.written| + 1)
  {
    hide R.Run, OverRead, P.SawSyn;
    ReceiverFlags(capacity, es);
    P.Synchronized(capacity, es);
    R.RunOk(capacity, es);
  }
}
