/** One sender, one receiver, and a network between them that may lose, duplicate and reorder whatever is put
    into it.  `wire` and `acks` hold everything ever sent, so delivering any element any number of times, or never,
    covers all three. */
module EndToEnd {
  import opened Words
  import opened Wrapping
  import opened ByteStreams
  import opened ReassemblerSpec
  import opened Segments
  import S = SenderSpec
  import I = SenderInvariant
  import R = ReceiverSpec

  /** An acknowledgment on the network; `absolute` is what the receiver meant, the sender sees the other two. */
  datatype Ack = Ack(absolute: nat, ackno: Seqno, win: U16)

  datatype Network = Network(s: S.Sender, r: R.Receiver, wire: set<S.Flight>, acks: set<Ack>)

  datatype Event =
    | Send(e: S.Event)         // the sending side writes, ends, fills its window, ticks, ...
    | Transmit                 // its queue goes onto the wire
    | Deliver(f: S.Flight)     // the receiver gets a segment from the wire
    | Read(len: nat)           // the receiving side reads
    | EmitAck                  // the receiver acknowledges
    | DeliverAck(a: Ack)       // the sender gets an acknowledgment

  function NewNetwork(sender: S.Config, capacity: Capacity): Network
  {
    Network(S.NewSender(sender.capacity, sender.isn, sender.initialRto), R.NewReceiver(capacity), {}, {})
  }

  function Step(n: Network, e: Event): Network
  {
    match e
    case Send(e) => n.(s := S.Step(n.s, e))
    case Transmit => n.(s := S.Step(n.s, S.Drain), wire := n.wire + set f | f in n.s.queue)
    case Deliver(f) => n.(r := R.Received(n.r, S.Concrete(n.s.isn, f)))
    case Read(len) => n.(r := R.Step(n.r, R.ReadOut(len)))
    case EmitAck =>
      if n.r.haveSyn then
        n.(acks := n.acks + {Ack(R.AbsoluteAckno(n.r), Wrap(R.AbsoluteAckno(n.r), n.r.icn),
            R.WindowSize(n.r) % 0x1_0000)})
      else n
    case DeliverAck(a) => n.(s := S.AckReceived(n.s, a.ackno, a.win))
  }

  /** Bytes the sender's stream holds or held, up to the last one sent. */
  function Sent(n: Network): seq<Byte> { n.s.stream.written[..n.s.stream.read] }

  /** What any run may do.  Nothing is written once the FIN is out, counters stay in their range, and a segment is
      delivered only while its first number is less than 2^31 away from the receiver's count. */
  predicate Enabled(n: Network, e: Event)
  {
    match e
    case Send(e) => !e.Drain? && (e.Write? ==> S.Writable(n.s, e.data) && |n.s.stream.written| + |e.data| + 2 < TWO64)
    case Deliver(f) => f in n.wire && Distance(f.start, Next(n.r.asm)) < TWO31
    case _ => true
  }

  // ----- Safety

  predicate Emitted(s: S.Sender, f: S.Flight) { f in s.firsts || (S.Len(f) == 0 && f.start <= s.nextSeqno) }

  /** What the receiver knows of the stream's end is true. */
  predicate EndKnown(n: Network)
  {
    && n.r.haveFin == n.r.asm.haveEof
    && (n.r.asm.out.ended ==> n.r.haveFin)
    && (n.r.haveFin ==> n.s.stream.ended && n.s.stream.read == |n.s.stream.written| == n.r.asm.eofIndex
                        && n.s.nextSeqno == |n.s.stream.written| + 2)
  }

  predicate Safe(n: Network)
  {
    && I.FlightInv(n.s) && I.WindowInv(n.s) && |n.s.stream.written| + 2 < TWO64
    && (forall f | f in n.wire :: Emitted(n.s, f))
    && (forall f | f in n.s.queue :: Emitted(n.s, f))
    && R.ReceiverOk(n.r) && Within(Held(n.r.asm), Sent(n))
    && (n.r.haveSyn ==> n.r.icn == n.s.isn && n.s.firsts != [])
    && EndKnown(n)
  }

  lemma SafePrefix(n: Network)
    requires Safe(n)
    ensures n.r.asm.out.written <= n.s.stream.written && Next(n.r.asm) <= n.s.stream.read
  {
    WithinPrefix(n.r.asm, Sent(n));
  }

  /** Segments that carry nothing change nothing but what the end of the stream already decided. */
  lemma EmptyPush(a: Assembly, index: U64)
    requires StagedAhead(a)
    ensures Push(a, [], index, false) == EofProcessed(a)
  {
    NothingNew(a, [], index);
  }

  lemma HeldAfterEof(a: Assembly, stream: seq<Byte>)
    requires StagedAhead(a) && Within(Held(a), stream)
    ensures StagedAhead(EofProcessed(a)) && Within(Held(EofProcessed(a)), stream)
  {
    assert forall i | i in Held(EofProcessed(a)) :: i in Held(a) && Held(EofProcessed(a))[i] == Held(a)[i];
  }

  lemma ConcludedHeld(a: Assembly, haveFin: bool)
    ensures Held(R.Concluded(a, haveFin)) == Held(a)
    ensures StagedAhead(a) ==> StagedAhead(R.Concluded(a, haveFin))
  {
  }

  /** A segment that is taken in, at the index it really has. */
  lemma TakenSlice(r: R.Receiver, seg: TcpSegment, stream: seq<Byte>)
    requires R.ReceiverOk(r) && Within(Held(r.asm), stream) && !R.Ignored(r, seg.header)
    requires var index := R.StreamIndex(r, seg.header);
             index + |seg.payload| <= |stream| && seg.payload == stream[index..index + |seg.payload|]
    ensures Within(Held(R.Received(r, seg).asm), stream)
    ensures R.Received(r, seg).haveFin == (r.haveFin || seg.header.fin)
    ensures R.Received(r, seg).asm.haveEof == (r.asm.haveEof || seg.header.fin)
    ensures R.Received(r, seg).asm.eofIndex ==
            (if seg.header.fin then EndIndex(R.StreamIndex(r, seg.header), |seg.payload|) else r.asm.eofIndex)
    ensures (r.asm.out.ended ==> r.haveFin) && r.asm.haveEof == r.haveFin ==>
              (R.Received(r, seg).asm.out.ended ==> R.Received(r, seg).haveFin)
  {
    hide Push, R.StreamIndex, Held, Within, StagedAhead;
    var index := R.StreamIndex(r, seg.header);
    SlicePushed(r.asm, seg.payload, index, seg.header.fin, stream);
    PushKeeps(r.asm, seg.payload, index, seg.header.fin);
    ConcludedHeld(Push(r.asm, seg.payload, index, seg.header.fin), r.haveFin || seg.header.fin);
  }

  lemma TakenEmpty(r: R.Receiver, seg: TcpSegment, stream: seq<Byte>)
    requires R.ReceiverOk(r) && Within(Held(r.asm), stream) && !R.Ignored(r, seg.header)
    requires seg.payload == [] && !seg.header.fin
    ensures Within(Held(R.Received(r, seg).asm), stream)
    ensures var r' := R.Received(r, seg);
            && r'.haveFin == r.haveFin && r'.asm.haveEof == r.asm.haveEof && r'.asm.eofIndex == r.asm.eofIndex
            && (r'.asm.out.ended ==> r.asm.out.ended || r.haveFin || r.asm.haveEof)
  {
    hide Push, R.StreamIndex, Held, Within, StagedAhead;
    var index := R.StreamIndex(r, seg.header);
    EmptyPush(r.asm, index);
    HeldAfterEof(r.asm, stream);
    ConcludedHeld(EofProcessed(r.asm), r.haveFin);
  }

  /** Near the receiver's count the 32-bit number identifies the position in the stream. */
  lemma FlightIndex(n: Network, f: S.Flight)
    requires Safe(n) && n.r.haveSyn && !f.syn && 0 < f.start < TWO64 && Distance(f.start, Next(n.r.asm)) < TWO31
    ensures R.StreamIndex(n.r, S.Concrete(n.s.isn, f).header) == f.start - 1
  {
    hide Unwrap, Wrap;
    SafePrefix(n);
    assert Low64(Next(n.r.asm)) == Next(n.r.asm);
    RoundTrip(f.start, n.s.isn, Next(n.r.asm));
  }

  lemma FlightSlice(n: Network, f: S.Flight)
    requires Safe(n) && f in n.s.firsts
    ensures f.start == 0 ==> f == S.SYN
    ensures f.start > 0 ==>
              && !f.syn && f.start - 1 + |f.payload| <= |Sent(n)| && f.start < TWO64
              && f.payload == Sent(n)[f.start - 1..f.start - 1 + |f.payload|]
    ensures f.fin ==>
              && f.start > 0 && n.s.stream.ended
              && n.s.stream.read == |n.s.stream.written| == f.start - 1 + |f.payload|
              && n.s.nextSeqno == |n.s.stream.written| + 2
  {
    hide I.Tiled, I.Total;
    assert I.FlightOk(f, n.s.stream);
    var k :| 0 <= k < |n.s.firsts| && n.s.firsts[k] == f;
    EndBound(n.s, k);
  }

  lemma EndBound(s: S.Sender, k: nat)
    requires I.FlightInv(s) && k < |s.firsts|
    ensures S.End(s.firsts[k]) <= s.nextSeqno <= |s.stream.written| + 2
  {
    I.TiledAt(s.firsts, k);
    I.TotalGrows(s.firsts, k + 1, |s.firsts|);
    assert s.firsts[..|s.firsts|] == s.firsts;
    I.FlightBounds(s);
  }

  lemma DeliverSafe(n: Network, f: S.Flight)
    requires Safe(n) && Enabled(n, Deliver(f))
    ensures Safe(Step(n, Deliver(f)))
  {
    hide Safe, R.Received;
    assert Emitted(n.s, f) by { WireEmitted(n, f); }
    if R.Ignored(n.r, S.Concrete(n.s.isn, f).header) {
      IgnoredSame(n.r, S.Concrete(n.s.isn, f));
    } else if f in n.s.firsts && f.start > 0 {
      DataSafe(n, f);
    } else {
      EmptySafe(n, f);
    }
  }

  lemma WireEmitted(n: Network, f: S.Flight)
    requires Safe(n) && f in n.wire
    ensures Emitted(n.s, f)
  {
  }

  lemma DataSafe(n: Network, f: S.Flight)
    requires Safe(n) && Enabled(n, Deliver(f)) && !R.Ignored(n.r, S.Concrete(n.s.isn, f).header)
    requires f in n.s.firsts && f.start > 0
    ensures Safe(Step(n, Deliver(f)))
  {
    hide I.FlightInv, I.WindowInv, R.ReceiverOk, Within, Held, R.Received, R.StreamIndex;
    var seg := S.Concrete(n.s.isn, f);
    R.ReceivedOk(n.r, seg);
    ReceivedIcn(n.r, seg);
    FlightSlice(n, f);
    FlightIndex(n, f);
    TakenSlice(n.r, seg, Sent(n));
  }

  lemma EmptySafe(n: Network, f: S.Flight)
    requires Safe(n) && Enabled(n, Deliver(f)) && !R.Ignored(n.r, S.Concrete(n.s.isn, f).header)
    requires Emitted(n.s, f) && (f !in n.s.firsts || f.start == 0)
    ensures Safe(Step(n, Deliver(f)))
  {
    hide I.FlightInv, I.WindowInv, R.ReceiverOk, Within, Held, R.Received, R.StreamIndex;
    var seg := S.Concrete(n.s.isn, f);
    R.ReceivedOk(n.r, seg);
    ReceivedIcn(n.r, seg);
    EmptyFlight(n, f);
    TakenEmpty(n.r, seg, Sent(n));
  }

  lemma EmptyFlight(n: Network, f: S.Flight)
    requires Safe(n) && Emitted(n.s, f) && (f !in n.s.firsts || f.start == 0)
    ensures f.payload == [] && !f.fin && (f.syn ==> f.start == 0 && f in n.s.firsts)
  {
    if f in n.s.firsts {
      FlightSlice(n, f);
    }
  }

  lemma IgnoredSame(r: R.Receiver, seg: TcpSegment)
    requires R.Ignored(r, seg.header)
    ensures R.Received(r, seg) == r
  {
  }

  lemma ReceivedIcn(r: R.Receiver, seg: TcpSegment)
    requires !R.Ignored(r, seg.header)
    ensures R.Received(r, seg).haveSyn && R.Received(r, seg).icn == (if r.haveSyn then r.icn else seg.header.seqno)
    ensures !r.haveSyn ==> seg.header.syn
  {
    hide Push, R.StreamIndex;
  }

  // ----- What the sending side does

  predicate AllSent(s: S.Sender)
  {
    s.stream.ended && s.stream.read == |s.stream.written| && s.nextSeqno == |s.stream.written| + 2
  }

  /** Nothing sent is taken back, and what is queued was sent or is empty. */
  ghost predicate Advances(s: S.Sender, s': S.Sender)
  {
    && s'.isn == s.isn && s.firsts <= s'.firsts
    && s.stream.written <= s'.stream.written && s.stream.read <= s'.stream.read
    && s.nextSeqno <= s'.nextSeqno
    && (AllSent(s) ==> AllSent(s') && s'.stream.written == s.stream.written)
    && (forall f | f in s'.queue :: f in s.queue || Emitted(s', f))
  }

  lemma FillAdvances(s: S.Sender)
    requires I.FlightInv(s)
    ensures Advances(s, S.FillWindow(s))
  {
    hide S.FillLoop;
    I.PhaseDecided(s);
    S.FillLoopFrame(s);
    if AllSent(s) {
      S.NothingToFill(s);
    }
  }

  lemma StepAdvances(s: S.Sender, e: S.Event)
    requires I.FlightInv(s) && (e.Write? ==> S.Writable(s, e.data))
    ensures Advances(s, S.Step(s, e))
  {
    hide S.FillWindow, S.FindEnd, S.AbsoluteAck, I.FlightInv;
    if e.Fill? {
      FillAdvances(s);
    }
  }

  lemma SentGrows(s: S.Sender, s': S.Sender)
    requires Advances(s, s')
    ensures s.stream.written[..s.stream.read] <= s'.stream.written[..s'.stream.read]
  {
  }

  lemma WithinGrows(m: ByteMap, a: seq<Byte>, b: seq<Byte>)
    requires Within(m, a) && a <= b
    ensures Within(m, b)
  {
  }

  lemma SendSafe(n: Network, e: S.Event)
    requires Safe(n) && (e.Write? ==> S.Writable(n.s, e.data) && |n.s.stream.written| + |e.data| + 2 < TWO64)
    ensures Safe(n.(s := S.Step(n.s, e)))
  {
    hide I.FlightInv, I.WindowInv, R.ReceiverOk, Within, Held, S.Step;
    var s' := S.Step(n.s, e);
    I.StepKeeps(n.s, e);
    StepAdvances(n.s, e);
    SentGrows(n.s, s');
    WithinGrows(Held(n.r.asm), Sent(n), s'.stream.written[..s'.stream.read]);
    StepBound(n.s, e);
  }

  lemma StepBound(s: S.Sender, e: S.Event)
    requires I.FlightInv(s) && |s.stream.written| + 2 < TWO64
             && (e.Write? ==> |s.stream.written| + |e.data| + 2 < TWO64)
    ensures |S.Step(s, e).stream.written| + 2 < TWO64
  {
    hide S.FillLoop, S.FindEnd, S.AbsoluteAck, I.FlightInv;
    S.FillLoopFrame(s);
  }

  lemma StepSafe(n: Network, e: Event)
    requires Safe(n) && Enabled(n, e)
    ensures Safe(Step(n, e))
  {
    hide I.FlightInv, I.WindowInv, R.ReceiverOk, Within, Held, S.Step, R.Received;
    match e
    case Send(e) => SendSafe(n, e);
    case Transmit =>
      SendSafe(n, S.Drain);
      DrainOnly(n.s);
    case Deliver(f) => DeliverSafe(n, f);
    case Read(len) => ReadSafe(n, len);
    case EmitAck =>
    case DeliverAck(a) =>
      SendSafe(n, S.Ack(a.ackno, a.win));
      AckStep(n.s, a.ackno, a.win);
  }

  lemma DrainOnly(s: S.Sender)
    ensures S.Step(s, S.Drain) == s.(queue := [])
  {
  }

  lemma AckStep(s: S.Sender, ackno: Seqno, win: U16)
    ensures S.Step(s, S.Ack(ackno, win)) == S.AckReceived(s, ackno, win)
  {
  }

  lemma ReadSafe(n: Network, len: nat)
    requires Safe(n)
    ensures Safe(Step(n, Read(len)))
  {
    hide I.FlightInv, I.WindowInv, Within, StagedAhead, R.ReceiverOk;
    R.StepOk(n.r, R.ReadOut(len));
    assert Held(R.Step(n.r, R.ReadOut(len)).asm) == Held(n.r.asm);
  }

  function Run(sender: S.Config, capacity: Capacity, es: seq<Event>): Network
  {
    if es == [] then NewNetwork(sender, capacity) else Step(Run(sender, capacity, es[..|es| - 1]), es[|es| - 1])
  }

  predicate Legal(sender: S.Config, capacity: Capacity, es: seq<Event>)
  {
    es == [] ||
    (Legal(sender, capacity, es[..|es| - 1]) && Enabled(Run(sender, capacity, es[..|es| - 1]), es[|es| - 1]))
  }

  lemma {:induction false} RunSafe(sender: S.Config, capacity: Capacity, es: seq<Event>)
    requires Legal(sender, capacity, es)
    ensures Safe(Run(sender, capacity, es))
  {
    hide Step, Safe, Enabled;
    if es == [] {
      NewSafe(sender, capacity);
    } else {
      RunSafe(sender, capacity, es[..|es| - 1]);
      StepSafe(Run(sender, capacity, es[..|es| - 1]), es[|es| - 1]);
    }
  }

  lemma NewSafe(sender: S.Config, capacity: Capacity)
    ensures Safe(NewNetwork(sender, capacity))
  {
    hide I.FlightInv, I.WindowInv;
    I.NewKeeps(sender);
  }

  /** End-to-end safety: whatever the network loses, duplicates and reorders, and whatever acknowledgments the sender
      is given, the bytes the receiver has put out are a prefix of the bytes written into the sender. */
  lemma PrefixSafety(sender: S.Config, capacity: Capacity, es: seq<Event>)
    requires Legal(sender, capacity, es)
    ensures var n := Run(sender, capacity, es); n.r.asm.out.written <= n.s.stream.written
  {
    RunSafe(sender, capacity, es);
    SafePrefix(Run(sender, capacity, es));
  }

  // ----- Acknowledgments

  /** The receiver has the whole stream. */
  predicate Complete(n: Network) { n.s.stream.ended && Next(n.r.asm) == |n.s.stream.written| }

  /** The receiver has ended its output although part of the stream is missing. */
  predicate EndedEarly(n: Network) { n.r.asm.out.ended && !Complete(n) }

  /** The first sequence number that has not reached the receiver. */
  function Arrived(n: Network): nat
  {
    if !n.r.haveSyn then 0
    else if Complete(n) && n.r.haveFin then |n.s.stream.written| + 2
    else Next(n.r.asm) + 1
  }

  /** The receiver acknowledges only what has arrived, exactly when it has not ended its output early. */
  lemma AckTruthful(n: Network)
    requires Safe(n) && n.r.haveSyn
    ensures R.AbsoluteAckno(n.r) <= Arrived(n) <==> !EndedEarly(n)
  {
    hide I.FlightInv, I.WindowInv, R.ReceiverOk, Within;
  }

  /** A run with genuine acknowledgments: the receiver emits them unless it has ended early, the sender gets those and
      no others, and nothing on the network is as old as 2^31 numbers. */
  predicate Genuine(n: Network, e: Event)
  {
    match e
    case Send(e') => Enabled(n, e) && !e'.Ack?
    case Deliver(f) => f in n.wire && Next(n.r.asm) < f.start + TWO31
    case EmitAck => !EndedEarly(n)
    case DeliverAck(a) => a in n.acks && n.s.nextAckno < a.absolute + TWO31
    case _ => true
  }

  predicate AckSafe(n: Network)
  {
    && Safe(n)
    && (forall a | a in n.acks :: a.ackno == Wrap(a.absolute, n.s.isn) && a.absolute <= Arrived(n))
    && n.s.nextAckno <= Arrived(n)
  }

  lemma ArrivedSent(n: Network)
    requires Safe(n)
    ensures Arrived(n) <= n.s.nextSeqno && Arrived(n) <= Next(n.r.asm) + 2
    ensures n.s.nextSeqno <= n.s.nextAckno + 0x1_0000 && n.s.nextSeqno < TWO64
  {
    hide Within, R.ReceiverOk, I.Tiled, I.Total;
    SafePrefix(n);
    I.FlightBounds(n.s);
  }

  /** In such a run no segment is too far ahead, so it is a run of the kind above. */
  lemma GenuineEnabled(n: Network, e: Event)
    requires AckSafe(n) && Genuine(n, e)
    ensures Enabled(n, e)
  {
    hide I.FlightInv, I.WindowInv, R.ReceiverOk, Within;
    if e.Deliver? {
      ArrivedSent(n);
      if e.f in n.s.firsts {
        var k :| 0 <= k < |n.s.firsts| && n.s.firsts[k] == e.f;
        EndBound(n.s, k);
      }
    }
  }

  /** A genuine acknowledgment is read as the number it was meant to be. */
  lemma GenuineAck(n: Network, a: Ack)
    requires AckSafe(n) && Genuine(n, DeliverAck(a))
    ensures S.AbsoluteAck(n.s, a.ackno) == a.absolute
  {
    hide I.FlightInv, I.WindowInv, R.ReceiverOk, Within, Wrap, Unwrap;
    ArrivedSent(n);
    I.FlightBounds(n.s);
    assert Low64(n.s.nextAckno) == n.s.nextAckno;
    RoundTrip(a.absolute, n.s.isn, n.s.nextAckno);
  }

  lemma AckMoves(s: S.Sender, ackno: Seqno, win: U16)
    ensures var t := S.AckReceived(s, ackno, win);
            && (t.nextAckno == s.nextAckno || t.nextAckno == S.AbsoluteAck(s, ackno))
            && t.stream == s.stream && t.isn == s.isn
  {
    hide S.FindEnd, S.AbsoluteAck;
  }

  lemma OtherStepsMark(s: S.Sender, e: S.Event)
    requires !e.Ack?
    ensures S.Step(s, e).nextAckno == s.nextAckno
  {
    hide S.FillLoop;
    S.FillLoopFrame(s);
  }

  /** What has arrived stays arrived. */
  lemma ArrivedKept(n: Network, n': Network)
    requires Safe(n) && Advances(n.s, n'.s)
    requires (n.r.haveSyn ==> n'.r.haveSyn) && (n.r.haveFin ==> n'.r.haveFin)
             && n.r.asm.out.written <= n'.r.asm.out.written
    requires Next(n'.r.asm) <= |n'.s.stream.written|
    ensures Arrived(n) <= Arrived(n')
  {
    hide I.FlightInv, I.WindowInv, R.ReceiverOk, Within;
  }

  lemma SendAckSafe(n: Network, e: S.Event)
    requires AckSafe(n) && Enabled(n, Send(e)) && !e.Ack?
    ensures AckSafe(Step(n, Send(e)))
  {
    hide I.FlightInv, I.WindowInv, R.ReceiverOk, Within, S.Step, Wrap;
    var n' := Step(n, Send(e));
    SendSafe(n, e);
    StepAdvances(n.s, e);
    OtherStepsMark(n.s, e);
    SafePrefix(n');
    ArrivedKept(n, n');
  }

  lemma TransmitAckSafe(n: Network)
    requires AckSafe(n)
    ensures AckSafe(Step(n, Transmit))
  {
    hide I.FlightInv, I.WindowInv, R.ReceiverOk, Within, Wrap;
    StepSafe(n, Transmit);
  }

  lemma DeliverAckSafe(n: Network, a: Ack)
    requires AckSafe(n) && Genuine(n, DeliverAck(a))
    ensures AckSafe(Step(n, DeliverAck(a)))
  {
    hide I.FlightInv, I.WindowInv, R.ReceiverOk, Within, S.AckReceived, Wrap;
    StepSafe(n, DeliverAck(a));
    GenuineAck(n, a);
    AckMoves(n.s, a.ackno, a.win);
  }

  lemma ReceiveAckSafe(n: Network, e: Event)
    requires AckSafe(n) && Enabled(n, e) && (e.Deliver? || e.Read?)
    ensures AckSafe(Step(n, e))
  {
    hide I.FlightInv, I.WindowInv, R.ReceiverOk, Within, R.Received, Wrap;
    var n' := Step(n, e);
    StepSafe(n, e);
    if e.Deliver? {
      R.ReceivedOk(n.r, S.Concrete(n.s.isn, e.f));
      R.ReceivedFin(n.r, S.Concrete(n.s.isn, e.f));
    }
    NoAdvance(n.s);
    SafePrefix(n');
    ArrivedKept(n, n');
  }

  lemma NoAdvance(s: S.Sender)
    ensures Advances(s, s)
  {
  }

  lemma EmitAckSafe(n: Network)
    requires AckSafe(n) && !EndedEarly(n)
    ensures AckSafe(Step(n, EmitAck))
  {
    hide I.FlightInv, I.WindowInv, R.ReceiverOk, Within, Wrap;
    StepSafe(n, EmitAck);
    if n.r.haveSyn {
      AckTruthful(n);
    }
  }

  lemma StepAckSafe(n: Network, e: Event)
    requires AckSafe(n) && Genuine(n, e)
    ensures AckSafe(Step(n, e)) && Enabled(n, e)
  {
    hide AckSafe, Enabled, Step, EndedEarly;
    GenuineEnabled(n, e);
    match e
    case Send(e) => SendAckSafe(n, e);
    case Transmit => TransmitAckSafe(n);
    case EmitAck => EmitAckSafe(n);
    case DeliverAck(a) => DeliverAckSafe(n, a);
    case _ => ReceiveAckSafe(n, e);
  }

  predicate LegalGenuine(sender: S.Config, capacity: Capacity, es: seq<Event>)
  {
    es == [] ||
    (LegalGenuine(sender, capacity, es[..|es| - 1]) && Genuine(Run(sender, capacity, es[..|es| - 1]), es[|es| - 1]))
  }

  lemma {:induction false} RunAckSafe(sender: S.Config, capacity: Capacity, es: seq<Event>)
    requires LegalGenuine(sender, capacity, es)
    ensures AckSafe(Run(sender, capacity, es)) && Legal(sender, capacity, es)
  {
    hide Step, AckSafe, Genuine, Enabled;
    if es == [] {
      NewAckSafe(sender, capacity);
    } else {
      RunAckSafe(sender, capacity, es[..|es| - 1]);
      StepAckSafe(Run(sender, capacity, es[..|es| - 1]), es[|es| - 1]);
    }
  }

  lemma NewAckSafe(sender: S.Config, capacity: Capacity)
    ensures AckSafe(NewNetwork(sender, capacity))
  {
    hide I.FlightInv, I.WindowInv;
    NewSafe(sender, capacity);
  }

  /** The payload of `f` is part of what the receiver has put out. */
  predicate Delivered(n: Network, f: S.Flight)
  {
    f.start > 0 ==>
      && f.start - 1 + |f.payload| <= Next(n.r.asm)
      && f.payload == n.r.asm.out.written[f.start - 1..f.start - 1 + |f.payload|]
  }

  lemma RetiredDelivered(n: Network, k: nat)
    requires AckSafe(n) && k < n.s.retired
    ensures k < |n.s.firsts| && n.r.haveSyn && Delivered(n, n.s.firsts[k])
  {
    hide I.WindowInv, R.ReceiverOk, Within, I.Total, I.Tiled, Wrap;
    var f := n.s.firsts[k];
    I.TiledAt(n.s.firsts, k);
    I.TotalGrows(n.s.firsts, k + 1, n.s.retired);
    SafePrefix(n);
    FlightSlice(n, f);
  }

  /** Every segment that is no longer tracked has been put out by the receiver. */
  ghost predicate AllDelivered(n: Network)
  {
    forall k | 0 <= k < n.s.retired :: k < |n.s.firsts| && Delivered(n, n.s.firsts[k])
  }

  /** End-to-end acknowledgment safety: with genuine acknowledgments, the sender's mark never passes what has arrived,
      and no segment stops being tracked before its bytes have been put out by the receiver. */
  lemma AckSafety(sender: S.Config, capacity: Capacity, es: seq<Event>)
    requires LegalGenuine(sender, capacity, es)
    ensures var n := Run(sender, capacity, es);
            && n.s.nextAckno <= Arrived(n)
            && (!Complete(n) ==> n.s.nextAckno <= Next(n.r.asm) + 1)
            && AllDelivered(n)
            && n.r.asm.out.written <= n.s.stream.written
  {
    hide Step, Delivered, LegalGenuine;
    var n := Run(sender, capacity, es);
    RunAckSafe(sender, capacity, es);
    SafePrefix(n);
    forall k | 0 <= k < n.s.retired
      ensures k < |n.s.firsts| && Delivered(n, n.s.firsts[k])
    {
      RetiredDelivered(n, k);
    }
  }

  // ----- Ending early

  /** `f` is taken in when a FIN has been seen, and leaves a gap with nothing known beyond it. */
  predicate StopsAtGap(n: Network, f: S.Flight)
  {
    var seg := S.Concrete(n.s.isn, f);
    var known := R.KnownAfter(n.r, seg);
    var gap := RunEnd(known, 0);
    && !R.Ignored(n.r, seg.header) && (n.r.haveFin || f.fin)
    && gap < |n.s.stream.written|
    && forall i | i in known :: i < gap
  }

  /** A delivery makes the receiver end its output early exactly when it leaves a gap with nothing known beyond it
      and a FIN has been seen. */
  lemma EndsEarlyExactly(n: Network, f: S.Flight)
    requires Safe(n) && Enabled(n, Deliver(f)) && !n.r.asm.out.ended
    ensures EndedEarly(Step(n, Deliver(f))) <==> StopsAtGap(n, f)
  {
    hide I.FlightInv, I.WindowInv, R.StreamIndex, R.Received, R.KnownAfter, R.ReceiverOk, Within;
    R.EndsExactly(n.r, S.Concrete(n.s.isn, f));
    DeliverSafe(n, f);
    SafePrefix(Step(n, Deliver(f)));
  }

  /** Nothing else does. */
  lemma OnlyStopsEndEarly(n: Network, e: Event)
    requires Safe(n) && Enabled(n, e) && !EndedEarly(n) && EndedEarly(Step(n, e))
    ensures e.Deliver? && !n.r.asm.out.ended && StopsAtGap(n, e.f)
  {
    hide I.FlightInv, I.WindowInv, R.Received, R.ReceiverOk, Within, S.Step, S.AckReceived, StopsAtGap;
    StepSafe(n, e);
    SafePrefix(Step(n, e));
    match e
    case Send(e) => StepAdvances(n.s, e);
    case Transmit => DrainOnly(n.s);
    case DeliverAck(a) => AckMoves(n.s, a.ackno, a.win);
    case Deliver(f) =>
      R.ReceivedOk(n.r, S.Concrete(n.s.isn, f));
      if !n.r.asm.out.ended {
        EndsEarlyExactly(n, f);
      }
    case _ =>
  }

  /** The event at `k` is a delivery that stops an open output at a gap. */
  predicate StopsAt(sender: S.Config, capacity: Capacity, es: seq<Event>, k: nat)
    requires k < |es|
  {
    var n := Run(sender, capacity, es[..k]);
    es[k].Deliver? && !n.r.asm.out.ended && StopsAtGap(n, es[k].f)
  }

  lemma {:induction false} EarlyEndHasCause(sender: S.Config, capacity: Capacity, es: seq<Event>) returns (k: nat)
    requires Legal(sender, capacity, es) && EndedEarly(Run(sender, capacity, es))
    ensures k < |es| && StopsAt(sender, capacity, es, k)
  {
    hide Step, EndedEarly, StopsAtGap, Enabled;
    NewNotEnded(sender, capacity);
    var init, e := es[..|es| - 1], es[|es| - 1];
    if EndedEarly(Run(sender, capacity, init)) {
      k := EarlyEndHasCause(sender, capacity, init);
      assert es[..k] == init[..k];
    } else {
      k := |es| - 1;
      RunSafe(sender, capacity, init);
      OnlyStopsEndEarly(Run(sender, capacity, init), e);
    }
  }

  lemma NewNotEnded(sender: S.Config, capacity: Capacity)
    ensures !EndedEarly(NewNetwork(sender, capacity))
  {
  }

  lemma {:induction false} LegalPrefix(sender: S.Config, capacity: Capacity, es: seq<Event>, j: nat)
    requires Legal(sender, capacity, es) && j <= |es|
    ensures Legal(sender, capacity, es[..j])
    ensures j < |es| ==> Enabled(Run(sender, capacity, es[..j]), es[j])
    ensures j < |es| ==> Run(sender, capacity, es[..j + 1]) == Step(Run(sender, capacity, es[..j]), es[j])
  {
    hide Step, Enabled;
    if j < |es| - 1 {
      LegalPrefix(sender, capacity, es[..|es| - 1], j);
      assert es[..|es| - 1][..j] == es[..j] && es[..|es| - 1][..j + 1] == es[..j + 1];
    } else if j == |es| - 1 {
      assert es[..j + 1] == es;
    } else {
      assert es[..j] == es;
    }
  }

  /** Over every run: the receiver has ended early at some point exactly when some delivery stopped it at a gap. */
  lemma EndsEarlyOverRuns(sender: S.Config, capacity: Capacity, es: seq<Event>)
    requires Legal(sender, capacity, es)
    ensures (exists j | 0 <= j <= |es| :: EndedEarly(Run(sender, capacity, es[..j])))
       <==> (exists k | 0 <= k < |es| :: StopsAt(sender, capacity, es, k))
  {
    hide Step, EndedEarly, StopsAtGap, Enabled, Legal;
    if j :| 0 <= j <= |es| && EndedEarly(Run(sender, capacity, es[..j])) {
      LegalPrefix(sender, capacity, es, j);
      var k := EarlyEndHasCause(sender, capacity, es[..j]);
      assert es[..j][..k] == es[..k];
      assert StopsAt(sender, capacity, es, k);
    }
    if k :| 0 <= k < |es| && StopsAt(sender, capacity, es, k) {
      LegalPrefix(sender, capacity, es, k);
      RunSafe(sender, capacity, es[..k]);
      EndsEarlyExactly(Run(sender, capacity, es[..k]), es[k].f);
      assert EndedEarly(Run(sender, capacity, es[..k + 1]));
    }
  }

  /** As `Genuine`, with nothing asked of the receiver when it acknowledges, and no delivery that stops at a gap. */
  predicate Gapless(n: Network, e: Event)
  {
    (Genuine(n, e) || e.EmitAck?) && (e.Deliver? ==> n.r.asm.out.ended || !StopsAtGap(n, e.f))
  }

  predicate LegalGapless(sender: S.Config, capacity: Capacity, es: seq<Event>)
  {
    es == [] ||
    (LegalGapless(sender, capacity, es[..|es| - 1]) && Gapless(Run(sender, capacity, es[..|es| - 1]), es[|es| - 1]))
  }

  /** When no delivery stops at a gap, the receiver never ends early and all its acknowledgments are true. */
  lemma {:induction false} GaplessGenuine(sender: S.Config, capacity: Capacity, es: seq<Event>)
    requires LegalGapless(sender, capacity, es)
    ensures LegalGenuine(sender, capacity, es) && !EndedEarly(Run(sender, capacity, es))
  {
    hide Step, StopsAtGap, AckSafe, Enabled;
    if es == [] {
      NewNotEnded(sender, capacity);
    } else {
      var init, e := es[..|es| - 1], es[|es| - 1];
      var n := Run(sender, capacity, init);
      GaplessGenuine(sender, capacity, init);
      RunAckSafe(sender, capacity, init);
      assert Genuine(n, e);
      GenuineEnabled(n, e);
      RunSafe(sender, capacity, init);
      if EndedEarly(Step(n, e)) {
        OnlyStopsEndEarly(n, e);
      }
    }
  }

  /** Acknowledgment safety without any condition on the acknowledgments. */
  lemma GaplessAckSafety(sender: S.Config, capacity: Capacity, es: seq<Event>)
    requires LegalGapless(sender, capacity, es)
    ensures var n := Run(sender, capacity, es);
            && n.s.nextAckno <= Arrived(n) && (n.r.haveSyn ==> R.AbsoluteAckno(n.r) <= Arrived(n))
            && AllDelivered(n)
            && n.r.asm.out.written <= n.s.stream.written
            && (n.r.asm.out.ended ==> n.s.stream.ended && n.r.asm.out.written == n.s.stream.written)
  {
    hide Step, AllDelivered, LegalGenuine, LegalGapless, Safe;
    var n := Run(sender, capacity, es);
    GaplessGenuine(sender, capacity, es);
    AckSafety(sender, capacity, es);
    RunAckSafe(sender, capacity, es);
    RunSafe(sender, capacity, es);
    if n.r.haveSyn {
      AckTruthful(n);
    }
  }

  lemma RunSnoc(sender: S.Config, capacity: Capacity, es: seq<Event>, e: Event)
    ensures Run(sender, capacity, es + [e]) == Step(Run(sender, capacity, es), e)
    ensures Legal(sender, capacity, es + [e]) <==> Legal(sender, capacity, es) && Enabled(Run(sender, capacity, es), e)
  {
    hide Step, Enabled;
    assert (es + [e])[..|es|] == es;
  }

  const SYN := S.SYN
  const DATA := S.Flight(1, false, [7], false)
  const FIN := S.Flight(2, false, [], true)

  /** A sender with initial sequence number 0 whose stream holds the byte 7. */
  function Example(read: nat, ended: bool, nextSeqno: nat, nextAckno: nat, firsts: seq<S.Flight>, retired: nat,
                   queue: seq<S.Flight>, window: U16): S.Sender
    requires read <= 1
  {
    S.Sender(0, StreamState(10, [7], read, ended, false), nextSeqno, nextAckno, firsts, retired, queue, 0, 1000, 1000,
             window, window, 0)
  }

  lemma ExampleSyn()
    ensures S.FillWindow(Example(0, false, 0, 0, [], 0, [], 1)) == Example(0, false, 1, 0, [SYN], 0, [SYN], 1)
  {
  }

  lemma ExampleAck()
    ensures S.AckReceived(Example(0, false, 1, 0, [SYN], 0, [], 1), 1, 10) == Example(0, false, 1, 1, [SYN], 1, [], 10)
  {
    var s := Example(0, false, 1, 0, [SYN], 0, [], 1);
    RoundTrip(1, 0, 0);
    assert S.AbsoluteAck(s, 1) == 1;
    assert S.FindEnd([SYN], 0, 1) == Some(0);
  }

  lemma ExampleData()
    ensures S.FillWindow(Example(0, false, 1, 1, [SYN], 1, [], 10))
              == Example(1, false, 2, 1, [SYN, DATA], 1, [DATA], 10)
  {
    var s, t := Example(0, false, 1, 1, [SYN], 1, [], 10), Example(1, false, 2, 1, [SYN, DATA], 1, [DATA], 10);
    assert S.NextFlight(s) == DATA;
    assert S.FillStep(s) == t;
    assert !S.MayFill(t);
    assert S.FillLoop(s) == S.FillLoop(t) == t;
  }

  lemma ExampleFin()
    ensures S.FillWindow(Example(1, true, 2, 1, [SYN, DATA], 1, [DATA], 10))
         == Example(1, true, 3, 1, [SYN, DATA, FIN], 1, [DATA, FIN], 10)
  {
    var s := Example(1, true, 2, 1, [SYN, DATA], 1, [DATA], 10);
    var t := Example(1, true, 3, 1, [SYN, DATA, FIN], 1, [DATA, FIN], 10);
    assert S.NextFlight(s) == FIN;
    assert S.FillStep(s) == t;
    assert !S.MayFill(t);
    assert S.FillLoop(s) == S.FillLoop(t) == t;
  }

  lemma ExampleReceive(r: R.Receiver, f: S.Flight)
    requires r.asm == EmptyAssembly(10) && r.icn == 0 && !r.haveFin && f.payload == [] && f.start < 10
    requires if r.haveSyn then !f.syn && f.fin && f.start == 2 else f == SYN
    ensures var r' := R.Received(r, S.Concrete(0, f));
            && r'.haveSyn && r'.icn == 0 && r'.haveFin == f.fin && r'.asm.out == r.asm.out.(ended := f.fin)
            && (!f.fin ==> r'.asm == EmptyAssembly(10))
  {
    RoundTrip(1, 0, 0);
    RoundTrip(2, 0, 0);
    var index := R.StreamIndex(r, S.Concrete(0, f).header);
    assert index == if r.haveSyn then 1 else 0;
    NothingNew(r.asm, [], index);
  }

  /** The network of the example, with the receiver's capacity 10. */
  function ExampleNetwork(es: seq<Event>): Network { Run(S.Config(10, 0, 1000), 10, es) }

  predicate ExampleLegal(es: seq<Event>) { Legal(S.Config(10, 0, 1000), 10, es) }

  lemma ExampleStart()
    ensures var es := [Send(S.Write([7])), Send(S.Fill), Transmit];
            && ExampleLegal(es)
            && ExampleNetwork(es) == Network(Example(0, false, 1, 0, [SYN], 0, [], 1), R.NewReceiver(10), {SYN}, {})
  {
    var c := S.Config(10, 0, 1000);
    var e1, e2, e3 := Send(S.Write([7])), Send(S.Fill), Transmit;
    RunSnoc(c, 10, [], e1);
    RunSnoc(c, 10, [e1], e2);
    RunSnoc(c, 10, [e1, e2], e3);
    assert [] + [e1] == [e1] && [e1] + [e2] == [e1, e2] && [e1, e2] + [e3] == [e1, e2, e3];
    assert [] + [7][..1] == [7];
    assert Run(c, 10, [e1]).s == Example(0, false, 0, 0, [], 0, [], 1);
    ExampleSyn();
    assert Run(c, 10, [e1, e2]).s == Example(0, false, 1, 0, [SYN], 0, [SYN], 1);
    assert (set f | f in [SYN]) == {SYN};
  }

  lemma ExampleSynArrives(es: seq<Event>)
    requires ExampleLegal(es)
    requires ExampleNetwork(es) == Network(Example(0, false, 1, 0, [SYN], 0, [], 1), R.NewReceiver(10), {SYN}, {})
    ensures var es' := es + [Deliver(SYN)] + [EmitAck];
            && ExampleLegal(es')
            && ExampleNetwork(es') == Network(Example(0, false, 1, 0, [SYN], 0, [], 1),
                                              R.Receiver(EmptyAssembly(10), true, false, 0), {SYN}, {Ack(1, 1, 10)})
  {
    hide Step, R.Received;
    var c := S.Config(10, 0, 1000);
    RunSnoc(c, 10, es, Deliver(SYN));
    DeliverStep(Run(c, 10, es), SYN);
    ExampleReceive(R.NewReceiver(10), SYN);
    RunSnoc(c, 10, es + [Deliver(SYN)], EmitAck);
    ExampleEmits(Run(c, 10, es + [Deliver(SYN)]));
  }

  lemma ExampleEmits(n: Network)
    requires n.r == R.Receiver(EmptyAssembly(10), true, false, 0) && n.acks == {}
    ensures Step(n, EmitAck) == n.(acks := {Ack(1, 1, 10)})
  {
  }

  lemma ExampleHandshake(es: seq<Event>)
    requires ExampleLegal(es)
    requires ExampleNetwork(es) == Network(Example(0, false, 1, 0, [SYN], 0, [], 1), R.NewReceiver(10), {SYN}, {})
    ensures var es' := es + [Deliver(SYN)] + [EmitAck] + [DeliverAck(Ack(1, 1, 10))];
            && ExampleLegal(es')
            && ExampleNetwork(es') == Network(Example(0, false, 1, 1, [SYN], 1, [], 10),
                                              R.Receiver(EmptyAssembly(10), true, false, 0), {SYN}, {Ack(1, 1, 10)})
  {
    hide S.AckReceived;
    ExampleSynArrives(es);
    RunSnoc(S.Config(10, 0, 1000), 10, es + [Deliver(SYN)] + [EmitAck], DeliverAck(Ack(1, 1, 10)));
    ExampleAck();
  }

  lemma ExampleSending(es: seq<Event>)
    requires ExampleLegal(es)
    requires ExampleNetwork(es) == Network(Example(0, false, 1, 1, [SYN], 1, [], 10),
                                           R.Receiver(EmptyAssembly(10), true, false, 0), {SYN}, {Ack(1, 1, 10)})
    ensures var es' := es + [Send(S.Fill)] + [Send(S.EndInput)] + [Send(S.Fill)] + [Transmit];
            && ExampleLegal(es')
            && ExampleNetwork(es') == Network(Example(1, true, 3, 1, [SYN, DATA, FIN], 1, [], 10),
                                              R.Receiver(EmptyAssembly(10), true, false, 0), {SYN, DATA, FIN},
                                                  {Ack(1, 1, 10)})
  {
    hide S.FillWindow;
    var c := S.Config(10, 0, 1000);
    var es1 := es + [Send(S.Fill)];
    var es2 := es1 + [Send(S.EndInput)];
    var es3 := es2 + [Send(S.Fill)];
    RunSnoc(c, 10, es, Send(S.Fill));
    ExampleData();
    assert Run(c, 10, es1).s == Example(1, false, 2, 1, [SYN, DATA], 1, [DATA], 10);
    RunSnoc(c, 10, es1, Send(S.EndInput));
    assert Run(c, 10, es2).s == Example(1, true, 2, 1, [SYN, DATA], 1, [DATA], 10);
    RunSnoc(c, 10, es2, Send(S.Fill));
    ExampleFin();
    RunSnoc(c, 10, es3, Transmit);
    assert (set f | f in [DATA, FIN]) == {DATA, FIN};
  }

  lemma ExampleRetire()
    ensures S.AckReceived(Example(1, true, 3, 1, [SYN, DATA, FIN], 1, [], 10), 2, 10).retired == 2
  {
    var s := Example(1, true, 3, 1, [SYN, DATA, FIN], 1, [], 10);
    RoundTrip(2, 0, 1);
    assert S.AbsoluteAck(s, 2) == 2;
    assert [SYN, DATA, FIN][..2] == [SYN, DATA];
    assert S.FindEnd([SYN, DATA, FIN], 1, 2) == S.FindEnd([SYN, DATA], 1, 2) == Some(1);
  }

  /** The network of the example just before the FIN is delivered. */
  function ExampleSent(): Network
  {
    Network(Example(1, true, 3, 1, [SYN, DATA, FIN], 1, [], 10), R.Receiver(EmptyAssembly(10), true, false, 0),
            {SYN, DATA, FIN}, {Ack(1, 1, 10)})
  }

  lemma ExampleReached() returns (es: seq<Event>)
    ensures ExampleLegal(es) && ExampleNetwork(es) == ExampleSent()
  {
    hide ExampleLegal, ExampleNetwork;
    ExampleStart();
    es := [Send(S.Write([7])), Send(S.Fill), Transmit];
    ExampleHandshake(es);
    es := es + [Deliver(SYN)] + [EmitAck] + [DeliverAck(Ack(1, 1, 10))];
    ExampleSending(es);
    es := es + [Send(S.Fill)] + [Send(S.EndInput)] + [Send(S.Fill)] + [Transmit];
  }

  lemma ExampleEnds()
    ensures Enabled(ExampleSent(), Deliver(FIN))
    ensures var n := Step(ExampleSent(), Deliver(FIN));
            && EndedEarly(n) && n.r.asm.out == EmptyStream(10).(ended := true) && n.r.haveSyn
            && n.s == ExampleSent().s && n.wire == ExampleSent().wire && R.Ackno(n.r) == Some(2)
  {
    hide R.Received;
    ExampleReceive(R.Receiver(EmptyAssembly(10), true, false, 0), FIN);
  }

  /** It does happen: the FIN overtakes the only byte, the receiver ends its output with nothing in it and acknowledges
      the byte, and the sender stops tracking it, so only a copy still on the wire can bring it. */
  lemma FinOvertakesData() returns (es: seq<Event>)
    ensures ExampleLegal(es)
    ensures var n := ExampleNetwork(es);
            && EndedEarly(n) && n.r.asm.out.written == [] && n.s.stream.written == [7]
            && R.Ackno(n.r) == Some(2)
            && S.AckReceived(n.s, 2, 10).retired == 2 && n.s.firsts == [SYN, DATA, FIN]
            && n == Step(ExampleSent(), Deliver(FIN)) && Enabled(n, Deliver(DATA))
  {
    hide Step, S.AckReceived, EndedEarly;
    es := ExampleReached();
    ExampleEnds();
    ExampleRetire();
    RunSnoc(S.Config(10, 0, 1000), 10, es, Deliver(FIN));
    es := es + [Deliver(FIN)];
  }

  /** When such a copy does arrive, it is written to the output that has already been ended. */
  lemma LateByteWritten() returns (es: seq<Event>)
    ensures ExampleLegal(es + [Deliver(DATA)])
    ensures var n, n' := ExampleNetwork(es), ExampleNetwork(es + [Deliver(DATA)]);
            n.r.asm.out.ended && n.r.asm.out.written == [] && n'.r.asm.out.written == [7]
  {
    hide Step, S.AckReceived, Safe, R.Received, R.KnownAfter;
    var c := S.Config(10, 0, 1000);
    es := FinOvertakesData();
    ExampleEnds();
    var n := ExampleNetwork(es);
    RunSnoc(c, 10, es, Deliver(DATA));
    var n' := ExampleNetwork(es + [Deliver(DATA)]);
    RunSafe(c, 10, es);
    LateByteKnown(n);
    R.EndedStillGrows(n.r, S.Concrete(n.s.isn, DATA));
    PrefixSafety(c, 10, es + [Deliver(DATA)]);
    DeliverStep(n, DATA);
    assert n'.r.asm.out.written <= [7] && n'.r.asm.out.written != [];
  }

  lemma DeliverStep(n: Network, f: S.Flight)
    ensures Step(n, Deliver(f)) == n.(r := R.Received(n.r, S.Concrete(n.s.isn, f)))
  {
  }

  lemma LateByteKnown(n: Network)
    requires Safe(n) && n.s.isn == 0 && DATA in n.s.firsts && Enabled(n, Deliver(DATA)) && n.r.haveSyn
    requires n.r.asm.out.written == [] && n.r.asm.out.capacity == 10
    ensures R.ReceiverOk(n.r) && !R.Ignored(n.r, S.Concrete(n.s.isn, DATA).header)
    ensures 0 in R.KnownAfter(n.r, S.Concrete(n.s.isn, DATA))
  {
    hide R.StreamIndex, Merged, I.FlightInv, I.WindowInv, Within;
    FlightIndex(n, DATA);
    MergedAt(n.r.asm, [7], 0, 0);
  }
}
