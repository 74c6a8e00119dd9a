/** The sender ignores an acknowledgment that ends in the middle of a segment.  With genuine acknowledgments there are
    none: the receiver always holds whole segments. */
module WholeSegments {
  import opened Words
  import opened ReassemblerSpec
  import opened Segments
  import opened EndToEnd
  import S = SenderSpec
  import I = SenderInvariant
  import R = ReceiverSpec
  import W = SenderRuns

  // ----- What the receiver holds

  /** `i` is the stream index of a byte of `f`. */
  predicate ByteOf(f: S.Flight, i: nat) { f.start <= i + 1 < f.start + |f.payload| }

  ghost predicate AllIn(h: ByteMap, f: S.Flight) { forall i: nat | ByteOf(f, i) :: i in h }

  ghost predicate NoneIn(h: ByteMap, f: S.Flight) { forall i: nat | ByteOf(f, i) :: i !in h }

  /** All of `f` is held, its FIN included, or no byte of it is. */
  ghost predicate WholeIn(h: ByteMap, haveFin: bool, f: S.Flight)
  {
    (AllIn(h, f) && (f.fin && f.payload != [] ==> haveFin)) || NoneIn(h, f)
  }

  /** The receiver has room for all of the payload, or there is only one number to accept or refuse. */
  predicate Fits(n: Network, f: S.Flight)
  {
    f.start + |f.payload| <= WindowEnd(n.r.asm) + 1 || S.Len(f) == 1
  }

  /** The right edge of what the receiver has offered; before that the SYN alone may be sent. */
  function Edge(n: Network): nat { if n.r.haveSyn then R.RightEdge(n.r) else 1 }

  /** A segment ends at `x`. */
  predicate Boundary(s: S.Sender, x: nat) { exists k | 0 <= k < |s.firsts| :: S.End(s.firsts[k]) == x }

  ghost predicate Whole(n: Network)
  {
    && (forall f | f in n.s.firsts :: WholeIn(Held(n.r.asm), n.r.haveFin, f) && Fits(n, f))
    && (n.r.asm.haveEof && Next(n.r.asm) >= n.r.asm.eofIndex ==> n.r.asm.out.ended)
    && W.WithinOffer(n.s, Edge(n))
    && (forall a | a in n.acks :: a.absolute + a.win <= Edge(n) && Boundary(n.s, a.absolute))
  }

  // ----- Segments do not overlap

  lemma Apart(s: S.Sender, f: S.Flight, g: S.Flight, i: nat)
    requires I.FlightInv(s) && f in s.firsts && g in s.firsts && f != g && ByteOf(f, i)
    ensures !ByteOf(g, i)
  {
    hide I.Tiled, I.Total, I.FlightsOk, I.Accounted;
    var j :| 0 <= j < |s.firsts| && s.firsts[j] == f;
    var k :| 0 <= k < |s.firsts| && s.firsts[k] == g;
    I.TiledAt(s.firsts, j);
    I.TiledAt(s.firsts, k);
    if j < k {
      I.TotalGrows(s.firsts, j + 1, k);
    } else {
      I.TotalGrows(s.firsts, k + 1, j);
    }
  }

  /** Every number sent belongs to a segment. */
  lemma {:induction false} Covered(fs: seq<S.Flight>, x: nat) returns (k: nat)
    requires I.Tiled(fs) && x < I.Total(fs)
    ensures k < |fs| && fs[k].start <= x < S.End(fs[k])
  {
    var init := fs[..|fs| - 1];
    if x < I.Total(init) {
      k := Covered(init, x);
    } else {
      k := |fs| - 1;
    }
  }

  // ----- What the receiver acknowledges

  /** The receiver acknowledges the end of a segment. */
  lemma AcksBoundary(n: Network)
    requires Safe(n) && !EndedEarly(n) && Whole(n) && n.r.haveSyn
    ensures Boundary(n.s, R.AbsoluteAckno(n.r))
  {
    hide I.WindowInv, R.ReceiverOk, Within, Held, W.WithinOffer, I.Tiled, I.Total;
    SafePrefix(n);
    if n.r.haveFin && n.r.asm.out.ended {
      LastEnds(n.s);
    } else if Next(n.r.asm) == 0 {
      FirstIsSyn(n.s);
      assert S.End(n.s.firsts[0]) == 1;
    } else {
      var k := RunStops(n);
      FlightSlice(n, n.s.firsts[k]);
    }
  }

  lemma LastEnds(s: S.Sender)
    requires I.FlightInv(s) && s.firsts != []
    ensures S.End(s.firsts[|s.firsts| - 1]) == s.nextSeqno
  {
    I.TiledAt(s.firsts, |s.firsts| - 1);
    assert s.firsts[..|s.firsts|] == s.firsts;
  }

  lemma FirstIsSyn(s: S.Sender)
    requires I.FlightInv(s) && s.firsts != []
    ensures s.firsts[0] == S.SYN
  {
    I.TiledAt(s.firsts, 0);
    assert s.firsts[..0] == [] && I.FlightOk(s.firsts[0], s.stream);
  }

  /** The output stops at the end of a segment's payload. */
  lemma RunStops(n: Network) returns (k: nat)
    requires Safe(n) && Whole(n) && n.r.haveSyn && Next(n.r.asm) > 0
    ensures k < |n.s.firsts| && n.s.firsts[k].start > 0
    ensures n.s.firsts[k].start + |n.s.firsts[k].payload| == Next(n.r.asm) + 1
    ensures n.s.firsts[k].fin ==> n.r.haveFin
  {
    hide I.WindowInv, Within, W.WithinOffer, I.Tiled, I.Total;
    SafePrefix(n);
    var next := Next(n.r.asm);
    k := Covered(n.s.firsts, next);
    var f := n.s.firsts[k];
    FlightSlice(n, f);
    assert ByteOf(f, next - 1);
    assert next - 1 in Held(n.r.asm) && next !in Held(n.r.asm);
    assert AllIn(Held(n.r.asm), f);
    assert !ByteOf(f, next);
  }

  // ----- Delivering a segment

  /** When the believed end is not before anything known, nothing known is dropped. */
  lemma NothingDropped(r: R.Receiver, seg: TcpSegment, end: nat, i: nat)
    requires R.ReceiverOk(r) && !R.Ignored(r, seg.header)
    requires R.Received(r, seg).asm.haveEof ==> R.Received(r, seg).asm.eofIndex == end
    requires i in R.KnownAfter(r, seg) ==> i < end
    ensures i in Held(R.Received(r, seg).asm) <==> i in R.KnownAfter(r, seg)
  {
    hide Push, Merged, Held, R.StreamIndex;
    var index := R.StreamIndex(r, seg.header);
    var b := Push(r.asm, seg.payload, index, seg.header.fin);
    PushExact(r.asm, seg.payload, index, seg.header.fin);
    OutcomeAt(r.asm, seg.payload, index, seg.header.fin, b, i);
    ConcludedHeld(b, r.haveFin || seg.header.fin);
  }

  /** What is known after a delivery: what was held, and the bytes of the segment that lie in the window. */
  lemma KnownAfterDelivery(n: Network, f: S.Flight, i: nat)
    requires Safe(n) && Enabled(n, Deliver(f)) && !R.Ignored(n.r, S.Concrete(n.s.isn, f).header)
    ensures var known := R.KnownAfter(n.r, S.Concrete(n.s.isn, f));
            && (i in known <==> i in Held(n.r.asm) || (ByteOf(f, i) && i < WindowEnd(n.r.asm)))
            && (i in known ==> i < |n.s.stream.written|)
  {
    hide Safe, Merged, Held, R.StreamIndex;
    IndexOfDelivery(n, f);
    HeldWritten(n, i);
    MergedAt(n.r.asm, f.payload, R.StreamIndex(n.r, S.Concrete(n.s.isn, f).header), i);
  }

  /** What a delivered segment carries is found where the sender has it. */
  lemma IndexOfDelivery(n: Network, f: S.Flight)
    requires Safe(n) && Enabled(n, Deliver(f)) && !R.Ignored(n.r, S.Concrete(n.s.isn, f).header)
    ensures f.payload != [] ==>
              && f.start > 0 && R.StreamIndex(n.r, S.Concrete(n.s.isn, f).header) == f.start - 1
              && f.start - 1 + |f.payload| <= |n.s.stream.written|
  {
    hide I.FlightInv, I.WindowInv, R.StreamIndex, R.ReceiverOk, Within;
    WireEmitted(n, f);
    if f in n.s.firsts && f.start > 0 {
      FlightSlice(n, f);
      FlightIndex(n, f);
    } else {
      EmptyFlight(n, f);
    }
  }

  lemma HeldWritten(n: Network, i: nat)
    requires Safe(n)
    ensures StagedAhead(n.r.asm) && (i in Held(n.r.asm) ==> i < |n.s.stream.written|)
  {
    hide I.FlightInv, I.WindowInv, Held;
  }

  /** A delivery adds those bytes, and takes nothing away. */
  lemma HeldAfterDelivery(n: Network, f: S.Flight, i: nat)
    requires Safe(n) && Enabled(n, Deliver(f)) && !R.Ignored(n.r, S.Concrete(n.s.isn, f).header)
    ensures var h, h' := Held(n.r.asm), Held(Step(n, Deliver(f)).r.asm);
            i in h' <==> i in h || (ByteOf(f, i) && i < WindowEnd(n.r.asm))
  {
    hide I.FlightInv, I.WindowInv, Held, R.Received, R.KnownAfter, R.ReceiverOk, Within;
    DeliverSafe(n, f);
    KnownAfterDelivery(n, f, i);
    NothingDropped(n.r, S.Concrete(n.s.isn, f), |n.s.stream.written|, i);
  }

  /** The reassembler's own rule holds after every delivery. */
  lemma EndSettled(n: Network, f: S.Flight)
    requires Safe(n) && Enabled(n, Deliver(f)) && !R.Ignored(n.r, S.Concrete(n.s.isn, f).header)
    ensures var r := Step(n, Deliver(f)).r;
            (r.asm.haveEof && Next(r.asm) >= r.asm.eofIndex ==> r.asm.out.ended) && (n.r.haveFin || f.fin ==> r.haveFin)
  {
    hide I.FlightInv, I.WindowInv, Push, Merged, Held, R.StreamIndex, Within;
    var index := R.StreamIndex(n.r, S.Concrete(n.s.isn, f).header);
    PushExact(n.r.asm, f.payload, index, f.fin);
  }

  lemma DeliverWholeIn(n: Network, f: S.Flight, g: S.Flight)
    requires Safe(n) && Whole(n) && Enabled(n, Deliver(f)) && !R.Ignored(n.r, S.Concrete(n.s.isn, f).header)
    requires g in n.s.firsts
    ensures WholeIn(Held(Step(n, Deliver(f)).r.asm), Step(n, Deliver(f)).r.haveFin, g)
  {
    hide I.FlightInv, I.WindowInv, Held, R.Received, Within, R.ReceiverOk, W.WithinOffer;
    var h, h' := Held(n.r.asm), Held(Step(n, Deliver(f)).r.asm);
    forall i: nat | ByteOf(g, i)
      ensures i in h' <==> i in h || (f == g && i < WindowEnd(n.r.asm))
    {
      HeldAfterDelivery(n, f, i);
      if ByteOf(f, i) && f != g {
        assert f in n.s.firsts by { CarriesBytes(n, f); }
        Apart(n.s, g, f, i);
      }
    }
    EndSettled(n, f);
    assert WholeIn(h, n.r.haveFin, g) && Fits(n, g);
  }

  lemma CarriesBytes(n: Network, f: S.Flight)
    requires Safe(n) && f in n.wire && f.payload != []
    ensures f in n.s.firsts
  {
    assert Emitted(n.s, f);
  }

  lemma ReceivedKeeps(r: R.Receiver, e: R.Event)
    requires R.ReceiverOk(r)
    ensures var r' := R.Step(r, e);
            && WindowEnd(r.asm) <= WindowEnd(r'.asm)
            && (r.haveSyn ==> r'.haveSyn && R.RightEdge(r) <= R.RightEdge(r')) && 1 <= R.RightEdge(r')
  {
    hide R.Received;
    R.StepOk(r, e);
    if e.SegmentIn? {
      R.ReceivedOk(r, e.seg);
    }
  }

  lemma OfferGrows(s: S.Sender, edge: nat, edge': nat)
    requires W.WithinOffer(s, edge) && edge <= edge'
    ensures W.WithinOffer(s, edge')
  {
  }

  lemma DeliverWhole(n: Network, f: S.Flight)
    requires Safe(n) && Whole(n) && Enabled(n, Deliver(f))
    ensures Whole(Step(n, Deliver(f)))
  {
    hide Safe, WholeIn, R.Received, R.RightEdge, W.WithinOffer, Held, Boundary;
    var seg := S.Concrete(n.s.isn, f);
    var n' := Step(n, Deliver(f));
    if R.Ignored(n.r, seg.header) {
      IgnoredSame(n.r, seg);
    } else {
      SafeReceiver(n);
      ReceivedKeeps(n.r, R.SegmentIn(seg));
      EndSettled(n, f);
      OfferGrows(n.s, Edge(n), Edge(n'));
      forall g | g in n.s.firsts
        ensures WholeIn(Held(n'.r.asm), n'.r.haveFin, g)
      {
        DeliverWholeIn(n, f, g);
      }
    }
  }

  lemma SafeReceiver(n: Network)
    requires Safe(n)
    ensures R.ReceiverOk(n.r)
  {
  }

  // ----- The other steps

  lemma ReadWhole(n: Network, len: nat)
    requires Safe(n) && Whole(n)
    ensures Whole(Step(n, Read(len)))
  {
    hide Safe, WholeIn, R.RightEdge, W.WithinOffer, Boundary;
    var n' := Step(n, Read(len));
    SafeReceiver(n);
    ReceivedKeeps(n.r, R.ReadOut(len));
    OfferGrows(n.s, Edge(n), Edge(n'));
    assert Held(n'.r.asm) == Held(n.r.asm);
  }

  /** A step of the sender that only adds segments which are new to the receiver and fit. */
  lemma SenderWhole(n: Network, s: S.Sender)
    requires Whole(n) && n.s.firsts <= s.firsts && W.WithinOffer(s, Edge(n))
    requires forall k | |n.s.firsts| <= k < |s.firsts| :: NoneIn(Held(n.r.asm), s.firsts[k]) && Fits(n, s.firsts[k])
    ensures Whole(n.(s := s))
  {
    hide W.WithinOffer, Held, Edge, Fits, AllIn, NoneIn, S.End;
    var n' := n.(s := s);
    forall f | f in s.firsts
      ensures WholeIn(Held(n'.r.asm), n'.r.haveFin, f) && Fits(n', f)
    {
      var k :| 0 <= k < |s.firsts| && s.firsts[k] == f;
      SameFits(n, n', f);
      if k < |n.s.firsts| {
        assert f in n.s.firsts;
      }
    }
    forall a | a in n.acks
      ensures a.absolute + a.win <= Edge(n') && Boundary(s, a.absolute)
    {
      SameEdge(n, n');
      BoundaryStays(n.s, s, a.absolute);
    }
    SameEdge(n, n');
  }

  lemma SameFits(n: Network, n': Network, f: S.Flight)
    requires n.r == n'.r
    ensures Fits(n, f) <==> Fits(n', f)
  {
  }

  lemma SameEdge(n: Network, n': Network)
    requires n.r == n'.r
    ensures Edge(n) == Edge(n')
  {
  }

  lemma BoundaryStays(s: S.Sender, s': S.Sender, x: nat)
    requires Boundary(s, x) && s.firsts <= s'.firsts
    ensures Boundary(s', x)
  {
    var k :| 0 <= k < |s.firsts| && S.End(s.firsts[k]) == x;
    assert S.End(s'.firsts[k]) == x;
  }

  /** What `fill_window` sends is new to the receiver. */
  lemma FillNew(n: Network, k: nat)
    requires Safe(n) && |n.s.firsts| <= k < |S.FillWindow(n.s).firsts|
    ensures NoneIn(Held(n.r.asm), S.FillWindow(n.s).firsts[k])
  {
    hide S.FillWindow, Held, R.ReceiverOk;
    var s := S.FillWindow(n.s);
    I.FillKeeps(n.s);
    I.TiledAt(s.firsts, k);
    I.TotalGrows(s.firsts, |n.s.firsts|, k);
    assert s.firsts[..|n.s.firsts|] == n.s.firsts;
    assert s.firsts[k].start >= n.s.nextSeqno;
  }

  /** And the receiver has room for it, a probe apart. */
  lemma FillFits(n: Network, k: nat)
    requires Safe(n) && !EndedEarly(n) && W.WithinOffer(n.s, Edge(n))
    requires |n.s.firsts| <= k < |S.FillWindow(n.s).firsts|
    ensures Fits(n, S.FillWindow(n.s).firsts[k])
  {
    hide S.FillWindow, R.ReceiverOk, I.FlightInv, I.WindowInv, Within, W.WithinOffer;
    var s := S.FillWindow(n.s);
    W.FillDisciplined(n.s, Edge(n));
    assert W.Disciplined(s.firsts[k], Edge(n), W.Probing(n.s));
    if n.r.asm.out.ended {
      SendSafe(n, S.Fill);
      FillStreamKept(n.s);
      FlightSlice(n.(s := s), s.firsts[k]);
    }
  }

  lemma FillStreamKept(s: S.Sender)
    ensures S.FillWindow(s).stream.written == s.stream.written && S.Step(s, S.Fill) == S.FillWindow(s)
  {
    hide S.FillLoop;
    S.FillLoopFrame(s);
  }

  lemma SendWhole(n: Network, e: S.Event)
    requires Safe(n) && !EndedEarly(n) && Whole(n) && !e.Ack?
    ensures Whole(n.(s := S.Step(n.s, e)))
  {
    hide Safe, EndedEarly, Edge, Fits, WholeIn, NoneIn, S.Step;
    var s := S.Step(n.s, e);
    SafeSender(n);
    W.StepWithinOffer(n.s, e, Edge(n));
    if e.Fill? {
      FillStreamKept(n.s);
      I.FillKeeps(n.s);
      forall k | |n.s.firsts| <= k < |s.firsts|
        ensures NoneIn(Held(n.r.asm), s.firsts[k]) && Fits(n, s.firsts[k])
      {
        FillNew(n, k);
        FillFits(n, k);
      }
    } else {
      W.OnlyFillSends(n.s, e);
    }
    SenderWhole(n, s);
  }

  lemma SafeSender(n: Network)
    requires Safe(n)
    ensures I.FlightInv(n.s) && I.WindowInv(n.s)
  {
  }

  lemma AckWhole(n: Network, a: Ack)
    requires AckSafe(n) && Whole(n) && Genuine(n, DeliverAck(a))
    ensures Whole(Step(n, DeliverAck(a)))
  {
    hide Safe, Edge, Fits, WholeIn, NoneIn, S.AckReceived, Boundary, W.WithinOffer;
    SafeSender(n);
    GenuineAck(n, a);
    W.AckWithinOffer(n.s, a.ackno, a.win, Edge(n));
    AckSends(n.s, a.ackno, a.win);
    SenderWhole(n, S.AckReceived(n.s, a.ackno, a.win));
  }

  lemma AckSends(s: S.Sender, ackno: U32, win: U16)
    ensures S.AckReceived(s, ackno, win).firsts == s.firsts
  {
  }

  lemma EmitWhole(n: Network)
    requires Safe(n) && !EndedEarly(n) && Whole(n)
    ensures Whole(Step(n, EmitAck))
  {
    hide Safe, WholeIn, W.WithinOffer, Held;
    if n.r.haveSyn {
      AcksBoundary(n);
    }
  }

  lemma StepWhole(n: Network, e: Event)
    requires AckSafe(n) && !EndedEarly(n) && Whole(n) && Gapless(n, e)
    ensures Whole(Step(n, e))
  {
    hide Whole, Safe, EndedEarly, StopsAtGap;
    match e
    case Send(e') => SendWhole(n, e');
    case Transmit => TransmitWhole(n);
    case Deliver(f) =>
      GenuineEnabled(n, e);
      DeliverWhole(n, f);
    case Read(len) => ReadWhole(n, len);
    case EmitAck => EmitWhole(n);
    case DeliverAck(a) => AckWhole(n, a);
  }

  lemma TransmitWhole(n: Network)
    requires Safe(n) && !EndedEarly(n) && Whole(n)
    ensures Whole(Step(n, Transmit))
  {
    hide Safe, WholeIn, W.WithinOffer, Held, Boundary, Edge, S.Step;
    SendWhole(n, S.Drain);
    SameEdge(n.(s := S.Step(n.s, S.Drain)), Step(n, Transmit));
  }

  // ----- Every run

  lemma {:induction false} RunWhole(sender: S.Config, capacity: Capacity, es: seq<Event>)
    requires LegalGapless(sender, capacity, es)
    ensures Whole(EndToEnd.Run(sender, capacity, es))
  {
    hide Whole, Step, Gapless, AckSafe, EndedEarly;
    if es == [] {
      NewWhole(sender, capacity);
    } else {
      var init := es[..|es| - 1];
      RunWhole(sender, capacity, init);
      GaplessGenuine(sender, capacity, init);
      RunAckSafe(sender, capacity, init);
      StepWhole(EndToEnd.Run(sender, capacity, init), es[|es| - 1]);
    }
  }

  lemma NewWhole(sender: S.Config, capacity: Capacity)
    ensures Whole(NewNetwork(sender, capacity))
  {
  }

  /** In every run with genuine acknowledgments and no stop at a gap, each acknowledgment ends at the end of a segment;
      so one that is new to the sender, however late it arrives, always retires everything up to it. */
  lemma NoPartialAcks(sender: S.Config, capacity: Capacity, es: seq<Event>, a: Ack)
    requires LegalGapless(sender, capacity, es) && a in EndToEnd.Run(sender, capacity, es).acks
    ensures var n := EndToEnd.Run(sender, capacity, es);
            && Boundary(n.s, a.absolute)
            && (Genuine(n, DeliverAck(a)) && a.absolute > n.s.nextAckno ==>
                  var s := S.AckReceived(n.s, a.ackno, a.win);
                  s.nextAckno == a.absolute && s.retired > n.s.retired)
  {
    hide Step, LegalGapless, Safe, W.WithinOffer, S.AckReceived, WholeIn, EndToEnd.Run;
    var n := EndToEnd.Run(sender, capacity, es);
    RunWhole(sender, capacity, es);
    if Genuine(n, DeliverAck(a)) && a.absolute > n.s.nextAckno {
      GaplessGenuine(sender, capacity, es);
      RunAckSafe(sender, capacity, es);
      GenuineAck(n, a);
      SafeSender(n);
      BoundaryRetires(n.s, a.ackno, a.win);
    }
  }

  lemma BoundaryRetires(s: S.Sender, ackno: U32, win: U16)
    requires I.FlightInv(s) && Boundary(s, S.AbsoluteAck(s, ackno)) && S.AbsoluteAck(s, ackno) > s.nextAckno
    ensures var s' := S.AckReceived(s, ackno, win); s'.nextAckno == S.AbsoluteAck(s, ackno) && s'.retired > s.retired
  {
    hide S.AbsoluteAck, I.Tiled, I.Total;
    var a := S.AbsoluteAck(s, ackno);
    var k :| 0 <= k < |s.firsts| && S.End(s.firsts[k]) == a;
    I.TiledAt(s.firsts, k);
    if k < s.retired {
      I.TotalGrows(s.firsts, k + 1, s.retired);
    }
  }
}
