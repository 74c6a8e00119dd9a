/** Where the receiver puts what it is given, said on absolute numbers. */
module ReceiverLaws {
  import opened Words
  import opened Wrapping
  import opened ByteStreams
  import opened ReassemblerSpec
  import opened Segments
  import opened ReceiverSpec

  // ----- The first segment

  /** A SYN may carry data, which starts at index 0: as much of it as fits is put out at once and acknowledged together
      with the SYN, and with the FIN if there is one, even when not everything did fit. */
  lemma SynCarriesData(capacity: Capacity, seg: TcpSegment)
    requires seg.header.syn
    ensures var r := Received(NewReceiver(capacity), seg);
            && r.asm.out.written == seg.payload[..Min(|seg.payload|, capacity)] && r.asm.staged == map[]
            && r.haveSyn && r.icn == seg.header.seqno
            && AbsoluteAckno(r) == |r.asm.out.written| + (if seg.header.fin then 2 else 1)
  {
    hide Unwrap, Push, Merged, Held;
    var a, n := EmptyAssembly(capacity), Min(|seg.payload|, capacity);
    RoundTrip(1, seg.header.seqno, 0);
    assert StreamIndex(NewReceiver(capacity), seg.header) == 0;
    PushExact(a, seg.payload, 0, seg.header.fin);
    var known := Merged(a, seg.payload, 0);
    forall i: nat
      ensures i in known <==> i < n
      ensures i < n ==> known[i] == seg.payload[i]
    {
      MergedAt(a, seg.payload, 0, i);
      NothingHeld(capacity, i);
    }
    RunEndUnique(known, 0, n);
    assert Slice(known, 0, n) == seg.payload[..n];
    assert Without(known, 0, n) == map[];
  }

  lemma NothingHeld(capacity: Capacity, i: nat)
    ensures i !in Held(EmptyAssembly(capacity))
  {
  }

  /** What comes before a SYN, and a second SYN, is ignored. */
  lemma OneSynOnly(r: Receiver, seg: TcpSegment)
    requires r.haveSyn == seg.header.syn
    ensures Received(r, seg) == r
  {
  }

  // ----- Every later segment

  /** `v` is the absolute number of the segment's first byte, and not 2^31 or more away from the receiver's count. */
  predicate StartsAt(r: Receiver, seg: TcpSegment, v: nat)
  {
    && 1 <= v < TWO64 && Next(r.asm) < TWO64 && Distance(v, Next(r.asm)) < TWO31
    && seg.header.seqno == Wrap(v, r.icn)
  }

  /** A later segment goes to its real place, with the SYN not counted; a FIN sits right behind it. */
  lemma GoesToItsPlace(r: Receiver, seg: TcpSegment, v: nat)
    requires ReceiverOk(r) && r.haveSyn && !seg.header.syn && StartsAt(r, seg, v)
    ensures var r', b := Received(r, seg), Push(r.asm, seg.payload, v - 1, seg.header.fin);
            && PushOutcome(r.asm, seg.payload, v - 1, seg.header.fin, b)
            && KnownAfter(r, seg) == Merged(r.asm, seg.payload, v - 1)
            && r'.haveSyn && r'.icn == r.icn && r'.haveFin == (r.haveFin || seg.header.fin)
            && r'.asm == b.(out := r'.asm.out)
            && r'.asm.out == b.out.(ended := b.out.ended || (r'.haveFin && b.staged == map[]))
  {
    hide Unwrap, Wrap, Push, Merged;
    RoundTrip(v, r.icn, Next(r.asm));
    PushExact(r.asm, seg.payload, v - 1, seg.header.fin);
  }

  /** A segment that continues the output and fits is put out at once, and acknowledged. */
  lemma InOrder(r: Receiver, seg: TcpSegment)
    requires ReceiverOk(r) && r.haveSyn && !r.haveFin && !r.asm.haveEof && !seg.header.syn && !seg.header.fin
    requires r.asm.staged == map[] && |seg.payload| <= Free(r.asm.out) && Next(r.asm) + 1 < TWO64
    requires seg.header.seqno == Wrap(Next(r.asm) + 1, r.icn)
    ensures Received(r, seg).asm.out.written == r.asm.out.written + seg.payload
    ensures AbsoluteAckno(Received(r, seg)) == AbsoluteAckno(r) + |seg.payload|
  {
    hide Push, Merged, Held, Received;
    var next, end := Next(r.asm), Next(r.asm) + |seg.payload|;
    GoesToItsPlace(r, seg, next + 1);
    var known := Merged(r.asm, seg.payload, next);
    forall i: nat
      ensures i in known <==> i < end
      ensures i < end ==> known[i] == (r.asm.out.written + seg.payload)[i]
    {
      MergedAt(r.asm, seg.payload, next, i);
      OnlyWritten(r.asm, i);
    }
    RunEndUnique(known, 0, end);
    assert Slice(known, 0, end) == r.asm.out.written + seg.payload;
  }

  lemma OnlyWritten(a: Assembly, i: nat)
    requires a.staged == map[]
    ensures i in Held(a) <==> i < Next(a)
    ensures i < Next(a) ==> Held(a)[i] == a.out.written[i]
  {
  }

  // ----- What it says about itself

  /** The window reaches exactly as far as the capacity allows beyond what has been read. */
  lemma EdgeIsCapacity(r: Receiver)
    ensures RightEdge(r) == r.asm.out.read + r.asm.out.capacity + (if r.haveFin && r.asm.out.ended then 2 else 1)
  {
  }

  /** A SYN is among the segments received. */
  predicate SawSyn(es: seq<Event>) { exists k | 0 <= k < |es| :: es[k].SegmentIn? && es[k].seg.header.syn }

  /** Over every run: the receiver is synchronized exactly when a SYN has been received. */
  lemma {:induction false} Synchronized(capacity: Capacity, es: seq<Event>)
    ensures ReceiverSpec.Run(capacity, es).haveSyn <==> SawSyn(es)
  {
    hide Received;
    if es != [] {
      var init, e := es[..|es| - 1], es[|es| - 1];
      Synchronized(capacity, init);
      SawSynLast(es);
      if e.SegmentIn? {
        ReceivedSyn(ReceiverSpec.Run(capacity, init), e.seg);
      }
    }
  }

  lemma ReceivedSyn(r: Receiver, seg: TcpSegment)
    ensures Received(r, seg).haveSyn <==> r.haveSyn || seg.header.syn
  {
    hide Push, StreamIndex;
  }

  lemma SawSynLast(es: seq<Event>)
    requires es != []
    ensures var init, e := es[..|es| - 1], es[|es| - 1];
            SawSyn(es) <==> SawSyn(init) || (e.SegmentIn? && e.seg.header.syn)
  {
    var init := es[..|es| - 1];
    if SawSyn(init) {
      var k :| 0 <= k < |init| && init[k].SegmentIn? && init[k].seg.header.syn;
      assert es[k] == init[k];
    }
    if SawSyn(es) {
      var k :| 0 <= k < |es| && es[k].SegmentIn? && es[k].seg.header.syn;
      if k < |init| {
        assert init[k] == es[k];
      }
    }
  }
}
