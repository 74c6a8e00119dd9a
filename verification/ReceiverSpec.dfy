/** The TCP receiver as a state machine over arbitrary segments and reads. */
module ReceiverSpec {
  import opened Words
  import opened Wrapping
  import opened ByteStreams
  import opened ReassemblerSpec
  import opened Segments

  datatype Receiver = Receiver(asm: Assembly, haveSyn: bool, haveFin: bool, icn: Seqno)

  function NewReceiver(capacity: Capacity): Receiver { Receiver(EmptyAssembly(capacity), false, false, 0) }

  /** A segment is ignored before the SYN, and a second SYN is ignored altogether. */
  predicate Ignored(r: Receiver, header: TcpHeader) { r.haveSyn == header.syn }

  /** The stream index a segment's first payload byte is taken to have.  The subtraction is in 64 bits: a segment
      without SYN at the initial sequence number itself is taken to start at 2^64 - 1. */
  function StreamIndex(r: Receiver, header: TcpHeader): U64
  {
    var icn := if r.haveSyn then r.icn else header.seqno;
    var seqno := if r.haveSyn then header.seqno else Wrap(1, icn);
    Sub64(Unwrap(seqno, icn, Low64(Next(r.asm))), 1)
  }

  function Received(r: Receiver, seg: TcpSegment): Receiver
  {
    if Ignored(r, seg.header) then r
    else
      var icn := if r.haveSyn then r.icn else seg.header.seqno;
      var haveFin := r.haveFin || seg.header.fin;
      var asm := Push(r.asm, seg.payload, StreamIndex(r, seg.header), seg.header.fin);
      Receiver(Concluded(asm, haveFin), true, haveFin, icn)
  }

  /** Once a FIN has been seen the stream is ended as soon as nothing is staged. */
  function Concluded(asm: Assembly, haveFin: bool): Assembly
  {
    if haveFin && asm.staged == map[] then asm.(out := asm.out.(ended := true)) else asm
  }

  function Errored(r: Receiver): Receiver { r.(asm := r.asm.(out := r.asm.out.(error := true))) }

  /** The first sequence number not yet received, as an absolute number. */
  function AbsoluteAckno(r: Receiver): nat
  {
    Next(r.asm) + (if r.haveFin && r.asm.out.ended then 2 else 1)
  }

  function Ackno(r: Receiver): Option<Seqno>
  {
    if r.haveSyn then Some(Wrap(AbsoluteAckno(r), r.icn)) else None
  }

  function WindowSize(r: Receiver): nat { r.asm.out.capacity - Buffered(r.asm.out) }

  /** First absolute sequence number beyond the advertised window. */
  function RightEdge(r: Receiver): nat { AbsoluteAckno(r) + WindowSize(r) }

  predicate ReceiverOk(r: Receiver)
  {
    && StagedAhead(r.asm)
    && (!r.haveSyn ==>
          !r.haveFin && r.asm.out.written == [] && !r.asm.out.ended && r.asm.staged == map[] && !r.asm.haveEof)
  }

  lemma ReceivedOk(r: Receiver, seg: TcpSegment)
    requires ReceiverOk(r)
    ensures var r' := Received(r, seg);
            && ReceiverOk(r') && (r.haveSyn ==> r'.haveSyn)
            && r.asm.out.written <= r'.asm.out.written && (r.asm.out.ended ==> r'.asm.out.ended)
            && r'.asm.out == r.asm.out.(written := r'.asm.out.written, ended := r'.asm.out.ended)
  {
    hide Push, StreamIndex;
    if !Ignored(r, seg.header) {
      PushKeeps(r.asm, seg.payload, StreamIndex(r, seg.header), seg.header.fin);
    }
  }

  // ----- Every run of segments and reads

  datatype Event = SegmentIn(seg: TcpSegment) | ReadOut(len: nat)

  function Step(r: Receiver, e: Event): Receiver
  {
    match e
    case SegmentIn(seg) => Received(r, seg)
    case ReadOut(len) => r.(asm := r.asm.(out := Popped(r.asm.out, len)))
  }

  function Run(capacity: Capacity, es: seq<Event>): Receiver
  {
    if es == [] then NewReceiver(capacity) else Step(Run(capacity, es[..|es| - 1]), es[|es| - 1])
  }

  /** No step moves the right edge of the window to the left. */
  lemma StepOk(r: Receiver, e: Event)
    requires ReceiverOk(r)
    ensures ReceiverOk(Step(r, e)) && Step(r, e).asm.out.capacity == r.asm.out.capacity
    ensures r.haveSyn ==> Step(r, e).haveSyn && RightEdge(r) <= RightEdge(Step(r, e))
  {
    hide Received;
    if e.SegmentIn? {
      ReceivedOk(r, e.seg);
      ReceivedFin(r, e.seg);
    }
  }

  lemma ReceivedFin(r: Receiver, seg: TcpSegment)
    ensures r.haveFin ==> Received(r, seg).haveFin
  {
    hide Push, StreamIndex;
  }

  lemma {:induction false} RunOk(capacity: Capacity, es: seq<Event>)
    ensures ReceiverOk(Run(capacity, es)) && Run(capacity, es).asm.out.capacity == capacity
  {
    if es != [] {
      RunOk(capacity, es[..|es| - 1]);
      StepOk(Run(capacity, es[..|es| - 1]), es[|es| - 1]);
    }
  }

  /** Over any run, whatever the segments contain, the bytes staged and buffered fit in the capacity; in
      particular the window never covers fewer bytes than are staged. */
  lemma RunWithinCapacity(capacity: Capacity, es: seq<Event>)
    ensures var r := Run(capacity, es);
            && |r.asm.staged| + Buffered(r.asm.out) <= capacity
            && |r.asm.staged| <= WindowSize(r) <= capacity
  {
    RunOk(capacity, es);
    StagedSize(Run(capacity, es).asm);
  }

  /** Over any run the right edge of the window never moves left. */
  lemma {:induction false} RightEdgeMonotone(capacity: Capacity, es: seq<Event>, more: seq<Event>)
    requires Run(capacity, es).haveSyn
    ensures Run(capacity, es + more).haveSyn
    ensures RightEdge(Run(capacity, es)) <= RightEdge(Run(capacity, es + more))
  {
    if more == [] {
      assert es + more == es;
    } else {
      var init := more[..|more| - 1];
      RightEdgeMonotone(capacity, es, init);
      RunOk(capacity, es + init);
      assert (es + more)[..|es + more| - 1] == es + init;
      StepOk(Run(capacity, es + init), more[|more| - 1]);
    }
  }

  // ----- When the stream is ended

  /** Every byte known once `seg` has been taken in. */
  function KnownAfter(r: Receiver, seg: TcpSegment): ByteMap { Merged(r.asm, seg.payload, StreamIndex(r, seg.header)) }

  /** Where the stream is then believed to end. */
  function EndAfter(r: Receiver, seg: TcpSegment): nat
  {
    if seg.header.fin then EndIndex(StreamIndex(r, seg.header), |seg.payload|) else r.asm.eofIndex
  }

  /** Any segment whatever ends the output exactly when it is taken in, a FIN has been seen, and either the believed end
      has been reached or nothing is known beyond the first missing byte. */
  lemma EndsExactly(r: Receiver, seg: TcpSegment)
    requires ReceiverOk(r) && r.haveFin == r.asm.haveEof && !r.asm.out.ended
    ensures var r', gap := Received(r, seg), RunEnd(KnownAfter(r, seg), 0);
            && (r'.asm.out.ended <==>
                  && !Ignored(r, seg.header) && (r.haveFin || seg.header.fin)
                  && (gap >= EndAfter(r, seg) || forall i | i in KnownAfter(r, seg) :: i < gap))
            && (!Ignored(r, seg.header) ==> Next(r'.asm) == gap && r'.asm.eofIndex == EndAfter(r, seg))
            && r'.haveFin == r'.asm.haveEof
  {
    hide Push, StreamIndex, Merged, Held;
    if !Ignored(r, seg.header) {
      var index := StreamIndex(r, seg.header);
      var b := Push(r.asm, seg.payload, index, seg.header.fin);
      PushExact(r.asm, seg.payload, index, seg.header.fin);
      var known := KnownAfter(r, seg);
      var gap := RunEnd(known, 0);
      if !(b.haveEof && gap >= b.eofIndex) {
        assert b.staged == Without(known, 0, gap);
        assert forall i | i in known :: i >= gap ==> i in b.staged;
      }
    }
  }

  lemma ReceivedFinKnown(r: Receiver, seg: TcpSegment)
    requires ReceiverOk(r) && r.haveFin == r.asm.haveEof
    ensures Received(r, seg).haveFin == Received(r, seg).asm.haveEof
  {
    hide Push, StreamIndex;
    if !Ignored(r, seg.header) {
      PushKeeps(r.asm, seg.payload, StreamIndex(r, seg.header), seg.header.fin);
    }
  }

  lemma {:induction false} RunFinKnown(capacity: Capacity, es: seq<Event>)
    ensures Run(capacity, es).haveFin == Run(capacity, es).asm.haveEof
  {
    hide Received;
    if es != [] {
      var r, e := Run(capacity, es[..|es| - 1]), es[|es| - 1];
      RunFinKnown(capacity, es[..|es| - 1]);
      RunOk(capacity, es[..|es| - 1]);
      if e.SegmentIn? {
        ReceivedFinKnown(r, e.seg);
      }
    }
  }

  /** The law holds in every reachable state, for every segment. */
  lemma RunEndsExactly(capacity: Capacity, es: seq<Event>, seg: TcpSegment)
    requires !Run(capacity, es).asm.out.ended
    ensures var r := Run(capacity, es);
            var gap := RunEnd(KnownAfter(r, seg), 0);
            Received(r, seg).asm.out.ended <==>
              && !Ignored(r, seg.header) && (r.haveFin || seg.header.fin)
              && (gap >= EndAfter(r, seg) || forall i | i in KnownAfter(r, seg) :: i < gap)
  {
    hide Received, KnownAfter, EndAfter;
    RunOk(capacity, es);
    RunFinKnown(capacity, es);
    EndsExactly(Run(capacity, es), seg);
  }

  /** An output that has ended still grows, exactly when the segment is taken in and the first missing byte is known. */
  lemma EndedStillGrows(r: Receiver, seg: TcpSegment)
    requires ReceiverOk(r) && r.asm.out.ended
    ensures Received(r, seg).asm.out.ended
    ensures Received(r, seg).asm.out.written != r.asm.out.written <==>
              !Ignored(r, seg.header) && Next(r.asm) in KnownAfter(r, seg)
  {
    hide Push, StreamIndex, Merged, Held;
    if !Ignored(r, seg.header) {
      var index := StreamIndex(r, seg.header);
      var b := Push(r.asm, seg.payload, index, seg.header.fin);
      PushExact(r.asm, seg.payload, index, seg.header.fin);
      OutcomeExtends(r.asm, seg.payload, index, seg.header.fin, b);
      OutcomeAt(r.asm, seg.payload, index, seg.header.fin, b, Next(b));
      assert forall i | 0 <= i < Next(b) :: i in KnownAfter(r, seg);
    }
  }

  /** A segment without SYN at the initial sequence number is taken to start at 2^64 - 1 exactly as long as at most 2^31
      bytes have been assembled; further on the number means another position. */
  lemma IndexOfInitialNumber(r: Receiver, header: TcpHeader)
    requires r.haveSyn && header.seqno == r.icn && Next(r.asm) < TWO64 - TWO31
    ensures StreamIndex(r, header) == TWO64 - 1 <==> Next(r.asm) <= TWO31
  {
    hide Unwrap;
    UnwrapCases(r.icn, r.icn, Next(r.asm));
  }

  /** A FIN at the initial sequence number itself carries no byte of the stream, yet ends it wherever it stands, and
      drops what is staged, exactly when its payload is not empty and no longer than the bytes assembled plus one; or
      when nothing is staged. */
  lemma FinAtInitialNumber(r: Receiver, seg: TcpSegment)
    requires ReceiverOk(r) && r.haveFin == r.asm.haveEof && r.haveSyn && !r.asm.out.ended
    requires seg.header.seqno == r.icn && seg.header.fin && !seg.header.syn && |seg.payload| < TWO64
    requires Next(r.asm) <= TWO31 && WindowEnd(r.asm) < TWO64
    ensures var r' := Received(r, seg);
            && r'.asm.out == r.asm.out.(ended := r'.asm.out.ended)
            && (r'.asm.out.ended <==> 1 <= |seg.payload| <= Next(r.asm) + 1 || r.asm.staged == map[])
            && r'.asm.staged == (if r'.asm.out.ended then map[] else r.asm.staged)
  {
    hide StreamIndex;
    IndexOfInitialNumber(r, seg.header);
    NothingNew(r.asm, seg.payload, TWO64 - 1);
  }

  /** A segment with sequence number `seqno`. */
  function Example(seqno: Seqno, syn: bool, payload: seq<Byte>, fin: bool): TcpSegment
  {
    TcpSegment(BLANK.(seqno := seqno, syn := syn, fin := fin), payload)
  }

  /** After the SYN and the third byte of the stream, such a FIN ends the output with nothing in it, and the byte that
      was staged is gone. */
  lemma FinAtInitialExample()
    ensures var r := Run(10, [SegmentIn(Example(0, true, [], false)), SegmentIn(Example(3, false, [9], false))]);
            && r.asm.staged == map[2 := 9] && !r.asm.out.ended
            && var r' := Received(r, Example(0, false, [0], true));
            r'.asm.out.ended && r'.asm.out.written == [] && r'.asm.staged == map[]
  {
    hide Unwrap, Received;
    var syn, data := SegmentIn(Example(0, true, [], false)), SegmentIn(Example(3, false, [9], false));
    var r1, r2 := Receiver(EmptyAssembly(10), true, false, 0), Receiver(ExampleAssembly(), true, false, 0);
    ExampleFirst();
    ExampleSecond();
    assert [syn][..0] == [] && [syn, data][..1] == [syn];
    assert Run(10, []) == NewReceiver(10);
    assert Run(10, [syn]) == r1;
    assert Run(10, [syn, data]) == r2;
    FinAtInitialNumber(r2, Example(0, false, [0], true));
  }

  function ExampleAssembly(): Assembly { EmptyAssembly(10).(staged := map[2 := 9]) }

  lemma ExampleFirst()
    ensures Received(NewReceiver(10), Example(0, true, [], false)) == Receiver(EmptyAssembly(10), true, false, 0)
  {
    hide Unwrap;
    RoundTrip(1, 0, 0);
    NothingNew(EmptyAssembly(10), [], 0);
  }

  lemma ExampleSecond()
    ensures Received(Receiver(EmptyAssembly(10), true, false, 0), Example(3, false, [9], false))
         == Receiver(ExampleAssembly(), true, false, 0)
  {
    hide Unwrap;
    var a := EmptyAssembly(10);
    RoundTrip(3, 0, 0);
    assert Newly(a, [9], 2) == map[2 := 9];
    assert Staging(a, [9], 2) == ExampleAssembly();
    NothingToDrain(ExampleAssembly());
  }
}
