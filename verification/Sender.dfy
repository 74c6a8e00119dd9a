/** The TCP sender on 32-bit sequence numbers, with its newest-first list of tracked segments and its
    redundant counters. */
module SenderModule {
  import opened Words
  import opened Wrapping
  import opened ByteStreams
  import opened Segments
  import opened SenderSpec
  import opened SenderInvariant

  // ----- How the lists of segments represent the abstract ones

  /** The outbound queue, oldest first. */
  function Queued(isn: Seqno, fs: seq<Flight>): seq<TcpSegment>
  {
    seq(|fs|, k requires 0 <= k < |fs| => Concrete(isn, fs[k]))
  }

  /** The tracked segments from position `retired` on, newest first. */
  function Tracked(isn: Seqno, fs: seq<Flight>, retired: nat): (list: seq<TcpSegment>)
    ensures |list| == if retired < |fs| then |fs| - retired else 0
  {
    if |fs| <= retired then [] else [Concrete(isn, fs[|fs| - 1])] + Tracked(isn, fs[..|fs| - 1], retired)
  }

  lemma QueuedAppend(isn: Seqno, fs: seq<Flight>, f: Flight)
    ensures Queued(isn, fs + [f]) == Queued(isn, fs) + [Concrete(isn, f)]
  {
    hide Concrete;
  }

  lemma QueuedFront(isn: Seqno, fs: seq<Flight>)
    requires fs != []
    ensures Queued(isn, fs) == [Concrete(isn, fs[0])] + Queued(isn, fs[1..])
  {
    hide Concrete;
  }

  lemma QueueKeeps(s: Sender, queue: seq<Flight>)
    requires FlightInv(s) && WindowInv(s)
    ensures FlightInv(s.(queue := queue)) && WindowInv(s.(queue := queue))
  {
  }

  lemma TrackedPush(isn: Seqno, fs: seq<Flight>, f: Flight, retired: nat)
    requires retired <= |fs|
    ensures Tracked(isn, fs + [f], retired) == [Concrete(isn, f)] + Tracked(isn, fs, retired)
  {
    assert (fs + [f])[..|fs|] == fs;
  }

  lemma {:induction false} TrackedAt(isn: Seqno, fs: seq<Flight>, retired: nat, i: nat)
    requires retired + i < |fs|
    ensures Tracked(isn, fs, retired)[i] == Concrete(isn, fs[|fs| - 1 - i])
    ensures Tracked(isn, fs, retired)[..i] == Tracked(isn, fs, |fs| - i)
  {
    if i > 0 {
      var init := fs[..|fs| - 1];
      TrackedAt(isn, init, retired, i - 1);
      var tail := Tracked(isn, init, retired);
      hide Concrete;
      assert ([Concrete(isn, fs[|fs| - 1])] + tail)[..i] == [Concrete(isn, fs[|fs| - 1])] + tail[..i - 1];
    }
  }

  /** Comparing 32-bit numbers finds exactly the segment whose absolute end is acknowledged. */
  lemma AckMatches(s: Sender, ackno: Seqno, k: nat)
    requires FlightInv(s) && WindowInv(s) && s.nextSeqno < TWO64 && s.retired <= k < |s.firsts|
    ensures Concrete(s.isn, s.firsts[k]).header.ackno == ackno <==> End(s.firsts[k]) == AbsoluteAck(s, ackno)
  {
    var e := End(s.firsts[k]);
    InFlightBounds(s, k);
    FlightBounds(s);
    assert Low64(s.nextAckno) == s.nextAckno;
    RoundTrip(e, s.isn, s.nextAckno);
    UnwrapWraps(ackno, s.isn, s.nextAckno);
  }

  lemma AbsoluteAckHere(s: Sender, ackno: Seqno)
    requires FlightInv(s) && |s.stream.written| + 2 < TWO64
    ensures s.nextAckno <= s.nextSeqno < TWO64 && AbsoluteAck(s, ackno) == Unwrap(ackno, s.isn, s.nextAckno)
  {
    FlightBounds(s);
  }

  lemma FlightTotal(s: Sender)
    requires FlightInv(s)
    ensures s.nextSeqno == Total(s.firsts) && s.nextAckno == Total(s.firsts[..s.retired]) && Tiled(s.firsts)
  {
  }

  /** Dropping the tracked segments from position `i` on retires everything up to the one acknowledged. */
  lemma RetirePoint(s: Sender, k: nat, i: nat)
    requires FlightInv(s) && s.retired <= k < |s.firsts| && i == |s.firsts| - 1 - k
    ensures Tracked(s.isn, s.firsts, s.retired)[..i] == Tracked(s.isn, s.firsts, k + 1)
    ensures s.nextAckno < End(s.firsts[k]) == Total(s.firsts[..|s.firsts| - i])
    ensures i == 0 ==> Total(s.firsts[..|s.firsts| - i]) == s.nextSeqno
    ensures i > 0 ==> Total(s.firsts[..|s.firsts| - i]) < s.nextSeqno
  {
    hide FlightInv, Tracked, Total, Tiled;
    TrackedAt(s.isn, s.firsts, s.retired, i);
    InFlightBounds(s, k);
    FlightTotal(s);
    TotalGrows(s.firsts, k + 1, |s.firsts|);
    assert s.firsts[..|s.firsts|] == s.firsts;
  }

  lemma OldestTracked(isn: Seqno, fs: seq<Flight>, retired: nat)
    requires retired <= |fs|
    ensures var list := Tracked(isn, fs, retired);
            && (list == [] <==> retired == |fs|)
            && (list != [] ==> list[|list| - 1].header.seqno == Wrap(fs[retired].start, isn))
  {
    if retired < |fs| {
      TrackedAt(isn, fs, retired, |fs| - retired - 1);
    }
  }

  /** What the search from newest to oldest sees next. */
  lemma SearchStep(s: Sender, a: nat, i: nat)
    requires s.retired + i < |s.firsts|
    ensures var f, older := s.firsts[|s.firsts| - 1 - i], s.firsts[..|s.firsts| - (i + 1)];
            && Total(s.firsts[..|s.firsts| - i]) == Total(older) + Len(f)
            && FindEnd(s.firsts[..|s.firsts| - i], s.retired, a) ==
               (if End(f) == a then Some(|s.firsts| - 1 - i) else FindEnd(older, s.retired, a))
  {
    var rest := s.firsts[..|s.firsts| - i];
    assert rest[..|rest| - 1] == s.firsts[..|s.firsts| - (i + 1)];
  }

  /** Looks for the newest tracked segment that ends at the acknowledged number, from newest to oldest, and adds up
      the lengths of the newer ones.  The comparison is of 32-bit numbers, the result that of absolute ones. */
  method FindAcknowledged(tracking: seq<TcpSegment>, ackno: Seqno, ghost s: Sender) returns (i: nat, newer: nat)
    requires FlightInv(s) && WindowInv(s) && |s.stream.written| + 2 < TWO64 && s.retired <= |s.firsts|
    requires tracking == Tracked(s.isn, s.firsts, s.retired)
    ensures i <= |tracking|
    ensures FindEnd(s.firsts, s.retired, AbsoluteAck(s, ackno)) ==
              if i < |tracking| then Some(|s.firsts| - 1 - i) else None
    ensures newer == s.nextSeqno - Total(s.firsts[..|s.firsts| - i])
  {
    hide FlightInv, WindowInv, AbsoluteAck, Tracked, Concrete, Total, FindEnd;
    i, newer := 0, 0;
    ghost var a := AbsoluteAck(s, ackno);
    assert s.firsts[..|s.firsts|] == s.firsts;
    FlightTotal(s);
    AbsoluteAckHere(s, ackno);
    while i < |tracking| && tracking[i].header.ackno != ackno
      invariant i <= |tracking|
      invariant newer == s.nextSeqno - Total(s.firsts[..|s.firsts| - i])
      invariant FindEnd(s.firsts, s.retired, a) == FindEnd(s.firsts[..|s.firsts| - i], s.retired, a)
    {
      TrackedAt(s.isn, s.firsts, s.retired, i);
      AckMatches(s, ackno, |s.firsts| - 1 - i);
      SearchStep(s, a, i);
      newer := newer + SequenceLength(tracking[i]);
      i := i + 1;
    }
    if i < |tracking| {
      TrackedAt(s.isn, s.firsts, s.retired, i);
      AckMatches(s, ackno, |s.firsts| - 1 - i);
      SearchStep(s, a, i);
    } else {
      NothingInFlight(s.firsts[..s.retired], s.retired, a);
    }
  }

  lemma NothingInFlight(fs: seq<Flight>, retired: nat, a: nat)
    requires |fs| <= retired
    ensures FindEnd(fs, retired, a) == None
  {
  }

  class TCPSender {
    const isn: Seqno
    const initialRto: U16
    const stream: ByteStream
    var segmentsOut: seq<TcpSegment>
    var nextSeqno: nat
    var nextAckno: nat
    var tracking: seq<TcpSegment>
    var trackedCount: nat
    var timer: U64
    var rto: U64
    var window: U16
    var remain: U16
    var timeouts: U16
    ghost var firsts: seq<Flight>
    ghost var retired: nat
    ghost var queue: seq<Flight>

    ghost function View(): Sender
      requires stream.Valid()
      reads this, stream
    {
      Sender(isn, stream.View(), nextSeqno, nextAckno, firsts, retired, queue,
             timer, rto, initialRto, window, remain, timeouts)
    }

    ghost predicate Valid()
      reads this, stream
      ensures Valid() ==> stream.Valid() && |segmentsOut| == |queue| && FlightInv(View()) && WindowInv(View())
    {
      && stream.Valid() && stream.writtenLength + 2 < TWO64
      && FlightInv(View()) && WindowInv(View()) && retired <= |firsts|
      && tracking == Tracked(isn, firsts, retired)
      && segmentsOut == Queued(isn, queue)
      && nextAckno <= nextSeqno && trackedCount == nextSeqno - nextAckno
    }

    constructor (capacity: nat, initialRto: U16, isn: Seqno)
      ensures Valid() && View() == NewSender(capacity, isn, initialRto) && fresh(stream)
    {
      hide FlightInv, WindowInv;
      this.isn := isn;
      this.initialRto := initialRto;
      stream := new ByteStream(capacity);
      segmentsOut, nextSeqno, nextAckno, tracking, trackedCount := [], 0, 0, [], 0;
      timer, rto, window, remain, timeouts := 0, initialRto, 1, 1, 0;
      firsts, retired, queue := [], 0, [];
      new;
      NewKeeps(Config(capacity, isn, initialRto));
    }

    function CurrentState(): (p: Phase)
      requires stream.Valid() && trackedCount == nextSeqno - nextAckno
      reads this, stream
      ensures p == CurrentPhase(View())
    {
      if nextSeqno == 0 then Closed
      else if nextSeqno == trackedCount then SynSent
      else if nextSeqno > trackedCount && !stream.Eof() then SynAcked
      else if stream.Eof() && nextSeqno < stream.writtenLength + 2 then SynAckedEof
      else if stream.Eof() && nextSeqno == stream.writtenLength + 2 && trackedCount > 0 then FinSent
      else if stream.Eof() && nextSeqno == stream.writtenLength + 2 && trackedCount == 0 then FinAcked
      else Closed
    }

    /** Queues a new segment and tracks it. */
    method Transmit(segment: TcpSegment, ghost f: Flight)
      requires segment == Concrete(isn, f) && retired <= |firsts|
      requires tracking == Tracked(isn, firsts, retired) && segmentsOut == Queued(isn, queue)
      modifies this`segmentsOut, this`tracking, this`nextSeqno, this`trackedCount, this`queue, this`firsts
      ensures firsts == old(firsts) + [f] && queue == old(queue) + [f]
      ensures tracking == Tracked(isn, firsts, retired) && segmentsOut == Queued(isn, queue)
      ensures nextSeqno == old(nextSeqno) + Len(f) && trackedCount == old(trackedCount) + Len(f)
    {
      QueuedAppend(isn, queue, f);
      TrackedPush(isn, firsts, f, retired);
      segmentsOut := segmentsOut + [segment];
      tracking := [segment] + tracking;
      nextSeqno := nextSeqno + SequenceLength(segment);
      trackedCount := trackedCount + SequenceLength(segment);
      queue, firsts := queue + [f], firsts + [f];
    }

    method SendSynSegment()
      requires Valid() && nextSeqno == 0
      modifies this
      ensures Valid() && View() == SendSyn(old(View()))
    {
      hide FlightInv, WindowInv, Tracked, Queued;
      ghost var s := View();
      SynKeeps(s);
      FlightBounds(s);
      var segment := TcpSegment(BLANK.(seqno := isn, syn := true, ackno := Wrap(nextSeqno + 1, isn)), []);
      assert Wrap(0, isn) == isn;
      Transmit(segment, Flight(0, true, [], false));
      timer := 0;
      assert View() == SendSyn(s);
    }

    /** Reads the payload of the next segment and builds its header. */
    method NextSegment() returns (segment: TcpSegment)
      requires stream.Valid() && MayFill(View())
      modifies stream
      ensures stream.Valid() && stream.View() == ReadOn(old(View()))
      ensures segment == Concrete(isn, NextFlight(old(View())))
    {
      ghost var s := View();
      ghost var f := NextFlight(s);
      var room := nextAckno + remain - nextSeqno;
      var readSize := Min(if room > stream.BufferSize() then stream.BufferSize() else room, MAX_PAYLOAD);
      var payload := [];
      if readSize != 0 {
        payload := stream.Read(readSize);
      }
      assert payload == f.payload;
      var fin := remain > readSize && stream.Eof();
      assert fin == f.fin;
      segment := TcpSegment(BLANK.(seqno := Wrap(nextSeqno, isn), fin := fin, ack := fin), payload);
      var length := SequenceLength(segment);
      AddSeqnoWraps(f.start, length, isn);
      segment := segment.(header := segment.header.(ackno := AddSeqno(segment.header.seqno, length)));
    }

    /** One round of the sending loop. */
    method SendNext()
      requires Valid() && MayFill(View()) && retired > 0
      modifies this, stream
      ensures Valid() && View() == FillStep(old(View())) && retired == old(retired)
    {
      hide FlightInv, WindowInv, Tracked, Queued, NextFlight, Concrete;
      ghost var s := View();
      ghost var f := NextFlight(s);
      FillStepKeeps(s);
      FlightBounds(s);
      var segment := NextSegment();
      Transmit(segment, f);
      if remain != window {
        remain := 0;
      }
      assert View() == FillStep(s);
    }

    method Fill()
      requires Valid()
      modifies this, stream
      ensures Valid() && View() == FillWindow(old(View()))
    {
      hide FlightInv, WindowInv, Tracked, Queued, FillStep;
      ghost var s := View();
      PhaseDecided(s);
      FlightBounds(s);
      var phase := CurrentState();
      if phase == Closed {
        SendSynSegment();
      } else if phase != SynSent {
        while nextAckno + remain > nextSeqno && (stream.BufferSize() > 0 || CurrentState() == SynAckedEof)
          invariant Valid() && retired == old(retired) > 0
          invariant FillLoop(View()) == FillLoop(s)
          decreases Unsent(View())
        {
          FillStepProgress(View());
          SendNext();
        }
      }
    }

    /** Takes in the window and drops the acknowledged segments; counts what stays in flight. */
    method Acknowledge(ackno: Seqno, windowSize: U16) returns (newer: nat)
      requires Valid()
      modifies this`window, this`nextAckno, this`tracking, this`timeouts, this`timer, this`rto, this`retired
      ensures View() == Acknowledged(old(View()), ackno, windowSize)
      ensures retired <= |firsts| && tracking == Tracked(isn, firsts, retired)
      ensures nextAckno <= nextSeqno && newer == nextSeqno - nextAckno && (newer == 0 <==> retired == |firsts|)
      ensures newer == trackedCount <==> retired == old(retired)
    {
      hide FlightInv, WindowInv, AbsoluteAck, Tracked, Queued, Unwrap, FindEnd, Total, Concrete;
      ghost var s := View();
      FlightBounds(s);
      FlightTotal(s);
      AbsoluteAckHere(s, ackno);
      var i;
      i, newer := FindAcknowledged(tracking, ackno, s);
      var a := Unwrap(ackno, isn, nextAckno);
      if a >= nextAckno && a <= nextSeqno {
        window := windowSize;
      }
      assert View() == s.(window := if InRange(s, ackno) then windowSize else s.window);
      if i < |tracking| {
        RetirePoint(s, |firsts| - 1 - i, i);
        Retire(i, a);
      }
    }

    /** Drops the tracked segments from position `i` on and restarts the timer. */
    method Retire(i: nat, a: U64)
      requires i <= |firsts|
      requires i <= |tracking| && stream.Valid() && tracking[..i] == Tracked(isn, firsts, |firsts| - i)
      modifies this`nextAckno, this`tracking, this`timeouts, this`timer, this`rto, this`retired
      ensures View() == old(View()).(nextAckno := if a > old(nextAckno) then a else old(nextAckno),
                                     retired := |firsts| - i,
                                     timeouts := 0, timer := 0, rto := initialRto)
      ensures tracking == Tracked(isn, firsts, retired)
    {
      hide Tracked;
      if a > nextAckno {
        nextAckno := a;
      }
      tracking := tracking[..i];
      timeouts, timer, rto := 0, 0, initialRto;
      retired := |firsts| - i;
    }

    method AckArrived(ackno: Seqno, windowSize: U16)
      requires Valid()
      modifies this
      ensures Valid() && View() == AckReceived(old(View()), ackno, windowSize)
    {
      hide FlightInv, WindowInv, Tracked, Queued, Concrete, Acknowledged;
      ghost var s := View();
      AckKeeps(s, ackno, windowSize);
      var newer := Acknowledge(ackno, windowSize);
      OldestTracked(isn, firsts, retired);
      if trackedCount == newer && tracking != [] && tracking[|tracking| - 1].header.seqno < ackno {
        return;
      }
      trackedCount := newer;
      remain := if window == 0 && trackedCount == 0 then 1 else window;
    }

    /** Queues the oldest tracked segment again. */
    method Resend()
      requires Valid() && tracking != []
      modifies this`segmentsOut, this`queue
      ensures Valid() && View() == old(View()).(queue := queue)
      ensures retired < |firsts| && queue == old(queue) + [firsts[retired]]
    {
      hide FlightInv, WindowInv, Queued, Tracked, Concrete;
      TrackedAt(isn, firsts, retired, |tracking| - 1);
      QueuedAppend(isn, queue, firsts[retired]);
      QueueKeeps(View(), queue + [firsts[retired]]);
      segmentsOut := segmentsOut + [tracking[|tracking| - 1]];
      queue := queue + [firsts[retired]];
    }

    method TickBy(ms: U64)
      requires Valid()
      modifies this
      ensures Valid() && View() == Tick(old(View()), ms)
    {
      hide FlightInv, WindowInv, Queued, Tracked, Concrete;
      ghost var s := View();
      TickKeeps(s, ms);
      FlightBounds(s);
      var now := if trackedCount != 0 then Add64(timer, ms) else timer;
      if now >= rto && trackedCount != 0 {
        Resend();
        timer := 0;
        if window != 0 {
          rto := Add64(rto, rto);
        }
        timeouts := if timeouts < 0xffff then timeouts + 1 else 0;
      } else {
        timer := now;
      }
      assert View() == Tick(s, ms);
    }

    method SendEmptySegment()
      requires Valid()
      modifies this
      ensures Valid() && View() == SendEmpty(old(View()))
    {
      hide FlightInv, WindowInv, Tracked, Queued;
      ghost var f := Flight(nextSeqno, false, [], false);
      StepKeeps(View(), Empty);
      QueuedAppend(isn, queue, f);
      var header := BLANK.(seqno := Wrap(nextSeqno, isn), ackno := Wrap(nextSeqno, isn));
      segmentsOut := segmentsOut + [TcpSegment(header, [])];
      queue := queue + [f];
    }

    /** The owner writes into the outgoing stream, at the latest until the FIN is out. */
    method WriteStream(data: seq<Byte>) returns (accepted: nat)
      requires Valid() && Writable(View(), data) && stream.writtenLength + |data| + 2 < TWO64
      modifies stream
      ensures Valid() && View() == Step(old(View()), Write(data))
      ensures accepted == |View().stream.written| - |old(View()).stream.written|
    {
      hide FlightInv, WindowInv, Tracked, Queued;
      WriteKeeps(View(), data);
      accepted := stream.Write(data);
    }

    method EndStream()
      requires Valid()
      modifies stream
      ensures Valid() && View() == Step(old(View()), EndInput)
    {
      hide FlightInv, WindowInv, Tracked, Queued;
      EndKeeps(View());
      stream.EndInput();
    }

    method FailStream()
      requires Valid()
      modifies stream
      ensures Valid() && View() == Step(old(View()), Fail)
    {
      hide FlightInv, WindowInv, Tracked, Queued;
      FailKeeps(View());
      stream.SetError();
    }

    /** The owner takes the segment at the head of the queue. */
    method TakeSegment() returns (segment: TcpSegment)
      requires Valid() && segmentsOut != []
      modifies this`segmentsOut, this`queue
      ensures Valid() && old(queue) != [] && segment == Concrete(isn, old(queue)[0])
      ensures View() == old(View()).(queue := old(queue)[1..]) && |segmentsOut| < |old(segmentsOut)|
    {
      hide FlightInv, WindowInv, Tracked;
      QueueKeeps(View(), queue[1..]);
      QueuedFront(isn, queue);
      segment := segmentsOut[0];
      segmentsOut := segmentsOut[1..];
      queue := queue[1..];
    }
  }
}
