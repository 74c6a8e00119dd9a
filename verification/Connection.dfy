/** The TCP endpoint as an object that owns a sender and a receiver. */
module ConnectionModule {
  import opened Words
  import opened Wrapping
  import opened Segments
  import opened SenderModule
  import opened ReceiverModule
  import Spec = ConnectionSpec
  import S = SenderSpec
  import I = SenderInvariant
  import R = ReceiverSpec
  import L = ConnectionLaws

  lemma StampedNext(r: R.Receiver, isn: Seqno, fs: seq<S.Flight>, f: S.Flight)
    ensures Spec.StampedAll(r, isn, fs + [f]) == Spec.StampedAll(r, isn, fs) + [Spec.Stamped(r, S.Concrete(isn, f))]
  {
    hide Spec.Stamped, S.Concrete;
  }

  lemma TakenOn(taken: seq<S.Flight>, rest: seq<S.Flight>)
    requires rest != []
    ensures (taken + [rest[0]]) + rest[1..] == taken + rest
  {
  }

  lemma StampedNone(r: R.Receiver, isn: Seqno)
    ensures Spec.StampedAll(r, isn, []) == []
  {
  }

  lemma ConnectKeepsWritten(c: Spec.Connection)
    requires I.FlightInv(c.sender) && I.WindowInv(c.sender)
    ensures Spec.Connect(c).sender.stream.written == c.sender.stream.written
  {
    hide S.FillWindow, I.FlightInv, I.WindowInv, Spec.StampedAll;
    L.FillFacts(c.sender);
  }

  class TCPConnection {
    const sender: TCPSender
    const receiver: TCPReceiver
    const rtTimeout: U16
    var segmentsOut: seq<TcpSegment>
    var linger: bool
    var active: bool
    var sinceLast: U64

    ghost predicate Valid()
      reads this, sender, sender.stream, receiver, receiver.reassembler, receiver.reassembler.output
    {
      sender.Valid() && receiver.Valid() && sender.stream != receiver.reassembler.output
    }

    ghost function View(): Spec.Connection
      requires sender.stream.Valid() && receiver.reassembler.output.Valid()
      reads this, sender, sender.stream, receiver, receiver.reassembler, receiver.reassembler.output
    {
      Spec.Connection(sender.View(), receiver.View(), segmentsOut, linger, active, sinceLast, rtTimeout)
    }

    constructor (receiveCapacity: nat, sendCapacity: nat, isn: Seqno, rtTimeout: U16)
      requires receiveCapacity >= 1
      ensures Valid() && View() == Spec.NewConnection(Spec.Config(receiveCapacity, sendCapacity, isn, rtTimeout))
    {
      hide TCPSender.Valid, TCPReceiver.Valid, I.FlightInv, I.WindowInv, S.NewSender, R.NewReceiver;
      sender := new TCPSender(sendCapacity, rtTimeout, isn);
      receiver := new TCPReceiver(receiveCapacity);
      this.rtTimeout := rtTimeout;
      segmentsOut, linger, active, sinceLast := [], true, true, 0;
      new;
      assert sender.View() == S.NewSender(sendCapacity, isn, rtTimeout);
      assert receiver.View() == R.NewReceiver(receiveCapacity);
    }

    /** Moves the first queued segment, stamped. */
    method MoveFront()
      requires Valid() && sender.segmentsOut != []
      modifies this`segmentsOut, sender
      ensures Valid() && old(sender.queue) != [] && |sender.segmentsOut| < |old(sender.segmentsOut)|
      ensures sender.View() == old(sender.View()).(queue := old(sender.queue)[1..])
      ensures receiver.View() == old(receiver.View())
      ensures var segment := Spec.Stamped(receiver.View(), S.Concrete(sender.isn, old(sender.queue)[0]));
              segmentsOut == old(segmentsOut) + [segment]
    {
      hide S.Concrete, TCPSender.Valid, TCPReceiver.Valid, I.FlightInv, I.WindowInv;
      var segment := sender.TakeSegment();
      var ackno := receiver.AcknoOut();
      if ackno.Some? {
        var win := receiver.WindowOut() % 0x1_0000;
        segment := segment.(header := segment.header.(ack := true, ackno := ackno.value, win := win));
      }
      segmentsOut := segmentsOut + [segment];
    }

    /** Moves every segment the sender has queued to the outbound queue, stamped with the current acknowledgment. */
    method MoveToSegmentsOut()
      requires Valid()
      modifies this`segmentsOut, sender
      ensures Valid() && View() == Spec.MoveOut(old(View()))
    {
      hide Spec.StampedAll, Spec.Stamped, S.Concrete, TCPSender.Valid, TCPReceiver.Valid, I.FlightInv, I.WindowInv;
      ghost var s, r, queue := sender.View(), receiver.View(), sender.queue;
      ghost var taken := [];
      StampedNone(r, s.isn);
      while sender.segmentsOut != []
        invariant Valid() && receiver.View() == r && taken + sender.queue == queue
        invariant sender.View() == s.(queue := sender.queue)
        invariant segmentsOut == old(segmentsOut) + Spec.StampedAll(r, s.isn, taken)
        decreases |sender.segmentsOut|
      {
        ghost var rest := sender.queue;
        MoveFront();
        StampedNext(r, s.isn, taken, rest[0]);
        TakenOn(taken, rest);
        taken := taken + [rest[0]];
      }
      assert sender.queue == [] && taken + [] == taken;
    }

    method Connect()
      requires Valid()
      modifies this`segmentsOut, sender, sender.stream
      ensures Valid() && View() == Spec.Connect(old(View()))
    {
      hide S.FillWindow, Spec.MoveOut, TCPSender.Valid, TCPReceiver.Valid, I.FlightInv, I.WindowInv;
      ghost var c := View();
      sender.Fill();
      assert View() == c.(sender := S.FillWindow(c.sender));
      MoveToSegmentsOut();
    }

    /** Both streams have ended and nothing is in flight. */
    predicate PrereqSatisfied()
      requires Valid()
      reads this, sender, sender.stream, receiver, receiver.reassembler, receiver.reassembler.output
      ensures PrereqSatisfied() <==> Spec.Finished(View())
    {
      I.FlightBounds(sender.View());
      receiver.reassembler.UnassembledBytes() == 0 && receiver.reassembler.output.Eof() &&
      sender.stream.Eof() && sender.trackedCount == 0
    }

    /** Marks both streams as failed and the connection as inactive. */
    method FailStreams()
      requires Valid()
      modifies this`active, sender.stream, receiver.reassembler.output
      ensures Valid() && View() == Spec.Failed(old(View()))
    {
      hide TCPSender.Valid, TCPReceiver.Valid, I.FlightInv, I.WindowInv;
      active := false;
      sender.FailStream();
      receiver.FailStream();
    }

    /** The receiver sees the segment first. */
    method TakeIn(seg: TcpSegment)
      requires Valid() && receiver.HasRoomFor(|seg.payload|)
      modifies this`sinceLast, this`active, sender.stream, receiver, receiver.reassembler, receiver.reassembler.output
      ensures Valid() && View() == Spec.TakenIn(old(View()), seg)
    {
      hide TCPSender.Valid, TCPReceiver.Valid, I.FlightInv, I.WindowInv, Spec.Failed, R.Received;
      ghost var c := View();
      sinceLast := 0;
      receiver.SegmentReceived(seg);
      assert View() == c.(sinceLast := 0, receiver := R.Received(c.receiver, seg));
      if seg.header.rst {
        FailStreams();
      }
    }

    method TakeAck(header: TcpHeader)
      requires Valid()
      modifies this`segmentsOut, sender, sender.stream
      ensures Valid() && View() == Spec.AckTaken(old(View()), header)
    {
      hide TCPSender.Valid, TCPReceiver.Valid, I.FlightInv, I.WindowInv, Spec.Connect, S.AckReceived;
      ghost var c := View();
      if sender.nextSeqno != 0 && header.ack {
        sender.AckArrived(header.ackno, header.win);
        assert View() == c.(sender := S.AckReceived(c.sender, header.ackno, header.win));
        Connect();
      }
    }

    method Answer()
      requires Valid()
      modifies this`segmentsOut, sender
      ensures Valid() && View() == Spec.Answered(old(View()))
    {
      hide TCPSender.Valid, TCPReceiver.Valid, I.FlightInv, I.WindowInv, Spec.MoveOut, S.SendEmpty;
      ghost var c := View();
      if segmentsOut == [] {
        sender.SendEmptySegment();
        assert View() == c.(sender := S.SendEmpty(c.sender));
      }
      MoveToSegmentsOut();
    }

    method CheckClose()
      requires Valid()
      modifies this`linger, this`active
      ensures Valid() && View() == Spec.CloseCheck(old(View()))
    {
      hide TCPSender.Valid, TCPReceiver.Valid, I.FlightInv, I.WindowInv;
      if receiver.reassembler.output.Eof()
          && !(sender.stream.Eof() && sender.nextSeqno == sender.stream.writtenLength + 2) {
        linger := false;
      }
      if !linger && PrereqSatisfied() {
        active := false;
      }
    }

    method SegmentReceived(seg: TcpSegment)
      requires Valid() && receiver.HasRoomFor(|seg.payload|)
      modifies this, sender, sender.stream, receiver, receiver.reassembler, receiver.reassembler.output
      ensures Valid() && View() == Spec.SegmentReceived(old(View()), seg)
    {
      hide TCPSender.Valid, TCPReceiver.Valid, I.FlightInv, I.WindowInv;
      hide Spec.TakenIn, Spec.AckTaken, Spec.Answered, Spec.Connect, Spec.CloseCheck;
      TakeIn(seg);
      TakeAck(seg.header);
      if SequenceLength(seg) > 0 {
        if sender.nextSeqno == 0 {
          Connect();
          return;
        }
        Answer();
      }
      CheckClose();
    }

    method Write(data: seq<Byte>) returns (accepted: nat)
      requires Valid() && S.Writable(sender.View(), data) && sender.stream.writtenLength + |data| + 2 < TWO64
      modifies this`segmentsOut, sender, sender.stream
      ensures Valid() && View() == Spec.Step(old(View()), Spec.WriteOut(data))
      ensures accepted == |View().sender.stream.written| - |old(View()).sender.stream.written|
    {
      hide TCPSender.Valid, TCPReceiver.Valid, I.FlightInv, I.WindowInv, Spec.Connect;
      ghost var c := View();
      accepted := sender.WriteStream(data);
      assert View() == c.(sender := S.Step(c.sender, S.Write(data)));
      ConnectKeepsWritten(View());
      Connect();
    }

    method EndInputStream()
      requires Valid()
      modifies this`segmentsOut, sender, sender.stream
      ensures Valid() && View() == Spec.Step(old(View()), Spec.EndOut)
    {
      hide TCPSender.Valid, TCPReceiver.Valid, I.FlightInv, I.WindowInv, Spec.Connect;
      ghost var c := View();
      sender.EndStream();
      assert View() == c.(sender := S.Step(c.sender, S.EndInput));
      Connect();
    }

    /** Too many retransmissions: reset the connection. */
    method GiveUp()
      requires Valid()
      modifies this, sender.stream, receiver.reassembler.output
      ensures Valid()
      ensures var c := Spec.Failed(old(View()));
              View() == c.(out := c.out + [TcpSegment(BLANK.(rst := true), [])], linger := false)
    {
      hide TCPSender.Valid, TCPReceiver.Valid, I.FlightInv, I.WindowInv;
      segmentsOut := segmentsOut + [TcpSegment(BLANK.(rst := true), [])];
      FailStreams();
      linger := false;
    }

    method Tick(ms: U64)
      requires Valid()
      modifies this, sender, sender.stream, receiver.reassembler.output
      ensures Valid() && View() == Spec.Tick(old(View()), ms)
    {
      hide TCPSender.Valid, TCPReceiver.Valid, I.FlightInv, I.WindowInv, Spec.MoveOut, Spec.Finished, S.Tick;
      ghost var c := View();
      sender.TickBy(ms);
      sinceLast := Add64(sinceLast, ms);
      ghost var d := c.(sender := S.Tick(c.sender, ms), sinceLast := sinceLast);
      assert View() == d;
      if sinceLast >= 10 * rtTimeout && PrereqSatisfied() {
        active := false;
      }
      if sender.timeouts > Spec.MAX_RETX_ATTEMPTS {
        GiveUp();
        return;
      }
      MoveToSegmentsOut();
    }
  }
}
