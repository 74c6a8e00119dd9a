/** After an acknowledgment that retires nothing, the sender compares it with the oldest segment in flight as plain
    32-bit numbers to decide whether the remaining window is recomputed. */
module RawComparison {
  import opened Words
  import opened Wrapping
  import opened ByteStreams
  import opened SenderSpec
  import opened SenderInvariant
  import F = FinOverrun

  /** The 32-bit numbers wrap around on the way from the oldest segment in flight to `a`. */
  predicate WrapsBefore(s: Sender, a: nat) { Wrap(s.nextAckno, s.isn) + (a - s.nextAckno) >= TWO32 }

  /** An acknowledgment in range that retires nothing always replaces the offered window.  The remaining window follows
      it exactly when the number is that of the oldest segment, or when the 32-bit numbers wrap around in between. */
  lemma RecomputesExactly(s: Sender, ackno: Seqno, win: U16)
    requires FlightInv(s) && WindowInv(s) && Flying(s) && s.nextAckno < TWO64
    requires InRange(s, ackno) && FindEnd(s.firsts, s.retired, AbsoluteAck(s, ackno)) == None
    ensures var a := AbsoluteAck(s, ackno);
            AckReceived(s, ackno, win) ==
              if a == s.nextAckno || WrapsBefore(s, a) then s.(window := win, remain := win) else s.(window := win)
  {
    hide Tiled, Total, FlightsOk, Unwrap, FindEnd, Wrap;
    var a := AbsoluteAck(s, ackno);
    InFlightBounds(s, s.retired);
    UnwrapWraps(ackno, s.isn, s.nextAckno);
    WrapAhead(s.nextAckno, a - s.nextAckno, s.isn);
  }

  lemma WrapAhead(n: nat, d: nat, isn: Seqno)
    requires d < TWO32
    ensures var w := Wrap(n, isn) + d; Wrap(n + d, isn) == if w < TWO32 then w else w - TWO32
  {
    AddSeqnoWraps(n, d, isn);
  }

  // ----- The wrap-around does change the outcome

  const DATA: Flight := Flight(1, false, [7, 8], false)

  /** A sender with initial sequence number `isn` and nothing left to send. */
  function Example(isn: Seqno, written: seq<Byte>, read: nat, nextSeqno: nat, firsts: seq<Flight>, retired: nat,
                   window: U16): Sender
    requires read <= |written| <= 10
  {
    Sender(isn, StreamState(10, written, read, false, false), nextSeqno, if retired == 0 then 0 else 1, firsts, retired,
           firsts, 0, 1000, 1000, window, window, 0)
  }

  function ExampleEvents(isn: Seqno): seq<Event>
  {
    [] + [Fill] + [Ack(Wrap(1, isn), 10)] + [Write([7, 8])] + [Fill]
  }

  lemma ExampleAck(isn: Seqno)
    ensures var s := Example(isn, [], 0, 1, [SYN], 0, 1);
            && AbsoluteAck(s, Wrap(1, isn)) == 1
            && AckReceived(s, Wrap(1, isn), 10) == Example(isn, [], 0, 1, [SYN], 1, 10)
  {
    hide Unwrap, Wrap;
    RoundTrip(1, isn, 0);
    assert FindEnd([SYN], 0, 1) == Some(0);
  }

  lemma ExampleData(isn: Seqno)
    ensures Step(Example(isn, [], 0, 1, [SYN], 1, 10), Write([7, 8])) == Example(isn, [7, 8], 0, 1, [SYN], 1, 10)
    ensures FillWindow(Example(isn, [7, 8], 0, 1, [SYN], 1, 10)) == Example(isn, [7, 8], 2, 3, [SYN, DATA], 1, 10)
  {
    var s, t := Example(isn, [7, 8], 0, 1, [SYN], 1, 10), Example(isn, [7, 8], 2, 3, [SYN, DATA], 1, 10);
    assert [] + [7, 8][..2] == [7, 8];
    assert NextFlight(s) == DATA;
    assert FillStep(s) == t;
    assert FillLoop(s) == FillLoop(t) == t;
  }

  lemma ExampleStart(isn: Seqno)
    ensures F.At(Config(10, isn, 1000), [], Example(isn, [], 0, 0, [], 0, 1), 1)
    ensures FillWindow(Example(isn, [], 0, 0, [], 0, 1)) == Example(isn, [], 0, 1, [SYN], 0, 1)
  {
  }

  /** Two bytes are sent in one segment and nothing but the SYN has been acknowledged. */
  lemma ExampleReached(isn: Seqno)
    ensures F.At(Config(10, isn, 1000), ExampleEvents(isn), Example(isn, [7, 8], 2, 3, [SYN, DATA], 1, 10), 11)
  {
    hide FillWindow, AckReceived, AbsoluteAck, F.At;
    var c := Config(10, isn, 1000);
    var es1, es2 := [] + [Fill], [] + [Fill] + [Ack(Wrap(1, isn), 10)];
    ExampleStart(isn);
    F.Then(c, [], Example(isn, [], 0, 0, [], 0, 1), 1, Fill);
    ExampleAck(isn);
    F.ThenAck(c, es1, Example(isn, [], 0, 1, [SYN], 0, 1), 1, Wrap(1, isn), 10);
    ExampleData(isn);
    F.Then(c, es2, Example(isn, [], 0, 1, [SYN], 1, 10), 11, Write([7, 8]));
    F.Then(c, es2 + [Write([7, 8])], Example(isn, [7, 8], 0, 1, [SYN], 1, 10), 11, Fill);
  }

  /** The first byte alone is acknowledged and the window shrunk to 1.  Whether the remaining window follows depends on
      nothing but the initial sequence number: from 0 it stays 10, from 2^32 - 2 it becomes 1. */
  lemma WrapChangesOutcome(isn: Seqno)
    ensures var s := Run(Config(10, isn, 1000), ExampleEvents(isn) + [Ack(Wrap(2, isn), 1)]);
            s.window == 1 && s.remain == (if isn == TWO32 - 2 then 1 else 10)
  {
    hide FillWindow, AckReceived, AbsoluteAck, FindEnd, Run, Legal, Wrap, FlightInv, WindowInv;
    var c, es := Config(10, isn, 1000), ExampleEvents(isn);
    var s := Example(isn, [7, 8], 2, 3, [SYN, DATA], 1, 10);
    ExampleReached(isn);
    RunKeeps(c, es);
    ExamplePartial(isn);
    RecomputesExactly(s, Wrap(2, isn), 1);
    ReplayRun(c, es, [Ack(Wrap(2, isn), 1)]);
    assert [Ack(Wrap(2, isn), 1)][..0] == [];
  }

  lemma ExamplePartial(isn: Seqno)
    ensures var s := Example(isn, [7, 8], 2, 3, [SYN, DATA], 1, 10);
            && AbsoluteAck(s, Wrap(2, isn)) == 2 && FindEnd(s.firsts, 1, 2) == None
            && (WrapsBefore(s, 2) <==> isn == TWO32 - 2)
  {
    RoundTrip(2, isn, 1);
    assert [SYN, DATA][..1] == [SYN];
    assert FindEnd([SYN], 1, 2) == None;
  }
}
