/** The sender decides whether a FIN fits by the whole remaining window, not by the room left in it.  This says exactly
    when the FIN then sits one number past what was offered. */
module FinOverrun {
  import opened Words
  import opened Wrapping
  import opened ByteStreams
  import opened SenderSpec
  import opened SenderInvariant
  import opened SenderRuns

  // ----- One segment

  /** The stream is at its end, and what is left of it fills the room next to segments in flight. */
  predicate FillsRoom(s: Sender)
  {
    s.stream.ended && Flying(s) && Buffered(s.stream) == Room(s) <= MAX_PAYLOAD
  }

  /** The next segment ends past the window exactly then, and by its FIN alone. */
  lemma SegmentOverruns(s: Sender)
    requires FlightInv(s) && MayFill(s)
    ensures End(NextFlight(s)) > s.nextAckno + s.remain <==> FillsRoom(s)
    ensures FillsRoom(s) ==> NextFlight(s).fin && End(NextFlight(s)) == s.nextAckno + s.remain + 1
  {
    hide Tiled, Total, FlightsOk;
    FlightBounds(s);
  }

  // ----- One call of fill_window

  /** Something is sent for the first time, and the last of it ends past `edge`. */
  predicate SendsPast(s: Sender, s': Sender, edge: nat) { |s.firsts| < |s'.firsts| && s'.nextSeqno > edge }

  /** The rest of an ended stream fills the room exactly, and its last segment will not be alone in flight.  Only when
      the remaining window is the offered one does the loop go on after a segment. */
  predicate Overruns(s: Sender)
  {
    && s.retired > 0 && s.stream.ended && Buffered(s.stream) == Room(s) > 0
    && (if s.remain == s.window then Flying(s) || Buffered(s.stream) > MAX_PAYLOAD
        else Flying(s) && Buffered(s.stream) <= MAX_PAYLOAD)
  }

  predicate OverrunsBy(s: Sender, s': Sender, edge: nat)
  {
    && (SendsPast(s, s', edge) <==> Overruns(s))
    && (Overruns(s) ==> s'.nextSeqno == edge + 1 && s'.firsts != [] && s'.firsts[|s'.firsts| - 1].fin)
  }

  /** What one turn of the loop leaves to be decided. */
  lemma TurnOverruns(s: Sender)
    requires FlightInv(s) && MayFill(s) && s.retired > 0
    ensures var t := FillStep(s);
            && (s.remain != s.window || FillsRoom(s) ==> !MayFill(t))
            && (s.remain != s.window ==> (Overruns(s) <==> FillsRoom(s)))
            && (s.remain == s.window ==> t.remain == s.remain && (Overruns(s) <==> FillsRoom(s) || Overruns(t)))
            && (FillsRoom(s) ==> !Overruns(t))
            && t.nextSeqno == End(NextFlight(s)) && t.firsts == s.firsts + [NextFlight(s)]
  {
    hide Tiled, Total, FlightsOk;
    FlightBounds(s);
  }

  lemma {:induction false} LoopOverruns(s: Sender)
    requires FlightInv(s) && WindowInv(s) && s.retired > 0
    ensures OverrunsBy(s, FillLoop(s), s.nextAckno + s.remain)
    decreases Unsent(s)
  {
    hide FlightInv, WindowInv, NextFlight, Overruns, FillsRoom;
    FlightBounds(s);
    if MayFill(s) {
      var t := FillStep(s);
      FillStepProgress(s);
      FillStepKeeps(s);
      SegmentOverruns(s);
      TurnOverruns(s);
      FillLoopKeeps(t);
      LoopOverruns(t);
      if MayFill(t) {
        LoopSends(t);
      }
    } else {
      NoOverrun(s);
    }
  }

  lemma LoopSends(s: Sender)
    requires FlightInv(s) && WindowInv(s) && s.retired > 0 && MayFill(s)
    ensures |FillLoop(s).firsts| > |s.firsts|
  {
    hide FlightInv, WindowInv, FillStep;
    FlightBounds(s);
    FillStepProgress(s);
    FillStepKeeps(s);
    FillStepAppends(s);
    FillLoopKeeps(FillStep(s));
  }

  lemma NoOverrun(s: Sender)
    requires !MayFill(s)
    ensures !Overruns(s)
  {
  }

  /** `fill_window` sends something past the window exactly when the rest of the stream fills it so, and then a FIN by
      one number. */
  lemma FillOverruns(s: Sender)
    requires FlightInv(s) && WindowInv(s)
    ensures OverrunsBy(s, FillWindow(s), s.nextAckno + s.remain)
  {
    hide FillLoop, Tiled, Total, FlightsOk;
    PhaseDecided(s);
    FlightBounds(s);
    if s.retired > 0 {
      LoopOverruns(s);
    }
  }

  // ----- Every run

  /** Over every run, `fill_window` sends something past the furthest edge ever offered exactly when it probes a closed
      window there, or overruns a window that reaches there; and then by one number, in the second case a FIN. */
  lemma PastOfferExactly(c: Config, es: seq<Event>)
    requires Legal(c, es)
    ensures var s, furthest := Run(c, es), Furthest(c, es);
            var s' := FillWindow(s);
            && (SendsPast(s, s', furthest) <==>
                  if Probing(s) then MayFill(s) && s.nextAckno == furthest
                  else Overruns(s) && s.nextAckno + s.remain == furthest)
            && (SendsPast(s, s', furthest) ==>
                  s'.nextSeqno == furthest + 1 && (Probing(s) || (s'.firsts != [] && s'.firsts[|s'.firsts| - 1].fin)))
  {
    hide Run, Furthest, FillWindow, FlightInv, WindowInv;
    var s := Run(c, es);
    RunKeeps(c, es);
    RunWithinOffer(c, es);
    FillOverruns(s);
    SendsSome(s);
    FlightBounds(s);
  }

  lemma SendsSome(s: Sender)
    requires FlightInv(s) && WindowInv(s)
    ensures var s' := FillWindow(s);
            && s.nextSeqno + (|s'.firsts| - |s.firsts|) <= s'.nextSeqno
            && (s.nextSeqno > 0 && !MayFill(s) ==> s' == s)
            && (s.retired > 0 && MayFill(s) ==> |s'.firsts| > |s.firsts|)
  {
    hide FlightsOk, Accounted, FillStep;
    var s' := FillWindow(s);
    PhaseDecided(s);
    FlightBounds(s);
    FillKeeps(s);
    TotalGrows(s'.firsts, |s.firsts|, |s'.firsts|);
    assert s'.firsts[..|s.firsts|] == s.firsts && s'.firsts[..|s'.firsts|] == s'.firsts;
    if s.retired > 0 && MayFill(s) {
      LoopSends(s);
    }
  }

  // ----- It does happen

  const FIRST := Flight(1, false, [7], false)
  const LAST := Flight(2, false, [8], true)

  /** A sender with initial sequence number 0 that was offered a window of `window`. */
  function Example(written: seq<Byte>, read: nat, ended: bool, nextSeqno: nat, firsts: seq<Flight>, retired: nat,
                   window: U16): Sender
    requires read <= |written| <= 10
  {
    Sender(0, StreamState(10, written, read, ended, false), nextSeqno, if retired == 0 then 0 else 1, firsts, retired,
           firsts, 0, 1000, 1000, window, window, 0)
  }

  lemma ExampleSyn()
    ensures FillWindow(Example([], 0, false, 0, [], 0, 1)) == Example([], 0, false, 1, [SYN], 0, 1)
  {
  }

  lemma ExampleAck()
    ensures var s := Example([], 0, false, 1, [SYN], 0, 1);
            AbsoluteAck(s, 1) == 1 && AckReceived(s, 1, 2) == Example([], 0, false, 1, [SYN], 1, 2)
  {
    RoundTrip(1, 0, 0);
    assert FindEnd([SYN], 0, 1) == Some(0);
  }

  lemma ExampleFirst()
    ensures FillWindow(Example([7], 0, false, 1, [SYN], 1, 2)) == Example([7], 1, false, 2, [SYN, FIRST], 1, 2)
  {
    var s, t := Example([7], 0, false, 1, [SYN], 1, 2), Example([7], 1, false, 2, [SYN, FIRST], 1, 2);
    assert NextFlight(s) == FIRST;
    assert FillStep(s) == t;
    assert FillLoop(s) == FillLoop(t) == t;
  }

  lemma ExampleLast()
    ensures FillWindow(Example([7, 8], 1, true, 2, [SYN, FIRST], 1, 2))
         == Example([7, 8], 2, true, 4, [SYN, FIRST, LAST], 1, 2)
  {
    var s := Example([7, 8], 1, true, 2, [SYN, FIRST], 1, 2);
    var t := Example([7, 8], 2, true, 4, [SYN, FIRST, LAST], 1, 2);
    assert NextFlight(s) == LAST;
    assert FillStep(s) == t;
    assert FillLoop(s) == FillLoop(t) == t;
  }

  /** The run has led to `s`, and `furthest` is the furthest edge offered. */
  predicate At(c: Config, es: seq<Event>, s: Sender, furthest: nat)
  {
    Legal(c, es) && Run(c, es) == s && Furthest(c, es) == furthest
  }

  lemma Then(c: Config, es: seq<Event>, s: Sender, furthest: nat, e: Event)
    requires At(c, es, s, furthest) && !e.Ack? && (e.Write? ==> Writable(s, e.data))
    ensures At(c, es + [e], Step(s, e), furthest)
  {
    hide Step;
    assert (es + [e])[..|es|] == es;
  }

  lemma ThenAck(c: Config, es: seq<Event>, s: Sender, furthest: nat, ackno: Seqno, win: U16)
    requires At(c, es, s, furthest) && InRange(s, ackno) && AbsoluteAck(s, ackno) + win > furthest
    ensures At(c, es + [Ack(ackno, win)], AckReceived(s, ackno, win), AbsoluteAck(s, ackno) + win)
  {
    hide AckReceived, InRange, AbsoluteAck;
    assert (es + [Ack(ackno, win)])[..|es|] == es;
  }

  lemma ExampleHandshake(c: Config) returns (es: seq<Event>)
    requires c == Config(10, 0, 1000)
    ensures At(c, es, Example([], 0, false, 1, [SYN], 1, 2), 3)
  {
    hide AckReceived, FillWindow, At, AbsoluteAck;
    ExampleStart(c);
    ExampleSyn();
    Then(c, [], Example([], 0, false, 0, [], 0, 1), 1, Fill);
    ExampleAck();
    ThenAck(c, [] + [Fill], Example([], 0, false, 1, [SYN], 0, 1), 1, 1, 2);
    es := [] + [Fill] + [Ack(1, 2)];
  }

  lemma ExampleStart(c: Config)
    requires c == Config(10, 0, 1000)
    ensures At(c, [], Example([], 0, false, 0, [], 0, 1), 1)
  {
  }

  lemma ExampleWrites()
    ensures Step(Example([], 0, false, 1, [SYN], 1, 2), Write([7])) == Example([7], 0, false, 1, [SYN], 1, 2)
    ensures Step(Example([7], 1, false, 2, [SYN, FIRST], 1, 2), Write([8]))
         == Example([7, 8], 1, false, 2, [SYN, FIRST], 1, 2)
  {
    assert [] + [7][..1] == [7] && [7] + [8][..1] == [7, 8];
  }

  /** The SYN is acknowledged with a window of two.  One byte is sent, then another with the FIN: it ends at 4, although
      nothing past 3 was ever offered. */
  lemma FinPastWindow() returns (c: Config, es: seq<Event>)
    ensures Legal(c, es) && Furthest(c, es) == 3
    ensures Run(c, es) == Example([7, 8], 2, true, 4, [SYN, FIRST, LAST], 1, 2) && End(LAST) == 4
  {
    hide FillWindow, Run, Legal, Furthest;
    c := Config(10, 0, 1000);
    es := ExampleHandshake(c);
    ExampleWrites();
    Then(c, es, Example([], 0, false, 1, [SYN], 1, 2), 3, Write([7]));
    ExampleFirst();
    Then(c, es + [Write([7])], Example([7], 0, false, 1, [SYN], 1, 2), 3, Fill);
    es := es + [Write([7])] + [Fill];
    Then(c, es, Example([7], 1, false, 2, [SYN, FIRST], 1, 2), 3, Write([8]));
    Then(c, es + [Write([8])], Example([7, 8], 1, false, 2, [SYN, FIRST], 1, 2), 3, EndInput);
    es := es + [Write([8])] + [EndInput];
    ExampleLast();
    Then(c, es, Example([7, 8], 1, true, 2, [SYN, FIRST], 1, 2), 3, Fill);
    es := es + [Fill];
  }

  /** And if a byte is written after that, its number is the one the FIN has. */
  lemma ByteAfterFin() returns (c: Config, es: seq<Event>)
    ensures Legal(c, es) && Run(c, es).stream.ended
    ensures var s := Run(c, es + [Write([9])]);
            && s.stream.written == [7, 8, 9] && s.firsts == [SYN, FIRST, LAST] && LAST.fin
            && End(LAST) == |s.stream.written| + 1 && !FlightInv(s)
  {
    hide FlightInv, WindowInv, Run, Legal;
    c, es := FinPastWindow();
    RunKeeps(c, es);
    var s := Run(c, es);
    WriteKeeps(s, [9]);
    assert [7, 8] + [9][..1] == [7, 8, 9];
    ReplayRun(c, es, [Write([9])]);
  }
}
