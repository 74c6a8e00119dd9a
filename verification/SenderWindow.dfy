/** What an acknowledgment makes of the remaining window, and how far filling then goes. */
module SenderWindow {
  import opened Words
  import opened Wrapping
  import opened SenderSpec
  import opened SenderInvariant
  import opened SenderRuns

  // ----- One acknowledgment

  /** `a` is the end of a segment in flight. */
  predicate EndsInFlight(s: Sender, a: nat) { exists k | s.retired <= k < |s.firsts| :: End(s.firsts[k]) == a }

  /** An acknowledgment that ends at the end of a segment in flight retires everything before it, and from there on the
      whole offered window remains; one number to probe with when it is closed and nothing is left in flight. */
  lemma RetiringAck(s: Sender, ackno: Seqno, win: U16)
    requires FlightInv(s) && WindowInv(s) && EndsInFlight(s, AbsoluteAck(s, ackno))
    ensures var a, t := AbsoluteAck(s, ackno), AckReceived(s, ackno, win);
            && t.nextAckno == a && t.nextSeqno == s.nextSeqno && t.firsts == s.firsts && t.stream == s.stream
            && t.window == win && t.retired > s.retired
            && (if win == 0 && a == s.nextSeqno then t.remain == 1 else t.nextAckno + t.remain == a + win)
            && (Flying(t) <==> a < s.nextSeqno)
  {
    hide Tiled, Total, FlightsOk, AbsoluteAck;
    var a := AbsoluteAck(s, ackno);
    var found := FindEnd(s.firsts, s.retired, a);
    InFlightBounds(s, found.value);
    AckKeeps(s, ackno, win);
    FlightBounds(AckReceived(s, ackno, win));
    FlightBounds(s);
  }

  /** An acknowledgment of what is already acknowledged, with nothing in flight, still brings a new window. */
  lemma IdleAck(s: Sender, ackno: Seqno, win: U16)
    requires FlightInv(s) && WindowInv(s) && !Flying(s) && AbsoluteAck(s, ackno) == s.nextAckno
    ensures AckReceived(s, ackno, win) == s.(window := win, remain := if win == 0 then 1 else win)
  {
    hide Tiled, Total, FlightsOk, AbsoluteAck;
    FlightBounds(s);
  }

  /** An acknowledgment out of range retires nothing and offers nothing; at most the remaining window returns to the
      offered one, when the number does not exceed that of the oldest segment in flight as a 32-bit number. */
  lemma OutOfRangeAck(s: Sender, ackno: Seqno, win: U16)
    requires FlightInv(s) && WindowInv(s) && !(s.nextAckno <= AbsoluteAck(s, ackno) <= s.nextSeqno)
    ensures AckReceived(s, ackno, win) ==
              if !Flying(s) then s.(remain := if s.window == 0 then 1 else s.window)
              else if ackno <= Wrap(s.nextAckno, s.isn) then s.(remain := s.window)
              else s
  {
    hide Tiled, Total, FlightsOk, AbsoluteAck, Wrap;
    var found := FindEnd(s.firsts, s.retired, AbsoluteAck(s, ackno));
    if found.Some? {
      InFlightBounds(s, found.value);
    }
    if Flying(s) {
      InFlightBounds(s, s.retired);
    }
  }

  // ----- Filling

  lemma {:induction false} LoopKeepsRemain(s: Sender)
    requires s.remain == s.window
    ensures FillLoop(s).remain == s.remain
    decreases Unsent(s)
  {
    if MayFill(s) && s.nextAckno <= s.nextSeqno {
      FillStepProgress(s);
      LoopKeepsRemain(FillStep(s));
      hide NextFlight;
    }
  }

  /** A window that is all there is used up: whatever is left unsent, bytes or the FIN, is left because the window is
      full. */
  lemma FillUsesWindow(s: Sender)
    requires FlightInv(s) && WindowInv(s) && s.retired > 0 && s.remain == s.window
    ensures HasUnsent(FillWindow(s)) ==> FillWindow(s).nextSeqno >= s.nextAckno + s.window
  {
    hide FillLoop, Tiled, Total, FlightsOk;
    PhaseDecided(s);
    FlightBounds(s);
    FillLoopKeeps(s);
    FillLoopFrame(s);
    LoopKeepsRemain(s);
    PhaseDecided(FillLoop(s));
  }

  /** A probe sends one number, if there is anything to send. */
  lemma FillProbes(s: Sender)
    requires FlightInv(s) && WindowInv(s) && s.retired > 0 && Probing(s)
    ensures HasUnsent(s) ==> FillWindow(s).nextSeqno == s.nextSeqno + 1
  {
    hide Tiled, Total, FlightsOk;
    PhaseDecided(s);
    FlightBounds(s);
    if MayFill(s) {
      FillStepProgress(s);
      assert FillLoop(s) == FillLoop(FillStep(s)) == FillStep(s);
    }
  }

  /** Over every run: after an acknowledgment that retires a segment, filling leaves something unsent only when it has
      reached the edge that was just offered, or has one number out to probe a closed window. */
  lemma OfferUsed(c: Config, es: seq<Event>, ackno: Seqno, win: U16)
    requires Legal(c, es) && EndsInFlight(Run(c, es), AbsoluteAck(Run(c, es), ackno))
    ensures var s := Run(c, es);
            var a := AbsoluteAck(s, ackno);
            var t := Run(c, es + [Ack(ackno, win)] + [Fill]);
            HasUnsent(t) ==> if win == 0 && a == s.nextSeqno then t.nextSeqno == a + 1 else t.nextSeqno >= a + win
  {
    hide FillWindow, AckReceived, AbsoluteAck, FlightInv, WindowInv, EndsInFlight, HasUnsent;
    var s := Run(c, es);
    var u := AckReceived(s, ackno, win);
    RunKeeps(c, es);
    RetiringAck(s, ackno, win);
    AckKeeps(s, ackno, win);
    FlightBounds(u);
    FlightBounds(s);
    assert (es + [Ack(ackno, win)])[..|es|] == es;
    assert (es + [Ack(ackno, win)] + [Fill])[..|es| + 1] == es + [Ack(ackno, win)];
    if win == 0 && AbsoluteAck(s, ackno) == s.nextSeqno {
      FillProbes(u);
      if HasUnsent(FillWindow(u)) {
        UnsentBefore(u);
      }
    } else {
      FillUsesWindow(u);
    }
  }

  lemma UnsentBefore(s: Sender)
    requires FlightInv(s) && HasUnsent(FillWindow(s))
    ensures HasUnsent(s)
  {
    hide FillLoop, Tiled, Total, FlightsOk;
    FillLoopFrame(s);
  }

  /** Every segment that is followed by another in the same filling is as large as a segment may be. */
  lemma {:induction false} FullSegments(s: Sender, k: nat)
    requires FlightInv(s) && WindowInv(s) && s.retired > 0 && |s.firsts| <= k < |FillLoop(s).firsts| - 1
    ensures |FillLoop(s).firsts[k].payload| == MAX_PAYLOAD
    decreases Unsent(s)
  {
    hide FlightInv, WindowInv;
    FlightBounds(s);
    if MayFill(s) {
      var t := FillStep(s);
      FillStepProgress(s);
      FillStepKeeps(s);
      FillLoopFrame(t);
      if k == |s.firsts| {
        if |NextFlight(s).payload| < MAX_PAYLOAD {
          LastUnlessFull(s);
        }
        assert FillLoop(s).firsts[k] == t.firsts[k] == NextFlight(s);
      } else {
        FullSegments(t, k);
      }
    }
  }

  lemma LastUnlessFull(s: Sender)
    requires FlightInv(s) && MayFill(s) && s.retired > 0 && |NextFlight(s).payload| < MAX_PAYLOAD
    ensures !MayFill(FillStep(s))
  {
    hide Tiled, Total, FlightsOk;
    FlightBounds(s);
  }
}
