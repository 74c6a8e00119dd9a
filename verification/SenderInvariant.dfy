/** What holds of the sender in every reachable state. */
module SenderInvariant {
  import opened Words
  import opened Wrapping
  import opened ByteStreams
  import opened SenderSpec

  // ----- Tiling

  /** Sequence numbers taken up by the segments of `fs`. */
  function Total(fs: seq<Flight>): nat
  {
    if fs == [] then 0 else Total(fs[..|fs| - 1]) + Len(fs[|fs| - 1])
  }

  /** The segments follow each other from 0 without gap or overlap, and none is empty. */
  predicate Tiled(fs: seq<Flight>)
  {
    fs == [] ||
    (Tiled(fs[..|fs| - 1]) && fs[|fs| - 1].start == Total(fs[..|fs| - 1]) && Len(fs[|fs| - 1]) >= 1)
  }

  lemma TiledAppend(fs: seq<Flight>, f: Flight)
    ensures Total(fs + [f]) == Total(fs) + Len(f)
    ensures Tiled(fs + [f]) <==> Tiled(fs) && f.start == Total(fs) && Len(f) >= 1
  {
    assert (fs + [f])[..|fs|] == fs;
  }

  lemma {:induction false} TiledAt(fs: seq<Flight>, k: nat)
    requires Tiled(fs) && k < |fs|
    ensures fs[k].start == Total(fs[..k]) && Len(fs[k]) >= 1 && End(fs[k]) == Total(fs[..k + 1])
    ensures Tiled(fs[..k])
  {
    if k < |fs| - 1 {
      var init := fs[..|fs| - 1];
      TiledAt(init, k);
      assert init[..k] == fs[..k] && init[..k + 1] == fs[..k + 1];
    } else {
      assert fs[..k + 1] == fs;
    }
  }

  lemma {:induction false} TotalGrows(fs: seq<Flight>, j: nat, k: nat)
    requires Tiled(fs) && j <= k <= |fs|
    ensures Total(fs[..j]) + (k - j) <= Total(fs[..k])
    decreases k
  {
    if j < k {
      TotalGrows(fs, j, k - 1);
      TiledAt(fs, k - 1);
    }
  }

  // ----- The invariant

  /** `f` is the SYN, or a slice of the written stream, with the FIN only at its very end. */
  predicate FlightOk(f: Flight, stream: Stream)
  {
    if f.start == 0 then f == SYN
    else
      && !f.syn && |f.payload| <= MAX_PAYLOAD
      && f.start - 1 + |f.payload| <= stream.read
      && f.payload == stream.written[f.start - 1..f.start - 1 + |f.payload|]
      && (f.fin ==> stream.ended && End(f) == |stream.written| + 2)
  }

  predicate FlightsOk(fs: seq<Flight>, stream: Stream) { forall f | f in fs :: FlightOk(f, stream) }

  /** What has been sent is the SYN, the bytes read, and the FIN once everything has been read. */
  predicate Accounted(s: Sender)
  {
    if s.nextSeqno == 0 then s.stream.read == 0
    else s.nextSeqno == s.stream.read + 1 || (s.nextSeqno == s.stream.read + 2 && AtEof(s.stream))
  }

  /** The tracked segments tile `[nextAckno, nextSeqno)`. */
  predicate FlightInv(s: Sender)
  {
    && s.retired <= |s.firsts|
    && Tiled(s.firsts)
    && s.nextSeqno == Total(s.firsts)
    && s.nextAckno == Total(s.firsts[..s.retired])
    && FlightsOk(s.firsts, s.stream)
    && Accounted(s)
    && (s.retired == 0 ==> |s.firsts| <= 1)
  }

  /** At most 2^16 numbers are in flight, and an idle sender may send. */
  predicate WindowInv(s: Sender)
  {
    && s.nextSeqno - s.nextAckno <= 0x1_0000
    && (!Flying(s) ==> s.remain >= 1)
  }

  lemma FlightBounds(s: Sender)
    requires FlightInv(s)
    ensures s.nextAckno <= s.nextSeqno && (s.nextAckno == s.nextSeqno <==> !Flying(s))
    ensures s.nextAckno == 0 <==> s.retired == 0
    ensures s.nextSeqno == 0 <==> s.firsts == []
  {
    assert s.firsts[..|s.firsts|] == s.firsts && s.firsts[..0] == [];
    TotalGrows(s.firsts, s.retired, |s.firsts|);
    TotalGrows(s.firsts, 0, s.retired);
    TotalGrows(s.firsts, 0, |s.firsts|);
  }

  /** A segment in flight lies between the acknowledged mark and the next number. */
  lemma InFlightBounds(s: Sender, k: nat)
    requires FlightInv(s) && s.retired <= k < |s.firsts|
    ensures s.nextAckno <= s.firsts[k].start < End(s.firsts[k]) <= s.nextSeqno
    ensures End(s.firsts[k]) == Total(s.firsts[..k + 1])
    ensures k == s.retired ==> s.firsts[k].start == s.nextAckno
  {
    TiledAt(s.firsts, k);
    TotalGrows(s.firsts, s.retired, k);
    TotalGrows(s.firsts, k + 1, |s.firsts|);
    assert s.firsts[..|s.firsts|] == s.firsts;
  }

  // ----- Each operation keeps it

  /** A stream takes writes even after its end.  They do no harm exactly as long as the FIN is not out. */
  lemma WriteKeeps(s: Sender, data: seq<Byte>)
    requires FlightInv(s) && WindowInv(s)
    ensures var s' := Step(s, Write(data)); WindowInv(s') && (FlightInv(s') <==> Writable(s, data))
  {
    hide Tiled, Total;
    var s' := Step(s, Write(data));
    if Writable(s, data) && s'.stream != s.stream {
      forall f | f in s.firsts
        ensures FlightOk(f, s'.stream)
      {
        assert FlightOk(f, s.stream);
        if f.fin {
          FinOut(s, f);
        }
      }
    }
  }

  lemma FinOut(s: Sender, f: Flight)
    requires FlightInv(s) && f in s.firsts && f.fin
    ensures s.stream.ended && s.nextSeqno == |s.stream.written| + 2
  {
    var k :| 0 <= k < |s.firsts| && s.firsts[k] == f;
    assert FlightOk(f, s.stream);
    TiledAt(s.firsts, k);
    TotalGrows(s.firsts, k + 1, |s.firsts|);
    assert s.firsts[..|s.firsts|] == s.firsts;
  }

  lemma EndKeeps(s: Sender)
    requires FlightInv(s) && WindowInv(s)
    ensures var s' := Step(s, EndInput); FlightInv(s') && WindowInv(s')
  {
    var s' := Step(s, EndInput);
    forall f | f in s.firsts
      ensures FlightOk(f, s'.stream)
    {
      assert FlightOk(f, s.stream);
    }
  }

  lemma FailKeeps(s: Sender)
    requires FlightInv(s) && WindowInv(s)
    ensures var s' := Step(s, Fail); FlightInv(s') && WindowInv(s')
  {
    var s' := Step(s, Fail);
    forall f | f in s.firsts
      ensures FlightOk(f, s'.stream)
    {
      assert FlightOk(f, s.stream);
    }
  }

  lemma ReadingKeepsFlights(fs: seq<Flight>, stream: Stream, stream': Stream)
    requires FlightsOk(fs, stream) && stream' == stream.(read := stream'.read) && stream.read <= stream'.read
    ensures FlightsOk(fs, stream')
  {
    forall f | f in fs
      ensures FlightOk(f, stream')
    {
      assert FlightOk(f, stream);
    }
  }

  lemma NextFlightOk(s: Sender)
    requires Accounted(s) && MayFill(s) && 0 < s.nextAckno <= s.nextSeqno
    ensures FlightOk(NextFlight(s), ReadOn(s)) && Len(NextFlight(s)) >= 1
    ensures Accounted(FillStep(s))
  {
    FillStepProgress(s);
  }

  lemma FillStepKeeps(s: Sender)
    requires FlightInv(s) && WindowInv(s) && MayFill(s) && s.retired > 0
    ensures FlightInv(FillStep(s)) && WindowInv(FillStep(s))
    ensures FillStep(s).retired == s.retired && FillStep(s).nextAckno == s.nextAckno
  {
    FlightBounds(s);
    NextFlightOk(s);
    var f, s' := NextFlight(s), FillStep(s);
    TiledAppend(s.firsts, f);
    hide NextFlight, FlightOk, Tiled, Total, Accounted;
    ReadingKeepsFlights(s.firsts, s.stream, s'.stream);
    assert s'.firsts[..s.retired] == s.firsts[..s.retired];
  }

  lemma {:induction false} FillLoopKeeps(s: Sender)
    requires FlightInv(s) && WindowInv(s) && s.retired > 0
    ensures FlightInv(FillLoop(s)) && WindowInv(FillLoop(s)) && !MayFill(FillLoop(s))
    ensures FillLoop(s).retired == s.retired && s.firsts <= FillLoop(s).firsts
    decreases Unsent(s)
  {
    hide FlightInv, WindowInv, FillStep;
    FlightBounds(s);
    if MayFill(s) {
      FillStepProgress(s);
      FillStepKeeps(s);
      FillStepAppends(s);
      FillLoopKeeps(FillStep(s));
    }
  }

  lemma FillStepAppends(s: Sender)
    requires MayFill(s)
    ensures FillStep(s).firsts == s.firsts + [NextFlight(s)]
  {
  }

  /** The fall-through at the end of `_current_state` is never taken. */
  lemma PhaseDecided(s: Sender)
    requires FlightInv(s)
    ensures CurrentPhase(s) == Closed <==> s.nextSeqno == 0
    ensures CurrentPhase(s) == SynSent <==> s.retired == 0 && s.firsts != []
    ensures CurrentPhase(s) == SynAckedEof <==>
              s.retired > 0 && AtEof(s.stream) && s.nextSeqno == |s.stream.written| + 1
    ensures CurrentPhase(s) in {FinSent, FinAcked} <==> s.retired > 0 && s.nextSeqno == |s.stream.written| + 2
    ensures CurrentPhase(s) == FinAcked ==> s.nextAckno == |s.stream.written| + 2
  {
    FlightBounds(s);
  }

  lemma SynKeeps(s: Sender)
    requires FlightInv(s) && WindowInv(s) && s.nextSeqno == 0
    ensures FlightInv(SendSyn(s)) && WindowInv(SendSyn(s))
  {
    FlightBounds(s);
    TiledAppend(s.firsts, SYN);
    assert SendSyn(s).firsts[..s.retired] == s.firsts[..s.retired];
  }

  lemma FillKeeps(s: Sender)
    requires FlightInv(s) && WindowInv(s)
    ensures FlightInv(FillWindow(s)) && WindowInv(FillWindow(s))
    ensures FillWindow(s).retired == s.retired && s.firsts <= FillWindow(s).firsts
  {
    hide FlightInv, WindowInv, FillLoop;
    PhaseDecided(s);
    FlightBounds(s);
    match CurrentPhase(s)
    case Closed => SynKeeps(s);
    case SynSent =>
    case _ => FillLoopKeeps(s);
  }

  lemma AckKeeps(s: Sender, ackno: Seqno, win: U16)
    requires FlightInv(s) && WindowInv(s)
    ensures FlightInv(AckReceived(s, ackno, win)) && WindowInv(AckReceived(s, ackno, win))
  {
    hide AbsoluteAck, Tiled, Total, FlightsOk;
    FlightBounds(s);
    var found := FindEnd(s.firsts, s.retired, AbsoluteAck(s, ackno));
    if found.Some? {
      InFlightBounds(s, found.value);
    }
  }

  lemma TickKeeps(s: Sender, ms: U64)
    requires FlightInv(s) && WindowInv(s)
    ensures FlightInv(Tick(s, ms)) && WindowInv(Tick(s, ms))
  {
    hide Tiled, Total, FlightsOk;
  }

  lemma StepKeeps(s: Sender, e: Event)
    requires FlightInv(s) && WindowInv(s) && (e.Write? ==> Writable(s, e.data))
    ensures FlightInv(Step(s, e)) && WindowInv(Step(s, e))
  {
    hide FillWindow, AckReceived, Tick;
    match e
    case Write(data) => WriteKeeps(s, data);
    case EndInput => EndKeeps(s);
    case Fail => FailKeeps(s);
    case Fill => FillKeeps(s);
    case Ack(ackno, win) => AckKeeps(s, ackno, win);
    case TickBy(ms) => TickKeeps(s, ms);
    case Empty =>
    case Drain =>
  }

  /** In every reachable state the tracked segments, oldest first, tile the numbers from `nextAckno` to
      `nextSeqno`, each is its slice of the written stream, and at most 2^16 numbers are in flight. */
  lemma {:induction false} RunKeeps(c: Config, es: seq<Event>)
    requires Legal(c, es)
    ensures FlightInv(Run(c, es)) && WindowInv(Run(c, es))
  {
    hide FlightInv, WindowInv, Step;
    if es == [] {
      NewKeeps(c);
    } else {
      RunKeeps(c, es[..|es| - 1]);
      StepKeeps(Run(c, es[..|es| - 1]), es[|es| - 1]);
    }
  }

  lemma NewKeeps(c: Config)
    ensures FlightInv(NewSender(c.capacity, c.isn, c.initialRto))
              && WindowInv(NewSender(c.capacity, c.isn, c.initialRto))
  {
  }

  // ----- Consequences

  /** Among the first transmissions there is at most one SYN and at most one FIN, and the FIN comes last. */
  lemma OneSynOneFin(s: Sender, k: nat)
    requires FlightInv(s) && k < |s.firsts|
    ensures s.firsts[k].syn <==> k == 0
    ensures s.firsts[k].fin ==> k == |s.firsts| - 1
  {
    var f := s.firsts[k];
    assert FlightOk(f, s.stream);
    TiledAt(s.firsts, k);
    assert s.firsts[..0] == [] && s.firsts[..|s.firsts|] == s.firsts;
    TotalGrows(s.firsts, 0, k);
    TotalGrows(s.firsts, k + 1, |s.firsts|);
  }

  /** Something remains to be sent: buffered bytes, or the FIN of an ended stream. */
  predicate HasUnsent(s: Sender)
  {
    Buffered(s.stream) > 0 || (s.stream.ended && s.nextSeqno < |s.stream.written| + 2)
  }

  /** The sender never stalls: after `fill_window`, either nothing is left to send or something is in flight. */
  lemma NeverStalls(s: Sender)
    requires FlightInv(s) && WindowInv(s)
    ensures HasUnsent(FillWindow(s)) ==> Flying(FillWindow(s))
  {
    hide FillLoop;
    PhaseDecided(s);
    FlightBounds(s);
    FillKeeps(s);
    if s.retired > 0 {
      FillLoopKeeps(s);
      var s' := FillWindow(s);
      FlightBounds(s');
      PhaseDecided(s');
    }
  }
}
