/** The TCP sender as a state machine on absolute sequence numbers.  `firsts` lists every segment in
    the order of its first transmission; the first `retired` of them have been acknowledged and the
    others are in flight. */
module SenderSpec {
  import opened Words
  import opened Wrapping
  import opened ByteStreams
  import opened Segments

  const MAX_PAYLOAD: nat := 1000

  datatype Flight = Flight(start: nat, syn: bool, payload: seq<Byte>, fin: bool)

  function Len(f: Flight): nat { |f.payload| + (if f.syn then 1 else 0) + (if f.fin then 1 else 0) }

  function End(f: Flight): nat { f.start + Len(f) }

  /** The segment that goes out for `f`: the sender stores the number after it in the ackno field. */
  function Concrete(isn: Seqno, f: Flight): (seg: TcpSegment)
    ensures SequenceLength(seg) == Len(f)
  {
    var header := BLANK.(seqno := Wrap(f.start, isn), ackno := Wrap(End(f), isn), syn := f.syn, fin := f.fin,
        ack := f.fin);
    TcpSegment(header, f.payload)
  }

  datatype Sender = Sender(
    isn: Seqno, stream: Stream, nextSeqno: nat, nextAckno: nat,
    firsts: seq<Flight>, retired: nat, queue: seq<Flight>,
    timer: U64, rto: U64, initialRto: U16, window: U16, remain: U16, timeouts: U16)

  function NewSender(capacity: nat, isn: Seqno, initialRto: U16): Sender
  {
    Sender(isn, EmptyStream(capacity), 0, 0, [], 0, [], 0, initialRto, initialRto, 1, 1, 0)
  }

  predicate Flying(s: Sender) { s.retired < |s.firsts| }

  // ----- Phases

  datatype Phase = Closed | SynSent | SynAcked | SynAckedEof | FinSent | FinAcked

  function PhaseOf(nextSeqno: nat, inFlight: int, stream: Stream): Phase
  {
    if nextSeqno == 0 then Closed
    else if nextSeqno == inFlight then SynSent
    else if nextSeqno > inFlight && !AtEof(stream) then SynAcked
    else if AtEof(stream) && nextSeqno < |stream.written| + 2 then SynAckedEof
    else if AtEof(stream) && nextSeqno == |stream.written| + 2 && inFlight > 0 then FinSent
    else if AtEof(stream) && nextSeqno == |stream.written| + 2 && inFlight == 0 then FinAcked
    else Closed
  }

  function CurrentPhase(s: Sender): Phase { PhaseOf(s.nextSeqno, s.nextSeqno - s.nextAckno, s.stream) }

  // ----- Sending

  function Room(s: Sender): int { s.nextAckno + s.remain - s.nextSeqno }

  /** The loop test of `fill_window`. */
  predicate MayFill(s: Sender)
  {
    Room(s) > 0 && (Buffered(s.stream) > 0 || CurrentPhase(s) == SynAckedEof)
  }

  function ReadSize(s: Sender): nat
    requires Room(s) > 0
  {
    Min(Min(Room(s), Buffered(s.stream)), MAX_PAYLOAD)
  }

  /** The stream after the payload of the next segment has been read. */
  function ReadOn(s: Sender): Stream
    requires Room(s) > 0
  {
    s.stream.(read := s.stream.read + ReadSize(s))
  }

  /** The next segment takes what the window leaves room for.  It carries the FIN when the stream is then at its
      end and the whole remaining window, not just the room left in it, exceeds the payload. */
  function NextFlight(s: Sender): Flight
    requires Room(s) > 0
  {
    var n := ReadSize(s);
    Flight(s.nextSeqno, false, s.stream.written[s.stream.read..s.stream.read + n], s.remain > n && AtEof(ReadOn(s)))
  }

  function FillStep(s: Sender): Sender
    requires Room(s) > 0
  {
    var f := NextFlight(s);
    s.(stream := ReadOn(s), nextSeqno := s.nextSeqno + Len(f), firsts := s.firsts + [f], queue := s.queue + [f],
       remain := if s.remain != s.window then 0 else s.remain)
  }

  /** Bytes and FIN still to be sent. */
  function Unsent(s: Sender): nat
  {
    Buffered(s.stream) + (if s.nextSeqno < |s.stream.written| + 2 then |s.stream.written| + 2 - s.nextSeqno else 0)
  }

  lemma FillStepProgress(s: Sender)
    requires MayFill(s) && s.nextAckno <= s.nextSeqno
    ensures Len(NextFlight(s)) >= 1
    ensures Unsent(FillStep(s)) < Unsent(s)
    ensures FillStep(s).nextAckno <= FillStep(s).nextSeqno
  {
  }

  /** The loop of `fill_window`.  The second conjunct holds in every reachable state; it makes the recursion
      well founded on all states. */
  function FillLoop(s: Sender): Sender
    decreases Unsent(s)
  {
    if MayFill(s) && s.nextAckno <= s.nextSeqno then
      FillStepProgress(s);
      FillLoop(FillStep(s))
    else
      s
  }

  /** What the loop leaves alone, and that what it queues it has sent. */
  lemma {:induction false} FillLoopFrame(s: Sender)
    ensures var t := FillLoop(s);
            && t == s.(stream := t.stream, nextSeqno := t.nextSeqno, firsts := t.firsts, queue := t.queue,
                       remain := t.remain)
            && t.stream == s.stream.(read := t.stream.read)
            && s.stream.read <= t.stream.read && s.nextSeqno <= t.nextSeqno
            && s.firsts <= t.firsts && s.queue <= t.queue
            && (forall f | f in t.queue :: f in s.queue || f in t.firsts)
    decreases Unsent(s)
  {
    if MayFill(s) && s.nextAckno <= s.nextSeqno {
      var t := FillStep(s);
      FillStepProgress(s);
      FillLoopFrame(t);
      assert NextFlight(s) in t.firsts;
    }
  }

  /** Once everything is out, FIN included, the loop does nothing. */
  lemma NothingToFill(s: Sender)
    requires AtEof(s.stream) && s.nextSeqno == |s.stream.written| + 2
    ensures FillLoop(s) == s
  {
  }

  const SYN: Flight := Flight(0, true, [], false)

  function SendSyn(s: Sender): Sender
  {
    s.(nextSeqno := s.nextSeqno + 1, firsts := s.firsts + [SYN], queue := s.queue + [SYN], timer := 0)
  }

  function FillWindow(s: Sender): Sender
  {
    match CurrentPhase(s)
    case Closed => SendSyn(s)
    case SynSent => s
    case _ => FillLoop(s)
  }

  // ----- Acknowledgments

  function AbsoluteAck(s: Sender, ackno: Seqno): U64 { Unwrap(ackno, s.isn, Low64(s.nextAckno)) }

  /** An acknowledgment is in range when it does not go back and does not run ahead. */
  predicate InRange(s: Sender, ackno: Seqno) { s.nextAckno <= AbsoluteAck(s, ackno) <= s.nextSeqno }

  /** Position of the newest segment in flight that ends at `a`. */
  function FindEnd(firsts: seq<Flight>, retired: nat, a: nat): (r: Option<nat>)
    ensures r.Some? ==> retired <= r.value < |firsts| && End(firsts[r.value]) == a
    ensures r.None? ==> forall k | retired <= k < |firsts| :: End(firsts[k]) != a
  {
    if |firsts| <= retired then None
    else if End(firsts[|firsts| - 1]) == a then Some(|firsts| - 1)
    else FindEnd(firsts[..|firsts| - 1], retired, a)
  }

  /** With a closed window and nothing in flight one byte may be sent to probe it. */
  function Reopened(window: U16, idle: bool): U16 { if window == 0 && idle then 1 else window }

  /** Takes in the window of an acknowledgment that is in range, and retires everything up to the segment it ends. */
  function Acknowledged(s: Sender, ackno: Seqno, win: U16): Sender
  {
    var a := AbsoluteAck(s, ackno);
    var window := if InRange(s, ackno) then win else s.window;
    match FindEnd(s.firsts, s.retired, a)
    case Some(k) =>
      s.(window := window, nextAckno := a, retired := k + 1, timeouts := 0, timer := 0, rto := s.initialRto)
    case None =>
      s.(window := window)
  }

  /** The remaining window is recomputed, unless nothing was retired and the number is above that of the oldest
      segment in flight, both taken as plain 32-bit numbers. */
  function AckReceived(s: Sender, ackno: Seqno, win: U16): Sender
  {
    var t := Acknowledged(s, ackno, win);
    if t.retired == s.retired && Flying(t) && Wrap(t.firsts[t.retired].start, t.isn) < ackno then t
    else t.(remain := Reopened(t.window, !Flying(t)))
  }

  // ----- Time

  predicate Expires(s: Sender, ms: U64) { Flying(s) && Add64(s.timer, ms) >= s.rto }

  function Tick(s: Sender, ms: U64): Sender
  {
    if Expires(s, ms) then
      s.(queue := s.queue + [s.firsts[s.retired]], timer := 0,
         rto := if s.window != 0 then Add64(s.rto, s.rto) else s.rto,
         timeouts := if s.timeouts < 0xffff then s.timeouts + 1 else 0)
    else
      s.(timer := if Flying(s) then Add64(s.timer, ms) else s.timer)
  }

  function SendEmpty(s: Sender): Sender
  {
    s.(queue := s.queue + [Flight(s.nextSeqno, false, [], false)])
  }

  // ----- Runs

  /** `Fail` marks the stream as failed; `Drain` is the owner taking every queued segment. */
  datatype Event =
    | Write(data: seq<Byte>) | EndInput | Fail
    | Fill | Ack(ackno: Seqno, win: U16) | TickBy(ms: U64) | Empty | Drain

  function Step(s: Sender, e: Event): Sender
  {
    match e
    case Write(data) => s.(stream := Written(s.stream, data))
    case EndInput => s.(stream := s.stream.(ended := true))
    case Fail => s.(stream := s.stream.(error := true))
    case Fill => FillWindow(s)
    case Ack(ackno, win) => AckReceived(s, ackno, win)
    case TickBy(ms) => Tick(s, ms)
    case Empty => SendEmpty(s)
    case Drain => s.(queue := [])
  }

  datatype Config = Config(capacity: nat, isn: Seqno, initialRto: U16)

  function Run(c: Config, es: seq<Event>): Sender
  {
    if es == [] then NewSender(c.capacity, c.isn, c.initialRto)
    else Step(Run(c, es[..|es| - 1]), es[|es| - 1])
  }

  /** A write that the end of the stream does not forbid: nothing more is accepted once the FIN is out. */
  predicate Writable(s: Sender, data: seq<Byte>)
  {
    !s.stream.ended || s.nextSeqno != |s.stream.written| + 2 || Written(s.stream, data) == s.stream
  }

  predicate Legal(c: Config, es: seq<Event>)
  {
    es == [] ||
    var s, e := Run(c, es[..|es| - 1]), es[|es| - 1];
    Legal(c, es[..|es| - 1]) && (e.Write? ==> Writable(s, e.data))
  }

  /** A run that starts anywhere. */
  function Replay(s: Sender, es: seq<Event>): Sender
  {
    if es == [] then s else Step(Replay(s, es[..|es| - 1]), es[|es| - 1])
  }

  lemma {:induction false} ReplayRun(c: Config, es: seq<Event>, more: seq<Event>)
    ensures Run(c, es + more) == Replay(Run(c, es), more)
  {
    hide Step;
    if more == [] {
      assert es + more == es;
    } else {
      assert (es + more)[..|es + more| - 1] == es + more[..|more| - 1];
      ReplayRun(c, es, more[..|more| - 1]);
    }
  }
}
