/** A TCP endpoint: a sender and a receiver, the flags that decide when it is done, and its outbound queue. */
module ConnectionSpec {
  import opened Words
  import opened Wrapping
  import opened ByteStreams
  import opened Segments
  import S = SenderSpec
  import R = ReceiverSpec

  const MAX_RETX_ATTEMPTS: nat := 8

  datatype Connection = Connection(
    sender: S.Sender, receiver: R.Receiver, out: seq<TcpSegment>,
    linger: bool, active: bool, sinceLast: U64, rtTimeout: U16)

  datatype Config = Config(receiveCapacity: Capacity, sendCapacity: nat, isn: Seqno, rtTimeout: U16)

  function NewConnection(c: Config): Connection
  {
    Connection(S.NewSender(c.sendCapacity, c.isn, c.rtTimeout), R.NewReceiver(c.receiveCapacity), [], true, true, 0,
        c.rtTimeout)
  }

  // ----- Outbound segments

  /** Once there is something to acknowledge, every segment does so; the window is cut to its 16-bit field. */
  function Stamped(r: R.Receiver, seg: TcpSegment): TcpSegment
  {
    match R.Ackno(r)
    case Some(ackno) => seg.(header := seg.header.(ack := true, ackno := ackno, win := R.WindowSize(r) % 0x1_0000))
    case None => seg
  }

  function StampedAll(r: R.Receiver, isn: Seqno, fs: seq<S.Flight>): seq<TcpSegment>
  {
    seq(|fs|, k requires 0 <= k < |fs| => Stamped(r, S.Concrete(isn, fs[k])))
  }

  function MoveOut(c: Connection): Connection
  {
    c.(sender := S.Step(c.sender, S.Drain), out := c.out + StampedAll(c.receiver, c.sender.isn, c.sender.queue))
  }

  // ----- Closing

  /** Both streams have ended and everything sent has been acknowledged. */
  predicate Finished(c: Connection)
  {
    c.receiver.asm.staged == map[] && AtEof(c.receiver.asm.out) && AtEof(c.sender.stream) && !S.Flying(c.sender)
  }

  /** The FIN has been sent. */
  predicate FinOut(s: S.Sender) { AtEof(s.stream) && s.nextSeqno == |s.stream.written| + 2 }

  function CloseCheck(c: Connection): Connection
  {
    var linger := c.linger && !(AtEof(c.receiver.asm.out) && !FinOut(c.sender));
    c.(linger := linger, active := c.active && !(!linger && Finished(c)))
  }

  function Failed(c: Connection): Connection
  {
    c.(active := false, sender := S.Step(c.sender, S.Fail), receiver := R.Errored(c.receiver))
  }

  // ----- Steps

  function Connect(c: Connection): Connection { MoveOut(c.(sender := S.FillWindow(c.sender))) }

  /** The receiver sees the segment first; a RST fails both streams. */
  function TakenIn(c: Connection, seg: TcpSegment): Connection
  {
    var d := c.(sinceLast := 0, receiver := R.Received(c.receiver, seg));
    if seg.header.rst then Failed(d) else d
  }

  /** Then the sender sees the acknowledgment, unless it has not even sent its SYN. */
  function AckTaken(c: Connection, header: TcpHeader): Connection
  {
    if c.sender.nextSeqno != 0 && header.ack then
      Connect(c.(sender := S.AckReceived(c.sender, header.ackno, header.win)))
    else c
  }

  /** A segment that occupies sequence space is answered. */
  function Answered(c: Connection): Connection
  {
    MoveOut(if c.out == [] then c.(sender := S.SendEmpty(c.sender)) else c)
  }

  function SegmentReceived(c: Connection, seg: TcpSegment): Connection
  {
    var d := AckTaken(TakenIn(c, seg), seg.header);
    if SequenceLength(seg) == 0 then CloseCheck(d)
    else if d.sender.nextSeqno == 0 then Connect(d)
    else CloseCheck(Answered(d))
  }

  predicate GivesUp(c: Connection, ms: U64) { S.Tick(c.sender, ms).timeouts > MAX_RETX_ATTEMPTS }

  function Tick(c: Connection, ms: U64): Connection
  {
    var d := c.(sender := S.Tick(c.sender, ms), sinceLast := Add64(c.sinceLast, ms));
    var done := d.sinceLast >= 10 * d.rtTimeout && Finished(d);
    if GivesUp(c, ms) then
      var e := Failed(d);
      e.(out := e.out + [TcpSegment(BLANK.(rst := true), [])], linger := false)
    else
      MoveOut(d.(active := d.active && !done))
  }

  datatype Event =
    | SegmentIn(seg: TcpSegment) | WriteOut(data: seq<Byte>) | EndOut | Open | TickBy(ms: U64)
    | ReadIn(len: nat) | Pop

  function Step(c: Connection, e: Event): Connection
  {
    match e
    case SegmentIn(seg) => SegmentReceived(c, seg)
    case WriteOut(data) => Connect(c.(sender := S.Step(c.sender, S.Write(data))))
    case EndOut => Connect(c.(sender := S.Step(c.sender, S.EndInput)))
    case Open => Connect(c)
    case TickBy(ms) => Tick(c, ms)
    case ReadIn(len) => c.(receiver := R.Step(c.receiver, R.ReadOut(len)))
    case Pop => if c.out == [] then c else c.(out := c.out[1..])
  }

  function Run(cfg: Config, es: seq<Event>): Connection
  {
    if es == [] then NewConnection(cfg) else Step(Run(cfg, es[..|es| - 1]), es[|es| - 1])
  }

  /** The owner does not write once the FIN is out, and the event loop ticks only an active connection. */
  predicate LegalHere(c: Connection, e: Event)
  {
    (e.WriteOut? ==> S.Writable(c.sender, e.data)) && (e.TickBy? ==> c.active)
  }

  predicate Legal(cfg: Config, es: seq<Event>)
  {
    es == [] || (Legal(cfg, es[..|es| - 1]) && LegalHere(Run(cfg, es[..|es| - 1]), es[|es| - 1]))
  }

  // ----- What a connection event does to the sender

  function SenderEvents(c: Connection, e: Event): seq<S.Event>
  {
    match e
    case SegmentIn(seg) =>
      var fail := if seg.header.rst then [S.Fail] else [];
      var ack := if c.sender.nextSeqno != 0 && seg.header.ack
                 then [S.Ack(seg.header.ackno, seg.header.win), S.Fill, S.Drain] else [];
      var d := AckTaken(TakenIn(c, seg), seg.header);
      var answer := if SequenceLength(seg) == 0 then []
                    else if d.sender.nextSeqno == 0 then [S.Fill, S.Drain]
                    else if d.out == [] then [S.Empty, S.Drain]
                    else [S.Drain];
      fail + ack + answer
    case WriteOut(data) => [S.Write(data), S.Fill, S.Drain]
    case EndOut => [S.EndInput, S.Fill, S.Drain]
    case Open => [S.Fill, S.Drain]
    case TickBy(ms) => if GivesUp(c, ms) then [S.TickBy(ms), S.Fail] else [S.TickBy(ms), S.Drain]
    case ReadIn(_) => []
    case Pop => []
  }
}
