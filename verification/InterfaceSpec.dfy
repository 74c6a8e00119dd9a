/** The network interface: a timed table of hardware addresses and a queue of datagrams waiting for one. */
module InterfaceSpec {
  import opened Words
  import opened Internet

  const REQUEST_INTERVAL: nat := 5000
  const ENTRY_LIFETIME: nat := 30000

  datatype Entry = Entry(mac: Mac, expiry: nat)

  /** A datagram waiting for the address of its next hop; no second request goes out before `expiry`. */
  datatype Waiting = Waiting(dgram: Datagram, hop: Ip, expiry: nat)

  datatype Interface = Interface(mac: Mac, ip: Ip, timer: nat, table: map<Ip, Entry>, waiting: seq<Waiting>)

  /** What the interface puts on the link. */
  datatype Emission = Data(dgram: Datagram, hop: Ip, dst: Mac) | Request(hop: Ip) | Reply(to: Arp)

  function FrameOf(mac: Mac, ip: Ip, e: Emission): OutFrame
  {
    match e
    case Data(dgram, _, dst) => Ipv4Frame(mac, dst, dgram)
    case Request(hop) => ArpFrame(mac, BROADCAST, Arp(true, ip, mac, hop, 0))
    case Reply(to) => ArpFrame(mac, to.senderMac, Arp(false, ip, mac, to.senderIp, to.senderMac))
  }

  function FramesOf(mac: Mac, ip: Ip, es: seq<Emission>): seq<OutFrame>
  {
    seq(|es|, k requires 0 <= k < |es| => FrameOf(mac, ip, es[k]))
  }

  // ----- Sending a datagram

  predicate RequestPending(i: Interface, hop: Ip)
  {
    exists k | 0 <= k < |i.waiting| :: i.waiting[k].hop == hop && i.waiting[k].expiry > i.timer
  }

  function SendEmissions(i: Interface, dgram: Datagram, hop: Ip): seq<Emission>
  {
    if hop in i.table then [Data(dgram, hop, i.table[hop].mac)]
    else if RequestPending(i, hop) then []
    else [Request(hop)]
  }

  function Sent(i: Interface, dgram: Datagram, hop: Ip): Interface
  {
    if hop in i.table then i
    else if RequestPending(i, hop) then i.(waiting := i.waiting + [Waiting(dgram, hop, i.timer)])
    else i.(waiting := i.waiting + [Waiting(dgram, hop, i.timer + REQUEST_INTERVAL)])
  }

  // ----- Receiving a frame

  function Received(i: Interface, frame: InFrame): Option<Datagram>
  {
    if (frame.dst == i.mac || frame.dst == BROADCAST) && frame.body.Ipv4Body? then frame.body.dgram else None
  }

  /** The ARP message the interface learns from, if any. */
  function Heeded(i: Interface, frame: InFrame): Option<Arp>
  {
    if (frame.dst == i.mac || frame.dst == BROADCAST) && frame.body.OtherBody? then frame.body.arp else None
  }

  function Learned(i: Interface, arp: Arp): Interface
  {
    i.(table := i.table[arp.senderIp := Entry(arp.senderMac, i.timer + ENTRY_LIFETIME)])
  }

  /** The waiting datagrams whose next hop is in the table, in order. */
  function Released(waiting: seq<Waiting>, table: map<Ip, Entry>): seq<Emission>
  {
    if waiting == [] then []
    else
      var w := waiting[|waiting| - 1];
      Released(waiting[..|waiting| - 1], table)
          + (if w.hop in table then [Data(w.dgram, w.hop, table[w.hop].mac)] else [])
  }

  function Kept(waiting: seq<Waiting>, table: map<Ip, Entry>): seq<Waiting>
  {
    if waiting == [] then []
    else
      var w := waiting[|waiting| - 1];
      Kept(waiting[..|waiting| - 1], table) + (if w.hop in table then [] else [w])
  }

  function ArpEmissions(i: Interface, arp: Arp): seq<Emission>
  {
    (if arp.request && arp.targetIp == i.ip then [Reply(arp)] else []) + Released(i.waiting, Learned(i, arp).table)
  }

  function ArpTaken(i: Interface, arp: Arp): Interface
  {
    Learned(i, arp).(waiting := Kept(i.waiting, Learned(i, arp).table))
  }

  // ----- Time

  function Ticked(i: Interface, ms: nat): Interface
  {
    var now := i.timer + ms;
    i.(timer := now, table := map ip | ip in i.table && i.table[ip].expiry >= now :: i.table[ip])
  }

  // ----- Runs, with a record of what was asked for, heard and emitted

  datatype Event = SendEvent(dgram: Datagram, hop: Ip) | FrameEvent(frame: InFrame) | TickEvent(ms: nat)

  datatype Given = Given(dgram: Datagram, hop: Ip)

  datatype Heard = Heard(ip: Ip, mac: Mac, time: nat)

  /** An emission, when it happened, and how many announcements had been heard by then. */
  datatype Logged = Logged(e: Emission, time: nat, heard: nat)

  datatype History = History(i: Interface, given: seq<Given>, heard: seq<Heard>, log: seq<Logged>)

  function LogAll(es: seq<Emission>, time: nat, heard: nat): (r: seq<Logged>)
    ensures |r| == |es| && forall k | 0 <= k < |es| :: r[k] == Logged(es[k], time, heard)
  {
    seq(|es|, k requires 0 <= k < |es| => Logged(es[k], time, heard))
  }

  function Emissions(i: Interface, e: Event): seq<Emission>
  {
    match e
    case SendEvent(dgram, hop) => SendEmissions(i, dgram, hop)
    case FrameEvent(frame) => if Heeded(i, frame).Some? then ArpEmissions(i, Heeded(i, frame).value) else []
    case TickEvent(_) => []
  }

  function Step(i: Interface, e: Event): Interface
  {
    match e
    case SendEvent(dgram, hop) => Sent(i, dgram, hop)
    case FrameEvent(frame) => if Heeded(i, frame).Some? then ArpTaken(i, Heeded(i, frame).value) else i
    case TickEvent(ms) => Ticked(i, ms)
  }

  function StepHistory(h: History, e: Event): History
  {
    var arp := if e.FrameEvent? then Heeded(h.i, e.frame) else None;
    var heard := h.heard + (if arp.Some? then [Heard(arp.value.senderIp, arp.value.senderMac, h.i.timer)] else []);
    History(Step(h.i, e),
            h.given + (if e.SendEvent? then [Given(e.dgram, e.hop)] else []),
            heard,
            h.log + LogAll(Emissions(h.i, e), h.i.timer, |heard|))
  }

  function Run(mac: Mac, ip: Ip, es: seq<Event>): History
  {
    if es == [] then History(Interface(mac, ip, 0, map[], []), [], [], [])
    else StepHistory(Run(mac, ip, es[..|es| - 1]), es[|es| - 1])
  }
}
