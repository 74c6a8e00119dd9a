/** TCP segments as values. */
module Segments {
  import opened Words
  import opened Wrapping

  datatype TcpHeader = TcpHeader(
    sport: U16, dport: U16, seqno: Seqno, ackno: Seqno, doff: Byte,
    urg: bool, ack: bool, psh: bool, rst: bool, syn: bool, fin: bool,
    win: U16, cksum: U16, uptr: U16)

  /** A header as it is constructed: every field zero, no options. */
  const BLANK: TcpHeader := TcpHeader(0, 0, 0, 0, 5, false, false, false, false, false, false, 0, 0, 0)

  datatype TcpSegment = TcpSegment(header: TcpHeader, payload: seq<Byte>)

  /** The payload plus one number each for SYN and FIN. */
  function SequenceLength(seg: TcpSegment): nat
  {
    |seg.payload| + (if seg.header.syn then 1 else 0) + (if seg.header.fin then 1 else 0)
  }
}
