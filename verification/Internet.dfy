/** Internet datagrams and link-layer frames as values. */
module Internet {
  import opened Words

  /** A 32-bit Internet address. */
  type Ip = U32

  /** A 48-bit Ethernet address. */
  type Mac = x: int | 0 <= x < 0x1_0000_0000_0000

  const BROADCAST: Mac := 0xffff_ffff_ffff

  /** The header fields that matter here, and everything else. */
  datatype Datagram = Datagram(dst: Ip, ttl: Byte, rest: seq<Byte>)

  datatype Arp = Arp(request: bool, senderIp: Ip, senderMac: Mac, targetIp: Ip, targetMac: Mac)

  /** What the payload of an inbound frame parses to; `None` when it does not. */
  datatype Body = Ipv4Body(dgram: Option<Datagram>) | OtherBody(arp: Option<Arp>)

  datatype InFrame = InFrame(dst: Mac, body: Body)

  datatype OutFrame = Ipv4Frame(src: Mac, dst: Mac, dgram: Datagram) | ArpFrame(src: Mac, dst: Mac, arp: Arp)
}
