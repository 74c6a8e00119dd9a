/** Turning TCP segments into bytes and back. */
module TcpCodec {
  import opened Words
  import opened Wrapping
  import opened Segments
  import opened Checksum
  import opened Parsing

  // ----- Serializing

  function Bit(b: bool, weight: nat): nat { if b then weight else 0 }

  function FlagByte(h: TcpHeader): Byte
  {
    Bit(h.urg, 32) + Bit(h.ack, 16) + Bit(h.psh, 8) + Bit(h.rst, 4) + Bit(h.syn, 2) + Bit(h.fin, 1)
  }

  /** The sixteen bytes before the checksum. The data offset keeps only its low four bits. */
  function Front(h: TcpHeader): seq<Byte>
  {
    Digits(h.sport, 2) + Digits(h.dport, 2) + Digits(h.seqno, 4) + Digits(h.ackno, 4)
    + Digits(h.doff * 16 % 256, 1) + Digits(FlagByte(h), 1) + Digits(h.win, 2)
  }

  /** The bytes after the checksum, up to the advertised size. */
  function Back(h: TcpHeader): seq<Byte>
    requires h.doff >= 5
  {
    Digits(h.uptr, 2) + seq(4 * h.doff - 20, i => 0)
  }

  function HeaderBytes(h: TcpHeader): seq<Byte>
    requires h.doff >= 5
  {
    Front(h) + Digits(h.cksum, 2) + Back(h)
  }

  /** The checksum a segment is sent with. */
  function ComputedChecksum(seg: TcpSegment, pseudo: U32): U16
    requires seg.header.doff >= 5
  {
    Value(RunningSum(pseudo, HeaderBytes(seg.header.(cksum := 0)) + seg.payload))
  }

  function Checksummed(seg: TcpSegment, pseudo: U32): TcpSegment
    requires seg.header.doff >= 5
  {
    seg.(header := seg.header.(cksum := ComputedChecksum(seg, pseudo)))
  }

  /** A header that claims fewer than five words cannot be serialized. */
  function Serialized(seg: TcpSegment, pseudo: U32): Option<seq<Byte>>
  {
    if seg.header.doff < 5 then None
    else Some(HeaderBytes(Checksummed(seg, pseudo).header) + seg.payload)
  }

  // ----- Parsing

  function U8At(p: Cursor): Byte { IntBound(p, 1); IntAt(p, 1) }

  function U16At(p: Cursor): U16 { IntBound(p, 2); IntAt(p, 2) }

  function U32At(p: Cursor): Seqno { IntBound(p, 4); IntAt(p, 4) }

  predicate BitSet(b: Byte, weight: nat)
    requires weight > 0
  {
    b / weight % 2 == 1
  }

  datatype Parsed = Parsed(header: TcpHeader, result: ParseResult, rest: Cursor)

  function ParsedHeader(p0: Cursor): Parsed
  {
    var p1 := Skipped(p0, 2);
    var p2 := Skipped(p1, 2);
    var p3 := Skipped(p2, 4);
    var p4 := Skipped(p3, 4);
    var p5 := Skipped(p4, 1);
    var p6 := Skipped(p5, 1);
    var p7 := Skipped(p6, 2);
    var p8 := Skipped(p7, 2);
    var p9 := Skipped(p8, 2);
    var flags := U8At(p5);
    var h := TcpHeader(
      U16At(p0), U16At(p1), U32At(p2), U32At(p3), U8At(p4) / 16,
      BitSet(flags, 32), BitSet(flags, 16), BitSet(flags, 8), BitSet(flags, 4), BitSet(flags, 2), BitSet(flags, 1),
      U16At(p6), U16At(p7), U16At(p8));
    if h.doff < 5 then Parsed(h, HeaderTooShort, p9)
    else
      var p10 := Skipped(p9, 4 * h.doff - 20);
      Parsed(h, p10.error, p10)
  }

  /** The outcome of parsing, and the segment object afterwards: a bad checksum leaves it as it was. */
  function ParsedSegment(was: TcpSegment, packet: seq<Byte>, pseudo: U32): (ParseResult, TcpSegment)
  {
    if !Accepted(pseudo, packet) then (BadChecksum, was)
    else
      var parsed := ParsedHeader(Cursor(packet, NoError));
      (parsed.rest.error, TcpSegment(parsed.header, parsed.rest.buffer))
  }

  // ----- Round trip

  lemma FlagsReadBack(h: TcpHeader)
    ensures var b := FlagByte(h);
      && BitSet(b, 32) == h.urg && BitSet(b, 16) == h.ack && BitSet(b, 8) == h.psh
      && BitSet(b, 4) == h.rst && BitSet(b, 2) == h.syn && BitSet(b, 1) == h.fin
  {
  }

  lemma Powers()
    ensures Pow256(1) == 256 && Pow256(2) == 0x1_0000 && Pow256(4) == 0x1_0000_0000
  {
    assert Pow256(0) == 1 && Pow256(1) == 256 && Pow256(2) == 0x1_0000 && Pow256(3) == 0x100_0000;
  }

  /** Parsing what `HeaderBytes` wrote, whatever follows it. */
  lemma HeaderReadsBack(h: TcpHeader, payload: seq<Byte>)
    requires 5 <= h.doff <= 15
    ensures ParsedHeader(Cursor(HeaderBytes(h) + payload, NoError)) == Parsed(h, NoError, Cursor(payload, NoError))
  {
    hide Digits, Skipped, IntAt, BitSet, FlagByte, Pow256;
    var padding := seq(4 * h.doff - 20, i => 0);
    var r9 := padding + payload;
    var r8 := Digits(h.uptr, 2) + r9;
    var r7 := Digits(h.cksum, 2) + r8;
    var r6 := Digits(h.win, 2) + r7;
    var r5 := Digits(FlagByte(h), 1) + r6;
    var r4 := Digits(h.doff * 16 % 256, 1) + r5;
    var r3 := Digits(h.ackno, 4) + r4;
    var r2 := Digits(h.seqno, 4) + r3;
    var r1 := Digits(h.dport, 2) + r2;
    var r0 := Digits(h.sport, 2) + r1;
    assert HeaderBytes(h) + payload == r0;
    Powers();
    TakesFront(h.sport, 2, r1);
    TakesFront(h.dport, 2, r2);
    TakesFront(h.seqno, 4, r3);
    TakesFront(h.ackno, 4, r4);
    TakesFront(h.doff * 16 % 256, 1, r5);
    TakesFront(FlagByte(h), 1, r6);
    TakesFront(h.win, 2, r7);
    TakesFront(h.cksum, 2, r8);
    TakesFront(h.uptr, 2, r9);
    FlagsReadBack(h);
    SkippedAt(r9, 0, |padding|);
    assert r9[0..] == r9 && r9[|padding|..] == payload;
  }

  lemma FrontLength(h: TcpHeader)
    ensures |Front(h)| == 16
  {
    hide Digits, Pow256, FlagByte;
    Powers();
    ReadsBack(h.sport, 2);
    ReadsBack(h.dport, 2);
    ReadsBack(h.seqno, 4);
    ReadsBack(h.ackno, 4);
    ReadsBack(h.doff * 16 % 256, 1);
    ReadsBack(FlagByte(h), 1);
    ReadsBack(h.win, 2);
  }

  lemma WordDigits(w: U16)
    ensures Digits(w, 2) == [w / 256, w % 256]
  {
    assert Digits(w / 256, 1) == Digits(w / 256 / 256, 0) + [w / 256 % 256];
  }

  /** Every packet that is sent passes its receiver's checksum, for any pseudo-checksum and length. */
  lemma SentIsAccepted(seg: TcpSegment, pseudo: U32)
    requires seg.header.doff >= 5
    ensures Accepted(pseudo, Serialized(seg, pseudo).value)
  {
    hide Digits, Front, Back, Accepted, RunningSum, Value;
    var h := seg.header;
    var c := ComputedChecksum(seg, pseudo);
    var after := Back(h) + seg.payload;
    FrontLength(h);
    WordDigits(0);
    WordDigits(c);
    SameAround(h, 0);
    SameAround(h, c);
    assert HeaderBytes(h.(cksum := 0)) + seg.payload == Front(h) + [0, 0] + after;
    assert HeaderBytes(h.(cksum := c)) + seg.payload == Front(h) + [c / 256, c % 256] + after;
    FillingCompletes(pseudo, Front(h), c / 256, c % 256, after);
  }

  /** The checksum field is outside what surrounds it. */
  lemma SameAround(h: TcpHeader, c: U16)
    requires h.doff >= 5
    ensures Front(h.(cksum := c)) == Front(h) && Back(h.(cksum := c)) == Back(h)
  {
    assert FlagByte(h.(cksum := c)) == FlagByte(h);
  }

  predicate ComesBack(was: TcpSegment, seg: TcpSegment, pseudo: U32)
    requires seg.header.doff >= 5
  {
    ParsedSegment(was, Serialized(seg, pseudo).value, pseudo) == (NoError, Checksummed(seg, pseudo))
  }

  /**
    * Parsing a serialized segment succeeds and gives back the payload and every field but the
    * checksum exactly when the data offset fits in its four bits.
    */
  lemma RoundTrip(was: TcpSegment, seg: TcpSegment, pseudo: U32)
    ensures Serialized(seg, pseudo).Some? <==> seg.header.doff >= 5
    ensures seg.header.doff >= 5 ==> (ComesBack(was, seg, pseudo) <==> seg.header.doff <= 15)
  {
    hide HeaderBytes, Accepted, ComputedChecksum, Skipped, IntAt, BitSet;
    if seg.header.doff >= 5 {
      SentIsAccepted(seg, pseudo);
      if seg.header.doff <= 15 {
        HeaderReadsBack(Checksummed(seg, pseudo).header, seg.payload);
      }
    }
  }

  /** A data offset of 16 words, which a byte can hold and four bits cannot. */
  lemma WideOffsetLost(was: TcpSegment, pseudo: U32)
    ensures var seg := TcpSegment(BLANK.(doff := 16), []);
            Serialized(seg, pseudo).Some? && !ComesBack(was, seg, pseudo)
  {
    RoundTrip(was, TcpSegment(BLANK.(doff := 16), []), pseudo);
  }

  // ----- Which packets are accepted

  lemma ErrorStays(p: Cursor, n: nat)
    requires p.error == PacketTooShort
    ensures Skipped(p, n) == p
  {
  }

  /** The parser after the nine fixed fields. */
  function AfterFixed(p: Cursor): Cursor
  {
    Skipped(Skipped(Skipped(Skipped(Skipped(Skipped(Skipped(Skipped(Skipped(p, 2), 2), 4), 4), 1), 1), 2), 2), 2)
  }

  /** Twenty bytes are needed before the data offset is looked at. */
  lemma FixedPart(packet: seq<Byte>)
    ensures |packet| >= 20 ==> AfterFixed(Cursor(packet, NoError)) == Cursor(packet[20..], NoError)
    ensures |packet| < 20 ==> AfterFixed(Cursor(packet, NoError)).error == PacketTooShort
  {
    hide Skipped;
    assert packet[0..] == packet;
    var p1 := Reach(packet, Cursor(packet, NoError), 0, 2);
    var p2 := Reach(packet, p1, 2, 2);
    var p3 := Reach(packet, p2, 4, 4);
    var p4 := Reach(packet, p3, 8, 4);
    var p5 := Reach(packet, p4, 12, 1);
    var p6 := Reach(packet, p5, 13, 1);
    var p7 := Reach(packet, p6, 14, 2);
    var p8 := Reach(packet, p7, 16, 2);
    var p9 := Reach(packet, p8, 18, 2);
  }

  /** Still error-free `k` bytes into a packet, or past its end. */
  predicate Reached(packet: seq<Byte>, p: Cursor, k: nat)
  {
    if k <= |packet| then p == Cursor(packet[k..], NoError) else p.error == PacketTooShort
  }

  lemma Reach(packet: seq<Byte>, p: Cursor, k: nat, n: nat) returns (q: Cursor)
    requires Reached(packet, p, k)
    ensures q == Skipped(p, n) && Reached(packet, q, k + n)
  {
    q := Skipped(p, n);
    if k <= |packet| {
      SkippedAt(packet, k, n);
    } else {
      ErrorStays(p, n);
    }
  }

  /** The data offset is the high half of byte 12. */
  lemma OffsetRead(packet: seq<Byte>)
    requires |packet| >= 20
    ensures ParsedHeader(Cursor(packet, NoError)).header.doff == packet[12] / 16
  {
    hide Skipped, BitSet;
    assert packet[0..] == packet;
    var p1 := Reach(packet, Cursor(packet, NoError), 0, 2);
    var p2 := Reach(packet, p1, 2, 2);
    var p3 := Reach(packet, p2, 4, 4);
    var p4 := Reach(packet, p3, 8, 4);
    assert p4.buffer[..1] == [packet[12]] && [packet[12]][..0] == [];
    assert BigEndian([packet[12]]) == packet[12];
  }

  /**
    * A segment parses without error exactly when the checksum passes, twenty bytes are there,
    * and the advertised header is there. An advertised header shorter than twenty bytes does
    * not count against it, since the header's own verdict is dropped.
    */
  lemma AcceptedExactly(was: TcpSegment, packet: seq<Byte>, pseudo: U32)
    ensures ParsedSegment(was, packet, pseudo).0 == NoError
       <==> Accepted(pseudo, packet) && |packet| >= 20 && (packet[12] / 16 < 5 || 4 * (packet[12] / 16) <= |packet|)
    ensures ParsedSegment(was, packet, pseudo).0 in {NoError, BadChecksum, PacketTooShort}
  {
    hide Skipped, BitSet, IntAt, Accepted;
    FixedPart(packet);
    var parsed := ParsedHeader(Cursor(packet, NoError));
    if |packet| >= 20 {
      OffsetRead(packet);
      if parsed.header.doff >= 5 {
        SkippedAt(packet, 20, 4 * parsed.header.doff - 20);
      }
    } else if parsed.header.doff >= 5 {
      ErrorStays(AfterFixed(Cursor(packet, NoError)), 4 * parsed.header.doff - 20);
    }
  }

  lemma {:induction false} ZeroSum(n: nat, odd: bool)
    ensures SumBytes(seq(n, i => 0), odd) == 0
  {
    if n > 0 {
      assert seq(n, i => 0)[1..] == seq(n - 1, i => 0);
      ZeroSum(n - 1, !odd);
    }
  }

  /** A packet whose header is called too short and which is accepted all the same. */
  lemma ShortHeaderAccepted(was: TcpSegment)
    ensures var packet := seq(16, i => 0) + [0xff, 0xff] + seq(2, i => 0);
      && ParsedHeader(Cursor(packet, NoError)).result == HeaderTooShort
      && ParsedSegment(was, packet, 0).0 == NoError
  {
    hide SumBytes, ParsedSegment, IntAt, Skipped, BitSet;
    var packet: seq<Byte> := seq(16, i => 0) + [0xff, 0xff] + seq(2, i => 0);
    SumAround(seq(16, i => 0), 0xff, 0xff, seq(2, i => 0));
    ZeroSum(16, false);
    ZeroSum(2, false);
    ValueZero(0xffff);
    OffsetRead(packet);
    AcceptedExactly(was, packet, 0);
  }

  // ----- The objects

  /** Appends the fields in order, then pads. */
  method SerializeHeader(h: TcpHeader) returns (r: Option<seq<Byte>>)
    ensures r == if h.doff < 5 then None else Some(HeaderBytes(h))
  {
    hide Digits;
    if h.doff < 5 {
      return None;
    }
    var s := UnparseInt([], h.sport, 2);
    s := UnparseInt(s, h.dport, 2);
    s := UnparseInt(s, h.seqno, 4);
    s := UnparseInt(s, h.ackno, 4);
    s := UnparseInt(s, h.doff * 16 % 256, 1);
    s := UnparseInt(s, FlagByte(h), 1);
    s := UnparseInt(s, h.win, 2);
    assert s == Front(h);
    s := UnparseInt(s, h.cksum, 2);
    s := UnparseInt(s, h.uptr, 2);
    FrontLength(h);
    WordDigits(h.cksum);
    WordDigits(h.uptr);
    s := s + seq(4 * h.doff - |s|, i => 0);
    assert s == HeaderBytes(h);
    return Some(s);
  }

  /** Reads the fields in order, then skips the options. */
  method ParseHeader(p: NetParser) returns (h: TcpHeader, result: ParseResult)
    modifies p
    ensures Parsed(h, result, p.View()) == ParsedHeader(old(p.View()))
  {
    hide Skipped, IntAt, BitSet;
    HeaderBounds();
    var sport := p.ParseInt(2);
    var dport := p.ParseInt(2);
    var seqno := p.ParseInt(4);
    var ackno := p.ParseInt(4);
    var offset := p.ParseInt(1);
    var flags := p.ParseInt(1);
    var win := p.ParseInt(2);
    var cksum := p.ParseInt(2);
    var uptr := p.ParseInt(2);
    h := TcpHeader(
      sport, dport, seqno, ackno, offset / 16,
      BitSet(flags, 32), BitSet(flags, 16), BitSet(flags, 8), BitSet(flags, 4), BitSet(flags, 2), BitSet(flags, 1),
      win, cksum, uptr);
    if h.doff < 5 {
      return h, HeaderTooShort;
    }
    p.RemovePrefix(h.doff * 4 - 20);
    return h, p.error;
  }

  lemma HeaderBounds()
    ensures forall q: Cursor {:trigger IntAt(q, 1)} :: IntAt(q, 1) < 256
    ensures forall q: Cursor {:trigger IntAt(q, 2)} :: IntAt(q, 2) < 0x1_0000
    ensures forall q: Cursor {:trigger IntAt(q, 4)} :: IntAt(q, 4) < 0x1_0000_0000
  {
    hide IntAt;
    Powers();
    forall q: Cursor, n: nat {:trigger IntAt(q, n)} ensures IntAt(q, n) < Pow256(n) {
      IntBound(q, n);
    }
  }

  class TCPSegment {
    var header: TcpHeader
    var payload: seq<Byte>

    ghost function View(): TcpSegment
      reads this
    {
      TcpSegment(header, payload)
    }

    constructor ()
      ensures View() == TcpSegment(BLANK, [])
    {
      header, payload := BLANK, [];
    }

    method Parse(packet: seq<Byte>, pseudo: U32) returns (result: ParseResult)
      modifies this
      ensures (result, View()) == ParsedSegment(old(View()), packet, pseudo)
    {
      hide Fold, SumBytes, ParsedHeader, Low32, Value;
      var check := new InternetChecksum(pseudo);
      check.Add(packet);
      var value := check.ValueOf();
      if value != 0 {
        return BadChecksum;
      }
      var p := new NetParser(packet);
      var h, _ := ParseHeader(p);
      header, payload := h, p.buffer;
      return p.error;
    }

    method Serialize(pseudo: U32) returns (r: Option<seq<Byte>>)
      ensures r == Serialized(View(), pseudo)
    {
      hide Fold, SumBytes, HeaderBytes, Low32, Value;
      var out := header.(cksum := 0);
      var zeroed := SerializeHeader(out);
      if zeroed == None {
        return None;
      }
      var check := new InternetChecksum(pseudo);
      check.Add(zeroed.value);
      check.Add(payload);
      SumConcat(zeroed.value, payload, false);
      AddLater(pseudo + SumBytes(zeroed.value + payload, false), pseudo + SumBytes(zeroed.value, false),
               SumBytes(payload, OddLength(zeroed.value)));
      var cksum := check.ValueOf();
      var bytes := SerializeHeader(out.(cksum := cksum));
      return Some(bytes.value + payload);
    }
  }
}
