/** Where each field of a TCP header is on the wire (section 3.1 of RFC 793). */
module WireLayout {
  import opened Words
  import opened Segments
  import opened Parsing
  import opened TcpCodec

  /** The fields of `h`, each at its place in the first twenty bytes. */
  ghost predicate LaidOut(bytes: seq<Byte>, h: TcpHeader)
    requires |bytes| >= 20
  {
    && BigEndian(bytes[0..2]) == h.sport && BigEndian(bytes[2..4]) == h.dport
    && BigEndian(bytes[4..8]) == h.seqno && BigEndian(bytes[8..12]) == h.ackno
    && bytes[12] / 16 == h.doff % 16
    && (bytes[13] / 32 % 2 == 1 <==> h.urg) && (bytes[13] / 16 % 2 == 1 <==> h.ack)
    && (bytes[13] / 8 % 2 == 1 <==> h.psh) && (bytes[13] / 4 % 2 == 1 <==> h.rst)
    && (bytes[13] / 2 % 2 == 1 <==> h.syn) && (bytes[13] % 2 == 1 <==> h.fin)
    && BigEndian(bytes[14..16]) == h.win && BigEndian(bytes[16..18]) == h.cksum && BigEndian(bytes[18..20]) == h.uptr
  }

  // ----- Writing

  lemma FrontLaidOut(h: TcpHeader)
    ensures var b := Front(h);
            && |b| == 16
            && b[0..2] == Digits(h.sport, 2) && b[2..4] == Digits(h.dport, 2)
            && b[4..8] == Digits(h.seqno, 4) && b[8..12] == Digits(h.ackno, 4)
            && b[12..13] == Digits(h.doff * 16 % 256, 1) && b[13..14] == Digits(FlagByte(h), 1)
            && b[14..16] == Digits(h.win, 2)
  {
    hide Digits, Pow256, FlagByte;
    Powers();
    ReadsBack(h.sport, 2);
    ReadsBack(h.dport, 2);
    ReadsBack(h.seqno, 4);
    ReadsBack(h.ackno, 4);
    ReadsBack(h.doff * 16 % 256, 1);
    ReadsBack(FlagByte(h), 1);
    ReadsBack(h.win, 2);
  }

  lemma OneDigit(b: Byte)
    ensures Digits(b, 1) == [b]
  {
    assert Digits(b / 256, 0) == [];
  }

  lemma HeaderSlices(h: TcpHeader)
    requires h.doff >= 5
    ensures var b := HeaderBytes(h);
            && |b| == 4 * h.doff && b[..16] == Front(h)
            && b[16..18] == Digits(h.cksum, 2) && b[18..20] == Digits(h.uptr, 2)
            && forall i | 20 <= i < |b| :: b[i] == 0
  {
    hide Digits, Front;
    FrontLength(h);
    WordDigits(h.cksum);
    WordDigits(h.uptr);
  }

  /** A serialized header has each field at its place, is as long as it says, and is zero behind the fields. */
  lemma SerializedLayout(h: TcpHeader)
    requires h.doff >= 5
    ensures var b := HeaderBytes(h);
            |b| == 4 * h.doff && LaidOut(b, h) && forall i | 20 <= i < |b| :: b[i] == 0
  {
    hide Digits, Pow256, FlagByte, BigEndian, HeaderBytes, Front;
    var b := HeaderBytes(h);
    HeaderSlices(h);
    FrontLaidOut(h);
    PrefixSlices(b, Front(h));
    Powers();
    ReadsBack(h.sport, 2);
    ReadsBack(h.dport, 2);
    ReadsBack(h.seqno, 4);
    ReadsBack(h.ackno, 4);
    ReadsBack(h.win, 2);
    ReadsBack(h.cksum, 2);
    ReadsBack(h.uptr, 2);
    OneDigit(h.doff * 16 % 256);
    OneDigit(FlagByte(h));
    assert b[12] == b[12..13][0] && b[13] == b[13..14][0];
    OffsetByte(h.doff);
    FlagBits(h);
  }

  lemma OffsetByte(doff: Byte)
    ensures doff * 16 % 256 / 16 == doff % 16
  {
  }

  lemma FlagBits(h: TcpHeader)
    ensures var b := FlagByte(h);
            && (b / 32 % 2 == 1 <==> h.urg) && (b / 16 % 2 == 1 <==> h.ack) && (b / 8 % 2 == 1 <==> h.psh)
            && (b / 4 % 2 == 1 <==> h.rst) && (b / 2 % 2 == 1 <==> h.syn) && (b % 2 == 1 <==> h.fin)
  {
    hide FlagByte;
    FlagsReadBack(h);
  }

  lemma PrefixSlices(b: seq<Byte>, front: seq<Byte>)
    requires |front| == 16 <= |b| && b[..16] == front
    ensures b[0..2] == front[0..2] && b[2..4] == front[2..4] && b[4..8] == front[4..8] && b[8..12] == front[8..12]
    ensures b[12..13] == front[12..13] && b[13..14] == front[13..14] && b[14..16] == front[14..16]
  {
  }

  // ----- Reading

  lemma FieldAt(packet: seq<Byte>, p: Cursor, k: nat, n: nat)
    requires Reached(packet, p, k) && k + n <= |packet|
    ensures IntAt(p, n) == BigEndian(packet[k..k + n])
  {
    assert packet[k..][..n] == packet[k..k + n];
  }

  /** Any packet of twenty bytes or more is read by the same layout. */
  lemma ParsedLayout(packet: seq<Byte>)
    requires |packet| >= 20
    ensures LaidOut(packet, ParsedHeader(Cursor(packet, NoError)).header)
  {
    hide Skipped, IntAt, BigEndian, Reached;
    var p0 := Cursor(packet, NoError);
    StartReached(packet);
    var p1 := Reach(packet, p0, 0, 2);
    var p2 := Reach(packet, p1, 2, 2);
    var p3 := Reach(packet, p2, 4, 4);
    var p4 := Reach(packet, p3, 8, 4);
    var p5 := Reach(packet, p4, 12, 1);
    var p6 := Reach(packet, p5, 13, 1);
    var p7 := Reach(packet, p6, 14, 2);
    var p8 := Reach(packet, p7, 16, 2);
    FieldAt(packet, p0, 0, 2);
    FieldAt(packet, p1, 2, 2);
    FieldAt(packet, p2, 4, 4);
    FieldAt(packet, p3, 8, 4);
    FieldAt(packet, p4, 12, 1);
    FieldAt(packet, p5, 13, 1);
    FieldAt(packet, p6, 14, 2);
    FieldAt(packet, p7, 16, 2);
    FieldAt(packet, p8, 18, 2);
    OneByte(packet[12]);
    OneByte(packet[13]);
    assert packet[12..13] == [packet[12]] && packet[13..14] == [packet[13]];
  }

  lemma StartReached(packet: seq<Byte>)
    ensures Reached(packet, Cursor(packet, NoError), 0)
  {
    assert packet[0..] == packet;
  }

  lemma OneByte(b: Byte)
    ensures BigEndian([b]) == b
  {
    assert [b][..0] == [];
  }
}
