/** Big-endian integers read from and appended to a packet. */
module Parsing {
  import opened Words

  datatype ParseResult =
    | NoError
    | BadChecksum
    | PacketTooShort
    | WrongIPVersion
    | HeaderTooShort
    | TruncatedPacket

  // ----- Integers as bytes

  function Pow256(len: nat): nat { if len == 0 then 1 else 256 * Pow256(len - 1) }

  function BigEndian(bytes: seq<Byte>): nat
  {
    if bytes == [] then 0 else 256 * BigEndian(bytes[..|bytes| - 1]) + bytes[|bytes| - 1]
  }

  function Digits(val: nat, len: nat): seq<Byte>
  {
    if len == 0 then [] else Digits(val / 256, len - 1) + [val % 256]
  }

  lemma {:induction false} BigEndianBound(bytes: seq<Byte>)
    ensures BigEndian(bytes) < Pow256(|bytes|)
  {
    if bytes != [] {
      BigEndianBound(bytes[..|bytes| - 1]);
    }
  }

  /** Writing an integer that fits and reading it back gives the integer. */
  lemma {:induction false} ReadsBack(val: nat, len: nat)
    requires val < Pow256(len)
    ensures |Digits(val, len)| == len && BigEndian(Digits(val, len)) == val
  {
    if len > 0 {
      ReadsBack(val / 256, len - 1);
      assert Digits(val, len)[..len - 1] == Digits(val / 256, len - 1);
    }
  }

  /** Reading bytes and writing the integer back gives the bytes. */
  lemma {:induction false} WritesBack(bytes: seq<Byte>)
    ensures Digits(BigEndian(bytes), |bytes|) == bytes
  {
    if bytes != [] {
      WritesBack(bytes[..|bytes| - 1]);
      assert bytes == bytes[..|bytes| - 1] + [bytes[|bytes| - 1]];
    }
  }

  // ----- The parser

  /** What is left to parse, and the first or latest error. */
  datatype Cursor = Cursor(buffer: seq<Byte>, error: ParseResult)

  function Checked(p: Cursor, size: nat): Cursor
  {
    if size > |p.buffer| then p.(error := PacketTooShort) else p
  }

  function Skipped(p: Cursor, n: nat): Cursor
  {
    var q := Checked(p, n);
    if q.error != NoError then q else q.(buffer := q.buffer[n..])
  }

  function IntAt(p: Cursor, len: nat): nat
  {
    if Checked(p, len).error != NoError then 0 else BigEndian(p.buffer[..len])
  }

  lemma IntBound(p: Cursor, len: nat)
    ensures IntAt(p, len) < Pow256(len)
  {
    if |p.buffer| >= len {
      BigEndianBound(p.buffer[..len]);
    }
    BigEndianBound(seq(len, i => 0));
  }

  /** An integer at the front of an error-free parser is read and consumed exactly. */
  lemma TakesFront(val: nat, len: nat, rest: seq<Byte>)
    requires val < Pow256(len)
    ensures IntAt(Cursor(Digits(val, len) + rest, NoError), len) == val
    ensures Skipped(Cursor(Digits(val, len) + rest, NoError), len) == Cursor(rest, NoError)
  {
    ReadsBack(val, len);
    var bytes := Digits(val, len) + rest;
    assert bytes[..len] == Digits(val, len) && bytes[len..] == rest;
  }

  /** A parser `k` bytes into a packet moves on or, past the end, stays with an error. */
  lemma SkippedAt(packet: seq<Byte>, k: nat, n: nat)
    requires k <= |packet|
    ensures k + n <= |packet| ==> Skipped(Cursor(packet[k..], NoError), n) == Cursor(packet[k + n..], NoError)
    ensures k + n > |packet| ==> Skipped(Cursor(packet[k..], NoError), n) == Cursor(packet[k..], PacketTooShort)
  {
    if k + n <= |packet| {
      assert packet[k..][n..] == packet[k + n..];
    }
  }

  class NetParser {
    var buffer: seq<Byte>
    var error: ParseResult

    ghost function View(): Cursor
      reads this
    {
      Cursor(buffer, error)
    }

    constructor (buffer: seq<Byte>)
      ensures View() == Cursor(buffer, NoError)
    {
      this.buffer, error := buffer, NoError;
    }

    method CheckSize(size: nat)
      modifies this`error
      ensures View() == Checked(old(View()), size)
    {
      if size > |buffer| {
        error := PacketTooShort;
      }
    }

    method ParseInt(len: nat) returns (ret: nat)
      modifies this
      ensures ret == IntAt(old(View()), len)
      ensures View() == Skipped(old(View()), len)
    {
      CheckSize(len);
      if error != NoError {
        return 0;
      }
      ret := 0;
      for i := 0 to len
        invariant ret == BigEndian(buffer[..i])
      {
        assert buffer[..i + 1][..i] == buffer[..i];
        ret := ret * 256;
        ret := ret + buffer[i];
      }
      buffer := buffer[len..];
    }

    method RemovePrefix(n: nat)
      modifies this
      ensures View() == Skipped(old(View()), n)
    {
      CheckSize(n);
      if error != NoError {
        return;
      }
      buffer := buffer[n..];
    }
  }

  // ----- The unparser

  /** A shift to the right by whole bytes. */
  function ShiftedBytes(val: nat, n: nat): nat { if n == 0 then val else ShiftedBytes(val / 256, n - 1) }

  lemma {:induction false} DigitsFront(val: nat, len: nat)
    requires len > 0
    ensures Digits(val, len) == [ShiftedBytes(val, len - 1) % 256] + Digits(val, len - 1)
  {
    if len > 1 {
      DigitsFront(val / 256, len - 1);
    }
  }

  method UnparseInt(s: seq<Byte>, val: nat, len: nat) returns (r: seq<Byte>)
    ensures r == s + Digits(val, len)
  {
    r := s;
    for i := 0 to len
      invariant r + Digits(val, len - i) == s + Digits(val, len)
    {
      DigitsFront(val, len - i);
      r := r + [ShiftedBytes(val, len - i - 1) % 256];
    }
  }
}
