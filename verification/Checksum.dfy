/** The Internet checksum (section 1 of RFC 1071). */
module Checksum {
  import opened Words

  // ----- The sum

  /** Bytes at even positions are the high halves of 16-bit words. */
  function Word(b: Byte, odd: bool): nat { if odd then b else 256 * b }

  function SumBytes(data: seq<Byte>, odd: bool): nat
  {
    if data == [] then 0 else Word(data[0], odd) + SumBytes(data[1..], !odd)
  }

  predicate OddLength(data: seq<Byte>) { |data| % 2 == 1 }

  /** Adding in chunks is adding the concatenation. */
  lemma {:induction false} SumConcat(a: seq<Byte>, b: seq<Byte>, odd: bool)
    ensures SumBytes(a + b, odd) == SumBytes(a, odd) + SumBytes(b, odd != OddLength(a))
  {
    if a == [] {
      assert a + b == b;
    } else {
      assert (a + b)[1..] == a[1..] + b;
      SumConcat(a[1..], b, !odd);
    }
  }

  /** Two bytes at an even position add the word they form. */
  lemma SumWord(hi: Byte, lo: Byte)
    ensures SumBytes([hi, lo], false) == 256 * hi + lo
  {
    assert [hi, lo][1..] == [lo];
    assert SumBytes([lo], true) == lo;
  }

  lemma {:induction false} SumBound(data: seq<Byte>)
    ensures SumBytes(data, false) <= 0xffff * ((|data| + 1) / 2)
    decreases |data|
  {
    if |data| >= 2 {
      var rest := data[2..];
      SumBound(rest);
      assert data == [data[0], data[1]] + rest;
      SumConcat([data[0], data[1]], rest, false);
      SumWord(data[0], data[1]);
    } else if |data| == 1 {
      assert data[1..] == [];
    }
  }

  // ----- Folding

  /** Adds the carries back in until 16 bits are left. */
  function Fold(x: nat): nat
    decreases x
  {
    if x > 0xffff then Fold(x / 0x1_0000 + x % 0x1_0000) else x
  }

  lemma {:induction false} ModShift(y: nat, q: nat)
    ensures (y + 0xffff * q) % 0xffff == y % 0xffff
  {
    if q > 0 {
      ModShift(y, q - 1);
      var z := y + 0xffff * (q - 1);
      assert y + 0xffff * q == z + 0xffff;
    }
  }

  /** Folding keeps the value modulo 65535, and only zero folds to zero. */
  lemma {:induction false} FoldKeeps(x: nat)
    ensures Fold(x) <= 0xffff && Fold(x) % 0xffff == x % 0xffff
    ensures Fold(x) == 0 <==> x == 0
    decreases x
  {
    if x > 0xffff {
      var q, r := x / 0x1_0000, x % 0x1_0000;
      FoldKeeps(q + r);
      ModShift(q + r, q);
      assert x == q + r + 0xffff * q;
    }
  }

  /** The checksum of a sum: the complement of its folded form. */
  function Value(sum: nat): U16
  {
    FoldKeeps(sum);
    0xffff - Fold(sum)
  }

  /** A sum is accepted exactly when it is a nonzero multiple of 65535. */
  lemma ValueZero(sum: nat)
    ensures Value(sum) == 0 <==> sum > 0 && sum % 0xffff == 0
  {
    FoldKeeps(sum);
  }

  /**
    * Adding its own checksum makes any sum acceptable. Both sums fit in 32 bits, so this
    * survives the wrap-around of the running sum.
    */
  lemma ChecksumCompletes(sum: U32)
    ensures sum + Value(sum) < TWO32
    ensures Value(sum + Value(sum)) == 0
  {
    FoldKeeps(sum);
    var f := Fold(sum);
    Congruent(f, sum);
    ModShift(0, (sum - f) / 0xffff + 1);
    assert sum + Value(sum) == 0 + 0xffff * ((sum - f) / 0xffff + 1);
    ValueZero(sum + Value(sum));
    if sum + 0xffff >= TWO32 {
      FoldTop(sum);
    }
  }

  lemma FoldTop(sum: U32)
    requires sum + 0xffff >= TWO32
    ensures Fold(sum) == sum + 0x1_0000 - TWO32
  {
    var y := 0xffff + (sum + 0x1_0000 - TWO32);
    assert sum / 0x1_0000 == 0xffff && sum % 0x1_0000 == sum + 0x1_0000 - TWO32;
    assert y / 0x1_0000 == 1 && y % 0x1_0000 == y - 0x1_0000;
    assert Fold(sum) == Fold(y);
  }

  lemma Congruent(a: nat, b: nat)
    requires a % 0xffff == b % 0xffff
    ensures b - a == 0xffff * ((b - a) / 0xffff)
  {
    assert a == 0xffff * (a / 0xffff) + a % 0xffff;
    assert b == 0xffff * (b / 0xffff) + b % 0xffff;
    assert b - a == 0xffff * (b / 0xffff - a / 0xffff);
  }

  // ----- Over a packet

  /** A sum as it is kept in 32 bits. */
  function Low32(x: nat): (r: U32)
    ensures x < TWO32 ==> r == x
  {
    x % TWO32
  }

  function RunningSum(initial: U32, data: seq<Byte>): U32 { Low32(initial + SumBytes(data, false)) }

  predicate Accepted(initial: U32, data: seq<Byte>) { Value(RunningSum(initial, data)) == 0 }

  /** A packet is an even number of bytes, a word, and the rest. */
  lemma SumAround(before: seq<Byte>, hi: Byte, lo: Byte, after: seq<Byte>)
    requires |before| % 2 == 0
    ensures SumBytes(before + [hi, lo] + after, false)
         == SumBytes(before, false) + 256 * hi + lo + SumBytes(after, false)
  {
    SumConcat(before + [hi, lo], after, false);
    SumConcat(before, [hi, lo], false);
    SumWord(hi, lo);
  }

  lemma RunningAround(initial: U32, before: seq<Byte>, hi: Byte, lo: Byte, after: seq<Byte>, rest: nat)
    requires |before| % 2 == 0 && rest == initial + SumBytes(before, false) + SumBytes(after, false)
    ensures RunningSum(initial, before + [hi, lo] + after) == Low32(Low32(rest) + (256 * hi + lo))
  {
    hide SumBytes, Low32, RunningSum;
    var data := before + [hi, lo] + after;
    RunningIs(initial, data);
    SumAround(before, hi, lo, after);
    AddLater(initial + SumBytes(data, false), rest, 256 * hi + lo);
  }

  lemma RunningIs(initial: U32, data: seq<Byte>)
    ensures RunningSum(initial, data) == Low32(initial + SumBytes(data, false))
  {
  }

  lemma AddLater(sum: nat, a: nat, b: nat)
    requires sum == a + b
    ensures Low32(sum) == Low32(Low32(a) + b)
  {
  }

  /** Filling a zero word with the checksum of the packet makes the packet acceptable. */
  lemma FillingCompletes(initial: U32, before: seq<Byte>, hi: Byte, lo: Byte, after: seq<Byte>)
    requires |before| % 2 == 0
    requires 256 * hi + lo == Value(RunningSum(initial, before + [0, 0] + after))
    ensures Accepted(initial, before + [hi, lo] + after)
  {
    hide Fold, SumBytes, Value, RunningSum, Low32;
    var rest := initial + SumBytes(before, false) + SumBytes(after, false);
    RunningAround(initial, before, 0, 0, after, rest);
    RunningAround(initial, before, hi, lo, after, rest);
    ChecksumCompletes(Low32(rest));
  }

  /** How often the running sum has wrapped around. */
  function Wraps(initial: U32, data: seq<Byte>): nat { (initial + SumBytes(data, false)) / TWO32 }

  /** A datagram's worth of bytes over a bounded pseudo-checksum does not wrap around. */
  lemma SumFits(initial: U32, data: seq<Byte>)
    requires initial < 0x8000_0000 && |data| <= 0xffff
    ensures Wraps(initial, data) == 0 && RunningSum(initial, data) == initial + SumBytes(data, false)
  {
    SumBound(data);
  }

  lemma SumSplit(initial: U32, data: seq<Byte>)
    ensures initial + SumBytes(data, false) == RunningSum(initial, data) + TWO32 * Wraps(initial, data)
  {
  }

  /** 2^32 leaves the remainder 1, so each wrap-around takes one away. */
  lemma RemainderMoves(x: nat, y: nat, d: int, wraps: int)
    requires x % 0xffff == 0 && y == x + d - TWO32 * wraps
    ensures y % 0xffff == 0 <==> (d - wraps) % 0xffff == 0
  {
    assert TWO32 == 0xffff * 0x1_0001 + 1;
    var a := x / 0xffff;
    assert y == 0xffff * (a - 0x1_0001 * wraps) + (d - wraps);
    RemainderOf(y, a - 0x1_0001 * wraps, d - wraps);
  }

  lemma RemainderOf(y: int, q: int, r: int)
    requires y == 0xffff * q + r
    ensures y % 0xffff == 0 <==> r % 0xffff == 0
  {
    var r1 := r / 0xffff;
    if r % 0xffff == 0 {
      assert y == 0xffff * (q + r1);
    } else {
      assert y == 0xffff * (q + r1) + r % 0xffff;
    }
  }

  /** Changing one word of an accepted packet goes unnoticed exactly when the change, less the extra wrap-arounds of
      the 32-bit sum, is a multiple of 65535. */
  lemma WordChangeExact(initial: U32, before: seq<Byte>, hi: Byte, lo: Byte, hi': Byte, lo': Byte, after: seq<Byte>)
    requires |before| % 2 == 0 && Accepted(initial, before + [hi, lo] + after)
    ensures var data, data' := before + [hi, lo] + after, before + [hi', lo'] + after;
            Accepted(initial, data') <==>
              && RunningSum(initial, data') > 0
              && ((256 * hi' + lo') - (256 * hi + lo) - (Wraps(initial, data') - Wraps(initial, data))) % 0xffff == 0
  {
    hide Fold, SumBytes, Value, RunningSum, Wraps;
    var data, data' := before + [hi, lo] + after, before + [hi', lo'] + after;
    SumAround(before, hi, lo, after);
    SumAround(before, hi', lo', after);
    SumSplit(initial, data);
    SumSplit(initial, data');
    ValueZero(RunningSum(initial, data));
    ValueZero(RunningSum(initial, data'));
    RemainderMoves(RunningSum(initial, data), RunningSum(initial, data'),
                   (256 * hi' + lo') - (256 * hi + lo), Wraps(initial, data') - Wraps(initial, data));
  }

  /** With as many wrap-arounds as before, only the change between 0x0000 and 0xffff goes unnoticed. */
  lemma WordChangeNoticed(initial: U32, before: seq<Byte>, hi: Byte, lo: Byte, hi': Byte, lo': Byte, after: seq<Byte>)
    requires |before| % 2 == 0 && Accepted(initial, before + [hi, lo] + after)
    requires Wraps(initial, before + [hi', lo'] + after) == Wraps(initial, before + [hi, lo] + after)
    requires RunningSum(initial, before + [hi', lo'] + after) > 0
    ensures Accepted(initial, before + [hi', lo'] + after)
        <==> 256 * hi' + lo' == 256 * hi + lo || (256 * hi + lo, 256 * hi' + lo') in {(0, 0xffff), (0xffff, 0)}
  {
    hide Accepted, RunningSum, Wraps;
    WordChangeExact(initial, before, hi, lo, hi', lo', after);
    SmallMultiple((256 * hi' + lo') - (256 * hi + lo));
  }

  lemma SmallMultiple(d: int)
    requires -0xffff <= d <= 0xffff
    ensures d % 0xffff == 0 <==> d in {-0xffff, 0, 0xffff}
  {
  }

  class InternetChecksum {
    var sum: U32
    var parity: bool

    constructor (initialSum: U32)
      ensures sum == initialSum && !parity
    {
      sum, parity := initialSum, false;
    }

    method Add(data: seq<Byte>)
      modifies this
      ensures sum == Low32(old(sum) + SumBytes(data, old(parity)))
      ensures parity == (old(parity) != OddLength(data))
    {
      hide Low32;
      assert data[0..] == data;
      ghost var total := sum + SumBytes(data, parity);
      for i := 0 to |data|
        invariant parity == (old(parity) != (i % 2 == 1))
        invariant Low32(sum + SumBytes(data[i..], parity)) == Low32(total)
      {
        var val: U16 := data[i];
        if !parity {
          val := val * 256;
        }
        assert data[i..][1..] == data[i + 1..];
        AddLater(sum + SumBytes(data[i..], parity), sum + val, SumBytes(data[i + 1..], !parity));
        sum := Low32(sum + val);
        parity := !parity;
      }
    }

    method ValueOf() returns (r: U16)
      ensures r == Value(sum)
    {
      var ret := sum;
      while ret > 0xffff
        invariant Fold(ret) == Fold(sum)
        decreases ret
      {
        ret := ret / 0x1_0000 + ret % 0x1_0000;
      }
      FoldKeeps(sum);
      r := 0xffff - ret;
    }
  }
}
