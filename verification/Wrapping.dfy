/** 32-bit wrapping sequence numbers and their 64-bit absolute counterparts
    (section 3.3 of RFC 793).  All 64-bit arithmetic of the program is written
    out modulo 2^64. */
module Wrapping {
  import opened Words

  /** A raw 32-bit sequence number. */
  type Seqno = U32

  function Add64(a: U64, b: U64): U64 { if a + b < TWO64 then a + b else a + b - TWO64 }

  function Sub64(a: U64, b: U64): U64 { if b <= a then a - b else a - b + TWO64 }

  /** A count as the 64-bit number it is kept in. */
  function Low64(n: nat): (r: U64)
    ensures n < TWO64 ==> r == n
  {
    n % TWO64
  }

  /** The program first reduces the sum modulo 2^64, which 2^32 divides, so that step changes nothing. */
  function Wrap(n: nat, isn: Seqno): Seqno
  {
    (isn + n) % TWO32
  }

  /** The point `b` steps past `a`, in 32-bit arithmetic. */
  function AddSeqno(a: Seqno, b: nat): (r: Seqno) { (a + b) % TWO32 }

  lemma AddSeqnoWraps(n: nat, b: nat, isn: Seqno)
    ensures AddSeqno(Wrap(n, isn), b) == Wrap(n + b, isn)
  {
  }

  /** The offset of `n` from `isn` within one 2^32 block. */
  function Offset(n: Seqno, isn: Seqno): (r: Seqno)
  {
    if n < isn then n + TWO32 - isn else n - isn
  }

  function Unwrap(n: Seqno, isn: Seqno, checkpoint: U64): (r: U64)
  {
    var quotient := checkpoint / TWO32;
    var candidate := Add64(Offset(n, isn), quotient * TWO32);
    if quotient >= 1 && Sub64(checkpoint, Sub64(candidate, TWO32)) < TWO31 then
      Sub64(candidate, TWO32)
    else if Sub64(Add64(candidate, TWO32), checkpoint) < TWO31 then
      Add64(candidate, TWO32)
    else
      candidate
  }

  function Distance(a: int, b: int): nat { if a < b then b - a else a - b }

  /** `v` is an absolute number for `n`: the 32-bit view of `v` is `n`. */
  predicate Represents(v: nat, n: Seqno, isn: Seqno)
  {
    Wrap(v, isn) == n
  }

  /** The only inputs on which the 64-bit arithmetic of `Unwrap` wraps around: the
      checkpoint is in the last block and the nearest number lies beyond 2^64. */
  predicate BeyondTop(n: Seqno, isn: Seqno, checkpoint: U64)
  {
    && checkpoint >= TWO64 - TWO32
    && TWO64 + Offset(n, isn) - checkpoint < TWO31
  }

  /** `v` represents `n` exactly when it sits at the offset of `n` within its block. */
  lemma RepresentsOffset(v: nat, n: Seqno, isn: Seqno)
    ensures Represents(v, n, isn) <==> v % TWO32 == Offset(n, isn)
  {
    var block, rest := v / TWO32, v % TWO32;
    assert isn + v == block * TWO32 + (isn + rest);
    assert (isn + v) % TWO32 == (isn + rest) % TWO32;
  }

  /** `Unwrap` without modular arithmetic: the block below, the block above, or the checkpoint's own. */
  lemma UnwrapCases(n: Seqno, isn: Seqno, checkpoint: U64)
    ensures var own := Offset(n, isn) + checkpoint / TWO32 * TWO32;
            var r := Unwrap(n, isn, checkpoint);
            if checkpoint >= TWO32 && checkpoint - (own - TWO32) < TWO31 then r == own - TWO32
            else if own + TWO32 - checkpoint >= TWO31 then r == own
            else if BeyondTop(n, isn, checkpoint) then r == Offset(n, isn)
            else r == own + TWO32
  {
    assert Offset(n, isn) + checkpoint / TWO32 * TWO32 < TWO64;
  }

  /** Whatever the checkpoint, the result wraps back to the number it came from. */
  lemma UnwrapWraps(n: Seqno, isn: Seqno, checkpoint: U64)
    ensures Represents(Unwrap(n, isn, checkpoint), n, isn)
  {
    hide Unwrap, Represents;
    UnwrapCases(n, isn, checkpoint);
    RepresentsOffset(Unwrap(n, isn, checkpoint), n, isn);
  }

  /** Numbers with the same 32-bit view are a multiple of 2^32 apart. */
  lemma SameViewApart(v: nat, w: nat, n: Seqno, isn: Seqno)
    requires Represents(v, n, isn) && Represents(w, n, isn)
    ensures v == w || Distance(v, w) == TWO32 || Distance(v, w) >= 2 * TWO32
  {
    RepresentsOffset(v, n, isn);
    RepresentsOffset(w, n, isn);
  }

  /** Outside the wrap-around inputs the result is at most 2^31 from the checkpoint, or has no
      representative below it. */
  lemma UnwrapDistance(n: Seqno, isn: Seqno, checkpoint: U64)
    requires !BeyondTop(n, isn, checkpoint)
    ensures var r := Unwrap(n, isn, checkpoint);
            Distance(r, checkpoint) <= TWO31 || (r < TWO32 && r > checkpoint)
  {
    UnwrapCases(n, isn, checkpoint);
  }

  /** No number with the same 32-bit view is nearer to the checkpoint, except exactly on
      the inputs where the 64-bit addition wraps around. */
  lemma UnwrapNearest(n: Seqno, isn: Seqno, checkpoint: U64)
    ensures (forall v: nat | Represents(v, n, isn) ::
               Distance(Unwrap(n, isn, checkpoint), checkpoint) <= Distance(v, checkpoint))
            <==> !BeyondTop(n, isn, checkpoint)
  {
    var r := Unwrap(n, isn, checkpoint);
    UnwrapWraps(n, isn, checkpoint);
    if BeyondTop(n, isn, checkpoint) {
      UnwrapCases(n, isn, checkpoint);
      var nearest := TWO64 + Offset(n, isn);
      RepresentsOffset(nearest, n, isn);
      assert Distance(nearest, checkpoint) < Distance(r, checkpoint);
    } else {
      UnwrapDistance(n, isn, checkpoint);
      forall v: nat | Represents(v, n, isn)
        ensures Distance(r, checkpoint) <= Distance(v, checkpoint)
      {
        SameViewApart(v, r, n, isn);
      }
    }
  }

  /** Such an input: just below 2^64 the nearest number is 2^64 itself, and 0 comes out. */
  lemma UnwrapFails()
    ensures BeyondTop(0, 0, TWO64 - 1) && Unwrap(0, 0, TWO64 - 1) == 0
    ensures Represents(TWO64, 0, 0) && Distance(TWO64, TWO64 - 1) == 1 < Distance(0, TWO64 - 1)
  {
  }

  /** When two numbers are equally near, the one in the checkpoint's own block is chosen. */
  lemma UnwrapTie(n: Seqno, isn: Seqno, checkpoint: U64, v: nat)
    requires Represents(v, n, isn) && Distance(v, checkpoint) == TWO31
    ensures Distance(Unwrap(n, isn, checkpoint), checkpoint) == TWO31
    ensures Unwrap(n, isn, checkpoint) == Offset(n, isn) + checkpoint / TWO32 * TWO32
  {
    hide Unwrap, Represents, Offset;
    var own := Offset(n, isn) + checkpoint / TWO32 * TWO32;
    OwnBlock(n, isn, checkpoint);
    SameViewApart(v, own, n, isn);
    UnwrapCases(n, isn, checkpoint);
  }

  lemma OwnBlock(n: Seqno, isn: Seqno, checkpoint: U64)
    ensures var own := Offset(n, isn) + checkpoint / TWO32 * TWO32;
            Represents(own, n, isn) && Distance(own, checkpoint) < TWO32
  {
    RepresentsOffset(Offset(n, isn) + checkpoint / TWO32 * TWO32, n, isn);
  }

  /** Unwrapping inverts wrapping for every number less than 2^31 away from the checkpoint. */
  lemma RoundTrip(v: U64, isn: Seqno, checkpoint: U64)
    requires Distance(v, checkpoint) < TWO31
    ensures Unwrap(Wrap(v, isn), isn, checkpoint) == v
  {
    var n := Wrap(v, isn);
    RepresentsOffset(v, n, isn);
    RepresentsOffset(TWO64 + Offset(n, isn), n, isn);
    SameViewApart(v, TWO64 + Offset(n, isn), n, isn);
    assert !BeyondTop(n, isn, checkpoint);
    UnwrapWraps(n, isn, checkpoint);
    UnwrapDistance(n, isn, checkpoint);
    SameViewApart(v, Unwrap(n, isn, checkpoint), n, isn);
  }
}
