/** What the stream reassembler does, on a map from stream index to byte: a push adds the
    bytes that are inside the window and not yet held, and the contiguous run at the front
    moves to the output.  The laws hold for arbitrary pushes, including ones that contradict
    each other. */
module ReassemblerSpec {
  import opened Words
  import opened ByteStreams

  type ByteMap = map<nat, Byte>

  // ----- Byte maps

  /** Where the run of bytes starting at `i` stops. */
  function RunEnd(m: ByteMap, i: nat): (e: nat)
    ensures i <= e && e !in m
    ensures forall k | i <= k < e :: k in m
    decreases |m|
  {
    if i in m then
      var e := RunEnd(m - {i}, i + 1);
      assert forall k {:trigger k in m} | i <= k < e :: k == i || k in m - {i};
      e
    else
      i
  }

  function Slice(m: ByteMap, i: nat, e: nat): (s: seq<Byte>)
    requires i <= e && forall k | i <= k < e :: k in m
    ensures |s| == e - i && forall k | i <= k < e :: s[k - i] == m[k]
  {
    seq(e - i, k requires 0 <= k < e - i => m[i + k])
  }

  function Without(m: ByteMap, i: nat, e: nat): ByteMap
  {
    map k | k in m && !(i <= k < e) :: m[k]
  }

  /** The bytes of `s`, at their positions. */
  function Bytes(s: seq<Byte>): ByteMap { map i: nat | i < |s| :: s[i] }

  lemma RunEndUnique(m: ByteMap, i: nat, e: nat)
    requires i <= e && e !in m && forall k | i <= k < e :: k in m
    ensures RunEnd(m, i) == e
  {
    var e' := RunEnd(m, i);
    assert e' < e ==> e' in m;
    assert e < e' ==> e in m;
  }

  /** Bytes put in front of `m` only lengthen the run. */
  lemma RunAfter(s: seq<Byte>, m: ByteMap)
    requires forall i | i in m :: |s| <= i
    ensures RunEnd(Bytes(s) + m, 0) == RunEnd(m, |s|)
  {
    var all, e := Bytes(s) + m, RunEnd(m, |s|);
    forall k | 0 <= k < e
      ensures k in all
    {
      assert k < |s| || k in m;
    }
    RunEndUnique(all, 0, e);
  }

  lemma SliceAfter(s: seq<Byte>, m: ByteMap, e: nat)
    requires forall i | i in m :: |s| <= i
    requires |s| <= e && forall k | |s| <= k < e :: k in m
    ensures forall k | 0 <= k < e :: k in Bytes(s) + m
    ensures Slice(Bytes(s) + m, 0, e) == s + Slice(m, |s|, e)
    ensures Without(Bytes(s) + m, 0, e) == Without(m, |s|, e)
  {
    assert forall k | 0 <= k < e :: k < |s| || k in m;
    assert Slice(Bytes(s) + m, 0, e) == s + Slice(m, |s|, e);
  }

  // ----- The reassembler

  datatype Assembly = Assembly(out: Stream, staged: ByteMap, haveEof: bool, eofIndex: nat)

  function EmptyAssembly(capacity: Capacity): Assembly
  {
    Assembly(EmptyStream(capacity), map[], false, 0)
  }

  /** Index of the first byte not yet assembled. */
  function Next(a: Assembly): nat { |a.out.written| }

  /** First index beyond the bytes the capacity leaves room for. */
  function WindowEnd(a: Assembly): nat { a.out.read + a.out.capacity }

  /** Staged bytes lie strictly beyond the first missing index and inside the window. */
  predicate StagedAhead(a: Assembly)
  {
    forall i | i in a.staged :: Next(a) < i < WindowEnd(a)
  }

  /** Every byte received and kept so far: assembled or staged. */
  function Held(a: Assembly): ByteMap { Bytes(a.out.written) + a.staged }

  /** What a push adds: bytes inside the window that are not held yet, so the first write wins. */
  function Newly(a: Assembly, data: seq<Byte>, index: nat): ByteMap
  {
    map i: nat | index <= i < index + |data| && Next(a) <= i < WindowEnd(a) && i !in a.staged :: data[i - index]
  }

  function Staging(a: Assembly, data: seq<Byte>, index: nat): Assembly
  {
    a.(staged := a.staged + Newly(a, data, index))
  }

  function Drained(a: Assembly): Assembly
  {
    var e := RunEnd(a.staged, Next(a));
    a.(out := Written(a.out, Slice(a.staged, Next(a), e)), staged := Without(a.staged, Next(a), e))
  }

  function EofProcessed(a: Assembly): Assembly
  {
    if a.haveEof && Next(a) >= a.eofIndex then a.(out := a.out.(ended := true), staged := map[]) else a
  }

  /** The end index is a 64-bit sum, so for an index near 2^64 it wraps around. */
  function EndIndex(index: U64, len: nat): nat
  {
    if index + len < TWO64 then index + len else index + len - TWO64
  }

  function EofNoted(a: Assembly, eof: bool, end: nat): Assembly
  {
    if eof then a.(haveEof := true, eofIndex := end) else a
  }

  function Push(a: Assembly, data: seq<Byte>, index: U64, eof: bool): Assembly
  {
    EofProcessed(EofNoted(Drained(Staging(a, data, index)), eof, EndIndex(index, |data|)))
  }

  // ----- One push, said on the map of held bytes

  /** Everything known once the push has been taken in. */
  function Merged(a: Assembly, data: seq<Byte>, index: nat): ByteMap { Held(Staging(a, data, index)) }

  /** The outcome of a push: the output is exactly the run of known bytes from index 0, every known byte
      beyond it stays staged, or nothing does once the announced end is reached. */
  ghost predicate PushOutcome(a: Assembly, data: seq<Byte>, index: U64, eof: bool, b: Assembly)
  {
    var known := Merged(a, data, index);
    var e := RunEnd(known, 0);
    && b.out.written == Slice(known, 0, e)
    && b.haveEof == (a.haveEof || eof)
    && b.eofIndex == (if eof then EndIndex(index, |data|) else a.eofIndex)
    && var done := b.haveEof && e >= b.eofIndex;
    && b.staged == (if done then map[] else Without(known, 0, e))
    && b.out == a.out.(written := b.out.written, ended := done || a.out.ended)
  }

  lemma RunFits(out: Stream, m: ByteMap)
    requires forall i | i in m :: i < out.read + out.capacity
    ensures var run := Slice(m, |out.written|, RunEnd(m, |out.written|));
            Written(out, run) == out.(written := out.written + run)
  {
    var n := |out.written|;
    var e := RunEnd(m, n);
    assert n < e ==> e - 1 in m;
    assert Slice(m, n, e)[..e - n] == Slice(m, n, e);
  }

  /** Draining puts the run of held bytes in the output and leaves the rest staged. */
  lemma DrainedExact(a: Assembly)
    requires forall i | i in a.staged :: Next(a) <= i < WindowEnd(a)
    ensures var b, e := Drained(a), RunEnd(Held(a), 0);
            && b.out.written == Slice(Held(a), 0, e)
            && b.staged == Without(Held(a), 0, e)
            && b.out == a.out.(written := b.out.written)
            && b.haveEof == a.haveEof && b.eofIndex == a.eofIndex
  {
    RunFits(a.out, a.staged);
    RunAfter(a.out.written, a.staged);
    SliceAfter(a.out.written, a.staged, RunEnd(a.staged, Next(a)));
  }

  lemma PushExact(a: Assembly, data: seq<Byte>, index: U64, eof: bool)
    requires StagedAhead(a)
    ensures PushOutcome(a, data, index, eof, Push(a, data, index, eof))
  {
    StagingInWindow(a, data, index);
    DrainedExact(Staging(a, data, index));
  }

  lemma StagingInWindow(a: Assembly, data: seq<Byte>, index: nat)
    requires StagedAhead(a)
    ensures forall i | i in Staging(a, data, index).staged :: Next(a) <= i < WindowEnd(a)
  {
  }

  /** A push leaves held bytes as they are and adds exactly those of its bytes that are inside the window. */
  lemma MergedAt(a: Assembly, data: seq<Byte>, index: nat, i: nat)
    requires StagedAhead(a)
    ensures i in Merged(a, data, index) <==> i in Held(a) || (index <= i < index + |data| && i < WindowEnd(a))
    ensures i in Held(a) ==> Merged(a, data, index)[i] == Held(a)[i]
    ensures i in Merged(a, data, index) && i !in Held(a) ==> Merged(a, data, index)[i] == data[i - index]
  {
  }

  lemma OutcomeAt(a: Assembly, data: seq<Byte>, index: U64, eof: bool, b: Assembly, i: nat)
    requires PushOutcome(a, data, index, eof, b)
    ensures i in Held(b) ==> i in Merged(a, data, index) && Held(b)[i] == Merged(a, data, index)[i]
    ensures i in Merged(a, data, index) && i !in Held(b) ==> b.haveEof && Next(b) >= b.eofIndex && i > Next(b)
    ensures i in b.staged ==> i in Merged(a, data, index) && Next(b) < i
    ensures Next(b) !in Merged(a, data, index)
  {
  }

  lemma OutcomeStagedAhead(a: Assembly, data: seq<Byte>, index: U64, eof: bool, b: Assembly)
    requires StagedAhead(a) && PushOutcome(a, data, index, eof, b)
    ensures StagedAhead(b)
  {
    forall i | i in b.staged
      ensures Next(b) < i < WindowEnd(b)
    {
      OutcomeAt(a, data, index, eof, b, i);
      MergedAt(a, data, index, i);
    }
  }

  /** Data that lies wholly behind or wholly beyond the window changes nothing. */
  lemma NothingNew(a: Assembly, data: seq<Byte>, index: nat)
    requires StagedAhead(a) && (data == [] || index + |data| <= Next(a) || WindowEnd(a) <= index)
    ensures Drained(Staging(a, data, index)) == a
  {
    assert Newly(a, data, index) == map[];
    assert a.staged + map[] == a.staged;
    NothingToDrain(a);
  }

  lemma NothingToDrain(a: Assembly)
    requires StagedAhead(a)
    ensures Drained(a) == a
  {
    var n := Next(a);
    RunEndUnique(a.staged, n, n);
    assert Slice(a.staged, n, n) == [];
    assert a.out.written + [] == a.out.written;
    assert Without(a.staged, n, n) == a.staged;
  }

  /** A push never takes anything back from the output, and leaves the reader's side alone. */
  lemma PushKeeps(a: Assembly, data: seq<Byte>, index: U64, eof: bool)
    requires StagedAhead(a)
    ensures var b := Push(a, data, index, eof);
            && StagedAhead(b) && a.out.written <= b.out.written
            && (a.out.ended ==> b.out.ended) && (b.out.ended ==> a.out.ended || b.haveEof)
            && b.out == a.out.(written := b.out.written, ended := b.out.ended)
            && b.haveEof == (a.haveEof || eof) && b.eofIndex == (if eof then EndIndex(index, |data|) else a.eofIndex)
  {
    var b := Push(a, data, index, eof);
    PushExact(a, data, index, eof);
    OutcomeStagedAhead(a, data, index, eof, b);
    OutcomeExtends(a, data, index, eof, b);
  }

  lemma OutcomeExtends(a: Assembly, data: seq<Byte>, index: U64, eof: bool, b: Assembly)
    requires StagedAhead(a) && PushOutcome(a, data, index, eof, b)
    ensures a.out.written <= b.out.written
  {
    forall i | 0 <= i < Next(a)
      ensures i in Merged(a, data, index) && Merged(a, data, index)[i] == a.out.written[i]
    {
      MergedAt(a, data, index, i);
      assert i in Held(a) && Held(a)[i] == a.out.written[i];
    }
  }

  /** A byte once held keeps its value until the end of the stream discards what is staged. */
  lemma HeldKept(a: Assembly, data: seq<Byte>, index: U64, eof: bool, i: nat)
    requires StagedAhead(a) && i in Held(a)
    ensures var b := Push(a, data, index, eof);
            if i in Held(b) then Held(b)[i] == Held(a)[i] else b.out.ended && i > Next(b)
  {
    PushExact(a, data, index, eof);
    MergedAt(a, data, index, i);
    OutcomeAt(a, data, index, eof, Push(a, data, index, eof), i);
  }

  // ----- Every run of pushes and reads

  datatype Op = PushOp(data: seq<Byte>, index: U64, eof: bool) | ReadOp(len: nat)

  function Apply(a: Assembly, op: Op): Assembly
  {
    match op
    case PushOp(data, index, eof) => Push(a, data, index, eof)
    case ReadOp(len) => a.(out := Popped(a.out, len))
  }

  function Run(capacity: Capacity, ops: seq<Op>): Assembly
  {
    if ops == [] then EmptyAssembly(capacity)
    else Apply(Run(capacity, ops[..|ops| - 1]), ops[|ops| - 1])
  }

  lemma ApplyStagedAhead(a: Assembly, op: Op)
    requires StagedAhead(a)
    ensures StagedAhead(Apply(a, op)) && Apply(a, op).out.capacity == a.out.capacity
  {
    if op.PushOp? {
      PushExact(a, op.data, op.index, op.eof);
      OutcomeStagedAhead(a, op.data, op.index, op.eof, Push(a, op.data, op.index, op.eof));
    }
  }

  lemma {:induction false} RunStagedAhead(capacity: Capacity, ops: seq<Op>)
    ensures StagedAhead(Run(capacity, ops)) && Run(capacity, ops).out.capacity == capacity
  {
    if ops != [] {
      RunStagedAhead(capacity, ops[..|ops| - 1]);
      ApplyStagedAhead(Run(capacity, ops[..|ops| - 1]), ops[|ops| - 1]);
    }
  }

  lemma {:induction false} IntervalSize(s: set<nat>, lo: nat, hi: nat)
    requires lo <= hi
    requires forall i | i in s :: lo <= i < hi
    ensures |s| <= hi - lo
    decreases hi - lo
  {
    if lo < hi {
      IntervalSize(s - {lo}, lo + 1, hi);
    } else {
      assert s == {};
    }
  }

  lemma StagedSize(a: Assembly)
    requires StagedAhead(a)
    ensures |a.staged| + Buffered(a.out) <= a.out.capacity
  {
    IntervalSize(a.staged.Keys, Next(a), WindowEnd(a));
  }

  /** Staged plus buffered bytes never exceed the capacity. */
  lemma CapacityRespected(capacity: Capacity, ops: seq<Op>)
    ensures var a := Run(capacity, ops); |a.staged| + Buffered(a.out) <= capacity
  {
    RunStagedAhead(capacity, ops);
    StagedSize(Run(capacity, ops));
  }

  // ----- Pushes that are slices of one stream

  predicate SliceOf(op: Op, stream: seq<Byte>)
  {
    op.PushOp? ==>
      && op.index + |op.data| <= |stream|
      && op.data == stream[op.index..op.index + |op.data|]
      && (op.eof ==> op.index + |op.data| == |stream|)
  }

  predicate SlicesOf(ops: seq<Op>, stream: seq<Byte>)
  {
    forall k | 0 <= k < |ops| :: SliceOf(ops[k], stream)
  }

  predicate SawEof(ops: seq<Op>)
  {
    exists k | 0 <= k < |ops| :: ops[k].PushOp? && ops[k].eof
  }

  predicate Covers(ops: seq<Op>, i: nat)
  {
    exists k | 0 <= k < |ops| :: ops[k].PushOp? && ops[k].index <= i < ops[k].index + |ops[k].data|
  }

  /** Everything in `m` is a byte of `stream`, in its place. */
  predicate Within(m: ByteMap, stream: seq<Byte>)
  {
    forall i | i in m :: i < |stream| && m[i] == stream[i]
  }

  lemma WithinPrefix(a: Assembly, stream: seq<Byte>)
    requires StagedAhead(a) && Within(Held(a), stream)
    ensures a.out.written <= stream
  {
    assert forall i | 0 <= i < Next(a) :: i in Held(a) && Held(a)[i] == a.out.written[i];
    assert Next(a) > 0 ==> Next(a) - 1 in Held(a);
  }

  lemma SliceMerged(a: Assembly, data: seq<Byte>, index: U64, stream: seq<Byte>)
    requires StagedAhead(a) && Within(Held(a), stream)
    requires index + |data| <= |stream| && data == stream[index..index + |data|]
    ensures Within(Merged(a, data, index), stream)
  {
    forall i | i in Merged(a, data, index)
      ensures i < |stream| && Merged(a, data, index)[i] == stream[i]
    {
      MergedAt(a, data, index, i);
    }
  }

  /** Pushing a slice of `stream` keeps everything held in agreement with `stream`. */
  lemma SlicePushed(a: Assembly, data: seq<Byte>, index: U64, eof: bool, stream: seq<Byte>)
    requires StagedAhead(a) && Within(Held(a), stream)
    requires index + |data| <= |stream| && data == stream[index..index + |data|]
    ensures var b := Push(a, data, index, eof); StagedAhead(b) && Within(Held(b), stream) && b.out.written <= stream
  {
    var b := Push(a, data, index, eof);
    PushExact(a, data, index, eof);
    OutcomeStagedAhead(a, data, index, eof, b);
    SliceMerged(a, data, index, stream);
    forall i | i in Held(b)
      ensures i < |stream| && Held(b)[i] == stream[i]
    {
      OutcomeAt(a, data, index, eof, b, i);
    }
    WithinPrefix(b, stream);
  }

  /** The state after slices of `stream`: consistent, and ended exactly when the end was announced and
      everything has been assembled. */
  predicate SlicedState(a: Assembly, stream: seq<Byte>, sawEof: bool)
  {
    && StagedAhead(a)
    && Within(Held(a), stream)
    && a.haveEof == sawEof
    && (sawEof ==> a.eofIndex == |stream|)
    && (a.out.ended <==> sawEof && Next(a) == |stream|)
  }

  lemma SlicedPush(a: Assembly, data: seq<Byte>, index: U64, eof: bool, stream: seq<Byte>, sawEof: bool)
    requires SlicedState(a, stream, sawEof) && |stream| < TWO64 && SliceOf(PushOp(data, index, eof), stream)
    ensures SlicedState(Push(a, data, index, eof), stream, sawEof || eof)
  {
    SlicePushed(a, data, index, eof, stream);
    PushExact(a, data, index, eof);
    OutcomeExtends(a, data, index, eof, Push(a, data, index, eof));
  }

  lemma ApplySliced(a: Assembly, op: Op, stream: seq<Byte>, sawEof: bool)
    requires SlicedState(a, stream, sawEof) && |stream| < TWO64 && SliceOf(op, stream)
    ensures SlicedState(Apply(a, op), stream, sawEof || (op.PushOp? && op.eof))
  {
    if op.PushOp? {
      SlicedPush(a, op.data, op.index, op.eof, stream, sawEof);
    }
  }

  lemma SawEofLast(ops: seq<Op>)
    requires ops != []
    ensures var init, op := ops[..|ops| - 1], ops[|ops| - 1];
            SawEof(ops) <==> SawEof(init) || (op.PushOp? && op.eof)
  {
    var init := ops[..|ops| - 1];
    if SawEof(init) {
      var k :| 0 <= k < |init| && init[k].PushOp? && init[k].eof;
      assert ops[k].PushOp? && ops[k].eof;
    }
  }

  lemma {:induction false} RunSliced(capacity: Capacity, stream: seq<Byte>, ops: seq<Op>)
    requires |stream| < TWO64 && SlicesOf(ops, stream)
    ensures SlicedState(Run(capacity, ops), stream, SawEof(ops))
  {
    if ops != [] {
      var init, op := ops[..|ops| - 1], ops[|ops| - 1];
      RunSliced(capacity, stream, init);
      SawEofLast(ops);
      ApplySliced(Run(capacity, init), op, stream, SawEof(init));
    }
  }

  /** After every run of slices and reads the output is a prefix of the stream, and it has been ended
      exactly when a slice announced the end and the whole stream has come out. */
  lemma EndedExactlyWhenComplete(capacity: Capacity, stream: seq<Byte>, ops: seq<Op>)
    requires |stream| < TWO64 && SlicesOf(ops, stream)
    ensures var out := Run(capacity, ops).out;
            && out.written <= stream
            && (out.ended <==> SawEof(ops) && out.written == stream)
  {
    RunSliced(capacity, stream, ops);
    WithinPrefix(Run(capacity, ops), stream);
  }

  lemma CoversLast(ops: seq<Op>, i: nat)
    requires ops != []
    ensures var init, op := ops[..|ops| - 1], ops[|ops| - 1];
            Covers(ops, i) <==> Covers(init, i) || (op.PushOp? && op.index <= i < op.index + |op.data|)
  {
    var init := ops[..|ops| - 1];
    if Covers(init, i) {
      var k :| 0 <= k < |init| && init[k].PushOp? && init[k].index <= i < init[k].index + |init[k].data|;
      assert ops[k].PushOp? && ops[k].index <= i < ops[k].index + |ops[k].data|;
    }
  }

  lemma HeldAfterPush(a: Assembly, data: seq<Byte>, index: U64, eof: bool, b: Assembly, stream: seq<Byte>, i: nat)
    requires StagedAhead(a) && PushOutcome(a, data, index, eof, b) && |stream| <= WindowEnd(a)
    requires index + |data| <= |stream| && Within(Held(a), stream)
    requires b.haveEof ==> b.eofIndex == |stream|
    ensures i in Held(b) <==> i in Held(a) || index <= i < index + |data|
  {
    MergedAt(a, data, index, i);
    OutcomeAt(a, data, index, eof, b, i);
  }

  lemma HeldAfter(a: Assembly, op: Op, stream: seq<Byte>, sawEof: bool, i: nat)
    requires SlicedState(a, stream, sawEof)
    requires |stream| < TWO64 && |stream| <= a.out.capacity && SliceOf(op, stream)
    ensures i in Held(Apply(a, op)) <==> i in Held(a) || (op.PushOp? && op.index <= i < op.index + |op.data|)
  {
    if op.PushOp? {
      PushExact(a, op.data, op.index, op.eof);
      HeldAfterPush(a, op.data, op.index, op.eof, Push(a, op.data, op.index, op.eof), stream, i);
    }
  }

  /** When the stream fits in the capacity, what is held is what was covered. */
  lemma {:induction false} HeldIsCovered(capacity: Capacity, stream: seq<Byte>, ops: seq<Op>, i: nat)
    requires |stream| <= capacity && |stream| < TWO64 && SlicesOf(ops, stream)
    ensures i in Held(Run(capacity, ops)) <==> Covers(ops, i)
  {
    if ops != [] {
      var init, op := ops[..|ops| - 1], ops[|ops| - 1];
      HeldIsCovered(capacity, stream, init, i);
      RunSliced(capacity, stream, init);
      RunStagedAhead(capacity, init);
      CoversLast(ops, i);
      HeldAfter(Run(capacity, init), op, stream, SawEof(init), i);
    }
  }

  /** Two states that hold the same bytes of a stream are the same state. */
  lemma SameHeld(a: Assembly, a': Assembly, stream: seq<Byte>)
    requires StagedAhead(a) && StagedAhead(a')
    requires Within(Held(a), stream) && Within(Held(a'), stream)
    requires forall i: nat :: i in Held(a) <==> i in Held(a')
    ensures a.out.written == a'.out.written && a.staged == a'.staged
  {
    assert Next(a) !in Held(a) && Next(a') !in Held(a');
    assert Next(a) == Next(a');
    WithinPrefix(a, stream);
    WithinPrefix(a', stream);
    forall i: nat
      ensures i in a.staged <==> i in a'.staged
      ensures i in a.staged ==> a.staged[i] == a'.staged[i]
    {
      assert i in Held(a) <==> i in Held(a');
      assert i in a.staged ==> a.staged[i] == Held(a)[i];
      assert i in a'.staged ==> a'.staged[i] == Held(a')[i];
    }
  }

  /** Order, overlap and duplication of the slices do not matter. */
  lemma OrderIrrelevant(capacity: Capacity, stream: seq<Byte>, ops: seq<Op>, ops': seq<Op>)
    requires |stream| <= capacity && |stream| < TWO64
    requires SlicesOf(ops, stream) && SlicesOf(ops', stream)
    requires forall i: nat :: Covers(ops, i) <==> Covers(ops', i)
    requires SawEof(ops) <==> SawEof(ops')
    ensures var a, a' := Run(capacity, ops), Run(capacity, ops');
            && a.out.written == a'.out.written
            && a.out.ended == a'.out.ended
            && a.staged == a'.staged
  {
    var a, a' := Run(capacity, ops), Run(capacity, ops');
    RunSliced(capacity, stream, ops);
    RunSliced(capacity, stream, ops');
    forall i: nat
      ensures i in Held(a) <==> i in Held(a')
    {
      HeldIsCovered(capacity, stream, ops, i);
      HeldIsCovered(capacity, stream, ops', i);
    }
    SameHeld(a, a', stream);
  }

  /** Slices that cover the whole stream reassemble it. */
  lemma CoverAssembles(capacity: Capacity, stream: seq<Byte>, ops: seq<Op>)
    requires |stream| <= capacity && |stream| < TWO64 && SlicesOf(ops, stream)
    requires forall i: nat | i < |stream| :: Covers(ops, i)
    ensures Run(capacity, ops).out.written == stream
    ensures Run(capacity, ops).out.ended <==> SawEof(ops)
  {
    var a := Run(capacity, ops);
    RunSliced(capacity, stream, ops);
    HeldIsCovered(capacity, stream, ops, Next(a));
    WithinPrefix(a, stream);
    assert Next(a) !in Held(a);
  }
}
