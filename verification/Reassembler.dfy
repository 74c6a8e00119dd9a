/** The stream reassembler on its sorted list of disjoint intervals. */
module Reassembler {
  import opened Words
  import opened Wrapping
  import opened ByteStreams
  import opened ReassemblerSpec
  import opened Chunks
  import opened Placement

  // ----- Facts about the byte map that the loops rely on

  /** Noting the end first or last makes no difference to staging and draining. */
  lemma EofNotedCommutes(a: Assembly, data: seq<Byte>, index: nat, eof: bool, end: nat)
    ensures Drained(Staging(EofNoted(a, eof, end), data, index)) == EofNoted(Drained(Staging(a, data, index)), eof, end)
  {
    assert Newly(EofNoted(a, eof, end), data, index) == Newly(a, data, index);
  }

  /** Moving the chunk at the front of what is left extends the drained slice by its bytes. */
  lemma DrainChunk(m: ByteMap, n: nat, at: nat, list: seq<Chunk>)
    requires Sorted(list) && list != [] && list[0].first == at && n <= at
    requires forall i | n <= i < at :: i in m
    requires Contents(list) == Without(m, n, at)
    ensures forall i | n <= i <= list[0].last :: i in m
    ensures Slice(m, n, at) + list[0].data == Slice(m, n, list[0].last + 1)
    ensures Contents(list[1..]) == Without(m, n, list[0].last + 1)
  {
    hide Slice;
    var c, tail := list[0], list[1..];
    Apart(c, tail);
    HeadContents(list);
    forall i | at <= i <= c.last
      ensures i in m && m[i] == c.data[i - at]
    {
      assert i in Contents(list) && i in Without(m, n, at);
    }
    SliceExtends(m, n, at, c);
    TailContents(m, n, at, c, Contents(tail));
  }

  lemma HeadContents(list: seq<Chunk>)
    requires Sorted(list) && list != []
    ensures forall i | list[0].first <= i <= list[0].last ::
              i in Contents(list) && Contents(list)[i] == list[0].data[i - list[0].first]
  {
    var c := list[0];
    Apart(c, list[1..]);
    assert forall i | c.first <= i <= c.last :: InChunk(c, i) && i in ChunkBytes(c);
  }

  lemma SliceExtends(m: ByteMap, n: nat, at: nat, c: Chunk)
    requires ChunkOk(c) && c.first == at && n <= at
    requires forall i | n <= i < at :: i in m
    requires forall i | at <= i <= c.last :: i in m && m[i] == c.data[i - at]
    ensures forall i | n <= i <= c.last :: i in m
    ensures Slice(m, n, at) + c.data == Slice(m, n, c.last + 1)
  {
  }

  lemma TailContents(m: ByteMap, n: nat, at: nat, c: Chunk, tail: ByteMap)
    requires ChunkOk(c) && c.first == at && n <= at
    requires ChunkBytes(c).Keys !! tail.Keys
    requires ChunkBytes(c) + tail == Without(m, n, at)
    ensures tail == Without(m, n, c.last + 1)
  {
    forall i: nat
      ensures i in tail <==> i in Without(m, n, c.last + 1)
    {
      assert i in ChunkBytes(c) + tail <==> i in Without(m, n, at);
      assert i in ChunkBytes(c) <==> c.first <= i <= c.last;
    }
  }

  /** First index beyond the bytes of `data` that the window admits. */
  function NewsEnd(data: seq<Byte>, index: nat, maxIndex: nat): nat { Min(index + |data|, maxIndex + 1) }

  /** The variables of the staging loop describe the new bytes.  When the 64-bit end index has wrapped
      around, all of `data` lies beyond the window. */
  ghost predicate Incoming(data: seq<Byte>, index: nat, tempStart: nat, tempEnd: nat, maxIndex: nat,
                           staged: ByteMap, news: ByteMap)
  {
    && index <= tempStart
    && (tempEnd == index + |data| - 1 || maxIndex < index)
    && IsNews(news, staged, tempStart, NewsEnd(data, index, maxIndex))
    && (forall i | i in news :: news[i] == data[i - index])
  }

  /** The start values of the staging loop do describe them. */
  lemma IncomingHere(a: Assembly, data: seq<Byte>, index: U64, tempStart: nat, tempEnd: nat)
    requires WindowEnd(a) >= 1 && WindowEnd(a) + |data| <= TWO64 && data != []
    requires tempStart == Max(Next(a), index)
    requires var end := EndIndex(index, |data|); tempEnd == if end == 0 then TWO64 - 1 else end - 1
    ensures Incoming(data, index, tempStart, tempEnd, WindowEnd(a) - 1, a.staged, Newly(a, data, index))
  {
  }

  /** The last index of the window, in the program's unsigned arithmetic. */
  function MaxIndex(start: U64, buffered: U64, capacity: U64): U64
  {
    Add64(Sub64(start, buffered), Sub64(capacity, 1))
  }

  /** It is the index before the window's end, unless there is none: an empty window at index 0 comes out as
      everything. */
  lemma MaxIndexExact(start: U64, buffered: U64, capacity: U64)
    requires buffered <= start && start - buffered + capacity < TWO64
    ensures MaxIndex(start, buffered, capacity) == start - buffered + capacity - 1 <==> start - buffered + capacity >= 1
    ensures start - buffered + capacity == 0 ==> MaxIndex(start, buffered, capacity) == TWO64 - 1
  {
  }

  /** Where the staging loop starts, where the data ends, and where the window ends. */
  method StageBounds(ghost a: Assembly, data: seq<Byte>, start: U64, buffered: U64, capacity: U64, index: U64, end: U64)
    returns (tempStart: nat, tempEnd: U64, maxIndex: nat)
    requires start == Next(a) && buffered == Buffered(a.out) && capacity == a.out.capacity >= 1
    requires data != [] && start + capacity + |data| < TWO64 && end == EndIndex(index, |data|)
    ensures Incoming(data, index, tempStart, tempEnd, maxIndex, a.staged, Newly(a, data, index))
  {
    hide Incoming, Newly, MaxIndex;
    tempStart := Max(start, index);
    tempEnd := if end == 0 then TWO64 - 1 else end - 1;
    maxIndex := MaxIndex(start, buffered, capacity);
    MaxIndexExact(start, buffered, capacity);
    assert maxIndex == WindowEnd(a) - 1;
    IncomingHere(a, data, index, tempStart, tempEnd);
  }

  lemma StartPlacing(list: seq<Chunk>, staged: ByteMap, news: ByteMap, lo: nat)
    requires Sorted(list) && Contents(list) == staged && forall i | i in news :: lo <= i
    ensures PlacedUpTo([], list, staged, news, lo)
  {
    assert [] + list == list;
    NoneUpTo(news, lo);
    assert staged + map[] == staged;
  }

  lemma NoneUpTo(news: ByteMap, lo: nat)
    requires forall i | i in news :: lo <= i
    ensures UpTo(news, lo) == map[]
  {
  }

  /** `c` is the stretch of `data` from `c.first` to `c.last`. */
  predicate PartOf(c: Chunk, data: seq<Byte>, index: nat)
  {
    && index <= c.first <= c.last < index + |data|
    && c.data == data[c.first - index..c.last + 1 - index]
  }

  /** Placing a stretch of the new bytes in front of the next chunk. */
  lemma PlacePart(left: seq<Chunk>, right: seq<Chunk>, staged: ByteMap, news: ByteMap, data: seq<Byte>, index: nat,
                  tempStart: nat, tempEnd: nat, maxIndex: nat, c: Chunk)
    requires Incoming(data, index, tempStart, tempEnd, maxIndex, staged, news)
    requires PlacedUpTo(left, right, staged, news, c.first)
    requires PartOf(c, data, index) && tempStart <= c.first && c.last < NewsEnd(data, index, maxIndex)
             && Before(c.last, right)
    ensures PlacedUpTo(left + [c], right, staged, news, c.last + 1)
    ensures TotalLength(left + [c] + right) == TotalLength(left + right) + |c.data|
  {
    forall i | c.first <= i <= c.last
      ensures i in news && news[i] == c.data[i - c.first]
    {
      GapIsNews(left, right, staged, news, tempStart, NewsEnd(data, index, maxIndex), c.first);
    }
    PlaceChunk(left, right, staged, news, c);
  }

  /** No new byte lies between `at` and the next chunk. */
  predicate GapDone(right: seq<Chunk>, data: seq<Byte>, index: nat, maxIndex: nat, at: nat)
  {
    NewsEnd(data, index, maxIndex) <= at || (right != [] && right[0].first <= at)
  }

  lemma PassPart(left: seq<Chunk>, right: seq<Chunk>, staged: ByteMap, news: ByteMap, data: seq<Byte>, index: nat,
                 tempStart: nat, tempEnd: nat, maxIndex: nat, at: nat, next: nat)
    requires Incoming(data, index, tempStart, tempEnd, maxIndex, staged, news)
    requires PlacedUpTo(left, right, staged, news, at)
    requires tempStart <= at && right != [] && GapDone(right, data, index, maxIndex, at)
    requires next == Max(right[0].last + 1, at)
    ensures PlacedUpTo(left + [right[0]], right[1..], staged, news, next)
  {
    GapIsNews(left, right, staged, news, tempStart, NewsEnd(data, index, maxIndex), at);
    PassChunk(left, right, staged, news, at, next);
  }

  lemma AllPlaced(left: seq<Chunk>, right: seq<Chunk>, staged: ByteMap, news: ByteMap, data: seq<Byte>, index: nat,
                  tempStart: nat, tempEnd: nat, maxIndex: nat, at: nat)
    requires Incoming(data, index, tempStart, tempEnd, maxIndex, staged, news)
    requires PlacedUpTo(left, right, staged, news, at)
    requires tempStart <= at && GapDone(right, data, index, maxIndex, at)
    requires NewsEnd(data, index, maxIndex) <= at || tempEnd <= right[0].last
    ensures Contents(left + right) == staged + news
  {
    GapIsNews(left, right, staged, news, tempStart, NewsEnd(data, index, maxIndex), at);
    UpToAll(news, at);
  }

  lemma Regroup(left: seq<Chunk>, right: seq<Chunk>)
    requires right != []
    ensures left + right == left + [right[0]] + right[1..]
  {
  }

  /** Only indices of `data` are placed, and no new byte stays behind in the gap up to `limit`. */
  lemma PartFits(staged: ByteMap, news: ByteMap, data: seq<Byte>, index: nat,
                 tempStart: nat, tempEnd: nat, maxIndex: nat, at: nat, limit: nat)
    requires Incoming(data, index, tempStart, tempEnd, maxIndex, staged, news)
    requires tempStart <= at <= limit
    ensures var last := Min(tempEnd, Min(limit, maxIndex));
            var end := NewsEnd(data, index, maxIndex);
            if at <= last then index <= at && last < index + |data| && last < end && (last == limit || last + 1 == end)
            else end <= at
  {
  }

  lemma InsertPart(list: seq<Chunk>, left: seq<Chunk>, right: seq<Chunk>, staged: ByteMap, news: ByteMap,
                   data: seq<Byte>, index: nat, tempStart: nat, tempEnd: nat, maxIndex: nat, c: Chunk)
    requires Incoming(data, index, tempStart, tempEnd, maxIndex, staged, news)
    requires list == left + right && PlacedUpTo(left, right, staged, news, c.first)
    requires PartOf(c, data, index) && tempStart <= c.first && c.last < NewsEnd(data, index, maxIndex)
             && Before(c.last, right)
    ensures var list' := list[..|left|] + [c] + list[|left|..];
            && list' == left + [c] + right && Sorted(list')
            && TotalLength(list') == TotalLength(list) + |c.data|
    ensures PlacedUpTo(left + [c], right, staged, news, c.last + 1)
  {
    PlacePart(left, right, staged, news, data, index, tempStart, tempEnd, maxIndex, c);
    assert list[..|left|] + [c] + list[|left|..] == left + [c] + right;
  }

  /** Appending the last stretch of the new bytes completes the placement. */
  lemma TailPlaced(list: seq<Chunk>, staged: ByteMap, news: ByteMap, data: seq<Byte>, index: nat,
                   tempStart: nat, tempEnd: nat, maxIndex: nat, c: Chunk)
    requires Incoming(data, index, tempStart, tempEnd, maxIndex, staged, news)
    requires PlacedUpTo(list, [], staged, news, c.first)
    requires PartOf(c, data, index) && tempStart <= c.first && c.last + 1 == NewsEnd(data, index, maxIndex)
    ensures Sorted(list + [c]) && Contents(list + [c]) == staged + news
    ensures TotalLength(list + [c]) == TotalLength(list) + |c.data|
  {
    hide Incoming, PlacedUpTo, Sorted, Contents, TotalLength;
    PlacePart(list, [], staged, news, data, index, tempStart, tempEnd, maxIndex, c);
    AllPlaced(list + [c], [], staged, news, data, index, tempStart, tempEnd, maxIndex, c.last + 1);
    assert list + [c] + [] == list + [c] && list + [] == list;
  }

  /** Draining has moved the bytes from `n` to `at` of `m` to the output. */
  ghost predicate DrainedTo(start: Stream, m: ByteMap, n: nat, at: nat, out: Stream, list: seq<Chunk>)
  {
    && n <= at && (forall i | n <= i < at :: i in m)
    && Sorted(list) && Contents(list) == Without(m, n, at)
    && out.written == start.written + Slice(m, n, at)
    && out == start.(written := out.written)
  }

  ghost predicate Drainable(start: Stream, m: ByteMap, n: nat)
  {
    n == |start.written| && forall i | i in m :: n <= i < start.read + start.capacity
  }

  lemma DrainStart(start: Stream, m: ByteMap, n: nat, list: seq<Chunk>)
    requires Drainable(start, m, n) && Sorted(list) && Contents(list) == m
    ensures DrainedTo(start, m, n, n, start, list)
  {
    assert Without(m, n, n) == m;
    assert start.written + Slice(m, n, n) == start.written;
  }

  lemma DrainStep(start: Stream, m: ByteMap, n: nat, at: nat, out: Stream, list: seq<Chunk>)
    requires Drainable(start, m, n) && DrainedTo(start, m, n, at, out, list)
    requires list != [] && list[0].first == at
    ensures var out' := Written(out, list[0].data);
            && DrainedTo(start, m, n, list[0].last + 1, out', list[1..])
            && |out'.written| == list[0].last + 1
    ensures |out.written| == at && |list[0].data| == list[0].last - at + 1
    ensures TotalLength(list[1..]) == TotalLength(list) - |list[0].data|
  {
    hide Contents, Without, Slice;
    DrainChunk(m, n, at, list);
    var c := list[0];
    assert c.last in m;
    WriteFits(out, c.data);
    assert start.written + Slice(m, n, at) + c.data == start.written + (Slice(m, n, at) + c.data);
  }

  lemma WriteFits(out: Stream, data: seq<Byte>)
    requires |data| <= Free(out)
    ensures Written(out, data) == out.(written := out.written + data)
  {
    assert data[..|data|] == data;
  }

  lemma DrainedSorted(start: Stream, m: ByteMap, n: nat, at: nat, out: Stream, list: seq<Chunk>)
    requires DrainedTo(start, m, n, at, out, list)
    ensures Sorted(list) && Contents(list) == Without(m, n, at)
    ensures out == start.(written := out.written) && start.written <= out.written
  {
  }

  lemma DrainStop(start: Stream, m: ByteMap, n: nat, at: nat, out: Stream, list: seq<Chunk>)
    requires Drainable(start, m, n) && DrainedTo(start, m, n, at, out, list)
    requires list == [] || list[0].first != at
    ensures RunEnd(m, n) == at
    ensures out == Written(start, Slice(m, n, at))
    ensures forall i | i in Contents(list) :: at < i < start.read + start.capacity
  {
    RunFits(start, m);
    if list != [] {
      assert list[0].first in ChunkBytes(list[0]);
      assert list[0].first in Contents(list);
    }
    forall i | i in Contents(list)
      ensures at < i
    {
      ContentsBounds(list, i);
    }
    assert at !in Contents(list);
    RunEndUnique(m, n, at);
  }

  class StreamReassembler {
    const output: ByteStream
    const capacity: nat
    var stagingList: seq<Chunk>
    var stagingSize: nat
    var unassembledStart: nat
    var haveEof: bool
    var eofIndex: nat

    /** The representation, without the demand that staged bytes wait for a missing one. */
    ghost predicate Consistent()
      reads this, output
    {
      && output.Valid() && output.capacity == capacity >= 1
      && Sorted(stagingList) && stagingSize == TotalLength(stagingList)
      && unassembledStart == output.writtenLength
    }

    ghost predicate Valid()
      reads this, output
    {
      Consistent() && StagedAhead(View())
    }

    ghost function View(): Assembly
      requires output.Valid()
      reads this, output
    {
      Assembly(output.View(), Contents(stagingList), haveEof, eofIndex)
    }

    constructor (capacity: nat)
      requires capacity >= 1
      ensures Valid() && View() == EmptyAssembly(capacity) && fresh(output)
    {
      output := new ByteStream(capacity);
      this.capacity := capacity;
      stagingList, stagingSize, unassembledStart, haveEof, eofIndex := [], 0, 0, false, 0;
    }

    /** Each staged index is counted once, however often it was pushed. */
    function UnassembledBytes(): (n: nat)
      requires Valid()
      reads this, output
      ensures n == |View().staged|
    {
      TotalLengthIsSize(stagingList);
      stagingSize
    }

    method EofProcess()
      requires Valid()
      modifies this, output
      ensures Valid() && View() == EofProcessed(old(View()))
    {
      if haveEof && unassembledStart >= eofIndex {
        output.EndInput();
        stagingList := [];
        stagingSize := 0;
      }
    }

    /** Puts the parts of `data` that are new and inside the window into the gaps of the list. */
    method Stage(data: seq<Byte>, index: U64, end: U64)
      requires Valid() && data != [] && unassembledStart + capacity + |data| < TWO64
      requires end == EndIndex(index, |data|) && end >= unassembledStart
      modifies this`stagingList, this`stagingSize
      ensures Consistent() && View() == Staging(old(View()), data, index)
    {
      hide Contents, TotalLength, Sorted, Newly, StagedAhead, Incoming, EndIndex;
      ghost var a := View();
      var tempStart, tempEnd, maxIndex :=
        StageBounds(a, data, unassembledStart, output.BufferSize(), capacity, index, end);
      Place(data, index, tempStart, tempEnd, maxIndex, a.staged, Newly(a, data, index));
      assert View() == Staging(a, data, index);
    }

    /** The walk over the list: each gap takes the new bytes that fall into it, the rest is appended. */
    method Place(data: seq<Byte>, index: U64, tempStart: nat, tempEnd: U64, maxIndex: nat,
                 ghost staged: ByteMap, ghost news: ByteMap)
      requires Sorted(stagingList) && stagingSize == TotalLength(stagingList) && Contents(stagingList) == staged
      requires Incoming(data, index, tempStart, tempEnd, maxIndex, staged, news)
      modifies this`stagingList, this`stagingSize
      ensures Sorted(stagingList) && stagingSize == TotalLength(stagingList)
      ensures Contents(stagingList) == staged + news
    {
      hide Contents, TotalLength, Sorted, UpTo, PlacedUpTo;
      var k, next, placed := 0, tempStart, false;
      ghost var left, right := [], stagingList;
      StartPlacing(stagingList, staged, news, tempStart);
      while k < |stagingList| && !placed
        invariant stagingList == left + right && k == |left| && tempStart <= next && (placed ==> right != [])
        invariant Sorted(stagingList) && stagingSize == TotalLength(stagingList)
        invariant if placed then Contents(stagingList) == staged + news else PlacedUpTo(left, right, staged, news, next)
        decreases |right|, !placed
      {
        SortedAt(stagingList, k);
        var iterStart, iterEnd := stagingList[k].first, stagingList[k].last;
        ghost var at := next;
        if next < iterStart {
          var maxEnd := Min(tempEnd, Min(iterStart - 1, maxIndex));
          PartFits(staged, news, data, index, tempStart, tempEnd, maxIndex, next, iterStart - 1);
          if maxEnd >= next {
            var c := Chunk(next, maxEnd, data[next - index..maxEnd + 1 - index]);
            InsertPart(stagingList, left, right, staged, news, data, index, tempStart, tempEnd, maxIndex, c);
            stagingList := stagingList[..k] + [c] + stagingList[k..];
            stagingSize := stagingSize + |c.data|;
            k, left, at := k + 1, left + [c], maxEnd + 1;
          }
          if iterEnd + 1 > tempEnd {
            placed := true;
          } else {
            next := iterEnd + 1;
          }
        } else if tempEnd <= iterEnd {
          placed := true;
        } else {
          next := Max(iterEnd + 1, next);
        }
        if placed {
          AllPlaced(left, right, staged, news, data, index, tempStart, tempEnd, maxIndex, at);
        } else {
          PassPart(left, right, staged, news, data, index, tempStart, tempEnd, maxIndex, at, next);
          Regroup(left, right);
          k, left, right := k + 1, left + [right[0]], right[1..];
        }
      }
      if k == |stagingList| {
        assert right == [] && left == stagingList && stagingList + [] == stagingList;
        var maxEnd := Min(tempEnd, maxIndex);
        PartFits(staged, news, data, index, tempStart, tempEnd, maxIndex, next, Max(next, maxIndex));
        if next <= maxEnd {
          var c := Chunk(next, maxEnd, data[next - index..maxEnd + 1 - index]);
          TailPlaced(stagingList, staged, news, data, index, tempStart, tempEnd, maxIndex, c);
          stagingList := stagingList + [c];
          stagingSize := stagingSize + |c.data|;
        } else {
          AllPlaced(stagingList, [], staged, news, data, index, tempStart, tempEnd, maxIndex, next);
        }
      }
    }

    /** Moves the first interval, which continues the output. */
    method DrainFirst(ghost start: Stream, ghost m: ByteMap, ghost n: nat)
      requires Consistent() && stagingList != [] && stagingList[0].first == unassembledStart
      requires Drainable(start, m, n) && DrainedTo(start, m, n, unassembledStart, output.View(), stagingList)
      modifies this`stagingList, this`stagingSize, this`unassembledStart, output
      ensures Consistent() && stagingList == old(stagingList)[1..]
      ensures DrainedTo(start, m, n, unassembledStart, output.View(), stagingList)
    {
      hide Contents, TotalLength, Sorted, DrainedTo, Drainable, Written;
      DrainStep(start, m, n, unassembledStart, output.View(), stagingList);
      var size := stagingList[0].last - stagingList[0].first + 1;
      var _ := output.Write(stagingList[0].data);
      unassembledStart := stagingList[0].last + 1;
      stagingList := stagingList[1..];
      stagingSize := stagingSize - size;
      DrainedSorted(start, m, n, unassembledStart, output.View(), stagingList);
    }

    /** Moves the intervals at the front to the output as long as they continue it. */
    method DrainStaged()
      requires Consistent() && forall i | i in Contents(stagingList) :: Next(View()) <= i < WindowEnd(View())
      modifies this, output
      ensures Valid() && View() == Drained(old(View()))
    {
      hide Contents, TotalLength, Sorted, DrainedTo, Written;
      ghost var start, m, n := output.View(), Contents(stagingList), unassembledStart;
      DrainStart(start, m, n, stagingList);
      while stagingList != [] && stagingList[0].first == unassembledStart
        invariant Consistent() && haveEof == old(haveEof) && eofIndex == old(eofIndex)
        invariant DrainedTo(start, m, n, unassembledStart, output.View(), stagingList)
        decreases |stagingList|
      {
        DrainFirst(start, m, n);
      }
      DrainStop(start, m, n, unassembledStart, output.View(), stagingList);
      DrainedSorted(start, m, n, unassembledStart, output.View(), stagingList);
    }

    /** Accepts a substring of the stream, possibly out of order and overlapping what is held. */
    method PushSubstring(data: seq<Byte>, index: U64, eof: bool)
      requires Valid() && unassembledStart + capacity + |data| < TWO64
      modifies this, output
      ensures Valid() && View() == Push(old(View()), data, index, eof)
    {
      hide Contents, TotalLength, Sorted, Drained, Staging, Newly;
      ghost var a := View();
      var end := EndIndex(index, |data|);
      EofNotedCommutes(a, data, index, eof, end);
      if eof {
        haveEof := true;
        eofIndex := end;
      }
      if |data| == 0 || end < unassembledStart {
        NothingNew(a, data, index);
        EofProcess();
        return;
      }
      Stage(data, index, end);
      StagingInWindow(EofNoted(a, eof, end), data, index);
      DrainStaged();
      EofProcess();
    }
  }
}
