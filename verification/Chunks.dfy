/** Sorted lists of disjoint intervals of bytes, and the byte map each stands for. */
module Chunks {
  import opened Words
  import opened ReassemblerSpec

  /** The bytes at the indices `first` to `last`, both included. */
  datatype Chunk = Chunk(first: nat, last: nat, data: seq<Byte>)

  predicate ChunkOk(c: Chunk) { c.first <= c.last && |c.data| == c.last - c.first + 1 }

  predicate Sorted(list: seq<Chunk>)
  {
    list == [] || (ChunkOk(list[0]) && Before(list[0].last, list[1..]) && Sorted(list[1..]))
  }

  /** The list starts beyond index `i`. */
  predicate Before(i: int, list: seq<Chunk>) { list == [] || i < list[0].first }

  /** The list stops before index `i`. */
  predicate Behind(list: seq<Chunk>, i: int) { list == [] || list[|list| - 1].last < i }

  predicate InChunk(c: Chunk, i: nat) { c.first <= i < c.first + |c.data| }

  function ChunkBytes(c: Chunk): ByteMap
  {
    map i: nat | c.first <= i < c.first + |c.data| && InChunk(c, i) :: c.data[i - c.first]
  }

  function Contents(list: seq<Chunk>): ByteMap
  {
    if list == [] then map[] else ChunkBytes(list[0]) + Contents(list[1..])
  }

  function TotalLength(list: seq<Chunk>): nat
  {
    if list == [] then 0 else |list[0].data| + TotalLength(list[1..])
  }

  lemma SumAssociates(a: ByteMap, b: ByteMap, c: ByteMap)
    ensures a + b + c == a + (b + c)
  {
  }

  lemma SumCommutes(a: ByteMap, b: ByteMap, c: ByteMap)
    requires b.Keys !! c.Keys
    ensures a + b + c == a + c + b
  {
  }

  lemma DisjointSize(a: ByteMap, b: ByteMap)
    requires a.Keys !! b.Keys
    ensures |a + b| == |a| + |b|
  {
    assert (a + b).Keys == a.Keys + b.Keys;
  }

  lemma {:induction false} ContentsConcat(left: seq<Chunk>, right: seq<Chunk>)
    ensures Contents(left + right) == Contents(left) + Contents(right)
    ensures TotalLength(left + right) == TotalLength(left) + TotalLength(right)
  {
    if left == [] {
      assert left + right == right;
      assert map[] + Contents(right) == Contents(right);
    } else {
      assert (left + right)[1..] == left[1..] + right;
      ContentsConcat(left[1..], right);
      SumAssociates(ChunkBytes(left[0]), Contents(left[1..]), Contents(right));
    }
  }

  /** A concatenation is sorted exactly when its parts are and they meet in order. */
  lemma {:induction false} SortedConcat(left: seq<Chunk>, right: seq<Chunk>)
    ensures Sorted(left + right) <==>
            Sorted(left) && Sorted(right) && (left == [] || Before(left[|left| - 1].last, right))
  {
    if left == [] {
      assert left + right == right;
    } else {
      var tail := left[1..];
      assert (left + right)[1..] == tail + right;
      SortedConcat(tail, right);
      if tail == [] {
        assert tail + right == right;
      } else {
        assert tail[|tail| - 1] == left[|left| - 1];
      }
    }
  }

  lemma {:induction false} SortedAt(list: seq<Chunk>, k: nat)
    requires Sorted(list) && k < |list|
    ensures ChunkOk(list[k])
  {
    if k > 0 {
      SortedAt(list[1..], k - 1);
    }
  }

  /** Every index of the list lies between the first index of its first chunk and the last of its last. */
  lemma {:induction false} ContentsBounds(list: seq<Chunk>, i: nat)
    requires Sorted(list) && i in Contents(list)
    ensures list != [] && list[0].first <= i <= list[|list| - 1].last
  {
    ChainBounds(list);
    if i !in ChunkBytes(list[0]) {
      ContentsBounds(list[1..], i);
    }
  }

  lemma {:induction false} ChainBounds(list: seq<Chunk>)
    requires Sorted(list) && list != []
    ensures list[0].last <= list[|list| - 1].last
  {
    if |list| > 1 {
      ChainBounds(list[1..]);
    }
  }

  /** Inserting a chunk that fits between two parts adds its bytes and leaves the others alone. */
  lemma InsertContents(left: seq<Chunk>, c: Chunk, right: seq<Chunk>)
    requires Sorted(left + right) && ChunkOk(c) && Behind(left, c.first) && Before(c.last, right)
    ensures Sorted(left + [c] + right)
    ensures Contents(left + [c] + right) == Contents(left + right) + ChunkBytes(c)
    ensures TotalLength(left + [c] + right) == TotalLength(left + right) + |c.data|
  {
    SortedConcat(left, right);
    SortedConcat(left, [c]);
    SortedConcat(left + [c], right);
    ContentsConcat(left, right);
    ContentsConcat(left, [c]);
    ContentsConcat(left + [c], right);
    Singleton(c);
    Apart(c, right);
    SumCommutes(Contents(left), ChunkBytes(c), Contents(right));
  }

  lemma Singleton(c: Chunk)
    ensures Contents([c]) == ChunkBytes(c) && TotalLength([c]) == |c.data|
    ensures Sorted([c]) <==> ChunkOk(c)
  {
    assert [c][1..] == [];
    assert ChunkBytes(c) + map[] == ChunkBytes(c);
  }

  lemma Apart(c: Chunk, right: seq<Chunk>)
    requires ChunkOk(c) && Sorted(right) && Before(c.last, right)
    ensures ChunkBytes(c).Keys !! Contents(right).Keys
  {
    forall i | i in Contents(right)
      ensures i !in ChunkBytes(c)
    {
      ContentsBounds(right, i);
    }
  }

  lemma {:induction false} ChunkSize(c: Chunk)
    ensures |ChunkBytes(c)| == |c.data|
    decreases |c.data|
  {
    if c.data == [] {
      assert ChunkBytes(c).Keys == {};
    } else {
      var n := |c.data| - 1;
      var c' := c.(data := c.data[..n]);
      ChunkSize(c');
      assert ChunkBytes(c).Keys == ChunkBytes(c').Keys + {c.first + n};
    }
  }

  /** The lengths add up to the number of distinct indices. */
  lemma {:induction false} TotalLengthIsSize(list: seq<Chunk>)
    requires Sorted(list)
    ensures TotalLength(list) == |Contents(list)|
  {
    if list != [] {
      TotalLengthIsSize(list[1..]);
      ChunkSize(list[0]);
      Apart(list[0], list[1..]);
      DisjointSize(ChunkBytes(list[0]), Contents(list[1..]));
    }
  }
}

/** How a new interval of bytes is spread over the gaps of a sorted chunk list. */
module Placement {
  import opened ReassemblerSpec
  import opened Chunks

  function UpTo(m: ByteMap, hi: nat): ByteMap { map i | i in m && i < hi :: m[i] }

  lemma UpToSkip(m: ByteMap, lo: nat, hi: nat)
    requires lo <= hi && forall i | i in m :: !(lo <= i < hi)
    ensures UpTo(m, lo) == UpTo(m, hi)
  {
  }

  lemma UpToAll(m: ByteMap, lo: nat)
    requires forall i | i in m :: i < lo
    ensures UpTo(m, lo) == m
  {
  }

  lemma UpToAdd(m: ByteMap, c: Chunk)
    requires ChunkOk(c) && forall i | c.first <= i <= c.last :: i in m && m[i] == c.data[i - c.first]
    ensures UpTo(m, c.first) + ChunkBytes(c) == UpTo(m, c.last + 1)
  {
    assert forall i: nat | i in ChunkBytes(c) :: c.first <= i <= c.last;
  }

  /** `news` holds the indices from `lo` up to `hi` that `staged` lacks. */
  ghost predicate IsNews(news: ByteMap, staged: ByteMap, lo: nat, hi: nat)
  {
    forall i: nat :: i in news <==> lo <= i < hi && i !in staged
  }

  /** The new bytes below `at` have been placed; the chunks of `left` are behind `at`, those of `right` are
      still to be looked at. */
  ghost predicate PlacedUpTo(left: seq<Chunk>, right: seq<Chunk>, staged: ByteMap, news: ByteMap, at: nat)
  {
    && Sorted(left + right) && Behind(left, at)
    && Contents(left + right) == staged + UpTo(news, at)
  }

  lemma AheadIsStaged(left: seq<Chunk>, right: seq<Chunk>, staged: ByteMap, news: ByteMap, at: nat, i: nat)
    requires PlacedUpTo(left, right, staged, news, at) && at <= i
    ensures i in staged <==> i in Contents(right)
    ensures Sorted(right)
  {
    SortedConcat(left, right);
    ContentsConcat(left, right);
    if i in Contents(left) {
      ContentsBounds(left, i);
    }
  }

  /** New bytes from `at` on fill the gap before the next chunk, and that chunk itself leaves no room for any. */
  lemma GapIsNews(left: seq<Chunk>, right: seq<Chunk>, staged: ByteMap, news: ByteMap, lo: nat, hi: nat, at: nat)
    requires PlacedUpTo(left, right, staged, news, at) && IsNews(news, staged, lo, hi) && lo <= at
    ensures forall i | at <= i < hi && Before(i, right) :: i in news
    ensures right != [] ==> forall i | i in news && at <= i :: !(right[0].first <= i <= right[0].last)
    ensures Sorted(right)
  {
    AheadIsStaged(left, right, staged, news, at, at);
    forall i | at <= i < hi && Before(i, right)
      ensures i in news
    {
      AheadIsStaged(left, right, staged, news, at, i);
      if i in Contents(right) { ContentsBounds(right, i); }
    }
    forall i | i in news && at <= i && right != []
      ensures !(right[0].first <= i <= right[0].last)
    {
      AheadIsStaged(left, right, staged, news, at, i);
      assert i in ChunkBytes(right[0]) ==> i in Contents(right);
    }
  }

  /** Inserting the part of the new bytes that fits before the next chunk. */
  lemma PlaceChunk(left: seq<Chunk>, right: seq<Chunk>, staged: ByteMap, news: ByteMap, c: Chunk)
    requires PlacedUpTo(left, right, staged, news, c.first)
    requires ChunkOk(c) && Before(c.last, right)
    requires forall i | c.first <= i <= c.last :: i in news && news[i] == c.data[i - c.first]
    ensures PlacedUpTo(left + [c], right, staged, news, c.last + 1)
    ensures TotalLength(left + [c] + right) == TotalLength(left + right) + |c.data|
  {
    InsertContents(left, c, right);
    UpToAdd(news, c);
    SumAssociates(staged, UpTo(news, c.first), ChunkBytes(c));
  }

  /** Moving past a stretch that takes no new bytes, and past the next chunk with it. */
  lemma PassChunk(left: seq<Chunk>, right: seq<Chunk>, staged: ByteMap, news: ByteMap, at: nat, at': nat)
    requires PlacedUpTo(left, right, staged, news, at) && right != [] && at <= at' && right[0].last < at'
    requires forall i | i in news :: !(at <= i < at')
    ensures PlacedUpTo(left + [right[0]], right[1..], staged, news, at')
  {
    assert left + [right[0]] + right[1..] == left + right;
    UpToSkip(news, at, at');
  }
}
