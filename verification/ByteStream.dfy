/** The flow-controlled in-memory byte stream. */
module ByteStreams {
  import opened Words

  /** What a stream is to its users: everything ever written, how much of it has been
      popped, and two sticky flags.  The buffered bytes are `written[read..]`. */
  datatype StreamState = StreamState(capacity: nat, written: seq<Byte>, read: nat, ended: bool, error: bool)

  predicate StreamOk(s: StreamState) { s.read <= |s.written| <= s.read + s.capacity }

  type Stream = s: StreamState | StreamOk(s) witness StreamState(0, [], 0, false, false)

  function EmptyStream(capacity: nat): Stream { StreamState(capacity, [], 0, false, false) }

  function Buffered(s: Stream): nat { |s.written| - s.read }

  function Free(s: Stream): nat { s.capacity - Buffered(s) }

  predicate AtEof(s: Stream) { s.ended && Buffered(s) == 0 }

  /** The longest prefix of `data` that fits is appended; the rest is dropped. */
  function Written(s: Stream, data: seq<Byte>): (r: Stream)
    ensures s.written <= r.written <= s.written + data
    ensures r.written == s.written + data <==> |data| <= Free(s)
    ensures Free(r) == 0 || r.written == s.written + data
  {
    s.(written := s.written + data[..if Free(s) <= |data| then Free(s) else |data|])
  }

  /** Popping more than is buffered is an error and pops nothing. */
  function Popped(s: Stream, len: nat): Stream
  {
    if len > Buffered(s) then s.(error := true) else s.(read := s.read + len)
  }

  // ----- Writing and reading over time

  datatype Use = WriteUse(data: seq<Byte>) | ReadUse(len: nat) | EndUse

  function Used(s: Stream, u: Use): Stream
  {
    match u
    case WriteUse(data) => Written(s, data)
    case ReadUse(len) => Popped(s, len)
    case EndUse => s.(ended := true)
  }

  /** The bytes a read returns. */
  function Returned(s: Stream, u: Use): seq<Byte>
  {
    if u.ReadUse? && u.len <= Buffered(s) then s.written[s.read..s.read + u.len] else []
  }

  function UsedUp(capacity: nat, us: seq<Use>): Stream
  {
    if us == [] then EmptyStream(capacity) else Used(UsedUp(capacity, us[..|us| - 1]), us[|us| - 1])
  }

  /** The bytes a write accepts: as many as there is room for. */
  function Accepted(s: Stream, u: Use): seq<Byte>
  {
    if u.WriteUse? then u.data[..if |u.data| <= Free(s) then |u.data| else Free(s)] else []
  }

  function AllReturned(capacity: nat, us: seq<Use>): seq<Byte>
  {
    if us == [] then []
    else AllReturned(capacity, us[..|us| - 1]) + Returned(UsedUp(capacity, us[..|us| - 1]), us[|us| - 1])
  }

  function AllAccepted(capacity: nat, us: seq<Use>): seq<Byte>
  {
    if us == [] then []
    else AllAccepted(capacity, us[..|us| - 1]) + Accepted(UsedUp(capacity, us[..|us| - 1]), us[|us| - 1])
  }

  predicate AskedTooMuch(capacity: nat, us: seq<Use>)
  {
    us != [] &&
    var s, u := UsedUp(capacity, us[..|us| - 1]), us[|us| - 1];
    AskedTooMuch(capacity, us[..|us| - 1]) || (u.ReadUse? && u.len > Buffered(s))
  }

  lemma UseConserves(s: Stream, u: Use)
    ensures var t := Used(s, u);
            && t.written == s.written + Accepted(s, u)
            && t.written[..t.read] == s.written[..s.read] + Returned(s, u)
            && t.capacity == s.capacity && (t.ended <==> s.ended || u.EndUse?)
            && (t.error <==> s.error || (u.ReadUse? && u.len > Buffered(s)))
  {
  }

  /** Over every use the bytes accepted are all that was written, the bytes returned are what was read of them, in
      order, and the stream fails exactly when a read asks for more than is there. */
  lemma {:induction false} ReadsInOrder(capacity: nat, us: seq<Use>)
    ensures var s := UsedUp(capacity, us);
            && s.written == AllAccepted(capacity, us) && s.written[..s.read] == AllReturned(capacity, us)
            && s.capacity == capacity && (s.ended <==> EndUse in us) && (s.error <==> AskedTooMuch(capacity, us))
  {
    hide Used, Accepted, Returned;
    if us != [] {
      var init, u := us[..|us| - 1], us[|us| - 1];
      ReadsInOrder(capacity, init);
      assert us == init + [u];
      UseConserves(UsedUp(capacity, init), u);
    }
  }

  class ByteStream {
    var buffer: seq<Byte>
    const capacity: nat
    var isEnded: bool
    var writtenLength: nat
    var error: bool
    ghost var history: seq<Byte>  // every byte ever accepted

    ghost predicate Valid()
      reads this
    {
      && |buffer| <= capacity
      && |buffer| <= |history| == writtenLength
      && buffer == history[|history| - |buffer|..]
    }

    ghost function View(): (s: Stream)
      requires Valid()
      reads this
      ensures s.written[s.read..] == buffer
      ensures s.capacity == capacity && |s.written| == writtenLength && s.ended == isEnded && s.error == error
    {
      StreamState(capacity, history, |history| - |buffer|, isEnded, error)
    }

    constructor (capacity: nat)
      ensures Valid() && View() == EmptyStream(capacity)
    {
      this.capacity := capacity;
      buffer, isEnded, writtenLength, error, history := [], false, 0, false, [];
    }

    function RemainingCapacity(): (n: nat)
      requires Valid()
      reads this
      ensures n == Free(View())
    {
      capacity - |buffer|
    }

    function BufferSize(): (n: nat)
      requires Valid()
      reads this
      ensures n == Buffered(View())
    {
      |buffer|
    }

    predicate Eof()
      requires Valid()
      reads this
      ensures Eof() <==> AtEof(View())
    {
      isEnded && buffer == []
    }

    function BytesRead(): (n: nat)
      requires Valid()
      reads this
      ensures n == View().read
    {
      writtenLength - |buffer|
    }

    /** Asking for more than is buffered yields nothing. */
    function PeekOutput(len: nat): (data: seq<Byte>)
      requires Valid()
      reads this
      ensures var s := View();
              data == if len <= Buffered(s) then s.written[s.read..s.read + len] else []
    {
      if len > BufferSize() then [] else buffer[..len]
    }

    method Write(data: seq<Byte>) returns (accepted: nat)
      requires Valid()
      modifies this
      ensures Valid() && View() == Written(old(View()), data)
      ensures accepted == |View().written| - |old(View()).written|
    {
      accepted := if RemainingCapacity() <= |data| then RemainingCapacity() else |data|;
      buffer := buffer + data[..accepted];
      writtenLength := writtenLength + accepted;
      history := history + data[..accepted];
    }

    method PopOutput(len: nat)
      requires Valid()
      modifies this
      ensures Valid() && View() == Popped(old(View()), len)
    {
      if len > BufferSize() {
        SetError();
        return;
      }
      buffer := buffer[len..];
    }

    method Read(len: nat) returns (data: seq<Byte>)
      requires Valid()
      modifies this
      ensures Valid() && View() == Popped(old(View()), len)
      ensures data == old(PeekOutput(len))
    {
      if len > BufferSize() {
        SetError();
        return [];
      }
      data := PeekOutput(len);
      PopOutput(len);
    }

    method EndInput()
      requires Valid()
      modifies this
      ensures Valid() && View() == old(View()).(ended := true)
    {
      isEnded := true;
    }

    method SetError()
      requires Valid()
      modifies this
      ensures Valid() && View() == old(View()).(error := true)
    {
      error := true;
    }
  }
}
