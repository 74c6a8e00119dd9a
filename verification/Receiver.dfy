/** The TCP receiver: handles inbound segments and says what to acknowledge. */
module ReceiverModule {
  import opened Words
  import opened Wrapping
  import opened ByteStreams
  import opened ReassemblerSpec
  import opened Reassembler
  import Chunks
  import opened Segments
  import opened ReceiverSpec

  class TCPReceiver {
    const reassembler: StreamReassembler
    const capacity: nat
    var haveSyn: bool
    var haveFin: bool
    var icn: Seqno

    ghost predicate Valid()
      reads this, reassembler, reassembler.output
      ensures Valid() ==> reassembler.output.Valid()
    {
      reassembler.Valid() && reassembler.capacity == capacity && ReceiverOk(View())
    }

    ghost function View(): Receiver
      requires reassembler.output.Valid()
      reads this, reassembler, reassembler.output
    {
      Receiver(reassembler.View(), haveSyn, haveFin, icn)
    }

    constructor (capacity: nat)
      requires capacity >= 1
      ensures Valid() && View() == NewReceiver(capacity) && this.capacity == capacity
      ensures fresh(reassembler) && fresh(reassembler.output)
    {
      reassembler := new StreamReassembler(capacity);
      this.capacity := capacity;
      haveSyn, haveFin, icn := false, false, 0;
      new;
      assert reassembler.View() == EmptyAssembly(capacity);
    }

    /** `None` before the SYN; afterwards the wrapped form of the first number not received. */
    function AcknoOut(): (r: Option<Seqno>)
      requires Valid()
      reads this, reassembler, reassembler.output
      ensures r == Ackno(View())
    {
      var lengthWithoutFlags := reassembler.output.writtenLength;
      if haveSyn then
        if haveFin && reassembler.output.isEnded then Some(Wrap(lengthWithoutFlags + 2, icn))
        else Some(Wrap(lengthWithoutFlags + 1, icn))
      else None
    }

    function WindowOut(): (n: nat)
      requires Valid()
      reads this, reassembler, reassembler.output
      ensures n == WindowSize(View())
    {
      capacity - (reassembler.output.writtenLength - reassembler.output.BytesRead())
    }

    /** The 64-bit counters are far from their limit. */
    predicate HasRoomFor(len: nat)
      reads this, reassembler
    {
      reassembler.unassembledStart + capacity + len < TWO64
    }

    method SegmentReceived(seg: TcpSegment)
      requires Valid() && HasRoomFor(|seg.payload|)
      modifies this, reassembler, reassembler.output
      ensures Valid() && View() == Received(old(View()), seg)
    {
      hide Push, Unwrap, StagedAhead, Wrap, Low64, Sub64, Concluded, ReceiverOk;
      ghost var r := View();
      ReceivedOk(r, seg);
      var seqno := seg.header.seqno;
      if !haveSyn {
        if !seg.header.syn {
          return;
        }
        haveSyn := true;
        icn := seg.header.seqno;
        seqno := Wrap(1, icn);
      } else if seg.header.syn {
        return;
      }
      var checkpoint := reassembler.output.writtenLength;
      var index := Sub64(Unwrap(seqno, icn, checkpoint), 1);
      assert index == StreamIndex(r, seg.header);
      assert reassembler.View() == r.asm && !Ignored(r, seg.header);
      Deliver(seg.payload, index, seg.header.fin);
      ghost var asm := Push(r.asm, seg.payload, index, seg.header.fin);
      assert reassembler.View() == Concluded(asm, haveFin);
      assert View() == Receiver(Concluded(asm, haveFin), true, haveFin, icn);
    }

    /** Passes the payload on, and ends the stream once a FIN has been seen and nothing is staged. */
    method Deliver(payload: seq<Byte>, index: U64, fin: bool)
      requires reassembler.Valid() && reassembler.unassembledStart + reassembler.capacity + |payload| < TWO64
      modifies this`haveFin, reassembler, reassembler.output
      ensures reassembler.Valid() && haveFin == (old(haveFin) || fin)
      ensures reassembler.View() == Concluded(Push(old(reassembler.View()), payload, index, fin), haveFin)
    {
      hide Push, StagedAhead;
      reassembler.PushSubstring(payload, index, fin);
      if fin {
        haveFin := true;
      }
      if haveFin && reassembler.UnassembledBytes() == 0 {
        assert reassembler.View().staged == map[];
        EndStream();
      }
    }

    method EndStream()
      requires reassembler.Valid()
      modifies reassembler.output
      ensures reassembler.Valid()
      ensures reassembler.View() == old(reassembler.View()).(out := old(reassembler.View()).out.(ended := true))
    {
      reassembler.output.EndInput();
    }

    /** The application reads from the reassembled stream. */
    method Read(len: nat) returns (data: seq<Byte>)
      requires Valid()
      modifies reassembler.output
      ensures Valid() && View() == Step(old(View()), ReadOut(len))
      ensures data == old(reassembler.output.PeekOutput(len))
    {
      hide StagedAhead, ReceiverOk, Chunks.Contents;
      ghost var r := View();
      StepOk(r, ReadOut(len));
      PoppedAhead(r.asm, len);
      data := reassembler.output.Read(len);
      assert reassembler.output.View() == Popped(r.asm.out, len);
      assert reassembler.View() == r.asm.(out := Popped(r.asm.out, len));
      assert reassembler.Valid();
    }

    method FailStream()
      requires Valid()
      modifies reassembler.output
      ensures Valid() && View() == Errored(old(View()))
    {
      hide StagedAhead, ReceiverOk, Chunks.Contents;
      ghost var r := View();
      ErroredOk(r);
      reassembler.output.SetError();
      assert reassembler.output.View() == r.asm.out.(error := true);
      assert reassembler.View() == Errored(r).asm;
      assert reassembler.Valid();
    }
  }

  lemma ErroredOk(r: Receiver)
    requires ReceiverOk(r)
    ensures ReceiverOk(Errored(r)) && StagedAhead(Errored(r).asm)
  {
  }

  lemma PoppedAhead(a: Assembly, len: nat)
    requires StagedAhead(a)
    ensures StagedAhead(a.(out := Popped(a.out, len)))
  {
  }
}
