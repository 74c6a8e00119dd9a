/** The network interface as an object. */
module NetworkInterfaceModule {
  import opened Words
  import opened Internet
  import opened InterfaceSpec
  import A = InterfaceAnswers

  lemma FramesAppend(mac: Mac, ip: Ip, es: seq<Emission>, more: seq<Emission>)
    ensures FramesOf(mac, ip, es + more) == FramesOf(mac, ip, es) + FramesOf(mac, ip, more)
  {
    hide FrameOf;
  }

  lemma FramesOne(mac: Mac, ip: Ip, e: Emission)
    ensures FramesOf(mac, ip, [e]) == [FrameOf(mac, ip, e)] && FramesOf(mac, ip, []) == []
  {
    hide FrameOf;
  }

  /** The walk over the waiting datagrams, one further. */
  lemma FlushStep(waiting: seq<Waiting>, table: map<Ip, Entry>, j: nat)
    requires j < |waiting|
    ensures var w, done := waiting[j], waiting[..j + 1];
            && (if w.hop in table then
                  && Released(done, table) == Released(waiting[..j], table) + [Data(w.dgram, w.hop, table[w.hop].mac)]
                  && Kept(done, table) == Kept(waiting[..j], table)
                else
                  && Released(done, table) == Released(waiting[..j], table)
                  && Kept(done, table) == Kept(waiting[..j], table) + [w])
            && waiting[j..] == [w] + waiting[j + 1..]
  {
    assert waiting[..j + 1][..j] == waiting[..j];
  }

  /** The first `j` of the `waiting` datagrams have been looked at: `k` of them stay in the queue, and the frames of the
      others have gone out. */
  ghost predicate Flushed(mac: Mac, ip: Ip, waiting: seq<Waiting>, table: map<Ip, Entry>, before: seq<OutFrame>,
                          j: nat, k: nat, queue: seq<Waiting>, frames: seq<OutFrame>)
  {
    && j <= |waiting| && k == |Kept(waiting[..j], table)| && queue == Kept(waiting[..j], table) + waiting[j..]
    && frames == before + FramesOf(mac, ip, Released(waiting[..j], table))
  }

  lemma FlushStarts(mac: Mac, ip: Ip, waiting: seq<Waiting>, table: map<Ip, Entry>, before: seq<OutFrame>)
    ensures Flushed(mac, ip, waiting, table, before, 0, 0, waiting, before)
  {
    assert waiting[..0] == [];
  }

  lemma FlushTurn(mac: Mac, ip: Ip, waiting: seq<Waiting>, table: map<Ip, Entry>, before: seq<OutFrame>,
                  j: nat, k: nat, queue: seq<Waiting>, frames: seq<OutFrame>)
    requires Flushed(mac, ip, waiting, table, before, j, k, queue, frames) && k < |queue|
    ensures var w := queue[k];
            j < |waiting| &&
            if w.hop in table then
              Flushed(mac, ip, waiting, table, before, j + 1, k, queue[..k] + queue[k + 1..],
                      frames + [Ipv4Frame(mac, table[w.hop].mac, w.dgram)])
            else
              Flushed(mac, ip, waiting, table, before, j + 1, k + 1, queue, frames)
  {
    hide Kept, Released, FramesOf;
    FlushStep(waiting, table, j);
    var w, sent := waiting[j], Released(waiting[..j], table);
    if w.hop in table {
      var e := Data(w.dgram, w.hop, table[w.hop].mac);
      FramesAppend(mac, ip, sent, [e]);
      FramesOne(mac, ip, e);
    }
  }

  lemma FlushEnds(mac: Mac, ip: Ip, waiting: seq<Waiting>, table: map<Ip, Entry>, before: seq<OutFrame>,
                  j: nat, k: nat, queue: seq<Waiting>, frames: seq<OutFrame>)
    requires Flushed(mac, ip, waiting, table, before, j, k, queue, frames) && k >= |queue|
    ensures queue == Kept(waiting, table) && frames == before + FramesOf(mac, ip, Released(waiting, table))
  {
    hide Kept, Released, FramesOf;
    assert waiting[j..] == [] && waiting[..j] == waiting;
  }

  class NetworkInterface {
    const ethernetAddress: Mac
    const ipAddress: Ip
    var framesOut: seq<OutFrame>
    var timer: nat
    var addressTable: map<Ip, Entry>
    var delayQueue: seq<Waiting>

    ghost function View(): Interface
      reads this
    {
      Interface(ethernetAddress, ipAddress, timer, addressTable, delayQueue)
    }

    constructor (ethernetAddress: Mac, ipAddress: Ip)
      ensures View() == Run(ethernetAddress, ipAddress, []).i && framesOut == []
    {
      this.ethernetAddress, this.ipAddress := ethernetAddress, ipAddress;
      framesOut, timer, addressTable, delayQueue := [], 0, map[], [];
    }

    method SendDatagram(dgram: Datagram, nextHop: Ip)
      modifies this
      ensures View() == Step(old(View()), SendEvent(dgram, nextHop))
      ensures framesOut == old(framesOut)
                + FramesOf(ethernetAddress, ipAddress, Emissions(old(View()), SendEvent(dgram, nextHop)))
    {
      if nextHop in addressTable {
        FramesOne(ethernetAddress, ipAddress, Data(dgram, nextHop, addressTable[nextHop].mac));
        framesOut := framesOut + [Ipv4Frame(ethernetAddress, addressTable[nextHop].mac, dgram)];
        return;
      }
      FramesOne(ethernetAddress, ipAddress, Request(nextHop));
      var k := 0;
      while k < |delayQueue|
        invariant k <= |delayQueue| && delayQueue == old(delayQueue) && framesOut == old(framesOut)
        invariant View() == old(View())
        invariant forall j | 0 <= j < k :: !(delayQueue[j].hop == nextHop && delayQueue[j].expiry > timer)
      {
        if delayQueue[k].hop == nextHop && delayQueue[k].expiry > timer {
          delayQueue := delayQueue + [Waiting(dgram, nextHop, timer)];
          return;
        }
        k := k + 1;
      }
      delayQueue := delayQueue + [Waiting(dgram, nextHop, timer + 5 * 1000)];
      framesOut := framesOut + [ArpFrame(ethernetAddress, BROADCAST,
          Arp(true, ipAddress, ethernetAddress, nextHop, 0))];
    }

    /** Sends every waiting datagram whose next hop is now known. */
    method Flush()
      modifies this`framesOut, this`delayQueue
      ensures delayQueue == Kept(old(delayQueue), addressTable)
      ensures framesOut == old(framesOut)
                + FramesOf(ethernetAddress, ipAddress, Released(old(delayQueue), addressTable))
    {
      hide Kept, Released, FramesOf, Flushed;
      ghost var waiting, before, j := delayQueue, framesOut, 0;
      var k := 0;
      FlushStarts(ethernetAddress, ipAddress, waiting, addressTable, before);
      while k < |delayQueue|
        invariant Flushed(ethernetAddress, ipAddress, waiting, addressTable, before, j, k, delayQueue, framesOut)
        decreases |waiting| - j
      {
        FlushTurn(ethernetAddress, ipAddress, waiting, addressTable, before, j, k, delayQueue, framesOut);
        var w := delayQueue[k];
        if w.hop in addressTable {
          framesOut := framesOut + [Ipv4Frame(ethernetAddress, addressTable[w.hop].mac, w.dgram)];
          delayQueue := delayQueue[..k] + delayQueue[k + 1..];
        } else {
          k := k + 1;
        }
        j := j + 1;
      }
      FlushEnds(ethernetAddress, ipAddress, waiting, addressTable, before, j, k, delayQueue, framesOut);
    }

    method RecvFrame(frame: InFrame) returns (dgram: Option<Datagram>)
      modifies this
      ensures View() == Step(old(View()), FrameEvent(frame)) && dgram == Received(old(View()), frame)
      ensures framesOut == old(framesOut)
                + FramesOf(ethernetAddress, ipAddress, Emissions(old(View()), FrameEvent(frame)))
      ensures A.RepliesIn(framesOut) == A.RepliesIn(old(framesOut))
                + A.OwedBy(ethernetAddress, ipAddress, FrameEvent(frame))
    {
      hide Kept, Released, FramesOf, A.RepliesIn, A.OwedBy;
      A.StepReplies(View(), FrameEvent(frame));
      A.RepliesConcat(framesOut, FramesOf(ethernetAddress, ipAddress, Emissions(View(), FrameEvent(frame))));
      FramesOne(ethernetAddress, ipAddress, Request(0));
      if frame.dst != ethernetAddress && frame.dst != BROADCAST {
        return None;
      }
      if frame.body.Ipv4Body? {
        return frame.body.dgram;
      }
      if frame.body.arp.None? {
        return None;
      }
      var arp := frame.body.arp.value;
      addressTable := addressTable[arp.senderIp := Entry(arp.senderMac, timer + 30 * 1000)];
      ghost var reply := [];
      if arp.request {
        if arp.targetIp == ipAddress {
          framesOut := framesOut + [ArpFrame(ethernetAddress, arp.senderMac,
                                             Arp(false, ipAddress, ethernetAddress, arp.senderIp, arp.senderMac))];
          reply := [Reply(arp)];
          FramesOne(ethernetAddress, ipAddress, Reply(arp));
        }
      }
      assert framesOut == old(framesOut) + FramesOf(ethernetAddress, ipAddress, reply);
      FramesAppend(ethernetAddress, ipAddress, reply, Released(delayQueue, addressTable));
      Flush();
      return None;
    }

    method Tick(ms: nat)
      modifies this
      ensures View() == Step(old(View()), TickEvent(ms)) && framesOut == old(framesOut)
    {
      timer := timer + ms;
      var unseen := addressTable.Keys;
      while unseen != {}
        invariant timer == old(timer) + ms && framesOut == old(framesOut) && delayQueue == old(delayQueue)
        invariant unseen <= old(addressTable).Keys
        invariant forall ip ::
                    ip in addressTable <==>
                      ip in old(addressTable) && (ip in unseen || old(addressTable)[ip].expiry >= timer)
        invariant forall ip | ip in addressTable :: addressTable[ip] == old(addressTable)[ip]
        decreases |unseen|
      {
        var ip :| ip in unseen;
        if addressTable[ip].expiry < timer {
          addressTable := addressTable - {ip};
        }
        unseen := unseen - {ip};
      }
    }
  }

}
