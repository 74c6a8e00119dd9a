/** What the interface answers, asks and knows, said on the events it was given and the frames it put out. */
module InterfaceAnswers {
  import opened Words
  import opened Internet
  import opened InterfaceSpec
  import opened InterfaceLaws

  // ----- The events, read on their own

  /** Milliseconds that have passed. */
  function Clock(es: seq<Event>): nat
  {
    if es == [] then 0
    else Clock(es[..|es| - 1]) + (if es[|es| - 1].TickEvent? then es[|es| - 1].ms else 0)
  }

  /** The ARP message in a frame for this interface or for all. */
  function Announced(mac: Mac, e: Event): Option<Arp>
  {
    if e.FrameEvent? && e.frame.dst in {mac, BROADCAST} && e.frame.body.OtherBody? then e.frame.body.arp else None
  }

  function Announcements(mac: Mac, es: seq<Event>): seq<Heard>
  {
    if es == [] then []
    else
      var init, arp := es[..|es| - 1], Announced(mac, es[|es| - 1]);
      Announcements(mac, init) +
      (if arp.Some? then [Heard(arp.value.senderIp, arp.value.senderMac, Clock(init))] else [])
  }

  /** The reply to a request for this interface's own address, to the one who asked. */
  function OwedBy(mac: Mac, ip: Ip, e: Event): seq<OutFrame>
  {
    var arp := Announced(mac, e);
    if arp.Some? && arp.value.request && arp.value.targetIp == ip then
      [ArpFrame(mac, arp.value.senderMac, Arp(false, ip, mac, arp.value.senderIp, arp.value.senderMac))]
    else []
  }

  function Owed(mac: Mac, ip: Ip, es: seq<Event>): seq<OutFrame>
  {
    if es == [] then [] else Owed(mac, ip, es[..|es| - 1]) + OwedBy(mac, ip, es[|es| - 1])
  }

  function Givens(es: seq<Event>): seq<Given>
  {
    if es == [] then []
    else
      var e := es[|es| - 1];
      Givens(es[..|es| - 1]) + (if e.SendEvent? then [Given(e.dgram, e.hop)] else [])
  }

  /** The history is that of the events. */
  lemma {:induction false} HistoryIs(mac: Mac, ip: Ip, es: seq<Event>)
    ensures var h := Run(mac, ip, es);
            && h.i.mac == mac && h.i.ip == ip && h.i.timer == Clock(es)
            && h.heard == Announcements(mac, es) && h.given == Givens(es)
  {
    if es != [] {
      HistoryIs(mac, ip, es[..|es| - 1]);
    }
  }

  // ----- Replies

  /** The ARP replies among `frames`. */
  function RepliesIn(frames: seq<OutFrame>): seq<OutFrame>
  {
    if frames == [] then []
    else
      var f := frames[|frames| - 1];
      RepliesIn(frames[..|frames| - 1]) + (if f.ArpFrame? && !f.arp.request then [f] else [])
  }

  lemma {:induction false} RepliesConcat(a: seq<OutFrame>, b: seq<OutFrame>)
    ensures RepliesIn(a + b) == RepliesIn(a) + RepliesIn(b)
  {
    if b == [] {
      assert a + b == a;
    } else {
      assert (a + b)[..|a + b| - 1] == a + b[..|b| - 1];
      RepliesConcat(a, b[..|b| - 1]);
    }
  }

  lemma {:induction false} NoReplies(mac: Mac, ip: Ip, es: seq<Emission>)
    requires forall m | m in es :: !m.Reply?
    ensures RepliesIn(FramesOf(mac, ip, es)) == []
  {
    if es != [] {
      var init := es[..|es| - 1];
      assert forall m | m in init :: m in es;
      NoReplies(mac, ip, init);
      assert FramesOf(mac, ip, es)[..|es| - 1] == FramesOf(mac, ip, init);
      assert es[|es| - 1] in es;
    }
  }

  lemma FramesConcat(mac: Mac, ip: Ip, a: seq<Emission>, b: seq<Emission>)
    ensures FramesOf(mac, ip, a + b) == FramesOf(mac, ip, a) + FramesOf(mac, ip, b)
  {
    hide FrameOf;
  }

  /** Each event is answered with exactly the reply it is owed. */
  lemma StepReplies(i: Interface, e: Event)
    ensures RepliesIn(FramesOf(i.mac, i.ip, Emissions(i, e))) == OwedBy(i.mac, i.ip, e)
  {
    hide Released;
    match e
    case SendEvent(d, hop) => NoReplies(i.mac, i.ip, Emissions(i, e));
    case TickEvent(ms) =>
    case FrameEvent(frame) =>
      var heeded := Heeded(i, frame);
      if heeded.Some? {
        var arp := heeded.value;
        var table := Learned(i, arp).table;
        var reply := if arp.request && arp.targetIp == i.ip then [Reply(arp)] else [];
        forall m | m in Released(i.waiting, table)
          ensures !m.Reply?
        {
          ReleasedAt(i.waiting, table, m);
        }
        NoReplies(i.mac, i.ip, Released(i.waiting, table));
        FramesConcat(i.mac, i.ip, reply, Released(i.waiting, table));
        RepliesConcat(FramesOf(i.mac, i.ip, reply), FramesOf(i.mac, i.ip, Released(i.waiting, table)));
        OneReply(i.mac, i.ip, arp);
      }
  }

  lemma OneReply(mac: Mac, ip: Ip, arp: Arp)
    ensures var f := ArpFrame(mac, arp.senderMac, Arp(false, ip, mac, arp.senderIp, arp.senderMac));
            RepliesIn(FramesOf(mac, ip, [Reply(arp)])) == [f] && RepliesIn(FramesOf(mac, ip, [])) == []
  {
    var frames := FramesOf(mac, ip, [Reply(arp)]);
    assert frames[..0] == [] && RepliesIn([]) == [];
  }

  /** Every frame put out in a run, in order. */
  function FramesOut(mac: Mac, ip: Ip, es: seq<Event>): seq<OutFrame>
  {
    FramesOf(mac, ip, Emitted(Run(mac, ip, es).log))
  }

  lemma FramesStep(mac: Mac, ip: Ip, es: seq<Event>)
    requires es != []
    ensures var init := es[..|es| - 1];
            FramesOut(mac, ip, es)
            == FramesOut(mac, ip, init) + FramesOf(mac, ip, Emissions(Run(mac, ip, init).i, es[|es| - 1]))
  {
    hide Step, Emissions, FrameOf;
    var init, e := es[..|es| - 1], es[|es| - 1];
    var h := Run(mac, ip, init);
    EmittedLogged(h.log, Emissions(h.i, e), h.i.timer, |Run(mac, ip, es).heard|);
    FramesConcat(mac, ip, Emitted(h.log), Emissions(h.i, e));
  }

  /** Over every run the replies put out are, in order, exactly those owed to the requests for this address. */
  lemma {:induction false} RunReplies(mac: Mac, ip: Ip, es: seq<Event>)
    ensures RepliesIn(FramesOut(mac, ip, es)) == Owed(mac, ip, es)
  {
    hide Emissions, FramesOf, OwedBy, Run;
    if es == [] {
      NoneOut(mac, ip);
    } else {
      var init, e := es[..|es| - 1], es[|es| - 1];
      var i := Run(mac, ip, init).i;
      RunReplies(mac, ip, init);
      HistoryIs(mac, ip, init);
      FramesStep(mac, ip, es);
      RepliesConcat(FramesOut(mac, ip, init), FramesOf(mac, ip, Emissions(i, e)));
      StepReplies(i, e);
    }
  }

  lemma NoneOut(mac: Mac, ip: Ip)
    ensures FramesOut(mac, ip, []) == []
  {
  }

  // ----- Datagrams and requests in frames

  /** What a frame that is not a reply looks like on the link. */
  predicate WellFormed(mac: Mac, ip: Ip, f: OutFrame, m: Emission)
  {
    match m
    case Data(d, _, dst) => f.Ipv4Frame? && f.src == mac && f.dst == dst && f.dgram == d
    case Request(hop) =>
      f.ArpFrame? && f.src == mac && f.dst == BROADCAST
      && f.arp == Arp(true, ip, mac, hop, 0)
    case Reply(_) => f.ArpFrame? && f.src == mac && !f.arp.request
  }

  /** Emissions and frames correspond one to one: a datagram goes to the hardware address chosen for it, and a request
      is broadcast, gives this interface's own addresses and asks for the hop. */
  lemma FramesWellFormed(mac: Mac, ip: Ip, es: seq<Event>)
    ensures var log := Run(mac, ip, es).log;
            && |FramesOut(mac, ip, es)| == |log|
            && forall k | 0 <= k < |log| :: WellFormed(mac, ip, FramesOut(mac, ip, es)[k], log[k].e)
  {
    hide Run;
  }

  // ----- The table

  /** The table is exactly what was announced in the last thirty seconds. */
  ghost predicate TableComplete(h: History)
  {
    forall ip :: LastHeard(h.heard, ip).Some? && h.i.timer <= LastHeard(h.heard, ip).value.time + ENTRY_LIFETIME ==>
      ip in h.i.table
  }

  lemma StepTableComplete(h: History, e: Event)
    requires TableFresh(h) && TableComplete(h)
    ensures TableComplete(StepHistory(h, e))
  {
    var h' := StepHistory(h, e);
    forall ip | LastHeard(h'.heard, ip).Some? && h'.i.timer <= LastHeard(h'.heard, ip).value.time + ENTRY_LIFETIME
      ensures ip in h'.i.table
    {
      if e.FrameEvent? && Heeded(h.i, e.frame).Some? {
        var arp := Heeded(h.i, e.frame).value;
        LastHeardAppend(h.heard, Heard(arp.senderIp, arp.senderMac, h.i.timer), ip);
      } else {
        assert h'.heard == h.heard;
      }
    }
  }

  lemma {:induction false} RunTableComplete(mac: Mac, ip: Ip, es: seq<Event>)
    ensures TableComplete(Run(mac, ip, es))
  {
    if es != [] {
      var init := es[..|es| - 1];
      RunTableComplete(mac, ip, init);
      RunTiming(mac, ip, init);
      hide Step, Emissions, TableComplete, TableFresh;
      StepTableComplete(Run(mac, ip, init), es[|es| - 1]);
    }
  }

  /** What is known of `hop` after `es`: the last announcement, for thirty seconds. */
  function Known(mac: Mac, es: seq<Event>, hop: Ip): Option<Mac>
  {
    var last := LastHeard(Announcements(mac, es), hop);
    if last.Some? && Clock(es) <= last.value.time + ENTRY_LIFETIME then Some(last.value.mac) else None
  }

  /** Over every run the table has an address exactly when it was announced in the last thirty seconds, and it is the
      one announced last. */
  lemma TableExact(mac: Mac, ip: Ip, es: seq<Event>, hop: Ip)
    ensures var table := Run(mac, ip, es).i.table;
            Known(mac, es, hop) == if hop in table then Some(table[hop].mac) else None
  {
    RunTiming(mac, ip, es);
    RunTableComplete(mac, ip, es);
    HistoryIs(mac, ip, es);
    hide Run;
  }

  // ----- Requests

  /** A datagram that keeps further requests away waits behind a request made five seconds before it gives way. */
  ghost predicate WaitingAsked(h: History)
  {
    forall w | w in h.i.waiting ::
      w.expiry <= h.i.timer || exists l | l in h.log :: l.e == Request(w.hop) && l.time + REQUEST_INTERVAL == w.expiry
  }

  lemma StepWaitingAsked(h: History, e: Event)
    requires WaitingAsked(h)
    ensures WaitingAsked(StepHistory(h, e))
  {
    var h' := StepHistory(h, e);
    forall w | w in h'.i.waiting
      ensures w.expiry <= h'.i.timer
              || exists l | l in h'.log :: l.e == Request(w.hop) && l.time + REQUEST_INTERVAL == w.expiry
    {
      if w in h.i.waiting {
        if l :| l in h.log && l.e == Request(w.hop) && l.time + REQUEST_INTERVAL == w.expiry {
          assert l in h'.log;
        }
      } else if e.FrameEvent? {
        KeptIsPart(h.i.waiting, h'.i.table, w);
      } else if w.expiry > h'.i.timer {
        var l := Logged(Request(e.hop), h.i.timer, |h'.heard|);
        assert LogAll(Emissions(h.i, e), h.i.timer, |h'.heard|)[0] == l;
        assert h'.log[|h.log|] == l;
      }
    }
  }

  lemma {:induction false} RunWaitingAsked(mac: Mac, ip: Ip, es: seq<Event>)
    ensures WaitingAsked(Run(mac, ip, es))
  {
    if es != [] {
      RunWaitingAsked(mac, ip, es[..|es| - 1]);
      hide Step, Emissions, WaitingAsked;
      StepWaitingAsked(Run(mac, ip, es[..|es| - 1]), es[|es| - 1]);
    }
  }

  /** A request for `hop` went out less than five seconds ago. */
  ghost predicate AskedLately(h: History, hop: Ip)
  {
    exists l | l in h.log :: l.e == Request(hop) && h.i.timer < l.time + REQUEST_INTERVAL
  }

  lemma PendingExactly(h: History, hop: Ip)
    requires NoneStuck(h.i) && RequestsGuarded(h) && WaitingAsked(h) && hop !in h.i.table
    ensures RequestPending(h.i, hop) <==> AskedLately(h, hop)
  {
    if k :| 0 <= k < |h.i.waiting| && h.i.waiting[k].hop == hop && h.i.waiting[k].expiry > h.i.timer {
      assert h.i.waiting[k] in h.i.waiting;
    }
    if l :| l in h.log && l.e == Request(hop) && h.i.timer < l.time + REQUEST_INTERVAL {
      var k :| 0 <= k < |h.log| && h.log[k] == l;
      if !RequestPending(h.i, hop) {
        GuardBlocks(h.i, hop, l.time);
      }
    }
  }

  /** Over every run, a datagram goes out at once if its next hop was announced in the last thirty seconds, to the
      address announced last; if not, the hop is asked for, unless that was done less than five seconds ago. */
  lemma SendExactly(mac: Mac, ip: Ip, es: seq<Event>, d: Datagram, hop: Ip)
    ensures var h := Run(mac, ip, es);
            var known := Known(mac, es, hop);
            Emissions(h.i, SendEvent(d, hop)) ==
              if known.Some? then [Data(d, hop, known.value)]
              else if AskedLately(h, hop) then []
              else [Request(hop)]
  {
    hide Run, Known, RequestPending, AskedLately;
    var h := Run(mac, ip, es);
    TableExact(mac, ip, es, hop);
    RunConserves(mac, ip, es);
    RunTiming(mac, ip, es);
    RunWaitingAsked(mac, ip, es);
    if hop !in h.i.table {
      PendingExactly(h, hop);
    }
  }

  /** A frame for another address changes nothing, and a datagram is handed up exactly when it comes in a frame for this
      interface or for all. */
  lemma FramesFor(i: Interface, frame: InFrame)
    ensures frame.dst !in {i.mac, BROADCAST} ==> Step(i, FrameEvent(frame)) == i && Received(i, frame) == None
    ensures forall d :: Received(i, frame) == Some(d) <==>
              frame.dst in {i.mac, BROADCAST} && frame.body == Ipv4Body(Some(d))
  {
  }
}
