/** What holds of the network interface over every run. */
module InterfaceLaws {
  import opened Words
  import opened Internet
  import opened InterfaceSpec

  // ----- Conservation and order

  function GivenTo(given: seq<Given>, hop: Ip): seq<Datagram>
  {
    if given == [] then []
    else
      var g := given[|given| - 1];
      GivenTo(given[..|given| - 1], hop) + (if g.hop == hop then [g.dgram] else [])
  }

  function DataTo(es: seq<Emission>, hop: Ip): seq<Datagram>
  {
    if es == [] then []
    else
      var e := es[|es| - 1];
      DataTo(es[..|es| - 1], hop) + (if e.Data? && e.hop == hop then [e.dgram] else [])
  }

  function WaitingFor(waiting: seq<Waiting>, hop: Ip): seq<Datagram>
  {
    if waiting == [] then []
    else
      var w := waiting[|waiting| - 1];
      WaitingFor(waiting[..|waiting| - 1], hop) + (if w.hop == hop then [w.dgram] else [])
  }

  function Emitted(log: seq<Logged>): seq<Emission>
  {
    seq(|log|, k requires 0 <= k < |log| => log[k].e)
  }

  /** A datagram waits only for a hop that is not in the table. */
  predicate NoneStuck(i: Interface) { forall w | w in i.waiting :: w.hop !in i.table }

  /** For each next hop the datagrams given are, in this order, those emitted followed by those waiting: none is lost,
      none goes out twice, none overtakes another. */
  ghost predicate Conserved(h: History)
  {
    forall hop :: GivenTo(h.given, hop) == DataTo(Emitted(h.log), hop) + WaitingFor(h.i.waiting, hop)
  }

  lemma {:induction false} DataToConcat(es: seq<Emission>, more: seq<Emission>, hop: Ip)
    ensures DataTo(es + more, hop) == DataTo(es, hop) + DataTo(more, hop)
  {
    if more == [] {
      assert es + more == es;
    } else {
      assert (es + more)[..|es + more| - 1] == es + more[..|more| - 1];
      DataToConcat(es, more[..|more| - 1], hop);
    }
  }

  lemma EmittedLogged(log: seq<Logged>, es: seq<Emission>, time: nat, heard: nat)
    ensures Emitted(log + LogAll(es, time, heard)) == Emitted(log) + es
  {
  }

  lemma {:induction false} ReleasedFor(waiting: seq<Waiting>, table: map<Ip, Entry>, hop: Ip)
    ensures DataTo(Released(waiting, table), hop) == if hop in table then WaitingFor(waiting, hop) else []
    ensures WaitingFor(Kept(waiting, table), hop) == if hop in table then [] else WaitingFor(waiting, hop)
  {
    if waiting != [] {
      var init, w := waiting[..|waiting| - 1], waiting[|waiting| - 1];
      ReleasedFor(init, table, hop);
      var last := if w.hop in table then [Data(w.dgram, w.hop, table[w.hop].mac)] else [];
      DataToConcat(Released(init, table), last, hop);
      LastWaiting(Kept(init, table), w, hop);
      SingleData(last, hop);
    }
  }

  lemma SingleData(es: seq<Emission>, hop: Ip)
    requires |es| <= 1
    ensures DataTo(es, hop) == if |es| == 1 && es[0].Data? && es[0].hop == hop then [es[0].dgram] else []
  {
    if |es| == 1 {
      assert es[..0] == [];
      assert DataTo([], hop) == [];
    }
  }

  lemma LastWaiting(waiting: seq<Waiting>, w: Waiting, hop: Ip)
    ensures WaitingFor(waiting + [w], hop) == WaitingFor(waiting, hop) + (if w.hop == hop then [w.dgram] else [])
    ensures WaitingFor(waiting + [], hop) == WaitingFor(waiting, hop)
  {
    assert (waiting + [w])[..|waiting|] == waiting;
    assert waiting + [] == waiting;
  }

  lemma {:induction false} NotWaiting(waiting: seq<Waiting>, hop: Ip)
    requires forall w | w in waiting :: w.hop != hop
    ensures WaitingFor(waiting, hop) == []
  {
    if waiting != [] {
      NotWaiting(waiting[..|waiting| - 1], hop);
    }
  }

  lemma {:induction false} KeptIsPart(waiting: seq<Waiting>, table: map<Ip, Entry>, w: Waiting)
    ensures w in Kept(waiting, table) <==> w in waiting && w.hop !in table
  {
    if waiting != [] {
      KeptIsPart(waiting[..|waiting| - 1], table, w);
      assert waiting == waiting[..|waiting| - 1] + [waiting[|waiting| - 1]];
    }
  }

  lemma StepNoneStuck(i: Interface, e: Event)
    requires NoneStuck(i)
    ensures NoneStuck(Step(i, e))
  {
    if e.FrameEvent? && Heeded(i, e.frame).Some? {
      var i' := Step(i, e);
      forall w | w in i'.waiting
        ensures w.hop !in i'.table
      {
        KeptIsPart(i.waiting, i'.table, w);
      }
    }
  }

  /** The part of a step's effect that concerns one next hop. */
  lemma StepConserves(i: Interface, e: Event, hop: Ip)
    requires NoneStuck(i)
    ensures WaitingFor(i.waiting, hop) + (if e.SendEvent? && e.hop == hop then [e.dgram] else [])
         == DataTo(Emissions(i, e), hop) + WaitingFor(Step(i, e).waiting, hop)
  {
    hide WaitingFor, ArpEmissions, ArpTaken;
    match e
    case SendEvent(dgram, h) =>
      SingleData(Emissions(i, e), hop);
      LastWaiting(i.waiting, Waiting(dgram, h, i.timer), hop);
      LastWaiting(i.waiting, Waiting(dgram, h, i.timer + REQUEST_INTERVAL), hop);
      if h in i.table && h == hop { NotWaiting(i.waiting, hop); }
    case FrameEvent(frame) =>
      if Heeded(i, frame).Some? {
        ArpConserves(i, Heeded(i, frame).value, hop);
      }
    case TickEvent(_) =>
  }

  lemma ArpConserves(i: Interface, arp: Arp, hop: Ip)
    requires NoneStuck(i)
    ensures WaitingFor(i.waiting, hop) == DataTo(ArpEmissions(i, arp), hop) + WaitingFor(ArpTaken(i, arp).waiting, hop)
  {
    hide WaitingFor, DataTo, Released, Kept;
    var reply := if arp.request && arp.targetIp == i.ip then [Reply(arp)] else [];
    var table := Learned(i, arp).table;
    DataToConcat(reply, Released(i.waiting, table), hop);
    SingleData(reply, hop);
    ReleasedFor(i.waiting, table, hop);
  }

  lemma HistoryConserves(h: History, e: Event)
    requires NoneStuck(h.i) && Conserved(h)
    ensures Conserved(StepHistory(h, e))
  {
    hide Step, Emissions;
    var h' := StepHistory(h, e);
    forall hop
      ensures GivenTo(h'.given, hop) == DataTo(Emitted(h'.log), hop) + WaitingFor(h'.i.waiting, hop)
    {
      StepConserves(h.i, e, hop);
      EmittedLogged(h.log, Emissions(h.i, e), h.i.timer, |h'.heard|);
      DataToConcat(Emitted(h.log), Emissions(h.i, e), hop);
      GivenLast(h.given, e, hop);
      Regroup(DataTo(Emitted(h.log), hop), WaitingFor(h.i.waiting, hop),
              if e.SendEvent? && e.hop == hop then [e.dgram] else [],
              DataTo(Emissions(h.i, e), hop), WaitingFor(h'.i.waiting, hop));
    }
  }

  lemma Regroup(a: seq<Datagram>, b: seq<Datagram>, c: seq<Datagram>, d: seq<Datagram>, e: seq<Datagram>)
    requires b + c == d + e
    ensures a + b + c == a + d + e
  {
    assert a + b + c == a + (b + c) == a + (d + e) == a + d + e;
  }

  lemma GivenLast(given: seq<Given>, e: Event, hop: Ip)
    ensures GivenTo(given + (if e.SendEvent? then [Given(e.dgram, e.hop)] else []), hop)
         == GivenTo(given, hop) + (if e.SendEvent? && e.hop == hop then [e.dgram] else [])
  {
    if e.SendEvent? {
      assert (given + [Given(e.dgram, e.hop)])[..|given|] == given;
    } else {
      assert given + [] == given;
    }
  }

  /** Conservation over any run. */
  lemma {:induction false} RunConserves(mac: Mac, ip: Ip, es: seq<Event>)
    ensures NoneStuck(Run(mac, ip, es).i) && Conserved(Run(mac, ip, es))
  {
    if es != [] {
      var init, e := es[..|es| - 1], es[|es| - 1];
      RunConserves(mac, ip, init);
      hide Step, Emissions, Conserved, NoneStuck;
      StepNoneStuck(Run(mac, ip, init).i, e);
      HistoryConserves(Run(mac, ip, init), e);
    }
  }

  // ----- Timing

  /** The most recent announcement heard for an address. */
  function LastHeard(heard: seq<Heard>, ip: Ip): (r: Option<Heard>)
    ensures r.Some? ==> r.value in heard && r.value.ip == ip
  {
    if heard == [] then None
    else if heard[|heard| - 1].ip == ip then Some(heard[|heard| - 1])
    else LastHeard(heard[..|heard| - 1], ip)
  }

  lemma LastHeardAppend(heard: seq<Heard>, h: Heard, ip: Ip)
    ensures LastHeard(heard + [h], ip) == if h.ip == ip then Some(h) else LastHeard(heard, ip)
  {
    assert (heard + [h])[..|heard|] == heard;
  }

  /** Each table entry is the last announcement heard for its address and has not outlived it. */
  predicate TableFresh(h: History)
  {
    forall ip | ip in h.i.table ::
      var last := LastHeard(h.heard, ip);
      && last.Some? && h.i.table[ip] == Entry(last.value.mac, last.value.time + ENTRY_LIFETIME)
      && last.value.time <= h.i.timer <= last.value.time + ENTRY_LIFETIME
  }

  /** A datagram went to the address most recently announced for its next hop, at most 30 seconds before. */
  predicate WellAddressed(h: History, l: Logged)
  {
    l.heard <= |h.heard| &&
    (l.e.Data? ==>
       var last := LastHeard(h.heard[..l.heard], l.e.hop);
       last.Some? && l.e.dst == last.value.mac && last.value.time <= l.time <= last.value.time + ENTRY_LIFETIME)
  }

  /** A request for `hop` at `time` keeps further ones away until five seconds have passed: by then the clock has run,
      or a waiting datagram remembers it, or the answer is in the table. */
  predicate Guarded(i: Interface, hop: Ip, time: nat)
  {
    || time + REQUEST_INTERVAL <= i.timer
    || (exists w | w in i.waiting :: w.hop == hop && w.expiry >= time + REQUEST_INTERVAL)
    || (hop in i.table && i.table[hop].expiry >= time + ENTRY_LIFETIME)
  }

  predicate RequestsGuarded(h: History)
  {
    forall k | 0 <= k < |h.log| && h.log[k].e.Request? ::
      h.log[k].time <= h.i.timer && Guarded(h.i, h.log[k].e.hop, h.log[k].time)
  }

  /** Two requests for the same hop are at least five seconds apart. */
  predicate RequestsSpaced(log: seq<Logged>)
  {
    forall j, k | 0 <= j < k < |log| && log[j].e.Request? && log[k].e.Request? && log[j].e.hop == log[k].e.hop ::
      log[j].time + REQUEST_INTERVAL <= log[k].time
  }

  lemma StepTableFresh(h: History, e: Event)
    requires TableFresh(h)
    ensures TableFresh(StepHistory(h, e))
  {
    var h' := StepHistory(h, e);
    if e.FrameEvent? && Heeded(h.i, e.frame).Some? {
      var arp := Heeded(h.i, e.frame).value;
      forall ip | ip in h'.i.table
        ensures LastHeard(h'.heard, ip) ==
                  if ip == arp.senderIp then Some(Heard(ip, arp.senderMac, h.i.timer)) else LastHeard(h.heard, ip)
      {
        LastHeardAppend(h.heard, Heard(arp.senderIp, arp.senderMac, h.i.timer), ip);
      }
    } else {
      assert h'.heard == h.heard;
    }
  }

  lemma {:induction false} ReleasedAt(waiting: seq<Waiting>, table: map<Ip, Entry>, e: Emission)
    requires e in Released(waiting, table)
    ensures e.Data? && e.hop in table && e.dst == table[e.hop].mac
  {
    if waiting != [] {
      var init := Released(waiting[..|waiting| - 1], table);
      if e in init {
        ReleasedAt(waiting[..|waiting| - 1], table, e);
      }
    }
  }

  /** A datagram is emitted to the address the table has for its hop once the event has been taken in. */
  lemma EmissionAddressed(i: Interface, e: Event, m: Emission)
    requires m in Emissions(i, e) && m.Data?
    ensures !e.TickEvent? && m.hop in Step(i, e).table && m.dst == Step(i, e).table[m.hop].mac
              && Step(i, e).timer == i.timer
  {
    if e.FrameEvent? {
      var arp := Heeded(i, e.frame).value;
      ReleasedAt(i.waiting, Learned(i, arp).table, m);
    }
  }

  lemma StepWellAddressed(h: History, e: Event)
    requires TableFresh(h) && forall l | l in h.log :: WellAddressed(h, l)
    ensures var h' := StepHistory(h, e); forall l | l in h'.log :: WellAddressed(h', l)
  {
    var h' := StepHistory(h, e);
    StepTableFresh(h, e);
    hide Step, Emissions, TableFresh, LogAll, LastHeard;
    forall l | l in h'.log
      ensures WellAddressed(h', l)
    {
      if l in h.log {
        assert WellAddressed(h, l);
        assert h'.heard[..l.heard] == h.heard[..l.heard];
      } else {
        NewlyAddressed(h, e, l);
      }
    }
  }

  lemma NewlyAddressed(h: History, e: Event, l: Logged)
    requires TableFresh(StepHistory(h, e)) && l in StepHistory(h, e).log && l !in h.log
    ensures WellAddressed(StepHistory(h, e), l)
  {
    hide Emissions, Step;
    var h' := StepHistory(h, e);
    var m := Emissions(h.i, e);
    var k :| 0 <= k < |h'.log| && h'.log[k] == l;
    assert k >= |h.log|;
    assert l == Logged(m[k - |h.log|], h.i.timer, |h'.heard|);
    assert h'.heard[..|h'.heard|] == h'.heard;
    if l.e.Data? {
      EmissionAddressed(h.i, e, l.e);
    }
  }

  lemma GuardKept(i: Interface, e: Event, hop: Ip, time: nat)
    requires Guarded(i, hop, time) && time <= i.timer && NoneStuck(i)
    ensures Guarded(Step(i, e), hop, time) && i.timer <= Step(i, e).timer
  {
    var i' := Step(i, e);
    if w :| w in i.waiting && w.hop == hop && w.expiry >= time + REQUEST_INTERVAL {
      if e.FrameEvent? && Heeded(i, e.frame).Some? {
        KeptIsPart(i.waiting, i'.table, w);
      } else {
        assert w in i'.waiting;
      }
    }
  }

  /** A new request means that no earlier one is recent. */
  lemma NewRequest(i: Interface, e: Event, m: Emission)
    requires m in Emissions(i, e) && m.Request?
    ensures e.SendEvent? && e.hop == m.hop && Emissions(i, e) == [m] && m.hop !in i.table && !RequestPending(i, m.hop)
    ensures Guarded(Step(i, e), m.hop, i.timer) && Step(i, e).timer == i.timer
  {
    if e.FrameEvent? {
      var arp := Heeded(i, e.frame).value;
      if m in Released(i.waiting, Learned(i, arp).table) {
        ReleasedAt(i.waiting, Learned(i, arp).table, m);
      }
    } else {
      var w := Waiting(e.dgram, e.hop, i.timer + REQUEST_INTERVAL);
      assert w in Step(i, e).waiting;
    }
  }

  lemma GuardBlocks(i: Interface, hop: Ip, time: nat)
    requires Guarded(i, hop, time) && hop !in i.table && !RequestPending(i, hop)
    ensures time + REQUEST_INTERVAL <= i.timer
  {
    if w :| w in i.waiting && w.hop == hop && w.expiry >= time + REQUEST_INTERVAL {
      var k :| 0 <= k < |i.waiting| && i.waiting[k] == w;
    }
  }

  lemma StepRequests(h: History, e: Event)
    requires NoneStuck(h.i) && RequestsGuarded(h) && RequestsSpaced(h.log)
    ensures RequestsGuarded(StepHistory(h, e)) && RequestsSpaced(StepHistory(h, e).log)
  {
    hide Step, Emissions, Guarded, NoneStuck;
    var h', m := StepHistory(h, e), Emissions(h.i, e);
    var n := |h.log|;
    forall k | 0 <= k < |h'.log| && h'.log[k].e.Request?
      ensures h'.log[k].time <= h'.i.timer && Guarded(h'.i, h'.log[k].e.hop, h'.log[k].time)
    {
      if k < n {
        GuardKept(h.i, e, h.log[k].e.hop, h.log[k].time);
      } else {
        NewRequest(h.i, e, m[k - n]);
      }
    }
    forall j, k | 0 <= j < k < |h'.log| && h'.log[j].e.Request? && h'.log[k].e.Request?
        && h'.log[j].e.hop == h'.log[k].e.hop
      ensures h'.log[j].time + REQUEST_INTERVAL <= h'.log[k].time
    {
      if k >= n {
        NewRequest(h.i, e, m[k - n]);
        GuardBlocks(h.i, h.log[j].e.hop, h.log[j].time);
      }
    }
  }

  /** Over any run two requests for the same next hop are at least five seconds apart, and every datagram goes to the
      address most recently announced for its next hop, announced at most thirty seconds earlier. */
  lemma {:induction false} RunTiming(mac: Mac, ip: Ip, es: seq<Event>)
    ensures var h := Run(mac, ip, es);
            && RequestsSpaced(h.log)
            && (forall l | l in h.log :: WellAddressed(h, l))
            && TableFresh(h) && RequestsGuarded(h)
  {
    if es != [] {
      var init, e := es[..|es| - 1], es[|es| - 1];
      var h := Run(mac, ip, init);
      RunTiming(mac, ip, init);
      RunConserves(mac, ip, init);
      hide Step, Emissions, WellAddressed, TableFresh, RequestsSpaced, RequestsGuarded, NoneStuck, Conserved;
      StepWellAddressed(h, e);
      StepTableFresh(h, e);
      StepRequests(h, e);
    }
  }
}
