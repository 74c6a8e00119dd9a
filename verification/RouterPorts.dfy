/** What the interfaces of a router do with the datagrams it forwards. */
module RouterPorts {
  import opened Internet
  import opened RouterSpec
  import opened InterfaceLaws
  import N = InterfaceSpec

  function SendOf(f: Forward): N.Event { N.SendEvent(f.dgram, f.nextHop) }

  /** The interfaces after the datagrams have been handed to them one after the other. */
  function HandedOver(ports: seq<N.Interface>, fs: seq<Forward>): (r: seq<N.Interface>)
    ensures |r| == |ports|
  {
    if fs == [] then ports
    else
      var before, f := HandedOver(ports, fs[..|fs| - 1]), fs[|fs| - 1];
      if f.port < |ports| then before[f.port := N.Step(before[f.port], SendOf(f))] else before
  }

  /** What interface `k` puts on its link meanwhile. */
  function PortEmissions(ports: seq<N.Interface>, fs: seq<Forward>, k: nat): seq<N.Emission>
    requires k < |ports|
  {
    if fs == [] then []
    else
      var init, f := fs[..|fs| - 1], fs[|fs| - 1];
      PortEmissions(ports, init, k) +
      (if f.port == k then N.Emissions(HandedOver(ports, init)[k], SendOf(f)) else [])
  }

  /** The datagrams forwarded through interface `k` to `hop`. */
  function HandedTo(fs: seq<Forward>, k: nat, hop: Ip): seq<Datagram>
  {
    if fs == [] then []
    else
      var f := fs[|fs| - 1];
      HandedTo(fs[..|fs| - 1], k, hop) + (if f.port == k && f.nextHop == hop then [f.dgram] else [])
  }

  /** One more datagram. */
  lemma HandOne(ports: seq<N.Interface>, fs: seq<Forward>, f: Forward)
    requires f.port < |ports|
    ensures var before := HandedOver(ports, fs);
            HandedOver(ports, fs + [f]) == before[f.port := N.Step(before[f.port], SendOf(f))]
    ensures forall k | 0 <= k < |ports| ::
              PortEmissions(ports, fs + [f], k) ==
                PortEmissions(ports, fs, k)
                    + (if f.port == k then N.Emissions(HandedOver(ports, fs)[k], SendOf(f)) else [])
  {
    hide N.Step, N.Emissions;
    assert (fs + [f])[..|fs|] == fs;
  }

  /** Routing and address resolution together lose nothing and reorder nothing: for each interface and next hop, what
      waited there and what the router forwarded is, in this order, what went out followed by what waits now. */
  lemma {:induction false} PortConserves(ports: seq<N.Interface>, fs: seq<Forward>, k: nat, hop: Ip)
    requires k < |ports| && NoneStuck(ports[k])
    ensures var i := HandedOver(ports, fs)[k];
            && NoneStuck(i)
            && WaitingFor(ports[k].waiting, hop) + HandedTo(fs, k, hop)
               == DataTo(PortEmissions(ports, fs, k), hop) + WaitingFor(i.waiting, hop)
  {
    hide N.Step, N.Emissions, WaitingFor, NoneStuck, DataTo;
    if fs == [] {
      assert WaitingFor(ports[k].waiting, hop) + [] == WaitingFor(ports[k].waiting, hop);
      SingleData([], hop);
    } else {
      var init, f := fs[..|fs| - 1], fs[|fs| - 1];
      PortConserves(ports, init, k, hop);
      if f.port == k {
        var i := HandedOver(ports, init)[k];
        var given := if f.nextHop == hop then [f.dgram] else [];
        StepNoneStuck(i, SendOf(f));
        StepConserves(i, SendOf(f), hop);
        DataToConcat(PortEmissions(ports, init, k), N.Emissions(i, SendOf(f)), hop);
        Chain(WaitingFor(ports[k].waiting, hop), HandedTo(init, k, hop), given,
              DataTo(PortEmissions(ports, init, k), hop), WaitingFor(i.waiting, hop),
              DataTo(N.Emissions(i, SendOf(f)), hop), WaitingFor(N.Step(i, SendOf(f)).waiting, hop));
      } else {
        assert HandedTo(fs, k, hop) == HandedTo(init, k, hop);
        assert PortEmissions(ports, fs, k) == PortEmissions(ports, init, k);
      }
    }
  }

  lemma Chain(w: seq<Datagram>, h: seq<Datagram>, g: seq<Datagram>, d: seq<Datagram>, w': seq<Datagram>,
              d': seq<Datagram>, w'': seq<Datagram>)
    requires w + h == d + w' && w' + g == d' + w''
    ensures w + (h + g) == (d + d') + w''
  {
    assert w + (h + g) == (w + h) + g;
    assert d + (w' + g) == (d + d') + w'';
  }
}
