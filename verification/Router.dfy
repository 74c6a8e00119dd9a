/** The router as an object: its table, its interfaces, and the queue of datagrams each of them has received. */
module RouterModule {
  import opened Words
  import opened Internet
  import opened Powers
  import opened RouterSpec
  import opened RouterPorts
  import opened NetworkInterfaceModule
  import N = InterfaceSpec

  lemma HalveOnce(dst: nat, j: nat)
    ensures dst / Pow2(j) / 2 == dst / Pow2(j + 1)
  {
    var p := Pow2(j);
    HalveQuotient(dst, p);
  }

  lemma HalveQuotient(x: nat, p: nat)
    requires p >= 1
    ensures x / p / 2 == x / (2 * p)
  {
    var q := x / p / 2;
    DivMod(x, p);
    assert x / p == 2 * q + x / p % 2;
    assert x == (2 * q + x / p % 2) * p + x % p == q * (2 * p) + (x / p % 2) * p + x % p;
    assert 0 <= (x / p % 2) * p <= p;
    QuotientUnique(x, 2 * p, q);
  }

  lemma QuotientUnique(x: nat, p: nat, q: nat)
    requires p >= 1 && q * p <= x < q * p + p
    ensures x / p == q
  {
    QuotientBound(x, p);
    if x / p < q { MulLess(x / p, q, p); }
    if q < x / p { MulLess(q, x / p, p); }
  }

  lemma PowStep(j: nat)
    ensures Pow2(j + 1) == 2 * Pow2(j)
  {
  }

  lemma DoubleOnce(q: nat, j: nat, i: nat, dst: nat)
    requires j < i && q * Pow2(i) <= dst
    ensures q * Pow2(j) * 2 == q * Pow2(j + 1) <= dst
  {
    hide Pow2;
    PowStep(j);
    Pow2Sum(j + 1, i - j - 1);
    assert j + 1 + (i - j - 1) == i;
    Regroup(q, Pow2(j), 2);
    Regroup(q, Pow2(j + 1), Pow2(i - j - 1));
    MulAtLeast(q * Pow2(j + 1), Pow2(i - j - 1));
  }

  lemma Regroup(x: nat, a: nat, b: nat)
    ensures x * a * b == x * (a * b)
  {
  }

  lemma MulAtLeast(x: nat, b: nat)
    requires b >= 1
    ensures x * b >= x
  {
  }

  /** Clears the last `i` bits by halving and doubling `i` times in 32-bit arithmetic. */
  method ClearBits(dst: Ip, i: nat) returns (part: Ip)
    requires i <= 32
    ensures part == Truncated(dst, i)
  {
    hide Pow2;
    part := dst;
    PowZero();
    for j := 0 to i
      invariant part == dst / Pow2(j)
    {
      HalveOnce(dst, j);
      part := part / 2;
    }
    ghost var q := part;
    QuotientBound(dst, Pow2(i));
    for j := 0 to i
      invariant part == q * Pow2(j)
    {
      DoubleOnce(q, j, i, dst);
      part := part * 2 % TWO32;
    }
  }

  lemma PowZero()
    ensures Pow2(0) == 1
  {
  }

  /** With the first `p` queues empty, the front of queue `p` is the front of them all. */
  lemma {:induction false} QueuedFront(inbound: seq<seq<Datagram>>, p: nat)
    requires p < |inbound| && forall k | 0 <= k < p :: inbound[k] == []
    ensures inbound[p] != [] ==> Queued(inbound) == [inbound[p][0]] + Queued(inbound[p := inbound[p][1..]])
  {
    if p > 0 {
      var tail := inbound[1..];
      assert forall k | 0 <= k < p - 1 :: tail[k] == inbound[k + 1];
      QueuedFront(tail, p - 1);
      if inbound[p] != [] {
        assert inbound[p := inbound[p][1..]][1..] == tail[p - 1 := tail[p - 1][1..]];
      }
    } else if inbound[0] != [] {
      var rest := inbound[0 := inbound[0][1..]];
      assert rest[1..] == inbound[1..];
      assert inbound[0] == [inbound[0][0]] + inbound[0][1..];
    }
  }

  lemma {:induction false} QueuedEmpty(inbound: seq<seq<Datagram>>)
    requires forall k | 0 <= k < |inbound| :: inbound[k] == []
    ensures Queued(inbound) == []
  {
    if inbound != [] {
      assert forall k | 0 <= k < |inbound| - 1 :: inbound[1..][k] == inbound[k + 1];
      QueuedEmpty(inbound[1..]);
    }
  }

  /** Routing the front datagram and then the others. */
  lemma RouteFront(table: Table, ports: nat, d: Datagram, ds: seq<Datagram>)
    ensures var o := RouteOne(table, ports, d);
            var (fs, rest) := RouteAll(table, ports, ds);
            RouteAll(table, ports, [d] + ds) ==
              match o case Fails => ([], [d] + ds) case Dropped => (fs, rest) case Forwarded(f) => ([f] + fs, rest)
  {
    hide RouteOne;
    assert ([d] + ds)[1..] == ds;
  }

  class Router {
    var routes: Table
    var interfaces: seq<NetworkInterface>
    var inbound: seq<seq<Datagram>>
    ghost var sent: seq<Forward>

    /** Each interface has its queue and is an object of its own. */
    ghost predicate Valid()
      reads this
    {
      |inbound| == |interfaces| && forall j, k | 0 <= j < k < |interfaces| :: interfaces[j] != interfaces[k]
    }

    ghost function Ports(): (r: seq<N.Interface>)
      reads this`interfaces, interfaces
      ensures |r| == |interfaces| && forall k | 0 <= k < |interfaces| :: r[k] == interfaces[k].View()
    {
      var all := interfaces;
      seq(|all|, k requires 0 <= k < |all| reads all => all[k].View())
    }

    ghost function Frames(): (r: seq<seq<OutFrame>>)
      reads this`interfaces, interfaces
      ensures |r| == |interfaces| && forall k | 0 <= k < |interfaces| :: r[k] == interfaces[k].framesOut
    {
      var all := interfaces;
      seq(|all|, k requires 0 <= k < |all| reads all => all[k].framesOut)
    }

    constructor ()
      ensures Valid() && routes == map[] && interfaces == [] && sent == []
    {
      routes, interfaces, inbound, sent := map[], [], [], [];
    }

    method AddInterface(interface: NetworkInterface) returns (k: nat)
      requires Valid() && interface !in interfaces
      modifies this`interfaces, this`inbound
      ensures Valid() && k == |old(interfaces)|
      ensures interfaces == old(interfaces) + [interface] && inbound == old(inbound) + [[]]
    {
      k := |interfaces|;
      interfaces, inbound := interfaces + [interface], inbound + [[]];
    }

    /** A datagram that arrives on an interface is queued there.  The interface answers and releases as it would
        alone. */
    method RecvFrame(k: nat, frame: InFrame)
      requires Valid() && k < |interfaces|
      modifies this`inbound, interfaces[k]
      ensures Valid() && Ports() == old(Ports())[k := N.Step(old(Ports()[k]), N.FrameEvent(frame))]
      ensures var d := N.Received(old(Ports()[k]), frame);
              inbound == old(inbound)[k := old(inbound[k]) + (if d.Some? then [d.value] else [])]
      ensures var i := old(Ports()[k]);
              var frames := N.FramesOf(i.mac, i.ip, N.Emissions(i, N.FrameEvent(frame)));
              Frames() == old(Frames())[k := old(Frames()[k]) + frames]
    {
      hide N.Step, N.Emissions, N.FramesOf, N.Received;
      assert forall j | 0 <= j < |interfaces| && j != k :: interfaces[j] != interfaces[k];
      var d := interfaces[k].RecvFrame(frame);
      if d.Some? {
        inbound := inbound[k := inbound[k] + [d.value]];
      } else {
        assert inbound[k] + [] == inbound[k];
      }
    }

    /** A later route for the same prefix replaces the earlier one; what it changes is what is found for destinations it
        matches. */
    method AddRoute(prefix: Ip, length: Byte, nextHop: Option<Ip>, port: nat)
      modifies this`routes
      ensures routes == old(routes)[RouteKey(prefix, length) := Route(nextHop, port)]
      ensures forall dst: Ip ::
                Probe(routes, dst, 0) == FoundWith(old(Probe(routes, dst, 0)), RouteKey(prefix, length), dst)
    {
      hide Probe, FoundWith;
      forall dst: Ip
        ensures Probe(routes[RouteKey(prefix, length) := Route(nextHop, port)], dst, 0)
             == FoundWith(Probe(routes, dst, 0), RouteKey(prefix, length), dst)
      {
        RouteAdded(routes, RouteKey(prefix, length), Route(nextHop, port), dst);
      }
      routes := routes[RouteKey(prefix, length) := Route(nextHop, port)];
    }

    /** Probes ever shorter prefixes for the route of `dst`. */
    method FindRoute(dst: Ip) returns (found: Option<RouteKey>)
      ensures found == Probe(routes, dst, 0)
    {
      var i := 0;
      while i <= 32
        invariant i <= 33 && Probe(routes, dst, 0) == Probe(routes, dst, i)
      {
        var part := ClearBits(dst, i);
        var key := RouteKey(part, 32 - i);
        if key in routes {
          return Some(key);
        }
        i := i + 1;
      }
      return None;
    }

    /** Gives a datagram to one interface. */
    method HandOver(f: Forward)
      requires Valid() && f.port < |interfaces|
      modifies interfaces
      ensures Valid() && Handed(old(Ports()), old(Frames()), f, Ports(), Frames())
    {
      hide N.Step, N.Emissions, N.FramesOf;
      interfaces[f.port].SendDatagram(f.dgram, f.nextHop);
      assert forall k | 0 <= k < |interfaces| && k != f.port :: interfaces[k] != interfaces[f.port];
    }

    /** Finds the route and lowers the time to live. */
    method Decide(dgram: Datagram) returns (o: Outcome)
      ensures o == RouteOne(routes, |interfaces|, dgram)
    {
      hide Probe;
      var found := FindRoute(dgram.dst);
      if found == None {
        return Dropped;
      }
      var route := routes[found.value];
      var nextHop := match route.nextHop case Some(h) => h case None => dgram.dst;
      if dgram.ttl == 0 {
        return Dropped;
      }
      var newDgram := dgram.(ttl := dgram.ttl - 1);
      if newDgram.ttl == 0 {
        return Dropped;
      }
      if route.port >= |interfaces| {
        return Fails;
      }
      return Forwarded(Forward(route.port, newDgram, nextHop));
    }

    /** Hands a datagram to the interface of its route. */
    method RouteOneDatagram(dgram: Datagram) returns (failed: bool)
      requires Valid()
      modifies this`sent, interfaces
      ensures Valid()
      ensures var o := RouteOne(routes, |interfaces|, dgram);
              && failed == o.Fails?
              && sent == old(sent) + (if o.Forwarded? then [o.f] else [])
              && (if o.Forwarded? then Handed(old(Ports()), old(Frames()), o.f, Ports(), Frames())
                  else Ports() == old(Ports()) && Frames() == old(Frames()))
    {
      hide RouteOne, Handed;
      var o := Decide(dgram);
      if o.Forwarded? {
        PortExists(routes, |interfaces|, dgram);
        HandOver(o.f);
        sent := sent + [o.f];
      }
      failed := o.Fails?;
    }

    /** Routes the datagram at the front of queue `p` and removes it, unless it fails. */
    method RouteNext(p: nat, ghost all: seq<Datagram>, ghost done: seq<Forward>,
                     ghost ports: seq<N.Interface>, ghost frames: seq<seq<OutFrame>>)
      returns (failed: bool, ghost more: seq<Forward>)
      requires Valid() && p < |inbound| && inbound[p] != [] && forall k | 0 <= k < p :: inbound[k] == []
      requires RoutedTo(routes, |interfaces|, all, Queued(inbound), done)
      requires AllHanded(ports, frames, done, Ports(), Frames())
      modifies this`inbound, this`sent, interfaces
      ensures Valid() && sent == old(sent) + more && AllHanded(ports, frames, done + more, Ports(), Frames())
      ensures failed ==> inbound == old(inbound) && more == []
      ensures failed ==> RouteAll(routes, |interfaces|, all) == (done, Queued(inbound)) && Queued(inbound) != []
      ensures !failed ==> inbound == old(inbound)[p := old(inbound)[p][1..]]
      ensures !failed ==> RoutedTo(routes, |interfaces|, all, Queued(inbound), done + more)
    {
      hide RouteOne, RouteAll, Queued, RoutedTo, Handed, AllHanded;
      ghost var d, ds := inbound[p][0], Queued(inbound[p := inbound[p][1..]]);
      QueuedFront(inbound, p);
      RoutedStep(routes, |interfaces|, all, d, ds, done);
      ghost var o := RouteOne(routes, |interfaces|, d);
      ghost var ports', frames' := Ports(), Frames();
      failed := RouteOneDatagram(inbound[p][0]);
      more := if o.Forwarded? then [o.f] else [];
      if o.Forwarded? {
        MoreHanded(ports, frames, done, ports', frames', o.f, Ports(), Frames());
      } else {
        assert done + [] == done;
      }
      if !failed {
        inbound := inbound[p := inbound[p][1..]];
      }
    }

    /** Routes queue `p` until it is empty or a datagram fails. */
    method RouteQueue(p: nat, ghost all: seq<Datagram>, ghost done: seq<Forward>,
                      ghost ports: seq<N.Interface>, ghost frames: seq<seq<OutFrame>>)
      returns (failed: bool, ghost more: seq<Forward>)
      requires Valid() && p < |inbound| && forall k | 0 <= k < p :: inbound[k] == []
      requires RoutedTo(routes, |interfaces|, all, Queued(inbound), done)
      requires AllHanded(ports, frames, done, Ports(), Frames())
      modifies this`inbound, this`sent, interfaces
      ensures Valid() && sent == old(sent) + more && AllHanded(ports, frames, done + more, Ports(), Frames())
      ensures failed ==> RouteAll(routes, |interfaces|, all) == (done + more, Queued(inbound)) && Queued(inbound) != []
      ensures !failed ==> forall k | 0 <= k <= p :: inbound[k] == []
      ensures !failed ==> RoutedTo(routes, |interfaces|, all, Queued(inbound), done + more)
    {
      hide RouteOne, RouteAll, Queued, RoutedTo, AllHanded;
      ghost var next: seq<Forward>;
      more := [];
      assert done + more == done;
      while inbound[p] != []
        invariant Valid() && p < |inbound| && forall k | 0 <= k < p :: inbound[k] == []
        invariant sent == old(sent) + more && AllHanded(ports, frames, done + more, Ports(), Frames())
        invariant RoutedTo(routes, |interfaces|, all, Queued(inbound), done + more)
        decreases |inbound[p]|
      {
        failed, next := RouteNext(p, all, done + more, ports, frames);
        Appended(done, more, next);
        Appended(old(sent), more, next);
        more := more + next;
        if failed {
          return;
        }
      }
      failed := false;
    }

    /** Routes every queued datagram.  Either all queues are empty afterwards, or the datagram at the front of the first
        nonempty one is the one that failed.  `idx` tells which datagrams were forwarded. */
    method RouteQueues() returns (failed: bool, ghost idx: seq<nat>)
      requires Valid()
      modifies this`inbound, this`sent, interfaces
      ensures Valid()
      ensures var (fs, rest) := RouteAll(routes, |interfaces|, Queued(old(inbound)));
              && sent == old(sent) + fs && Queued(inbound) == rest && failed == (rest != [])
              && Corresponds(routes, |interfaces|, Queued(old(inbound)), fs, rest, idx)
              && AllHanded(old(Ports()), old(Frames()), fs, Ports(), Frames())
      ensures !failed ==> forall k | 0 <= k < |inbound| :: inbound[k] == []
    {
      hide RouteOne, RouteAll, Queued, Corresponds, RoutedTo, AllHanded;
      ghost var all := Queued(inbound);
      ghost var done: seq<Forward>, more: seq<Forward> := [], [];
      idx := RouteAllCorresponds(routes, |interfaces|, all);
      RoutedStart(routes, |interfaces|, all);
      NoneHanded(Ports(), Frames());
      var p := 0;
      while p < |inbound|
        invariant Valid() && p <= |inbound| && forall k | 0 <= k < p :: inbound[k] == []
        invariant sent == old(sent) + done && AllHanded(old(Ports()), old(Frames()), done, Ports(), Frames())
        invariant RoutedTo(routes, |interfaces|, all, Queued(inbound), done)
      {
        failed, more := RouteQueue(p, all, done, old(Ports()), old(Frames()));
        done := done + more;
        if failed {
          return;
        }
        p := p + 1;
      }
      QueuedEmpty(inbound);
      RoutedEnd(routes, |interfaces|, all, done);
      failed := false;
    }
  }

  lemma Appended(a: seq<Forward>, b: seq<Forward>, c: seq<Forward>)
    ensures a + (b + c) == (a + b) + c && b + [] == b
  {
  }

  /** Of `all`, `done` has been forwarded and `queued` is still to be routed. */
  ghost predicate RoutedTo(table: Table, ports: nat, all: seq<Datagram>, queued: seq<Datagram>, done: seq<Forward>)
  {
    var (fs, rest) := RouteAll(table, ports, queued);
    RouteAll(table, ports, all) == (done + fs, rest)
  }

  lemma RoutedStart(table: Table, ports: nat, all: seq<Datagram>)
    ensures RoutedTo(table, ports, all, all, [])
  {
    hide RouteAll;
    assert [] + RouteAll(table, ports, all).0 == RouteAll(table, ports, all).0;
  }

  lemma RoutedStep(table: Table, ports: nat, all: seq<Datagram>, d: Datagram, ds: seq<Datagram>, done: seq<Forward>)
    requires RoutedTo(table, ports, all, [d] + ds, done)
    ensures match RouteOne(table, ports, d)
            case Fails => RouteAll(table, ports, all) == (done, [d] + ds)
            case Dropped => RoutedTo(table, ports, all, ds, done)
            case Forwarded(f) => RoutedTo(table, ports, all, ds, done + [f])
  {
    hide RouteOne, RouteAll;
    RouteFront(table, ports, d, ds);
    var fs := RouteAll(table, ports, ds).0;
    match RouteOne(table, ports, d)
    case Fails => assert done + [] == done;
    case Dropped =>
    case Forwarded(f) => assert done + ([f] + fs) == (done + [f]) + fs;
  }

  lemma RoutedEnd(table: Table, ports: nat, all: seq<Datagram>, done: seq<Forward>)
    requires RoutedTo(table, ports, all, [], done)
    ensures RouteAll(table, ports, all) == (done, [])
  {
    assert done + [] == done;
  }

  lemma PortExists(table: Table, ports: nat, dgram: Datagram)
    requires RouteOne(table, ports, dgram).Forwarded?
    ensures RouteOne(table, ports, dgram).f.port < ports
  {
  }

  /** One interface has taken `f`; the others are as they were. */
  ghost predicate Handed(ports: seq<N.Interface>, frames: seq<seq<OutFrame>>, f: Forward,
                         ports': seq<N.Interface>, frames': seq<seq<OutFrame>>)
  {
    && |frames| == |ports| && f.port < |ports|
    && var i := ports[f.port];
    && ports' == ports[f.port := N.Step(i, SendOf(f))]
    && frames' == frames[f.port := frames[f.port] + N.FramesOf(i.mac, i.ip, N.Emissions(i, SendOf(f)))]
  }

  /** The interfaces have taken `fs` one after the other. */
  ghost predicate AllHanded(ports: seq<N.Interface>, frames: seq<seq<OutFrame>>, fs: seq<Forward>,
                            ports': seq<N.Interface>, frames': seq<seq<OutFrame>>)
  {
    && |frames| == |ports| == |frames'| && ports' == HandedOver(ports, fs)
    && forall k | 0 <= k < |ports| ::
         frames'[k] == frames[k] + N.FramesOf(ports[k].mac, ports[k].ip, PortEmissions(ports, fs, k))
  }

  lemma NoneHanded(ports: seq<N.Interface>, frames: seq<seq<OutFrame>>)
    requires |frames| == |ports|
    ensures AllHanded(ports, frames, [], ports, frames)
  {
  }

  lemma MoreHanded(ports: seq<N.Interface>, frames: seq<seq<OutFrame>>, fs: seq<Forward>,
                   ports': seq<N.Interface>, frames': seq<seq<OutFrame>>, f: Forward,
                   ports'': seq<N.Interface>, frames'': seq<seq<OutFrame>>)
    requires AllHanded(ports, frames, fs, ports', frames') && Handed(ports', frames', f, ports'', frames'')
    ensures AllHanded(ports, frames, fs + [f], ports'', frames'')
  {
    hide N.Step, N.Emissions, N.FramesOf, HandedOver, PortEmissions;
    HandOne(ports, fs, f);
    SameAddress(ports, fs, f.port);
    FramesAppend(ports[f.port].mac, ports[f.port].ip, PortEmissions(ports, fs, f.port),
                 N.Emissions(ports'[f.port], SendOf(f)));
    forall k | 0 <= k < |ports|
      ensures frames''[k] == frames[k] + N.FramesOf(ports[k].mac, ports[k].ip, PortEmissions(ports, fs + [f], k))
    {
      if k != f.port {
        assert PortEmissions(ports, fs, k) + [] == PortEmissions(ports, fs, k);
      }
    }
  }

  lemma {:induction false} SameAddress(ports: seq<N.Interface>, fs: seq<Forward>, k: nat)
    requires k < |ports|
    ensures HandedOver(ports, fs)[k].mac == ports[k].mac && HandedOver(ports, fs)[k].ip == ports[k].ip
  {
    if fs != [] {
      SameAddress(ports, fs[..|fs| - 1], k);
    }
  }
}
