/** Longest-prefix routing by probing ever shorter prefixes. */
module RouterSpec {
  import opened Words
  import opened Internet
  import opened Powers

  datatype RouteKey = RouteKey(prefix: Ip, length: Byte)

  datatype Route = Route(nextHop: Option<Ip>, port: nat)

  type Table = map<RouteKey, Route>

  /** `dst` with its last `i` bits cleared. */
  function Truncated(dst: Ip, i: nat): (r: Ip)
    ensures r <= dst
  {
    QuotientBound(dst, Pow2(i));
    dst / Pow2(i) * Pow2(i)
  }

  lemma QuotientBound(x: nat, p: nat)
    requires p >= 1
    ensures 0 <= x / p * p <= x < x / p * p + p
  {
    assert x == x / p * p + x % p;
  }

  // ----- What routing is meant to do

  /** The first `length` bits agree. */
  predicate Matches(key: RouteKey, dst: Ip)
  {
    key.length <= 32 && key.prefix / Pow2(32 - key.length) == dst / Pow2(32 - key.length)
  }

  /** No bit is set beyond the prefix. */
  predicate Canonical(key: RouteKey)
  {
    key.length <= 32 && key.prefix % Pow2(32 - key.length) == 0
  }

  predicate IsLongest(table: Table, dst: Ip, key: RouteKey)
  {
    key in table && Matches(key, dst) && forall k | k in table && Matches(k, dst) :: k.length <= key.length
  }

  // ----- What the probe does

  function ProbeKey(dst: Ip, i: nat): RouteKey
    requires i <= 32
  {
    RouteKey(Truncated(dst, i), 32 - i)
  }

  /** The first of the 33 prefixes of `dst`, longest first, that is in the table. */
  function Probe(table: Table, dst: Ip, i: nat): (r: Option<RouteKey>)
    requires i <= 33
    ensures r.Some? ==>
              var j := 32 - r.value.length;
              && i <= j && r.value == ProbeKey(dst, j) && r.value in table
              && forall k | i <= k < j :: ProbeKey(dst, k) !in table
    ensures r.None? ==> forall k | i <= k <= 32 :: ProbeKey(dst, k) !in table
    decreases 33 - i
  {
    if i == 33 then None
    else if ProbeKey(dst, i) in table then Some(ProbeKey(dst, i))
    else Probe(table, dst, i + 1)
  }

  datatype Forward = Forward(port: nat, dgram: Datagram, nextHop: Ip)

  /** `Fails` is the exception for a route that names a port the router does not have. */
  datatype Outcome = Dropped | Fails | Forwarded(f: Forward)

  function RouteOne(table: Table, ports: nat, dgram: Datagram): Outcome
  {
    match Probe(table, dgram.dst, 0)
    case None => Dropped
    case Some(key) =>
      var route := table[key];
      if dgram.ttl <= 1 then Dropped
      else if route.port >= ports then Fails
      else
        var nextHop := match route.nextHop case Some(h) => h case None => dgram.dst;
        Forwarded(Forward(route.port, dgram.(ttl := dgram.ttl - 1), nextHop))
  }

  /** Routes datagrams one after the other, up to the first that fails. */
  function RouteAll(table: Table, ports: nat, ds: seq<Datagram>): (seq<Forward>, seq<Datagram>)
  {
    if ds == [] then ([], [])
    else
      match RouteOne(table, ports, ds[0])
      case Fails => ([], ds)
      case Dropped => RouteAll(table, ports, ds[1..])
      case Forwarded(f) => var (fs, rest) := RouteAll(table, ports, ds[1..]); ([f] + fs, rest)
  }

  /** Every queued datagram, port by port. */
  function Queued(inbound: seq<seq<Datagram>>): seq<Datagram>
  {
    if inbound == [] then [] else inbound[0] + Queued(inbound[1..])
  }

  // ----- The probe finds the longest match

  lemma ProbeKeyMatches(dst: Ip, i: nat)
    requires i <= 32
    ensures Matches(ProbeKey(dst, i), dst) && Canonical(ProbeKey(dst, i))
  {
    hide Pow2;
    var key := ProbeKey(dst, i);
    assert 32 - key.length == i;
    MultipleDivides(dst / Pow2(i), Pow2(i));
  }

  lemma MultipleDivides(q: nat, p: nat)
    requires p >= 1
    ensures q * p / p == q && q * p % p == 0
  {
    var x := q * p;
    assert x == x / p * p + x % p;
    if x / p > q {
      MulLess(q, x / p, p);
    } else if x / p < q {
      MulLess(x / p, q, p);
    }
  }

  lemma MulLess(a: nat, b: nat, p: nat)
    requires a < b && p >= 1
    ensures a * p + p <= b * p
  {
    assert b * p == (a + 1) * p + (b - a - 1) * p;
  }

  /** A canonical route matches exactly when the probe looks for it. */
  lemma CanonicalProbed(key: RouteKey, dst: Ip)
    requires Canonical(key) && Matches(key, dst)
    ensures key == ProbeKey(dst, 32 - key.length)
  {
    hide Pow2;
    DivMod(key.prefix, Pow2(32 - key.length));
  }

  lemma DivMod(x: nat, p: nat)
    requires p >= 1
    ensures x == x / p * p + x % p
  {
  }

  /** No route that matches `dst` is longer than every canonical one that does. */
  predicate CanonicalSuffices(table: Table, dst: Ip)
  {
    forall k | k in table && Matches(k, dst) ::
      exists c | c in table :: Canonical(c) && Matches(c, dst) && k.length <= c.length
  }

  /** The probe finds a longest match whenever there is a match at all. */
  predicate ProbeCorrect(table: Table, dst: Ip)
  {
    match Probe(table, dst, 0)
    case Some(key) => IsLongest(table, dst, key)
    case None => forall k | k in table :: !Matches(k, dst)
  }

  /** Whatever the table holds, the probe finds the longest canonical match. */
  lemma ProbeLongestCanonical(table: Table, dst: Ip, c: RouteKey)
    requires c in table && Canonical(c) && Matches(c, dst)
    ensures var r := Probe(table, dst, 0); r.Some? && c.length <= r.value.length
  {
    CanonicalProbed(c, dst);
  }

  lemma ProbeFindsCanonical(table: Table, dst: Ip)
    ensures var r := Probe(table, dst, 0); r.Some? ==> r.value in table && Canonical(r.value) && Matches(r.value, dst)
  {
    var r := Probe(table, dst, 0);
    if r.Some? {
      ProbeKeyMatches(dst, 32 - r.value.length);
    }
  }

  /** The probe does longest-prefix matching exactly where no route with bits beyond its prefix is needed. */
  lemma ProbeExact(table: Table, dst: Ip)
    ensures ProbeCorrect(table, dst) <==> CanonicalSuffices(table, dst)
  {
    hide Probe, Matches, Canonical;
    var r := Probe(table, dst, 0);
    ProbeFindsCanonical(table, dst);
    if CanonicalSuffices(table, dst) {
      forall k | k in table && Matches(k, dst)
        ensures r.Some? && k.length <= r.value.length
      {
        var c :| c in table && Canonical(c) && Matches(c, dst) && k.length <= c.length;
        ProbeLongestCanonical(table, dst, c);
      }
    }
  }

  /** In a table of canonical routes the probe picks the one route that a linear scan for the longest match would. */
  lemma ProbeIsLongestPrefix(table: Table, dst: Ip, key: RouteKey)
    requires forall k | k in table :: Canonical(k)
    ensures Probe(table, dst, 0) == Some(key) <==> IsLongest(table, dst, key)
    ensures Probe(table, dst, 0) == None <==> forall k | k in table :: !Matches(k, dst)
  {
    hide Probe, Matches, Canonical;
    assert CanonicalSuffices(table, dst);
    ProbeExact(table, dst);
    ProbeFindsCanonical(table, dst);
    var r := Probe(table, dst, 0);
    if IsLongest(table, dst, key) {
      CanonicalProbed(key, dst);
      ProbeLongestCanonical(table, dst, key);
      CanonicalProbed(r.value, dst);
    }
  }

  /** A route with bits beyond its prefix is never found. */
  lemma NonCanonicalMissed(key: RouteKey, route: Route, dst: Ip)
    requires key.length <= 32 && !Canonical(key) && Matches(key, dst)
    ensures Probe(map[key := route], dst, 0) == None && !ProbeCorrect(map[key := route], dst)
  {
    ProbeFindsCanonical(map[key := route], dst);
  }

  /** Such a route is 128.30.76.255/16: no destination in 128.30.0.0/16 finds it. */
  lemma NonCanonicalExample(route: Route, dst: Ip)
    requires 0x801e_0000 <= dst < 0x801f_0000
    ensures var key := RouteKey(0x801e_4cff, 16);
            Matches(key, dst) && Probe(map[key := route], dst, 0) == None && !ProbeCorrect(map[key := route], dst)
  {
    var key := RouteKey(0x801e_4cff, 16);
    assert Pow2(16) == 16 * Pow2(12) == 256 * Pow2(8) == 4096 * Pow2(4) == 0x1_0000;
    NonCanonicalMissed(key, route, dst);
  }

  // ----- What becomes of a datagram

  /** With canonical routes the longest match decides: a datagram whose time is up is dropped, one for a port that is
      not there fails, and any other leaves through the port of the route, for its gateway if it names one and for the
      destination itself if not. */
  lemma RouteDecided(table: Table, ports: nat, dgram: Datagram, key: RouteKey)
    requires (forall k | k in table :: Canonical(k)) && IsLongest(table, dgram.dst, key)
    ensures var o, route := RouteOne(table, ports, dgram), table[key];
            && (o.Dropped? <==> dgram.ttl <= 1)
            && (o.Fails? <==> dgram.ttl > 1 && route.port >= ports)
            && (o.Forwarded? ==>
                  && o.f.port == route.port < ports
                  && o.f.dgram == dgram.(ttl := dgram.ttl - 1)
                  && (route.nextHop.Some? ==> o.f.nextHop == route.nextHop.value)
                  && (route.nextHop.None? ==> o.f.nextHop == dgram.dst))
  {
    hide Probe, Canonical, Matches;
    ProbeIsLongestPrefix(table, dgram.dst, key);
  }

  /** Without a match it is dropped. */
  lemma UnroutableDropped(table: Table, ports: nat, dgram: Datagram)
    requires (forall k | k in table :: Canonical(k)) && forall k | k in table :: !Matches(k, dgram.dst)
    ensures RouteOne(table, ports, dgram) == Dropped
  {
    hide Probe, Canonical, Matches;
    ProbeIsLongestPrefix(table, dgram.dst, RouteKey(0, 0));
  }

  // ----- A new route

  /** What is found for `dst` once a route under `key` is in the table, if `was` was found before. */
  function FoundWith(was: Option<RouteKey>, key: RouteKey, dst: Ip): Option<RouteKey>
  {
    if Canonical(key) && Matches(key, dst) && (was.None? || was.value.length <= key.length) then Some(key) else was
  }

  lemma {:induction false} RouteAddedFrom(table: Table, key: RouteKey, route: Route, dst: Ip, i: nat)
    requires i <= 33
    ensures var was := Probe(table, dst, i);
            Probe(table[key := route], dst, i) ==
              if i <= 32 - key.length <= 32 && key == ProbeKey(dst, 32 - key.length)
                 && (was.None? || was.value.length <= key.length)
              then Some(key) else was
    decreases 33 - i
  {
    hide Truncated;
    if i < 33 {
      RouteAddedFrom(table, key, route, dst, i + 1);
    }
  }

  /** A new route is found exactly for the destinations it matches and for which nothing longer was found. */
  lemma RouteAdded(table: Table, key: RouteKey, route: Route, dst: Ip)
    ensures Probe(table[key := route], dst, 0) == FoundWith(Probe(table, dst, 0), key, dst)
  {
    hide ProbeKey, Probe, Matches, Canonical;
    RouteAddedFrom(table, key, route, dst, 0);
    if key.length <= 32 {
      ProbeKeyMatches(dst, 32 - key.length);
      if Canonical(key) && Matches(key, dst) {
        CanonicalProbed(key, dst);
      }
    } else {
      NeverMatches(key, dst);
    }
  }

  lemma NeverMatches(key: RouteKey, dst: Ip)
    requires key.length > 32
    ensures !Matches(key, dst)
  {
  }

  // ----- Time to live

  /** Forwarding changes the time to live and nothing else. */
  lemma ForwardChangesTtl(table: Table, ports: nat, dgram: Datagram)
    requires RouteOne(table, ports, dgram).Forwarded?
    ensures var f := RouteOne(table, ports, dgram).f;
            && f.dgram == dgram.(ttl := f.dgram.ttl) && f.dgram.ttl == dgram.ttl - 1 >= 1
            && f.port < ports
  {
  }

  datatype Visit = Visit(table: Table, ports: nat)

  /** `dgram` is forwarded by each of the routers in turn. */
  predicate Travels(dgram: Datagram, visits: seq<Visit>)
    decreases |visits|
  {
    visits == [] ||
    (var o := RouteOne(visits[0].table, visits[0].ports, dgram); o.Forwarded? && Travels(o.f.dgram, visits[1..]))
  }

  /** Through any network of such routers a datagram is forwarded at most its initial time to live minus one times. */
  lemma {:induction false} TravelsBounded(dgram: Datagram, visits: seq<Visit>)
    requires Travels(dgram, visits)
    ensures visits == [] || |visits| <= dgram.ttl - 1
    decreases |visits|
  {
    if visits != [] {
      var v := visits[0];
      ForwardChangesTtl(v.table, v.ports, dgram);
      TravelsBounded(RouteOne(v.table, v.ports, dgram).f.dgram, visits[1..]);
    }
  }

  /** Forwards that the datagrams can still cause. */
  function Budget(ds: seq<Datagram>): nat
  {
    if ds == [] then 0 else (if ds[0].ttl > 1 then ds[0].ttl - 1 else 0) + Budget(ds[1..])
  }

  function Datagrams(fs: seq<Forward>): seq<Datagram>
  {
    seq(|fs|, k requires 0 <= k < |fs| => fs[k].dgram)
  }

  /** `d` was forwarded as `f`: with its time to live one lower and nothing else changed. */
  predicate SentAs(table: Table, ports: nat, d: Datagram, f: Forward)
  {
    && RouteOne(table, ports, d) == Forwarded(f)
    && f.dgram == d.(ttl := f.dgram.ttl) && f.dgram.ttl == d.ttl - 1
  }

  /** `idx` says which datagrams were forwarded.  Each of them was sent once and in order; every other
      datagram before `rest` was dropped; `rest` starts with one that fails. */
  ghost predicate Corresponds(table: Table, ports: nat, ds: seq<Datagram>, fs: seq<Forward>, rest: seq<Datagram>,
                              idx: seq<nat>)
  {
    && |idx| == |fs| && |rest| <= |ds| && rest == ds[|ds| - |rest|..]
    && (forall j, k | 0 <= j < k < |idx| :: idx[j] < idx[k])
    && (forall k | 0 <= k < |idx| :: idx[k] < |ds| - |rest| && SentAs(table, ports, ds[idx[k]], fs[k]))
    && (forall j | 0 <= j < |ds| - |rest| && j !in idx :: RouteOne(table, ports, ds[j]) == Dropped)
    && (rest != [] ==> RouteOne(table, ports, rest[0]) == Fails)
  }

  function Shifted(idx: seq<nat>): seq<nat> { seq(|idx|, k requires 0 <= k < |idx| => idx[k] + 1) }

  lemma InShifted(idx: seq<nat>, j: nat)
    ensures j + 1 in Shifted(idx) <==> j in idx
  {
    if j in idx {
      var k :| 0 <= k < |idx| && idx[k] == j;
      assert Shifted(idx)[k] == j + 1;
    }
  }

  lemma DroppedFirst(table: Table, ports: nat, d: Datagram, ds: seq<Datagram>, fs: seq<Forward>, rest: seq<Datagram>,
                     idx: seq<nat>)
    requires Corresponds(table, ports, ds, fs, rest, idx) && RouteOne(table, ports, d) == Dropped
    ensures Corresponds(table, ports, [d] + ds, fs, rest, Shifted(idx))
  {
    hide RouteOne, SentAs;
    var all := [d] + ds;
    forall j | 0 <= j < |all| - |rest| && j !in Shifted(idx)
      ensures RouteOne(table, ports, all[j]) == Dropped
    {
      if j > 0 {
        InShifted(idx, j - 1);
        assert all[j] == ds[j - 1];
      }
    }
  }

  lemma FirstSent(table: Table, ports: nat, d: Datagram)
    requires RouteOne(table, ports, d).Forwarded?
    ensures SentAs(table, ports, d, RouteOne(table, ports, d).f)
  {
    ForwardChangesTtl(table, ports, d);
  }

  lemma ForwardedFirst(table: Table, ports: nat, d: Datagram, ds: seq<Datagram>, fs: seq<Forward>,
                       rest: seq<Datagram>, idx: seq<nat>)
    requires Corresponds(table, ports, ds, fs, rest, idx) && RouteOne(table, ports, d).Forwarded?
    ensures Corresponds(table, ports, [d] + ds, [RouteOne(table, ports, d).f] + fs, rest, [0] + Shifted(idx))
  {
    hide RouteOne, SentAs;
    var all, idx', f := [d] + ds, [0] + Shifted(idx), RouteOne(table, ports, d).f;
    FirstSent(table, ports, d);
    forall k | 0 <= k < |idx'|
      ensures idx'[k] < |all| - |rest| && SentAs(table, ports, all[idx'[k]], ([f] + fs)[k])
    {
      if k > 0 {
        assert idx'[k] == idx[k - 1] + 1 && ([f] + fs)[k] == fs[k - 1] && all[idx'[k]] == ds[idx[k - 1]];
      }
    }
    forall j | 0 <= j < |all| - |rest| && j !in idx'
      ensures RouteOne(table, ports, all[j]) == Dropped
    {
      assert idx'[0] == 0;
      InShifted(idx, j - 1);
      assert j !in Shifted(idx);
      assert all[j] == ds[j - 1];
    }
  }

  lemma {:induction false} RouteAllCorresponds(table: Table, ports: nat, ds: seq<Datagram>) returns (idx: seq<nat>)
    ensures var (fs, rest) := RouteAll(table, ports, ds); Corresponds(table, ports, ds, fs, rest, idx)
  {
    hide RouteOne, Corresponds;
    if ds == [] || RouteOne(table, ports, ds[0]).Fails? {
      idx := [];
      NoneForwarded(table, ports, ds);
    } else {
      var (fs, rest) := RouteAll(table, ports, ds[1..]);
      var tail := RouteAllCorresponds(table, ports, ds[1..]);
      assert [ds[0]] + ds[1..] == ds;
      if RouteOne(table, ports, ds[0]).Dropped? {
        idx := Shifted(tail);
        DroppedFirst(table, ports, ds[0], ds[1..], fs, rest, tail);
      } else {
        idx := [0] + Shifted(tail);
        ForwardedFirst(table, ports, ds[0], ds[1..], fs, rest, tail);
      }
    }
  }

  lemma NoneForwarded(table: Table, ports: nat, ds: seq<Datagram>)
    requires ds == [] || RouteOne(table, ports, ds[0]).Fails?
    ensures Corresponds(table, ports, ds, [], ds, [])
  {
    assert ds[|ds| - |ds|..] == ds;
  }

  /** Routing a batch uses up at least one unit of budget per datagram sent. */
  lemma {:induction false} RouteAllSpends(table: Table, ports: nat, ds: seq<Datagram>)
    ensures var (fs, rest) := RouteAll(table, ports, ds);
            |fs| + Budget(Datagrams(fs)) + Budget(rest) <= Budget(ds)
  {
    hide RouteOne, Datagrams;
    NoDatagrams();
    if ds != [] {
      RouteAllSpends(table, ports, ds[1..]);
      var (fs, rest) := RouteAll(table, ports, ds[1..]);
      var o := RouteOne(table, ports, ds[0]);
      match o
      case Fails =>
      case Dropped =>
      case Forwarded(f) =>
        ForwardChangesTtl(table, ports, ds[0]);
        FirstDatagram(f, fs);
    }
  }

  lemma FirstDatagram(f: Forward, fs: seq<Forward>)
    ensures Budget(Datagrams([f] + fs)) == (if f.dgram.ttl > 1 then f.dgram.ttl - 1 else 0) + Budget(Datagrams(fs))
  {
    assert Datagrams([f] + fs)[1..] == Datagrams(fs);
  }

  lemma NoDatagrams()
    ensures Budget(Datagrams([])) == 0
  {
  }
}
