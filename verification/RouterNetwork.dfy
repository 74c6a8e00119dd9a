/** Routers that pass datagrams to each other. */
module RouterNetwork {
  import opened Internet
  import opened RouterSpec

  /** The datagrams queued at each router, those on their way between routers, and the number forwarded so far. */
  datatype Network = Network(queues: seq<seq<Datagram>>, transit: seq<Datagram>, forwards: nat)

  /** A router routes what it has queued, with whatever table it has then; a datagram in transit reaches some router or
      gets lost or leaves; a host sends a datagram to some router. */
  datatype Event =
    | RouteAt(router: nat, table: Table, ports: nat)
    | Arrive(k: nat, router: nat)
    | Leave(k: nat)
    | Originate(dgram: Datagram, router: nat)

  function Enqueued(queues: seq<seq<Datagram>>, router: nat, d: Datagram): seq<seq<Datagram>>
    requires router < |queues|
  {
    queues[router := queues[router] + [d]]
  }

  function Step(n: Network, e: Event): Network
  {
    match e
    case RouteAt(r, table, ports) =>
      if r < |n.queues| then
        var (fs, rest) := RouteAll(table, ports, n.queues[r]);
        Network(n.queues[r := rest], n.transit + Datagrams(fs), n.forwards + |fs|)
      else n
    case Arrive(k, r) =>
      if k < |n.transit| && r < |n.queues| then
        n.(queues := Enqueued(n.queues, r, n.transit[k]), transit := n.transit[..k] + n.transit[k + 1..])
      else n
    case Leave(k) => if k < |n.transit| then n.(transit := n.transit[..k] + n.transit[k + 1..]) else n
    case Originate(d, r) => if r < |n.queues| then n.(queues := Enqueued(n.queues, r, d)) else n
  }

  function Run(routers: nat, es: seq<Event>): Network
  {
    if es == [] then Network(seq(routers, i => []), [], 0) else Step(Run(routers, es[..|es| - 1]), es[|es| - 1])
  }

  /** Every datagram put into the network. */
  function Originated(es: seq<Event>): seq<Datagram>
  {
    if es == [] then []
    else Originated(es[..|es| - 1]) + (if es[|es| - 1].Originate? then [es[|es| - 1].dgram] else [])
  }

  /** Forwards that can still happen. */
  function Left(n: Network): nat { Budget(Queued(n.queues)) + Budget(n.transit) }

  lemma {:induction false} BudgetConcat(a: seq<Datagram>, b: seq<Datagram>)
    ensures Budget(a + b) == Budget(a) + Budget(b)
  {
    if a == [] {
      assert a + b == b;
    } else {
      assert (a + b)[1..] == a[1..] + b;
      BudgetConcat(a[1..], b);
    }
  }

  lemma {:induction false} BudgetReplace(queues: seq<seq<Datagram>>, r: nat, q: seq<Datagram>)
    requires r < |queues|
    ensures Budget(Queued(queues[r := q])) + Budget(queues[r]) == Budget(Queued(queues)) + Budget(q)
  {
    hide Budget;
    var queues' := queues[r := q];
    BudgetConcat(queues[0], Queued(queues[1..]));
    BudgetConcat(queues'[0], Queued(queues'[1..]));
    if r == 0 {
      assert queues'[1..] == queues[1..];
    } else {
      assert queues'[1..] == queues[1..][r - 1 := q];
      BudgetReplace(queues[1..], r - 1, q);
    }
  }

  lemma BudgetWithout(ds: seq<Datagram>, k: nat)
    requires k < |ds|
    ensures Budget(ds[..k] + ds[k + 1..]) + Budget([ds[k]]) == Budget(ds)
  {
    hide Budget;
    BudgetConcat(ds[..k], [ds[k]]);
    BudgetConcat(ds[..k] + [ds[k]], ds[k + 1..]);
    BudgetConcat(ds[..k], ds[k + 1..]);
    assert ds == ds[..k] + [ds[k]] + ds[k + 1..];
  }

  lemma StepSpends(n: Network, e: Event)
    ensures var n' := Step(n, e);
            n'.forwards + Left(n') <= n.forwards + Left(n) + (if e.Originate? then Budget([e.dgram]) else 0)
  {
    hide Budget, Queued, RouteAll, Datagrams;
    match e
    case RouteAt(r, table, ports) =>
      if r < |n.queues| {
        var (fs, rest) := RouteAll(table, ports, n.queues[r]);
        RouteAllSpends(table, ports, n.queues[r]);
        BudgetReplace(n.queues, r, rest);
        BudgetConcat(n.transit, Datagrams(fs));
      }
    case Arrive(k, r) =>
      if k < |n.transit| && r < |n.queues| {
        BudgetWithout(n.transit, k);
        BudgetConcat(n.queues[r], [n.transit[k]]);
        BudgetReplace(n.queues, r, n.queues[r] + [n.transit[k]]);
      }
    case Leave(k) =>
      if k < |n.transit| {
        BudgetWithout(n.transit, k);
      }
    case Originate(d, r) =>
      if r < |n.queues| {
        BudgetConcat(n.queues[r], [d]);
        BudgetReplace(n.queues, r, n.queues[r] + [d]);
      }
  }

  lemma {:induction false} NothingQueued(routers: nat)
    ensures Budget(Queued(seq(routers, i => []))) == 0
  {
    if routers > 0 {
      var queues: seq<seq<Datagram>> := seq(routers, i => []);
      assert queues[1..] == seq(routers - 1, i => []);
      NothingQueued(routers - 1);
      assert queues[0] + Queued(queues[1..]) == Queued(queues[1..]);
    }
  }

  /** In every run of any number of routers, with any tables, changing ones and loops included, datagrams are forwarded
      altogether at most as often as their times to live allow; so without new datagrams forwarding stops. */
  lemma {:induction false} ForwardsBounded(routers: nat, es: seq<Event>)
    ensures Run(routers, es).forwards + Left(Run(routers, es)) <= Budget(Originated(es))
  {
    hide Step, Queued, Budget;
    if es == [] {
      NothingQueued(routers);
      assert Budget([]) == 0 by { NoDatagrams(); assert Datagrams([]) == []; }
    } else {
      var init, e := es[..|es| - 1], es[|es| - 1];
      ForwardsBounded(routers, init);
      StepSpends(Run(routers, init), e);
      if e.Originate? {
        BudgetConcat(Originated(init), [e.dgram]);
      } else {
        assert Originated(init) + [] == Originated(init);
      }
    }
  }
}
