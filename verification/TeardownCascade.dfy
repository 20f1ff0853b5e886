/** Teardown cascades terminate and are paid for: every forwarded teardown is matched by one
    removed entry. */
module TeardownCascade {
  import opened Types
  import opened RoutingTable
  import opened Network

  // ---- Counting entries ----

  ghost function Sum<K>(m: map<K, nat>): nat {
    if m == map[] then 0
    else
      var k :| k in m;
      m[k] + Sum(m - {k})
  }

  /** The sum does not depend on the order of counting. */
  lemma {:induction false} SumSplit<K>(m: map<K, nat>, k: K)
    requires k in m
    ensures Sum(m) == m[k] + Sum(m - {k})
    decreases |m|
  {
    var c :| c in m && Sum(m) == m[c] + Sum(m - {c});
    if c != k {
      SumSplit(m - {c}, k);
      SumSplit(m - {k}, c);
      assert m - {c} - {k} == m - {k} - {c};
    }
  }

  lemma SumUpdate<K>(m: map<K, nat>, k: K, x: nat)
    requires k in m
    ensures Sum(m[k := x]) + m[k] == Sum(m) + x
  {
    SumSplit(m, k);
    SumSplit(m[k := x], k);
    assert m[k := x] - {k} == m - {k};
  }

  function Sizes(t: Table): map<u32, nat> {
    map e | e in t :: |t[e]|
  }

  /** Entries in one table, copies counted separately. */
  ghost function Entries(t: Table): nat { Sum(Sizes(t)) }

  ghost function Counts(nodes: map<u32, Node>): map<u32, nat> {
    map v | v in nodes :: Entries(nodes[v].rt)
  }

  /** Entries in the whole network. */
  ghost function Total(net: Net): nat { Sum(Counts(net.nodes)) }

  lemma RemoveCounts(t: Table, e: u32, pid: u32)
    ensures Entries(RemoveRoute(t, e, pid)) + (if Stores(t, e, pid) then 1 else 0) == Entries(t)
  {
    if Stores(t, e, pid) {
      var l := ListOf(t, e);
      var k := IndexOfPid(l, pid);
      assert Sizes(RemoveRoute(t, e, pid)) == Sizes(t)[e := |l| - 1];
      SumUpdate(Sizes(t), e, |l| - 1);
    }
  }

  lemma TotalUpdate(net: Net, net': Net, at: u32)
    requires at in net.nodes && at in net'.nodes && net'.nodes == net.nodes[at := net'.nodes[at]]
    ensures Total(net') + Entries(net.nodes[at].rt) == Total(net) + Entries(net'.nodes[at].rt)
  {
    hide Entries;
    assert Counts(net'.nodes) == Counts(net.nodes)[at := Entries(net'.nodes[at].rt)];
    SumUpdate(Counts(net.nodes), at, Entries(net'.nodes[at].rt));
  }

  // ---- What handlers send for what they remove ----

  /** Without a matching entry nothing is sent; with one, at most one teardown. */
  lemma ReceiveIsPaid(me: u32, mac: Mac, n: Node, t: TeardownPkt)
    ensures |RcvTeardown(me, mac, n, t).teardowns| <= if Stores(n.rt, t.ea, t.pid) then 1 else 0
  {
  }

  /** tear_down_path sends at most one teardown to each of the two hops and the sender. */
  lemma StartIsPaid(me: u32, mac: Mac, n: Node, pid: u32, ea: u32, sender: u32, vset: seq<u32>)
    ensures |TearDownPath(me, mac, n, pid, ea, sender, vset).teardowns| <= if Stores(n.rt, ea, pid) then 3 else 0
  {
  }

  /** Receiving a teardown lowers entries plus teardowns in flight. It lowers the entries, or
      else keeps them and takes the packet out of flight: the pair decreases lexicographically. */
  lemma ReceiveDecreases(net: Net, at: u32, t: TeardownPkt)
    requires Enabled(net, DeliverTeardown(at, t))
    ensures var net' := Apply(net, DeliverTeardown(at, t));
            && Total(net') + |net'.teardowns| < Total(net) + |net.teardowns|
            && (Total(net') < Total(net) || (Total(net') == Total(net) && |net'.teardowns| < |net.teardowns|))
  {
    var st := DeliverTeardown(at, t);
    var net' := Apply(net, st);
    StepFrame(net, st);
    TotalUpdate(net, net', at);
    RemoveCounts(net.nodes[at].rt, t.ea, t.pid);
    ReceiveIsPaid(at, net.mac[at], net.nodes[at], t);
    hide Total, Entries, RcvTeardown, RemoveRoute, Stores;
    assert |net.teardowns - multiset{t}| == |net.teardowns| - 1;
  }

  lemma PushCounts(t: Table, e: u32, r: Route)
    ensures Entries(Push(t, e, r)) == Entries(t) + if e == 0 then 0 else 1
  {
    if e != 0 && e in t {
      assert Sizes(Push(t, e, r)) == Sizes(t)[e := |t[e]| + 1];
      SumUpdate(Sizes(t), e, |t[e]| + 1);
    } else if e != 0 {
      var sizes := Sizes(Push(t, e, r));
      SumSplit(sizes, e);
      assert |Push(t, e, r)[e]| == 1;
      assert sizes - {e} == Sizes(t);
    }
  }

  /** An added route is stored at most twice. */
  lemma AddCounts(t: Table, r: Route)
    ensures Entries(AddRoute(t, r)) <= Entries(t) + 2
  {
    PushCounts(t, r.ea, r);
    PushCounts(Push(t, r.ea, r), r.eb, r);
  }

  // ---- Whole runs ----

  /** What is left to spend: three teardowns for an entry, one for a packet in flight. */
  ghost function Potential(net: Net): nat {
    3 * Total(net) + |net.teardowns|
  }

  /** What a step may add to that: a setup stores its route twice, a copy is one more packet. */
  function Charge(st: Step): nat {
    if st.StartSetup? || st.DeliverSetup? then 6 else if st.DuplicateTeardown? then 1 else 0
  }

  lemma StartKeepsPotential(net: Net, st: Step)
    requires Enabled(net, st) && st.StartTeardown?
    ensures Potential(Apply(net, st)) <= Potential(net)
  {
    var at := st.at;
    StepFrame(net, st);
    TotalUpdate(net, Apply(net, st), at);
    RemoveCounts(net.nodes[at].rt, st.ea, st.pid);
    StartIsPaid(at, net.mac[at], net.nodes[at], st.pid, st.ea, st.sender, st.vset);
    hide Total, Entries, TearDownPath, RemoveRoute, Stores;
  }

  /** A setup stores at most two entries, or is turned into teardowns that a removed entry pays for. */
  lemma SetupIsCharged(me: u32, mac: Mac, n: Node, st: Step)
    requires st.StartSetup? || st.DeliverSetup?
    ensures var o := Act(me, mac, n, st);
            3 * Entries(o.node.rt) + |o.teardowns| <= 3 * Entries(n.rt) + 6
  {
    hide Entries, RemoveRoute, Stores, Removed, Tell;
    if st.StartSetup? {
      var nh := LocalHop(me, n, st.dst, st.proxy);
      AddCounts(n.rt, Route(me, st.dst, me, nh, st.pid));
    } else {
      var n1 := Accept(n, st.s.src);
      match SenderOf(me, mac, n1, st.s.from)
      case None =>
        RemoveCounts(n.rt, st.s.src, st.s.pid);
        StartIsPaid(me, mac, n1, st.s.pid, st.s.src, 0, []);
      case Some(sender) =>
        AddCounts(n.rt, Route(st.s.src, st.s.dst, sender, SetupHop(me, n1, st.s.dst, st.s.proxy), st.s.pid));
    }
  }

  lemma SetupChargesPotential(net: Net, st: Step)
    requires Enabled(net, st) && (st.StartSetup? || st.DeliverSetup?)
    ensures Potential(Apply(net, st)) <= Potential(net) + 6
  {
    var at := st.at;
    StepFrame(net, st);
    TotalUpdate(net, Apply(net, st), at);
    SetupIsCharged(at, net.mac[at], net.nodes[at], st);
    hide Total, Entries, Act;
  }

  lemma OtherKeepsPotential(net: Net, st: Step)
    requires Enabled(net, st) && !st.StartSetup? && !st.DeliverSetup? && !st.StartTeardown? && !st.DeliverTeardown?
    ensures Potential(Apply(net, st)) <= Potential(net) + Charge(st)
  {
    StepFrame(net, st);
    if !ByChannel(st) {
      var at := Actor(st);
      assert Apply(net, st).nodes[at].rt == net.nodes[at].rt;
      TotalUpdate(net, Apply(net, st), at);
    }
    hide Total, Entries;
  }

  function Receives(steps: seq<Step>): nat {
    if steps == [] then 0
    else Receives(steps[..|steps| - 1]) + if steps[|steps| - 1].DeliverTeardown? then 1 else 0
  }

  function Charges(steps: seq<Step>): nat {
    if steps == [] then 0 else Charges(steps[..|steps| - 1]) + Charge(steps[|steps| - 1])
  }

  /** Over every run, whatever hellos, ticks, losses, copies, setups and new teardowns it has, the
      number of teardowns received is bounded by what was stored and in flight at its start, plus
      six for every setup started or received and one for every copy that the channel makes. */
  lemma {:induction false} CascadesAreBounded(net: Net, steps: seq<Step>)
    requires Legal(net, steps)
    ensures Receives(steps) + Potential(Exec(net, steps)) <= Potential(net) + Charges(steps)
  {
    if steps != [] {
      var before, st := steps[..|steps| - 1], steps[|steps| - 1];
      CascadesAreBounded(net, before);
      hide Apply, Enabled, Total;
      if st.DeliverTeardown? {
        ReceiveDecreases(Exec(net, before), st.at, st.t);
      } else if st.StartTeardown? {
        StartKeepsPotential(Exec(net, before), st);
      } else if st.StartSetup? || st.DeliverSetup? {
        SetupChargesPotential(Exec(net, before), st);
      } else {
        OtherKeepsPotential(Exec(net, before), st);
      }
    }
  }

  /** When nothing but teardowns is delivered, each of them uses up an entry or a packet: there
      are at most as many receptions as entries and packets together. */
  lemma {:induction false} PureCascadeIsBounded(net: Net, steps: seq<Step>)
    requires Legal(net, steps) && forall i | 0 <= i < |steps| :: steps[i].DeliverTeardown?
    ensures |steps| + Total(Exec(net, steps)) + |Exec(net, steps).teardowns| <= Total(net) + |net.teardowns|
  {
    if steps != [] {
      var before, st := steps[..|steps| - 1], steps[|steps| - 1];
      PureCascadeIsBounded(net, before);
      hide Apply, Enabled, Total;
      ReceiveDecreases(Exec(net, before), st.at, st.t);
    }
  }
}
