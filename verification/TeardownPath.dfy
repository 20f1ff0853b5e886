/** Whole-path teardown: started at any node of an established path and delivered reliably, it
    travels both ways and removes exactly the path's entry at every node. */
module TeardownPath {
  import opened Types
  import opened PhysicalSet
  import opened RoutingTable
  import opened Network
  import opened Links
  import opened SetupPath

  /** Removing a stored entry takes that one out of its list and nothing else out of the table. */
  lemma RemovesExactlyOne(t: Table, e: u32, pid: u32)
    requires Removed(t, e, pid).Some?
    ensures multiset(ListOf(RemoveRoute(t, e, pid), e)) == multiset(ListOf(t, e)) - multiset{Removed(t, e, pid).value}
    ensures forall k | k != e :: ListOf(RemoveRoute(t, e, pid), k) == ListOf(t, k)
  {
    var l, k := ListOf(t, e), IndexOfPid(ListOf(t, e), pid);
    assert l == l[..k] + [l[k]] + l[k + 1..];
  }

  /** Every node of the path finds the path's entry under the source, and has its neighbours on
      the path in its physical set. */
  ghost predicate Established(net: Net, path: seq<u32>, pid: u32) {
    && IsPath(net, path)
    && (forall i | 0 <= i < |path| ::
       Removed(net.nodes[path[i]].rt, Source(path), pid) == Some(PathEntry(path, pid, i)))
    && (forall i, j | 0 <= i < |path| && 0 <= j < |path| && (j == i + 1 || i == j + 1) ::
       Contains(net.nodes[path[i]].pset, path[j]))
  }

  /** The teardown of this route that position i sends to position j. */
  function Message(net: Net, path: seq<u32>, pid: u32, i: nat, j: nat): TeardownPkt
    requires i < |path| && j < |path| && path[i] in net.mac && path[j] in net.mac
  {
    TeardownPkt(path[i], Source(path), pid, [], net.mac[path[i]], net.mac[path[j]])
  }

  predicate Concerns(t: TeardownPkt, path: seq<u32>, pid: u32)
    requires path != []
  {
    t.ea == Source(path) && t.pid == pid
  }

  /** No teardown of this route is in flight. */
  ghost predicate NoneInFlight(net: Net, path: seq<u32>, pid: u32)
    requires path != []
  {
    forall t | t in net.teardowns :: !Concerns(t, path, pid)
  }

  ghost predicate OnPath(net: Net, path: seq<u32>) {
    IsPath(net, path) && forall i | 0 <= i < |path| :: path[i] in net.mac
  }

  /** The teardowns of this route in flight once positions lo to hi are torn down. */
  ghost function Front(net: Net, path: seq<u32>, pid: u32, lo: nat, hi: nat): multiset<TeardownPkt>
    requires OnPath(net, path) && lo <= hi < |path|
  {
    (if lo > 0 then multiset{Message(net, path, pid, lo, lo - 1)} else multiset{})
    + (if hi + 1 < |path| then multiset{Message(net, path, pid, hi, hi + 1)} else multiset{})
  }

  ghost predicate Within(path: seq<u32>, v: u32, lo: nat, hi: nat) {
    exists i :: lo <= i <= hi && i < |path| && path[i] == v
  }

  /** From net0 on, exactly the nodes at positions lo to hi have lost their entry; addresses in
      the physical sets are as before; and the front is in flight. */
  ghost predicate TornBetween(net0: Net, net: Net, path: seq<u32>, pid: u32, lo: nat, hi: nat) {
    && OnPath(net0, path) && lo <= hi < |path|
    && net.mac == net0.mac && net.nodes.Keys == net0.nodes.Keys
    && (forall v | v in net0.nodes :: net.nodes[v].rt ==
          if Within(path, v, lo, hi) then RemoveRoute(net0.nodes[v].rt, Source(path), pid) else net0.nodes[v].rt)
    && (forall v, x | v in net0.nodes :: MacOf(net.nodes[v].pset, x) == MacOf(net0.nodes[v].pset, x))
    && net.teardowns == net0.teardowns + Front(net0, path, pid, lo, hi)
  }

  /** In the established network neighbours on the path are reached at their true address, and no
      node is its own neighbour. */
  lemma PathAddresses(net: Net, path: seq<u32>, pid: u32, i: nat)
    requires Topology(net) && TruePairs(net) && Established(net, path, pid) && i < |path|
    ensures OnPath(net, path)
    ensures MacOf(net.nodes[path[i]].pset, path[i]) == None
    ensures i + 1 < |path| ==> MacOf(net.nodes[path[i]].pset, path[i + 1]) == Some(net.mac[path[i + 1]])
    ensures i > 0 ==> MacOf(net.nodes[path[i]].pset, path[i - 1]) == Some(net.mac[path[i - 1]])
  {
    hide MacOf, Contains, Removed, TruePairs;
    assert path[i] in net.nodes;
    NotOwnNeighbour(net, path[i]);
    if i + 1 < |path| {
      NeighbourAddress(net, path[i], path[i + 1]);
    }
    if i > 0 {
      NeighbourAddress(net, path[i], path[i - 1]);
    }
  }

  lemma NotOwnNeighbour(net: Net, v: u32)
    requires TruePairs(net) && v in net.nodes
    ensures MacOf(net.nodes[v].pset, v) == None
  {
    if Contains(net.nodes[v].pset, v) {
      NeighbourAddress(net, v, v);
    }
  }

  /** What tear_down_path sends from position m of the path. */
  lemma StartSends(net: Net, path: seq<u32>, pid: u32, m: nat, vset: seq<u32>)
    requires Topology(net) && TruePairs(net) && Established(net, path, pid) && m < |path| && OnPath(net, path)
    ensures TearDownPath(path[m], net.mac[path[m]], net.nodes[path[m]], pid, Source(path), 0, vset).teardowns
            == Front(net, path, pid, m, m)
  {
    hide MacOf, Removed, RemoveRoute, TruePairs, Contains, Stores;
    PathAddresses(net, path, pid, m);
    assert path[m] in net.nodes && path[0] in net.nodes;
    assert m > 0 ==> path[m - 1] in net.nodes;
    assert m + 1 < |path| ==> path[m + 1] in net.nodes;
    assert Removed(net.nodes[path[m]].rt, Source(path), pid) == Some(PathEntry(path, pid, m));
    hide Established, Topology;
  }

  lemma OutsideWithin(path: seq<u32>, k: nat, lo: nat, hi: nat)
    requires k < |path| && (k < lo || hi < k)
    requires forall i, j | 0 <= i < j < |path| :: path[i] != path[j]
    ensures !Within(path, path[k], lo, hi)
  {
  }

  /** vrr_rcv_teardown with a matching entry: it goes, and the teardown passes with its vset to the
      other side, unless the vset is too long, there is no hop or the hop is no neighbour. */
  lemma Passes(me: u32, mac: Mac, n: Node, t: TeardownPkt, r: Route)
    requires Removed(n.rt, t.ea, t.pid) == Some(r)
    ensures var o := RcvTeardown(me, mac, n, t); var next := if r.na == t.src then r.nb else r.na;
            && o.node.rt == RemoveRoute(n.rt, t.ea, t.pid)
            && o.teardowns == if |t.vset| > VRR_VSET_SIZE || next == 0 || MacOf(n.pset, next) == None then multiset{}
                              else multiset{TeardownPkt(me, t.ea, t.pid, t.vset, mac, MacOf(n.pset, next).value)}
  {
    ResetKeepsMac(n.pset, t.src, if r.na == t.src then r.nb else r.na);
    hide MacOf, Removed, RemoveRoute;
  }

  /** Without a matching entry a teardown only counts as a sign of life. */
  lemma StrayTeardownIsDropped(me: u32, mac: Mac, n: Node, t: TeardownPkt)
    requires Removed(n.rt, t.ea, t.pid) == None
    ensures RcvTeardown(me, mac, n, t) == Act(me, mac, n, DeliverOther(me, t.src))
  {
  }

  /** The packet is addressed to this hop, which is a neighbour. */
  predicate Addressed(n: Node, hop: u32, t: TeardownPkt) {
    hop != 0 && MacOf(n.pset, hop) == Some(t.to)
  }

  /** Whom tear_down_path tells: the two hops of the removed entry and the sender if one is given, as
      far as they are neighbours, once each; the vset goes along only if a sender is given. Without
      an entry it does nothing. */
  lemma TearDownTells(me: u32, mac: Mac, n: Node, pid: u32, ea: u32, sender: u32, vset: seq<u32>, t: TeardownPkt)
    ensures var o := TearDownPath(me, mac, n, pid, ea, sender, vset);
            match Removed(n.rt, ea, pid)
            case None => o == Outcome(n, multiset{}, multiset{})
            case Some(r) =>
              o.teardowns[t] ==
              if t != TeardownPkt(me, ea, pid, if sender == 0 then [] else vset, mac, t.to) then 0
              else (if Addressed(n, r.na, t) then 1 else 0) + (if Addressed(n, r.nb, t) then 1 else 0)
                   + (if Addressed(n, sender, t) then 1 else 0)
  {
    hide MacOf, Removed, RemoveRoute;
  }

  /** A setup from a node that is no neighbour tears the path down under its source: the entry goes,
      the hops are told, nothing is stored or passed on, and the node does not become active. */
  lemma StrangerTearsDown(me: u32, mac: Mac, n: Node, s: SetupPkt, added: bool)
    requires SenderOf(me, mac, Accept(n, s.src), s.from) == None
    ensures var o := RcvSetup(me, mac, n, s, added);
            && o.node.rt == RemoveRoute(n.rt, s.src, s.pid) && o.setups == multiset{} && o.node.active == n.active
            && o.teardowns == TearDownPath(me, mac, Accept(n, s.src), s.pid, s.src, 0, []).teardowns
  {
    hide MacOf, Removed, RemoveRoute;
  }

  lemma TornNode(net0: Net, net: Net, path: seq<u32>, pid: u32, lo: nat, hi: nat, v: u32)
    requires TornBetween(net0, net, path, pid, lo, hi) && v in net0.nodes && !Within(path, v, lo, hi)
    ensures v in net.nodes && net.nodes[v].rt == net0.nodes[v].rt
    ensures forall x :: MacOf(net.nodes[v].pset, x) == MacOf(net0.nodes[v].pset, x)
  {
    hide MacOf, RemoveRoute, Within, Front;
  }

  /** A node of the path that is still to be torn down: its entry and its addresses. */
  lemma Untouched(net0: Net, net: Net, path: seq<u32>, pid: u32, lo: nat, hi: nat, k: nat)
    requires Topology(net0) && TruePairs(net0) && Established(net0, path, pid)
    requires TornBetween(net0, net, path, pid, lo, hi) && k < |path| && (k < lo || hi < k)
    ensures var n := net.nodes[path[k]];
            && n.rt == net0.nodes[path[k]].rt
            && Removed(n.rt, Source(path), pid) == Some(PathEntry(path, pid, k))
            && MacOf(n.pset, path[k]) == None
            && (k + 1 < |path| ==> path[k + 1] != 0 && MacOf(n.pset, path[k + 1]) == Some(net0.mac[path[k + 1]]))
            && (k > 0 ==> path[k - 1] != 0 && MacOf(n.pset, path[k - 1]) == Some(net0.mac[path[k - 1]]))
  {
    hide MacOf, Removed, RemoveRoute, TruePairs, Front, Within, TornBetween, Contains;
    OutsideWithin(path, k, lo, hi);
    PathAddresses(net0, path, pid, k);
    assert k + 1 < |path| ==> path[k + 1] in net0.nodes;
    assert k > 0 ==> path[k - 1] in net0.nodes;
    TornNode(net0, net, path, pid, lo, hi, path[k]);
  }

  /** The next node toward the source: it forwards, except that the source ends the teardown. */
  lemma ReceiveTowardSource(net0: Net, net: Net, path: seq<u32>, pid: u32, lo: nat, hi: nat)
    requires Topology(net0) && TruePairs(net0) && Established(net0, path, pid)
    requires TornBetween(net0, net, path, pid, lo, hi) && lo > 0
    ensures var at := path[lo - 1];
            var o := RcvTeardown(at, net.mac[at], net.nodes[at], Message(net0, path, pid, lo, lo - 1));
            && o.node.rt == RemoveRoute(net0.nodes[at].rt, Source(path), pid)
            && o.teardowns == if lo - 1 > 0 then multiset{Message(net0, path, pid, lo - 1, lo - 2)} else multiset{}
  {
    var k, at := lo - 1, path[lo - 1];
    Untouched(net0, net, path, pid, lo, hi, k);
    assert PathEntry(path, pid, k).na != path[lo];
    hide MacOf, Removed, RemoveRoute, Topology, TruePairs, Established, RcvTeardown, Front;
    Passes(at, net.mac[at], net.nodes[at], Message(net0, path, pid, lo, k), PathEntry(path, pid, k));
  }

  /** The next node toward the destination: it forwards, and the destination has no further hop. */
  lemma ReceiveTowardTarget(net0: Net, net: Net, path: seq<u32>, pid: u32, lo: nat, hi: nat)
    requires Topology(net0) && TruePairs(net0) && Established(net0, path, pid)
    requires TornBetween(net0, net, path, pid, lo, hi) && hi + 1 < |path|
    ensures var at := path[hi + 1];
            var o := RcvTeardown(at, net.mac[at], net.nodes[at], Message(net0, path, pid, hi, hi + 1));
            && o.node.rt == RemoveRoute(net0.nodes[at].rt, Source(path), pid)
            && o.teardowns == if hi + 2 < |path| then multiset{Message(net0, path, pid, hi + 1, hi + 2)} else multiset{}
  {
    var k, at := hi + 1, path[hi + 1];
    Untouched(net0, net, path, pid, lo, hi, k);
    hide MacOf, Removed, RemoveRoute, Topology, TruePairs, Established, RcvTeardown, Front;
    Passes(at, net.mac[at], net.nodes[at], Message(net0, path, pid, hi, k), PathEntry(path, pid, k));
  }

  /** One more node has been torn down. */
  lemma Extend(net0: Net, net: Net, net': Net, path: seq<u32>, pid: u32, lo: nat, hi: nat, k: nat)
    requires TornBetween(net0, net, path, pid, lo, hi)
    requires k < |path| && (k + 1 == lo || k == hi + 1)
    requires net'.mac == net.mac && path[k] in net'.nodes && net'.nodes == net.nodes[path[k] := net'.nodes[path[k]]]
    requires net'.nodes[path[k]].rt == RemoveRoute(net0.nodes[path[k]].rt, Source(path), pid)
    requires forall x :: MacOf(net'.nodes[path[k]].pset, x) == MacOf(net.nodes[path[k]].pset, x)
    requires var lo', hi' := if k < lo then k else lo, if hi < k then k else hi;
             net'.teardowns == net0.teardowns + Front(net0, path, pid, lo', hi')
    ensures TornBetween(net0, net', path, pid, if k < lo then k else lo, if hi < k then k else hi)
  {
    hide MacOf, RemoveRoute;
    var lo', hi' := if k < lo then k else lo, if hi < k then k else hi;
    forall v | v in net0.nodes
      ensures net'.nodes[v].rt ==
              if Within(path, v, lo', hi') then RemoveRoute(net0.nodes[v].rt, Source(path), pid) else net0.nodes[v].rt
    {
      if v == path[k] {
        assert Within(path, v, lo', hi');
      } else {
        assert Within(path, v, lo', hi') <==> Within(path, v, lo, hi);
      }
    }
  }

  /** A step that delivers a teardown of this route. */
  ghost predicate Delivers(st: Step, path: seq<u32>, pid: u32)
    requires path != []
  {
    st.DeliverTeardown? && Concerns(st.t, path, pid)
  }

  /** What a delivery does to the network, spelled out. */
  lemma DeliveryEffect(net: Net, at: u32, t: TeardownPkt)
    requires Enabled(net, DeliverTeardown(at, t))
    ensures var net' := Apply(net, DeliverTeardown(at, t)); var o := RcvTeardown(at, net.mac[at], net.nodes[at], t);
            && net'.mac == net.mac && net'.nodes == net.nodes[at := o.node]
            && net'.teardowns == net.teardowns - multiset{t} + o.teardowns
            && (forall x :: MacOf(o.node.pset, x) == MacOf(net.nodes[at].pset, x))
  {
    hide MacOf;
    forall x ensures MacOf(RcvTeardown(at, net.mac[at], net.nodes[at], t).node.pset, x)
      == MacOf(net.nodes[at].pset, x)
    {
      ResetKeepsMac(net.nodes[at].pset, t.src, x);
    }
    hide RcvTeardown;
  }

  /** Only the two ends of the torn stretch have a teardown of this route in flight. */
  lemma FrontOnly(net0: Net, net: Net, path: seq<u32>, pid: u32, lo: nat, hi: nat, t: TeardownPkt)
    requires TornBetween(net0, net, path, pid, lo, hi) && NoneInFlight(net0, path, pid)
    requires t in net.teardowns && Concerns(t, path, pid)
    ensures || (lo > 0 && t == Message(net0, path, pid, lo, lo - 1))
            || (hi + 1 < |path| && t == Message(net0, path, pid, hi, hi + 1))
  {
    hide MacOf, RemoveRoute, Within;
    assert t in Front(net0, path, pid, lo, hi);
  }

  lemma OwnerIs(net: Net, a: u32, b: u32)
    requires Topology(net) && a in net.mac && b in net.mac && net.mac[a] == net.mac[b]
    ensures a == b
  {
  }

  lemma TakeLeft(t0: multiset<TeardownPkt>, l: TeardownPkt, r: multiset<TeardownPkt>, sent: multiset<TeardownPkt>)
    ensures t0 + (multiset{l} + r) - multiset{l} + sent == t0 + (sent + r)
  {
  }

  lemma TakeRight(t0: multiset<TeardownPkt>, l: multiset<TeardownPkt>, r: TeardownPkt, sent: multiset<TeardownPkt>)
    ensures t0 + (l + multiset{r}) - multiset{r} + sent == t0 + (l + sent)
  {
  }

  lemma DeliveryTowardSource(net0: Net, net: Net, path: seq<u32>, pid: u32, lo: nat, hi: nat, st: Step)
    requires Topology(net0) && TruePairs(net0) && Established(net0, path, pid)
    requires TornBetween(net0, net, path, pid, lo, hi) && lo > 0
    requires Enabled(net, st) && st.DeliverTeardown? && st.t == Message(net0, path, pid, lo, lo - 1)
    ensures TornBetween(net0, Apply(net, st), path, pid, lo - 1, hi)
  {
    hide MacOf, RemoveRoute, Within, RcvTeardown, TruePairs, Established, Apply, Removed, Topology;
    DeliveryEffect(net, st.at, st.t);
    OwnerIs(net0, st.at, path[lo - 1]);
    ReceiveTowardSource(net0, net, path, pid, lo, hi);
    var r := if hi + 1 < |path| then multiset{Message(net0, path, pid, hi, hi + 1)} else multiset{};
    var sent := RcvTeardown(st.at, net.mac[st.at], net.nodes[st.at], st.t).teardowns;
    TakeLeft(net0.teardowns, st.t, r, sent);
    assert Apply(net, st).teardowns == net0.teardowns + Front(net0, path, pid, lo - 1, hi) by {
      assert net.teardowns == net0.teardowns + (multiset{st.t} + r);
    }
    hide Front;
    Extend(net0, net, Apply(net, st), path, pid, lo, hi, lo - 1);
  }

  lemma DeliveryTowardTarget(net0: Net, net: Net, path: seq<u32>, pid: u32, lo: nat, hi: nat, st: Step)
    requires Topology(net0) && TruePairs(net0) && Established(net0, path, pid)
    requires TornBetween(net0, net, path, pid, lo, hi) && hi + 1 < |path|
    requires Enabled(net, st) && st.DeliverTeardown? && st.t == Message(net0, path, pid, hi, hi + 1)
    ensures TornBetween(net0, Apply(net, st), path, pid, lo, hi + 1)
  {
    hide MacOf, RemoveRoute, Within, RcvTeardown, TruePairs, Established, Apply, Removed, Topology;
    DeliveryEffect(net, st.at, st.t);
    OwnerIs(net0, st.at, path[hi + 1]);
    ReceiveTowardTarget(net0, net, path, pid, lo, hi);
    var l := if lo > 0 then multiset{Message(net0, path, pid, lo, lo - 1)} else multiset{};
    var sent := RcvTeardown(st.at, net.mac[st.at], net.nodes[st.at], st.t).teardowns;
    TakeRight(net0.teardowns, l, st.t, sent);
    assert Apply(net, st).teardowns == net0.teardowns + Front(net0, path, pid, lo, hi + 1) by {
      assert net.teardowns == net0.teardowns + (l + multiset{st.t});
    }
    hide Front;
    Extend(net0, net, Apply(net, st), path, pid, lo, hi, hi + 1);
  }

  /** Each delivery of a teardown of this route tears down the next node on one side. */
  lemma DeliveryExtends(net0: Net, net: Net, path: seq<u32>, pid: u32, lo: nat, hi: nat, st: Step)
      returns (lo': nat, hi': nat)
    requires Topology(net0) && TruePairs(net0) && Established(net0, path, pid) && NoneInFlight(net0, path, pid)
    requires TornBetween(net0, net, path, pid, lo, hi) && Enabled(net, st) && Delivers(st, path, pid)
    ensures TornBetween(net0, Apply(net, st), path, pid, lo', hi')
    ensures lo' <= lo <= hi <= hi' && hi' - lo' == hi - lo + 1
  {
    hide MacOf, RemoveRoute, Within, RcvTeardown, TruePairs, Established, Apply, Removed, Topology, Front, NoneInFlight;
    assert OnPath(net0, path) && lo <= hi < |path| && st.t in net.teardowns;
    hide TornBetween, Enabled;
    FrontOnly(net0, net, path, pid, lo, hi, st.t);
    if lo > 0 && st.t == Message(net0, path, pid, lo, lo - 1) {
      DeliveryTowardSource(net0, net, path, pid, lo, hi, st);
      lo', hi' := lo - 1, hi;
    } else {
      DeliveryTowardTarget(net0, net, path, pid, lo, hi, st);
      lo', hi' := lo, hi + 1;
    }
  }

  // ---- Whole runs ----

  ghost predicate AllDeliver(steps: seq<Step>, path: seq<u32>, pid: u32)
    requires path != []
  {
    forall i | 0 <= i < |steps| :: Delivers(steps[i], path, pid)
  }

  lemma {:induction false} DeliveriesExtend(net0: Net, start: Net, path: seq<u32>, pid: u32, m: nat, steps: seq<Step>)
    returns (lo: nat, hi: nat)
    requires Topology(net0) && TruePairs(net0) && Established(net0, path, pid) && NoneInFlight(net0, path, pid)
    requires TornBetween(net0, start, path, pid, m, m) && Legal(start, steps) && AllDeliver(steps, path, pid)
    ensures TornBetween(net0, Exec(start, steps), path, pid, lo, hi) && hi - lo == |steps|
    decreases |steps|
  {
    hide MacOf, RemoveRoute, Within, RcvTeardown, TruePairs, Established, Apply, Removed, Topology;
    hide TornBetween, Front, NoneInFlight, Enabled;
    if steps == [] {
      lo, hi := m, m;
    } else {
      var before, st := steps[..|steps| - 1], steps[|steps| - 1];
      lo, hi := DeliveriesExtend(net0, start, path, pid, m, before);
      lo, hi := DeliveryExtends(net0, Exec(start, before), path, pid, lo, hi, st);
    }
  }

  lemma StartEffect(net: Net, at: u32, pid: u32, ea: u32, vset: seq<u32>)
    requires Enabled(net, StartTeardown(at, pid, ea, 0, vset))
    ensures var net' := Apply(net, StartTeardown(at, pid, ea, 0, vset));
            var o := TearDownPath(at, net.mac[at], net.nodes[at], pid, ea, 0, vset);
            && net'.mac == net.mac && net'.nodes == net.nodes[at := o.node]
            && net'.teardowns == net.teardowns + o.teardowns
            && o.node.pset == net.nodes[at].pset && o.node.rt == RemoveRoute(net.nodes[at].rt, ea, pid)
  {
    hide TearDownPath, RemoveRoute;
  }

  /** tear_down_path at position m opens the torn stretch there. */
  lemma StartOpens(net: Net, path: seq<u32>, pid: u32, m: nat, vset: seq<u32>)
    requires Topology(net) && TruePairs(net) && Established(net, path, pid) && m < |path|
    ensures Enabled(net, StartTeardown(path[m], pid, Source(path), 0, vset))
    ensures TornBetween(net, Apply(net, StartTeardown(path[m], pid, Source(path), 0, vset)), path, pid, m, m)
  {
    hide MacOf, RemoveRoute, TearDownPath, TruePairs, Apply, Removed, Front, Within, Established, Topology;
    PathAddresses(net, path, pid, m);
    StartSends(net, path, pid, m, vset);
    assert path[m] in net.nodes;
    StartEffect(net, path[m], pid, Source(path), vset);
    var net' := Apply(net, StartTeardown(path[m], pid, Source(path), 0, vset));
    forall v | v in net.nodes
      ensures net'.nodes[v].rt == if Within(path, v, m, m) then RemoveRoute(net.nodes[v].rt, Source(path), pid)
              else net.nodes[v].rt
    {
      WithinOne(path, v, m);
    }
  }

  lemma WithinOne(path: seq<u32>, v: u32, m: nat)
    requires m < |path|
    ensures Within(path, v, m, m) <==> v == path[m]
  {
    if v == path[m] {
      assert m <= m <= m && path[m] == v;
    }
  }

  /** The table of node v once the whole path is torn down: one entry less on the path. */
  function TableAfter(net: Net, path: seq<u32>, pid: u32, v: u32): Table
    requires v in net.nodes && path != []
  {
    if v in path then RemoveRoute(net.nodes[v].rt, Source(path), pid) else net.nodes[v].rt
  }

  /** The state after some deliveries: as long as a node is left, another delivery is possible;
      when none is in flight any more, every node of the path has lost exactly the path's entry,
      every other table is as before, and the channel is as before. */
  ghost predicate TearingDown(net: Net, now: Net, path: seq<u32>, pid: u32, deliveries: nat)
    requires path != []
  {
    && deliveries < |path| && now.nodes.Keys == net.nodes.Keys
    && (deliveries + 1 < |path| ==> exists st :: Enabled(now, st) && Delivers(st, path, pid))
    && (NoneInFlight(now, path, pid) <==> deliveries + 1 == |path|)
    && (NoneInFlight(now, path, pid) ==>
          now.teardowns == net.teardowns && forall v | v in net.nodes ::
            now.nodes[v].rt == TableAfter(net, path, pid, v))
  }

  lemma FrontIsDeliverable(net0: Net, net: Net, path: seq<u32>, pid: u32, lo: nat, hi: nat, i: nat, j: nat)
    requires Topology(net0) && TornBetween(net0, net, path, pid, lo, hi) && i < |path| && j < |path|
    requires Message(net0, path, pid, i, j) in Front(net0, path, pid, lo, hi)
    ensures exists st :: Enabled(net, st) && Delivers(st, path, pid)
    ensures !NoneInFlight(net, path, pid)
  {
    hide MacOf, RemoveRoute, Within, Front;
    var st := DeliverTeardown(path[j], Message(net0, path, pid, i, j));
    assert path[j] in net0.nodes && st.t in net.teardowns;
    assert Enabled(net, st) && Delivers(st, path, pid);
  }

  lemma AllWithin(path: seq<u32>, v: u32)
    requires path != []
    ensures Within(path, v, 0, |path| - 1) <==> v in path
  {
    if v in path {
      var i :| 0 <= i < |path| && path[i] == v;
    }
  }

  lemma TornIsTearingDown(net0: Net, net: Net, path: seq<u32>, pid: u32, lo: nat, hi: nat)
    requires Topology(net0) && TornBetween(net0, net, path, pid, lo, hi) && NoneInFlight(net0, path, pid)
    ensures TearingDown(net0, net, path, pid, hi - lo)
  {
    hide MacOf, RemoveRoute, Within, Enabled, Topology;
    if lo > 0 {
      FrontIsDeliverable(net0, net, path, pid, lo, hi, lo, lo - 1);
    } else if hi + 1 < |path| {
      FrontIsDeliverable(net0, net, path, pid, lo, hi, hi, hi + 1);
    } else {
      assert net.teardowns == net0.teardowns;
      forall v | v in net0.nodes ensures net.nodes[v].rt == TableAfter(net0, path, pid, v) {
        AllWithin(path, v);
      }
    }
  }

  /** Whole-path teardown: tear_down_path at any node of an established path, then any sequence of
      deliveries of the teardowns it causes. */
  lemma TeardownRemovesWholePath(net: Net, path: seq<u32>, pid: u32, m: nat, vset: seq<u32>, steps: seq<Step>)
    requires Topology(net) && TruePairs(net) && Established(net, path, pid) && NoneInFlight(net, path, pid)
    requires m < |path|
    requires Enabled(net, StartTeardown(path[m], pid, Source(path), 0, vset))
    requires Legal(Apply(net, StartTeardown(path[m], pid, Source(path), 0, vset)), steps)
    requires AllDeliver(steps, path, pid)
    ensures var start := Apply(net, StartTeardown(path[m], pid, Source(path), 0, vset));
            TearingDown(net, Exec(start, steps), path, pid, |steps|)
  {
    hide MacOf, RemoveRoute, Within, RcvTeardown, TruePairs, Established, Apply, Removed, Topology;
    hide TornBetween, Front, NoneInFlight, Enabled, TearingDown, Legal, Exec;
    var start := Apply(net, StartTeardown(path[m], pid, Source(path), 0, vset));
    StartOpens(net, path, pid, m, vset);
    var lo, hi := DeliveriesExtend(net, start, path, pid, m, steps);
    TornIsTearingDown(net, Exec(start, steps), path, pid, lo, hi);
  }

  // ---- After a setup ----

  /** A path that a setup has installed can be torn down, as long as its nodes still hold their
      neighbours on the path. */
  lemma InstalledIsEstablished(net: Net, path: seq<u32>, pid: u32)
    requires Installed(net, path, pid, |path|)
    requires forall i, j | 0 <= i < |path| && 0 <= j < |path| && (j == i + 1 || i == j + 1) ::
             Contains(net.nodes[path[i]].pset, path[j])
    ensures Established(net, path, pid)
  {
    forall i | 0 <= i < |path|
      ensures Removed(net.nodes[path[i]].rt, Source(path), pid) == Some(PathEntry(path, pid, i))
    {
      assert EntryLeads(net.nodes[path[i]], path, pid, i);
      LeaderIsRemoved(net.nodes[path[i]].rt, Source(path), PathEntry(path, pid, i));
    }
  }

  lemma LeaderIsRemoved(t: Table, e: u32, r: Route)
    requires Leads(t, e, r)
    ensures Removed(t, e, r.pid) == Some(r)
  {
    var k := FirstLead(t, e, r);
  }

  lemma SurvivingHop(net: Net, now: Net, path: seq<u32>, pid: u32, j: nat)
    requires Topology(net) && Installed(net, path, pid, |path|) && j + 1 < |path|
    requires TearingDown(net, now, path, pid, |path| - 1)
    ensures NamesNext(now, path, Target(path), j)
  {
    hide Leads, Below, NextHop, Enabled, RemoveRoute, ListOf;
    var v, r := path[j], PathEntry(path, pid, j);
    assert EntryLeads(net.nodes[v], path, pid, j) && v in net.nodes && v in path && path[j + 1] in net.nodes;
    assert now.nodes[v].rt == RemoveRoute(net.nodes[v].rt, Source(path), pid);
    OtherListsStay(net.nodes[v].rt, Source(path), pid, Target(path), r);
    LeaderIsFollowed(now.nodes[v].rt, v, Target(path), r);
  }

  lemma OtherListsStay(t: Table, e: u32, pid: u32, k: u32, r: Route)
    requires e != k && Leads(t, k, r)
    ensures Leads(RemoveRoute(t, e, pid), k, r)
  {
    assert ListOf(RemoveRoute(t, e, pid), k) == ListOf(t, k);
  }

  /** Teardown removes only the copy stored under the source: once the whole path is torn down,
      the copies under the destination still lead every node of the path to the destination. */
  lemma DestinationCopiesSurvive(net: Net, now: Net, path: seq<u32>, pid: u32, i: nat)
    requires Topology(net) && Installed(net, path, pid, |path|) && i < |path|
    requires TearingDown(net, now, path, pid, |path| - 1)
    ensures ReachedIn(now, path[i], Target(path), |path| - 1 - i)
  {
    hide NamesNext, ReachedIn, TearingDown, EntryLeads, EntryBelow, Topology;
    forall j | 0 <= j < |path| - 1 ensures NamesNext(now, path, Target(path), j) {
      SurvivingHop(net, now, path, pid, j);
    }
    assert Chain(now, path, Target(path));
    ChainReachesEnd(now, path, i);
  }
}
