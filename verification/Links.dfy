/** The link invariant: over every run, setups in flight and route entries match an entry at the
    previous hop, unless that hop has torn it down; and hellos only ever put true address pairs
    into the physical sets. */
module Links {
  import opened Types
  import opened PhysicalSet
  import opened RoutingTable
  import opened Network

  // ---- True address pairs ----

  /** Neighbour and queued update entries of node v carry the address of the node they name, and
      none names v itself. */
  ghost predicate TrueNode(mac: map<u32, Mac>, v: u32, n: Node) {
    && (forall i | 0 <= i < |n.pset| ::
          n.pset[i].node in mac && n.pset[i].mac == mac[n.pset[i].node] && n.pset[i].node != v)
    && (forall i | 0 <= i < |n.updates| ::
          n.updates[i].node in mac && n.updates[i].mac == mac[n.updates[i].node] && n.updates[i].node != v)
  }

  ghost predicate TruePairs(net: Net) {
    && (forall v | v in net.nodes :: TrueNode(net.mac, v, net.nodes[v]))
    && (forall h | h in net.hellos :: h.src in net.mac && h.from == net.mac[h.src])
  }

  /** A neighbour is reached at its true address; a node is not its own neighbour. */
  lemma NeighbourAddress(net: Net, v: u32, u: u32)
    requires TruePairs(net) && v in net.nodes && Contains(net.nodes[v].pset, u)
    ensures u != v && u in net.mac && MacOf(net.nodes[v].pset, u) == Some(net.mac[u])
  {
    assert TrueNode(net.mac, v, net.nodes[v]);
  }

  lemma SweepKeepsTrue(mac: map<u32, Mac>, v: u32, n: Node)
    requires TrueNode(mac, v, n)
    ensures TrueNode(mac, v, Tick(n))
  {
    SweepAges(n.pset);
    forall i | 0 <= i < |Sweep(n.pset)|
      ensures var e := Sweep(n.pset)[i]; e.node in mac && e.mac == mac[e.node] && e.node != v
    {
      var e := Sweep(n.pset)[i];
      assert e in Sweep(n.pset);
      var k :| 0 <= k < |n.pset| && !Expires(n.pset[k]) && e == Age(n.pset[k]);
    }
  }

  lemma AcceptKeepsTrue(mac: map<u32, Mac>, v: u32, n: Node, src: u32)
    requires TrueNode(mac, v, n)
    ensures TrueNode(mac, v, Accept(n, src))
  {
  }

  lemma HandleKeepsTrue(mac: map<u32, Mac>, v: u32, n: Node)
    requires TrueNode(mac, v, n) && n.updates != []
    ensures TrueNode(mac, v, Handle(n))
  {
    var u := n.updates[0];
    var k := IndexOf(n.pset, u.node);
    assert k < |n.pset| || Handle(n).pset[1..] == n.pset;
  }

  lemma ActKeepsTrue(macs: map<u32, Mac>, me: u32, n: Node, st: Step)
    requires me in macs && TrueNode(macs, me, n) && !ByChannel(st)
    requires st.HandleStep? ==> n.updates != []
    requires st.DeliverHello? ==> st.h.src in macs && st.h.from == macs[st.h.src] && st.h.from != macs[me]
    ensures TrueNode(macs, me, Act(me, macs[me], n, st).node)
  {
    if st.TickStep? {
      SweepKeepsTrue(macs, me, n);
    } else if st.HandleStep? {
      HandleKeepsTrue(macs, me, n);
    } else if st.DeliverHello? {
      AcceptKeepsTrue(macs, me, n, st.h.src);
    } else if st.DeliverSetup? {
      AcceptKeepsTrue(macs, me, n, st.s.src);
    } else if st.DeliverTeardown? {
      AcceptKeepsTrue(macs, me, n, st.t.src);
    } else if st.DeliverOther? {
      AcceptKeepsTrue(macs, me, n, st.src);
    }
  }

  /** Hellos only ever put true pairs of id and hardware address into the physical sets. */
  lemma StepKeepsTruePairs(net: Net, st: Step)
    requires Topology(net) && TruePairs(net) && Enabled(net, st)
    ensures TruePairs(Apply(net, st))
  {
    StepFrame(net, st);
    StepHellos(net, st);
    if !ByChannel(st) {
      var at := Actor(st);
      assert TrueNode(net.mac, at, net.nodes[at]);
      ActKeepsTrue(net.mac, at, net.nodes[at], st);
    }
    hide Act, TrueNode, Apply, Recorded;
  }

  // ---- Links between consecutive hops ----

  /** Node n stores under endpoint e an entry of the route (ea, eb, pid) whose next hop toward eb
      is v, or it has torn such an entry down. */
  ghost predicate Link(n: Node, e: u32, ea: u32, eb: u32, pid: u32, v: u32) {
    (e, pid) in n.torn || HasEntry(n.rt, e, ea, eb, pid, v)
  }

  ghost predicate HasEntry(t: Table, e: u32, ea: u32, eb: u32, pid: u32, v: u32) {
    exists i :: 0 <= i < |ListOf(t, e)| && IsEntry(ListOf(t, e)[i], ea, eb, pid, v)
  }

  ghost predicate IsEntry(r: Route, ea: u32, eb: u32, pid: u32, v: u32) {
    r.ea == ea && r.eb == eb && r.pid == pid && r.nb == v
  }

  /** The setup was sent by u to v, and u holds its entries toward v. */
  ghost predicate SentAlong(net: Net, s: SetupPkt, u: u32, v: u32) {
    && u in net.nodes && v in net.nodes && u in net.mac && v in net.mac
    && s.from == net.mac[u] && s.to == net.mac[v]
    && (s.src != 0 ==> Link(net.nodes[u], s.src, s.src, s.dst, s.pid, v))
    && (s.dst != 0 ==> Link(net.nodes[u], s.dst, s.src, s.dst, s.pid, v))
  }

  ghost predicate SetupLinked(net: Net, s: SetupPkt) {
    exists u, v :: SentAlong(net, s, u, v)
  }

  /** An entry at v under e is v's own start of a route, or the node it names as previous hop
      holds the matching entry toward v. */
  ghost predicate EntryLinked(nodes: map<u32, Node>, v: u32, e: u32, r: Route) {
    r.na == v || (r.na in nodes && Link(nodes[r.na], e, r.ea, r.eb, r.pid, v))
  }

  ghost predicate EntriesLinked(nodes: map<u32, Node>, v: u32, t: Table) {
    forall e, i | e in t && 0 <= i < |t[e]| :: EntryLinked(nodes, v, e, t[e][i])
  }

  ghost predicate LinkInvariant(net: Net) {
    && Topology(net) && TruePairs(net)
    && (forall s | s in net.setups :: SetupLinked(net, s))
    && (forall v | v in net.nodes :: EntriesLinked(net.nodes, v, net.nodes[v].rt))
  }

  // ---- Entries survive, or are recorded as torn ----

  ghost predicate KeepsLinks(n: Node, n': Node) {
    forall e: u32, ea: u32, eb: u32, pid: u32, v: u32 | Link(n, e, ea, eb, pid, v) :: Link(n', e, ea, eb, pid, v)
  }

  lemma PushKeeps(t: Table, k: u32, r: Route, e: u32, ea: u32, eb: u32, pid: u32, v: u32)
    requires HasEntry(t, e, ea, eb, pid, v)
    ensures HasEntry(Push(t, k, r), e, ea, eb, pid, v)
  {
    var i :| 0 <= i < |ListOf(t, e)| && IsEntry(ListOf(t, e)[i], ea, eb, pid, v);
    if e == k != 0 {
      assert ListOf(Push(t, k, r), e)[i + 1] == ListOf(t, e)[i];
    } else {
      assert ListOf(Push(t, k, r), e)[i] == ListOf(t, e)[i];
    }
  }

  lemma PushHas(t: Table, k: u32, r: Route)
    requires k != 0
    ensures HasEntry(Push(t, k, r), k, r.ea, r.eb, r.pid, r.nb)
  {
    assert IsEntry(ListOf(Push(t, k, r), k)[0], r.ea, r.eb, r.pid, r.nb);
  }

  /** An added route is found under both of its endpoints. */
  lemma AddHas(t: Table, r: Route)
    ensures r.ea != 0 ==> HasEntry(AddRoute(t, r), r.ea, r.ea, r.eb, r.pid, r.nb)
    ensures r.eb != 0 ==> HasEntry(AddRoute(t, r), r.eb, r.ea, r.eb, r.pid, r.nb)
  {
    if r.ea != 0 {
      PushHas(t, r.ea, r);
      PushKeeps(Push(t, r.ea, r), r.eb, r, r.ea, r.ea, r.eb, r.pid, r.nb);
    }
    if r.eb != 0 {
      PushHas(Push(t, r.ea, r), r.eb, r);
    }
  }

  lemma AddKeepsLinks(n: Node, n': Node, r: Route)
    requires n'.rt == AddRoute(n.rt, r) && n'.torn == n.torn
    ensures KeepsLinks(n, n')
  {
    forall e: u32, ea: u32, eb: u32, pid: u32, v: u32 | Link(n, e, ea, eb, pid, v) ensures Link(n', e, ea, eb, pid, v) {
      if (e, pid) !in n.torn {
        PushKeeps(n.rt, r.ea, r, e, ea, eb, pid, v);
        PushKeeps(Push(n.rt, r.ea, r), r.eb, r, e, ea, eb, pid, v);
      }
    }
  }

  lemma TornKeepsLinks(n: Node, n': Node, k: u32, pid: u32)
    requires TornBy(n, n', k, pid)
    ensures KeepsLinks(n, n')
  {
    forall e: u32, ea: u32, eb: u32, p: u32, v: u32 | Link(n, e, ea, eb, p, v) ensures Link(n', e, ea, eb, p, v) {
      if (e, p) !in n'.torn {
        var i :| 0 <= i < |ListOf(n.rt, e)| && IsEntry(ListOf(n.rt, e)[i], ea, eb, p, v);
        var j := IndexOfPid(ListOf(n.rt, k), pid);
        if e == k && j < |ListOf(n.rt, k)| {
          assert j != i;
          assert ListOf(n'.rt, e)[if i < j then i else i - 1] == ListOf(n.rt, e)[i];
        } else {
          assert ListOf(n'.rt, e)[i] == ListOf(n.rt, e)[i];
        }
      }
    }
  }

  lemma SameTableKeepsLinks(n: Node, n': Node)
    requires n'.rt == n.rt && n'.torn == n.torn
    ensures KeepsLinks(n, n')
  {
  }

  lemma RcvSetupKeepsLinks(me: u32, mac: Mac, n: Node, s: SetupPkt, added: bool)
    ensures KeepsLinks(n, RcvSetup(me, mac, n, s, added).node)
  {
    var n1, n' := Accept(n, s.src), RcvSetup(me, mac, n, s, added).node;
    match SenderOf(me, mac, n1, s.from)
    case None => TornKeepsLinks(n, n', s.src, s.pid);
    case Some(sender) =>
      AddKeepsLinks(n, n', Route(s.src, s.dst, sender, SetupHop(me, n1, s.dst, s.proxy), s.pid));
  }

  lemma LocalSetupKeepsLinks(me: u32, mac: Mac, n: Node, dst: u32, pid: u32, proxy: u32, vset: seq<u32>)
    ensures KeepsLinks(n, LocalSetup(me, mac, n, dst, pid, proxy, vset).node)
  {
    var nh := LocalHop(me, n, dst, proxy);
    AddKeepsLinks(n, LocalSetup(me, mac, n, dst, pid, proxy, vset).node, Route(me, dst, me, nh, pid));
  }

  lemma ActKeepsLinks(me: u32, mac: Mac, n: Node, st: Step)
    requires !ByChannel(st) && (st.HandleStep? ==> n.updates != [])
    ensures KeepsLinks(n, Act(me, mac, n, st).node)
  {
    if st.StartSetup? {
      LocalSetupKeepsLinks(me, mac, n, st.dst, st.pid, st.proxy, st.vset);
    } else if st.DeliverSetup? {
      RcvSetupKeepsLinks(me, mac, n, st.s, st.added);
    } else if st.StartTeardown? {
      TornKeepsLinks(n, Act(me, mac, n, st).node, st.ea, st.pid);
    } else if st.DeliverTeardown? {
      TornKeepsLinks(n, Act(me, mac, n, st).node, st.t.ea, st.t.pid);
    } else {
      SameTableKeepsLinks(n, Act(me, mac, n, st).node);
    }
  }

  // ---- The invariant over steps and runs ----

  ghost predicate AllKeepLinks(nodes: map<u32, Node>, nodes': map<u32, Node>) {
    nodes'.Keys == nodes.Keys && forall u | u in nodes :: KeepsLinks(nodes[u], nodes'[u])
  }

  lemma EntriesStayLinked(nodes: map<u32, Node>, nodes': map<u32, Node>, v: u32, t: Table)
    requires AllKeepLinks(nodes, nodes') && EntriesLinked(nodes, v, t)
    ensures EntriesLinked(nodes', v, t)
  {
    forall e, i | e in t && 0 <= i < |t[e]| ensures EntryLinked(nodes', v, e, t[e][i]) {
      assert EntryLinked(nodes, v, e, t[e][i]);
    }
  }

  lemma SetupStaysLinked(net: Net, net': Net, s: SetupPkt)
    requires net'.mac == net.mac && AllKeepLinks(net.nodes, net'.nodes) && SetupLinked(net, s)
    ensures SetupLinked(net', s)
  {
    var u, v :| SentAlong(net, s, u, v);
    assert KeepsLinks(net.nodes[u], net'.nodes[u]);
    assert SentAlong(net', s, u, v);
  }

  lemma PushEntriesLinked(nodes: map<u32, Node>, v: u32, t: Table, k: u32, r: Route)
    requires EntriesLinked(nodes, v, t) && (k != 0 ==> EntryLinked(nodes, v, k, r))
    ensures EntriesLinked(nodes, v, Push(t, k, r))
  {
    var t' := Push(t, k, r);
    forall e, i | e in t' && 0 <= i < |t'[e]| ensures EntryLinked(nodes, v, e, t'[e][i]) {
      if e == k != 0 && i > 0 {
        assert t'[e][i] == ListOf(t, e)[i - 1];
      }
    }
  }

  lemma AddEntriesLinked(nodes: map<u32, Node>, v: u32, t: Table, r: Route)
    requires EntriesLinked(nodes, v, t)
    requires r.ea != 0 ==> EntryLinked(nodes, v, r.ea, r)
    requires r.eb != 0 ==> EntryLinked(nodes, v, r.eb, r)
    ensures EntriesLinked(nodes, v, AddRoute(t, r))
  {
    PushEntriesLinked(nodes, v, t, r.ea, r);
    PushEntriesLinked(nodes, v, Push(t, r.ea, r), r.eb, r);
  }

  lemma RemoveEntriesLinked(nodes: map<u32, Node>, v: u32, t: Table, k: u32, pid: u32)
    requires EntriesLinked(nodes, v, t)
    ensures EntriesLinked(nodes, v, RemoveRoute(t, k, pid))
  {
    var t' := RemoveRoute(t, k, pid);
    forall e, i | e in t' && 0 <= i < |t'[e]| ensures EntryLinked(nodes, v, e, t'[e][i]) {
      var j := IndexOfPid(ListOf(t, k), pid);
      assert t'[e][i] == t[e][if e == k && j < |t[k]| && j <= i then i + 1 else i];
    }
  }

  /** The sender that vrr_rcv_setup looks up is the node that sent the frame. */
  lemma SenderIsTrue(net: Net, at: u32, n: Node, u: u32)
    requires Topology(net) && at in net.mac && u in net.mac && TrueNode(net.mac, at, n)
    ensures var snd := SenderOf(at, net.mac[at], n, net.mac[u]); snd == None || snd == Some(u)
  {
    LookupFindsMac(n.pset, net.mac[u]);
  }

  /** A setup that a node forwards goes to the neighbour its new entry names. */
  lemma SentSetupLinked(net: Net, at: u32, n: Node, r: Route, s: SetupPkt)
    requires Topology(net) && at in net.nodes && TrueNode(net.mac, at, n) && net.nodes[at].rt == n.rt
    requires r.ea != 0 ==> HasEntry(n.rt, r.ea, r.ea, r.eb, r.pid, r.nb)
    requires r.eb != 0 ==> HasEntry(n.rt, r.eb, r.ea, r.eb, r.pid, r.nb)
    requires s in SendSetup(n, r.nb, SetupPkt(r.ea, r.eb, r.pid, s.proxy, s.vset, net.mac[at], 0))
    ensures SetupLinked(net, s)
  {
    var v := r.nb;
    var k := IndexOf(n.pset, v);
    assert n.pset[k].node == v;
    assert SentAlong(net, s, at, v);
  }

  /** What a handler leaves in the routing table of its node and what it sends is linked. */
  ghost predicate OutcomeLinked(net: Net, at: u32, o: Outcome) {
    && EntriesLinked(net.nodes, at, o.node.rt)
    && (forall s | s in o.setups :: SetupLinked(net, s))
  }

  /** The network around a handler: the same nodes and addresses, links kept, and the node at
      which the handler ran in its new state. */
  ghost predicate Around(net: Net, net': Net, at: u32, n': Node) {
    && LinkInvariant(net) && Topology(net') && net'.mac == net.mac && AllKeepLinks(net.nodes, net'.nodes)
    && at in net.nodes && net'.nodes[at] == n'
  }

  lemma LocalSetupLinked(net: Net, net': Net, at: u32, dst: u32, pid: u32, proxy: u32, vset: seq<u32>)
    requires at in net.nodes && at in net.mac
    requires Around(net, net', at, LocalSetup(at, net.mac[at], net.nodes[at], dst, pid, proxy, vset).node)
    ensures OutcomeLinked(net', at, LocalSetup(at, net.mac[at], net.nodes[at], dst, pid, proxy, vset))
  {
    var n, o := net.nodes[at], LocalSetup(at, net.mac[at], net.nodes[at], dst, pid, proxy, vset);
    var nh := LocalHop(at, n, dst, proxy);
    var r := Route(at, dst, at, nh, pid);
    EntriesStayLinked(net.nodes, net'.nodes, at, n.rt);
    AddEntriesLinked(net'.nodes, at, n.rt, r);
    AddHas(n.rt, r);
    forall s | s in o.setups ensures SetupLinked(net', s) {
      SentSetupLinked(net', at, o.node, r, s);
    }
  }

  /** The entry and the forwarded setup of vrr_rcv_setup, for a frame sent by u. */
  lemma ForwardLinked(net: Net, at: u32, t: Table, n: Node, s: SetupPkt, u: u32, nh: u32)
    requires Topology(net) && SentAlong(net, s, u, at) && TrueNode(net.mac, at, n)
    requires EntriesLinked(net.nodes, at, t)
    requires net.nodes[at].rt == n.rt == AddRoute(t, Route(s.src, s.dst, u, nh, s.pid))
    ensures EntriesLinked(net.nodes, at, n.rt)
    ensures forall s' | s' in SendSetup(n, nh, s.(from := net.mac[at])) :: SetupLinked(net, s')
  {
    var r := Route(s.src, s.dst, u, nh, s.pid);
    AddEntriesLinked(net.nodes, at, t, r);
    AddHas(t, r);
    forall s' | s' in SendSetup(n, nh, s.(from := net.mac[at])) ensures SetupLinked(net, s') {
      SentSetupLinked(net, at, n, r, s');
    }
  }

  lemma RcvSetupLinked(net: Net, net': Net, at: u32, s: SetupPkt, added: bool)
    requires at in net.nodes && at in net.mac
    requires Around(net, net', at, RcvSetup(at, net.mac[at], net.nodes[at], s, added).node)
    requires s in net.setups && s.to == net.mac[at]
    ensures OutcomeLinked(net', at, RcvSetup(at, net.mac[at], net.nodes[at], s, added))
  {
    var n, o := Accept(net.nodes[at], s.src), RcvSetup(at, net.mac[at], net.nodes[at], s, added);
    AcceptKeepsTrue(net.mac, at, net.nodes[at], s.src);
    EntriesStayLinked(net.nodes, net'.nodes, at, n.rt);
    SetupStaysLinked(net, net', s);
    var u, v :| SentAlong(net', s, u, v);
    assert v == at;
    SenderIsTrue(net, at, n, u);
    match SenderOf(at, net.mac[at], n, s.from)
    case None =>
      RemoveEntriesLinked(net'.nodes, at, n.rt, s.src, s.pid);
    case Some(sender) =>
      ForwardLinked(net', at, n.rt, o.node, s, u, SetupHop(at, n, s.dst, s.proxy));
  }

  lemma TornLinked(net: Net, net': Net, at: u32, o: Outcome, e: u32, pid: u32)
    requires at in net.nodes && Around(net, net', at, o.node) && o.setups == multiset{}
    requires o.node.rt == RemoveRoute(net.nodes[at].rt, e, pid)
    ensures OutcomeLinked(net', at, o)
  {
    EntriesStayLinked(net.nodes, net'.nodes, at, net.nodes[at].rt);
    RemoveEntriesLinked(net'.nodes, at, net.nodes[at].rt, e, pid);
  }

  lemma SameTableLinked(net: Net, net': Net, at: u32, o: Outcome)
    requires at in net.nodes && Around(net, net', at, o.node) && o.setups == multiset{}
    requires o.node.rt == net.nodes[at].rt
    ensures OutcomeLinked(net', at, o)
  {
    EntriesStayLinked(net.nodes, net'.nodes, at, net.nodes[at].rt);
  }

  lemma ActLinked(net: Net, net': Net, st: Step)
    requires Enabled(net, st) && !ByChannel(st) && Actor(st) in net.nodes && Actor(st) in net.mac
    requires Around(net, net', Actor(st), Act(Actor(st), net.mac[Actor(st)], net.nodes[Actor(st)], st).node)
    ensures OutcomeLinked(net', Actor(st), Act(Actor(st), net.mac[Actor(st)], net.nodes[Actor(st)], st))
  {
    var at := Actor(st);
    var o := Act(at, net.mac[at], net.nodes[at], st);
    if st.StartSetup? {
      LocalSetupLinked(net, net', at, st.dst, st.pid, st.proxy, st.vset);
    } else if st.DeliverSetup? {
      RcvSetupLinked(net, net', at, st.s, st.added);
    } else if st.StartTeardown? {
      TornLinked(net, net', at, o, st.ea, st.pid);
    } else if st.DeliverTeardown? {
      TornLinked(net, net', at, o, st.t.ea, st.t.pid);
    } else {
      SameTableLinked(net, net', at, o);
    }
  }

  lemma NothingMoves(nodes: map<u32, Node>)
    ensures AllKeepLinks(nodes, nodes)
  {
  }

  lemma MovesOne(nodes: map<u32, Node>, at: u32, n': Node)
    requires at in nodes && KeepsLinks(nodes[at], n')
    ensures AllKeepLinks(nodes, nodes[at := n'])
  {
  }

  lemma InstallKeepsLinks(net: Net, net': Net, at: u32, o: Outcome)
    requires Around(net, net', at, o.node) && TruePairs(net') && OutcomeLinked(net', at, o)
    requires net'.nodes == net.nodes[at := o.node]
    requires forall s | s in net'.setups :: s in net.setups || s in o.setups
    ensures LinkInvariant(net')
  {
    forall s | s in net'.setups ensures SetupLinked(net', s) {
      if s in net.setups {
        SetupStaysLinked(net, net', s);
      }
    }
    forall v | v in net'.nodes ensures EntriesLinked(net'.nodes, v, net'.nodes[v].rt) {
      if v != at {
        EntriesStayLinked(net.nodes, net'.nodes, v, net.nodes[v].rt);
      }
    }
  }

  lemma StepKeepsLinks(net: Net, st: Step)
    requires LinkInvariant(net) && Enabled(net, st)
    ensures LinkInvariant(Apply(net, st))
  {
    hide Apply, Act, TruePairs, EntriesLinked, SetupLinked, OutcomeLinked, KeepsLinks, Recorded;
    var net' := Apply(net, st);
    assert st.HandleStep? ==> net.nodes[st.at].updates != [];
    hide Enabled;
    StepFrame(net, st);
    StepKeepsTopology(net, st);
    StepKeepsTruePairs(net, st);
    StepSetups(net, st);
    if ByChannel(st) {
      forall s | s in net'.setups ensures SetupLinked(net', s) {
        NothingMoves(net.nodes);
        SetupStaysLinked(net, net', s);
      }
    } else {
      var at := Actor(st);
      ActKeepsLinks(at, net.mac[at], net.nodes[at], st);
      MovesOne(net.nodes, at, Act(at, net.mac[at], net.nodes[at], st).node);
      ActLinked(net, net', st);
      InstallKeepsLinks(net, net', at, Act(at, net.mac[at], net.nodes[at], st));
    }
  }

  /** The link invariant holds over every run, with loss, duplication, reordering, concurrent
      setups, failures and teardowns. */
  lemma {:induction false} LinksHold(net: Net, steps: seq<Step>)
    requires Init(net) && Legal(net, steps)
    ensures LinkInvariant(Exec(net, steps))
  {
    if steps != [] {
      LinksHold(net, steps[..|steps| - 1]);
      StepKeepsLinks(Exec(net, steps[..|steps| - 1]), steps[|steps| - 1]);
    }
  }

  // ---- Runs in which nothing is torn down ----

  /** The step may take an entry out of a routing table: a teardown, or a setup whose sender is
      not a neighbour. */
  ghost predicate MayRemove(net: Net, st: Step)
    requires Enabled(net, st)
  {
    || st.StartTeardown? || st.DeliverTeardown?
    || (st.DeliverSetup? && SenderOf(st.at, net.mac[st.at], Accept(net.nodes[st.at], st.s.src), st.s.from) == None)
  }

  ghost predicate TeardownFree(net: Net, steps: seq<Step>)
    requires Legal(net, steps)
  {
    steps == [] ||
    (TeardownFree(net, steps[..|steps| - 1]) && !MayRemove(Exec(net, steps[..|steps| - 1]), steps[|steps| - 1]))
  }

  ghost predicate NothingTorn(net: Net) {
    forall v | v in net.nodes :: net.nodes[v].torn == {}
  }

  lemma StepTearsNothing(net: Net, st: Step)
    requires NothingTorn(net) && Enabled(net, st) && !MayRemove(net, st)
    ensures NothingTorn(Apply(net, st))
  {
    StepFrame(net, st);
    if !ByChannel(st) {
      var at := Actor(st);
      assert Act(at, net.mac[at], net.nodes[at], st).node.torn == net.nodes[at].torn;
    }
  }

  lemma {:induction false} RunTearsNothing(net: Net, steps: seq<Step>)
    requires Init(net) && Legal(net, steps) && TeardownFree(net, steps)
    ensures NothingTorn(Exec(net, steps))
  {
    if steps != [] {
      RunTearsNothing(net, steps[..|steps| - 1]);
      StepTearsNothing(Exec(net, steps[..|steps| - 1]), steps[|steps| - 1]);
    }
  }

  /** In every teardown-free run, with loss, duplication, reordering and concurrent setups: a setup
      in flight was sent by a node u to a node v where u stores its route with next hop v, and an
      entry at v that came from u matches an entry at u with next hop v. */
  lemma TeardownFreeLinks(net: Net, steps: seq<Step>)
    requires Init(net) && Legal(net, steps) && TeardownFree(net, steps)
    ensures var now := Exec(net, steps);
            && (forall s | s in now.setups :: exists u, v :: SentAlong(now, s, u, v))
            && (forall s, u, v | s in now.setups && SentAlong(now, s, u, v) ::
                  && (s.src != 0 ==> HasEntry(now.nodes[u].rt, s.src, s.src, s.dst, s.pid, v))
                  && (s.dst != 0 ==> HasEntry(now.nodes[u].rt, s.dst, s.src, s.dst, s.pid, v)))
            && (forall v, e, i | v in now.nodes && e in now.nodes[v].rt && 0 <= i < |now.nodes[v].rt[e]| ::
                  var r := now.nodes[v].rt[e][i];
                  r.na == v || (r.na in now.nodes && HasEntry(now.nodes[r.na].rt, e, r.ea, r.eb, r.pid, v)))
  {
    LinksHold(net, steps);
    RunTearsNothing(net, steps);
    var now := Exec(net, steps);
    forall v, e, i | v in now.nodes && e in now.nodes[v].rt && 0 <= i < |now.nodes[v].rt[e]|
      ensures var r := now.nodes[v].rt[e][i];
              r.na == v || (r.na in now.nodes && HasEntry(now.nodes[r.na].rt, e, r.ea, r.eb, r.pid, v))
    {
      assert EntriesLinked(now.nodes, v, now.nodes[v].rt);
      assert EntryLinked(now.nodes, v, e, now.nodes[v].rt[e][i]);
    }
  }
}
