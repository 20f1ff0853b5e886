/** A network of nodes as one transition system: hellos, setups and teardowns in flight over a
    channel that may lose, duplicate and reorder, and every handler as an atomic step. The log,
    the stamps on hellos and the torn sets are history that no step reads. */
module Network {
  import opened Types
  import opened PhysicalSet
  import opened RoutingTable
  import opened NeighbourTable
  import W = Wire

  /** The part of a node's state that hellos, setups and teardowns touch. The torn set records
      the (endpoint, path id) pairs that were ever removed from its routing table. */
  datatype Node = Node(active: bool, timeout: nat, pset: Pset, updates: seq<Update>, rt: Table, torn: set<(u32, u32)>)

  /** A hello on the air; stamp is the position of its sending in the log. */
  datatype HelloPkt = HelloPkt(src: u32, content: W.Hello, from: Mac, stamp: nat)

  datatype SetupPkt = SetupPkt(src: u32, dst: u32, pid: u32, proxy: u32, vset: seq<u32>, from: Mac, to: Mac)

  datatype TeardownPkt = TeardownPkt(src: u32, ea: u32, pid: u32, vset: seq<u32>, from: Mac, to: Mac)

  /** History of one network. */
  datatype Record =
    | Sent(at: u32)                              // a hello was sent
    | Heard(at: u32, src: u32, stamp: nat)       // the hello sent at log position stamp was received
    | Accepted(at: u32, src: u32)                // another packet bearing the id src was accepted
    | Joined(at: u32, node: u32)                 // a neighbour was added to the physical set
    | Ticked(at: u32)                            // the failure sweep ran

  datatype Net = Net(
    mac: map<u32, Mac>,
    nodes: map<u32, Node>,
    hellos: multiset<HelloPkt>,
    setups: multiset<SetupPkt>,
    teardowns: multiset<TeardownPkt>,
    log: seq<Record>)

  // ---- Handlers ----

  /** What a handler leaves and what it sends. */
  datatype Outcome = Outcome(node: Node, setups: multiset<SetupPkt>, teardowns: multiset<TeardownPkt>)

  function Quietly(n: Node): Outcome { Outcome(n, multiset{}, multiset{}) }

  /** The prologue of vrr_rcv. */
  function Accept(n: Node, src: u32): Node {
    n.(timeout := 0, pset := ResetFail(n.pset, src))
  }

  /** send_setup: nothing goes out to a node outside the physical set. */
  function SendSetup(n: Node, to: u32, s: SetupPkt): multiset<SetupPkt> {
    match MacOf(n.pset, to)
    case None => multiset{}
    case Some(m) => multiset{s.(to := m)}
  }

  /** send_teardown */
  function SendTeardown(n: Node, to: u32, t: TeardownPkt): multiset<TeardownPkt> {
    match MacOf(n.pset, to)
    case None => multiset{}
    case Some(m) => multiset{t.(to := m)}
  }

  /** send_teardown to a hop, if there is one. */
  function Tell(n: Node, to: u32, t: TeardownPkt): multiset<TeardownPkt> {
    if to == 0 then multiset{} else SendTeardown(n, to, t)
  }

  /** The hop to which vrr_local_rcv_setup sends. */
  function LocalHop(me: u32, n: Node, dst: u32, proxy: u32): u32 {
    if StatusOf(n.pset, dst) == Unknown then NextHop(n.rt, me, proxy) else dst
  }

  /** vrr_local_rcv_setup: this node is the source. */
  function LocalSetup(me: u32, mac: Mac, n: Node, dst: u32, pid: u32, proxy: u32, vset: seq<u32>): (o: Outcome)
    ensures o.node.pset == n.pset && o.node.updates == n.updates && o.node.torn == n.torn
    ensures o.node.timeout == n.timeout && o.node.active == n.active
  {
    var nh := LocalHop(me, n, dst, proxy);
    var n' := n.(rt := AddRoute(n.rt, Route(me, dst, me, nh, pid)));
    var sent := if nh == 0 then multiset{} else SendSetup(n', nh, SetupPkt(me, dst, pid, proxy, vset, mac, 0));
    Outcome(n', sent, multiset{})
  }

  /** The hop to which vrr_rcv_setup forwards. */
  function SetupHop(me: u32, n: Node, dst: u32, proxy: u32): u32 {
    if StatusOf(n.pset, dst) != Unknown then dst
    else if dst == me then 0
    else NextHop(n.rt, me, proxy)
  }

  /** A node is no proxy for itself: a setup that names it as proxy and has a destination it does not
      know ends there, or does not leave. */
  lemma OwnProxyEnds(me: u32, n: Node, dst: u32)
    requires StatusOf(n.pset, dst) == Unknown
    ensures SetupHop(me, n, dst, me) == 0 && LocalHop(me, n, dst, me) == 0
  {
  }

  /** The neighbour a frame came from, by its hardware address. */
  function SenderOf(me: u32, mac: Mac, n: Node, from: Mac): Option<u32> {
    if from == mac then Some(me) else LookupMac(n.pset, from)
  }

  /** A setup that this node reads and passes to nobody. */
  predicate SetupEnds(me: u32, n: Node, s: SetupPkt) {
    |s.vset| <= VRR_VSET_SIZE && SetupHop(me, n, s.dst, s.proxy) == 0
  }

  /** The setup came from a neighbour, and ends here. */
  predicate EndsHere(me: u32, mac: Mac, n: Node, s: SetupPkt) {
    SenderOf(me, mac, Accept(n, s.src), s.from) != None && SetupEnds(me, Accept(n, s.src), s)
  }

  /** vrr_rcv_setup once the sender is known: store the route, then pass the setup on, or end it
      here. */
  function PassSetup(me: u32, mac: Mac, n: Node, s: SetupPkt, sender: u32, added: bool): (o: Outcome)
    ensures o.node.pset == n.pset && o.node.updates == n.updates && o.node.torn == n.torn && o.teardowns == multiset{}
    ensures o.node.timeout == n.timeout && (n.active ==> o.node.active)
    ensures o.node.rt == AddRoute(n.rt, Route(s.src, s.dst, sender, SetupHop(me, n, s.dst, s.proxy), s.pid))
  {
    var nh := SetupHop(me, n, s.dst, s.proxy);
    var n' := n.(rt := AddRoute(n.rt, Route(s.src, s.dst, sender, nh, s.pid)));
    if |s.vset| > VRR_VSET_SIZE then Quietly(n')
    else if nh != 0 then Outcome(n', SendSetup(n', nh, s.(from := mac)), multiset{})
    else Quietly(n'.(active := n'.active || added))
  }

  /** vrr_rcv_setup. Whether vrr_add admits the source at the end of the path is a parameter. */
  function RcvSetup(me: u32, mac: Mac, n0: Node, s: SetupPkt, added: bool): (o: Outcome)
    ensures o.node.pset == ResetFail(n0.pset, s.src) && o.node.updates == n0.updates
    ensures o.node.timeout == 0 && (n0.active ==> o.node.active)
  {
    var n := Accept(n0, s.src);
    match SenderOf(me, mac, n, s.from)
    case None => TearDownPath(me, mac, n, s.pid, s.src, 0, [])
    case Some(sender) => PassSetup(me, mac, n, s, sender, added)
  }

  /** The table lost the entry for (ea, pid) if it had one, and the history says so. */
  predicate TornBy(n: Node, n': Node, ea: u32, pid: u32) {
    && n'.rt == RemoveRoute(n.rt, ea, pid)
    && n'.torn == n.torn + if Stores(n.rt, ea, pid) then {(ea, pid)} else {}
  }

  /** tear_down_path: remove the entry and tell both hops, and the sender if one is given, as far
      as they are neighbours. The vset goes along only if a sender is given. */
  function TearDownPath(me: u32, mac: Mac, n: Node, pid: u32, ea: u32, sender: u32, vset: seq<u32>): (o: Outcome)
    ensures o.node.pset == n.pset && o.node.updates == n.updates && o.setups == multiset{}
    ensures TornBy(n, o.node, ea, pid) && o.node.timeout == n.timeout && o.node.active == n.active
  {
    match Removed(n.rt, ea, pid)
    case None => Quietly(n)
    case Some(r) =>
      var n' := n.(rt := RemoveRoute(n.rt, ea, pid), torn := n.torn + {(ea, pid)});
      var t := TeardownPkt(me, ea, pid, if sender != 0 then vset else [], mac, 0);
      Outcome(n', multiset{},
              Tell(n', r.na, t) + Tell(n', r.nb, t) + Tell(n', sender, t))
  }

  /** vrr_rcv_teardown; without a matching entry the packet is dropped. */
  function RcvTeardown(me: u32, mac: Mac, n0: Node, t: TeardownPkt): (o: Outcome)
    ensures o.node.pset == ResetFail(n0.pset, t.src) && o.node.updates == n0.updates && o.setups == multiset{}
    ensures TornBy(n0, o.node, t.ea, t.pid) && o.node.timeout == 0 && o.node.active == n0.active
  {
    var n := Accept(n0, t.src);
    match Removed(n.rt, t.ea, t.pid)
    case None => Quietly(n)
    case Some(r) =>
      var next := if r.na == t.src then r.nb else r.na;
      var n' := n.(rt := RemoveRoute(n.rt, t.ea, t.pid), torn := n.torn + {(t.ea, t.pid)});
      if |t.vset| > VRR_VSET_SIZE || next == 0 then Quietly(n')
      else Outcome(n', multiset{}, SendTeardown(n', next, TeardownPkt(me, t.ea, t.pid, t.vset, mac, 0)))
  }

  /** vrr_forward: the address a data frame for dest goes to; none when it is dropped. */
  function ForwardAddress(me: u32, n: Node, dest: u32): Option<Mac> {
    var nh := NextHop(n.rt, me, dest);
    if nh == 0 then None else MacOf(n.pset, nh)
  }

  /** vrr_rcv_hello: sizes over the limit drop the packet after the prologue. */
  function RcvHello(me: u32, n0: Node, h: HelloPkt): Node {
    var n := Accept(n0, h.src);
    if W.Readable(h.content) then
      n.(updates := n.updates + [Update(h.src, h.from, W.Says(h.content, me), h.content.active)])
    else n
  }

  /** One round of pset_update_handler. */
  function Handle(n: Node): Node
    requires n.updates != []
  {
    n.(pset := ApplyUpdate(n.pset, n.updates[0]), updates := n.updates[1..])
  }

  /** vrr_workqueue_handler up to the sending of the hello. */
  function Tick(n: Node): Node {
    n.(pset := Sweep(n.pset),
       timeout := if n.active then n.timeout else n.timeout + 1,
       active := n.active || n.timeout + 1 == VRR_ACTIVE_TIMEOUT)
  }

  // ---- Steps ----

  datatype Step =
    | TickStep(at: u32)
    | DeliverHello(at: u32, h: HelloPkt)
    | HandleStep(at: u32)
    | DeliverOther(at: u32, src: u32)            // data, setup_req, setup_fail: only the prologue counts here
    | StartSetup(at: u32, dst: u32, pid: u32, proxy: u32, vset: seq<u32>)
    | DeliverSetup(at: u32, s: SetupPkt, added: bool)
    | StartTeardown(at: u32, pid: u32, ea: u32, sender: u32, vset: seq<u32>)
    | DeliverTeardown(at: u32, t: TeardownPkt)
    | LoseHello(h: HelloPkt)
    | LoseSetup(s: SetupPkt)
    | LoseTeardown(t: TeardownPkt)
    | DuplicateSetup(s: SetupPkt)
    | DuplicateTeardown(t: TeardownPkt)

  predicate Present(net: Net, at: u32) {
    at in net.nodes && at in net.mac
  }

  /** A frame reaches the node that owns its destination address; a broadcast hello reaches any
      node but its sender, any number of times. */
  predicate Enabled(net: Net, st: Step) {
    match st
    case TickStep(at) => Present(net, at)
    case DeliverHello(at, h) => Present(net, at) && h in net.hellos && h.from != net.mac[at]
    case HandleStep(at) => Present(net, at) && net.nodes[at].updates != []
    case DeliverOther(at, _) => Present(net, at)
    case StartSetup(at, _, _, _, _) => Present(net, at)
    case DeliverSetup(at, s, _) => Present(net, at) && s in net.setups && s.to == net.mac[at]
    case StartTeardown(at, _, _, _, _) => Present(net, at)
    case DeliverTeardown(at, t) => Present(net, at) && t in net.teardowns && t.to == net.mac[at]
    case LoseHello(h) => h in net.hellos
    case LoseSetup(s) => s in net.setups
    case LoseTeardown(t) => t in net.teardowns
    case DuplicateSetup(s) => s in net.setups
    case DuplicateTeardown(t) => t in net.teardowns
  }

  /** The node at which a step happens; 0 for the channel. */
  function Actor(st: Step): u32 {
    match st
    case TickStep(at) => at
    case DeliverHello(at, _) => at
    case HandleStep(at) => at
    case DeliverOther(at, _) => at
    case StartSetup(at, _, _, _, _) => at
    case DeliverSetup(at, _, _) => at
    case StartTeardown(at, _, _, _, _) => at
    case DeliverTeardown(at, _) => at
    case _ => 0
  }

  predicate ByChannel(st: Step) {
    st.LoseHello? || st.LoseSetup? || st.LoseTeardown? || st.DuplicateSetup? || st.DuplicateTeardown?
  }

  /** What the handler of a step does at its node. */
  function Act(me: u32, mac: Mac, n: Node, st: Step): Outcome
    requires !ByChannel(st) && (st.HandleStep? ==> n.updates != [])
  {
    match st
    case TickStep(_) => Quietly(Tick(n))
    case DeliverHello(_, h) => Quietly(RcvHello(me, n, h))
    case HandleStep(_) => Quietly(Handle(n))
    case DeliverOther(_, src) => Quietly(Accept(n, src))
    case StartSetup(_, dst, pid, proxy, vset) => LocalSetup(me, mac, n, dst, pid, proxy, vset)
    case DeliverSetup(_, s, added) => RcvSetup(me, mac, n, s, added)
    case StartTeardown(_, pid, ea, sender, vset) => TearDownPath(me, mac, n, pid, ea, sender, vset)
    case DeliverTeardown(_, t) => RcvTeardown(me, mac, n, t)
  }

  /** What a step adds to the history. */
  function Recorded(n: Node, st: Step): seq<Record>
    requires st.HandleStep? ==> n.updates != []
  {
    match st
    case TickStep(at) => [Ticked(at), Sent(at)]
    case DeliverHello(at, h) => [if W.Readable(h.content) then Heard(at, h.src, h.stamp) else Accepted(at, h.src)]
    case HandleStep(at) =>
      if StatusOf(n.pset, n.updates[0].node) == Unknown then [Joined(at, n.updates[0].node)] else []
    case DeliverOther(at, src) => [Accepted(at, src)]
    case DeliverSetup(at, s, _) => [Accepted(at, s.src)]
    case DeliverTeardown(at, t) => [Accepted(at, t.src)]
    case _ => []
  }

  /** A step records only what happened at its own node. */
  lemma RecordedAt(n: Node, st: Step)
    requires !ByChannel(st) && (st.HandleStep? ==> n.updates != [])
    ensures forall i | 0 <= i < |Recorded(n, st)| :: Recorded(n, st)[i].at == Actor(st)
  {
  }

  /** The hello that a tick of this node sends. */
  function TickHello(net: Net, at: u32): HelloPkt
    requires Present(net, at)
  {
    var n := Tick(net.nodes[at]);
    HelloPkt(at, HelloOf(n.active, n.pset), net.mac[at], |net.log| + 1)
  }

  function HellosAfter(net: Net, st: Step, o: Outcome): multiset<HelloPkt>
    requires Enabled(net, st)
  {
    match st
    case TickStep(at) => net.hellos + multiset{TickHello(net, at)}
    case _ => net.hellos
  }

  /** A delivered packet leaves the channel before its handler runs. */
  function Taken(net: Net, st: Step): (r: Net)
    ensures r.mac == net.mac && r.nodes == net.nodes && r.hellos == net.hellos && r.log == net.log
  {
    match st
    case DeliverSetup(_, s, _) => net.(setups := net.setups - multiset{s})
    case DeliverTeardown(_, t) => net.(teardowns := net.teardowns - multiset{t})
    case _ => net
  }

  /** Install what a handler did at a node. */
  function Install(net: Net, at: u32, o: Outcome, rec: seq<Record>, hellos: multiset<HelloPkt>): Net {
    Net(net.mac, net.nodes[at := o.node], hellos, net.setups + o.setups,
        net.teardowns + o.teardowns, net.log + rec)
  }

  function ChannelStep(net: Net, st: Step): (r: Net)
    ensures r.mac == net.mac && r.nodes == net.nodes && r.log == net.log
  {
    match st
    case LoseHello(h) => net.(hellos := net.hellos - multiset{h})
    case LoseSetup(s) => net.(setups := net.setups - multiset{s})
    case LoseTeardown(t) => net.(teardowns := net.teardowns - multiset{t})
    case DuplicateSetup(s) => net.(setups := net.setups + multiset{s})
    case DuplicateTeardown(t) => net.(teardowns := net.teardowns + multiset{t})
    case _ => net
  }

  function Apply(net: Net, st: Step): Net
    requires Enabled(net, st)
  {
    if ByChannel(st) then ChannelStep(net, st)
    else
      var at := Actor(st);
      var o := Act(at, net.mac[at], net.nodes[at], st);
      Install(Taken(net, st), at, o, Recorded(net.nodes[at], st), HellosAfter(net, st, o))
  }

  // ---- Runs ----

  /** Every step of the run is enabled when it is taken. */
  ghost predicate Legal(net: Net, steps: seq<Step>)
    decreases |steps|, 0
  {
    steps == [] ||
    (Legal(net, steps[..|steps| - 1]) && Enabled(Exec(net, steps[..|steps| - 1]), steps[|steps| - 1]))
  }

  /** The network after the run. */
  ghost function Exec(net: Net, steps: seq<Step>): Net
    requires Legal(net, steps)
    decreases |steps|, 1
  {
    if steps == [] then net else Apply(Exec(net, steps[..|steps| - 1]), steps[|steps| - 1])
  }

  lemma LegalAppend(net: Net, steps: seq<Step>, st: Step)
    requires Legal(net, steps) && Enabled(Exec(net, steps), st)
    ensures Legal(net, steps + [st]) && Exec(net, steps + [st]) == Apply(Exec(net, steps), st)
  {
    assert (steps + [st])[..|steps|] == steps;
  }

  const FRESH := Node(false, 0, [], [], map[], {})

  /** Distinct hardware addresses, no node with id 0. */
  ghost predicate Topology(net: Net) {
    && net.nodes.Keys == net.mac.Keys && 0 !in net.mac
    && forall u, v | u in net.mac && v in net.mac && net.mac[u] == net.mac[v] :: u == v
  }

  /** All nodes freshly started, nothing in flight. */
  ghost predicate Init(net: Net) {
    && Topology(net)
    && (forall v | v in net.nodes :: net.nodes[v] == FRESH)
    && net.hellos == multiset{} && net.setups == multiset{} && net.teardowns == multiset{} && net.log == []
  }

  /** A step changes no node but its actor, and never the addresses. */
  lemma StepFrame(net: Net, st: Step)
    requires Enabled(net, st)
    ensures var net' := Apply(net, st);
            && net'.mac == net.mac
            && (if ByChannel(st) then net'.nodes == net.nodes && net'.log == net.log
                else
                  var at := Actor(st);
                  && Present(net, at)
                  && net'.nodes == net.nodes[at := Act(at, net.mac[at], net.nodes[at], st).node]
                  && net'.log == net.log + Recorded(net.nodes[at], st))
  {
  }

  /** Every setup in flight was there before or was sent by the step. */
  lemma StepSetups(net: Net, st: Step)
    requires Enabled(net, st)
    ensures var net' := Apply(net, st);
            if ByChannel(st) then forall s | s in net'.setups :: s in net.setups
            else
              var at := Actor(st);
              Present(net, at)
              && forall s | s in net'.setups :: s in net.setups || s in Act(at, net.mac[at], net.nodes[at], st).setups
  {
  }

  /** What a handler sends is in flight after its step. */
  lemma StepSends(net: Net, st: Step, s: SetupPkt)
    requires Enabled(net, st) && !ByChannel(st) && Present(net, Actor(st))
    requires s in Act(Actor(st), net.mac[Actor(st)], net.nodes[Actor(st)], st).setups
    ensures s in Apply(net, st).setups
  {
    hide Act, Recorded, HellosAfter;
  }

  /** Every hello on the air was there before or is the one a tick sends. */
  lemma StepHellos(net: Net, st: Step)
    requires Enabled(net, st)
    ensures forall h | h in Apply(net, st).hellos && h !in net.hellos ::
              st.TickStep? && h == TickHello(net, st.at)
  {
  }

  lemma StepKeepsTopology(net: Net, st: Step)
    requires Topology(net) && Enabled(net, st)
    ensures Topology(Apply(net, st)) && Apply(net, st).mac == net.mac
  {
    StepFrame(net, st);
  }

  lemma {:induction false} RunKeepsTopology(net: Net, steps: seq<Step>)
    requires Topology(net) && Legal(net, steps)
    ensures Topology(Exec(net, steps)) && Exec(net, steps).mac == net.mac
  {
    if steps != [] {
      RunKeepsTopology(net, steps[..|steps| - 1]);
      StepKeepsTopology(Exec(net, steps[..|steps| - 1]), steps[|steps| - 1]);
    }
  }
}
