/** Whole-path teardown amid other traffic: while the teardowns of one route travel, the network may
    do anything that does not concern that route, and still every node of the path loses exactly the
    path's entry. */
module TeardownTraffic {
  import opened Types
  import opened PhysicalSet
  import opened RoutingTable
  import opened Network
  import opened Links
  import opened SetupPath
  import opened TeardownPath
  import S = SilenceAges

  // ---- The entries of one route in a table ----

  function WithPid(l: seq<Route>, pid: u32): seq<Route> {
    if l == [] then [] else (if l[0].pid == pid then [l[0]] else []) + WithPid(l[1..], pid)
  }

  /** The entries under e with this path id, newest first. */
  function Own(t: Table, e: u32, pid: u32): seq<Route> {
    WithPid(ListOf(t, e), pid)
  }

  lemma {:induction false} WithoutFirst(l: seq<Route>, pid: u32)
    ensures var k := IndexOfPid(l, pid);
            if k < |l| then WithPid(l, pid) == [l[k]] + WithPid(WithoutIndex(l, k), pid) else WithPid(l, pid) == []
  {
    if l != [] {
      if l[0].pid == pid {
        assert WithoutIndex(l, 0) == l[1..];
      } else {
        WithoutFirst(l[1..], pid);
        var k := IndexOfPid(l[1..], pid);
        if k < |l[1..]| {
          assert WithoutIndex(l, k + 1) == [l[0]] + WithoutIndex(l[1..], k);
          assert WithoutIndex(l, k + 1)[1..] == WithoutIndex(l[1..], k);
        }
      }
    }
  }

  lemma {:induction false} WithoutOther(l: seq<Route>, k: nat, pid: u32)
    requires k < |l| && l[k].pid != pid
    ensures WithPid(WithoutIndex(l, k), pid) == WithPid(l, pid)
  {
    if k == 0 {
      assert WithoutIndex(l, 0) == l[1..];
    } else {
      WithoutOther(l[1..], k - 1, pid);
      assert WithoutIndex(l, k)[1..] == WithoutIndex(l[1..], k - 1) && WithoutIndex(l, k)[0] == l[0];
    }
  }

  /** rt_remove_route takes the first of them, and leaves those of other routes. */
  lemma RemovalTakesFirst(t: Table, k: u32, p: u32, e: u32, pid: u32)
    ensures (k, p) != (e, pid) ==> Own(RemoveRoute(t, k, p), e, pid) == Own(t, e, pid)
    ensures Own(t, e, pid) == [] <==> Removed(t, e, pid) == None
    ensures Own(t, e, pid) != [] ==>
            Removed(t, e, pid) == Some(Own(t, e, pid)[0]) && Own(RemoveRoute(t, e, pid), e, pid) == Own(t, e, pid)[1..]
  {
    WithoutFirst(ListOf(t, e), pid);
    if k == e && p != pid && Stores(t, k, p) {
      WithoutOther(ListOf(t, e), IndexOfPid(ListOf(t, e), p), pid);
    }
  }

  lemma PushElsewhere(t: Table, k: u32, r: Route, e: u32, pid: u32)
    requires k != e || r.pid != pid
    ensures Own(Push(t, k, r), e, pid) == Own(t, e, pid)
  {
    if k == e != 0 {
      assert ([r] + ListOf(t, e))[1..] == ListOf(t, e);
    }
  }

  lemma AddElsewhere(t: Table, r: Route, e: u32, pid: u32)
    requires r.pid != pid || (r.ea != e && r.eb != e)
    ensures Own(AddRoute(t, r), e, pid) == Own(t, e, pid)
  {
    PushElsewhere(t, r.ea, r, e, pid);
    PushElsewhere(Push(t, r.ea, r), r.eb, r, e, pid);
  }

  // ---- Steps that do not concern the route ----

  /** The step neither stores nor removes an entry of this route under its source, and does not
      deliver, lose or copy a teardown of it. */
  predicate Unrelated(st: Step, e: u32, pid: u32) {
    match st
    case StartSetup(at, dst, p, _, _) => p == pid ==> at != e && dst != e
    case DeliverSetup(_, s, _) => s.pid == pid ==> s.src != e && s.dst != e
    case StartTeardown(_, p, ea, _, _) => (ea, p) != (e, pid)
    case DeliverTeardown(_, t) => (t.ea, t.pid) != (e, pid)
    case LoseTeardown(t) => (t.ea, t.pid) != (e, pid)
    case DuplicateTeardown(t) => (t.ea, t.pid) != (e, pid)
    case _ => true
  }

  ghost predicate SendsNone(o: Outcome, e: u32, pid: u32) {
    forall t | t in o.teardowns :: (t.ea, t.pid) != (e, pid)
  }

  lemma TearDownElsewhere(me: u32, mac: Mac, n: Node, p: u32, ea: u32, sender: u32, vset: seq<u32>, e: u32, pid: u32)
    requires (ea, p) != (e, pid)
    ensures var o := TearDownPath(me, mac, n, p, ea, sender, vset);
            Own(o.node.rt, e, pid) == Own(n.rt, e, pid) && SendsNone(o, e, pid)
  {
    RemovalTakesFirst(n.rt, ea, p, e, pid);
    hide Own, RemoveRoute, Removed, MacOf;
  }

  lemma RcvTeardownElsewhere(me: u32, mac: Mac, n: Node, t: TeardownPkt, e: u32, pid: u32)
    requires (t.ea, t.pid) != (e, pid)
    ensures var o := RcvTeardown(me, mac, n, t);
            Own(o.node.rt, e, pid) == Own(n.rt, e, pid) && SendsNone(o, e, pid)
  {
    RemovalTakesFirst(n.rt, t.ea, t.pid, e, pid);
    hide Own, RemoveRoute, Removed, MacOf;
  }

  lemma RcvSetupElsewhere(me: u32, mac: Mac, n: Node, s: SetupPkt, added: bool, e: u32, pid: u32)
    requires s.pid == pid ==> s.src != e && s.dst != e
    ensures var o := RcvSetup(me, mac, n, s, added);
            Own(o.node.rt, e, pid) == Own(n.rt, e, pid) && SendsNone(o, e, pid)
  {
    hide Own, RemoveRoute, Removed, MacOf, TearDownPath, SenderOf, SetupHop, AddRoute, SendSetup;
    var n1 := Accept(n, s.src);
    match SenderOf(me, mac, n1, s.from)
    case None => TearDownElsewhere(me, mac, n1, s.pid, s.src, 0, [], e, pid);
    case Some(sender) =>
      AddElsewhere(n.rt, Route(s.src, s.dst, sender, SetupHop(me, n1, s.dst, s.proxy), s.pid), e, pid);
  }

  lemma UnrelatedAct(me: u32, mac: Mac, n: Node, st: Step, e: u32, pid: u32)
    requires !ByChannel(st) && Actor(st) == me && (st.HandleStep? ==> n.updates != []) && Unrelated(st, e, pid)
    ensures var o := Act(me, mac, n, st);
            Own(o.node.rt, e, pid) == Own(n.rt, e, pid) && SendsNone(o, e, pid)
  {
    hide Own, TearDownPath, RcvSetup, RcvTeardown, AddRoute, MacOf;
    if st.StartSetup? {
      var nh := LocalHop(me, n, st.dst, st.proxy);
      AddElsewhere(n.rt, Route(me, st.dst, me, nh, st.pid), e, pid);
    } else if st.DeliverSetup? {
      RcvSetupElsewhere(me, mac, n, st.s, st.added, e, pid);
    } else if st.StartTeardown? {
      TearDownElsewhere(me, mac, n, st.pid, st.ea, st.sender, st.vset, e, pid);
    } else if st.DeliverTeardown? {
      RcvTeardownElsewhere(me, mac, n, st.t, e, pid);
    }
  }

  // ---- The torn stretch ----

  /** The nodes of the path hold their neighbours on the path. */
  ghost predicate Adjacent(net: Net, path: seq<u32>)
    requires forall i | 0 <= i < |path| :: path[i] in net.nodes
  {
    forall i, j | 0 <= i < |path| && 0 <= j < |path| && (j == i + 1 || i == j + 1) ::
      Contains(net.nodes[path[i]].pset, path[j])
  }

  /** The entries of the route at v once positions lo to hi of the path are torn down. */
  ghost function OwnAfter(net0: Net, path: seq<u32>, pid: u32, lo: nat, hi: nat, v: u32): seq<Route>
    requires path != [] && v in net0.nodes
  {
    var own := Own(net0.nodes[v].rt, Source(path), pid);
    if Within(path, v, lo, hi) && own != [] then own[1..] else own
  }

  /** The same nodes and addresses, the path with its neighbours, and a stretch of it. */
  ghost predicate Ground(net0: Net, net: Net, path: seq<u32>, lo: nat, hi: nat) {
    && OnPath(net0, path) && lo <= hi < |path|
    && net.mac == net0.mac && net.nodes.Keys == net0.nodes.Keys && Topology(net) && TruePairs(net)
    && Adjacent(net, path)
  }

  ghost predicate OwnTorn(net0: Net, net: Net, path: seq<u32>, pid: u32, lo: nat, hi: nat) {
    && path != [] && net.nodes.Keys == net0.nodes.Keys
    && forall v | v in net0.nodes :: Own(net.nodes[v].rt, Source(path), pid) == OwnAfter(net0, path, pid, lo, hi, v)
  }

  ghost predicate FrontFlies(net0: Net, net: Net, path: seq<u32>, pid: u32, lo: nat, hi: nat) {
    && OnPath(net0, path) && lo <= hi < |path|
    && forall t: TeardownPkt | Concerns(t, path, pid) :: net.teardowns[t] == Front(net0, path, pid, lo, hi)[t]
  }

  /** From net0 on, exactly the nodes at positions lo to hi have lost an entry of the route, and
      exactly the front of its teardowns is in flight. */
  ghost predicate TornAmid(net0: Net, net: Net, path: seq<u32>, pid: u32, lo: nat, hi: nat) {
    Ground(net0, net, path, lo, hi) && OwnTorn(net0, net, path, pid, lo, hi) && FrontFlies(net0, net, path, pid, lo, hi)
  }

  /** A step of other traffic: unrelated to the route, and no sweep removes a neighbour that the
      path needs. */
  ghost predicate Traffic(net: Net, st: Step, path: seq<u32>, pid: u32)
    requires Enabled(net, st) && path != []
  {
    Unrelated(st, Source(path), pid) &&
    (st.TickStep? ==>
       forall i, j | 0 <= i < |path| && 0 <= j < |path| && (j == i + 1 || i == j + 1) && path[i] == st.at ::
         Contains(Tick(net.nodes[st.at]).pset, path[j]))
  }

  lemma TrafficKeepsAdjacent(net: Net, st: Step, path: seq<u32>, pid: u32)
    requires Enabled(net, st) && path != [] && Traffic(net, st, path, pid)
    requires (forall i | 0 <= i < |path| :: path[i] in net.nodes) && Adjacent(net, path)
    ensures (forall i | 0 <= i < |path| :: path[i] in Apply(net, st).nodes) && Adjacent(Apply(net, st), path)
  {
    StepFrame(net, st);
    var net' := Apply(net, st);
    hide Apply, Contains, Tick, Recorded, Unrelated;
    forall i, j | 0 <= i < |path| && 0 <= j < |path| && (j == i + 1 || i == j + 1)
      ensures Contains(net'.nodes[path[i]].pset, path[j])
    {
      assert Contains(net.nodes[path[i]].pset, path[j]);
      if !ByChannel(st) && path[i] == Actor(st) && !st.TickStep? {
        S.OthersKeep(path[i], net.mac[path[i]], net.nodes[path[i]], st, path[j]);
      }
    }
  }

  /** Unrelated steps keep the count of every teardown of the route. */
  lemma TrafficKeepsFlight(net: Net, st: Step, path: seq<u32>, pid: u32, t: TeardownPkt)
    requires Enabled(net, st) && path != [] && Unrelated(st, Source(path), pid) && Concerns(t, path, pid)
    ensures Apply(net, st).teardowns[t] == net.teardowns[t]
  {
    if !ByChannel(st) {
      var at := Actor(st);
      assert Present(net, at) && (st.HandleStep? ==> net.nodes[at].updates != []);
      UnrelatedAct(at, net.mac[at], net.nodes[at], st, Source(path), pid);
      hide Act, Own, Recorded, HellosAfter;
      assert t !in Act(at, net.mac[at], net.nodes[at], st).teardowns;
    }
  }

  lemma TrafficKeepsOwn(net: Net, st: Step, e: u32, pid: u32, v: u32)
    requires Enabled(net, st) && Unrelated(st, e, pid) && v in net.nodes
    ensures v in Apply(net, st).nodes && Own(Apply(net, st).nodes[v].rt, e, pid) == Own(net.nodes[v].rt, e, pid)
  {
    StepFrame(net, st);
    assert st.HandleStep? ==> net.nodes[st.at].updates != [];
    hide Apply, Act, Own, Enabled, Unrelated;
    if !ByChannel(st) && v == Actor(st) {
      UnrelatedAct(v, net.mac[v], net.nodes[v], st, e, pid);
    }
  }

  lemma TrafficKeepsTorn(net0: Net, net: Net, st: Step, path: seq<u32>, pid: u32, lo: nat, hi: nat)
    requires TornAmid(net0, net, path, pid, lo, hi) && Enabled(net, st) && Traffic(net, st, path, pid)
    ensures TornAmid(net0, Apply(net, st), path, pid, lo, hi)
  {
    hide Apply, Act, Own, TruePairs, Topology, Adjacent, Front, OwnAfter, Recorded, Concerns, Contains, Tick;
    StepFrame(net, st);
    StepKeepsTopology(net, st);
    StepKeepsTruePairs(net, st);
    TrafficKeepsAdjacent(net, st, path, pid);
    var net' := Apply(net, st);
    hide Enabled;
    assert path != [] && net'.nodes.Keys == net0.nodes.Keys;
    forall v | v in net0.nodes
      ensures Own(net'.nodes[v].rt, Source(path), pid) == OwnAfter(net0, path, pid, lo, hi, v)
    {
      TrafficKeepsOwn(net, st, Source(path), pid, v);
    }
    forall t: TeardownPkt | Concerns(t, path, pid) ensures net'.teardowns[t] == Front(net0, path, pid, lo, hi)[t] {
      TrafficKeepsFlight(net, st, path, pid, t);
    }
  }

  // ---- Deliveries ----

  /** A node of the path that is still to be torn down: its entry and its addresses. */
  ghost predicate Stands(net0: Net, net: Net, path: seq<u32>, pid: u32, k: nat) {
    && k < |path| && path[k] in net0.nodes && path[k] in net.nodes && path[k] in net.mac && net.mac == net0.mac
    && var n, own := net.nodes[path[k]], Own(net0.nodes[path[k]].rt, Source(path), pid);
    && own != []
    && Removed(n.rt, Source(path), pid) == Some(PathEntry(path, pid, k))
    && Own(RemoveRoute(n.rt, Source(path), pid), Source(path), pid) == own[1..]
    && MacOf(n.pset, path[k]) == None
    && (k + 1 < |path| ==>
          && path[k + 1] != 0 && path[k + 1] in net.mac
          && MacOf(n.pset, path[k + 1]) == Some(net.mac[path[k + 1]]))
    && (k > 0 ==>
          && path[k - 1] != 0 && path[k - 1] in net.mac
          && MacOf(n.pset, path[k - 1]) == Some(net.mac[path[k - 1]]))
  }

  lemma StillStanding(net0: Net, net: Net, path: seq<u32>, pid: u32, lo: nat, hi: nat, k: nat)
    requires Established(net0, path, pid) && Ground(net0, net, path, lo, hi) && OwnTorn(net0, net, path, pid, lo, hi)
    requires k < |path| && (k < lo || hi < k)
    ensures Stands(net0, net, path, pid, k)
  {
    hide MacOf, Removed, RemoveRoute, TruePairs, Within, Contains, Own, Established;
    var v := path[k];
    assert v in net0.nodes;
    OutsideWithin(path, k, lo, hi);
    StillEntered(net0, net, path, pid, k);
    StillAddressed(net0, net, path, lo, hi, k);
  }

  lemma StillEntered(net0: Net, net: Net, path: seq<u32>, pid: u32, k: nat)
    requires Established(net0, path, pid) && k < |path| && path[k] in net.nodes
    requires Own(net.nodes[path[k]].rt, Source(path), pid) == Own(net0.nodes[path[k]].rt, Source(path), pid)
    ensures path[k] in net0.nodes && Own(net0.nodes[path[k]].rt, Source(path), pid) != []
    ensures Removed(net.nodes[path[k]].rt, Source(path), pid) == Some(PathEntry(path, pid, k))
    ensures Own(RemoveRoute(net.nodes[path[k]].rt, Source(path), pid), Source(path), pid)
            == Own(net0.nodes[path[k]].rt, Source(path), pid)[1..]
  {
    hide Removed, RemoveRoute, Own, Contains;
    var v := path[k];
    assert v in net0.nodes;
    RemovalTakesFirst(net0.nodes[v].rt, Source(path), pid, Source(path), pid);
    RemovalTakesFirst(net.nodes[v].rt, Source(path), pid, Source(path), pid);
  }

  lemma StillAddressed(net0: Net, net: Net, path: seq<u32>, lo: nat, hi: nat, k: nat)
    requires Ground(net0, net, path, lo, hi) && k < |path|
    ensures path[k] in net.nodes && path[k] in net.mac && MacOf(net.nodes[path[k]].pset, path[k]) == None
    ensures k + 1 < |path| ==>
              && path[k + 1] != 0 && path[k + 1] in net.mac
              && MacOf(net.nodes[path[k]].pset, path[k + 1]) == Some(net.mac[path[k + 1]])
    ensures k > 0 ==>
              && path[k - 1] != 0 && path[k - 1] in net.mac
              && MacOf(net.nodes[path[k]].pset, path[k - 1]) == Some(net.mac[path[k - 1]])
  {
    hide MacOf, TruePairs, Contains;
    var v := path[k];
    NotOwnNeighbour(net, v);
    if k + 1 < |path| {
      assert path[k + 1] in net0.nodes;
      NeighbourAddress(net, v, path[k + 1]);
    }
    if k > 0 {
      assert path[k - 1] in net0.nodes;
      NeighbourAddress(net, v, path[k - 1]);
    }
  }

  /** Position k is next to the torn stretch, whose nearer end is j. */
  ghost predicate NextTo(path: seq<u32>, lo: nat, hi: nat, k: nat, j: nat) {
    lo <= hi < |path| && k < |path| && ((k + 1 == lo && j == lo) || (k == hi + 1 && j == hi))
  }

  /** What position k sends on, away from the stretch. */
  ghost function Onward(net0: Net, path: seq<u32>, pid: u32, k: nat, j: nat): multiset<TeardownPkt>
    requires OnPath(net0, path) && k < |path|
  {
    if k < j then (if k > 0 then multiset{Message(net0, path, pid, k, k - 1)} else multiset{})
    else (if k + 1 < |path| then multiset{Message(net0, path, pid, k, k + 1)} else multiset{})
  }

  /** What the node at position k does with the teardown from its torn neighbour at position j. */
  lemma PassesAmid(net0: Net, net: Net, path: seq<u32>, pid: u32, lo: nat, hi: nat, k: nat, j: nat, o: Outcome)
    requires OnPath(net0, path) && NextTo(path, lo, hi, k, j) && Stands(net0, net, path, pid, k)
    requires o == RcvTeardown(path[k], net.mac[path[k]], net.nodes[path[k]], Message(net0, path, pid, j, k))
    ensures Own(o.node.rt, Source(path), pid) == Own(net0.nodes[path[k]].rt, Source(path), pid)[1..]
    ensures o.teardowns == Onward(net0, path, pid, k, j)
  {
    assert k < j ==> PathEntry(path, pid, k).na != path[j];
    hide MacOf, Removed, RemoveRoute, RcvTeardown, Own;
    Passes(path[k], net.mac[path[k]], net.nodes[path[k]], Message(net0, path, pid, j, k), PathEntry(path, pid, k));
  }

  lemma FrontMoves(net0: Net, path: seq<u32>, pid: u32, lo: nat, hi: nat, k: nat, j: nat, t: TeardownPkt)
    requires OnPath(net0, path) && NextTo(path, lo, hi, k, j)
    ensures Front(net0, path, pid, if k < lo then k else lo, if hi < k then k else hi)[t]
            == Front(net0, path, pid, lo, hi)[t] - (if t == Message(net0, path, pid, j, k) then 1 else 0)
              + Onward(net0, path, pid, k, j)[t]
  {
    hide Message;
    if k < lo {
      var right := if hi + 1 < |path| then multiset{Message(net0, path, pid, hi, hi + 1)} else multiset{};
      assert Front(net0, path, pid, lo, hi) == multiset{Message(net0, path, pid, j, k)} + right;
      assert Front(net0, path, pid, k, hi) == Onward(net0, path, pid, k, j) + right;
    } else {
      var left := if lo > 0 then multiset{Message(net0, path, pid, lo, lo - 1)} else multiset{};
      assert Front(net0, path, pid, lo, hi) == left + multiset{Message(net0, path, pid, j, k)};
      assert Front(net0, path, pid, lo, k) == left + Onward(net0, path, pid, k, j);
    }
  }

  lemma OwnElsewhere(net0: Net, path: seq<u32>, pid: u32, lo: nat, hi: nat, k: nat, j: nat, v: u32)
    requires OnPath(net0, path) && v in net0.nodes && NextTo(path, lo, hi, k, j)
    requires Own(net0.nodes[path[k]].rt, Source(path), pid) != []
    ensures OwnAfter(net0, path, pid, if k < lo then k else lo, if hi < k then k else hi, v)
            == if v == path[k] then Own(net0.nodes[path[k]].rt, Source(path), pid)[1..]
              else OwnAfter(net0, path, pid, lo, hi, v)
  {
    hide Own;
    var lo', hi' := if k < lo then k else lo, if hi < k then k else hi;
    if v == path[k] {
      assert Within(path, v, lo', hi');
    } else {
      assert Within(path, v, lo', hi') <==> Within(path, v, lo, hi);
    }
  }

  lemma DeliveryMovesFront(net0: Net, net: Net, net': Net, path: seq<u32>, pid: u32, lo: nat, hi: nat, k: nat, j: nat)
    requires FrontFlies(net0, net, path, pid, lo, hi) && NextTo(path, lo, hi, k, j)
    requires Message(net0, path, pid, j, k) in net.teardowns
    requires net'.teardowns == net.teardowns - multiset{Message(net0, path, pid, j, k)} + Onward(net0, path, pid, k, j)
    ensures FrontFlies(net0, net', path, pid, if k < lo then k else lo, if hi < k then k else hi)
  {
    hide Front, Message, Onward;
    forall t: TeardownPkt | Concerns(t, path, pid)
      ensures net'.teardowns[t] == Front(net0, path, pid, if k < lo then k else lo, if hi < k then k else hi)[t]
    {
      FrontMoves(net0, path, pid, lo, hi, k, j, t);
    }
  }

  lemma DeliveryTearsOne(net0: Net, net: Net, net': Net, path: seq<u32>, pid: u32, lo: nat, hi: nat, k: nat, j: nat)
    requires OnPath(net0, path) && OwnTorn(net0, net, path, pid, lo, hi) && NextTo(path, lo, hi, k, j)
    requires path[k] in net'.nodes && net'.nodes == net.nodes[path[k] := net'.nodes[path[k]]]
    requires var own := Own(net0.nodes[path[k]].rt, Source(path), pid);
             own != [] && Own(net'.nodes[path[k]].rt, Source(path), pid) == own[1..]
    ensures OwnTorn(net0, net', path, pid, if k < lo then k else lo, if hi < k then k else hi)
  {
    hide Own, OwnAfter;
    forall v | v in net0.nodes
      ensures Own(net'.nodes[v].rt, Source(path), pid)
              == OwnAfter(net0, path, pid, if k < lo then k else lo, if hi < k then k else hi, v)
    {
      OwnElsewhere(net0, path, pid, lo, hi, k, j, v);
    }
  }

  lemma DeliveryKeepsGround(net0: Net, net: Net, st: Step, path: seq<u32>, lo: nat, hi: nat, lo': nat, hi': nat)
    requires Ground(net0, net, path, lo, hi) && Enabled(net, st) && st.DeliverTeardown? && lo' <= hi' < |path|
    ensures Ground(net0, Apply(net, st), path, lo', hi')
  {
    StepFrame(net, st);
    StepKeepsTopology(net, st);
    StepKeepsTruePairs(net, st);
    DeliveryKeepsAdjacent(net, st, path);
    hide Apply, Act, Enabled, TruePairs, Topology, Adjacent, Recorded;
  }

  lemma DeliveryAmid(net0: Net, net: Net, st: Step, path: seq<u32>, pid: u32, lo: nat, hi: nat, k: nat, j: nat)
    requires Established(net0, path, pid) && TornAmid(net0, net, path, pid, lo, hi) && Enabled(net, st)
    requires OnPath(net0, path) && NextTo(path, lo, hi, k, j)
    requires st.DeliverTeardown? && st.at == path[k] && st.t == Message(net0, path, pid, j, k)
    ensures TornAmid(net0, Apply(net, st), path, pid, if k < lo then k else lo, if hi < k then k else hi)
  {
    hide Apply, Act, Ground, OwnTorn, FrontFlies, Established, Message, RcvTeardown, Onward, Own, MacOf;
    hide Removed, RemoveRoute, OnPath;
    var lo', hi' := if k < lo then k else lo, if hi < k then k else hi;
    var net' := Apply(net, st);
    DeliveryEffect(net, st.at, st.t);
    assert st.t in net.teardowns;
    hide Enabled;
    DeliveryKeepsGround(net0, net, st, path, lo, hi, lo', hi');
    StillStanding(net0, net, path, pid, lo, hi, k);
    DeliveryTornAt(net0, net, net', path, pid, lo, hi, k, j);
  }

  lemma DeliveryTornAt(net0: Net, net: Net, net': Net, path: seq<u32>, pid: u32, lo: nat, hi: nat, k: nat, j: nat)
    requires OnPath(net0, path) && NextTo(path, lo, hi, k, j) && Stands(net0, net, path, pid, k)
    requires OwnTorn(net0, net, path, pid, lo, hi) && FrontFlies(net0, net, path, pid, lo, hi)
    requires Message(net0, path, pid, j, k) in net.teardowns
    requires var o := RcvTeardown(path[k], net.mac[path[k]], net.nodes[path[k]], Message(net0, path, pid, j, k));
             && net'.nodes == net.nodes[path[k] := o.node]
             && net'.teardowns == net.teardowns - multiset{Message(net0, path, pid, j, k)} + o.teardowns
    ensures OwnTorn(net0, net', path, pid, if k < lo then k else lo, if hi < k then k else hi)
    ensures FrontFlies(net0, net', path, pid, if k < lo then k else lo, if hi < k then k else hi)
  {
    var o := RcvTeardown(path[k], net.mac[path[k]], net.nodes[path[k]], Message(net0, path, pid, j, k));
    PassesAmid(net0, net, path, pid, lo, hi, k, j, o);
    assert Own(net0.nodes[path[k]].rt, Source(path), pid) != [];
    hide OwnTorn, FrontFlies, RcvTeardown, Message, Onward, Own, Stands;
    DeliveryTearsOne(net0, net, net', path, pid, lo, hi, k, j);
    DeliveryMovesFront(net0, net, net', path, pid, lo, hi, k, j);
  }

  lemma DeliveryKeepsAdjacent(net: Net, st: Step, path: seq<u32>)
    requires Enabled(net, st) && st.DeliverTeardown?
    requires (forall i | 0 <= i < |path| :: path[i] in net.nodes) && Adjacent(net, path)
    ensures (forall i | 0 <= i < |path| :: path[i] in Apply(net, st).nodes) && Adjacent(Apply(net, st), path)
  {
    StepFrame(net, st);
    var net' := Apply(net, st);
    hide Apply, Contains, Recorded, Act;
    forall i, j | 0 <= i < |path| && 0 <= j < |path| && (j == i + 1 || i == j + 1)
      ensures Contains(net'.nodes[path[i]].pset, path[j])
    {
      assert Contains(net.nodes[path[i]].pset, path[j]);
      if path[i] == st.at {
        S.OthersKeep(path[i], net.mac[path[i]], net.nodes[path[i]], st, path[j]);
      }
    }
  }

  /** Any delivery of a teardown of this route is one of the two at the ends of the stretch. */
  lemma AnyDeliveryAmid(net0: Net, net: Net, st: Step, path: seq<u32>, pid: u32, lo: nat, hi: nat)
      returns (lo': nat, hi': nat)
    requires path != [] && Established(net0, path, pid) && TornAmid(net0, net, path, pid, lo, hi)
    requires Enabled(net, st) && Delivers(st, path, pid)
    ensures TornAmid(net0, Apply(net, st), path, pid, lo', hi')
    ensures hi' - lo' == hi - lo + 1
  {
    hide Apply, Established, OwnTorn, FrontFlies, Adjacent, TruePairs, Topology;
    var k, j := FrontHolds(net0, net, path, pid, lo, hi, st.t);
    assert path[k] in net.mac && st.at in net.mac && net.mac[st.at] == net.mac[path[k]];
    OwnerIs(net, st.at, path[k]);
    hide Message, Enabled, OnPath, Ground;
    DeliveryAmid(net0, net, st, path, pid, lo, hi, k, j);
    lo', hi' := if k < lo then k else lo, if hi < k then k else hi;
  }

  lemma FrontHolds(net0: Net, net: Net, path: seq<u32>, pid: u32, lo: nat, hi: nat, t: TeardownPkt)
      returns (k: nat, j: nat)
    requires path != [] && FrontFlies(net0, net, path, pid, lo, hi) && t in net.teardowns && Concerns(t, path, pid)
    ensures OnPath(net0, path) && NextTo(path, lo, hi, k, j) && t == Message(net0, path, pid, j, k)
  {
    hide Message;
    assert t in Front(net0, path, pid, lo, hi);
    if lo > 0 && t == Message(net0, path, pid, lo, lo - 1) {
      k, j := lo - 1, lo;
    } else {
      k, j := hi + 1, hi;
    }
  }

  // ---- Whole runs ----

  /** The run delivered k teardowns of this route; every other step is other traffic. */
  ghost predicate Amid(net: Net, steps: seq<Step>, path: seq<u32>, pid: u32, k: nat)
    requires Legal(net, steps) && path != []
  {
    if steps == [] then k == 0
    else
      var before, st := steps[..|steps| - 1], steps[|steps| - 1];
      || (k > 0 && Amid(net, before, path, pid, k - 1) && Delivers(st, path, pid))
      || (Amid(net, before, path, pid, k) && Traffic(Exec(net, before), st, path, pid))
  }

  lemma {:induction false} RunTears(net0: Net, start: Net, path: seq<u32>, pid: u32, m: nat, steps: seq<Step>, k: nat)
    returns (lo: nat, hi: nat)
    requires path != [] && Established(net0, path, pid) && TornAmid(net0, start, path, pid, m, m)
    requires Legal(start, steps) && Amid(start, steps, path, pid, k)
    ensures TornAmid(net0, Exec(start, steps), path, pid, lo, hi) && hi - lo == k
    decreases |steps|
  {
    hide Established, TornAmid, Delivers, Traffic, Apply, Enabled;
    if steps == [] {
      lo, hi := m, m;
    } else {
      var before, st := steps[..|steps| - 1], steps[|steps| - 1];
      if k > 0 && Amid(start, before, path, pid, k - 1) && Delivers(st, path, pid) {
        lo, hi := RunTears(net0, start, path, pid, m, before, k - 1);
        lo, hi := AnyDeliveryAmid(net0, Exec(start, before), st, path, pid, lo, hi);
      } else {
        lo, hi := RunTears(net0, start, path, pid, m, before, k);
        TrafficKeepsTorn(net0, Exec(start, before), st, path, pid, lo, hi);
      }
    }
  }

  /** tear_down_path at position m opens the torn stretch there. */
  lemma StartOpensAmid(net: Net, path: seq<u32>, pid: u32, m: nat, vset: seq<u32>)
    requires Topology(net) && TruePairs(net) && Established(net, path, pid) && NoneInFlight(net, path, pid)
    requires m < |path|
    ensures Enabled(net, StartTeardown(path[m], pid, Source(path), 0, vset))
    ensures TornAmid(net, Apply(net, StartTeardown(path[m], pid, Source(path), 0, vset)), path, pid, m, m)
  {
    hide MacOf, RemoveRoute, Apply, Removed, Front, Within, Established, Topology, TruePairs, TearDownPath;
    hide NoneInFlight, TornBetween;
    var st := StartTeardown(path[m], pid, Source(path), 0, vset);
    StartOpens(net, path, pid, m, vset);
    var net' := Apply(net, st);
    StepKeepsTopology(net, st);
    StepKeepsTruePairs(net, st);
    hide Enabled;
    OpenedGround(net, net', path, pid, m);
    OpenedOwn(net, net', path, pid, m);
    OpenedFront(net, net', path, pid, m);
  }

  lemma OpenedGround(net: Net, net': Net, path: seq<u32>, pid: u32, m: nat)
    requires Established(net, path, pid) && TornBetween(net, net', path, pid, m, m) && Topology(net') && TruePairs(net')
    ensures Ground(net, net', path, m, m)
  {
    hide RemoveRoute, Removed, Front, Within, Topology, TruePairs;
    forall i, j | 0 <= i < |path| && 0 <= j < |path| && (j == i + 1 || i == j + 1)
      ensures Contains(net'.nodes[path[i]].pset, path[j])
    {
      assert path[i] in net.nodes && Contains(net.nodes[path[i]].pset, path[j]);
      assert MacOf(net'.nodes[path[i]].pset, path[j]) == MacOf(net.nodes[path[i]].pset, path[j]);
    }
  }

  lemma OpenedOwn(net: Net, net': Net, path: seq<u32>, pid: u32, m: nat)
    requires Established(net, path, pid) && TornBetween(net, net', path, pid, m, m)
    ensures OwnTorn(net, net', path, pid, m, m)
  {
    hide RemoveRoute, Removed, Front, Within, Own, MacOf, Contains;
    forall v | v in net.nodes
      ensures Own(net'.nodes[v].rt, Source(path), pid) == OwnAfter(net, path, pid, m, m, v)
    {
      RemovalTakesFirst(net.nodes[v].rt, Source(path), pid, Source(path), pid);
      WithinOne(path, v, m);
    }
  }

  lemma OpenedFront(net: Net, net': Net, path: seq<u32>, pid: u32, m: nat)
    requires path != [] && TornBetween(net, net', path, pid, m, m) && NoneInFlight(net, path, pid)
    ensures FrontFlies(net, net', path, pid, m, m)
  {
    hide RemoveRoute, Front, Within, MacOf;
    assert net'.teardowns == net.teardowns + Front(net, path, pid, m, m);
    forall t: TeardownPkt | Concerns(t, path, pid) ensures net'.teardowns[t] == Front(net, path, pid, m, m)[t] {
      assert t !in net.teardowns;
    }
  }

  /** The state after k deliveries amid other traffic: as long as a node is left another delivery is
      possible; when none is in flight any more, every node of the path has lost exactly the first
      of its entries of the route, and no other node any. */
  ghost predicate TearingAmid(net: Net, now: Net, path: seq<u32>, pid: u32, k: nat)
    requires path != []
  {
    && k < |path| && now.nodes.Keys == net.nodes.Keys
    && (k + 1 < |path| ==> exists st :: Enabled(now, st) && Delivers(st, path, pid))
    && (NoneInFlight(now, path, pid) <==> k + 1 == |path|)
    && (NoneInFlight(now, path, pid) ==>
          forall v | v in net.nodes ::
            var own := Own(net.nodes[v].rt, Source(path), pid);
            if v in path then own != [] && Own(now.nodes[v].rt, Source(path), pid) == own[1..]
            else Own(now.nodes[v].rt, Source(path), pid) == own)
  }

  lemma FrontFlying(net0: Net, net: Net, path: seq<u32>, pid: u32, lo: nat, hi: nat, k: nat, j: nat)
    requires path != [] && TornAmid(net0, net, path, pid, lo, hi) && NextTo(path, lo, hi, k, j)
    ensures exists st :: Enabled(net, st) && Delivers(st, path, pid)
    ensures !NoneInFlight(net, path, pid)
  {
    hide OwnTorn, Adjacent, TruePairs;
    var t := Message(net0, path, pid, j, k);
    assert t in Front(net0, path, pid, lo, hi);
    assert Concerns(t, path, pid) && t in net.teardowns;
    var st := DeliverTeardown(path[k], t);
    assert path[k] in net.nodes && path[k] in net.mac;
    assert Enabled(net, st) && Delivers(st, path, pid);
  }

  lemma AllTorn(net0: Net, net: Net, path: seq<u32>, pid: u32)
    requires Established(net0, path, pid) && TornAmid(net0, net, path, pid, 0, |path| - 1)
    ensures NoneInFlight(net, path, pid)
    ensures forall v | v in net0.nodes ::
              var own := Own(net0.nodes[v].rt, Source(path), pid);
              if v in path then own != [] && Own(net.nodes[v].rt, Source(path), pid) == own[1..]
              else Own(net.nodes[v].rt, Source(path), pid) == own
  {
    hide Adjacent, TruePairs, Own, Within, Removed, RemoveRoute, Contains, Topology;
    assert Front(net0, path, pid, 0, |path| - 1) == multiset{};
    hide Front;
    forall v | v in net0.nodes
      ensures var own := Own(net0.nodes[v].rt, Source(path), pid);
              if v in path then own != [] && Own(net.nodes[v].rt, Source(path), pid) == own[1..]
              else Own(net.nodes[v].rt, Source(path), pid) == own
    {
      AllWithin(path, v);
      RemovalTakesFirst(net0.nodes[v].rt, Source(path), pid, Source(path), pid);
    }
  }

  /** Whole-path teardown amid other traffic: tear_down_path at any node of an established path, then
      any run in which the teardowns it causes are delivered in any order, with any steps in between
      that do not concern the route and no sweep that removes a neighbour on the path. */
  lemma TeardownAmidTraffic(net: Net, path: seq<u32>, pid: u32, m: nat, vset: seq<u32>, steps: seq<Step>, k: nat)
    requires Topology(net) && TruePairs(net) && Established(net, path, pid) && NoneInFlight(net, path, pid)
    requires m < |path|
    requires Enabled(net, StartTeardown(path[m], pid, Source(path), 0, vset))
    requires Legal(Apply(net, StartTeardown(path[m], pid, Source(path), 0, vset)), steps)
    requires Amid(Apply(net, StartTeardown(path[m], pid, Source(path), 0, vset)), steps, path, pid, k)
    ensures TearingAmid(net, Exec(Apply(net, StartTeardown(path[m], pid, Source(path), 0, vset)), steps), path, pid, k)
  {
    hide Apply, Enabled, Established, Topology, TruePairs, OwnTorn, FrontFlies, Adjacent, NoneInFlight, Legal;
    hide Exec, Amid, Own, Delivers, OnPath;
    var start := Apply(net, StartTeardown(path[m], pid, Source(path), 0, vset));
    StartOpensAmid(net, path, pid, m, vset);
    var lo, hi := RunTears(net, start, path, pid, m, steps, k);
    var now := Exec(start, steps);
    if lo > 0 {
      FrontFlying(net, now, path, pid, lo, hi, lo - 1, lo);
    } else if hi + 1 < |path| {
      FrontFlying(net, now, path, pid, lo, hi, hi + 1, hi);
    } else {
      AllTorn(net, now, path, pid);
    }
  }
}
