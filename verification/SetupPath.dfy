/** A setup that has travelled along a path of distinct nodes leaves a working two-way route,
    whatever else happened in the network meanwhile, as long as that neither tore the route down
    nor stored a newer one for its endpoints on the way. */
module SetupPath {
  import opened Types
  import opened RingArithmetic
  import opened PhysicalSet
  import opened RoutingTable
  import opened Network
  import opened Links

  // ---- Leading entries of a list ----

  /** r is stored under e, perhaps more than once, and every other entry has a smaller path id. */
  ghost predicate Leads(t: Table, e: u32, r: Route) {
    r.pid > 0 && exists k :: LeadsAt(ListOf(t, e), r, k)
  }

  ghost predicate LeadsAt(l: seq<Route>, r: Route, k: nat) {
    k < |l| && l[k] == r && forall i | 0 <= i < |l| :: l[i] == r || l[i].pid < r.pid
  }

  /** Every path id stored under e is smaller. */
  ghost predicate Below(t: Table, e: u32, pid: u32) {
    forall i | 0 <= i < |ListOf(t, e)| :: ListOf(t, e)[i].pid < pid
  }

  lemma PushBelowLeads(t: Table, e: u32, r: Route)
    requires e != 0 && r.pid > 0 && Below(t, e, r.pid)
    ensures Leads(Push(t, e, r), e, r)
  {
    var l := ListOf(Push(t, e, r), e);
    forall i | 0 < i < |l| ensures l[i].pid < r.pid {
      assert l[i] == ListOf(t, e)[i - 1];
    }
    assert LeadsAt(l, r, 0);
  }

  lemma PushKeepsLead(t: Table, k: u32, r': Route, e: u32, r: Route)
    requires Leads(t, e, r) && (k == e ==> r' == r || r'.pid < r.pid)
    ensures Leads(Push(t, k, r'), e, r)
  {
    var j: nat :| LeadsAt(ListOf(t, e), r, j);
    var l := ListOf(Push(t, k, r'), e);
    if k == e != 0 {
      assert l == [r'] + ListOf(t, e);
      assert LeadsAt(l, r, j + 1);
    } else {
      assert l == ListOf(t, e);
    }
  }

  lemma PushKeepsBelow(t: Table, k: u32, r': Route, e: u32, pid: u32)
    requires Below(t, e, pid) && (k == e ==> r'.pid < pid)
    ensures Below(Push(t, k, r'), e, pid)
  {
    var l := ListOf(Push(t, k, r'), e);
    forall i | 0 <= i < |l| ensures l[i].pid < pid {
      if k == e != 0 {
        assert l == [r'] + ListOf(t, e);
      } else {
        assert l == ListOf(t, e);
      }
    }
  }

  /** A freshly added route with the largest path id leads under both endpoints. */
  lemma AddedRouteLeads(t: Table, r: Route)
    requires r.ea != 0 && r.eb != 0 && r.ea != r.eb && r.pid > 0
    requires Below(t, r.ea, r.pid) && Below(t, r.eb, r.pid)
    ensures Leads(AddRoute(t, r), r.ea, r) && Leads(AddRoute(t, r), r.eb, r)
  {
    PushBelowLeads(t, r.ea, r);
    PushKeepsLead(Push(t, r.ea, r), r.eb, r, r.ea, r);
    assert ListOf(Push(t, r.ea, r), r.eb) == ListOf(t, r.eb);
    PushBelowLeads(Push(t, r.ea, r), r.eb, r);
  }

  /** Adding it once more changes nothing about that. */
  lemma RepeatedRouteLeads(t: Table, r: Route, e: u32)
    requires Leads(t, e, r)
    ensures Leads(AddRoute(t, r), e, r)
  {
    PushKeepsLead(t, r.ea, r, e, r);
    PushKeepsLead(Push(t, r.ea, r), r.eb, r, e, r);
  }

  // ---- What leaves a leading entry alone ----

  /** The table change kept what leads under e with this path id, and added nothing above it. */
  ghost predicate Calm(t: Table, t': Table, e: u32, pid: u32) {
    && (forall r: Route | r.pid == pid && Leads(t, e, r) :: Leads(t', e, r))
    && (Below(t, e, pid) ==> Below(t', e, pid))
  }

  lemma AddIsCalm(t: Table, r': Route, e: u32, pid: u32)
    requires r'.ea == e || r'.eb == e ==> r'.pid < pid
    ensures Calm(t, AddRoute(t, r'), e, pid)
  {
    forall r: Route | r.pid == pid && Leads(t, e, r) ensures Leads(AddRoute(t, r'), e, r) {
      PushKeepsLead(t, r'.ea, r', e, r);
      PushKeepsLead(Push(t, r'.ea, r'), r'.eb, r', e, r);
    }
    if Below(t, e, pid) {
      PushKeepsBelow(t, r'.ea, r', e, pid);
      PushKeepsBelow(Push(t, r'.ea, r'), r'.eb, r', e, pid);
    }
  }

  lemma RemoveIsCalm(t: Table, k: u32, p: u32, e: u32, pid: u32)
    requires k != e || p != pid
    ensures Calm(t, RemoveRoute(t, k, p), e, pid)
  {
    var l, l' := ListOf(t, e), ListOf(RemoveRoute(t, k, p), e);
    var d := IndexOfPid(l, p);
    if k == e && d < |l| {
      assert forall i | 0 <= i < |l'| :: l'[i] == l[if i < d then i else i + 1];
      forall r: Route | r.pid == pid && Leads(t, e, r) ensures Leads(RemoveRoute(t, k, p), e, r) {
        var j: nat :| LeadsAt(l, r, j);
        assert LeadsAt(l', r, if j < d then j else j - 1);
      }
    } else {
      assert l' == l;
    }
  }

  // ---- Paths ----

  /** Distinct nodes of the network, at least two. */
  ghost predicate IsPath(net: Net, path: seq<u32>) {
    && |path| >= 2
    && (forall i | 0 <= i < |path| :: path[i] in net.nodes)
    && (forall i, j | 0 <= i < j < |path| :: path[i] != path[j])
  }

  function Source(path: seq<u32>): u32 requires path != [] { path[0] }
  function Target(path: seq<u32>): u32 requires path != [] { path[|path| - 1] }

  /** The entry that the setup leaves at position i of the path. */
  function PathEntry(path: seq<u32>, pid: u32, i: nat): Route
    requires i < |path|
  {
    Route(Source(path), Target(path), if i == 0 then path[0] else path[i - 1],
          if i == |path| - 1 then 0 else path[i + 1], pid)
  }

  ghost predicate EntryLeads(n: Node, path: seq<u32>, pid: u32, i: nat)
    requires i < |path|
  {
    Leads(n.rt, Source(path), PathEntry(path, pid, i)) && Leads(n.rt, Target(path), PathEntry(path, pid, i))
  }

  ghost predicate EntryBelow(n: Node, path: seq<u32>, pid: u32)
    requires path != []
  {
    Below(n.rt, Source(path), pid) && Below(n.rt, Target(path), pid)
  }

  /** The setup has passed the first k nodes; the others still know only smaller path ids. */
  ghost predicate Installed(net: Net, path: seq<u32>, pid: u32, k: nat) {
    && IsPath(net, path) && k <= |path|
    && (forall i | 0 <= i < k :: EntryLeads(net.nodes[path[i]], path, pid, i))
    && (forall i | k <= i < |path| :: EntryBelow(net.nodes[path[i]], path, pid))
  }

  // ---- The run ----

  /** The step moves the setup to position k of the path: started at the source with the second
      node as next hop, or received from the previous node, still a neighbour, and passed on to
      the next one. */
  ghost predicate IsHop(net: Net, st: Step, path: seq<u32>, pid: u32, k: nat)
    requires Enabled(net, st) && path != []
  {
    if k == 0 then
      && |path| >= 2
      && st.StartSetup? && st.at == path[0] && st.dst == Target(path) && st.pid == pid
      && LocalHop(st.at, net.nodes[st.at], st.dst, st.proxy) == path[1]
    else
      && k < |path| && path[k - 1] in net.mac
      && st.DeliverSetup? && st.at == path[k] && st.s.src == Source(path) && st.s.dst == Target(path) && st.s.pid == pid
      && st.s.from == net.mac[path[k - 1]]
      && SenderOf(st.at, net.mac[st.at], Accept(net.nodes[st.at], st.s.src), st.s.from) != None
      && (k + 1 < |path| ==> SetupHop(st.at, Accept(net.nodes[st.at], st.s.src), st.s.dst, st.s.proxy) == path[k + 1])
  }

  /** At a node of the path the step stores no entry with this or a larger path id under the
      path's endpoints and removes none with this path id from them. */
  ghost predicate Harmless(st: Step, path: seq<u32>, pid: u32)
    requires path != []
  {
    var ends := {Source(path), Target(path)};
    match st
    case StartSetup(at, dst, p, _, _) => at in path && (at in ends || dst in ends) ==> p < pid
    case DeliverSetup(at, s, _) => at in path && (s.src in ends || s.dst in ends) ==> s.pid < pid
    case StartTeardown(at, p, ea, _, _) => at in path && ea in ends ==> p != pid
    case DeliverTeardown(at, t) => at in path && t.ea in ends ==> t.pid != pid
    case _ => true
  }

  /** The step repeats a hop that the setup has made before, as a copy from the channel does. */
  ghost predicate RepeatsHop(net: Net, st: Step, path: seq<u32>, pid: u32, k: nat)
    requires Enabled(net, st) && path != []
  {
    exists j: nat :: j < k && IsHop(net, st, path, pid, j)
  }

  /** During the run the setup has made k hops along the path, some of them perhaps repeatedly, and
      nothing else interfered. */
  ghost predicate Travelled(net: Net, steps: seq<Step>, path: seq<u32>, pid: u32, k: nat)
    requires Legal(net, steps) && path != []
  {
    if steps == [] then k == 0
    else
      var before, st := steps[..|steps| - 1], steps[|steps| - 1];
      || (k > 0 && Travelled(net, before, path, pid, k - 1) && IsHop(Exec(net, before), st, path, pid, k - 1))
      || (Travelled(net, before, path, pid, k) && Harmless(st, path, pid))
      || (Travelled(net, before, path, pid, k) && RepeatsHop(Exec(net, before), st, path, pid, k))
  }

  lemma HarmlessActIsCalm(me: u32, mac: Mac, n: Node, st: Step, path: seq<u32>, pid: u32, e: u32)
    requires !ByChannel(st) && Actor(st) == me && (st.HandleStep? ==> n.updates != [])
    requires path != [] && me in path && Harmless(st, path, pid) && e in {Source(path), Target(path)}
    ensures Calm(n.rt, Act(me, mac, n, st).node.rt, e, pid)
  {
    if st.StartSetup? {
      var nh := LocalHop(me, n, st.dst, st.proxy);
      AddIsCalm(n.rt, Route(me, st.dst, me, nh, st.pid), e, pid);
    } else if st.DeliverSetup? {
      var n1 := Accept(n, st.s.src);
      match SenderOf(me, mac, n1, st.s.from) {
        case None => RemoveIsCalm(n.rt, st.s.src, st.s.pid, e, pid);
        case Some(sender) =>
          AddIsCalm(n.rt, Route(st.s.src, st.s.dst, sender, SetupHop(me, n1, st.s.dst, st.s.proxy), st.s.pid), e, pid);
      }
    } else if st.StartTeardown? {
      RemoveIsCalm(n.rt, st.ea, st.pid, e, pid);
    } else if st.DeliverTeardown? {
      RemoveIsCalm(n.rt, st.t.ea, st.t.pid, e, pid);
    }
  }

  lemma CalmKeepsInstalled(net: Net, net': Net, path: seq<u32>, pid: u32, k: nat, at: u32)
    requires Installed(net, path, pid, k) && at in net.nodes && at in net'.nodes
    requires net'.nodes == net.nodes[at := net'.nodes[at]]
    requires Calm(net.nodes[at].rt, net'.nodes[at].rt, Source(path), pid)
    requires Calm(net.nodes[at].rt, net'.nodes[at].rt, Target(path), pid)
    ensures Installed(net', path, pid, k)
  {
    hide Leads, Below;
  }

  lemma HarmlessKeepsInstalled(net: Net, st: Step, path: seq<u32>, pid: u32, k: nat)
    requires Installed(net, path, pid, k) && Enabled(net, st) && Harmless(st, path, pid)
    ensures Installed(Apply(net, st), path, pid, k)
  {
    StepFrame(net, st);
    hide Act, Apply, Calm, Harmless, Enabled;
    if !ByChannel(st) && Actor(st) in path {
      var at := Actor(st);
      HarmlessActIsCalm(at, net.mac[at], net.nodes[at], st, path, pid, Source(path));
      HarmlessActIsCalm(at, net.mac[at], net.nodes[at], st, path, pid, Target(path));
      CalmKeepsInstalled(net, Apply(net, st), path, pid, k, at);
    }
  }

  /** The last node has no hop beyond itself: it is not its own neighbour. */
  lemma NoHopBeyondTarget(net: Net, at: u32, n: Node, proxy: u32)
    requires TrueNode(net.mac, at, n)
    ensures SetupHop(at, n, at, proxy) == 0
  {
    var k := IndexOf(n.pset, at);
  }

  lemma FirstHopAddsEntry(net: Net, st: Step, path: seq<u32>, pid: u32)
    requires IsPath(net, path) && Enabled(net, st) && IsHop(net, st, path, pid, 0)
    ensures Act(path[0], net.mac[path[0]], net.nodes[path[0]], st).node.rt
            == AddRoute(net.nodes[path[0]].rt, PathEntry(path, pid, 0))
  {
    hide AddRoute, NextHop, StatusOf, MacOf;
  }

  lemma LaterHopAddsEntry(net: Net, st: Step, path: seq<u32>, pid: u32, k: nat)
    requires Topology(net) && TruePairs(net) && IsPath(net, path) && 0 < k < |path|
    requires Enabled(net, st) && IsHop(net, st, path, pid, k)
    ensures Act(path[k], net.mac[path[k]], net.nodes[path[k]], st).node.rt
            == AddRoute(net.nodes[path[k]].rt, PathEntry(path, pid, k))
  {
    var at := path[k];
    var n := Accept(net.nodes[at], st.s.src);
    AcceptKeepsTrue(net.mac, at, net.nodes[at], st.s.src);
    SenderIsTrue(net, at, n, path[k - 1]);
    if k == |path| - 1 {
      NoHopBeyondTarget(net, at, n, st.s.proxy);
    }
    hide AddRoute, SetupHop, MacOf, SenderOf, TruePairs, Topology, TrueNode, ResetFail, TornBy, Accept;
    hide TearDownPath, SendSetup;
    var o := RcvSetup(at, net.mac[at], net.nodes[at], st.s, st.added);
    assert Act(at, net.mac[at], net.nodes[at], st) == o;
  }

  /** What a hop does to the table of its node. */
  lemma HopAddsEntry(net: Net, st: Step, path: seq<u32>, pid: u32, k: nat)
    requires Topology(net) && TruePairs(net) && IsPath(net, path) && k < |path|
    requires Enabled(net, st) && IsHop(net, st, path, pid, k)
    ensures !ByChannel(st) && Actor(st) == path[k]
    ensures var at := path[k];
            Act(at, net.mac[at], net.nodes[at], st).node.rt == AddRoute(net.nodes[at].rt, PathEntry(path, pid, k))
  {
    if k == 0 {
      FirstHopAddsEntry(net, st, path, pid);
    } else {
      LaterHopAddsEntry(net, st, path, pid, k);
    }
    hide Act, AddRoute, TruePairs, Topology;
  }

  /** Only the node of the hop changed. */
  lemma InstallAt(net: Net, net': Net, path: seq<u32>, pid: u32, k: nat, n': Node)
    requires Installed(net, path, pid, k) && k < |path|
    requires net'.nodes == net.nodes[path[k] := n'] && EntryLeads(n', path, pid, k)
    ensures Installed(net', path, pid, k + 1)
  {
    forall i | 0 <= i < |path| && i != k ensures net'.nodes[path[i]] == net.nodes[path[i]] {
    }
  }

  lemma HopExtendsInstalled(net: Net, st: Step, path: seq<u32>, pid: u32, k: nat)
    requires Topology(net) && TruePairs(net) && Installed(net, path, pid, k) && k < |path| && pid > 0
    requires Enabled(net, st) && IsHop(net, st, path, pid, k)
    ensures Installed(Apply(net, st), path, pid, k + 1)
  {
    HopAddsEntry(net, st, path, pid, k);
    StepFrame(net, st);
    var at := path[k];
    var n, n' := net.nodes[at], Act(at, net.mac[at], net.nodes[at], st).node;
    assert EntryLeads(n', path, pid, k) by {
      assert path[0] in net.nodes && path[|path| - 1] in net.nodes && EntryBelow(n, path, pid);
      AddedRouteLeads(n.rt, PathEntry(path, pid, k));
    }
    InstallAt(net, Apply(net, st), path, pid, k, n');
  }

  /** One more step of the run: a hop of the setup or a harmless step. */
  lemma TravelStep(net: Net, st: Step, path: seq<u32>, pid: u32, k: nat, hop: bool)
    requires Topology(net) && TruePairs(net) && Installed(net, path, pid, k) && pid > 0 && Enabled(net, st)
    requires if hop then k < |path| && IsHop(net, st, path, pid, k) else Harmless(st, path, pid)
    ensures Topology(Apply(net, st)) && TruePairs(Apply(net, st))
    ensures Installed(Apply(net, st), path, pid, if hop then k + 1 else k)
  {
    if hop {
      HopExtendsInstalled(net, st, path, pid, k);
    } else {
      HarmlessKeepsInstalled(net, st, path, pid, k);
    }
    StepKeepsTopology(net, st);
    StepKeepsTruePairs(net, st);
  }

  lemma RepeatKeepsInstalled(net: Net, st: Step, path: seq<u32>, pid: u32, k: nat)
    requires Topology(net) && TruePairs(net) && Installed(net, path, pid, k) && Enabled(net, st)
    requires path != [] && RepeatsHop(net, st, path, pid, k)
    ensures Topology(Apply(net, st)) && TruePairs(Apply(net, st)) && Installed(Apply(net, st), path, pid, k)
  {
    hide Apply, Act, IsHop, TruePairs, Topology, Leads, Below;
    var j: nat :| j < k && IsHop(net, st, path, pid, j);
    HopAddsEntry(net, st, path, pid, j);
    StepFrame(net, st);
    StepKeepsTopology(net, st);
    StepKeepsTruePairs(net, st);
    hide Enabled;
    assert EntryLeads(net.nodes[path[j]], path, pid, j);
    RepeatedRouteLeads(net.nodes[path[j]].rt, PathEntry(path, pid, j), Source(path));
    RepeatedRouteLeads(net.nodes[path[j]].rt, PathEntry(path, pid, j), Target(path));
    ReinstallAt(net, Apply(net, st), path, pid, k, j);
  }

  lemma ReinstallAt(net: Net, net': Net, path: seq<u32>, pid: u32, k: nat, j: nat)
    requires Installed(net, path, pid, k) && j < k <= |path| && path[j] in net'.nodes
    requires net'.nodes == net.nodes[path[j] := net'.nodes[path[j]]] && EntryLeads(net'.nodes[path[j]], path, pid, j)
    ensures Installed(net', path, pid, k)
  {
    hide EntryLeads, EntryBelow;
    forall i | 0 <= i < |path| && i != j ensures net'.nodes[path[i]] == net.nodes[path[i]] {
    }
  }

  lemma {:induction false} TravelInstalls(net: Net, steps: seq<Step>, path: seq<u32>, pid: u32, k: nat)
    requires Topology(net) && TruePairs(net) && Legal(net, steps) && pid > 0 && path != [] && k <= |path|
    requires Installed(net, path, pid, 0) && Travelled(net, steps, path, pid, k)
    ensures Topology(Exec(net, steps)) && TruePairs(Exec(net, steps))
    ensures Installed(Exec(net, steps), path, pid, k)
  {
    hide IsHop, Harmless, RepeatsHop, Installed, Topology, TruePairs, Apply, Enabled;
    if steps != [] {
      var before, st := steps[..|steps| - 1], steps[|steps| - 1];
      if k > 0 && Travelled(net, before, path, pid, k - 1) && IsHop(Exec(net, before), st, path, pid, k - 1) {
        TravelInstalls(net, before, path, pid, k - 1);
        TravelStep(Exec(net, before), st, path, pid, k - 1, true);
      } else {
        TravelInstalls(net, before, path, pid, k);
        if Harmless(st, path, pid) {
          TravelStep(Exec(net, before), st, path, pid, k, false);
        } else {
          RepeatKeepsInstalled(Exec(net, before), st, path, pid, k);
        }
      }
    }
  }

  // ---- Following the route ----

  /** rt_get_next(dest) at node v. */
  ghost function Hop(net: Net, v: u32, dest: u32): u32 {
    if v in net.nodes then NextHop(net.nodes[v].rt, v, dest) else 0
  }

  /** The node reached from v by following rt_get_next(dest) n times; 0 when there is no hop. */
  ghost function Follow(net: Net, v: u32, dest: u32, n: nat): u32
    decreases n
  {
    if n == 0 then v
    else if Hop(net, v, dest) == 0 then 0
    else Follow(net, Hop(net, v, dest), dest, n - 1)
  }

  /** The first entry with its path id is the leading one. */
  lemma FirstLead(t: Table, e: u32, r: Route) returns (k: nat)
    requires Leads(t, e, r)
    ensures k == IndexOfPid(ListOf(t, e), r.pid) && k < |ListOf(t, e)| && ListOf(t, e)[k] == r
    ensures forall i | 0 <= i < |ListOf(t, e)| :: ListOf(t, e)[i].pid <= r.pid
    ensures forall i | 0 <= i < k :: ListOf(t, e)[i].pid < r.pid
  {
    var j: nat :| LeadsAt(ListOf(t, e), r, j);
    k := IndexOfPid(ListOf(t, e), r.pid);
  }

  /** A leading entry decides the next hop. */
  lemma LeaderIsFollowed(t: Table, me: u32, dest: u32, r: Route)
    requires Leads(t, dest, r) && dest != me && (r.ea == dest || r.eb == dest) && r.ea != r.eb
    ensures NextHop(t, me, dest) == HopToward(r, dest)
  {
    var l := ListOf(t, dest);
    var k := FirstLead(t, dest, r);
    BestIsNewestHighest(l);
    assert IsNewestHighest(l, r, k);
    assert Best(l).Some? by { assert l[k].pid != 0; }
    var k': nat :| IsNewestHighest(l, Best(l).value, k');
    NewestHighestIsUnique(l, r, k, Best(l).value, k');
    DiffIsMetric(dest, r.ea, r.eb);
    DiffIsMetric(dest, r.eb, r.ea);
  }

  /** On an installed path the next hops are the neighbours on the path. */
  lemma NextOnPath(net: Net, path: seq<u32>, pid: u32, i: nat)
    requires Topology(net) && Installed(net, path, pid, |path|) && i < |path|
    ensures i + 1 < |path| ==> 0 != Hop(net, path[i], Target(path)) == path[i + 1]
    ensures i > 0 ==> 0 != Hop(net, path[i], Source(path)) == path[i - 1]
  {
    assert EntryLeads(net.nodes[path[i]], path, pid, i);
    if i + 1 < |path| {
      LeaderIsFollowed(net.nodes[path[i]].rt, path[i], Target(path), PathEntry(path, pid, i));
      assert path[i + 1] in net.nodes;
    }
    if i > 0 {
      LeaderIsFollowed(net.nodes[path[i]].rt, path[i], Source(path), PathEntry(path, pid, i));
      assert path[i - 1] in net.nodes;
    }
    hide NextHop, Leads;
  }

  ghost predicate NamesNext(net: Net, chain: seq<u32>, dest: u32, i: nat)
    requires i + 1 < |chain|
  {
    Hop(net, chain[i], dest) == chain[i + 1] != 0
  }

  /** Each node of the chain names the next one as its hop toward dest. */
  ghost predicate Chain(net: Net, chain: seq<u32>, dest: u32) {
    forall i | 0 <= i < |chain| - 1 :: NamesNext(net, chain, dest, i)
  }

  lemma {:induction false} FollowChain(net: Net, chain: seq<u32>, dest: u32, i: nat, n: nat)
    requires Chain(net, chain, dest) && i + n < |chain|
    ensures Follow(net, chain[i], dest, n) == chain[i + n]
    decreases n
  {
    hide Hop;
    if n > 0 {
      assert NamesNext(net, chain, dest, i);
      FollowChain(net, chain, dest, i + 1, n - 1);
    }
  }

  /** Along a chain of distinct nodes the last one is reached in exactly the remaining hops. */
  lemma ChainReachesEnd(net: Net, chain: seq<u32>, i: nat)
    requires i < |chain| && Chain(net, chain, chain[|chain| - 1])
    requires forall j, k | 0 <= j < k < |chain| :: chain[j] != chain[k]
    ensures ReachedIn(net, chain[i], chain[|chain| - 1], |chain| - 1 - i)
  {
    var m, dest := |chain| - 1, chain[|chain| - 1];
    FollowChain(net, chain, dest, i, m - i);
    forall n: nat | n < m - i ensures Follow(net, chain[i], dest, n) != dest {
      FollowChain(net, chain, dest, i, n);
    }
  }

  /** Following rt_get_next(dest) from v arrives at dest after n hops, and not before. */
  ghost predicate ReachedIn(net: Net, v: u32, dest: u32, n: nat) {
    Follow(net, v, dest, n) == dest && forall k: nat | k < n :: Follow(net, v, dest, k) != dest
  }

  function Reversed(path: seq<u32>): (r: seq<u32>)
    ensures |r| == |path| && forall i | 0 <= i < |path| :: r[i] == path[|path| - 1 - i]
  {
    seq(|path|, i requires 0 <= i < |path| => path[|path| - 1 - i])
  }

  lemma InstalledLeadsBothWays(net: Net, path: seq<u32>, pid: u32, i: nat)
    requires Topology(net) && Installed(net, path, pid, |path|) && i < |path|
    ensures ReachedIn(net, path[i], Target(path), |path| - 1 - i)
    ensures ReachedIn(net, path[i], Source(path), i)
  {
    var back := Reversed(path);
    assert Chain(net, path, Target(path)) && Chain(net, back, Source(path)) by {
      hide Hop, EntryLeads, EntryBelow, Topology;
      forall j | 0 <= j < |path| - 1 ensures NamesNext(net, path, Target(path), j) {
        NextOnPath(net, path, pid, j);
      }
      forall j | 0 <= j < |path| - 1 ensures NamesNext(net, back, Source(path), j) {
        NextOnPath(net, path, pid, |path| - 1 - j);
      }
    }
    hide Chain, ReachedIn, EntryLeads, EntryBelow, Topology;
    ChainReachesEnd(net, path, i);
    ChainReachesEnd(net, back, |path| - 1 - i);
  }

  /** Setup builds a working two-way route. In a network reached by any run, let a setup with a
      non-zero path id larger than any stored under its endpoints along a path of distinct nodes
      travel that path, with any other steps in between that do not interfere with it. Then from
      every node of the path the next hops for the destination lead to it, and those for the source
      lead back, each in exactly the remaining number of hops. */
  lemma SetupBuildsTwoWayRoute(net: Net, past: seq<Step>, steps: seq<Step>, path: seq<u32>, pid: u32, i: nat)
    requires Init(net) && Legal(net, past) && Legal(Exec(net, past), steps)
    requires pid > 0 && i < |path| && IsPath(Exec(net, past), path)
    requires forall j | 0 <= j < |path| :: EntryBelow(Exec(net, past).nodes[path[j]], path, pid)
    requires Travelled(Exec(net, past), steps, path, pid, |path|)
    ensures ReachedIn(Exec(Exec(net, past), steps), path[i], Target(path), |path| - 1 - i)
    ensures ReachedIn(Exec(Exec(net, past), steps), path[i], Source(path), i)
  {
    LinksHold(net, past);
    TravelInstalls(Exec(net, past), steps, path, pid, |path|);
    InstalledLeadsBothWays(Exec(Exec(net, past), steps), path, pid, i);
  }

  /** Data follows the route: on an installed path every node that holds its neighbours on the
      path sends frames for the destination to the next node, and for the source to the previous. */
  lemma DataFollowsRoute(net: Net, path: seq<u32>, pid: u32, i: nat)
    requires Topology(net) && TruePairs(net) && Installed(net, path, pid, |path|) && i < |path|
    ensures i + 1 < |path| && Contains(net.nodes[path[i]].pset, path[i + 1]) ==>
              path[i + 1] in net.mac
                && ForwardAddress(path[i], net.nodes[path[i]], Target(path)) == Some(net.mac[path[i + 1]])
    ensures i > 0 && Contains(net.nodes[path[i]].pset, path[i - 1]) ==>
              path[i - 1] in net.mac
                && ForwardAddress(path[i], net.nodes[path[i]], Source(path)) == Some(net.mac[path[i - 1]])
  {
    assert path[i] in net.nodes;
    NextOnPath(net, path, pid, i);
    hide NextHop, Installed, Topology, TruePairs, Contains, MacOf;
    if i + 1 < |path| && Contains(net.nodes[path[i]].pset, path[i + 1]) {
      NeighbourAddress(net, path[i], path[i + 1]);
    }
    if i > 0 && Contains(net.nodes[path[i]].pset, path[i - 1]) {
      NeighbourAddress(net, path[i], path[i - 1]);
    }
  }

  // ---- Delivered hop by hop, a setup does travel the path ----

  /** Each node of the path would pass the setup on to the next one and holds its neighbours on
      the path. */
  ghost predicate Ready(net: Net, path: seq<u32>, proxy: u32, vset: seq<u32>) {
    && Topology(net) && TruePairs(net) && IsPath(net, path) && |vset| <= VRR_VSET_SIZE
    && LocalHop(path[0], net.nodes[path[0]], Target(path), proxy) == path[1]
    && (forall i | 0 < i < |path| - 1 :: PassesOn(net, path, proxy, i))
    && (forall i, j | 0 <= i < |path| && 0 <= j < |path| && (j == i + 1 || i == j + 1) ::
       Contains(net.nodes[path[i]].pset, path[j]))
  }

  ghost predicate PassesOn(net: Net, path: seq<u32>, proxy: u32, i: nat)
    requires i + 1 < |path| && path[i] in net.nodes
  {
    SetupHop(path[i], Accept(net.nodes[path[i]], Source(path)), Target(path), proxy) == path[i + 1]
  }

  /** The setup on its way to position k. */
  function Frame(net: Net, path: seq<u32>, pid: u32, proxy: u32, vset: seq<u32>, k: nat): SetupPkt
    requires 0 < k < |path| && path[k - 1] in net.mac && path[k] in net.mac
  {
    SetupPkt(Source(path), Target(path), pid, proxy, vset, net.mac[path[k - 1]], net.mac[path[k]])
  }

  lemma ReadyAddresses(net: Net, path: seq<u32>, proxy: u32, vset: seq<u32>, k: nat)
    requires Ready(net, path, proxy, vset) && k < |path|
    ensures path[k] in net.nodes && path[k] in net.mac && path[k] != 0
    ensures k + 1 < |path| ==>
            path[k + 1] in net.mac && MacOf(net.nodes[path[k]].pset, path[k + 1]) == Some(net.mac[path[k + 1]])
    ensures k > 0 ==> path[k - 1] in net.mac
                      && SenderOf(path[k], net.mac[path[k]], Accept(net.nodes[path[k]], Source(path)),
                         net.mac[path[k - 1]]) != None
  {
    hide PassesOn, LocalHop;
    var n := net.nodes[path[k]];
    assert TrueNode(net.mac, path[k], n);
    if k + 1 < |path| {
      assert Contains(n.pset, path[k + 1]);
    }
    if k > 0 {
      assert Contains(n.pset, path[k - 1]) && path[k - 1] in net.nodes;
      KnownSender(n, net.mac[path[k - 1]], path[k - 1], Source(path));
    }
  }

  lemma KnownSender(n: Node, mac: Mac, u: u32, src: u32)
    requires Contains(n.pset, u) && n.pset[IndexOf(n.pset, u)].mac == mac
    ensures LookupMac(Accept(n, src).pset, mac) != None
  {
    var k := IndexOf(n.pset, u);
    assert Accept(n, src).pset[k].mac == mac;
    LookupFindsMac(Accept(n, src).pset, mac);
  }

  /** What passing the setup on at position k sends. */
  lemma HopSends(net: Net, path: seq<u32>, pid: u32, proxy: u32, vset: seq<u32>, k: nat, n: Node, s: SetupPkt,
      sender: u32)
    requires Ready(net, path, proxy, vset) && 0 < k && k + 1 < |path|
    requires n == Accept(net.nodes[path[k]], Source(path))
    requires path[k - 1] in net.mac && path[k] in net.mac && path[k + 1] in net.mac
    requires s == Frame(net, path, pid, proxy, vset, k)
    ensures Frame(net, path, pid, proxy, vset, k + 1) in PassSetup(path[k], net.mac[path[k]], n, s, sender, true).setups
  {
    ReadyAddresses(net, path, proxy, vset, k);
    ReadyAddresses(net, path, proxy, vset, k + 1);
    assert PassesOn(net, path, proxy, k);
    assert MacOf(n.pset, path[k + 1]) == Some(net.mac[path[k + 1]]) by {
      SameIndex(net.nodes[path[k]].pset, n.pset, path[k + 1]);
    }
    hide MacOf, SetupHop, AddRoute, Ready;
  }

  /** The first hop of a ready path. */
  lemma StartTravels(net: Net, path: seq<u32>, pid: u32, proxy: u32, vset: seq<u32>)
    requires Ready(net, path, proxy, vset) && path[0] in net.mac && path[1] in net.mac
    ensures var st := StartSetup(path[0], Target(path), pid, proxy, vset);
            && Enabled(net, st) && IsHop(net, st, path, pid, 0)
            && Frame(net, path, pid, proxy, vset, 1) in Apply(net, st).setups
  {
    hide MacOf, AddRoute, NextHop, StatusOf, Topology, TruePairs, Contains, PassesOn, Apply;
    ReadyAddresses(net, path, proxy, vset, 0);
    ReadyAddresses(net, path, proxy, vset, 1);
    var n, nh := net.nodes[path[0]], path[1];
    var st := StartSetup(path[0], Target(path), pid, proxy, vset);
    var o := LocalSetup(path[0], net.mac[path[0]], n, Target(path), pid, proxy, vset);
    assert Frame(net, path, pid, proxy, vset, 1) in o.setups;
    hide LocalSetup, Ready, Apply;
    StepSends(net, st, Frame(net, path, pid, proxy, vset, 1));
  }

  /** A later hop of a ready path, at a node that nothing has touched yet. */
  lemma HopTravels(net: Net, now: Net, path: seq<u32>, pid: u32, proxy: u32, vset: seq<u32>, k: nat)
    requires Ready(net, path, proxy, vset) && 0 < k < |path| && path[k - 1] in net.mac && path[k] in net.mac
    requires now.mac == net.mac && path[k] in now.nodes && now.nodes[path[k]] == net.nodes[path[k]]
    requires Frame(net, path, pid, proxy, vset, k) in now.setups
    ensures var st := DeliverSetup(path[k], Frame(net, path, pid, proxy, vset, k), true);
            && Enabled(now, st) && IsHop(now, st, path, pid, k)
            && (k + 1 < |path| ==>
                  path[k + 1] in net.mac && Frame(net, path, pid, proxy, vset, k + 1) in Apply(now, st).setups)
  {
    hide Topology, TruePairs, SetupHop, SenderOf, Accept, PassSetup, TearDownPath, Apply, MacOf, Contains, LocalHop;
    var at, s := path[k], Frame(net, path, pid, proxy, vset, k);
    var st := DeliverSetup(at, s, true);
    var n := Accept(net.nodes[at], Source(path));
    ReadyAddresses(net, path, proxy, vset, k);
    assert k + 1 < |path| ==> PassesOn(net, path, proxy, k);
    hide Ready;
    assert IsHop(now, st, path, pid, k);
    hide IsHop;
    if k + 1 < |path| {
      var sender := SenderOf(at, net.mac[at], n, s.from).value;
      HopSends(net, path, pid, proxy, vset, k, n, s, sender);
      assert RcvSetup(at, net.mac[at], net.nodes[at], s, true) == PassSetup(at, net.mac[at], n, s, sender, true);
      hide RcvSetup;
      StepSends(now, st, Frame(net, path, pid, proxy, vset, k + 1));
    }
  }

  /** The physical sets hold the same addresses. */
  ghost predicate SameNeighbours(nodes: map<u32, Node>, nodes': map<u32, Node>) {
    && nodes'.Keys == nodes.Keys
    && forall v, x | v in nodes :: MacOf(nodes'[v].pset, x) == MacOf(nodes[v].pset, x)
  }

  /** The step starts or delivers a setup between the ends of the path with this path id. */
  ghost predicate OfSetup(st: Step, path: seq<u32>, pid: u32)
    requires path != []
  {
    || (st.StartSetup? && st.at == Source(path) && st.dst == Target(path) && st.pid == pid)
    || (st.DeliverSetup? && st.s.src == Source(path) && st.s.dst == Target(path) && st.s.pid == pid)
  }

  /** The setup has reached position k by these steps, the nodes from there on are untouched, and
      neighbours and teardowns are as before. */
  ghost predicate OnItsWay(net: Net, steps: seq<Step>, path: seq<u32>, pid: u32, proxy: u32, vset: seq<u32>, k: nat) {
    && path != [] && 0 < k <= |path| && Legal(net, steps) && Travelled(net, steps, path, pid, k)
    && (forall i | 0 <= i < |steps| :: OfSetup(steps[i], path, pid))
    && Exec(net, steps).mac == net.mac && Exec(net, steps).teardowns == net.teardowns
    && SameNeighbours(net.nodes, Exec(net, steps).nodes)
    && (forall j | k <= j < |path| :: path[j] in net.nodes && path[j] in Exec(net, steps).nodes
                                     && Exec(net, steps).nodes[path[j]] == net.nodes[path[j]])
    && (k < |path| ==> path[k - 1] in net.mac && path[k] in net.mac
                       && Frame(net, path, pid, proxy, vset, k) in Exec(net, steps).setups)
  }

  lemma OneMoreHop(net: Net, steps: seq<Step>, path: seq<u32>, pid: u32, k: nat, st: Step)
    requires path != [] && Legal(net, steps) && Travelled(net, steps, path, pid, k)
    requires Enabled(Exec(net, steps), st) && IsHop(Exec(net, steps), st, path, pid, k)
    ensures Legal(net, steps + [st]) && Travelled(net, steps + [st], path, pid, k + 1)
    ensures Exec(net, steps + [st]) == Apply(Exec(net, steps), st)
  {
    hide IsHop, Enabled, Apply;
    LegalAppend(net, steps, st);
    assert (steps + [st])[..|steps|] == steps;
  }

  lemma TravelFrame(net: Net, now: Net, now': Net, path: seq<u32>, k: nat, at: u32)
    requires IsPath(net, path) && 0 < k <= |path| && at == path[k - 1] && at in now.nodes && at in now'.nodes
    requires now'.nodes == now.nodes[at := now'.nodes[at]]
    requires forall j | k - 1 <= j < |path| :: path[j] in now.nodes && now.nodes[path[j]] == net.nodes[path[j]]
    ensures forall j | k <= j < |path| :: path[j] in now'.nodes && now'.nodes[path[j]] == net.nodes[path[j]]
  {
    forall j | k <= j < |path| ensures path[j] in now'.nodes && now'.nodes[path[j]] == net.nodes[path[j]] {
      assert path[j] != at;
    }
  }

  lemma HopKeepsNeighbours(nodes: map<u32, Node>, now: map<u32, Node>, at: u32, n': Node, src: u32)
    requires SameNeighbours(nodes, now) && at in now
             && (n'.pset == now[at].pset || n'.pset == ResetFail(now[at].pset, src))
    ensures SameNeighbours(nodes, now[at := n'])
  {
    hide MacOf, ResetFail;
    forall v, x | v in nodes ensures MacOf(now[at := n'][v].pset, x) == MacOf(nodes[v].pset, x) {
      ResetKeepsMac(now[at].pset, src, x);
    }
  }

  /** A hop of a setup sends no teardown and keeps the neighbours. */
  lemma HopEffect(net: Net, st: Step, path: seq<u32>, pid: u32, k: nat)
    requires Enabled(net, st) && path != [] && IsHop(net, st, path, pid, k)
    ensures !ByChannel(st) && Present(net, Actor(st))
    ensures var at := Actor(st); var n' := Act(at, net.mac[at], net.nodes[at], st).node;
            n'.pset == net.nodes[at].pset || n'.pset == ResetFail(net.nodes[at].pset, Source(path))
    ensures Apply(net, st).teardowns == net.teardowns
  {
    hide ResetFail, AddRoute, SetupHop, NextHop, StatusOf, SenderOf, MacOf, TearDownPath;
  }

  lemma FirstLeg(net: Net, path: seq<u32>, pid: u32, proxy: u32, vset: seq<u32>) returns (steps: seq<Step>)
    requires Ready(net, path, proxy, vset)
    ensures OnItsWay(net, steps, path, pid, proxy, vset, 1)
  {
    hide Apply, IsHop, Enabled, Topology, TruePairs, PassesOn, LocalHop, Contains, SenderOf, MacOf, Act;
    ReadyAddresses(net, path, proxy, vset, 0);
    ReadyAddresses(net, path, proxy, vset, 1);
    var st := StartSetup(path[0], Target(path), pid, proxy, vset);
    StartTravels(net, path, pid, proxy, vset);
    OneMoreHop(net, [], path, pid, 0, st);
    steps := [] + [st];
    StepFrame(net, st);
    TravelFrame(net, net, Apply(net, st), path, 1, path[0]);
    HopEffect(net, st, path, pid, 0);
    HopKeepsNeighbours(net.nodes, net.nodes, path[0], Apply(net, st).nodes[path[0]], Source(path));
    hide Travelled, Legal, Exec, SameNeighbours;
  }

  lemma NextLeg(net: Net, before: seq<Step>, path: seq<u32>, pid: u32, proxy: u32, vset: seq<u32>, k: nat)
      returns (steps: seq<Step>)
    requires Ready(net, path, proxy, vset) && k < |path| && OnItsWay(net, before, path, pid, proxy, vset, k)
    ensures OnItsWay(net, steps, path, pid, proxy, vset, k + 1)
  {
    hide Apply, IsHop, Enabled, Topology, TruePairs, PassesOn, LocalHop, Contains, SenderOf, MacOf, Act;
    hide Travelled, Legal, Exec;
    var now, st := Exec(net, before), DeliverSetup(path[k], Frame(net, path, pid, proxy, vset, k), true);
    HopTravels(net, now, path, pid, proxy, vset, k);
    OneMoreHop(net, before, path, pid, k, st);
    steps := before + [st];
    StepFrame(now, st);
    TravelFrame(net, now, Apply(now, st), path, k + 1, path[k]);
    hide SameNeighbours;
    HopEffect(now, st, path, pid, k);
    HopKeepsNeighbours(net.nodes, now.nodes, path[k], Apply(now, st).nodes[path[k]], Source(path));
  }

  /** A setup that is delivered hop by hop travels a ready path to its end. */
  lemma {:induction false} SetupTravels(net: Net, path: seq<u32>, pid: u32, proxy: u32, vset: seq<u32>, k: nat)
    returns (steps: seq<Step>)
    requires Ready(net, path, proxy, vset) && 0 < k <= |path|
    ensures OnItsWay(net, steps, path, pid, proxy, vset, k)
    decreases k
  {
    hide Ready, OnItsWay;
    if k == 1 {
      steps := FirstLeg(net, path, pid, proxy, vset);
    } else {
      steps := SetupTravels(net, path, pid, proxy, vset, k - 1);
      steps := NextLeg(net, steps, path, pid, proxy, vset, k - 1);
    }
  }
}
