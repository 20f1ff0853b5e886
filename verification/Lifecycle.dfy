/** From power-up to a torn-down route: in every freshly started network any two nodes can meet by
    hellos, connect by a setup that meets the hypotheses of the two-way route theorem, and
    disconnect by a teardown that meets those of the whole-path theorem. */
module Lifecycle {
  import opened Types
  import opened PhysicalSet
  import opened RoutingTable
  import opened NeighbourTable
  import opened Network
  import W = Wire
  import S = SilenceAges
  import R = HandshakeRuns
  import opened Links
  import opened SetupPath
  import opened TeardownPath

  lemma ThreeSteps(net: Net, s1: Step, s2: Step, s3: Step)
    requires Enabled(net, s1) && Enabled(Apply(net, s1), s2) && Enabled(Apply(Apply(net, s1), s2), s3)
    ensures Legal(net, [s1, s2, s3]) && Exec(net, [s1, s2, s3]) == Apply(Apply(Apply(net, s1), s2), s3)
  {
    hide Apply, Enabled;
    assert Legal(net, []) && Exec(net, []) == net;
    hide Legal, Exec;
    LegalAppend(net, [], s1);
    assert [] + [s1] == [s1];
    LegalAppend(net, [s1], s2);
    assert [s1] + [s2] == [s1, s2];
    LegalAppend(net, [s1, s2], s3);
    assert [s1, s2] + [s3] == [s1, s2, s3];
  }

  /** The three steps of one hello: sent on a tick, received, handled. */
  lemma HelloRound(net: Net, a: u32, b: u32) returns (steps: seq<Step>)
    requires Topology(net) && a in net.nodes && b in net.nodes && a != b
    requires net.nodes[b].updates == [] && W.Readable(TickHello(net, a).content)
    ensures Legal(net, steps)
    ensures var now := Exec(net, steps); var h := TickHello(net, a);
            && now.mac == net.mac && now.setups == net.setups && now.teardowns == net.teardowns
            && RcvHello(b, net.nodes[b], h).updates != []
            && now.nodes == net.nodes[a := Tick(net.nodes[a])][b := Handle(RcvHello(b, net.nodes[b], h))]
  {
    hide Tick, RcvHello, Handle, Recorded, W.Readable, Apply, HelloOf, Legal, Exec;
    var h := TickHello(net, a);
    var s1, s2, s3 := TickStep(a), DeliverHello(b, h), HandleStep(b);
    assert Present(net, a) && Present(net, b) && h.from != net.mac[b];
    hide TickHello, Topology;
    TickEffect(net, a);
    DeliverHelloEffect(Apply(net, s1), b, h);
    HandleEffect(Apply(Apply(net, s1), s2), b);
    assert Enabled(net, s1);
    hide Enabled, Present;
    ThreeSteps(net, s1, s2, s3);
    steps := [s1, s2, s3];
  }

  lemma TickEffect(net: Net, a: u32)
    requires Topology(net) && a in net.nodes
    ensures var net' := Apply(net, TickStep(a));
            && net'.mac == net.mac && net'.setups == net.setups && net'.teardowns == net.teardowns
            && net'.nodes == net.nodes[a := Tick(net.nodes[a])]
            && TickHello(net, a) in net'.hellos && net.hellos <= net'.hellos
  {
    hide Tick;
  }

  lemma DeliverHelloEffect(net: Net, b: u32, h: HelloPkt)
    requires Present(net, b) && h in net.hellos && h.from != net.mac[b] && W.Readable(h.content)
    ensures Enabled(net, DeliverHello(b, h)) && RcvHello(b, net.nodes[b], h).updates != []
    ensures var net' := Apply(net, DeliverHello(b, h));
            && net'.mac == net.mac && net'.setups == net.setups && net'.teardowns == net.teardowns
            && net'.nodes == net.nodes[b := RcvHello(b, net.nodes[b], h)] && net'.hellos == net.hellos
  {
  }

  lemma HandleEffect(net: Net, b: u32)
    requires Present(net, b) && net.nodes[b].updates != []
    ensures Enabled(net, HandleStep(b))
    ensures var net' := Apply(net, HandleStep(b));
            && net'.mac == net.mac && net'.setups == net.setups && net'.teardowns == net.teardowns
            && net'.nodes == net.nodes[b := Handle(net.nodes[b])] && net'.hellos == net.hellos
  {
    hide Handle;
  }

  lemma {:induction false} LegalConcat(net: Net, s: seq<Step>, t: seq<Step>)
    requires Legal(net, s) && Legal(Exec(net, s), t)
    ensures Legal(net, s + t) && Exec(net, s + t) == Exec(Exec(net, s), t)
    decreases |t|
  {
    hide Apply, Enabled;
    if t == [] {
      assert s + t == s;
    } else {
      var before, last := t[..|t| - 1], t[|t| - 1];
      LegalConcat(net, s, before);
      LegalAppend(net, s + before, last);
      assert s + t == (s + before) + [last];
    }
  }

  /** A node with no routes, nothing queued, few neighbours, all heard of lately. */
  ghost predicate Young(n: Node, size: nat, age: nat) {
    && n.updates == [] && n.rt == map[] && |n.pset| <= size
    && forall i | 0 <= i < |n.pset| :: n.pset[i].fail <= age
  }

  /** Handling a hello adds its sender and nobody else. */
  lemma HelloIntroduces(b: u32, n: Node, h: HelloPkt, size: nat, age: nat)
    requires Young(n, size, age) && W.Readable(h.content)
    ensures RcvHello(b, n, h).updates != []
    ensures var n' := Handle(RcvHello(b, n, h));
            Young(n', size + 1, age) && forall x :: Contains(n'.pset, x) <==> Contains(n.pset, x) || x == h.src
  {
    var n1 := RcvHello(b, n, h);
    assert n1.updates == [Update(h.src, h.from, W.Says(h.content, b), h.content.active)];
    var u, n' := n1.updates[0], Handle(n1);
    forall x ensures Contains(n'.pset, x) <==> Contains(n.pset, x) || x == h.src {
      SameIndex(n.pset, n1.pset, x);
      if Contains(n1.pset, u.node) {
        SameIndex(n1.pset, n'.pset, x);
      } else {
        AddsOrKeeps(n1.pset, n'.pset, x);
      }
    }
  }

  /** A new neighbour is put in front. */
  lemma AddsOrKeeps(ps: Pset, ps': Pset, x: u32)
    requires ps' != [] && ps'[1..] == ps
    ensures Contains(ps', x) <==> Contains(ps, x) || x == ps'[0].node
  {
  }

  lemma {:induction false} YoungSweep(ps: Pset)
    requires forall i | 0 <= i < |ps| :: !Expires(ps[i])
    ensures |Sweep(ps)| == |ps| && forall i | 0 <= i < |ps| :: Sweep(ps)[i] == Age(ps[i])
  {
    if ps != [] {
      YoungSweep(ps[1..]);
    }
  }

  /** A tick ages young neighbours and keeps them; its hello is readable. */
  lemma YoungTick(n: Node, size: nat, age: nat)
    requires Young(n, size, age) && age + 1 < 2 * VRR_FAIL_TIMEOUT && size <= VRR_PSET_SIZE
    ensures Young(Tick(n), size, age + 1) && (forall x :: Contains(Tick(n).pset, x) <==> Contains(n.pset, x))
    ensures W.Readable(HelloOf(Tick(n).active, Tick(n).pset))
  {
    YoungSweep(n.pset);
    var ps := Tick(n).pset;
    forall x ensures Contains(ps, x) <==> Contains(n.pset, x) {
      SameIndex(n.pset, ps, x);
    }
    ListedAtMost(ps, LinkedActive);
    ListedAtMost(ps, LinkedInactive);
    ListedAtMost(ps, PendingClass);
  }

  lemma {:induction false} ListedAtMost(ps: Pset, c: Class)
    ensures |ListedNodes(ps, c)| <= |ps|
  {
    if ps != [] {
      ListedAtMost(ps[1..], c);
    }
  }

  /** One hello of s introduces s to r and changes nobody else. */
  ghost predicate Greeted(net: Net, now: Net, s: u32, r: u32, size: nat, age: nat) {
    && s in net.nodes && r in net.nodes && s in now.nodes && r in now.nodes
    && now.mac == net.mac && now.setups == net.setups && now.teardowns == net.teardowns
    && Young(now.nodes[s], size + 1, age + 1) && Young(now.nodes[r], size + 1, age + 1)
    && now.nodes[s].rt == now.nodes[r].rt == map[]
    && (forall v | v in net.nodes && v != s && v != r :: v in now.nodes && now.nodes[v] == net.nodes[v])
    && (forall x :: Contains(now.nodes[s].pset, x) <==> Contains(net.nodes[s].pset, x))
    && (forall x :: Contains(now.nodes[r].pset, x) <==> Contains(net.nodes[r].pset, x) || x == s)
  }

  lemma Greet(net: Net, s: u32, r: u32, size: nat, age: nat) returns (steps: seq<Step>)
    requires Topology(net) && s in net.nodes && r in net.nodes && s != r
    requires Young(net.nodes[s], size, age) && Young(net.nodes[r], size, age)
    requires age + 1 < 2 * VRR_FAIL_TIMEOUT && size <= VRR_PSET_SIZE
    ensures Legal(net, steps) && Greeted(net, Exec(net, steps), s, r, size, age)
    ensures Topology(Exec(net, steps))
  {
    hide Tick, RcvHello, Handle, Apply, Enabled, W.Readable, HelloOf, Legal, Exec, Contains, Topology;
    InMac(net, s);
    YoungTick(net.nodes[s], size, age);
    HelloIntroduces(r, net.nodes[r], TickHello(net, s), size, age);
    steps := HelloRound(net, s, r);
    RunKeepsTopology(net, steps);
  }

  /** One hello tells the receiver whether the sender is active: in any reachable state, once the
      tick, the delivery and the handling are done, the flag is what the sender is. */
  lemma ActivityIsTold(net: Net, past: seq<Step>, a: u32, b: u32) returns (steps: seq<Step>)
    requires Init(net) && Legal(net, past) && a != b && Present(Exec(net, past), a) && Present(Exec(net, past), b)
    requires Exec(net, past).nodes[b].updates == [] && W.Readable(TickHello(Exec(net, past), a).content)
    ensures Legal(Exec(net, past), steps)
    ensures var now := Exec(Exec(net, past), steps);
            && a in now.nodes && b in now.nodes
            && ActiveOf(now.nodes[b].pset, a) == if now.nodes[a].active then 1 else 0
  {
    var before := Exec(net, past);
    RunKeepsTopology(net, past);
    S.SilenceAgesAreExact(net, past);
    assert S.Exact(before.log, b, before.nodes[b].pset);
    hide Legal, Exec, Init, Topology;
    steps := HelloRound(before, a, b);
    FlagIsStored(b, before.nodes[b], TickHello(before, a));
    hide Tick, RcvHello, Handle, ActiveOf;
  }

  lemma FlagIsStored(me: u32, n: Node, h: HelloPkt)
    requires PhysicalSet.Valid(n.pset) && n.updates == [] && W.Readable(h.content)
    ensures RcvHello(me, n, h).updates != []
    ensures ActiveOf(Handle(RcvHello(me, n, h)).pset, h.src) == if h.content.active != 0 then 1 else 0
  {
    var u := Update(h.src, h.from, W.Says(h.content, me), h.content.active);
    ResetKeepsValid(n.pset, h.src);
    UpdateStoresFlag(ResetFail(n.pset, h.src), u);
    assert RcvHello(me, n, h).updates == [u];
    hide ActiveOf, ApplyUpdate, ResetFail;
  }

  /** Two nodes that hold each other, with empty tables, and no teardown in flight. */
  ghost predicate Met(net: Net, a: u32, b: u32) {
    && a in net.nodes && b in net.nodes && a in net.mac && b in net.mac
    && Contains(net.nodes[a].pset, b) && Contains(net.nodes[b].pset, a)
    && net.nodes[a].rt == map[] && net.nodes[b].rt == map[] && net.teardowns == multiset{}
  }

  lemma FreshStart(net: Net)
    requires Init(net)
    ensures Topology(net) && net.teardowns == multiset{}
    ensures forall v | v in net.nodes :: Young(net.nodes[v], 0, 0) && Young(net.nodes[v], 2, 2)
    ensures forall v, x | v in net.nodes :: !Contains(net.nodes[v].pset, x)
  {
  }

  /** Any two nodes of a freshly started network can meet. */
  lemma Meet(net: Net, a: u32, b: u32) returns (past: seq<Step>)
    requires Init(net) && a in net.nodes && b in net.nodes && a != b
    ensures Legal(net, past) && Met(Exec(net, past), a, b)
    ensures forall v | v in net.nodes :: v in Exec(net, past).nodes && Young(Exec(net, past).nodes[v], 2, 2)
    ensures forall x :: Contains(Exec(net, past).nodes[a].pset, x) ==> x == b
  {
    hide Init, Legal, Exec, Contains, Topology, Young;
    FreshStart(net);
    var first := Greet(net, a, b, 0, 0);
    var second := Greet(Exec(net, first), b, a, 1, 1);
    LegalConcat(net, first, second);
    past := first + second;
    RunKeepsTopology(net, past);
    assert a in net.mac && b in net.mac by { InMac(net, a); InMac(net, b); }
  }

  lemma InMac(net: Net, v: u32)
    requires Topology(net) && v in net.nodes
    ensures v in net.mac
  {
  }

  /** In a reachable network no neighbour is stored as unknown. */
  lemma KnownStatus(net: Net, past: seq<Step>, v: u32, x: u32)
    requires Init(net) && Legal(net, past) && v in Exec(net, past).nodes && Contains(Exec(net, past).nodes[v].pset, x)
    ensures StatusOf(Exec(net, past).nodes[v].pset, x) != Unknown
  {
    S.SilenceAgesAreExact(net, past);
    assert S.Exact(Exec(net, past).log, v, Exec(net, past).nodes[v].pset);
  }

  lemma EmptyIsBelow(n: Node, path: seq<u32>, pid: u32)
    requires n.rt == map[] && path != []
    ensures EntryBelow(n, path, pid)
  {
  }

  lemma StillNeighbours(met: Net, now: Net, v: u32, x: u32)
    requires v in met.nodes && SameNeighbours(met.nodes, now.nodes)
    ensures v in now.nodes && (Contains(now.nodes[v].pset, x) <==> Contains(met.nodes[v].pset, x))
  {
    assert MacOf(now.nodes[v].pset, x) == MacOf(met.nodes[v].pset, x);
  }

  /** What a setup leaves that has travelled a ready path: a path that can be torn down. */
  ghost predicate Connected(met: Net, steps: seq<Step>, path: seq<u32>, pid: u32) {
    && path != [] && Legal(met, steps) && Travelled(met, steps, path, pid, |path|)
    && (forall i | 0 <= i < |steps| :: OfSetup(steps[i], path, pid))
    && var now := Exec(met, steps);
    && Topology(now) && TruePairs(now) && Installed(now, path, pid, |path|)
    && Established(now, path, pid) && NoneInFlight(now, path, pid)
    && now.teardowns == met.teardowns && SameNeighbours(met.nodes, now.nodes)
  }

  lemma Connect(met: Net, path: seq<u32>, proxy: u32, pid: u32) returns (steps: seq<Step>)
    requires Ready(met, path, proxy, []) && Installed(met, path, pid, 0) && pid > 0 && met.teardowns == multiset{}
    ensures Connected(met, steps, path, pid)
  {
    hide Legal, Exec, Travelled, Frame, Contains, MacOf, Removed, TruePairs, Topology, EntryLeads, EntryBelow;
    hide PassesOn, LocalHop, OfSetup, Established;
    assert Topology(met) && TruePairs(met) && IsPath(met, path);
    steps := SetupTravels(met, path, pid, proxy, [], |path|);
    var now := Exec(met, steps);
    forall i, j | 0 <= i < |path| && 0 <= j < |path| && (j == i + 1 || i == j + 1)
      ensures path[i] in now.nodes && Contains(now.nodes[path[i]].pset, path[j])
    {
      StillNeighbours(met, now, path[i], path[j]);
    }
    hide SameNeighbours, Ready;
    TravelInstalls(met, steps, path, pid, |path|);
    InstalledIsEstablished(now, path, pid);
  }

  /** The whole life of a route between any two nodes of a freshly started network: they meet by
      hellos; a setup with any non-zero path id travels between them and meets the hypotheses of
      SetupBuildsTwoWayRoute, so each becomes the other's next hop; and the path it leaves meets the
      hypotheses of TeardownRemovesWholePath. */
  lemma RoutesLiveAndDie(net: Net, a: u32, b: u32, pid: u32) returns (past: seq<Step>, steps: seq<Step>)
    requires Init(net) && a in net.nodes && b in net.nodes && a != b && pid > 0
    ensures Legal(net, past) && Legal(Exec(net, past), steps)
    ensures Installed(Exec(net, past), [a, b], pid, 0) && Travelled(Exec(net, past), steps, [a, b], pid, 2)
    ensures var now := Exec(Exec(net, past), steps);
            && Topology(now) && TruePairs(now) && Established(now, [a, b], pid) && NoneInFlight(now, [a, b], pid)
            && ReachedIn(now, a, b, 1) && ReachedIn(now, b, a, 1)
  {
    hide Legal, Exec, Travelled, ReachedIn, Established, TruePairs, Topology, NoneInFlight, Contains;
    hide StatusOf, NextHop, EntryBelow, EntryLeads, Init;
    past := Meet(net, a, b);
    LinksHold(net, past);
    KnownStatus(net, past, a, b);
    var met, path := Exec(net, past), [a, b];
    assert LocalHop(a, met.nodes[a], b, b) == b;
    EmptyIsBelow(met.nodes[a], path, pid);
    EmptyIsBelow(met.nodes[b], path, pid);
    steps := Connect(met, path, b, pid);
    InstalledLeadsBothWays(Exec(met, steps), path, pid, 0);
    InstalledLeadsBothWays(Exec(met, steps), path, pid, 1);
  }

  // ---- A path with a node in the middle ----

  /** Three nodes in a row: a and c hold b, b holds both, a does not hold c, tables are empty. */
  ghost predicate InRow(net: Net, a: u32, b: u32, c: u32) {
    && Met(net, a, b) && Met(net, b, c) && !Contains(net.nodes[a].pset, c)
  }

  lemma MeetInRow(net: Net, a: u32, b: u32, c: u32) returns (past: seq<Step>)
    requires Init(net) && a in net.nodes && b in net.nodes && c in net.nodes && a != b && a != c && b != c
    ensures Legal(net, past) && InRow(Exec(net, past), a, b, c)
  {
    assert Topology(net);
    hide Init, Legal, Exec, Contains, Topology, Young;
    past := Meet(net, a, b);
    RunKeepsTopology(net, past);
    var mid := Exec(net, past);
    assert Young(mid.nodes[c], 2, 2) && a in mid.nodes;
    assert c in mid.mac by { InMac(mid, c); }
    assert !Contains(mid.nodes[a].pset, c);
    var third := Greet(mid, b, c, 2, 2);
    var fourth := Greet(Exec(mid, third), c, b, 3, 3);
    LegalConcat(mid, third, fourth);
    LegalConcat(net, past, third + fourth);
    past := past + (third + fourth);
  }

  /** A setup with a smaller path id does not interfere. */
  lemma {:induction false} SmallerSetupIsHarmless(net: Net, steps: seq<Step>, path: seq<u32>, pid: u32,
      longer: seq<u32>, pid2: u32)
    requires path != [] && longer != [] && pid < pid2 && Legal(net, steps)
    requires forall i | 0 <= i < |steps| :: OfSetup(steps[i], path, pid)
    ensures Travelled(net, steps, longer, pid2, 0)
  {
    hide Apply, Enabled;
    if steps != [] {
      SmallerSetupIsHarmless(net, steps[..|steps| - 1], path, pid, longer, pid2);
      assert OfSetup(steps[|steps| - 1], path, pid);
    }
  }

  lemma RelayPassesOn(n: Node, b: u32, a: u32, c: u32, proxy: u32)
    requires StatusOf(n.pset, c) != Unknown
    ensures SetupHop(b, Accept(n, a), c, proxy) == c
  {
    SameIndex(n.pset, Accept(n, a).pset, c);
  }

  /** With a route from a to b in place, a setup from a to c with b as proxy finds its way. */
  lemma RelayIsReady(mid: Net, a: u32, b: u32, c: u32, pid: u32)
    requires Topology(mid) && TruePairs(mid) && IsPath(mid, [a, b, c]) && Installed(mid, [a, b], pid, 2)
    requires a in mid.nodes && b in mid.nodes && c in mid.nodes
    requires Contains(mid.nodes[a].pset, b) && Contains(mid.nodes[b].pset, a)
    requires Contains(mid.nodes[b].pset, c) && Contains(mid.nodes[c].pset, b)
    requires !Contains(mid.nodes[a].pset, c) && StatusOf(mid.nodes[b].pset, c) != Unknown
    ensures Ready(mid, [a, b, c], b, [])
  {
    var path := [a, b, c];
    assert StatusOf(mid.nodes[a].pset, c) == Unknown;
    hide Topology, TruePairs, NextHop, Installed, Contains, StatusOf, SetupHop;
    NextOnPath(mid, [a, b], pid, 0);
    assert [a, b][0] == a && Target([a, b]) == b && Hop(mid, a, b) == b;
    assert LocalHop(a, mid.nodes[a], c, b) == b;
    RelayPassesOn(mid.nodes[b], b, a, c, b);
    hide LocalHop, Hop, Accept;
    assert PassesOn(mid, path, b, 1);
  }

  /** The life of a route through a third node. In every freshly started network any three nodes
      can meet in a row; the first sets up a route to the second, and then, with the second as proxy
      and any larger path id, one to the third. This setup meets the hypotheses of
      SetupBuildsTwoWayRoute, the ends reach each other in two hops, and the path meets the
      hypotheses of TeardownRemovesWholePath and TeardownAmidTraffic. */
  lemma RelayedRoutesLiveAndDie(net: Net, a: u32, b: u32, c: u32, pid: u32, pid2: u32)
      returns (past: seq<Step>, steps: seq<Step>)
    requires Init(net) && a in net.nodes && b in net.nodes && c in net.nodes && a != b && a != c && b != c
    requires 0 < pid < pid2
    ensures Legal(net, past) && Legal(Exec(net, past), steps)
    ensures Installed(Exec(net, past), [a, b, c], pid2, 0) && Travelled(Exec(net, past), steps, [a, b, c], pid2, 3)
    ensures var now := Exec(Exec(net, past), steps);
            && Topology(now) && TruePairs(now) && Established(now, [a, b, c], pid2)
               && NoneInFlight(now, [a, b, c], pid2)
            && ReachedIn(now, a, c, 2) && ReachedIn(now, c, a, 2)
  {
    hide Legal, Exec, Travelled, ReachedIn, Established, TruePairs, Topology, NoneInFlight, Installed, Init;
    hide Ready, OfSetup, SameNeighbours;
    past := RelayStands(net, a, b, c, pid, pid2);
    var path := [a, b, c];
    assert |path| == 3 && path[0] == Source(path) == a && path[2] == Target(path) == c;
    steps := Connect(Exec(net, past), path, b, pid2);
    InstalledLeadsBothWays(Exec(Exec(net, past), steps), path, pid2, 0);
    InstalledLeadsBothWays(Exec(Exec(net, past), steps), path, pid2, 2);
  }

  /** Up to the point where the longer setup can start. */
  lemma RelayStands(net: Net, a: u32, b: u32, c: u32, pid: u32, pid2: u32) returns (past: seq<Step>)
    requires Init(net) && a in net.nodes && b in net.nodes && c in net.nodes && a != b && a != c && b != c
    requires 0 < pid < pid2
    ensures Legal(net, past)
    ensures Installed(Exec(net, past), [a, b, c], pid2, 0) && Ready(Exec(net, past), [a, b, c], b, [])
    ensures Exec(net, past).teardowns == multiset{}
  {
    hide Legal, Exec, Travelled, Established, TruePairs, Topology, NoneInFlight, Contains, StatusOf, NextHop;
    hide EntryBelow, EntryLeads, Init, OfSetup;
    var row := MeetInRow(net, a, b, c);
    LinksHold(net, row);
    KnownStatus(net, row, a, b);
    var met, short, long := Exec(net, row), [a, b], [a, b, c];
    assert LocalHop(a, met.nodes[a], b, b) == b;
    EmptyIsBelow(met.nodes[a], short, pid);
    EmptyIsBelow(met.nodes[b], short, pid);
    EmptyIsBelow(met.nodes[a], long, pid2);
    EmptyIsBelow(met.nodes[b], long, pid2);
    EmptyIsBelow(met.nodes[c], long, pid2);
    var steps := Connect(met, short, b, pid);
    SmallerSetupIsHarmless(met, steps, short, pid, long, pid2);
    TravelInstalls(met, steps, long, pid2, 0);
    hide Installed, Ready, IsPath, LocalHop;
    LegalConcat(net, row, steps);
    past := row + steps;
    RelayStaysInRow(net, past, met, a, b, c);
    RelayIsReady(Exec(net, past), a, b, c, pid);
  }

  lemma RelayStaysInRow(net: Net, past: seq<Step>, met: Net, a: u32, b: u32, c: u32)
    requires Init(net) && Legal(net, past) && InRow(met, a, b, c) && SameNeighbours(met.nodes, Exec(net, past).nodes)
    requires a != b && a != c && b != c
    ensures var mid := Exec(net, past);
            && IsPath(mid, [a, b, c]) && a in mid.nodes && b in mid.nodes && c in mid.nodes
            && Contains(mid.nodes[a].pset, b) && Contains(mid.nodes[b].pset, a)
            && Contains(mid.nodes[b].pset, c) && Contains(mid.nodes[c].pset, b)
            && !Contains(mid.nodes[a].pset, c) && StatusOf(mid.nodes[b].pset, c) != Unknown
  {
    hide Legal, Exec, Init, Contains, StatusOf, SameNeighbours;
    var mid := Exec(net, past);
    StillNeighbours(met, mid, a, b);
    StillNeighbours(met, mid, b, a);
    StillNeighbours(met, mid, b, c);
    StillNeighbours(met, mid, c, b);
    StillNeighbours(met, mid, a, c);
    KnownStatus(net, past, b, c);
  }

  // ---- Two nodes whose hellos cross ----

  /** A node whose only neighbour, if any, is the peer, just heard of, with nothing queued. */
  ghost predicate Pal(n: Node, peer: u32) {
    n.updates == [] && |n.pset| <= 1 && forall i | 0 <= i < |n.pset| :: n.pset[i].node == peer && n.pset[i].fail == 0
  }

  /** One crossing round at one node: it ticks, receives the hello of its peer and handles it. */
  lemma PalRound(me: u32, n: Node, h: HelloPkt)
    requires Pal(n, h.src) && W.Readable(h.content)
    ensures W.Readable(HelloOf(Tick(n).active, Tick(n).pset))
    ensures var n' := RcvHello(me, Tick(n), h);
            n'.updates != [] && n'.updates[0].node == h.src && Pal(Handle(n'), h.src)
  {
    YoungSweep(n.pset);
    var ps := Tick(n).pset;
    ListedAtMost(ps, LinkedActive);
    ListedAtMost(ps, LinkedInactive);
    ListedAtMost(ps, PendingClass);
    assert RcvHello(me, Tick(n), h).updates == [Update(h.src, h.from, W.Says(h.content, me), h.content.active)];
  }

  lemma PalTicks(n: Node, peer: u32)
    requires Pal(n, peer)
    ensures W.Readable(HelloOf(Tick(n).active, Tick(n).pset))
  {
    PalRound(0, n, HelloPkt(peer, W.Hello(0, [], [], []), 0, 0));
  }

  /** The conversation so far, and the next step in it. */
  lemma NextInOrder(start: Net, steps: seq<Step>, st: Step, a: u32, b: u32)
    requires Legal(start, steps) && R.Orderly(start, steps, a, b) && Enabled(Exec(start, steps), st)
    requires R.InOrder(Exec(start, steps), st, a, b, R.CourseOf(start, steps, a, b))
    ensures Legal(start, steps + [st]) && Exec(start, steps + [st]) == Apply(Exec(start, steps), st)
    ensures R.Orderly(start, steps + [st], a, b)
    ensures R.CourseOf(start, steps + [st], a, b)
            == R.Advance(Exec(start, steps), st, a, b, R.CourseOf(start, steps, a, b))
  {
    hide Apply, Enabled, R.InOrder, R.Advance;
    LegalAppend(start, steps, st);
    assert (steps + [st])[..|steps|] == steps;
  }

  /** Between two rounds: both are pals, nothing is under way, and k rounds are done. */
  ghost predicate Between(start: Net, steps: seq<Step>, a: u32, b: u32, k: nat) {
    && Legal(start, steps) && R.Orderly(start, steps, a, b)
    && var now, c := Exec(start, steps), R.CourseOf(start, steps, a, b);
    && Topology(now) && a in now.nodes && b in now.nodes && Pal(now.nodes[a], b) && Pal(now.nodes[b], a)
    && c.a == c.b == R.Side(R.Nothing, c.a.heard, 0) && c.done == None && c.rounds == k
  }

  /** Both tick. */
  lemma CrossingTicks(start: Net, steps: seq<Step>, a: u32, b: u32, k: nat)
      returns (more: seq<Step>, ha: HelloPkt, hb: HelloPkt)
    requires a != b && Between(start, steps, a, b, k)
    ensures Legal(start, more) && R.Orderly(start, more, a, b)
    ensures var was, now, c := Exec(start, steps), Exec(start, more), R.CourseOf(start, more, a, b);
            && now.mac == was.mac && now.nodes == was.nodes[a := Tick(was.nodes[a])][b := Tick(was.nodes[b])]
            && ha in now.hellos && hb in now.hellos && ha.src == a && hb.src == b
            && Present(was, a) && Present(was, b) && ha.from == was.mac[a] && hb.from == was.mac[b]
            && W.Readable(ha.content) && W.Readable(hb.content)
            && c.a == R.Side(R.Flying(ha), c.a.heard, 1) && c.b == R.Side(R.Flying(hb), c.a.heard, 1)
            && c.done == None && c.rounds == k
  {
    hide Apply, Legal, Exec, R.Orderly, R.CourseOf, Tick, HelloOf, Pal, Topology;
    var was := Exec(start, steps);
    InMac(was, a);
    InMac(was, b);
    PalTicks(was.nodes[a], b);
    PalTicks(was.nodes[b], a);
    ha := TickHello(was, a);
    TickEffect(was, a);
    NextInOrder(start, steps, TickStep(a), a, b);
    var one := steps + [TickStep(a)];
    var mid := Exec(start, one);
    StepKeepsTopology(was, TickStep(a));
    hb := TickHello(mid, b);
    TickEffect(mid, b);
    NextInOrder(start, one, TickStep(b), a, b);
    more := one + [TickStep(b)];
  }

  /** Both receive, then both handle. */
  lemma CrossingRound(start: Net, steps: seq<Step>, a: u32, b: u32, k: nat) returns (more: seq<Step>)
    requires a != b && Between(start, steps, a, b, k)
    ensures Between(start, more, a, b, k + 1)
  {
    hide Apply, Legal, Exec, R.Orderly, R.CourseOf, Tick, RcvHello, Handle, HelloOf, Pal, Topology, W.Readable;
    var was := Exec(start, steps);
    var two, ha, hb := CrossingTicks(start, steps, a, b, k);
    var n2 := Exec(start, two);
    PalRound(b, was.nodes[b], ha);
    PalRound(a, was.nodes[a], hb);
    assert was.mac[a] != was.mac[b] by { Distinct(was, a, b); }
    DeliverHelloEffect(n2, b, ha);
    NextInOrder(start, two, DeliverHello(b, ha), a, b);
    var three := two + [DeliverHello(b, ha)];
    var n3 := Exec(start, three);
    DeliverHelloEffect(n3, a, hb);
    NextInOrder(start, three, DeliverHello(a, hb), a, b);
    var four := three + [DeliverHello(a, hb)];
    var n4 := Exec(start, four);
    HandleEffect(n4, b);
    NextInOrder(start, four, HandleStep(b), a, b);
    var five := four + [HandleStep(b)];
    var n5 := Exec(start, five);
    HandleEffect(n5, a);
    NextInOrder(start, five, HandleStep(a), a, b);
    more := five + [HandleStep(a)];
    assert Topology(Exec(start, more)) by { SameTopology(was, Exec(start, more)); }
  }

  lemma Distinct(net: Net, a: u32, b: u32)
    requires Topology(net) && a != b && a in net.mac && b in net.mac
    ensures net.mac[a] != net.mac[b]
  {
  }

  lemma SameTopology(net: Net, net': Net)
    requires Topology(net) && net'.mac == net.mac && net'.nodes.Keys == net.nodes.Keys
    ensures Topology(net')
  {
  }

  /** The handshake theorem applies: in every freshly started network any two nodes can exchange any
      number of crossing hellos in order, and hold each other linked after six rounds of them. */
  lemma {:induction false} CrossingRounds(net: Net, a: u32, b: u32, k: nat) returns (steps: seq<Step>)
    requires Init(net) && a in net.nodes && b in net.nodes && a != b
    ensures Between(net, steps, a, b, k)
    decreases k
  {
    if k == 0 {
      steps := [];
    } else {
      steps := CrossingRounds(net, a, b, k - 1);
      steps := CrossingRound(net, steps, a, b, k - 1);
    }
  }

  lemma FreshNodesLink(net: Net, a: u32, b: u32) returns (steps: seq<Step>)
    requires Init(net) && a in net.nodes && b in net.nodes && a != b
    ensures Legal(net, []) && Exec(net, []) == net && R.NothingQueued(net, a, b)
    ensures Legal(net, steps) && R.Orderly(net, steps, a, b) && R.CourseOf(net, steps, a, b).rounds == 6
    ensures var now := Exec(net, steps);
            && a in now.nodes && b in now.nodes
            && StatusOf(now.nodes[a].pset, b) == StatusOf(now.nodes[b].pset, a) == Linked
  {
    steps := CrossingRounds(net, a, b, 6);
    R.NetworkConverges(net, [], steps, a, b);
  }
}
