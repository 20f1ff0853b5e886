/** The packet handlers of vrr_input.c and vrr_core.c as methods on one node's mutable state: the
    endpoint tree, the neighbour list, the virtual set and the frames handed to the device. Each does
    exactly what the corresponding step of the network does to that node. */
module Handlers {
  import opened Types
  import PhysicalSet
  import opened RoutingTable
  import opened RoutingTree
  import opened NeighbourTable
  import opened VirtualSetTable
  import V = VirtualSet
  import N = Network
  import W = Wire
  import F = Frames
  import P = SetupPath

  // ---- What the ends of paths do to the virtual set ----

  /** The nodes to which vrr_add asks for paths. */
  function Asked(me: u32, ms: seq<V.Member>, vset: seq<u32>, ps: PhysicalSet.Pset): seq<u32> {
    if PhysicalSet.Listed(ps, PhysicalSet.LinkedActive) != [] then Wanted(me, ms, vset) else []
  }

  /** vrr_add asks for a path to an id exactly if it was announced, is missing from the set, and there
      is a linked active neighbour to ask. */
  lemma AskedExactly(me: u32, ms: seq<V.Member>, ids: seq<u32>, ps: PhysicalSet.Pset, x: u32)
    ensures x in Asked(me, ms, ids, ps)
            <==> && x in ids && Missing(me, ms, x)
                 && HasProxy(ps)
    ensures Asked(me, ms, ids, ps) == [] || Asked(me, ms, ids, ps) == Wanted(me, ms, ids)
  {
    WantedExactly(me, ms, ids);
    hide Missing, Wanted;
    var l := PhysicalSet.Listed(ps, PhysicalSet.LinkedActive);
    if l != [] {
      PhysicalSet.ListedMember(ps, PhysicalSet.LinkedActive, l[0]);
    }
    if i :| 0 <= i < |ps| && ps[i].status == Linked && ps[i].active {
      PhysicalSet.StoredIsListed(ps, PhysicalSet.LinkedActive, i);
    }
  }

  /** The teardown removes an entry here and has no further hop. */
  predicate TeardownEnds(n: N.Node, t: N.TeardownPkt) {
    match Removed(n.rt, t.ea, t.pid)
    case None => false
    case Some(r) => |t.vset| <= VRR_VSET_SIZE && (if r.na == t.src then r.nb else r.na) == 0
  }

  /** The endpoint that such a teardown cuts off. */
  function CutOff(n: N.Node, t: N.TeardownPkt): u32
    requires TeardownEnds(n, t)
  {
    var r := Removed(n.rt, t.ea, t.pid).value;
    if r.na == t.src then r.eb else r.ea
  }

  /** The members afterwards, and the ids to which paths are asked for. */
  datatype VsetEffect = VsetEffect(list: seq<V.Member>, asked: seq<u32>)

  function SetupEffect(me: u32, mac: Mac, n: N.Node, ms: seq<V.Member>, s: N.SetupPkt): VsetEffect {
    if !N.EndsHere(me, mac, n, s) then VsetEffect(ms, [])
    else VsetEffect(V.Joined(me, ms, s.src), Asked(me, ms, s.vset, N.Accept(n, s.src).pset))
  }

  function TeardownEffect(me: u32, n: N.Node, ms: seq<V.Member>, t: N.TeardownPkt): VsetEffect {
    if !TeardownEnds(n, t) then VsetEffect(ms, [])
    else
      var left := V.Without(ms, CutOff(n, t));
      VsetEffect(V.Joined(me, left, 0), Asked(me, left, t.vset, N.Accept(n, t.src).pset))
  }

  /** What a received frame does to the virtual set. */
  function FrameEffect(me: u32, mac: Mac, n: N.Node, ms: seq<V.Member>, from: Mac, frame: seq<u8>): VsetEffect {
    if |frame| < W.HEADER_SIZE then VsetEffect(ms, [])
    else
      var hd, payload := W.ParseHeader(frame), frame[W.HEADER_SIZE..];
      if hd.pktType == 3 then
        match F.DecodeSetup(hd, from, payload)
        case None => VsetEffect(ms, [])
        case Some(s) => SetupEffect(me, mac, n, ms, s)
      else if hd.pktType == 5 then
        match F.DecodeTeardown(hd, from, payload)
        case None => VsetEffect(ms, [])
        case Some(t) => TeardownEffect(me, n, ms, t)
      else VsetEffect(ms, [])
  }

  /** A linked active neighbour, through which paths can be asked for. */
  ghost predicate HasProxy(ps: PhysicalSet.Pset) {
    exists i :: 0 <= i < |ps| && ps[i].status == Linked && ps[i].active
  }

  lemma AcceptKeepsProxy(n: N.Node, src: u32)
    ensures HasProxy(N.Accept(n, src).pset) == HasProxy(n.pset)
  {
    var ps, ps' := n.pset, N.Accept(n, src).pset;
    assert |ps'| == |ps| && forall i | 0 <= i < |ps| :: ps'[i].status == ps[i].status && ps'[i].active == ps[i].active;
  }

  /** What a setup does to the virtual set: where it ends, its source becomes a member exactly if it is
      missing, and paths are asked for to the announced ids that are missing; elsewhere nothing. */
  lemma SetupEffectExactly(me: u32, mac: Mac, n: N.Node, ms: seq<V.Member>, s: N.SetupPkt, x: u32)
    ensures var r := SetupEffect(me, mac, n, ms, s);
            && (x in r.asked <==> N.EndsHere(me, mac, n, s) && x in s.vset && Missing(me, ms, x) && HasProxy(n.pset))
            && (if N.EndsHere(me, mac, n, s) && s.src != UINT_MAX && Missing(me, ms, s.src)
                then s.src in V.Ids(r.list) && r.list == V.Add(me, ms, s.src) else r.list == ms)
  {
    hide N.EndsHere, V.Add, V.Beaten;
    AskedExactly(me, ms, s.vset, N.Accept(n, s.src).pset, x);
    AcceptKeepsProxy(n, s.src);
    AdmitsMissing(me, ms, s.src);
    hide V.Admits, Missing, Asked, N.Accept;
  }

  lemma AdmitsMissing(me: u32, ms: seq<V.Member>, src: u32)
    ensures V.Admits(me, ms, src) <==> src != UINT_MAX && Missing(me, ms, src)
    ensures V.Admits(me, ms, src) ==> src in V.Ids(V.Add(me, ms, src))
  {
    V.WantedIsAdded(me, ms, src);
    if |ms| >= VRR_VSET_SIZE {
      V.WantedUnlessBeaten(me, ms, src);
    }
    hide V.Add, V.Beaten;
  }

  /** What a teardown does to the virtual set: where it ends, the endpoint it cuts off leaves, id 0 is
      offered, and paths are asked for to the announced ids that are missing then; elsewhere nothing. */
  lemma TeardownEffectExactly(me: u32, n: N.Node, ms: seq<V.Member>, t: N.TeardownPkt, x: u32)
    requires V.Built(me, ms)
    ensures var r := TeardownEffect(me, n, ms, t);
            if !TeardownEnds(n, t) then r == VsetEffect(ms, [])
            else
              var left := V.Without(ms, CutOff(n, t));
              && CutOff(n, t) !in V.Ids(left) && (x != CutOff(n, t) ==> (x in V.Ids(left) <==> x in V.Ids(ms)))
              && (x in r.asked <==> x in t.vset && Missing(me, left, x) && HasProxy(n.pset))
              && (if Missing(me, left, 0) then 0 in V.Ids(r.list) && r.list == V.Add(me, left, 0) else r.list == left)
  {
    if TeardownEnds(n, t) {
      hide TeardownEnds, CutOff, V.Add, V.Beaten, V.Built;
      var left := V.Without(ms, CutOff(n, t));
      WithoutDropsOne(me, ms, CutOff(n, t));
      AskedExactly(me, left, t.vset, N.Accept(n, t.src).pset, x);
      AcceptKeepsProxy(n, t.src);
      AdmitsMissing(me, left, 0);
      hide V.Admits, Missing, Asked, N.Accept, V.Without;
    }
  }

  /** Which teardowns of a path end where, and whom they cut off: only the destination's hop is the
      last, and the endpoint it then removes from its virtual set is the destination itself, so that
      the source stays a member. */
  lemma TeardownCutsOffItself(n: N.Node, path: seq<u32>, pid: u32, k: nat, j: nat, t: N.TeardownPkt)
    requires |path| >= 2 && 0 !in path && (forall i, m | 0 <= i < m < |path| :: path[i] != path[m])
    requires k < |path| && j < |path| && (j == k + 1 || k == j + 1)
    requires Removed(n.rt, P.Source(path), pid) == Some(P.PathEntry(path, pid, k))
    requires t.src == path[j] && t.ea == P.Source(path) && t.pid == pid
    ensures TeardownEnds(n, t) <==> k == |path| - 1 && |t.vset| <= VRR_VSET_SIZE
    ensures TeardownEnds(n, t) ==> CutOff(n, t) == P.Target(path) == path[k]
  {
    hide Removed;
    assert forall i | 0 <= i < |path| :: path[i] in path;
  }

  /** Frames have the effect of the packets in them. */
  lemma FramesHaveTheirEffect(version: u8, me: u32, mac: Mac, n: N.Node, ms: seq<V.Member>, s: N.SetupPkt,
                              t: N.TeardownPkt, dst: u32)
    requires |s.vset| <= UINT_MAX && |t.vset| <= UINT_MAX
    ensures FrameEffect(me, mac, n, ms, s.from, F.SetupFrame(version, s)) == SetupEffect(me, mac, n, ms, s)
    ensures FrameEffect(me, mac, n, ms, t.from, F.TeardownFrame(version, t, dst)) == TeardownEffect(me, n, ms, t)
  {
    F.SetupIsDecoded(version, s);
    F.TeardownIsDecoded(version, t, dst);
    hide W.ParseHeader, F.DecodeSetup, F.DecodeTeardown, F.SetupFrame, F.TeardownFrame, Removed, V.Joined, Asked;
  }

  /** Data, hellos and what is no packet leave the virtual set alone. */
  lemma OtherFramesHaveNone(me: u32, mac: Mac, n: N.Node, ms: seq<V.Member>, from: Mac, frame: seq<u8>)
    requires |frame| < W.HEADER_SIZE || W.ParseHeader(frame).pktType !in {2, 3, 4, 5}
    ensures FrameEffect(me, mac, n, ms, from, frame) == VsetEffect(ms, [])
  {
  }

  // ---- Packets in the order of sending ----

  datatype Sent = SentSetup(s: N.SetupPkt) | SentTeardown(t: N.TeardownPkt, dst: u32)

  predicate Sizable(x: Sent) {
    match x
    case SentSetup(s) => |s.vset| <= UINT_MAX
    case SentTeardown(t, _) => |t.vset| <= UINT_MAX
  }

  function FrameOf(version: u8, x: Sent): seq<u8>
    requires Sizable(x)
  {
    match x
    case SentSetup(s) => F.SetupFrame(version, s)
    case SentTeardown(t, dst) => F.TeardownFrame(version, t, dst)
  }

  function SetupsOf(sent: seq<Sent>): multiset<N.SetupPkt> {
    if sent == [] then multiset{}
    else
      var x := sent[|sent| - 1];
      SetupsOf(sent[..|sent| - 1]) + if x.SentSetup? then multiset{x.s} else multiset{}
  }

  function TeardownsOf(sent: seq<Sent>): multiset<N.TeardownPkt> {
    if sent == [] then multiset{}
    else
      var x := sent[|sent| - 1];
      TeardownsOf(sent[..|sent| - 1]) + if x.SentTeardown? then multiset{x.t} else multiset{}
  }

  lemma OneMoreSent(sent: seq<Sent>, x: Sent)
    ensures SetupsOf(sent + [x]) == SetupsOf(sent) + if x.SentSetup? then multiset{x.s} else multiset{}
    ensures TeardownsOf(sent + [x]) == TeardownsOf(sent) + if x.SentTeardown? then multiset{x.t} else multiset{}
  {
    assert (sent + [x])[..|sent|] == sent;
  }

  /** The frames are the encodings of these packets. */
  ghost predicate Encodes(version: u8, device: seq<seq<u8>>, sent: seq<Sent>) {
    |device| == |sent| && forall i | 0 <= i < |sent| :: Sizable(sent[i]) && device[i] == FrameOf(version, sent[i])
  }

  lemma OneMoreFrame(version: u8, device: seq<seq<u8>>, sent: seq<Sent>, frame: seq<u8>, x: Sent)
    requires Encodes(version, device, sent) && Sizable(x) && frame == FrameOf(version, x)
    ensures Encodes(version, device + [frame], sent + [x])
  {
    hide FrameOf, Sizable;
  }

  class Router {
    const me: u32
    const mac: Mac
    const version: u8
    const host: W.Host
    const tree: EndpointTree
    const nbr: Neighbours
    const vset: VsetTable
    var device: seq<seq<u8>>       // the frames of setups and teardowns
    var requests: seq<u32>         // the nodes to which paths were asked for
    ghost var sent: seq<Sent>
    ghost var torn: set<(u32, u32)>

    ghost predicate Valid()
      reads this, tree, nbr, nbr.la, nbr.lna, nbr.pend, vset
    {
      && tree.me == me && nbr.me == me && vset.me == me
      && tree.Valid() && nbr.Valid() && vset.Consistent()
      && Encodes(version, device, sent)
    }

    /** The node of the network that this state stands for. */
    ghost function Abs(): N.Node
      reads this, tree, nbr
    {
      N.Node(nbr.active, nbr.timeout, nbr.list, nbr.updates, Model(tree.root), torn)
    }

    ghost function Setups(): multiset<N.SetupPkt> reads this { SetupsOf(sent) }
    ghost function Teardowns(): multiset<N.TeardownPkt> reads this { TeardownsOf(sent) }

    constructor (me: u32, mac: Mac, version: u8, host: W.Host)
      ensures Valid() && Abs() == N.FRESH && this.me == me && this.mac == mac && this.version == version
      ensures device == [] && requests == [] && vset.list == []
      ensures fresh(tree) && fresh(nbr) && fresh(vset)
    {
      this.me, this.mac, this.version, this.host := me, mac, version, host;
      tree := new EndpointTree(me);
      nbr := new Neighbours(me);
      vset := new VsetTable(me);
      device, requests, sent, torn := [], [], [], {};
    }

    /** vrr_output of one frame. */
    method Transmit(frame: seq<u8>, ghost x: Sent)
      requires Valid() && Sizable(x) && frame == FrameOf(version, x)
      modifies this`device, this`sent
      ensures Valid() && Abs() == old(Abs())
      ensures Setups() == old(Setups()) + if x.SentSetup? then multiset{x.s} else multiset{}
      ensures Teardowns() == old(Teardowns()) + if x.SentTeardown? then multiset{x.t} else multiset{}
    {
      hide Encodes, SetupsOf, TeardownsOf, Model, Ordered, FrameOf, RoutingTable.Valid;
      OneMoreFrame(version, device, sent, frame, x);
      OneMoreSent(sent, x);
      device := device + [frame];
      sent := sent + [x];
    }

    /** send_setup: encode and hand to the device. */
    method SendSetup(to: u32, s: N.SetupPkt)
      requires Valid() && |s.vset| <= UINT_MAX
      modifies this`device, this`sent
      ensures Valid() && Setups() == old(Setups()) + N.SendSetup(Abs(), to, s) && Teardowns() == old(Teardowns())
    {
      hide Valid, Encodes, SetupsOf, TeardownsOf, Model, F.BodyFrame, PhysicalSet.MacOf;
      var m := nbr.GetMac(to);
      if m.Some? {
        var x := s.(to := m.value);
        var frame := F.EncodeFrame(host, version, x.src, x.dst, x.to, F.SetupBody(x));
        Transmit(frame, SentSetup(x));
      }
    }

    /** send_teardown: encode and hand to the device. */
    method SendTeardown(to: u32, t: N.TeardownPkt)
      requires Valid() && |t.vset| <= UINT_MAX
      modifies this`device, this`sent
      ensures Valid() && Teardowns() == old(Teardowns()) + N.SendTeardown(Abs(), to, t) && Setups() == old(Setups())
    {
      hide Valid, Encodes, SetupsOf, TeardownsOf, Model, F.BodyFrame, PhysicalSet.MacOf;
      var m := nbr.GetMac(to);
      if m.Some? {
        var x := t.(to := m.value);
        var frame := F.EncodeFrame(host, version, x.src, to, x.to, F.TeardownBody(x));
        Transmit(frame, SentTeardown(x, to));
      }
    }

    /** send_teardown to a hop, if there is one. */
    method Tell(to: u32, t: N.TeardownPkt)
      requires Valid() && |t.vset| <= UINT_MAX
      modifies this`device, this`sent
      ensures Valid() && Teardowns() == old(Teardowns()) + N.Tell(Abs(), to, t) && Setups() == old(Setups())
    {
      if to != 0 {
        SendTeardown(to, t);
      }
    }

    /** vrr_forward: the hardware address the frame is given, or none when it is dropped. */
    method Forward(dest: u32) returns (to: Option<Mac>)
      requires Valid()
      ensures to == N.ForwardAddress(me, Abs(), dest)
    {
      var nh := tree.GetNext(dest);
      if nh == 0 {
        return None;
      }
      to := nbr.GetMac(nh);
    }

    /** vrr_local_rcv_setup */
    method LocalRcvSetup(dst: u32, pid: u32, proxy: u32, ids: seq<u32>)
      requires Valid() && |ids| <= UINT_MAX
      modifies this`device, this`sent, tree
      ensures Valid()
      ensures var o := N.LocalSetup(me, mac, old(Abs()), dst, pid, proxy, ids);
              Abs() == o.node && Setups() == old(Setups()) + o.setups && Teardowns() == old(Teardowns()) + o.teardowns
    {
      hide AddRoute, NextHop, Model, Ordered, RoutingTable.Valid, PhysicalSet.StatusOf, Encodes, SetupsOf, TeardownsOf;
      var status := nbr.GetStatus(dst);
      var nh := dst;
      if status == Unknown {
        nh := tree.GetNext(proxy);
      }
      tree.Add(me, dst, me, nh, pid);
      if nh != 0 {
        SendSetup(nh, N.SetupPkt(me, dst, pid, proxy, ids, mac, 0));
      }
    }

    /** rt_remove_route, with the history of removals. */
    method RemoveEntry(ea: u32, pid: u32) returns (route: Option<Route>)
      requires Valid()
      modifies this`torn, tree
      ensures Valid() && route == Removed(old(Abs()).rt, ea, pid)
      ensures Abs() == old(Abs()).(rt := RemoveRoute(old(Abs()).rt, ea, pid),
                                   torn := old(torn) + if route.Some? then {(ea, pid)} else {})
    {
      hide RemoveRoute, Removed, Model, Ordered, RoutingTable.Valid, Encodes;
      route := tree.Remove(ea, pid);
      if route.Some? {
        torn := torn + {(ea, pid)};
      }
    }

    /** tear_down_path; the vset goes along only if a sender is given. */
    method TearDownPath(pid: u32, ea: u32, sender: u32)
      requires Valid() && (sender != 0 ==> |vset.list| <= UINT_MAX)
      modifies this`device, this`sent, this`torn, tree
      ensures Valid()
      ensures var o := N.TearDownPath(me, mac, old(Abs()), pid, ea, sender, V.Ids(vset.list));
              Abs() == o.node && Teardowns() == old(Teardowns()) + o.teardowns && Setups() == old(Setups())
                && o.setups == multiset{}
    {
      hide N.Tell, RemoveRoute, Removed, Model, Ordered, RoutingTable.Valid, Encodes, SetupsOf, TeardownsOf;
      var route := RemoveEntry(ea, pid);
      if route == None {
        return;
      }
      var r := route.value;
      var ids := [];
      if sender != 0 {
        var all := vset.GetAll();
        ids := all[..];
      }
      var t := N.TeardownPkt(me, ea, pid, ids, mac, 0);
      Tell(r.na, t);
      Tell(r.nb, t);
      Tell(sender, t);
      Regroup(old(Teardowns()), N.Tell(Abs(), r.na, t), N.Tell(Abs(), r.nb, t), N.Tell(Abs(), sender, t));
    }

    /** vrr_add on this node's virtual set. */
    method VrrAdd(src: u32, ids: seq<u32>) returns (added: bool)
      requires Valid()
      modifies this`requests, vset
      ensures Valid() && Abs() == old(Abs()) && (added <==> V.Admits(me, old(vset.list), src))
      ensures vset.list == V.Joined(me, old(vset.list), src)
      ensures requests == old(requests) + Asked(me, old(vset.list), ids, nbr.list)
    {
      hide Wanted, Model, Ordered, RoutingTable.Valid, Encodes, V.Add, V.ShouldAdd;
      var hasProxy := nbr.HasProxy();
      var targets;
      added, targets := vset.VrrAdd(src, ids, hasProxy);
      requests := requests + targets;
    }

    /** The hop to which a setup goes on. */
    method ChooseHop(dst: u32, proxy: u32) returns (nh: u32)
      requires Valid()
      ensures nh == N.SetupHop(me, Abs(), dst, proxy)
    {
      var status := nbr.GetStatus(dst);
      if status != Unknown {
        return dst;
      }
      if dst == me {
        return 0;
      }
      nh := tree.GetNext(proxy);
    }

    /** The end of vrr_rcv_setup at the end of the path. */
    method EndSetup(src: u32, ids: seq<u32>)
      requires Valid()
      modifies this`requests, nbr`active, vset
      ensures Valid() && Abs() == old(Abs()).(active := old(Abs()).active || V.Admits(me, old(vset.list), src))
      ensures vset.list == V.Joined(me, old(vset.list), src)
      ensures requests == old(requests) + Asked(me, old(vset.list), ids, nbr.list)
    {
      hide Model, Ordered, RoutingTable.Valid, Encodes, V.Joined, Asked, V.Admits;
      var added := VrrAdd(src, ids);
      if added {
        nbr.Activate();
      }
    }

    /** vrr_rcv_setup from the choice of the next hop on. */
    method PassSetup(s: N.SetupPkt, sender: u32)
      requires Valid()
      modifies this`device, this`sent, this`requests, tree, nbr`active, vset
      ensures Valid()
      ensures var o := N.PassSetup(me, mac, old(Abs()), s, sender, V.Admits(me, old(vset.list), s.src));
              Abs() == o.node && Setups() == old(Setups()) + o.setups && Teardowns() == old(Teardowns()) + o.teardowns
      ensures vset.list ==
              if N.SetupEnds(me, old(Abs()), s) then V.Joined(me, old(vset.list), s.src) else old(vset.list)
      ensures requests == old(requests)
                          + if N.SetupEnds(me, old(Abs()), s) then Asked(me, old(vset.list), s.vset, nbr.list) else []
    {
      hide AddRoute, N.SetupHop, Model, Ordered, RoutingTable.Valid, Encodes, SetupsOf, TeardownsOf, V.Joined;
      hide Asked, V.Admits;
      var nh := ChooseHop(s.dst, s.proxy);
      tree.Add(s.src, s.dst, sender, nh, s.pid);
      if |s.vset| > VRR_VSET_SIZE {
        return;
      }
      if nh != 0 {
        SendSetup(nh, s.(from := mac));
      } else {
        EndSetup(s.src, s.vset);
      }
    }

    /** vrr_rcv_setup from the lookup of the sender on. */
    method TakeSetup(s: N.SetupPkt)
      requires Valid()
      modifies this`device, this`sent, this`requests, this`torn, tree, nbr`active, vset
      ensures Valid()
      ensures var n := old(Abs());
              var o := match N.SenderOf(me, mac, n, s.from)
                       case None => N.TearDownPath(me, mac, n, s.pid, s.src, 0, [])
                       case Some(sender) => N.PassSetup(me, mac, n, s, sender, V.Admits(me, old(vset.list), s.src));
              Abs() == o.node && Setups() == old(Setups()) + o.setups && Teardowns() == old(Teardowns()) + o.teardowns
      ensures var ends := N.SenderOf(me, mac, old(Abs()), s.from) != None && N.SetupEnds(me, old(Abs()), s);
              && vset.list == (if ends then V.Joined(me, old(vset.list), s.src) else old(vset.list))
              && requests == old(requests) + (if ends then Asked(me, old(vset.list), s.vset, nbr.list) else [])
    {
      hide Valid, Abs, Setups, Teardowns, N.PassSetup, N.TearDownPath, N.SenderOf;
      hide N.SetupEnds, V.Joined, Asked, V.Admits;
      var sender := FindSender(s.from);
      match sender
      case None =>
        NoSenderNoVset(me, mac, Abs(), s.pid, s.src, V.Ids(vset.list));
        TearDownPath(s.pid, s.src, 0);
      case Some(u) => PassSetup(s, u);
    }

    /** vrr_rcv_setup, with the prologue of vrr_rcv. */
    method RcvSetup(s: N.SetupPkt)
      requires Valid()
      modifies this, tree, nbr`list, nbr`timeout, nbr`active, vset
      ensures Valid()
      ensures var o := N.RcvSetup(me, mac, old(Abs()), s, V.Admits(me, old(vset.list), s.src));
              Abs() == o.node && Setups() == old(Setups()) + o.setups && Teardowns() == old(Teardowns()) + o.teardowns
      ensures var x := SetupEffect(me, mac, old(Abs()), old(vset.list), s);
              vset.list == x.list && requests == old(requests) + x.asked
    {
      Prologue(s.src);
      hide Valid, Setups, Teardowns, N.PassSetup, N.TearDownPath, N.Accept, N.SenderOf;
      hide N.SetupEnds, V.Joined, Asked, V.Admits;
      TakeSetup(s);
    }

    /** The neighbour a frame came from, or this node itself. */
    method FindSender(from: Mac) returns (sender: Option<u32>)
      ensures sender == N.SenderOf(me, mac, Abs(), from)
    {
      if from == mac {
        return Some(me);
      }
      sender := nbr.FindMac(from);
    }

    /** vrr_workqueue_handler: the frame is the readable hello of the new state. */
    method Tick() returns (frame: seq<u8>)
      requires Valid()
      modifies nbr, nbr.la, nbr.lna, nbr.pend
      ensures Valid() && Abs() == N.Tick(old(Abs()))
      ensures var x := HelloOf(Abs().active, Abs().pset); W.Readable(x) && frame == F.HelloFrame(version, me, x)
    {
      hide PhysicalSet.Sweep, W.Words, HelloOf, Model, Ordered, RoutingTable.Valid, Encodes;
      var payload := nbr.Tick(host);
      frame := F.EncodeHello(version, me, payload, HelloOf(nbr.active, nbr.list));
    }

    /** vrr_rcv_hello, with the prologue of vrr_rcv, on the bytes of the payload. */
    method RcvHello(src: u32, from: Mac, payload: seq<u8>, ghost stamp: nat)
      requires Valid()
      modifies nbr
      ensures Valid()
      ensures match W.ParseHello(W.WordsOf(payload))
              case None => Abs() == N.Accept(old(Abs()), src)
              case Some(x) => W.Readable(x) && Abs() == N.RcvHello(me, old(Abs()), N.HelloPkt(src, x, from, stamp))
    {
      hide PhysicalSet.ResetFail, W.WordsOf, W.Says, Model, Ordered, RoutingTable.Valid, Encodes;
      nbr.Accept(src);
      var ok := nbr.RcvHello(host, src, from, payload);
    }

    /** One round of pset_update_handler. */
    method HandleRound() returns (request: bool)
      requires Valid() && nbr.updates != [] && PhysicalSet.Fits(PhysicalSet.ApplyUpdate(nbr.list, nbr.updates[0]))
      modifies nbr, nbr.la, nbr.lna, nbr.pend
      ensures Valid() && Abs() == N.Handle(old(Abs()))
      ensures request <==> WantsRequest(old(nbr.list), old(nbr.updates)[0], old(nbr.active))
    {
      hide PhysicalSet.ApplyUpdate, Model, Ordered, RoutingTable.Valid, Encodes;
      request := nbr.HandleOne(nbr.updates[0]);
      nbr.updates := nbr.updates[1..];
    }

    /** vrr_rcv_teardown at the end of the path: the endpoint leaves the set, and the ids that came
        along are offered. */
    method CutOffEndpoint(endpt: u32, ids: seq<u32>)
      requires Valid()
      modifies this`requests, vset
      ensures Valid() && Abs() == old(Abs())
      ensures vset.list == V.Joined(me, V.Without(old(vset.list), endpt), 0)
      ensures requests == old(requests) + Asked(me, V.Without(old(vset.list), endpt), ids, nbr.list)
    {
      hide Model, Ordered, RoutingTable.Valid, Encodes, V.Joined, Asked, V.Without, V.Admits;
      var found := vset.RemoveNode(endpt);
      var added := VrrAdd(0, ids);
    }

    /** vrr_rcv_teardown once the entry is removed: on to the other side, or end here. */
    method PassTeardown(t: N.TeardownPkt, r: Route)
      requires Valid()
      modifies this`device, this`sent, this`requests, vset
      ensures Valid() && Abs() == old(Abs()) && Setups() == old(Setups())
      ensures var (next, endpt) := if r.na == t.src then (r.nb, r.eb) else (r.na, r.ea);
              && Teardowns() == old(Teardowns())
                               + (if |t.vset| > VRR_VSET_SIZE || next == 0 then multiset{}
                                  else N.SendTeardown(Abs(), next, N.TeardownPkt(me, t.ea, t.pid, t.vset, mac, 0)))
              && vset.list == (if |t.vset| > VRR_VSET_SIZE || next != 0 then old(vset.list)
                               else V.Joined(me, V.Without(old(vset.list), endpt), 0))
              && requests == old(requests) + (if |t.vset| > VRR_VSET_SIZE || next != 0 then []
                                              else Asked(me, V.Without(old(vset.list), endpt), t.vset, nbr.list))
    {
      hide Encodes, SetupsOf, TeardownsOf, Model, Ordered, RoutingTable.Valid, V.Joined, Asked, V.Without;
      hide N.SendTeardown;
      var next, endpt := r.na, r.ea;
      if r.na == t.src {
        next, endpt := r.nb, r.eb;
      }
      if |t.vset| > VRR_VSET_SIZE {
        return;
      }
      if next != 0 {
        SendTeardown(next, N.TeardownPkt(me, t.ea, t.pid, t.vset, mac, 0));
      } else {
        CutOffEndpoint(endpt, t.vset);
      }
    }

    /** vrr_rcv_teardown, with the prologue of vrr_rcv. */
    method RcvTeardown(t: N.TeardownPkt)
      requires Valid()
      modifies this, tree, nbr`list, nbr`timeout, vset
      ensures Valid()
      ensures var o := N.RcvTeardown(me, mac, old(Abs()), t);
              Abs() == o.node && Teardowns() == old(Teardowns()) + o.teardowns && Setups() == old(Setups()) + o.setups
      ensures var x := TeardownEffect(me, old(Abs()), old(vset.list), t);
              vset.list == x.list && requests == old(requests) + x.asked
    {
      Prologue(t.src);
      hide Valid, Abs, Setups, Teardowns, RemoveRoute, Removed, PhysicalSet.ResetFail, N.SendTeardown;
      hide V.Joined, Asked, V.Without;
      var route := RemoveEntry(t.ea, t.pid);
      if route.Some? {
        PassTeardown(t, route.value);
      }
    }

    /** vrr_rcv: dispatch on the packet type of a received frame. */
    method RcvFrame(from: Mac, frame: seq<u8>)
      requires Valid()
      modifies this, tree, nbr, vset
      ensures Valid()
      ensures var o := F.Received(me, mac, old(Abs()), from, frame, V.Admits(me, old(vset.list), SourceOf(frame)));
              Abs() == o.node && Setups() == old(Setups()) + o.setups && Teardowns() == old(Teardowns()) + o.teardowns
      ensures var x := FrameEffect(me, mac, old(Abs()), old(vset.list), from, frame);
              vset.list == x.list && requests == old(requests) + x.asked
    {
      hide N.RcvSetup, N.RcvTeardown, N.RcvHello, N.Accept, Encodes, SetupsOf, TeardownsOf, Model, Ordered;
      hide RoutingTable.Valid;
      hide V.Admits, SetupEffect, TeardownEffect, W.WordsOf, W.ParseHello, W.ParseHeader, F.DecodeSetup;
      hide F.DecodeTeardown;
      if |frame| < W.HEADER_SIZE {
        return;
      }
      var hd := W.ParseHeader(frame);
      if hd.pktType >= 6 {
        return;
      }
      var payload := frame[W.HEADER_SIZE..];
      if hd.pktType == 1 {
        RcvHello(hd.src, from, payload, 0);
      } else if hd.pktType == 3 {
        RcvSetupFrame(hd, from, payload);
      } else if hd.pktType == 5 {
        RcvTeardownFrame(hd, from, payload);
      } else {
        Prologue(hd.src);
      }
    }

    /** The prologue of vrr_rcv alone. */
    method Prologue(src: u32)
      requires Valid()
      modifies nbr`list, nbr`timeout
      ensures Valid() && Abs() == N.Accept(old(Abs()), src)
    {
      nbr.Accept(src);
    }

    method RcvSetupFrame(hd: W.Header, from: Mac, payload: seq<u8>)
      requires Valid()
      modifies this, tree, nbr, vset
      ensures Valid()
      ensures var o := match F.DecodeSetup(hd, from, payload)
                       case None => N.Quietly(N.Accept(old(Abs()), hd.src))
                       case Some(s) => N.RcvSetup(me, mac, old(Abs()), s, V.Admits(me, old(vset.list), hd.src));
              Abs() == o.node && Setups() == old(Setups()) + o.setups && Teardowns() == old(Teardowns()) + o.teardowns
      ensures var x := match F.DecodeSetup(hd, from, payload)
                       case None => VsetEffect(old(vset.list), [])
                       case Some(s) => SetupEffect(me, mac, old(Abs()), old(vset.list), s);
              vset.list == x.list && requests == old(requests) + x.asked
    {
      hide N.RcvSetup, N.Accept, Encodes, SetupsOf, TeardownsOf, Model, Ordered, RoutingTable.Valid, V.Admits;
      hide SetupEffect;
      var s := F.ReadSetup(host, hd, from, payload);
      if s == None {
        Prologue(hd.src);
      } else {
        RcvSetup(s.value);
      }
    }

    method RcvTeardownFrame(hd: W.Header, from: Mac, payload: seq<u8>)
      requires Valid()
      modifies this, tree, nbr, vset
      ensures Valid()
      ensures var o := match F.DecodeTeardown(hd, from, payload)
                       case None => N.Quietly(N.Accept(old(Abs()), hd.src))
                       case Some(t) => N.RcvTeardown(me, mac, old(Abs()), t);
              Abs() == o.node && Setups() == old(Setups()) + o.setups && Teardowns() == old(Teardowns()) + o.teardowns
      ensures var x := match F.DecodeTeardown(hd, from, payload)
                       case None => VsetEffect(old(vset.list), [])
                       case Some(t) => TeardownEffect(me, old(Abs()), old(vset.list), t);
              vset.list == x.list && requests == old(requests) + x.asked
    {
      hide N.RcvTeardown, N.Accept, Encodes, SetupsOf, TeardownsOf, Model, Ordered, RoutingTable.Valid, TeardownEffect;
      var t := F.ReadTeardown(host, hd, from, payload);
      if t == None {
        Prologue(hd.src);
      } else {
        RcvTeardown(t.value);
      }
    }
  }

  /** The source named in the header of a frame. */
  function SourceOf(frame: seq<u8>): u32 {
    if |frame| < W.HEADER_SIZE then 0 else W.ParseHeader(frame).src
  }

  /** Without a sender no vset goes along. */
  lemma NoSenderNoVset(me: u32, mac: Mac, n: N.Node, pid: u32, ea: u32, ids: seq<u32>)
    ensures N.TearDownPath(me, mac, n, pid, ea, 0, ids) == N.TearDownPath(me, mac, n, pid, ea, 0, [])
  {
  }

  lemma Regroup(a: multiset<N.TeardownPkt>, b: multiset<N.TeardownPkt>, c: multiset<N.TeardownPkt>,
      d: multiset<N.TeardownPkt>)
    ensures a + b + c + d == a + (b + c + d)
  {
  }
}
