/** The handshake inside running networks: two nodes whose hellos reach each other, each sent by a
    tick that sweeps first, in whatever order they cross, end up linked whatever else happens. */
module HandshakeRuns {
  import opened Types
  import opened PhysicalSet
  import opened NeighbourTable
  import opened Network
  import W = Wire
  import S = SilenceAges
  import H = Handshake
  import C = CrossingHellos

  // ---- What a node knows of one neighbour ----

  function FailOf(ps: Pset, peer: u32): nat {
    if Contains(ps, peer) then ps[IndexOf(ps, peer)].fail else 0
  }

  /** What the queued updates about a node say, in order. */
  function About(us: seq<Update>, peer: u32): seq<Trans> {
    if us == [] then [] else (if us[0].node == peer then [us[0].trans] else []) + About(us[1..], peer)
  }

  lemma {:induction false} AboutAppend(us: seq<Update>, u: Update, peer: u32)
    ensures About(us + [u], peer) == About(us, peer) + if u.node == peer then [u.trans] else []
  {
    if us == [] {
      assert us + [u] == [u] && [u][1..] == [];
    } else {
      assert (us + [u])[1..] == us[1..] + [u] && (us + [u])[0] == us[0];
      AboutAppend(us[1..], u, peer);
      var first := if us[0].node == peer then [us[0].trans] else [];
      assert About(us + [u], peer) == first + About(us[1..] + [u], peer);
    }
  }

  datatype View = View(status: Status, fail: nat, about: seq<Trans>)

  function ViewOf(n: Node, peer: u32): View {
    View(StatusOf(n.pset, peer), FailOf(n.pset, peer), About(n.updates, peer))
  }

  lemma ResetView(ps: Pset, src: u32, peer: u32)
    requires Valid(ps)
    ensures Valid(ResetFail(ps, src)) && StatusOf(ResetFail(ps, src), peer) == StatusOf(ps, peer)
    ensures FailOf(ResetFail(ps, src), peer) == if src == peer then 0 else FailOf(ps, peer)
  {
    ResetKeepsValid(ps, src);
    SameIndex(ps, ResetFail(ps, src), peer);
  }

  lemma UpdateView(ps: Pset, u: Update, peer: u32)
    requires Valid(ps)
    ensures Valid(ApplyUpdate(ps, u)) && FailOf(ApplyUpdate(ps, u), peer) == FailOf(ps, peer)
    ensures StatusOf(ApplyUpdate(ps, u), peer)
            == if u.node == peer then HelloTrans(StatusOf(ps, peer), u.trans) else StatusOf(ps, peer)
  {
    UpdateKeepsValid(ps, u);
    var ps' := ApplyUpdate(ps, u);
    if Contains(ps, u.node) {
      SameIndex(ps, ps', peer);
    } else {
      assert ps'[1..] == ps;
    }
  }

  lemma SweepView(ps: Pset, peer: u32)
    requires Valid(ps)
    ensures Valid(Sweep(ps))
    ensures FailOf(ps, peer) + 1 < VRR_FAIL_TIMEOUT ==>
              StatusOf(Sweep(ps), peer) == StatusOf(ps, peer) && FailOf(Sweep(ps), peer) <= FailOf(ps, peer) + 1
  {
    SweepKeepsValid(ps);
    SweepAges(ps);
    if Contains(ps, peer) {
      S.SweepDecides(ps, peer);
    }
  }

  // ---- Hellos between the two ----

  /** The latest hello of a node to the other: none to be received, sent, or received and waiting to
      be handled. */
  datatype Post = Nothing | Flying(h: HelloPkt) | Waiting

  /** One node of the two: its hello to the other, whether it has received one of the other, and how
      often it has ticked since then, or since the beginning. */
  datatype Side = Side(post: Post, heard: bool, ticks: nat)

  /** Both nodes, and the rounds so far. */
  datatype Course = Course(a: Side, b: Side, done: Option<H.Direction>, rounds: nat)

  const BEGINNING := Course(Side(Nothing, false, 0), Side(Nothing, false, 0), None, 0)

  function SideOf(c: Course, d: H.Direction): Side { if d == H.AtoB then c.a else c.b }

  function WithSide(c: Course, d: H.Direction, s: Side): Course { if d == H.AtoB then c.(a := s) else c.(b := s) }

  /** What a step has to do with the two. */
  datatype Concern = Ticks(d: H.Direction) | Receives(d: H.Direction) | Handles(d: H.Direction) | Aside

  function ConcernOf(net: Net, st: Step, a: u32, b: u32): Concern
    requires Enabled(net, st)
  {
    match st
    case TickStep(at) =>
      if at == a then Ticks(H.AtoB) else if at == b then Ticks(H.BtoA) else Aside
    case DeliverHello(at, h) =>
      if at == b && h.src == a then Receives(H.AtoB) else if at == a && h.src == b then Receives(H.BtoA) else Aside
    case HandleStep(at) =>
      var about := net.nodes[at].updates[0].node;
      if at == b && about == a then Handles(H.AtoB) else if at == a && about == b then Handles(H.BtoA) else Aside
    case _ => Aside
  }

  /** A tick sends a new hello, which takes the place of one that was not received; while one waits
      to be handled, the new one is lost. */
  function Advance(net: Net, st: Step, a: u32, b: u32, c: Course): Course
    requires Enabled(net, st)
  {
    match ConcernOf(net, st, a, b)
    case Ticks(d) =>
      var s := SideOf(c, d);
      var post := if s.post.Waiting? then Waiting else Flying(TickHello(net, st.at));
      WithSide(c, d, Side(post, s.heard, s.ticks + 1))
    case Receives(d) =>
      var s, r := SideOf(c, d), SideOf(c, C.Back(d));
      WithSide(WithSide(c, d, s.(post := Waiting)), C.Back(d), Side(r.post, true, 0))
    case Handles(d) =>
      var e := C.Handle(d);
      WithSide(c, d, SideOf(c, d).(post := Nothing)).(
        done := C.DoneAfter(c.done, e), rounds := c.rounds + if C.EndsRound(c.done, e) then 1 else 0)
    case Aside => c
  }

  /** A node's second tick comes after it has received a hello of the other, and so does every fourth
      in a row; only the latest hello of a node is received, once, readable, and when the one before
      it has been handled. */
  ghost predicate InOrder(net: Net, st: Step, a: u32, b: u32, c: Course)
    requires Enabled(net, st)
  {
    match ConcernOf(net, st, a, b)
    case Ticks(d) => var s := SideOf(c, d); if s.heard then s.ticks + 1 < VRR_FAIL_TIMEOUT else s.ticks == 0
    case Receives(d) => SideOf(c, d).post == Flying(st.h) && W.Readable(st.h.content)
    case _ => true
  }

  ghost function CourseOf(net: Net, steps: seq<Step>, a: u32, b: u32): Course
    requires Legal(net, steps)
  {
    if steps == [] then BEGINNING
    else
      var before := steps[..|steps| - 1];
      Advance(Exec(net, before), steps[|steps| - 1], a, b, CourseOf(net, before, a, b))
  }

  /** Every step of the run that concerns the two is in order; all others are free. */
  ghost predicate Orderly(net: Net, steps: seq<Step>, a: u32, b: u32)
    requires Legal(net, steps)
  {
    if steps == [] then true
    else
      var before := steps[..|steps| - 1];
      Orderly(net, before, a, b) && InOrder(Exec(net, before), steps[|steps| - 1], a, b, CourseOf(net, before, a, b))
  }

  // ---- The invariant, on the two views ----

  /** What the hello under way says to its receiver. */
  function Said(post: Post, about: seq<Trans>, receiver: u32): Option<Trans> {
    match post
    case Nothing => None
    case Flying(h) => Some(W.Says(h.content, receiver))
    case Waiting => if about == [] then None else Some(about[0])
  }

  function TalkOf(va: View, vb: View, a: u32, b: u32, c: Course): C.Talk {
    C.Talk(H.Pair(va.status, vb.status), Said(c.a.post, vb.about, b), Said(c.b.post, va.about, a))
  }

  /** A node that has neither ticked nor received anything yet: its next sweep may still surprise. */
  predicate Silent(s: Side) {
    !s.heard && s.ticks == 0
  }

  /** One side of the invariant: ages are bounded by ticks, the queue of the other node holds the
      waiting hello and no other, and before a node's first tick nothing has happened to the other. */
  predicate SideHolds(mine: View, other: View, me: u32, c: Course, s: Side, o: Side) {
    && (s.heard ==> mine.fail <= s.ticks)
    && (if s.post.Waiting? then |other.about| == 1 && o.heard else other.about == [])
    && (Silent(s) ==> && s.post == Nothing && c.rounds == 0 && c.done == None
                      && !C.Stale(Said(o.post, mine.about, me), other.status))
  }

  predicate Paid(t: C.Talk, c: Course) {
    C.Possible(t) && (C.Owed(t, c.done) == 0 || c.rounds + C.Owed(t, c.done) <= 6)
  }

  predicate Holds(va: View, vb: View, a: u32, b: u32, c: Course) {
    && SideHolds(va, vb, a, c, c.a, c.b) && SideHolds(vb, va, b, c, c.b, c.a)
    && Paid(TalkOf(va, vb, a, b, c), c)
  }

  // ---- How each kind of step moves the views ----

  /** Nothing but a younger age. */
  predicate Unmoved(v: View, v': View) {
    v' == v.(fail := v'.fail) && v'.fail <= v.fail
  }

  lemma AsideKeeps(va: View, vb: View, va': View, vb': View, a: u32, b: u32, c: Course)
    requires Holds(va, vb, a, b, c) && Unmoved(va, va') && Unmoved(vb, vb')
    ensures Holds(va', vb', a, b, c)
  {
    hide C.Possible, C.Owed;
    assert TalkOf(va', vb', a, b, c) == TalkOf(va, vb, a, b, c);
  }

  /** The sweep of a tick: harmless below the threshold. */
  predicate Swept(v: View, v': View) {
    v'.about == v.about && (v.fail + 1 < VRR_FAIL_TIMEOUT ==> v'.status == v.status && v'.fail <= v.fail + 1)
  }

  /** A tick of a. Its hello says what a then holds. */
  lemma TickKeeps(va: View, vb: View, va': View, a: u32, b: u32, c: Course, h: HelloPkt, c': Course)
    requires Holds(va, vb, a, b, c) && Swept(va, va') && W.Says(h.content, b) == H.Meaning(va'.status)
    requires if c.a.heard then c.a.ticks + 1 < VRR_FAIL_TIMEOUT else c.a.ticks == 0
    requires c' == c.(a := Side(if c.a.post.Waiting? then Waiting else Flying(h), c.a.heard, c.a.ticks + 1))
    ensures Holds(va', vb, a, b, c')
  {
    var t, t' := TalkOf(va, vb, a, b, c), TalkOf(va', vb, a, b, c');
    if Silent(c.a) {
      assert t'.ab == Some(H.Meaning(va'.status)) && !C.Stale(t'.ba, vb.status);
      FreshIsPaid(t', c');
    } else {
      hide C.Possible, C.Owed;
      if c.a.post.Waiting? {
        assert t' == t;
      } else {
        assert t' == C.Next(t, C.Send(H.AtoB));
        C.StepPays(t, c.done, C.Send(H.AtoB));
      }
    }
  }

  lemma FreshIsPaid(t: C.Talk, c: Course)
    requires !C.Stale(t.ab, t.p.a) && !C.Stale(t.ba, t.p.b) && c.rounds == 0 && c.done == None
    ensures Paid(t, c)
  {
  }

  /** b receives the hello of a. */
  lemma ReceiveKeeps(va: View, vb: View, vb': View, a: u32, b: u32, c: Course, h: HelloPkt, c': Course)
    requires Holds(va, vb, a, b, c) && c.a.post == Flying(h)
    requires vb' == View(vb.status, 0, vb.about + [W.Says(h.content, b)])
    requires c' == c.(a := c.a.(post := Waiting), b := Side(c.b.post, true, 0))
    ensures Holds(va, vb', a, b, c')
  {
    hide C.Possible, C.Owed;
    assert TalkOf(va, vb', a, b, c') == TalkOf(va, vb, a, b, c);
  }

  /** b handles the hello of a. */
  lemma HandleKeeps(va: View, vb: View, vb': View, a: u32, b: u32, c: Course, c': Course)
    requires Holds(va, vb, a, b, c) && vb.about != []
    requires vb' == View(HelloTrans(vb.status, vb.about[0]), vb.fail, vb.about[1..])
    requires var e := C.Handle(H.AtoB);
             c' == c.(a := c.a.(post := Nothing), done := C.DoneAfter(c.done, e),
                      rounds := c.rounds + if C.EndsRound(c.done, e) then 1 else 0)
    ensures Holds(va, vb', a, b, c')
  {
    hide C.Possible, C.Owed, HelloTrans;
    var t := TalkOf(va, vb, a, b, c);
    assert TalkOf(va, vb', a, b, c') == C.Next(t, C.Handle(H.AtoB));
    C.StepPays(t, c.done, C.Handle(H.AtoB));
  }

  // ---- The other direction is the same with the two exchanged ----

  function Mirror(c: Course): Course { Course(c.b, c.a, C.SwapDone(c.done), c.rounds) }

  lemma MirrorHolds(va: View, vb: View, a: u32, b: u32, c: Course)
    ensures Holds(vb, va, b, a, Mirror(c)) == Holds(va, vb, a, b, c)
  {
    C.SwapOwes(TalkOf(va, vb, a, b, c), c.done);
    assert TalkOf(vb, va, b, a, Mirror(c)) == C.Swap(TalkOf(va, vb, a, b, c));
    hide C.Possible, C.Owed;
  }

  lemma MirrorAdvance(net: Net, st: Step, a: u32, b: u32, c: Course)
    requires Enabled(net, st) && a != b
    ensures Advance(net, st, b, a, Mirror(c)) == Mirror(Advance(net, st, a, b, c))
    ensures InOrder(net, st, b, a, Mirror(c)) == InOrder(net, st, a, b, c)
    ensures match ConcernOf(net, st, a, b)
            case Ticks(d) => ConcernOf(net, st, b, a) == Ticks(C.Back(d))
            case Receives(d) => ConcernOf(net, st, b, a) == Receives(C.Back(d))
            case Handles(d) => ConcernOf(net, st, b, a) == Handles(C.Back(d))
            case Aside => ConcernOf(net, st, b, a) == Aside
  {
    hide TickHello;
  }

  // ---- The invariant over steps and runs ----

  ghost predicate Talking(net: Net, a: u32, b: u32, c: Course) {
    && a != b && a in net.nodes && b in net.nodes && net.nodes.Keys == net.mac.Keys
    && Valid(net.nodes[a].pset) && Valid(net.nodes[b].pset)
    && Holds(ViewOf(net.nodes[a], b), ViewOf(net.nodes[b], a), a, b, c)
  }

  /** The step of one node, and what it leaves alone. */
  lemma OnlyAt(net: Net, st: Step)
    requires Enabled(net, st) && !ByChannel(st) && net.nodes.Keys == net.mac.Keys
    ensures var at := Actor(st);
            && at in net.nodes && at in net.mac && (st.HandleStep? ==> net.nodes[at].updates != [])
            && Apply(net, st).nodes == net.nodes[at := Act(at, net.mac[at], net.nodes[at], st).node]
            && Apply(net, st).mac == net.mac
  {
    StepFrame(net, st);
  }

  /** The step at this node is not a tick, and neither receives nor handles a hello of the peer. */
  ghost predicate ElseThan(n: Node, st: Step, peer: u32) {
    && !st.TickStep?
    && (st.DeliverHello? ==> st.h.src != peer)
    && (st.HandleStep? ==> n.updates != [] && n.updates[0].node != peer)
  }

  lemma AsideAct(me: u32, mac: Mac, n: Node, st: Step, peer: u32)
    requires !ByChannel(st) && Valid(n.pset) && ElseThan(n, st, peer)
    ensures var n' := Act(me, mac, n, st).node; Valid(n'.pset) && Unmoved(ViewOf(n, peer), ViewOf(n', peer))
  {
    hide Sweep, HelloTrans, TearDownPath, PassSetup, StatusOf, FailOf, Valid, LocalSetup;
    if st.DeliverHello? {
      ResetView(n.pset, st.h.src, peer);
      if W.Readable(st.h.content) {
        AboutAppend(n.updates, Update(st.h.src, st.h.from, W.Says(st.h.content, me), st.h.content.active), peer);
      }
    } else if st.HandleStep? {
      UpdateView(n.pset, n.updates[0], peer);
    } else if st.DeliverOther? {
      ResetView(n.pset, st.src, peer);
    } else if st.DeliverSetup? {
      ResetView(n.pset, st.s.src, peer);
    } else if st.DeliverTeardown? {
      ResetView(n.pset, st.t.src, peer);
    }
  }

  lemma AsideStep(net: Net, st: Step, a: u32, b: u32, c: Course)
    requires Enabled(net, st) && Talking(net, a, b, c) && ConcernOf(net, st, a, b) == Aside
    ensures Talking(Apply(net, st), a, b, c)
  {
    StepFrame(net, st);
    var net' := Apply(net, st);
    if !ByChannel(st) {
      OnlyAt(net, st);
      var at := Actor(st);
      assert at == a ==> ElseThan(net.nodes[a], st, b);
      assert at == b ==> ElseThan(net.nodes[b], st, a);
      hide Act, Apply, Enabled, ConcernOf, ViewOf, ElseThan, Valid;
      if at == a {
        AsideAct(a, net.mac[a], net.nodes[a], st, b);
      } else if at == b {
        AsideAct(b, net.mac[b], net.nodes[b], st, a);
      }
    }
    hide Act, Apply, Enabled, ConcernOf, ViewOf, Valid;
    AsideKeeps(ViewOf(net.nodes[a], b), ViewOf(net.nodes[b], a), ViewOf(net'.nodes[a], b), ViewOf(net'.nodes[b], a),
      a, b, c);
  }

  lemma TickView(n: Node, peer: u32)
    requires Valid(n.pset)
    ensures Valid(Tick(n).pset) && Swept(ViewOf(n, peer), ViewOf(Tick(n), peer))
    ensures W.Says(HelloOf(Tick(n).active, Tick(n).pset), peer) == H.Meaning(ViewOf(Tick(n), peer).status)
  {
    SweepView(n.pset, peer);
    H.HelloSaysStatus(Tick(n).active, Tick(n).pset, peer);
  }

  lemma ReceiveView(me: u32, n: Node, h: HelloPkt)
    requires Valid(n.pset) && W.Readable(h.content)
    ensures var n' := RcvHello(me, n, h); var v := ViewOf(n, h.src);
            Valid(n'.pset) && ViewOf(n', h.src) == View(v.status, 0, v.about + [W.Says(h.content, me)])
  {
    ResetView(n.pset, h.src, h.src);
    AboutAppend(n.updates, Update(h.src, h.from, W.Says(h.content, me), h.content.active), h.src);
    hide StatusOf, FailOf, Valid, ResetFail;
  }

  lemma HandleView(n: Node, peer: u32)
    requires Valid(n.pset) && n.updates != [] && n.updates[0].node == peer
    ensures var n' := Network.Handle(n); var v := ViewOf(n, peer);
            Valid(n'.pset) && v.about != []
              && ViewOf(n', peer) == View(HelloTrans(v.status, v.about[0]), v.fail, v.about[1..])
  {
    UpdateView(n.pset, n.updates[0], peer);
    hide StatusOf, FailOf, Valid, ApplyUpdate, HelloTrans;
  }

  lemma TickForward(net: Net, st: Step, a: u32, b: u32, c: Course)
    requires Enabled(net, st) && Talking(net, a, b, c) && InOrder(net, st, a, b, c)
    requires ConcernOf(net, st, a, b) == Ticks(H.AtoB)
    ensures Talking(Apply(net, st), a, b, Advance(net, st, a, b, c))
  {
    hide Apply, ViewOf, Tick, Valid, HelloOf, Holds;
    OnlyAt(net, st);
    var na, nb := net.nodes[a], net.nodes[b];
    assert Apply(net, st).nodes == net.nodes[a := Tick(na)];
    hide Enabled, Act;
    TickView(na, b);
    TickKeeps(ViewOf(na, b), ViewOf(nb, a), ViewOf(Tick(na), b), a, b, c, TickHello(net, a), Advance(net, st, a, b, c));
  }

  lemma ReceiveForward(net: Net, st: Step, a: u32, b: u32, c: Course)
    requires Enabled(net, st) && Talking(net, a, b, c) && InOrder(net, st, a, b, c)
    requires ConcernOf(net, st, a, b) == Receives(H.AtoB)
    ensures Talking(Apply(net, st), a, b, Advance(net, st, a, b, c))
  {
    hide Apply, ViewOf, RcvHello, Valid, W.Readable, Holds;
    OnlyAt(net, st);
    var na, nb := net.nodes[a], net.nodes[b];
    assert Apply(net, st).nodes == net.nodes[b := RcvHello(b, nb, st.h)];
    hide Enabled, Act;
    ReceiveView(b, nb, st.h);
    ReceiveKeeps(ViewOf(na, b), ViewOf(nb, a), ViewOf(RcvHello(b, nb, st.h), a), a, b, c, st.h,
      Advance(net, st, a, b, c));
  }

  lemma HandleForward(net: Net, st: Step, a: u32, b: u32, c: Course)
    requires Enabled(net, st) && Talking(net, a, b, c) && ConcernOf(net, st, a, b) == Handles(H.AtoB)
    ensures Talking(Apply(net, st), a, b, Advance(net, st, a, b, c))
  {
    hide Apply, ViewOf, Network.Handle, Valid, HelloTrans, Holds;
    OnlyAt(net, st);
    var na, nb := net.nodes[a], net.nodes[b];
    assert Apply(net, st).nodes == net.nodes[b := Network.Handle(nb)];
    hide Enabled, Act;
    HandleView(nb, a);
    HandleKeeps(ViewOf(na, b), ViewOf(nb, a), ViewOf(Network.Handle(nb), a), a, b, c, Advance(net, st, a, b, c));
  }

  /** Steps that concern the hello of a to b. */
  lemma ForwardStep(net: Net, st: Step, a: u32, b: u32, c: Course)
    requires Enabled(net, st) && Talking(net, a, b, c) && InOrder(net, st, a, b, c)
    requires ConcernOf(net, st, a, b) in {Ticks(H.AtoB), Receives(H.AtoB), Handles(H.AtoB)}
    ensures Talking(Apply(net, st), a, b, Advance(net, st, a, b, c))
  {
    hide Apply, Talking, InOrder, Enabled, Advance;
    match ConcernOf(net, st, a, b)
    case Ticks(d) => TickForward(net, st, a, b, c);
    case Receives(d) => ReceiveForward(net, st, a, b, c);
    case Handles(d) => HandleForward(net, st, a, b, c);
  }

  lemma StepKeepsTalking(net: Net, st: Step, a: u32, b: u32, c: Course)
    requires Enabled(net, st) && Talking(net, a, b, c) && InOrder(net, st, a, b, c)
    ensures Talking(Apply(net, st), a, b, Advance(net, st, a, b, c))
  {
    var k := ConcernOf(net, st, a, b);
    MirrorAdvance(net, st, a, b, c);
    if k == Aside {
      AsideStep(net, st, a, b, c);
    } else if k.d == H.AtoB {
      ForwardStep(net, st, a, b, c);
    } else {
      MirrorHolds(ViewOf(net.nodes[a], b), ViewOf(net.nodes[b], a), a, b, c);
      ForwardStep(net, st, b, a, Mirror(c));
      var net' := Apply(net, st);
      MirrorHolds(ViewOf(net'.nodes[a], b), ViewOf(net'.nodes[b], a), a, b, Advance(net, st, a, b, c));
    }
    hide Holds, ViewOf, Apply, Enabled, InOrder, Valid;
  }

  lemma {:induction false} ConversationHolds(net: Net, steps: seq<Step>, a: u32, b: u32)
    requires Legal(net, steps) && Talking(net, a, b, BEGINNING) && Orderly(net, steps, a, b)
    ensures Talking(Exec(net, steps), a, b, CourseOf(net, steps, a, b))
  {
    hide Talking, InOrder, Apply, Enabled, Advance;
    if steps != [] {
      var before := steps[..|steps| - 1];
      ConversationHolds(net, before, a, b);
      StepKeepsTalking(Exec(net, before), steps[|steps| - 1], a, b, CourseOf(net, before, a, b));
    }
  }

  /** No hello of the other is waiting to be handled at either node. */
  ghost predicate NothingQueued(net: Net, a: u32, b: u32) {
    a in net.nodes && b in net.nodes && About(net.nodes[a].updates, b) == [] && About(net.nodes[b].updates, a) == []
  }

  lemma StartsTalking(net: Net, past: seq<Step>, a: u32, b: u32)
    requires Init(net) && Legal(net, past) && a != b && NothingQueued(Exec(net, past), a, b)
    ensures Talking(Exec(net, past), a, b, BEGINNING)
  {
    S.SilenceAgesAreExact(net, past);
    RunKeepsTopology(net, past);
    var now := Exec(net, past);
    assert S.Exact(now.log, a, now.nodes[a].pset) && S.Exact(now.log, b, now.nodes[b].pset);
    FreshIsPaid(TalkOf(ViewOf(now.nodes[a], b), ViewOf(now.nodes[b], a), a, b, BEGINNING), BEGINNING);
  }

  /** Convergence in the running network. From any state that a run reaches, with no hello between the
      two waiting to be handled, let the two receive the latest hellos of each other in six rounds;
      each hello is sent by a tick, which sweeps first. Hellos may cross and be lost, and every step
      that does not concern the two is free. Then they hold each other linked. Only the first sweep
      of each can disturb them. */
  lemma NetworkConverges(net: Net, past: seq<Step>, steps: seq<Step>, a: u32, b: u32)
    requires Init(net) && Legal(net, past) && a != b && NothingQueued(Exec(net, past), a, b)
    requires Legal(Exec(net, past), steps) && Orderly(Exec(net, past), steps, a, b)
    requires CourseOf(Exec(net, past), steps, a, b).rounds >= 6
    ensures var now := Exec(Exec(net, past), steps);
            && a in now.nodes && b in now.nodes
            && StatusOf(now.nodes[a].pset, b) == StatusOf(now.nodes[b].pset, a) == Linked
  {
    hide Legal, Exec, Orderly, CourseOf, StatusOf, Valid, About, FailOf;
    StartsTalking(net, past, a, b);
    ConversationHolds(Exec(net, past), steps, a, b);
  }
}
