/** The failure detector: over every run a neighbour's fail count is exactly the number of sweeps
    it has been silent, and only the eighth silent sweep removes it. */
module SilenceAges {
  import opened Types
  import opened PhysicalSet
  import opened Network

  /** Sweeps at v since v added n or last accepted a packet bearing n's id. */
  ghost function Silent(log: seq<Record>, v: u32, n: u32): nat {
    if log == [] then 0
    else
      var rest, r := log[..|log| - 1], log[|log| - 1];
      if r.at != v then Silent(rest, v, n)
      else match r
        case Ticked(_) => 1 + Silent(rest, v, n)
        case Heard(_, src, _) => if src == n then 0 else Silent(rest, v, n)
        case Accepted(_, src) => if src == n then 0 else Silent(rest, v, n)
        case Joined(_, node) => if node == n then 0 else Silent(rest, v, n)
        case Sent(_) => Silent(rest, v, n)
  }

  /** One entry per neighbour, each with its exact age, all below the second threshold. */
  ghost predicate Exact(log: seq<Record>, v: u32, ps: Pset) {
    && Valid(ps)
    && forall i | 0 <= i < |ps| :: ps[i].fail == Silent(log, v, ps[i].node) && ps[i].fail < 2 * VRR_FAIL_TIMEOUT
  }

  ghost predicate AgesExact(net: Net) {
    forall v | v in net.nodes :: Exact(net.log, v, net.nodes[v].pset)
  }

  lemma SilentAppend(log: seq<Record>, r: Record, v: u32, n: u32)
    ensures Silent(log + [r], v, n) ==
            if r.at != v then Silent(log, v, n)
            else match r
              case Ticked(_) => 1 + Silent(log, v, n)
              case Heard(_, src, _) => if src == n then 0 else Silent(log, v, n)
              case Accepted(_, src) => if src == n then 0 else Silent(log, v, n)
              case Joined(_, node) => if node == n then 0 else Silent(log, v, n)
              case Sent(_) => Silent(log, v, n)
  {
    assert (log + [r])[..|log|] == log;
  }

  lemma {:induction false} SilentElsewhere(log: seq<Record>, more: seq<Record>, v: u32, n: u32)
    requires forall i | 0 <= i < |more| :: more[i].at != v
    ensures Silent(log + more, v, n) == Silent(log, v, n)
  {
    if more == [] {
      assert log + more == log;
    } else {
      var k := |more| - 1;
      SilentElsewhere(log, more[..k], v, n);
      assert log + more == (log + more[..k]) + [more[k]];
      SilentAppend(log + more[..k], more[k], v, n);
    }
  }

  lemma ExactElsewhere(log: seq<Record>, more: seq<Record>, v: u32, ps: Pset)
    requires Exact(log, v, ps) && forall i | 0 <= i < |more| :: more[i].at != v
    ensures Exact(log + more, v, ps)
  {
    forall i | 0 <= i < |ps| ensures ps[i].fail == Silent(log + more, v, ps[i].node) {
      SilentElsewhere(log, more, v, ps[i].node);
    }
  }

  /** Accepting a packet that bears a neighbour's id resets its age. */
  lemma AcceptIsExact(log: seq<Record>, v: u32, ps: Pset, src: u32, r: Record)
    requires Exact(log, v, ps) && r.at == v
    requires (r.Heard? && r.src == src) || (r.Accepted? && r.src == src)
    ensures Exact(log + [r], v, ResetFail(ps, src))
  {
    ResetKeepsValid(ps, src);
    var ps' := ResetFail(ps, src);
    forall i | 0 <= i < |ps'| ensures ps'[i].fail == Silent(log + [r], v, ps'[i].node) {
      SilentAppend(log, r, v, ps'[i].node);
      if ps[i].node == src {
        Found(ps, i);
      }
    }
  }

  lemma SilentAfterTick(log: seq<Record>, v: u32, n: u32)
    ensures Silent(log + [Ticked(v), Sent(v)], v, n) == 1 + Silent(log, v, n)
  {
    SilentAppend(log, Ticked(v), v, n);
    SilentAppend(log + [Ticked(v)], Sent(v), v, n);
    assert log + [Ticked(v), Sent(v)] == (log + [Ticked(v)]) + [Sent(v)];
  }

  lemma TickIsExact(log: seq<Record>, v: u32, ps: Pset)
    requires Exact(log, v, ps)
    ensures Exact(log + [Ticked(v), Sent(v)], v, Sweep(ps))
  {
    SweepKeepsValid(ps);
    SweepAges(ps);
    forall i | 0 <= i < |Sweep(ps)|
      ensures var e := Sweep(ps)[i];
              e.fail == Silent(log + [Ticked(v), Sent(v)], v, e.node) && e.fail < 2 * VRR_FAIL_TIMEOUT
    {
      var e := Sweep(ps)[i];
      assert e in Sweep(ps);
      var k :| 0 <= k < |ps| && !Expires(ps[k]) && e == Age(ps[k]);
      SilentAfterTick(log, v, e.node);
    }
  }

  lemma HandleIsExact(log: seq<Record>, n: Node, st: Step)
    requires st.HandleStep? && n.updates != [] && Exact(log, st.at, n.pset)
    ensures Exact(log + Recorded(n, st), st.at, Handle(n).pset)
  {
    var u, ps, ps' := n.updates[0], n.pset, Handle(n).pset;
    UpdateKeepsValid(ps, u);
    var k := IndexOf(ps, u.node);
    if k == |ps| {
      forall i | 0 <= i < |ps'| ensures ps'[i].fail == Silent(log + Recorded(n, st), st.at, ps'[i].node) {
        SilentAppend(log, Joined(st.at, u.node), st.at, ps'[i].node);
        if i > 0 {
          assert ps'[i] == ps[i - 1];
        }
      }
    } else {
      assert ps[k].status != Unknown;
      assert log + Recorded(n, st) == log;
    }
  }

  lemma ActIsExact(log: seq<Record>, me: u32, mac: Mac, n: Node, st: Step)
    requires Exact(log, me, n.pset) && !ByChannel(st) && Actor(st) == me && (st.HandleStep? ==> n.updates != [])
    ensures Exact(log + Recorded(n, st), me, Act(me, mac, n, st).node.pset)
  {
    if st.TickStep? {
      TickIsExact(log, me, n.pset);
    } else if st.HandleStep? {
      HandleIsExact(log, n, st);
    } else if st.DeliverHello? {
      AcceptIsExact(log, me, n.pset, st.h.src, Recorded(n, st)[0]);
    } else if st.DeliverOther? {
      AcceptIsExact(log, me, n.pset, st.src, Accepted(me, st.src));
    } else if st.DeliverSetup? {
      AcceptIsExact(log, me, n.pset, st.s.src, Accepted(me, st.s.src));
    } else if st.DeliverTeardown? {
      AcceptIsExact(log, me, n.pset, st.t.src, Accepted(me, st.t.src));
    } else {
      assert log + Recorded(n, st) == log;
    }
  }

  lemma StepKeepsAges(net: Net, st: Step)
    requires AgesExact(net) && Enabled(net, st)
    ensures AgesExact(Apply(net, st))
  {
    hide Act, Apply, Recorded, Exact;
    assert st.HandleStep? ==> net.nodes[st.at].updates != [];
    hide Enabled;
    StepFrame(net, st);
    if !ByChannel(st) {
      var at := Actor(st);
      RecordedAt(net.nodes[at], st);
      ActIsExact(net.log, at, net.mac[at], net.nodes[at], st);
      forall v | v in Apply(net, st).nodes && v != at
        ensures Exact(Apply(net, st).log, v, Apply(net, st).nodes[v].pset)
      {
        ExactElsewhere(net.log, Recorded(net.nodes[at], st), v, net.nodes[v].pset);
      }
    }
  }

  /** Over every run, each neighbour's fail count is the number of sweeps since it was added or
      last heard of, and is at most 7 between sweeps. */
  lemma {:induction false} SilenceAgesAreExact(net: Net, steps: seq<Step>)
    requires Init(net) && Legal(net, steps)
    ensures AgesExact(Exec(net, steps))
  {
    if steps != [] {
      SilenceAgesAreExact(net, steps[..|steps| - 1]);
      StepKeepsAges(Exec(net, steps[..|steps| - 1]), steps[|steps| - 1]);
    }
  }

  /** Right after a sweep every neighbour silent for four sweeps or more is failed, and a
      neighbour is gone exactly if this was its eighth silent sweep. */
  lemma SweepMarksAndRemoves(net: Net, steps: seq<Step>, v: u32, n: u32)
    requires Init(net) && Legal(net, steps) && Enabled(Exec(net, steps), TickStep(v))
    requires Contains(Exec(net, steps).nodes[v].pset, n)
    ensures var now := Apply(Exec(net, steps), TickStep(v)); var ps := now.nodes[v].pset;
            && (Contains(ps, n) <==> Silent(now.log, v, n) != 2 * VRR_FAIL_TIMEOUT)
            && (Contains(ps, n) && Silent(now.log, v, n) >= VRR_FAIL_TIMEOUT ==> StatusOf(ps, n) == Failed)
  {
    SilenceAgesAreExact(net, steps);
    var before := Exec(net, steps);
    var ps := before.nodes[v].pset;
    assert Exact(before.log, v, ps);
    SilentAfterTick(before.log, v, n);
    SweepDecides(ps, n);
  }

  lemma SweepDecides(ps: Pset, n: u32)
    requires Valid(ps) && Contains(ps, n)
    ensures var e := ps[IndexOf(ps, n)];
            && (Contains(Sweep(ps), n) <==> !Expires(e))
            && (Contains(Sweep(ps), n) ==> Sweep(ps)[IndexOf(Sweep(ps), n)] == Age(e))
  {
    SweepAges(ps);
    SweepKeepsValid(ps);
    var k := IndexOf(ps, n);
    if Contains(Sweep(ps), n) {
      var e := Sweep(ps)[IndexOf(Sweep(ps), n)];
      assert e in Sweep(ps);
      var i :| 0 <= i < |ps| && !Expires(ps[i]) && e == Age(ps[i]);
      Found(ps, i);
    }
    if !Expires(ps[k]) {
      var i :| 0 <= i < |Sweep(ps)| && Sweep(ps)[i] == Age(ps[k]);
      Found(Sweep(ps), i);
    }
  }

  /** No other step makes a neighbour disappear. */
  lemma OnlySweepsRemove(net: Net, steps: seq<Step>, st: Step, v: u32, n: u32)
    requires Init(net) && Legal(net, steps) && Enabled(Exec(net, steps), st)
    requires v in Exec(net, steps).nodes && Contains(Exec(net, steps).nodes[v].pset, n)
    requires !Contains(Apply(Exec(net, steps), st).nodes[v].pset, n)
    ensures st == TickStep(v) && Silent(Apply(Exec(net, steps), st).log, v, n) == 2 * VRR_FAIL_TIMEOUT
  {
    var before := Exec(net, steps);
    StepFrame(before, st);
    if st == TickStep(v) {
      SweepMarksAndRemoves(net, steps, v, n);
    } else if v == Actor(st) && !ByChannel(st) {
      OthersKeep(v, before.mac[v], before.nodes[v], st, n);
    }
  }

  lemma OthersKeep(me: u32, mac: Mac, node: Node, st: Step, n: u32)
    requires !ByChannel(st) && !st.TickStep? && (st.HandleStep? ==> node.updates != [])
    ensures Contains(node.pset, n) ==> Contains(Act(me, mac, node, st).node.pset, n)
  {
    if st.HandleStep? {
      var ps, u := node.pset, node.updates[0];
      if Contains(ps, u.node) {
        SameIndex(ps, ApplyUpdate(ps, u), n);
      } else {
        assert ApplyUpdate(ps, u)[1..] == ps;
      }
    } else {
      var ps' := Act(me, mac, node, st).node.pset;
      assert |ps'| == |node.pset| && forall i | 0 <= i < |ps'| :: ps'[i].node == node.pset[i].node;
      SameIndex(node.pset, ps', n);
    }
  }

  // ---- The active timeout ----

  /** Ticks at v since v last accepted a packet. */
  ghost function Idle(log: seq<Record>, v: u32): nat {
    if log == [] then 0
    else
      var rest, r := log[..|log| - 1], log[|log| - 1];
      if r.at != v then Idle(rest, v)
      else if r.Ticked? then 1 + Idle(rest, v)
      else if r.Heard? || r.Accepted? then 0
      else Idle(rest, v)
  }

  lemma IdleAppend(log: seq<Record>, r: Record, v: u32)
    ensures Idle(log + [r], v) ==
            if r.at != v then Idle(log, v)
            else if r.Ticked? then 1 + Idle(log, v)
            else if r.Heard? || r.Accepted? then 0
            else Idle(log, v)
  {
    assert (log + [r])[..|log|] == log;
  }

  lemma {:induction false} IdleElsewhere(log: seq<Record>, more: seq<Record>, v: u32)
    requires forall i | 0 <= i < |more| :: more[i].at != v
    ensures Idle(log + more, v) == Idle(log, v)
  {
    if more == [] {
      assert log + more == log;
    } else {
      var k := |more| - 1;
      IdleElsewhere(log, more[..k], v);
      assert log + more == (log + more[..k]) + [more[k]];
      IdleAppend(log + more[..k], more[k], v);
    }
  }

  /** An inactive node's timeout is its idle time, and below the threshold. */
  ghost predicate IdleExact(log: seq<Record>, v: u32, n: Node) {
    n.active || (n.timeout == Idle(log, v) && n.timeout < VRR_ACTIVE_TIMEOUT)
  }

  lemma ActKeepsIdle(log: seq<Record>, me: u32, mac: Mac, n: Node, st: Step)
    requires IdleExact(log, me, n) && !ByChannel(st) && Actor(st) == me && (st.HandleStep? ==> n.updates != [])
    ensures IdleExact(log + Recorded(n, st), me, Act(me, mac, n, st).node)
    ensures n.active ==> Act(me, mac, n, st).node.active
  {
    var rec := Recorded(n, st);
    if st.TickStep? {
      IdleAppend(log, Ticked(me), me);
      IdleAppend(log + [Ticked(me)], Sent(me), me);
      assert log + rec == (log + [Ticked(me)]) + [Sent(me)];
    } else if rec == [] {
      assert log + rec == log;
    } else {
      assert rec == [rec[0]];
      IdleAppend(log, rec[0], me);
    }
  }

  lemma StepKeepsIdle(net: Net, st: Step)
    requires Enabled(net, st) && forall v | v in net.nodes :: IdleExact(net.log, v, net.nodes[v])
    ensures forall v | v in Apply(net, st).nodes :: IdleExact(Apply(net, st).log, v, Apply(net, st).nodes[v])
  {
    hide Act, Apply, Recorded, Idle;
    assert st.HandleStep? ==> net.nodes[st.at].updates != [];
    hide Enabled;
    StepFrame(net, st);
    if !ByChannel(st) {
      var at := Actor(st);
      RecordedAt(net.nodes[at], st);
      ActKeepsIdle(net.log, at, net.mac[at], net.nodes[at], st);
      forall v | v in Apply(net, st).nodes && v != at
        ensures IdleExact(Apply(net, st).log, v, Apply(net, st).nodes[v])
      {
        IdleElsewhere(net.log, Recorded(net.nodes[at], st), v);
      }
    }
  }

  /** Over every run an inactive node has gone through fewer than eight ticks since it last
      accepted a packet, and its timeout counts them. */
  lemma IdleTimeIsExact(net: Net, steps: seq<Step>, v: u32)
    requires Init(net) && Legal(net, steps) && v in Exec(net, steps).nodes
    ensures IdleExact(Exec(net, steps).log, v, Exec(net, steps).nodes[v])
  {
    AllIdleExact(net, steps);
  }

  lemma {:induction false} AllIdleExact(net: Net, steps: seq<Step>)
    requires Init(net) && Legal(net, steps)
    ensures forall v | v in Exec(net, steps).nodes :: IdleExact(Exec(net, steps).log, v, Exec(net, steps).nodes[v])
  {
    if steps != [] {
      AllIdleExact(net, steps[..|steps| - 1]);
      StepKeepsIdle(Exec(net, steps[..|steps| - 1]), steps[|steps| - 1]);
      hide Apply, IdleExact;
    }
  }

  /** Exactly when a node is active after a step of any run: it was before, or this was its eighth
      idle tick, or a setup ended at it and its source was admitted. */
  lemma ActivationIsExact(net: Net, steps: seq<Step>, st: Step, v: u32)
    requires Init(net) && Legal(net, steps) && Enabled(Exec(net, steps), st) && v in Exec(net, steps).nodes
    ensures var before, now := Exec(net, steps), Apply(Exec(net, steps), st);
            && v in now.nodes && (st.DeliverSetup? && st.at == v ==> v in before.mac)
            && (now.nodes[v].active <==>
                  || before.nodes[v].active
                  || (st == TickStep(v) && Idle(now.log, v) == VRR_ACTIVE_TIMEOUT)
                  || (st.DeliverSetup? && st.at == v && EndsHere(v, before.mac[v], before.nodes[v], st.s) && st.added))
  {
    hide Act, Apply, Legal, Exec, Idle;
    var before := Exec(net, steps);
    assert st.HandleStep? ==> before.nodes[st.at].updates != [];
    hide Enabled;
    IdleTimeIsExact(net, steps, v);
    StepFrame(before, st);
    if v == Actor(st) && !ByChannel(st) {
      var n := before.nodes[v];
      ActivationAt(v, before.mac[v], n, st);
      if st.TickStep? {
        IdleAppend(before.log, Ticked(v), v);
        IdleAppend(before.log + [Ticked(v)], Sent(v), v);
        assert before.log + [Ticked(v), Sent(v)] == (before.log + [Ticked(v)]) + [Sent(v)];
      }
    }
  }

  lemma ActivationAt(me: u32, mac: Mac, n: Node, st: Step)
    requires !ByChannel(st) && (st.HandleStep? ==> n.updates != [])
    ensures Act(me, mac, n, st).node.active
            <==> || n.active
                 || (st.TickStep? && n.timeout + 1 == VRR_ACTIVE_TIMEOUT)
                 || (st.DeliverSetup? && EndsHere(me, mac, n, st.s) && st.added)
  {
  }
}
