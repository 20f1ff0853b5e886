/** What the active flags of neighbours mean: over every run a flag is the word of the last hello
    handled from that neighbour, which said what the neighbour was when it sent it; and whoever is
    flagged active is active. */
module ActiveFlags {
  import opened Types
  import opened PhysicalSet
  import opened NeighbourTable
  import opened Network
  import S = SilenceAges

  // ---- History ----

  /** The k-th step of the run was a tick of n, after which n was active or not as given. */
  ghost predicate TickedAs(net: Net, steps: seq<Step>, k: nat, n: u32, active: bool) {
    && k < |steps| && steps[k] == TickStep(n) && Legal(net, steps[..k + 1])
    && n in Exec(net, steps[..k + 1]).nodes && Exec(net, steps[..k + 1]).nodes[n].active == active
  }

  /** At one of its ticks n was active or not as given. */
  ghost predicate Announced(net: Net, steps: seq<Step>, n: u32, active: bool) {
    exists k: nat :: TickedAs(net, steps, k, n, active)
  }

  /** The last update about n that v handled in this run. */
  ghost function LastHandled(net: Net, steps: seq<Step>, v: u32, n: u32): Option<Update>
    requires Legal(net, steps)
  {
    if steps == [] then None
    else
      var before, st := steps[..|steps| - 1], steps[|steps| - 1];
      if st == HandleStep(v) && Exec(net, before).nodes[v].updates[0].node == n
      then Some(Exec(net, before).nodes[v].updates[0])
      else LastHandled(net, before, v, n)
  }

  lemma StillAnnounced(net: Net, steps: seq<Step>, st: Step, n: u32, active: bool)
    requires Announced(net, steps, n, active)
    ensures Announced(net, steps + [st], n, active)
  {
    hide Exec, Legal;
    var k: nat :| TickedAs(net, steps, k, n, active);
    assert (steps + [st])[..k + 1] == steps[..k + 1];
    assert TickedAs(net, steps + [st], k, n, active);
  }

  // ---- The invariant ----

  ghost predicate HelloTrue(net: Net, steps: seq<Step>, h: HelloPkt) {
    Announced(net, steps, h.src, h.content.active != 0)
  }

  ghost predicate NodeTrue(net: Net, steps: seq<Step>, v: u32, n: Node)
    requires Legal(net, steps)
  {
    && Valid(n.pset)
    && (forall i | 0 <= i < |n.updates| :: Announced(net, steps, n.updates[i].node, n.updates[i].active != 0))
    && (forall i | 0 <= i < |n.pset| :: EntryTrue(net, steps, v, n.pset[i]))
  }

  ghost predicate EntryTrue(net: Net, steps: seq<Step>, v: u32, e: Entry)
    requires Legal(net, steps)
  {
    && Announced(net, steps, e.node, e.active)
    && match LastHandled(net, steps, v, e.node)
       case None => false
       case Some(u) => e.active == (u.active != 0)
  }

  ghost predicate FlagsTrue(net: Net, steps: seq<Step>)
    requires Legal(net, steps)
  {
    && (forall h | h in Exec(net, steps).hellos :: HelloTrue(net, steps, h))
    && (forall v | v in Exec(net, steps).nodes :: NodeTrue(net, steps, v, Exec(net, steps).nodes[v]))
  }

  // ---- Steps ----

  /** The entry is one of the list before, with its node and flag. */
  ghost predicate Kept(ps: Pset, e: Entry) {
    exists i :: 0 <= i < |ps| && ps[i].node == e.node && ps[i].active == e.active
  }

  lemma SweepKeeps(ps: Pset)
    ensures forall e | e in Sweep(ps) :: Kept(ps, e)
  {
    SweepAges(ps);
  }

  lemma ResetKeeps(ps: Pset, src: u32)
    ensures forall e | e in ResetFail(ps, src) :: Kept(ps, e)
  {
    forall e | e in ResetFail(ps, src) ensures Kept(ps, e) {
      var i :| 0 <= i < |ps| && ResetFail(ps, src)[i] == e;
      assert ps[i].node == e.node && ps[i].active == e.active;
    }
  }

  lemma UpdateKeeps(ps: Pset, u: Update)
    requires Valid(ps)
    ensures forall e | e in ApplyUpdate(ps, u) ::
              if e.node == u.node then e.active == (u.active != 0) else Kept(ps, e)
  {
    var ps', k := ApplyUpdate(ps, u), IndexOf(ps, u.node);
    forall i | 0 <= i < |ps'|
      ensures if ps'[i].node == u.node then ps'[i].active == (u.active != 0) else Kept(ps, ps'[i])
    {
      if k == |ps| {
        assert i == 0 || ps'[i] == ps[i - 1];
      } else {
        assert ps[k].status != Unknown;
        assert i == k || ps'[i] == ps[i];
      }
    }
  }

  /** What a step does to the flags at its node. */
  lemma ActFlags(me: u32, mac: Mac, n: Node, st: Step)
    requires !ByChannel(st) && Valid(n.pset) && (st.HandleStep? ==> n.updates != [])
    ensures var n' := Act(me, mac, n, st).node;
            && Valid(n'.pset)
            && (forall e | e in n'.pset ::
                  if st.HandleStep? && e.node == n.updates[0].node then e.active == (n.updates[0].active != 0)
                  else Kept(n.pset, e))
            && (forall u | u in n'.updates ::
                  u in n.updates || (st.DeliverHello? && u.node == st.h.src && u.active == st.h.content.active))
  {
    hide TearDownPath, PassSetup, LocalSetup, ApplyUpdate, ResetFail, Sweep;
    if st.TickStep? {
      SweepKeepsValid(n.pset);
      SweepKeeps(n.pset);
    } else if st.HandleStep? {
      UpdateKeepsValid(n.pset, n.updates[0]);
      UpdateKeeps(n.pset, n.updates[0]);
    } else if st.DeliverHello? {
      ResetKeepsValid(n.pset, st.h.src);
      ResetKeeps(n.pset, st.h.src);
    } else if st.DeliverOther? {
      ResetKeepsValid(n.pset, st.src);
      ResetKeeps(n.pset, st.src);
    } else if st.DeliverSetup? {
      ResetKeepsValid(n.pset, st.s.src);
      ResetKeeps(n.pset, st.s.src);
    } else if st.DeliverTeardown? {
      ResetKeepsValid(n.pset, st.t.src);
      ResetKeeps(n.pset, st.t.src);
    } else {
      assert forall i | 0 <= i < |n.pset| :: Kept(n.pset, n.pset[i]);
    }
  }

  /** The history of updates at v grows only by what v handles. */
  lemma LastHandledAppend(net: Net, steps: seq<Step>, st: Step, v: u32, n: u32)
    requires Legal(net, steps) && Enabled(Exec(net, steps), st) && Legal(net, steps + [st])
    ensures LastHandled(net, steps + [st], v, n)
            == if st == HandleStep(v) && Exec(net, steps).nodes[v].updates[0].node == n
               then Some(Exec(net, steps).nodes[v].updates[0]) else LastHandled(net, steps, v, n)
  {
    assert (steps + [st])[..|steps|] == steps;
  }

  lemma EntryStaysTrue(net: Net, steps: seq<Step>, st: Step, v: u32, e: Entry, e': Entry)
    requires Legal(net, steps) && Enabled(Exec(net, steps), st) && Legal(net, steps + [st])
    requires EntryTrue(net, steps, v, e) && e'.node == e.node && e'.active == e.active
    requires st == HandleStep(v) ==> Exec(net, steps).nodes[v].updates[0].node != e.node
    ensures EntryTrue(net, steps + [st], v, e')
  {
    StillAnnounced(net, steps, st, e.node, e.active);
    LastHandledAppend(net, steps, st, v, e.node);
    hide Announced, LastHandled, Legal, Exec, Enabled;
  }

  /** A node at which the step did not happen. */
  lemma NodeStaysTrue(net: Net, steps: seq<Step>, st: Step, v: u32, n: Node)
    requires Legal(net, steps) && Enabled(Exec(net, steps), st) && Legal(net, steps + [st])
    requires NodeTrue(net, steps, v, n) && st != HandleStep(v)
    ensures NodeTrue(net, steps + [st], v, n)
  {
    hide Announced, Legal, Exec, Enabled, EntryTrue, Valid;
    forall i | 0 <= i < |n.updates| ensures Announced(net, steps + [st], n.updates[i].node, n.updates[i].active != 0) {
      StillAnnounced(net, steps, st, n.updates[i].node, n.updates[i].active != 0);
    }
    forall i | 0 <= i < |n.pset| ensures EntryTrue(net, steps + [st], v, n.pset[i]) {
      EntryStaysTrue(net, steps, st, v, n.pset[i], n.pset[i]);
    }
  }

  /** The node at which the step happened. */
  lemma ActorStaysTrue(net: Net, steps: seq<Step>, st: Step, n': Node)
    requires Legal(net, steps) && Enabled(Exec(net, steps), st) && Legal(net, steps + [st])
    requires FlagsTrue(net, steps) && !ByChannel(st) && Present(Exec(net, steps), Actor(st))
    requires st.HandleStep? ==> Exec(net, steps).nodes[Actor(st)].updates != []
    requires var now, at := Exec(net, steps), Actor(st); n' == Act(at, now.mac[at], now.nodes[at], st).node
    ensures NodeTrue(net, steps + [st], Actor(st), n')
  {
    hide Announced, Legal, Exec, EntryTrue, Valid, Act, LastHandled, Kept;
    var now, at := Exec(net, steps), Actor(st);
    var n := now.nodes[at];
    assert NodeTrue(net, steps, at, n);
    assert st.DeliverHello? ==> HelloTrue(net, steps, st.h);
    hide FlagsTrue;
    ActFlags(at, now.mac[at], n, st);
    assert st == HandleStep(at) <==> st.HandleStep?;
    hide Enabled;
    forall i | 0 <= i < |n'.updates|
      ensures Announced(net, steps + [st], n'.updates[i].node, n'.updates[i].active != 0)
    {
      assert n'.updates[i] in n'.updates;
      StillAnnounced(net, steps, st, n'.updates[i].node, n'.updates[i].active != 0);
    }
    forall i | 0 <= i < |n'.pset| ensures EntryTrue(net, steps + [st], at, n'.pset[i]) {
      assert n'.pset[i] in n'.pset;
      ActorEntryTrue(net, steps, st, n, n'.pset[i]);
    }
  }

  lemma ActorEntryTrue(net: Net, steps: seq<Step>, st: Step, n: Node, e: Entry)
    requires Legal(net, steps) && Enabled(Exec(net, steps), st) && Legal(net, steps + [st])
    requires Actor(st) in Exec(net, steps).nodes && n == Exec(net, steps).nodes[Actor(st)] && !ByChannel(st)
    requires NodeTrue(net, steps, Actor(st), n) && (st.HandleStep? ==> n.updates != [])
    requires if st.HandleStep? && e.node == n.updates[0].node then e.active == (n.updates[0].active != 0)
             else Kept(n.pset, e)
    ensures EntryTrue(net, steps + [st], Actor(st), e)
  {
    var at := Actor(st);
    hide Announced, Legal, Exec, Enabled, Valid, LastHandled;
    if st.HandleStep? && e.node == n.updates[0].node {
      LastHandledAppend(net, steps, st, at, e.node);
      StillAnnounced(net, steps, st, e.node, e.active);
    } else {
      var i :| 0 <= i < |n.pset| && n.pset[i].node == e.node && n.pset[i].active == e.active;
      EntryStaysTrue(net, steps, st, at, n.pset[i], e);
    }
  }

  lemma NewHelloTrue(net: Net, steps: seq<Step>, st: Step)
    requires Legal(net, steps) && Enabled(Exec(net, steps), st) && st.TickStep?
    requires Legal(net, steps + [st]) && Exec(net, steps + [st]) == Apply(Exec(net, steps), st)
    ensures HelloTrue(net, steps + [st], TickHello(Exec(net, steps), st.at))
  {
    var now := Exec(net, steps);
    StepFrame(now, st);
    assert (steps + [st])[..|steps| + 1] == steps + [st];
    assert TickedAs(net, steps + [st], |steps|, st.at, Tick(now.nodes[st.at]).active);
  }

  lemma StepKeepsFlags(net: Net, steps: seq<Step>, st: Step)
    requires Legal(net, steps) && Enabled(Exec(net, steps), st) && FlagsTrue(net, steps)
    ensures Legal(net, steps + [st]) && FlagsTrue(net, steps + [st])
  {
    hide Apply, Act, Recorded, NodeTrue, HelloTrue, Legal, Exec, TickHello;
    var now := Exec(net, steps);
    LegalAppend(net, steps, st);
    StepFrame(now, st);
    StepHellos(now, st);
    assert st.HandleStep? ==> now.nodes[st.at].updates != [];
    hide Enabled;
    var now' := Exec(net, steps + [st]);
    forall h | h in now'.hellos ensures HelloTrue(net, steps + [st], h) {
      if h in now.hellos {
        HelloStaysTrue(net, steps, st, h);
      } else {
        NewHelloTrue(net, steps, st);
      }
    }
    forall v | v in now'.nodes ensures NodeTrue(net, steps + [st], v, now'.nodes[v]) {
      if ByChannel(st) || v != Actor(st) {
        NodeStaysTrue(net, steps, st, v, now.nodes[v]);
      } else {
        ActorStaysTrue(net, steps, st, now'.nodes[v]);
      }
    }
  }

  lemma HelloStaysTrue(net: Net, steps: seq<Step>, st: Step, h: HelloPkt)
    requires HelloTrue(net, steps, h)
    ensures HelloTrue(net, steps + [st], h)
  {
    StillAnnounced(net, steps, st, h.src, h.content.active != 0);
  }

  lemma StartsTrue(net: Net)
    requires Init(net)
    ensures FlagsTrue(net, [])
  {
  }

  /** Over every run: the flag of each neighbour is the active word of the last hello handled from it,
      and what the neighbour was after one of its ticks; the same for every hello in flight and every
      queued update. */
  lemma {:induction false} FlagsAreTrue(net: Net, steps: seq<Step>)
    requires Init(net) && Legal(net, steps)
    ensures FlagsTrue(net, steps)
  {
    hide Apply, Enabled, FlagsTrue, Init;
    if steps == [] {
      StartsTrue(net);
    } else {
      var before, st := steps[..|steps| - 1], steps[|steps| - 1];
      FlagsAreTrue(net, before);
      StepKeepsFlags(net, before, st);
      assert before + [st] == steps;
    }
  }

  // ---- Flagged active means active ----

  lemma {:induction false} StaysActive(net: Net, steps: seq<Step>, k: nat, v: u32)
    requires Init(net) && Legal(net, steps) && k <= |steps| && Legal(net, steps[..k])
    requires v in Exec(net, steps[..k]).nodes && Exec(net, steps[..k]).nodes[v].active
    ensures v in Exec(net, steps).nodes && Exec(net, steps).nodes[v].active
    decreases |steps| - k
  {
    if k == |steps| {
      assert steps[..k] == steps;
    } else {
      PrefixLegal(net, steps, k + 1);
      LastOfPrefix(net, steps, k);
      hide Legal, Exec, Apply, Enabled;
      S.ActivationIsExact(net, steps[..k], steps[k], v);
      StaysActive(net, steps, k + 1, v);
    }
  }

  lemma LastOfPrefix(net: Net, steps: seq<Step>, k: nat)
    requires k < |steps| && Legal(net, steps[..k + 1])
    ensures Legal(net, steps[..k]) && Enabled(Exec(net, steps[..k]), steps[k])
    ensures Exec(net, steps[..k + 1]) == Apply(Exec(net, steps[..k]), steps[k])
  {
    hide Apply, Enabled;
    assert steps[..k + 1][..k] == steps[..k] && steps[..k + 1][k] == steps[k];
  }

  lemma {:induction false} PrefixLegal(net: Net, steps: seq<Step>, k: nat)
    requires Legal(net, steps) && k <= |steps|
    ensures Legal(net, steps[..k])
    decreases |steps|
  {
    if k == |steps| {
      assert steps[..k] == steps;
    } else {
      var before := steps[..|steps| - 1];
      PrefixLegal(net, before, k);
      assert before[..k] == steps[..k];
    }
  }

  /** Over every run: a neighbour that is flagged active is active, so a proxy chosen among the
      flagged ones has joined the ring. */
  lemma ActiveNeighbourIsActive(net: Net, steps: seq<Step>, v: u32, i: nat)
    requires Init(net) && Legal(net, steps) && v in Exec(net, steps).nodes && i < |Exec(net, steps).nodes[v].pset|
    ensures var e := Exec(net, steps).nodes[v].pset[i];
            e.active ==> e.node in Exec(net, steps).nodes && Exec(net, steps).nodes[e.node].active
  {
    FlagsAreTrue(net, steps);
    var e := Exec(net, steps).nodes[v].pset[i];
    assert NodeTrue(net, steps, v, Exec(net, steps).nodes[v]) && EntryTrue(net, steps, v, e);
    if e.active {
      var k: nat :| TickedAs(net, steps, k, e.node, true);
      StaysActive(net, steps, k + 1, e.node);
    }
  }
}
