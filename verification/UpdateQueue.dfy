/** The queue between vrr_rcv_hello and pset_update_handler: over every run each readable hello that a
    node receives is handled once, as it was received, in the order of reception. */
module UpdateQueue {
  import opened Types
  import opened PhysicalSet
  import opened Network
  import W = Wire

  /** What a step makes node v queue. */
  function Queued(st: Step, v: u32): seq<Update> {
    if st.DeliverHello? && st.at == v && W.Readable(st.h.content)
    then [Update(st.h.src, st.h.from, W.Says(st.h.content, v), st.h.content.active)] else []
  }

  /** All that v received in the run, in order. */
  function ReceivedBy(steps: seq<Step>, v: u32): seq<Update> {
    if steps == [] then [] else ReceivedBy(steps[..|steps| - 1], v) + Queued(steps[|steps| - 1], v)
  }

  /** All that v handled in the run, in order. */
  ghost function HandledBy(net: Net, steps: seq<Step>, v: u32): seq<Update>
    requires Legal(net, steps)
  {
    if steps == [] then []
    else
      var before, st := steps[..|steps| - 1], steps[|steps| - 1];
      HandledBy(net, before, v) + if st == HandleStep(v) then [Exec(net, before).nodes[v].updates[0]] else []
  }

  lemma ActQueues(me: u32, mac: Mac, n: Node, st: Step)
    requires !ByChannel(st) && Actor(st) == me && (st.HandleStep? ==> n.updates != [])
    ensures var n' := Act(me, mac, n, st).node;
            n.updates + Queued(st, me) == (if st.HandleStep? then [n.updates[0]] else []) + n'.updates
  {
    hide TearDownPath, PassSetup, LocalSetup, ApplyUpdate, ResetFail, Sweep;
  }

  lemma StepQueues(net: Net, st: Step, v: u32)
    requires Enabled(net, st) && v in net.nodes
    ensures v in Apply(net, st).nodes && (st == HandleStep(v) ==> net.nodes[v].updates != [])
    ensures net.nodes[v].updates + Queued(st, v)
            == (if st == HandleStep(v) then [net.nodes[v].updates[0]] else []) + Apply(net, st).nodes[v].updates
  {
    StepFrame(net, st);
    if !ByChannel(st) && v == Actor(st) {
      ActQueues(v, net.mac[v], net.nodes[v], st);
    }
    hide Apply, Act;
  }

  lemma InOrder(received: seq<Update>, handled: seq<Update>, was: seq<Update>, more: seq<Update>,
                one: seq<Update>, now: seq<Update>)
    requires received == handled + was && was + more == one + now
    ensures received + more == handled + one + now
  {
    assert received + more == handled + (was + more);
  }

  /** First in, first out: what a node received is what it has handled followed by what is queued. */
  lemma {:induction false} UpdatesInOrder(net: Net, steps: seq<Step>, v: u32)
    requires Init(net) && Legal(net, steps) && v in net.nodes
    ensures v in Exec(net, steps).nodes
    ensures ReceivedBy(steps, v) == HandledBy(net, steps, v) + Exec(net, steps).nodes[v].updates
  {
    assert net.nodes[v].updates == [];
    hide Apply, Enabled, Queued, Init;
    if steps != [] {
      var before, st := steps[..|steps| - 1], steps[|steps| - 1];
      UpdatesInOrder(net, before, v);
      StepQueues(Exec(net, before), st, v);
      var now := Exec(net, before).nodes[v].updates;
      InOrder(ReceivedBy(before, v), HandledBy(net, before, v), now, Queued(st, v),
              if st == HandleStep(v) then [now[0]] else [], Exec(net, steps).nodes[v].updates);
    }
  }

  // ---- One work item for many updates ----

  /** Rounds of pset_update_handler until the queue is empty. */
  function HandleAll(n: Node): Node
    decreases |n.updates|
  {
    if n.updates == [] then n else HandleAll(Handle(n))
  }

  /** Draining the queue at once is the same as one round after the other. */
  lemma {:induction false} DrainIsRounds(n: Node)
    ensures HandleAll(n) == n.(pset := ApplyUpdates(n.pset, n.updates), updates := [])
    decreases |n.updates|
  {
    if n.updates != [] {
      DrainIsRounds(Handle(n));
    }
  }
}
