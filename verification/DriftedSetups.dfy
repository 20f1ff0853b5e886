/** What the drifting counter does to a node's own setups: vset_get_all returns the counter, so the
    ids that a node announces are as many as the counter says, and receivers refuse more than four. */
module DriftedSetups {
  import opened Types
  import opened RoutingTable
  import opened VirtualSet
  import opened VsetAsWritten
  import N = Network
  import W = Wire
  import F = Frames

  /** vset_get_all: the ids of the list, then whatever the allocated memory holds. */
  function GetAllAsWritten(w: Written, memory: nat -> u32): (r: seq<u32>)
    requires |w.list| <= w.size
    ensures |r| == w.size && r[..|w.list|] == Ids(w.list)
  {
    Ids(w.list) + Slots(memory, w.size - |w.list|)
  }

  lemma StepNeverFalls(me: u32, w: Written, e: Event)
    requires |w.list| <= w.size
    ensures w.size <= Step(me, w, e).size
  {
    hide WantsAsWritten, FoundAt, Without;
  }

  lemma {:induction false} CounterNeverFalls(me: u32, es: seq<Event>, more: seq<Event>)
    ensures Run(me, es).size <= Run(me, es + more).size
    decreases |more|
  {
    if more == [] {
      assert es + more == es;
    } else {
      hide Run, Step;
      var before, e := more[..|more| - 1], more[|more| - 1];
      CounterNeverFalls(me, es, before);
      assert es + more == (es + before) + [e];
      RunAppend(me, es + before, e);
      StepNeverFalls(me, Run(me, es + before), e);
    }
  }

  /** A setup or setup request with the ids of vset_get_all is readable exactly if at most four nodes
      were ever inserted. */
  lemma AnnouncedIsReadable(w: Written, memory: nat -> u32, b: W.Body)
    requires |w.list| <= w.size <= UINT_MAX && b.vset == GetAllAsWritten(w, memory)
    ensures W.ParseBody(W.TypeOf(b), W.WordsOf(W.Words(W.BodyWords(b)))) == Some(b) <==> w.size <= VRR_VSET_SIZE
    ensures w.size > VRR_VSET_SIZE ==> W.ParseBody(W.TypeOf(b), W.WordsOf(W.Words(W.BodyWords(b)))) == None
  {
    W.BodyRoundTrip(b);
  }

  /** From the fifth insertion on, and ever after, the setups of a node end at their first hop: it
      stores the route if it knows the sender, sends nothing on, and does not become active. */
  lemma DriftStopsSetups(me: u32, es: seq<Event>, more: seq<Event>, memory: nat -> u32, version: u8,
                         at: u32, mac: Mac, n: N.Node, s: N.SetupPkt, added: bool)
    requires Run(me, es).size > VRR_VSET_SIZE && Run(me, es + more).size <= UINT_MAX
    requires s.src == me && s.vset == GetAllAsWritten(Run(me, es + more), memory)
    ensures var o := F.Received(at, mac, n, s.from, F.SetupFrame(version, s), added);
            && o.setups == multiset{} && o.node.active == n.active
            && match N.SenderOf(at, mac, N.Accept(n, me), s.from)
               case None => true
               case Some(sender) =>
                 var hop := N.SetupHop(at, N.Accept(n, me), s.dst, s.proxy);
                 o.node.rt == AddRoute(n.rt, Route(me, s.dst, sender, hop, s.pid)) && o.teardowns == multiset{}
  {
    CounterNeverFalls(me, es, more);
    F.SetupFrameIsDelivery(version, at, mac, n, s, added);
    hide Run, F.Received, F.SetupFrame, AddRoute, N.SetupHop, N.SenderOf;
  }
}
