/** Linked means heard both ways: over every run, a node holds another as linked only after it
    received a hello that the other sent after having received one from it. */
module HeardBothWays {
  import opened Types
  import opened PhysicalSet
  import opened NeighbourTable
  import opened Network
  import W = Wire

  /** Before log position j, node v received a hello from n. */
  ghost predicate HeardBefore(log: seq<Record>, v: u32, n: u32, j: nat) {
    exists i :: 0 <= i < j && i < |log| && log[i].Heard? && log[i].at == v && log[i].src == n
  }

  /** The hello received at position k is one that b sent at position j, after it had itself
      received a hello from a. */
  ghost predicate HeardBackAt(log: seq<Record>, a: u32, b: u32, j: nat, k: nat) {
    && j < k < |log| && log[k] == Heard(a, b, j) && log[j] == Sent(b)
    && HeardBefore(log, b, a, j)
  }

  ghost predicate HeardBack(log: seq<Record>, a: u32, b: u32) {
    exists j: nat, k: nat :: HeardBackAt(log, a, b, j, k)
  }

  // ---- Invariant ----

  /** A hello on the air was sent where its stamp says, and names only nodes its sender had heard. */
  ghost predicate HelloHeard(log: seq<Record>, h: HelloPkt) {
    && h.stamp < |log| && log[h.stamp] == Sent(h.src)
    && (forall x | x in h.content.la || x in h.content.lna || x in h.content.pend ::
       HeardBefore(log, h.src, x, h.stamp))
  }

  ghost predicate EntryHeard(log: seq<Record>, v: u32, e: Entry) {
    HeardBefore(log, v, e.node, |log|) && (e.status == Linked ==> HeardBack(log, v, e.node))
  }

  ghost predicate UpdateHeard(log: seq<Record>, v: u32, u: Update) {
    HeardBefore(log, v, u.node, |log|) && (u.trans != SaysMissing ==> HeardBack(log, v, u.node))
  }

  ghost predicate NodeHeard(log: seq<Record>, v: u32, n: Node) {
    && (forall i | 0 <= i < |n.pset| :: EntryHeard(log, v, n.pset[i]))
    && (forall i | 0 <= i < |n.updates| :: UpdateHeard(log, v, n.updates[i]))
  }

  ghost predicate HearingInvariant(net: Net) {
    && (forall h | h in net.hellos :: HelloHeard(net.log, h))
    && (forall v | v in net.nodes :: NodeHeard(net.log, v, net.nodes[v]))
  }

  // ---- The log only grows ----

  lemma HeardBeforeGrows(log: seq<Record>, more: seq<Record>, v: u32, n: u32, j: nat, j': nat)
    requires HeardBefore(log, v, n, j) && j <= j'
    ensures HeardBefore(log + more, v, n, j')
  {
    var i :| 0 <= i < j && i < |log| && log[i].Heard? && log[i].at == v && log[i].src == n;
    assert (log + more)[i] == log[i];
  }

  lemma HeardBackGrows(log: seq<Record>, more: seq<Record>, a: u32, b: u32)
    requires HeardBack(log, a, b)
    ensures HeardBack(log + more, a, b)
  {
    var j: nat, k: nat :| HeardBackAt(log, a, b, j, k);
    HeardBeforeGrows(log, more, b, a, j, j);
    assert HeardBackAt(log + more, a, b, j, k);
  }

  lemma NodeHeardGrows(log: seq<Record>, more: seq<Record>, v: u32, n: Node)
    requires NodeHeard(log, v, n)
    ensures NodeHeard(log + more, v, n)
  {
    forall i | 0 <= i < |n.pset| ensures EntryHeard(log + more, v, n.pset[i]) {
      var e := n.pset[i];
      assert EntryHeard(log, v, e);
      HeardBeforeGrows(log, more, v, e.node, |log|, |log + more|);
      if e.status == Linked {
        HeardBackGrows(log, more, v, e.node);
      }
    }
    forall i | 0 <= i < |n.updates| ensures UpdateHeard(log + more, v, n.updates[i]) {
      var u := n.updates[i];
      assert UpdateHeard(log, v, u);
      HeardBeforeGrows(log, more, v, u.node, |log|, |log + more|);
      if u.trans != SaysMissing {
        HeardBackGrows(log, more, v, u.node);
      }
    }
  }

  lemma HelloHeardGrows(log: seq<Record>, more: seq<Record>, h: HelloPkt)
    requires HelloHeard(log, h)
    ensures HelloHeard(log + more, h)
  {
    forall x | x in h.content.la || x in h.content.lna || x in h.content.pend
      ensures HeardBefore(log + more, h.src, x, h.stamp)
    {
      HeardBeforeGrows(log, more, h.src, x, h.stamp, h.stamp);
    }
  }

  // ---- Steps ----

  lemma AcceptKeepsHeard(log: seq<Record>, v: u32, n: Node, src: u32)
    requires NodeHeard(log, v, n)
    ensures NodeHeard(log, v, Accept(n, src))
  {
    var k := IndexOf(n.pset, src);
    if k < |n.pset| {
      assert EntryHeard(log, v, n.pset[k]);
    }
  }

  lemma TickKeepsHeard(log: seq<Record>, v: u32, n: Node)
    requires NodeHeard(log, v, n)
    ensures NodeHeard(log, v, Tick(n))
  {
    SweepAges(n.pset);
    forall i | 0 <= i < |Sweep(n.pset)| ensures EntryHeard(log, v, Sweep(n.pset)[i]) {
      var e := Sweep(n.pset)[i];
      assert e in Sweep(n.pset);
      var k :| 0 <= k < |n.pset| && !Expires(n.pset[k]) && e == Age(n.pset[k]);
      assert EntryHeard(log, v, n.pset[k]);
    }
  }

  /** Only a hello that lists the receiver can make it hold the sender as linked. */
  lemma HandleKeepsHeard(log: seq<Record>, v: u32, n: Node)
    requires NodeHeard(log, v, n) && n.updates != []
    ensures NodeHeard(log, v, Handle(n))
  {
    var u := n.updates[0];
    assert UpdateHeard(log, v, u);
    var ps' := Handle(n).pset;
    var k := IndexOf(n.pset, u.node);
    forall i | 0 <= i < |ps'| ensures EntryHeard(log, v, ps'[i]) {
      if k < |n.pset| {
        assert EntryHeard(log, v, n.pset[i]);
      } else if i > 0 {
        assert ps'[i] == n.pset[i - 1];
      }
    }
    forall i | 0 <= i < |Handle(n).updates| ensures UpdateHeard(log, v, Handle(n).updates[i]) {
      assert Handle(n).updates[i] == n.updates[i + 1];
    }
  }

  lemma HelloKeepsHeard(log: seq<Record>, v: u32, n: Node, h: HelloPkt, rec: Record)
    requires NodeHeard(log, v, n) && HelloHeard(log, h)
    requires rec == if W.Readable(h.content) then Heard(v, h.src, h.stamp) else Accepted(v, h.src)
    ensures NodeHeard(log + [rec], v, RcvHello(v, n, h))
  {
    NodeHeardGrows(log, [rec], v, n);
    AcceptKeepsHeard(log + [rec], v, n, h.src);
    if W.Readable(h.content) {
      var u := Update(h.src, h.from, W.Says(h.content, v), h.content.active);
      assert (log + [rec])[|log|] == Heard(v, h.src, h.stamp);
      if u.trans != SaysMissing {
        HeardBeforeGrows(log, [rec], h.src, v, h.stamp, h.stamp);
        assert HeardBackAt(log + [rec], v, h.src, h.stamp, |log|);
      }
      assert UpdateHeard(log + [rec], v, u);
    }
  }

  /** A node's own hello names only nodes it has heard. */
  lemma SentHelloHeard(log: seq<Record>, v: u32, n: Node, h: HelloPkt)
    requires NodeHeard(log, v, n)
    requires h == HelloPkt(v, HelloOf(n.active, n.pset), h.from, |log| + 1)
    ensures HelloHeard(log + [Ticked(v), Sent(v)], h)
  {
    forall x | x in h.content.la || x in h.content.lna || x in h.content.pend
      ensures HeardBefore(log + [Ticked(v), Sent(v)], v, x, h.stamp)
    {
      var c := if x in h.content.la then LinkedActive else if x in h.content.lna then LinkedInactive else PendingClass;
      var i :| 0 <= i < |ListedNodes(n.pset, c)| && ListedNodes(n.pset, c)[i] == x;
      ListedMember(n.pset, c, Listed(n.pset, c)[i]);
      var k :| 0 <= k < |n.pset| && InClass(n.pset[k], c)
        && Listed(n.pset, c)[i] == Slot(n.pset[k].node, n.pset[k].mac);
      assert EntryHeard(log, v, n.pset[k]);
      HeardBeforeGrows(log, [Ticked(v), Sent(v)], v, x, |log|, h.stamp);
    }
  }

  lemma ActKeepsHeard(log: seq<Record>, me: u32, mac: Mac, n: Node, st: Step)
    requires NodeHeard(log, me, n) && !ByChannel(st) && Actor(st) == me && (st.HandleStep? ==> n.updates != [])
    requires st.DeliverHello? ==> HelloHeard(log, st.h)
    ensures NodeHeard(log + Recorded(n, st), me, Act(me, mac, n, st).node)
  {
    var rec := Recorded(n, st);
    NodeHeardGrows(log, rec, me, n);
    if st.TickStep? {
      TickKeepsHeard(log + rec, me, n);
    } else if st.DeliverHello? {
      HelloKeepsHeard(log, me, n, st.h, rec[0]);
    } else if st.HandleStep? {
      HandleKeepsHeard(log + rec, me, n);
    } else if st.DeliverOther? {
      AcceptKeepsHeard(log + rec, me, n, st.src);
    } else if st.DeliverSetup? {
      AcceptKeepsHeard(log + rec, me, n, st.s.src);
    } else if st.DeliverTeardown? {
      AcceptKeepsHeard(log + rec, me, n, st.t.src);
    }
  }

  lemma StepKeepsHearing(net: Net, st: Step)
    requires HearingInvariant(net) && Enabled(net, st)
    ensures HearingInvariant(Apply(net, st))
  {
    var net' := Apply(net, st);
    StepFrame(net, st);
    StepHellos(net, st);
    if !ByChannel(st) {
      var at := Actor(st);
      var n, rec := net.nodes[at], Recorded(net.nodes[at], st);
      ActKeepsHeard(net.log, at, net.mac[at], n, st);
      forall v | v in net'.nodes ensures NodeHeard(net'.log, v, net'.nodes[v]) {
        if v != at {
          NodeHeardGrows(net.log, rec, v, net.nodes[v]);
        }
      }
      forall h | h in net'.hellos ensures HelloHeard(net'.log, h) {
        if h in net.hellos {
          HelloHeardGrows(net.log, rec, h);
        } else {
          TickKeepsHeard(net.log, at, n);
          SentHelloHeard(net.log, at, Tick(n), h);
        }
      }
    }
  }

  lemma {:induction false} HearingHolds(net: Net, steps: seq<Step>)
    requires Init(net) && Legal(net, steps)
    ensures HearingInvariant(Exec(net, steps))
  {
    if steps != [] {
      HearingHolds(net, steps[..|steps| - 1]);
      StepKeepsHearing(Exec(net, steps[..|steps| - 1]), steps[|steps| - 1]);
    }
  }

  /** At log positions i < j < k: b received a hello from a, b sent a hello, a received that one. */
  ghost predicate Dialogue(log: seq<Record>, a: u32, b: u32, i: nat, j: nat, k: nat) {
    && i < j < k < |log|
    && log[i].Heard? && log[i].at == b && log[i].src == a
    && log[j] == Sent(b)
    && log[k] == Heard(a, b, j)
  }

  /** In every run, with loss, duplication, reordering, failures and deletions: if a holds b as
      linked, then b received a hello from a, later sent a hello, and a received that hello. */
  lemma LinkedMeansHeardBothWays(net: Net, steps: seq<Step>, a: u32, b: u32)
    requires Init(net) && Legal(net, steps)
    requires a in Exec(net, steps).nodes && StatusOf(Exec(net, steps).nodes[a].pset, b) == Linked
    ensures exists i: nat, j: nat, k: nat :: Dialogue(Exec(net, steps).log, a, b, i, j, k)
  {
    HearingHolds(net, steps);
    var log, ps := Exec(net, steps).log, Exec(net, steps).nodes[a].pset;
    assert NodeHeard(log, a, Exec(net, steps).nodes[a]);
    assert EntryHeard(log, a, ps[IndexOf(ps, b)]);
    BackIsDialogue(log, a, b);
  }

  lemma BackIsDialogue(log: seq<Record>, a: u32, b: u32)
    requires HeardBack(log, a, b)
    ensures exists i: nat, j: nat, k: nat :: Dialogue(log, a, b, i, j, k)
  {
    var j: nat, k: nat :| HeardBackAt(log, a, b, j, k);
    var i: nat :| i < j && i < |log| && log[i].Heard? && log[i].at == b && log[i].src == a;
    assert Dialogue(log, a, b, i, j, k);
  }
}
