/** The neighbour list with its cached class arrays (struct pset_state), as mutable state:
    pset_state_update, detect_failures, active_timeout and pset_update_handler. */
module NeighbourTable {
  import opened Types
  import opened PhysicalSet
  import opened Wire

  /** The slots that an array must hold, from the front. */
  ghost predicate Holds(a: array<Slot>, slots: seq<Slot>)
    reads a
  {
    |slots| <= a.Length && a[..|slots|] == slots
  }

  class Neighbours {
    const me: u32
    var list: Pset
    var updates: seq<Update>
    var active: bool
    var timeout: nat

    // struct pset_state: each id array and its MAC array are one array of slots
    const la: array<Slot>
    const lna: array<Slot>
    const pend: array<Slot>
    var laSize: nat
    var lnaSize: nat
    var pSize: nat

    ghost predicate Shape()
    {
      && la.Length == lna.Length == pend.Length == VRR_PSET_SIZE
      && la != lna && la != pend && lna != pend
    }

    /** The first slots of each array are the list-order projections of this list. */
    ghost predicate Filled(ps: Pset)
      reads la, lna, pend
    {
      && Holds(la, Listed(ps, LinkedActive))
      && Holds(lna, Listed(ps, LinkedInactive))
      && Holds(pend, Listed(ps, PendingClass))
    }

    ghost predicate Counted(ps: Pset, a: nat, n: nat, p: nat)
    {
      a == |Listed(ps, LinkedActive)| && n == |Listed(ps, LinkedInactive)| && p == |Listed(ps, PendingClass)|
    }

    /** The cached arrays and sizes are the projections of the neighbour list. */
    ghost predicate Coherent()
      reads this, la, lna, pend
    {
      Filled(list) && Counted(list, laSize, lnaSize, pSize)
    }

    ghost predicate Valid()
      reads this, la, lna, pend
    {
      Shape() && Coherent()
    }

    /** What the arrays hold fits into them. */
    lemma CoherentFits()
      requires Shape() && Coherent()
      ensures Fits(list)
    {
      forall c: Class ensures |Listed(list, c)| <= VRR_PSET_SIZE {
        match c
        case LinkedActive =>
        case LinkedInactive =>
        case PendingClass =>
      }
    }

    constructor (me: u32)
      ensures Valid() && fresh(la) && fresh(lna) && fresh(pend)
      ensures this.me == me && list == [] && updates == [] && !active && timeout == 0
    {
      this.me := me;
      list, updates, active, timeout := [], [], false, 0;
      la, lna, pend := new Slot[VRR_PSET_SIZE], new Slot[VRR_PSET_SIZE], new Slot[VRR_PSET_SIZE];
      laSize, lnaSize, pSize := 0, 0, 0;
    }

    /** The loop body of pset_state_update. */
    method Place(e: Entry, a: nat, n: nat, p: nat, ghost es: Pset) returns (a': nat, n': nat, p': nat)
      requires Shape() && Filled(es) && Counted(es, a, n, p) && Fits(es + [e])
      modifies la, lna, pend
      ensures Filled(es + [e]) && Counted(es + [e], a', n', p')
    {
      OneMore(es, e);
      a', n', p' := a, n, p;
      if e.status == Linked {
        if e.active {
          la[a] := Slot(e.node, e.mac);
          a' := a + 1;
        } else {
          lna[n] := Slot(e.node, e.mac);
          n' := n + 1;
        }
      } else if e.status == Pending {
        pend[p] := Slot(e.node, e.mac);
        p' := p + 1;
      }
    }

    /** pset_state_update */
    method StateUpdate()
      requires Shape() && Fits(list)
      modifies la, lna, pend, this`laSize, this`lnaSize, this`pSize
      ensures Coherent()
    {
      var a, n, p := 0, 0, 0;
      for i := 0 to |list|
        invariant Filled(list[..i]) && Counted(list[..i], a, n, p)
      {
        assert list[..i + 1] == list[..i] + [list[i]];
        PrefixFits(list, i + 1);
        a, n, p := Place(list[i], a, n, p, list[..i]);
      }
      assert list[..|list|] == list;
      laSize, lnaSize, pSize := a, n, p;
    }

    /** The first half of a round of detect_failures: count, and mark at the first threshold,
        which is the only place that refreshes the cache. */
    method AgeEntry(i: nat)
      requires Shape() && Coherent() && i < |list|
      modifies this`list, la, lna, pend, this`laSize, this`lnaSize, this`pSize
      ensures Coherent() && list == old(list)[i := Age(old(list)[i])]
    {
      hide Listed, Fits;
      CoherentFits();
      ghost var done, rest := list[..i], list[i + 1..];
      var tmp := list[i];
      var status := tmp.status;
      var aged := tmp.(fail := tmp.fail + 1);
      assert list == done + [tmp] + rest && list[i := aged] == done + [aged] + rest;
      Swap(done, tmp, aged, rest);
      list := list[i := aged];
      if aged.fail >= VRR_FAIL_TIMEOUT && status != Failed {
        var marked := aged.(status := Failed);
        assert list[i := marked] == done + [marked] + rest;
        Swap(done, aged, marked, rest);
        list := list[i := marked];
        StateUpdate();
      }
    }

    /** The second half: an expired entry is unlinked without refreshing the cache. */
    method UnlinkEntry(i: nat)
      requires Shape() && Coherent() && i < |list| && list[i].status == Failed
      modifies this`list
      ensures Coherent() && list == old(list[..i]) + old(list[i + 1..])
    {
      assert list == list[..i] + [list[i]] + list[i + 1..];
      Unlink(list[..i], list[i], list[i + 1..]);
      list := list[..i] + list[i + 1..];
    }

    /** One round of detect_failures, and where the next one starts. */
    method SweepEntry(i: nat) returns (next: nat)
      requires Shape() && Coherent() && i < |list|
      modifies this`list, la, lna, pend, this`laSize, this`lnaSize, this`pSize
      ensures Coherent()
      ensures var e := old(list)[i];
              if Expires(e) then next == i && list == old(list)[..i] + old(list)[i + 1..]
              else next == i + 1 && list == old(list)[i := Age(e)]
    {
      AgeEntry(i);
      if list[i].fail >= 2 * VRR_FAIL_TIMEOUT {
        UnlinkEntry(i);
        return i;
      }
      return i + 1;
    }

    /** detect_failures */
    method DetectFailures()
      requires Valid()
      modifies this`list, la, lna, pend, this`laSize, this`lnaSize, this`pSize
      ensures Valid() && list == Sweep(old(list))
    {
      ghost var before := list;
      ghost var k := 0;
      assert Swept(before, 0) == list;
      hide Coherent, Sweep, Age, Expires;
      var i := 0;
      while i < |list|
        invariant k <= |before| && list == Swept(before, k) && i == |Sweep(before[..k])|
        invariant Coherent()
        decreases |before| - k
      {
        SweepRound(before, k);
        i := SweepEntry(i);
        k := k + 1;
      }
      assert before[..k] == before;
    }

    // ---- List walks of vrr_data.c ----

    /** list_for_each over the neighbours, up to the first entry for a node. */
    method Locate(node: u32) returns (k: nat)
      ensures k == IndexOf(list, node)
    {
      k := 0;
      while k < |list| && list[k].node != node
        invariant k <= IndexOf(list, node)
      {
        k := k + 1;
      }
    }

    /** pset_get_status */
    method GetStatus(node: u32) returns (st: Status)
      ensures st == StatusOf(list, node)
    {
      var k := Locate(node);
      return if k < |list| then list[k].status else Unknown;
    }

    /** pset_get_active */
    method GetActive(node: u32) returns (active: u32)
      ensures active == ActiveOf(list, node)
    {
      var k := Locate(node);
      return if k < |list| && list[k].active then 1 else 0;
    }

    /** pset_get_mac */
    method GetMac(node: u32) returns (mac: Option<Mac>)
      ensures mac == MacOf(list, node)
    {
      var k := Locate(node);
      return if k < |list| then Some(list[k].mac) else None;
    }

    /** pset_lookup_mac */
    method FindMac(mac: Mac) returns (node: Option<u32>)
      ensures node == LookupMac(list, mac)
    {
      for i := 0 to |list|
        invariant LookupMac(list[i..], mac) == LookupMac(list, mac)
      {
        if list[i].mac == mac {
          return Some(list[i].node);
        }
        assert list[i..][1..] == list[i + 1..];
      }
      return None;
    }

    /** pset_get_proxy, up to the random choice: whether there is a linked active neighbour. */
    method HasProxy() returns (found: bool)
      ensures found <==> Listed(list, LinkedActive) != []
    {
      for i := 0 to |list|
        invariant Listed(list[..i], LinkedActive) == []
      {
        assert list == list[..i] + [list[i]] + list[i + 1..];
        ListedAround(list[..i], list[i], list[i + 1..], LinkedActive);
        if list[i].status == Linked && list[i].active {
          return true;
        }
        assert list[..i + 1] == list[..i] + [list[i]];
        ListedConcat(list[..i], [list[i]], LinkedActive);
      }
      assert list[..|list|] == list;
      return false;
    }

    /** pset_reset_fail_count and reset_active_timeout, the common prologue of vrr_rcv. */
    method Accept(src: u32)
      requires Valid()
      modifies this`list, this`timeout
      ensures Valid() && list == ResetFail(old(list), src) && timeout == 0
    {
      timeout := 0;
      var k := Locate(src);
      if k < |list| {
        var e := list[k].(fail := 0);
        assert list == list[..k] + [list[k]] + list[k + 1..] && list[k := e] == list[..k] + [e] + list[k + 1..];
        Swap(list[..k], list[k], e, list[k + 1..]);
        list := list[k := e];
      }
    }

    // ---- pset_update_handler ----

    /** One round of pset_update_handler; also whether it sends a setup request to the node. */
    method HandleOne(u: Update) returns (request: bool)
      requires Valid() && Fits(ApplyUpdate(list, u))
      modifies this`list, la, lna, pend, this`laSize, this`lnaSize, this`pSize
      ensures Valid() && list == ApplyUpdate(old(list), u)
      ensures request <==> WantsRequest(old(list), u, active)
    {
      var cur := GetStatus(u.node);
      var next := HelloTrans(cur, u.trans);
      var curActive := GetActive(u.node);
      request := !active && u.active != 0 && next == Linked;
      var k := Locate(u.node);
      if cur == Unknown {
        if k == |list| {
          list := [Entry(u.node, next, u.active != 0, u.mac, 0)] + list;
        }
        StateUpdate();
      } else if cur != next || curActive != u.active {
        list := list[k := list[k].(status := next, active := u.active != 0)];
        StateUpdate();
      }
    }

    /** pset_update_handler: drain the queued updates in order. The targets are the nodes that
        get a setup request. */
    method HandleUpdates() returns (targets: seq<u32>)
      requires Valid() && AllFit(list, updates)
      modifies this`list, this`updates, la, lna, pend, this`laSize, this`lnaSize, this`pSize
      ensures Valid() && updates == [] && list == ApplyUpdates(old(list), old(updates))
      ensures targets == Requests(old(list), old(updates), active)
    {
      targets := [];
      while updates != []
        invariant Valid() && AllFit(list, updates)
        invariant ApplyUpdates(list, updates) == ApplyUpdates(old(list), old(updates))
        invariant targets + Requests(list, updates, active) == Requests(old(list), old(updates), active)
        decreases |updates|
      {
        Unroll(list, updates, active, targets);
        var request := HandleOne(updates[0]);
        targets := targets + if request then [updates[0].node] else [];
        updates := updates[1..];
      }
    }

    // ---- Hello ----

    /** The hello that the neighbour list calls for. */
    ghost function HelloDue(): Hello
      reads this
    {
      HelloOf(active, list)
    }

    /** send_hpkt: the payload is built from the cached arrays at a running index. */
    method SendHello(h: Host) returns (payload: seq<u8>)
      requires Valid()
      ensures Readable(HelloDue()) && payload == Words(HelloWords(HelloDue()))
    {
      ghost var x := HelloDue();
      var la', lna', p' := IdsOf(la[..laSize]), IdsOf(lna[..lnaSize]), IdsOf(pend[..pSize]);
      assert la' == x.la && lna' == x.lna && p' == x.pend;
      payload := SendWords(h, [if active then 1 else 0, laSize, lnaSize, pSize] + la' + lna' + p');
    }

    /** vrr_rcv_hello: queue what the hello says about this node, or drop it. */
    method RcvHello(h: Host, src: u32, mac: Mac, payload: seq<u8>) returns (ok: bool)
      modifies this`updates
      ensures match ParseHello(WordsOf(payload))
              case None => !ok && updates == old(updates)
              case Some(x) => ok && updates == old(updates) + [Update(src, mac, Says(x, me), x.active)]
    {
      var x := DecodeHello(h, payload);
      if x == None {
        return false;
      }
      var trans := ScanHello(x.value, me);
      updates := updates + [Update(src, mac, trans, x.value.active)];
      return true;
    }

    // ---- Timer ----

    /** The node counts as active from now on. */
    method Activate()
      requires Valid()
      modifies this`active
      ensures Valid() && active
    {
      active := true;
    }

    /** active_timeout */
    method ActiveTimeout()
      modifies this`active, this`timeout
      ensures active == (old(active) || old(timeout) + 1 == VRR_ACTIVE_TIMEOUT)
      ensures timeout == if old(active) then old(timeout) else old(timeout) + 1
    {
      if active {
        return;
      }
      timeout := timeout + 1;
      if timeout == VRR_ACTIVE_TIMEOUT {
        active := true;
      }
    }

    /** vrr_workqueue_handler: sweep, then age the node itself, then say hello. The hello
        describes the neighbours that the sweep left. */
    method Tick(h: Host) returns (payload: seq<u8>)
      requires Valid()
      modifies this`list, this`active, this`timeout, la, lna, pend, this`laSize, this`lnaSize, this`pSize
      ensures Valid() && list == Sweep(old(list))
      ensures active == (old(active) || old(timeout) + 1 == VRR_ACTIVE_TIMEOUT)
      ensures timeout == if old(active) then old(timeout) else old(timeout) + 1
      ensures Readable(HelloOf(active, Sweep(old(list))))
              && payload == Words(HelloWords(HelloOf(active, Sweep(old(list)))))
    {
      DetectFailures();
      ActiveTimeout();
      payload := SendHello(h);
    }
  }

  function IdsOf(slots: seq<Slot>): seq<u32> {
    seq(|slots|, i requires 0 <= i < |slots| => slots[i].node)
  }

  /** The hello that a node with these neighbours sends. */
  function HelloOf(active: bool, ps: Pset): Hello {
    Hello(if active then 1 else 0,
          ListedNodes(ps, LinkedActive), ListedNodes(ps, LinkedInactive), ListedNodes(ps, PendingClass))
  }

  /** The cached arrays are large enough after every update of the queue. */
  ghost predicate AllFit(ps: Pset, us: seq<Update>)
    decreases |us|
  {
    us == [] || (Fits(ApplyUpdate(ps, us[0])) && AllFit(ApplyUpdate(ps, us[0]), us[1..]))
  }

  predicate WantsRequest(ps: Pset, u: Update, active: bool) {
    !active && u.active != 0 && HelloTrans(StatusOf(ps, u.node), u.trans) == Linked
  }

  /** The nodes that a drained queue of updates sends setup requests to. */
  function Requests(ps: Pset, us: seq<Update>, active: bool): seq<u32>
    decreases |us|
  {
    if us == [] then []
    else
      var first := if WantsRequest(ps, us[0], active) then [us[0].node] else [];
      first + Requests(ApplyUpdate(ps, us[0]), us[1..], active)
  }

  lemma Unroll(ps: Pset, us: seq<Update>, active: bool, targets: seq<u32>)
    requires us != []
    ensures ApplyUpdates(ps, us) == ApplyUpdates(ApplyUpdate(ps, us[0]), us[1..])
    ensures targets + Requests(ps, us, active)
            == (targets + if WantsRequest(ps, us[0], active) then [us[0].node] else [])
               + Requests(ApplyUpdate(ps, us[0]), us[1..], active)
  {
  }

  /** The list when the first k entries have been swept. */
  function Swept(ps: Pset, k: nat): Pset
    requires k <= |ps|
  {
    Sweep(ps[..k]) + ps[k..]
  }

  lemma SweepRound(ps: Pset, k: nat)
    requires k <= |ps| && |Sweep(ps[..k])| < |Swept(ps, k)|
    ensures k < |ps|
    ensures var l, i := Swept(ps, k), |Sweep(ps[..k])|;
            && l[i] == ps[k]
            && Swept(ps, k + 1) == (if Expires(ps[k]) then l[..i] + l[i + 1..] else l[i := Age(ps[k])])
            && |Sweep(ps[..k + 1])| == if Expires(ps[k]) then i else i + 1
  {
    assert ps[..k + 1] == ps[..k] + [ps[k]];
    assert ps[k..] == [ps[k]] + ps[k + 1..];
    SweepConcat(ps[..k], [ps[k]]);
  }

  /** Replacing an entry by one of the same class, or of none, keeps the classes or shrinks one. */
  lemma Swap(a: Pset, e: Entry, e': Entry, b: Pset)
    requires e'.node == e.node && e'.mac == e.mac
    requires (e'.status == e.status && e'.active == e.active) || e'.status == Failed
    ensures Fits(a + [e] + b) ==> Fits(a + [e'] + b)
    ensures e'.status == e.status && e'.active == e.active ==>
              forall c: Class :: Listed(a + [e'] + b, c) == Listed(a + [e] + b, c)
  {
    forall c: Class
      ensures |Listed(a + [e'] + b, c)| <= |Listed(a + [e] + b, c)|
      ensures e'.status == e.status && e'.active == e.active ==> Listed(a + [e'] + b, c) == Listed(a + [e] + b, c)
    {
      ListedAround(a, e, b, c);
      ListedAround(a, e', b, c);
    }
  }

  /** A failed entry is in no class: unlinking it changes none. */
  lemma Unlink(a: Pset, e: Entry, b: Pset)
    requires e.status == Failed
    ensures forall c: Class :: Listed(a + b, c) == Listed(a + [e] + b, c)
  {
    forall c: Class ensures Listed(a + b, c) == Listed(a + [e] + b, c) {
      ListedAround(a, e, b, c);
      ListedConcat(a, b, c);
    }
  }

  /** What one more entry adds to each class. */
  lemma OneMore(es: Pset, e: Entry)
    ensures forall c: Class :: Listed(es + [e], c) == Listed(es, c) + SlotIf(e, c)
  {
    forall c: Class ensures Listed(es + [e], c) == Listed(es, c) + SlotIf(e, c) {
      ListedConcat(es, [e], c);
    }
  }

  lemma PrefixFits(ps: Pset, k: nat)
    requires k <= |ps| && Fits(ps)
    ensures Fits(ps[..k])
  {
    forall c: Class ensures |Listed(ps[..k], c)| <= VRR_PSET_SIZE {
      ListedConcat(ps[..k], ps[k..], c);
      assert ps == ps[..k] + ps[k..];
    }
  }
}
