/** The physical neighbour set as a list of entries, newest first: the list operations of
    vrr_data.c, the failure sweep of vrr_core.c and one round of pset_update_handler. */
module PhysicalSet {
  import opened Types

  /** pset_list_t */
  datatype Entry = Entry(node: u32, status: Status, active: bool, mac: Mac, fail: nat)

  type Pset = seq<Entry>

  /** struct pset_update: what a received hello asks for. The active field is the raw word. */
  datatype Update = Update(node: u32, mac: Mac, trans: Trans, active: u32)

  /** Index of the first entry for a node, |ps| if there is none. */
  function IndexOf(ps: Pset, node: u32): (k: nat)
    ensures k <= |ps|
    ensures k < |ps| ==> ps[k].node == node
    ensures forall i | 0 <= i < k :: ps[i].node != node
  {
    if ps == [] || ps[0].node == node then 0 else 1 + IndexOf(ps[1..], node)
  }

  /** pset_contains */
  predicate Contains(ps: Pset, node: u32) {
    IndexOf(ps, node) < |ps|
  }

  /** pset_get_status */
  function StatusOf(ps: Pset, node: u32): Status {
    if Contains(ps, node) then ps[IndexOf(ps, node)].status else Unknown
  }

  /** pset_get_active */
  function ActiveOf(ps: Pset, node: u32): u32 {
    if Contains(ps, node) && ps[IndexOf(ps, node)].active then 1 else 0
  }

  /** pset_get_mac */
  function MacOf(ps: Pset, node: u32): Option<Mac> {
    if Contains(ps, node) then Some(ps[IndexOf(ps, node)].mac) else None
  }

  /** pset_lookup_mac */
  function LookupMac(ps: Pset, mac: Mac): Option<u32> {
    if ps == [] then None
    else if ps[0].mac == mac then Some(ps[0].node)
    else LookupMac(ps[1..], mac)
  }

  /** pset_add */
  function AddEntry(ps: Pset, node: u32, mac: Mac, status: Status, active: u32): Pset {
    if Contains(ps, node) then ps else [Entry(node, status, active != 0, mac, 0)] + ps
  }

  /** pset_update_status */
  function SetStatus(ps: Pset, node: u32, status: Status, active: u32): Pset {
    var k := IndexOf(ps, node);
    if k < |ps| then ps[k := ps[k].(status := status, active := active != 0)] else ps
  }

  /** pset_reset_fail_count */
  function ResetFail(ps: Pset, node: u32): Pset {
    var k := IndexOf(ps, node);
    if k < |ps| then ps[k := ps[k].(fail := 0)] else ps
  }

  /** One entry in detect_failures: aged, marked at the first threshold. */
  function Age(e: Entry): Entry {
    e.(fail := e.fail + 1, status := if e.fail + 1 >= VRR_FAIL_TIMEOUT then Failed else e.status)
  }

  predicate Expires(e: Entry) {
    e.fail + 1 >= 2 * VRR_FAIL_TIMEOUT
  }

  /** detect_failures: every entry ages, those at the second threshold go. */
  function Sweep(ps: Pset): Pset {
    if ps == [] then []
    else (if Expires(ps[0]) then [] else [Age(ps[0])]) + Sweep(ps[1..])
  }

  /** The hello_trans table. */
  function HelloTrans(cur: Status, trans: Trans): Status {
    match cur
    case Linked => (match trans case SaysLinked => Linked case SaysPending => Linked case SaysMissing => Failed)
    case Pending => (match trans case SaysLinked => Linked case SaysPending => Linked case SaysMissing => Pending)
    case Failed => (match trans case SaysLinked => Failed case SaysPending => Pending case SaysMissing => Pending)
    case Unknown => (match trans case SaysLinked => Failed case SaysPending => Linked case SaysMissing => Pending)
  }

  /** One round of the loop in pset_update_handler. */
  function ApplyUpdate(ps: Pset, u: Update): Pset {
    var cur := StatusOf(ps, u.node);
    var next := HelloTrans(cur, u.trans);
    if cur == Unknown then AddEntry(ps, u.node, u.mac, next, u.active)
    else if cur != next || ActiveOf(ps, u.node) != u.active then SetStatus(ps, u.node, next, u.active)
    else ps
  }

  function ApplyUpdates(ps: Pset, us: seq<Update>): Pset
    decreases |us|
  {
    if us == [] then ps else ApplyUpdates(ApplyUpdate(ps, us[0]), us[1..])
  }

  // ---- Invariant: one entry per node, and no stored status is UNKNOWN ----

  ghost predicate Valid(ps: Pset) {
    && (forall i, j | 0 <= i < j < |ps| :: ps[i].node != ps[j].node)
    && (forall i | 0 <= i < |ps| :: ps[i].status != Unknown)
  }

  lemma UpdateKeepsValid(ps: Pset, u: Update)
    requires Valid(ps)
    ensures Valid(ApplyUpdate(ps, u))
    ensures StatusOf(ApplyUpdate(ps, u), u.node) == HelloTrans(StatusOf(ps, u.node), u.trans)
    ensures forall n | n != u.node :: StatusOf(ApplyUpdate(ps, u), n) == StatusOf(ps, n)
  {
    var ps' := ApplyUpdate(ps, u);
    var k := IndexOf(ps, u.node);
    if k == |ps| {
      assert ps'[0].node == u.node;
    } else {
      assert ps'[k].node == u.node && |ps'| == |ps|;
      Found(ps', k);
    }
    forall n | n != u.node ensures StatusOf(ps', n) == StatusOf(ps, n) {
      var i := IndexOf(ps, n);
      if k == |ps| {
        assert ps'[1..] == ps;
      } else {
        SameIndex(ps, ps', n);
      }
    }
  }

  /** The ids of a list, in order. */
  function NodesOf(ps: Pset): (r: seq<u32>)
    ensures |r| == |ps| && forall i | 0 <= i < |ps| :: r[i] == ps[i].node
  {
    seq(|ps|, i requires 0 <= i < |ps| => ps[i].node)
  }

  /** What else a handled update does: the node's flag is what the hello said, whether it was stored
      or not; no other flag changes, no stored address or fail count does, and the order of the list
      stays, with a new neighbour in front. */
  lemma UpdateStoresFlag(ps: Pset, u: Update)
    requires Valid(ps)
    ensures ActiveOf(ApplyUpdate(ps, u), u.node) == if u.active != 0 then 1 else 0
    ensures forall n | n != u.node :: ActiveOf(ApplyUpdate(ps, u), n) == ActiveOf(ps, n)
    ensures NodesOf(ApplyUpdate(ps, u)) == (if Contains(ps, u.node) then [] else [u.node]) + NodesOf(ps)
    ensures var ps' := ApplyUpdate(ps, u);
            forall i | 0 <= i < |ps| :: && ps'[|ps'| - |ps| + i].mac == ps[i].mac
                                        && ps'[|ps'| - |ps| + i].fail == ps[i].fail
    ensures !Contains(ps, u.node) ==> var e := ApplyUpdate(ps, u)[0]; e.mac == u.mac && e.fail == 0
  {
    var ps' := ApplyUpdate(ps, u);
    var k := IndexOf(ps, u.node);
    if k == |ps| {
      assert ps'[1..] == ps;
    } else {
      assert ps[k].status != Unknown && |ps'| == |ps|;
      SameIndex(ps, ps', u.node);
    }
    forall n | n != u.node ensures ActiveOf(ps', n) == ActiveOf(ps, n) {
      if k < |ps| {
        SameIndex(ps, ps', n);
      }
    }
  }

  lemma Found(ps: Pset, k: nat)
    requires k < |ps| && forall i, j | 0 <= i < j < |ps| :: ps[i].node != ps[j].node
    ensures IndexOf(ps, ps[k].node) == k
  {
  }

  /** Lists with the same ids in the same places are searched alike. */
  lemma SameIndex(ps: Pset, ps': Pset, n: u32)
    requires |ps'| == |ps| && forall i | 0 <= i < |ps| :: ps'[i].node == ps[i].node
    ensures IndexOf(ps', n) == IndexOf(ps, n)
  {
    var i, j := IndexOf(ps, n), IndexOf(ps', n);
  }

  lemma ResetKeepsValid(ps: Pset, node: u32)
    requires Valid(ps)
    ensures Valid(ResetFail(ps, node))
    ensures forall n :: StatusOf(ResetFail(ps, node), n) == StatusOf(ps, n)
    ensures forall n :: MacOf(ResetFail(ps, node), n) == MacOf(ps, n)
  {
    forall n {
      SameIndex(ps, ResetFail(ps, node), n);
    }
  }

  lemma ResetKeepsMac(ps: Pset, src: u32, x: u32)
    ensures MacOf(ResetFail(ps, src), x) == MacOf(ps, x)
  {
    SameIndex(ps, ResetFail(ps, src), x);
  }

  /** Every surviving entry is the aged form of an entry that did not expire, and conversely. */
  lemma {:induction false} SweepAges(ps: Pset)
    ensures forall e | e in Sweep(ps) :: exists i :: 0 <= i < |ps| && !Expires(ps[i]) && e == Age(ps[i])
    ensures forall i | 0 <= i < |ps| && !Expires(ps[i]) :: Age(ps[i]) in Sweep(ps)
  {
    if ps != [] {
      SweepAges(ps[1..]);
      forall e | e in Sweep(ps) ensures exists i :: 0 <= i < |ps| && !Expires(ps[i]) && e == Age(ps[i]) {
        if e in Sweep(ps[1..]) {
          var i :| 0 <= i < |ps[1..]| && !Expires(ps[1..][i]) && e == Age(ps[1..][i]);
          assert e == Age(ps[i + 1]) && !Expires(ps[i + 1]);
        } else {
          assert e == Age(ps[0]);
        }
      }
      forall i | 0 <= i < |ps| && !Expires(ps[i]) ensures Age(ps[i]) in Sweep(ps) {
        assert i == 0 || ps[i] == ps[1..][i - 1];
      }
    }
  }

  lemma {:induction false} SweepKeepsValid(ps: Pset)
    requires Valid(ps)
    ensures Valid(Sweep(ps))
  {
    if ps != [] {
      SweepKeepsValid(ps[1..]);
      SweepAges(ps[1..]);
      forall i | 0 <= i < |Sweep(ps[1..])| ensures Sweep(ps[1..])[i].node != ps[0].node {
        assert Sweep(ps[1..])[i] in Sweep(ps[1..]);
      }
    }
  }

  lemma {:induction false} SweepConcat(a: Pset, b: Pset)
    ensures Sweep(a + b) == Sweep(a) + Sweep(b)
  {
    if a == [] {
      assert a + b == b;
    } else {
      assert (a + b)[1..] == a[1..] + b;
      SweepConcat(a[1..], b);
    }
  }

  lemma {:induction false} LookupFindsMac(ps: Pset, mac: Mac)
    ensures match LookupMac(ps, mac)
            case None => forall i | 0 <= i < |ps| :: ps[i].mac != mac
            case Some(n) => exists i :: 0 <= i < |ps| && ps[i].node == n && ps[i].mac == mac
  {
    if ps != [] && ps[0].mac != mac {
      LookupFindsMac(ps[1..], mac);
      match LookupMac(ps, mac)
      case None =>
      case Some(n) =>
        var i :| 0 <= i < |ps[1..]| && ps[1..][i].node == n && ps[1..][i].mac == mac;
        assert ps[i + 1].node == n && ps[i + 1].mac == mac;
    }
  }

  // ---- The three classes of neighbours that a hello lists ----

  datatype Class = LinkedActive | LinkedInactive | PendingClass

  predicate InClass(e: Entry, c: Class) {
    match c
    case LinkedActive => e.status == Linked && e.active
    case LinkedInactive => e.status == Linked && !e.active
    case PendingClass => e.status == Pending
  }

  /** One cached array slot. */
  datatype Slot = Slot(node: u32, mac: Mac)

  function SlotIf(e: Entry, c: Class): seq<Slot> {
    if InClass(e, c) then [Slot(e.node, e.mac)] else []
  }

  /** The members of a class, in list order. */
  function Listed(ps: Pset, c: Class): seq<Slot> {
    if ps == [] then [] else SlotIf(ps[0], c) + Listed(ps[1..], c)
  }

  /** The ids a hello lists for a class. */
  function ListedNodes(ps: Pset, c: Class): (r: seq<u32>)
    ensures |r| == |Listed(ps, c)|
    ensures forall i | 0 <= i < |r| :: r[i] == Listed(ps, c)[i].node
  {
    var l := Listed(ps, c);
    seq(|l|, i requires 0 <= i < |l| => l[i].node)
  }

  /** At most VRR_PSET_SIZE neighbours per class: what the cached arrays can hold. */
  ghost predicate Fits(ps: Pset) {
    forall c: Class :: |Listed(ps, c)| <= VRR_PSET_SIZE
  }

  lemma {:induction false} ListedConcat(a: Pset, b: Pset, c: Class)
    ensures Listed(a + b, c) == Listed(a, c) + Listed(b, c)
  {
    if a == [] {
      assert a + b == b;
    } else {
      assert (a + b)[1..] == a[1..] + b;
      ListedConcat(a[1..], b, c);
    }
  }

  lemma ListedAround(a: Pset, e: Entry, b: Pset, c: Class)
    ensures Listed(a + [e] + b, c) == Listed(a, c) + SlotIf(e, c) + Listed(b, c)
  {
    ListedConcat(a + [e], b, c);
    ListedConcat(a, [e], c);
  }

  lemma {:induction false} ListedMember(ps: Pset, c: Class, s: Slot)
    requires s in Listed(ps, c)
    ensures exists i :: 0 <= i < |ps| && InClass(ps[i], c) && s == Slot(ps[i].node, ps[i].mac)
  {
    if s in Listed(ps[1..], c) {
      ListedMember(ps[1..], c, s);
      var i :| 0 <= i < |ps[1..]| && InClass(ps[1..][i], c) && s == Slot(ps[1..][i].node, ps[1..][i].mac);
      assert InClass(ps[i + 1], c) && s == Slot(ps[i + 1].node, ps[i + 1].mac);
    } else {
      assert InClass(ps[0], c) && s == Slot(ps[0].node, ps[0].mac);
    }
  }

  lemma ListedIsStored(ps: Pset, c: Class, n: u32)
    requires Valid(ps) && n in ListedNodes(ps, c)
    ensures Contains(ps, n) && InClass(ps[IndexOf(ps, n)], c)
  {
    var l := Listed(ps, c);
    var i :| 0 <= i < |l| && ListedNodes(ps, c)[i] == n;
    ListedMember(ps, c, l[i]);
    var k :| 0 <= k < |ps| && InClass(ps[k], c) && l[i] == Slot(ps[k].node, ps[k].mac);
    Found(ps, k);
  }

  lemma StoredIsListed(ps: Pset, c: Class, k: nat)
    requires k < |ps| && InClass(ps[k], c)
    ensures ps[k].node in ListedNodes(ps, c)
  {
    assert ps == ps[..k] + [ps[k]] + ps[k + 1..];
    ListedAround(ps[..k], ps[k], ps[k + 1..], c);
    assert ListedNodes(ps, c)[|Listed(ps[..k], c)|] == ps[k].node;
  }

  /** A hello lists a node in a class exactly when the set holds it with that status and flag. */
  lemma ListedByStatus(ps: Pset, c: Class, n: u32)
    requires Valid(ps)
    ensures n in ListedNodes(ps, c) <==> Contains(ps, n) && InClass(ps[IndexOf(ps, n)], c)
  {
    if n in ListedNodes(ps, c) {
      ListedIsStored(ps, c, n);
    }
    var k := IndexOf(ps, n);
    if k < |ps| && InClass(ps[k], c) {
      StoredIsListed(ps, c, k);
    }
  }
}
