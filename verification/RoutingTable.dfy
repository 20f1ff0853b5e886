/** The routing table as a map from endpoint to its list of route entries, newest first
    (what the search tree of vrr_data.c stands for). */
module RoutingTable {
  import opened Types
  import opened RingArithmetic

  datatype Route = Route(ea: u32, eb: u32, na: u32, nb: u32, pid: u32)

  type Table = map<u32, seq<Route>>

  function ListOf(t: Table, e: u32): seq<Route> {
    if e in t then t[e] else []
  }

  function Push(t: Table, e: u32, r: Route): Table {
    if e == 0 then t else t[e := [r] + ListOf(t, e)]
  }

  /** rt_add_route: one copy under each non-zero endpoint. */
  function AddRoute(t: Table, r: Route): Table {
    Push(Push(t, r.ea, r), r.eb, r)
  }

  /** Index of the first entry with the path id, |l| if there is none. */
  function IndexOfPid(l: seq<Route>, pid: u32): (k: nat)
    ensures k <= |l|
    ensures k < |l| ==> l[k].pid == pid
    ensures forall i | 0 <= i < k :: l[i].pid != pid
  {
    if l == [] || l[0].pid == pid then 0 else 1 + IndexOfPid(l[1..], pid)
  }

  function WithoutIndex(l: seq<Route>, k: nat): seq<Route>
    requires k < |l|
  {
    l[..k] + l[k + 1..]
  }

  predicate Stores(t: Table, e: u32, pid: u32) {
    IndexOfPid(ListOf(t, e), pid) < |ListOf(t, e)|
  }

  /** The entry that rt_remove_route(e, pid) returns. */
  function Removed(t: Table, e: u32, pid: u32): Option<Route> {
    var l := ListOf(t, e);
    var k := IndexOfPid(l, pid);
    if k < |l| then Some(l[k]) else None
  }

  /** rt_remove_route: only the copy stored under e goes. */
  function RemoveRoute(t: Table, e: u32, pid: u32): Table {
    var l := ListOf(t, e);
    var k := IndexOfPid(l, pid);
    if k < |l| then t[e := WithoutIndex(l, k)] else t
  }

  /** Key 0 never occurs, and every entry is stored under one of its own endpoints. */
  ghost predicate Valid(t: Table) {
    && 0 !in t
    && forall e, i | e in t && 0 <= i < |t[e]| :: t[e][i].ea == e || t[e][i].eb == e
  }

  lemma AddKeepsValid(t: Table, r: Route)
    requires Valid(t)
    ensures Valid(AddRoute(t, r))
  {
  }

  lemma RemoveKeepsValid(t: Table, e: u32, pid: u32)
    requires Valid(t)
    ensures Valid(RemoveRoute(t, e, pid))
  {
  }

  /** Adding a route and removing it under both endpoints restores every list, whatever
      duplicates were stored before and whether or not the endpoints are 0 or equal. */
  lemma AddThenRemoveRestores(t: Table, r: Route, e: u32)
    requires 0 !in t
    ensures ListOf(RemoveRoute(RemoveRoute(AddRoute(t, r), r.ea, r.pid), r.eb, r.pid), e) == ListOf(t, e)
  {
    var added := AddRoute(t, r);
    var once := RemoveRoute(added, r.ea, r.pid);
    if r.ea == r.eb != 0 {
      assert ListOf(added, r.ea) == [r] + ([r] + ListOf(t, r.ea));
      assert ListOf(once, r.ea) == [r] + ListOf(t, r.ea);
      PopHead(once, r.ea, r);
    } else {
      if r.ea != 0 {
        PopHead(added, r.ea, r);
      }
      if r.eb != 0 {
        PopHead(once, r.eb, r);
      }
    }
  }

  lemma PopHead(t: Table, e: u32, r: Route)
    requires e in t && t[e] != [] && t[e][0] == r
    ensures RemoveRoute(t, e, r.pid) == t[e := t[e][1..]]
  {
    assert WithoutIndex(t[e], 0) == t[e][1..];
  }

  // ---- Next hop ----

  function MaxPid(best: Option<Route>): u32 {
    if best.Some? then best.value.pid else 0
  }

  /** The entry route_list_search settles on: scanned from the head, replaced only by a strictly
      larger (unsigned) path id. */
  function Best(l: seq<Route>): Option<Route> {
    if l == [] then None
    else
      var rest := Best(l[..|l| - 1]);
      if l[|l| - 1].pid > MaxPid(rest) then Some(l[|l| - 1]) else rest
  }

  /** r stands at position k, has a non-zero path id, no entry has a larger one, and no newer
      entry has the same. */
  ghost predicate IsNewestHighest(l: seq<Route>, r: Route, k: nat) {
    && k < |l| && l[k] == r && r.pid > 0
    && (forall i | 0 <= i < |l| :: l[i].pid <= r.pid)
    && (forall i | 0 <= i < k :: l[i].pid < r.pid)
  }

  lemma {:induction false} BestIsNewestHighest(l: seq<Route>)
    ensures Best(l).None? <==> forall i | 0 <= i < |l| :: l[i].pid == 0
    ensures Best(l).Some? ==> exists k :: IsNewestHighest(l, Best(l).value, k)
  {
    if l != [] {
      var n := |l| - 1;
      BestIsNewestHighest(l[..n]);
      assert l == l[..n] + [l[n]];
      if l[n].pid > MaxPid(Best(l[..n])) {
        assert IsNewestHighest(l, l[n], n);
      } else if Best(l).Some? {
        var k :| IsNewestHighest(l[..n], Best(l).value, k);
        assert IsNewestHighest(l, Best(l).value, k);
      }
    }
  }

  /** route_list_search: the hop on the chosen entry's side of the endpoint, with the fallback
      for an end that is ME. */
  function ListNext(l: seq<Route>, endpoint: u32, me: u32): u32 {
    match Best(l)
    case None => 0
    case Some(r) =>
      if GetDiff(endpoint, r.ea) < GetDiff(endpoint, r.eb) then
        if r.ea != me then r.na else r.nb
      else if r.eb != me then r.nb else r.na
  }

  /** rt_get_next: 0 for ME and for an endpoint without a node. */
  function NextHop(t: Table, me: u32, dest: u32): u32 {
    if dest !in t || dest == me then 0 else ListNext(t[dest], dest, me)
  }

  /** The hop toward dest on an entry that has dest as an end. */
  function HopToward(r: Route, dest: u32): u32 {
    if r.eb == dest then r.nb else r.na
  }

  /** For a destination other than ME the next hop leads toward that destination on the newest
      stored route with the highest path id, and is 0 exactly when no route qualifies or that hop
      is itself 0; the fallback for ME plays no part. For ME itself it is 0, whatever is stored. */
  lemma NextHopLeadsToDestination(t: Table, me: u32, dest: u32)
    requires Valid(t)
    ensures dest == me || (forall i | 0 <= i < |ListOf(t, dest)| :: ListOf(t, dest)[i].pid == 0) ==>
              NextHop(t, me, dest) == 0
    ensures dest != me && (exists i | 0 <= i < |ListOf(t, dest)| :: ListOf(t, dest)[i].pid != 0) ==>
              exists r, k :: IsNewestHighest(ListOf(t, dest), r, k) && NextHop(t, me, dest) == HopToward(r, dest)
  {
    var l := ListOf(t, dest);
    BestIsNewestHighest(l);
    if dest != me && Best(l).Some? {
      var r := Best(l).value;
      var k :| IsNewestHighest(l, r, k);
      DiffIsMetric(dest, r.ea, r.eb);
      DiffIsMetric(dest, r.eb, r.ea);
      assert NextHop(t, me, dest) == HopToward(r, dest);
    }
  }

  /** Which entry wins does not depend on anything but the list: there is only one such entry. */
  lemma NewestHighestIsUnique(l: seq<Route>, r: Route, k: nat, r': Route, k': nat)
    requires IsNewestHighest(l, r, k) && IsNewestHighest(l, r', k')
    ensures k == k' && r == r'
  {
  }
}
