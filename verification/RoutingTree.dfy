/** The search tree of endpoints behind the routing table, with the loops that walk it
    (vrr_data.c). Nodes are values and the root is a mutable field; rb_insert_color is any
    rearrangement that keeps the in-order sequence. */
module RoutingTree {
  import opened Types
  import opened RingArithmetic
  import opened RoutingTable

  datatype Tree = Leaf | Node(left: Tree, endpoint: u32, routes: seq<Route>, right: Tree)

  /** The table a tree stands for. */
  function Model(t: Tree): Table {
    match t
    case Leaf => map[]
    case Node(l, e, rs, r) => (Model(l) + Model(r))[e := rs]
  }

  ghost predicate Ordered(t: Tree) {
    match t
    case Leaf => true
    case Node(l, e, _, r) =>
      && Ordered(l) && Ordered(r)
      && (forall k | k in Model(l) :: k < e)
      && (forall k | k in Model(r) :: e < k)
  }

  function InOrder(t: Tree): seq<(u32, seq<Route>)> {
    match t
    case Leaf => []
    case Node(l, e, rs, r) => InOrder(l) + [(e, rs)] + InOrder(r)
  }

  // ---- A tree is determined up to shape by its in-order sequence ----

  ghost predicate Increasing(s: seq<(u32, seq<Route>)>) {
    forall i, j | 0 <= i < j < |s| :: s[i].0 < s[j].0
  }

  ghost predicate HasKey(s: seq<(u32, seq<Route>)>, k: u32) {
    exists i :: 0 <= i < |s| && s[i].0 == k
  }

  ghost predicate Lists(s: seq<(u32, seq<Route>)>, m: Table) {
    && (forall i | 0 <= i < |s| :: s[i].0 in m && m[s[i].0] == s[i].1)
    && (forall k | k in m :: HasKey(s, k))
  }

  lemma HasKeyAround(a: seq<(u32, seq<Route>)>, x: (u32, seq<Route>), b: seq<(u32, seq<Route>)>, k: u32)
    requires HasKey(a, k) || x.0 == k || HasKey(b, k)
    ensures HasKey(a + [x] + b, k)
  {
    var s := a + [x] + b;
    if HasKey(a, k) {
      var i :| 0 <= i < |a| && a[i].0 == k;
      assert s[i].0 == k;
    } else if x.0 == k {
      assert s[|a|].0 == k;
    } else {
      var i :| 0 <= i < |b| && b[i].0 == k;
      assert s[|a| + 1 + i].0 == k;
    }
  }

  /** Sequences around a middle element, with smaller keys before and larger keys after it. */
  lemma ListsAround(a: seq<(u32, seq<Route>)>, x: (u32, seq<Route>), b: seq<(u32, seq<Route>)>, ma: Table, mb: Table)
    requires Lists(a, ma) && Lists(b, mb)
    requires (forall k | k in ma :: k < x.0) && (forall k | k in mb :: x.0 < k)
    ensures Lists(a + [x] + b, (ma + mb)[x.0 := x.1])
  {
    var s, m := a + [x] + b, (ma + mb)[x.0 := x.1];
    forall i | 0 <= i < |s| ensures s[i].0 in m && m[s[i].0] == s[i].1 {
      assert s[i] == if i < |a| then a[i] else if i == |a| then x else b[i - |a| - 1];
    }
    forall k | k in m ensures HasKey(s, k) {
      HasKeyAround(a, x, b, k);
    }
  }

  lemma JoinIncreasing(a: seq<(u32, seq<Route>)>, x: (u32, seq<Route>), b: seq<(u32, seq<Route>)>)
    requires Increasing(a) && Increasing(b)
    requires (forall i | 0 <= i < |a| :: a[i].0 < x.0) && (forall i | 0 <= i < |b| :: x.0 < b[i].0)
    ensures Increasing(a + [x] + b)
  {
    var s := a + [x] + b;
    assert forall i | 0 <= i < |s| :: s[i] == if i < |a| then a[i] else if i == |a| then x else b[i - |a| - 1];
  }

  lemma SplitIncreasing(a: seq<(u32, seq<Route>)>, x: (u32, seq<Route>), b: seq<(u32, seq<Route>)>)
    requires Increasing(a + [x] + b)
    ensures Increasing(a) && Increasing(b)
    ensures (forall i | 0 <= i < |a| :: a[i].0 < x.0) && (forall i | 0 <= i < |b| :: x.0 < b[i].0)
  {
    var s := a + [x] + b;
    assert s[|a|] == x;
    assert forall i | 0 <= i < |a| :: s[i] == a[i];
    assert forall i | 0 <= i < |b| :: s[|a| + 1 + i] == b[i];
  }

  lemma {:induction false} OrderedListsModel(t: Tree)
    requires Ordered(t)
    ensures Increasing(InOrder(t)) && Lists(InOrder(t), Model(t))
  {
    if t.Node? {
      OrderedListsModel(t.left);
      OrderedListsModel(t.right);
      JoinIncreasing(InOrder(t.left), (t.endpoint, t.routes), InOrder(t.right));
      ListsAround(InOrder(t.left), (t.endpoint, t.routes), InOrder(t.right), Model(t.left), Model(t.right));
    }
  }

  lemma {:induction false} IncreasingIsOrdered(t: Tree)
    requires Increasing(InOrder(t))
    ensures Ordered(t) && Lists(InOrder(t), Model(t))
  {
    if t.Node? {
      SplitIncreasing(InOrder(t.left), (t.endpoint, t.routes), InOrder(t.right));
      IncreasingIsOrdered(t.left);
      IncreasingIsOrdered(t.right);
      OrderedListsModel(t);
    }
  }

  lemma ListsDetermines(s: seq<(u32, seq<Route>)>, m: Table, m': Table)
    requires Lists(s, m) && Lists(s, m')
    ensures m == m'
  {
    forall k | k in m ensures k in m' && m[k] == m'[k] {
      assert HasKey(s, k);
    }
    forall k | k in m' ensures k in m {
      assert HasKey(s, k);
    }
  }

  /** Rebalancing that keeps the in-order sequence keeps the ordering and the table. */
  lemma RebalancingIsInvisible(t: Tree, t': Tree)
    requires Ordered(t) && InOrder(t') == InOrder(t)
    ensures Ordered(t') && Model(t') == Model(t)
  {
    OrderedListsModel(t);
    IncreasingIsOrdered(t');
    ListsDetermines(InOrder(t), Model(t), Model(t'));
  }

  // ---- A position in the tree: the link that the walk has reached ----

  /** One step of the walk: the node passed and whether the walk went left. */
  datatype Frame = Frame(node: Tree, wentLeft: bool)

  /** The passed node with its chosen subtree replaced by t. */
  function Rehang(f: Frame, t: Tree): Tree
    requires f.node.Node?
  {
    var n := f.node;
    if f.wentLeft then Node(t, n.endpoint, n.routes, n.right) else Node(n.left, n.endpoint, n.routes, t)
  }

  /** The tree with t hanging at the end of the walk. */
  function Plug(path: seq<Frame>, t: Tree): Tree
    requires forall i | 0 <= i < |path| :: path[i].node.Node?
  {
    if path == [] then t else Plug(path[..|path| - 1], Rehang(path[|path| - 1], t))
  }

  /** The step went to the side where the endpoint belongs. */
  ghost predicate Toward(f: Frame, e: u32) {
    f.node.Node? && if f.wentLeft then e < f.node.endpoint else f.node.endpoint < e
  }

  ghost predicate LeadsTo(path: seq<Frame>, e: u32) {
    forall i | 0 <= i < |path| :: Toward(path[i], e)
  }

  lemma UpdateLeftPart(a: Table, b: Table, k: u32, ks: seq<Route>, e: u32, rs: seq<Route>)
    requires e != k && e !in b
    ensures (a[e := rs] + b)[k := ks] == (a + b)[k := ks][e := rs]
  {
  }

  lemma UpdateRightPart(a: Table, b: Table, k: u32, ks: seq<Route>, e: u32, rs: seq<Route>)
    requires e != k
    ensures (a + b[e := rs])[k := ks] == (a + b)[k := ks][e := rs]
  {
  }

  lemma RehangStores(f: Frame, t: Tree, t': Tree, e: u32, rs: seq<Route>)
    requires Toward(f, e) && Ordered(Rehang(f, t)) && Ordered(t')
    requires Model(t') == Model(t)[e := rs]
    ensures Ordered(Rehang(f, t')) && Model(Rehang(f, t')) == Model(Rehang(f, t))[e := rs]
  {
    var n := f.node;
    if f.wentLeft {
      UpdateLeftPart(Model(t), Model(n.right), n.endpoint, n.routes, e, rs);
    } else {
      UpdateRightPart(Model(n.left), Model(t), n.endpoint, n.routes, e, rs);
    }
  }

  /** Storing a list for e at the end of a walk for e changes the table at e and nowhere else. */
  lemma {:induction false} PlugStores(path: seq<Frame>, t: Tree, t': Tree, e: u32, rs: seq<Route>)
    requires LeadsTo(path, e)
    requires Ordered(Plug(path, t)) && Ordered(t')
    requires Model(t') == Model(t)[e := rs]
    ensures Ordered(Plug(path, t'))
    ensures Model(Plug(path, t')) == Model(Plug(path, t))[e := rs]
  {
    if path != [] {
      var f, above := path[|path| - 1], path[..|path| - 1];
      PlugOrdered(above, Rehang(f, t));
      RehangStores(f, t, t', e, rs);
      PlugStores(above, Rehang(f, t), Rehang(f, t'), e, rs);
    }
  }

  lemma {:induction false} PlugOrdered(path: seq<Frame>, t: Tree)
    requires forall i | 0 <= i < |path| :: path[i].node.Node?
    requires Ordered(Plug(path, t))
    ensures Ordered(t)
  {
    if path != [] {
      PlugOrdered(path[..|path| - 1], Rehang(path[|path| - 1], t));
    }
  }

  /** rb_insert_color: any tree with the same in-order sequence. */
  method Rebalance(t: Tree) returns (t': Tree)
    ensures InOrder(t') == InOrder(t)
  {
    t' :| InOrder(t') == InOrder(t);
  }

  class EndpointTree {
    const me: u32
    var root: Tree

    ghost predicate Valid()
      reads this
    {
      Ordered(root) && RoutingTable.Valid(Model(root))
    }

    constructor (me: u32)
      ensures this.me == me && Valid() && Model(root) == map[]
    {
      this.me := me;
      root := Leaf;
    }

    /** Walk from the root to the node of e, or to the link where it would hang. */
    method Walk(e: u32) returns (path: seq<Frame>, node: Tree)
      requires Ordered(root)
      ensures LeadsTo(path, e) && Plug(path, node) == root && Ordered(node)
      ensures node.Leaf? <==> e !in Model(root)
      ensures node.Node? ==> node.endpoint == e && Model(root)[e] == node.routes
    {
      path, node := [], root;
      while node.Node?
        invariant LeadsTo(path, e) && Plug(path, node) == root && Ordered(node)
        invariant e in Model(root) <==> e in Model(node)
        invariant e in Model(node) ==> Model(root)[e] == Model(node)[e]
        decreases node
      {
        if e == node.endpoint {
          return;
        }
        var f := Frame(node, e < node.endpoint);
        ghost var before := path;
        path := path + [f];
        assert path[..|path| - 1] == before;
        node := if f.wentLeft then node.left else node.right;
      }
    }

    /** Put a list at the node the walk for e has reached. */
    method Store(e: u32, rs: seq<Route>, path: seq<Frame>, node: Tree)
      requires Ordered(root) && LeadsTo(path, e) && Plug(path, node) == root
      requires node.Node? && node.endpoint == e
      modifies this
      ensures Ordered(root) && Model(root) == old(Model(root))[e := rs]
    {
      var node' := Node(node.left, e, rs, node.right);
      PlugOrdered(path, node);
      assert Model(node') == Model(node)[e := rs];
      PlugStores(path, node, node', e, rs);
      root := Plug(path, node');
    }

    /** rt_find_insert_node: afterwards there is exactly one node for e, holding what it held. */
    method FindInsertNode(e: u32)
      requires Ordered(root)
      modifies this
      ensures Ordered(root) && e in Model(root)
      ensures Model(root) == old(Model(root))[e := ListOf(old(Model(root)), e)]
    {
      var path, node := Walk(e);
      if node.Leaf? {
        var fresh' := Node(Leaf, e, [], Leaf);
        PlugStores(path, node, fresh', e, []);
        var linked := Plug(path, fresh');
        root := Rebalance(linked);
        RebalancingIsInvisible(linked, root);
      }
    }

    /** list_add on the route list of e's node. */
    method ListAdd(e: u32, r: Route)
      requires Ordered(root) && e in Model(root)
      modifies this
      ensures Ordered(root) && Model(root) == old(Model(root))[e := [r] + old(Model(root))[e]]
    {
      var path, node := Walk(e);
      Store(e, [r] + node.routes, path, node);
    }

    /** The block of rt_add_route for one endpoint. */
    method AddUnder(e: u32, r: Route)
      requires Ordered(root)
      modifies this
      ensures Ordered(root) && Model(root) == Push(old(Model(root)), e, r)
    {
      if e != 0 {
        FindInsertNode(e);
        ListAdd(e, r);
      }
    }

    /** rt_add_route */
    method Add(ea: u32, eb: u32, na: u32, nb: u32, pid: u32)
      requires Valid()
      modifies this
      ensures Valid() && Model(root) == AddRoute(old(Model(root)), Route(ea, eb, na, nb, pid))
    {
      var r := Route(ea, eb, na, nb, pid);
      AddKeepsValid(Model(root), r);
      AddUnder(ea, r);
      AddUnder(eb, r);
    }

    /** rt_remove_route: list_for_each_safe over the list of e's node. */
    method Remove(e: u32, pid: u32) returns (removed: Option<Route>)
      requires Valid()
      modifies this
      ensures Valid() && Model(root) == RemoveRoute(old(Model(root)), e, pid)
      ensures removed == Removed(old(Model(root)), e, pid)
    {
      RemoveKeepsValid(Model(root), e, pid);
      var path, node := Walk(e);
      if node.Leaf? {
        return None;
      }
      var l := node.routes;
      for i := 0 to |l|
        invariant root == old(root)
        invariant i <= IndexOfPid(l, pid)
      {
        if l[i].pid == pid {
          Store(e, WithoutIndex(l, i), path, node);
          return Some(l[i]);
        }
      }
      return None;
    }

    /** rt_get_next, with the running maximum of route_list_search. */
    method GetNext(dest: u32) returns (next: u32)
      requires Valid()
      ensures next == NextHop(Model(root), me, dest)
    {
      var path, node := Walk(dest);
      if node.Leaf? || dest == me {
        return 0;
      }
      next := SearchList(node.routes, dest);
    }

    /** route_list_search */
    method SearchList(l: seq<Route>, dest: u32) returns (next: u32)
      ensures next == ListNext(l, dest, me)
    {
      var maxEntry: Option<Route> := None;
      var maxPath: u32 := 0;
      for i := 0 to |l|
        invariant maxEntry == Best(l[..i]) && maxPath == MaxPid(maxEntry)
      {
        assert l[..i + 1][..i] == l[..i];
        if l[i].pid > maxPath {
          maxEntry := Some(l[i]);
          maxPath := l[i].pid;
        }
      }
      assert l[..|l|] == l;
      match maxEntry
      case None =>
        return 0;
      case Some(r) =>
        if GetDiff(dest, r.ea) < GetDiff(dest, r.eb) {
          if r.ea != me { return r.na; } else { return r.nb; }
        } else {
          if r.eb != me { return r.nb; } else { return r.na; }
        }
    }
  }

  // ---- rt_search_exclude ----

  /** The search that gives up at the node of src, answering from the node before it. */
  function SearchExclude(t: Tree, prev: Option<seq<Route>>, me: u32, dest: u32, src: u32): u32 {
    match t
    case Leaf => 0
    case Node(l, e, rs, r) =>
      if e == src && prev.Some? then ListNext(prev.value, dest, me)
      else if dest < e then SearchExclude(l, Some(rs), me, dest, src)
      else if dest > e then SearchExclude(r, Some(rs), me, dest, src)
      else if e == me then 0
      else ListNext(rs, dest, me)
  }

  /** Without a node for src, excluding src is the plain search, whatever the shape. */
  lemma {:induction false} ExcludingAbsentSource(t: Tree, prev: Option<seq<Route>>, me: u32, dest: u32, src: u32)
    requires Ordered(t) && src !in Model(t)
    ensures SearchExclude(t, prev, me, dest, src) == NextHop(Model(t), me, dest)
  {
    if t.Node? {
      ExcludingAbsentSource(t.left, Some(t.routes), me, dest, src);
      ExcludingAbsentSource(t.right, Some(t.routes), me, dest, src);
    }
  }

  /** With a node for src the answer depends on the shape: two trees for the same table differ. */
  lemma ExclusionDependsOnShape() returns (a: Tree, b: Tree)
    ensures Ordered(a) && Ordered(b) && InOrder(a) == InOrder(b) && RoutingTable.Valid(Model(a))
    ensures SearchExclude(a, None, 9, 4, 3) != SearchExclude(b, None, 9, 4, 3)
  {
    var r2, r3, r4 := Route(2, 9, 5, 6, 1), Route(3, 9, 5, 6, 1), Route(4, 9, 7, 8, 1);
    var n2, n4 := Node(Leaf, 2, [r2], Leaf), Node(Leaf, 4, [r4], Leaf);
    var n3 := Node(Leaf, 3, [r3], n4);
    a := Node(n2, 3, [r3], n4);
    b := Node(Leaf, 2, [r2], n3);
    assert InOrder(n2) == [(2, [r2])] && InOrder(n4) == [(4, [r4])];
    assert InOrder(n3) == [(3, [r3]), (4, [r4])];
    assert InOrder(a) == [(2, [r2]), (3, [r3]), (4, [r4])] == InOrder(b);
    assert Model(n2) == map[2 := [r2]] && Model(n4) == map[4 := [r4]];
    assert Model(n3) == map[3 := [r3], 4 := [r4]];
    assert Model(a) == map[2 := [r2], 3 := [r3], 4 := [r4]];
    BestOfOne(r2);
    BestOfOne(r4);
    assert SearchExclude(a, None, 9, 4, 3) == SearchExclude(n4, Some([r3]), 9, 4, 3) == 7;
    assert SearchExclude(b, None, 9, 4, 3) == SearchExclude(n3, Some([r2]), 9, 4, 3) == 5;
  }

  lemma BestOfOne(r: Route)
    requires r.pid > 0
    ensures Best([r]) == Some(r)
  {
    assert [r][..0] == [];
  }
}
