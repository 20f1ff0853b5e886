/** The vset list and its counter as mutable state, with the loops of vrr_data.c. */
module VirtualSetTable {
  import opened Types
  import opened RingArithmetic
  import opened Sorting
  import opened VirtualSet

  /** The ids that the set would admit, in order. */
  function Wanted(me: u32, ms: seq<Member>, ids: seq<u32>): seq<u32> {
    if ids == [] then []
    else
      var last := ids[|ids| - 1];
      Wanted(me, ms, ids[..|ids| - 1]) + if ShouldAdd(me, ms, last) then [last] else []
  }

  /** An id that the set has no member for and room or a place for. */
  predicate Missing(me: u32, ms: seq<Member>, x: u32) {
    x !in Ids(ms) && (|ms| < VRR_VSET_SIZE || !Beaten(me, ms, x))
  }

  /** A single id is requested exactly if it is missing. */
  lemma WantedOne(me: u32, ms: seq<Member>, x: u32)
    ensures Wanted(me, ms, [x]) == if Missing(me, ms, x) then [x] else []
  {
    assert [x][..0] == [];
    if |ms| >= VRR_VSET_SIZE {
      WantedUnlessBeaten(me, ms, x);
    }
    hide Beaten;
  }

  /** Longer lists are gone through from front to back. */
  lemma {:induction false} WantedConcat(me: u32, ms: seq<Member>, a: seq<u32>, b: seq<u32>)
    ensures Wanted(me, ms, a + b) == Wanted(me, ms, a) + Wanted(me, ms, b)
    decreases |b|
  {
    hide ShouldAdd;
    if b == [] {
      assert a + b == a;
    } else {
      var n := |b| - 1;
      assert (a + b)[..|a + b| - 1] == a + b[..n] && (a + b)[|a + b| - 1] == b[n];
      WantedConcat(me, ms, a, b[..n]);
    }
  }

  /** The ids for which paths are requested: of the announced ones exactly those that are missing,
      each as often as it was announced and in the same order. */
  lemma {:induction false} WantedExactly(me: u32, ms: seq<Member>, ids: seq<u32>)
    ensures forall x :: multiset(Wanted(me, ms, ids))[x] == if Missing(me, ms, x) then multiset(ids)[x] else 0
    ensures forall x :: x in Wanted(me, ms, ids) <==> x in ids && Missing(me, ms, x)
    ensures ids != [] ==>
              Wanted(me, ms, ids) == (if Missing(me, ms, ids[0]) then [ids[0]] else []) + Wanted(me, ms, ids[1..])
  {
    hide Missing, Wanted;
    if ids == [] {
      WantedConcat(me, ms, [], []);
      assert [] + [] == ids;
    } else {
      var first, rest := [ids[0]], ids[1..];
      assert ids == first + rest;
      WantedOne(me, ms, ids[0]);
      WantedConcat(me, ms, first, rest);
      WantedExactly(me, ms, rest);
    }
  }

  /** A removed id is gone, since no id occurs twice. */
  lemma Forgets(ms: seq<Member>, k: nat)
    requires k < |ms| && forall i, j | 0 <= i < j < |ms| :: ms[i].node != ms[j].node
    ensures ms[k].node !in Ids(RemoveAt(ms, k))
  {
    var r := RemoveAt(ms, k);
    forall j | 0 <= j < |r| ensures Ids(r)[j] != ms[k].node {
      assert r[j] == ms[if j < k then j else j + 1];
    }
  }

  lemma {:induction false} IndexIsFirst(ms: seq<Member>, node: u32, i: nat)
    requires i < |ms| && ms[i].node == node
    ensures IndexOf(ms, node) <= i
  {
    if i > 0 {
      IndexIsFirst(ms[1..], node, i - 1);
    }
  }

  lemma WithoutDropsOne(me: u32, ms: seq<Member>, node: u32)
    requires Built(me, ms)
    ensures var r := Without(ms, node);
            && Built(me, r) && (VirtualSet.Valid(me, ms) ==> VirtualSet.Valid(me, r))
            && node !in Ids(r) && forall x | x != node :: x in Ids(r) <==> x in Ids(ms)
  {
    var k := IndexOf(ms, node);
    if k < |ms| {
      var r := RemoveAt(ms, k);
      RemovalKeepsWellFormed(me, ms, k);
      Forgets(ms, k);
      forall x | x in Ids(r) ensures x in Ids(ms) {
        var j :| 0 <= j < |r| && Ids(r)[j] == x;
        assert Ids(ms)[if j < k then j else j + 1] == x;
      }
      forall x | x != node && x in Ids(ms) ensures x in Ids(r) {
        RemovalDropsOne(ms, k, x);
      }
    }
  }

  class VsetTable {
    const me: u32
    var list: seq<Member>
    var size: nat

    /** The counter is right and no id occurs twice. ME may be in the list. */
    ghost predicate Consistent()
      reads this
    {
      Built(me, list) && size == |list|
    }

    /** In addition, ME is not in the list and nobody is too many. */
    ghost predicate Valid()
      reads this
    {
      Consistent() && VirtualSet.Valid(me, list)
    }

    constructor (me: u32)
      ensures this.me == me && list == [] && Valid()
    {
      this.me := me;
      list, size := [], 0;
    }

    /** Fill two arrays with the differences in both directions and sort them. */
    method SortedDiffs() returns (left: array<u32>, right: array<u32>)
      requires size == |list|
      ensures fresh(left) && fresh(right)
      ensures left[..] == SortedLefts(list) && right[..] == SortedRights(list)
    {
      left, right := new u32[size], new u32[size];
      for i := 0 to |list|
        invariant left[..i] == Lefts(list)[..i] && right[..i] == Rights(list)[..i]
      {
        left[i], right[i] := list[i].left, list[i].right;
      }
      assert left[..] == Lefts(list) && right[..] == Rights(list);
      SortInPlace(left);
      SortInPlace(right);
    }

    /** vset_should_add */
    method Wants(node: u32) returns (r: bool)
      requires Consistent()
      ensures r <==> ShouldAdd(me, list, node)
    {
      for i := 0 to |list|
        invariant node !in Ids(list)[..i]
      {
        if list[i].node == node {
          assert Ids(list)[i] == node;
          return false;
        }
      }
      assert Ids(list)[..|list|] == Ids(list);
      if size < VRR_VSET_SIZE {
        return true;
      }
      var left, right := SortedDiffs();
      SortIsAscendingPermutation(Lefts(list));
      SortIsAscendingPermutation(Rights(list));
      assert left[..] == SortedLefts(list) && right[..] == SortedRights(list);
      for i := 0 to RADIUS
        invariant forall k | 0 <= k < i ::
            SortedLefts(list)[k] <= DiffLeft(me, node) && SortedRights(list)[k] <= DiffRight(me, node)
      {
        assert left[i] == left[..][i] && right[i] == right[..][i];
        if left[i] > DiffLeft(me, node) || right[i] > DiffRight(me, node) {
          return true;
        }
      }
      return false;
    }

    /** vset_bump: 0 when nothing is too many, 1 and the evicted id when one was found, otherwise
        the failure value -1, which needs ME or more than one too many. */
    method BumpOne() returns (ret: int, rem: u32)
      requires Consistent()
      modifies this
      ensures Consistent() && list == Bump(old(list))
      ensures ret == 0 <==> old(size) <= VRR_VSET_SIZE
      ensures ret != 0 ==> ret == if MedianIndex(old(list)) < |old(list)| then 1 else -1
      ensures ret == 1 ==> rem == old(list)[MedianIndex(old(list))].node && rem !in Ids(list)
      ensures WellFormed(me, old(list)) && |old(list)| <= VRR_VSET_SIZE + 1 ==> Valid() && ret >= 0
    {
      if size <= VRR_VSET_SIZE {
        return 0, 0;
      }
      if WellFormed(me, list) && |list| == VRR_VSET_SIZE + 1 {
        BumpIsInfallible(me, list);
      }
      var left, right := SortedDiffs();
      SortIsAscendingPermutation(Lefts(list));
      SortIsAscendingPermutation(Rights(list));
      assert left[..][RADIUS] == SortedLefts(list)[RADIUS] && right[..][RADIUS] == SortedRights(list)[RADIUS];
      var k := FindPair(left[RADIUS], right[RADIUS]);
      assert k == MedianIndex(list);
      hide MedianIndex, SortedLefts, SortedRights, DiffLeft, DiffRight;
      if k == |list| {
        return -1, 0;
      }
      RemovalKeepsWellFormed(me, list, k);
      Forgets(list, k);
      ret, rem := 1, list[k].node;
      list := RemoveAt(list, k);
      size := size - 1;
    }

    /** The search of vset_bump for the member with this pair of differences. */
    method FindPair(left: u32, right: u32) returns (k: nat)
      ensures k == FirstMatch(list, left, right)
    {
      for i := 0 to |list|
        invariant i <= FirstMatch(list, left, right)
      {
        if list[i].left == left && list[i].right == right {
          return i;
        }
      }
      return |list|;
    }

    /** vset_add: -1 for a node already present, 0 when nothing was too many, 1 otherwise. */
    method AddNode(node: u32) returns (ret: int, rem: u32)
      requires Consistent()
      modifies this
      ensures Consistent() && list == Add(me, old(list), node)
      ensures ret == -1 <==> node in Ids(old(list))
      ensures ret == 0 <==> node !in Ids(old(list)) && |old(list)| < VRR_VSET_SIZE
      ensures ret == -1 || ret == 0 || ret == 1
      ensures old(Valid()) && node != me ==> Valid()
      ensures old(Valid()) && node != me && ret == 1 ==>
                rem !in Ids(list) && (rem == node || rem in Ids(old(list)))
                  && (rem == node <==> !ShouldAdd(me, old(list), node))
    {
      for i := 0 to |list|
        invariant list == old(list) && node !in Ids(list)[..i]
      {
        if list[i].node == node {
          assert Ids(list)[i] == node;
          return -1, 0;
        }
      }
      assert Ids(list)[..|list|] == Ids(list);
      NewcomerKeepsWellFormed(me, list, node);
      if VirtualSet.Valid(me, list) && size == VRR_VSET_SIZE {
        EvictedIsUnwanted(me, list, node);
      }
      hide ShouldAdd, MedianIndex, DiffLeft, DiffRight, Built;
      list := [MemberOf(me, node)] + list;
      size := size + 1;
      ret, rem := BumpOne();
      ret := if ret == 0 then 0 else 1;
    }

    /** vset_remove */
    method RemoveNode(node: u32) returns (found: bool)
      requires Consistent()
      modifies this
      ensures Consistent() && (old(Valid()) ==> Valid())
      ensures list == Without(old(list), node)
      ensures found <==> node in Ids(old(list))
      ensures node !in Ids(list)
      ensures forall x | x != node :: x in Ids(list) <==> x in Ids(old(list))
    {
      WithoutDropsOne(me, list, node);
      for i := 0 to |list|
        invariant list == old(list) && size == old(size) && i <= IndexOf(list, node)
      {
        if list[i].node == node {
          assert i == IndexOf(list, node) by {
            IndexIsFirst(list, node, i);
          }
          list := RemoveAt(list, i);
          size := size - 1;
          return true;
        }
      }
      return false;
    }

    /** vrr_add: request a path to every id of the vset that is wanted, if there is a proxy, then
        admit src if it is wanted. The value 0xFFFFFFFF stands for no source. */
    method VrrAdd(src: u32, vset: seq<u32>, hasProxy: bool) returns (added: bool, targets: seq<u32>)
      requires Consistent()
      modifies this
      ensures Consistent() && (old(Valid()) && src != me ==> Valid())
      ensures targets == if hasProxy then Wanted(me, old(list), vset) else []
      ensures added <==> Admits(me, old(list), src)
      ensures added <==> src != UINT_MAX && ShouldAdd(me, old(list), src) && src in Ids(list)
      ensures list == if added then Add(me, old(list), src) else old(list)
    {
      targets := [];
      for i := 0 to |vset|
        invariant list == old(list) && size == old(size)
        invariant targets == if hasProxy then Wanted(me, list, vset[..i]) else []
      {
        assert vset[..i + 1][..i] == vset[..i];
        var wanted := Wants(vset[i]);
        if wanted && hasProxy {
          targets := targets + [vset[i]];
        }
      }
      assert vset[..|vset|] == vset;
      WantedIsAdded(me, list, src);
      added := false;
      if src != UINT_MAX {
        added := Wants(src);
        if added {
          var ret, rem := AddNode(src);
        }
      }
    }

    /** vset_get_all */
    method GetAll() returns (all: array<u32>)
      requires Consistent()
      ensures fresh(all) && all[..] == Ids(list)
    {
      all := new u32[size];
      for i := 0 to |list|
        invariant all[..i] == Ids(list)[..i]
      {
        all[i] := list[i].node;
      }
    }
  }
}
