/** The virtual neighbour set: admission test, eviction rule, and what they keep (vrr_data.c). */
module VirtualSet {
  import opened Types
  import opened RingArithmetic
  import opened Sorting

  const RADIUS: nat := VRR_VSET_SIZE / 2

  /** vset_list_t: a member with its two directed differences from ME. */
  datatype Member = Member(node: u32, left: u32, right: u32)

  function MemberOf(me: u32, node: u32): Member {
    Member(node, DiffLeft(me, node), DiffRight(me, node))
  }

  function Ids(ms: seq<Member>): (r: seq<u32>)
    ensures |r| == |ms| && forall i | 0 <= i < |ms| :: r[i] == ms[i].node
  {
    seq(|ms|, i requires 0 <= i < |ms| => ms[i].node)
  }

  function Lefts(ms: seq<Member>): (r: seq<u32>)
    ensures |r| == |ms| && forall i | 0 <= i < |ms| :: r[i] == ms[i].left
  {
    seq(|ms|, i requires 0 <= i < |ms| => ms[i].left)
  }

  function Rights(ms: seq<Member>): (r: seq<u32>)
    ensures |r| == |ms| && forall i | 0 <= i < |ms| :: r[i] == ms[i].right
  {
    seq(|ms|, i requires 0 <= i < |ms| => ms[i].right)
  }

  function SortedLefts(ms: seq<Member>): seq<u32> { Sort(Lefts(ms)) }
  function SortedRights(ms: seq<Member>): seq<u32> { Sort(Rights(ms)) }

  /** Members with the differences that insertion computes, no id twice. */
  ghost predicate Built(me: u32, ms: seq<Member>) {
    && (forall i | 0 <= i < |ms| :: ms[i] == MemberOf(me, ms[i].node))
    && (forall i, j | 0 <= i < j < |ms| :: ms[i].node != ms[j].node)
  }

  /** The same without ME, which the code does not keep out. */
  ghost predicate WellFormed(me: u32, ms: seq<Member>) {
    Built(me, ms) && forall i | 0 <= i < |ms| :: ms[i].node != me
  }

  ghost predicate Valid(me: u32, ms: seq<Member>) {
    WellFormed(me, ms) && |ms| <= VRR_VSET_SIZE
  }

  /** Index of the first member with the given pair of differences, |ms| if there is none. */
  function FirstMatch(ms: seq<Member>, left: u32, right: u32): (k: nat)
    ensures k <= |ms|
    ensures k < |ms| ==> ms[k].left == left && ms[k].right == right
    ensures forall i | 0 <= i < k :: ms[i].left != left || ms[i].right != right
  {
    if ms == [] || (ms[0].left == left && ms[0].right == right) then 0
    else 1 + FirstMatch(ms[1..], left, right)
  }

  /** The member that vset_bump removes, |ms| if it finds none. */
  function MedianIndex(ms: seq<Member>): (k: nat)
    requires |ms| > VRR_VSET_SIZE
    ensures k <= |ms|
  {
    SortIsAscendingPermutation(Lefts(ms));
    SortIsAscendingPermutation(Rights(ms));
    FirstMatch(ms, SortedLefts(ms)[RADIUS], SortedRights(ms)[RADIUS])
  }

  function RemoveAt(ms: seq<Member>, k: nat): seq<Member>
    requires k < |ms|
  {
    ms[..k] + ms[k + 1..]
  }

  /** Index of the member with this id, |ms| if there is none. */
  function IndexOf(ms: seq<Member>, node: u32): (k: nat)
    ensures k <= |ms| && (k < |ms| <==> node in Ids(ms)) && (k < |ms| ==> ms[k].node == node)
  {
    if ms == [] then 0
    else
      assert Ids(ms) == [ms[0].node] + Ids(ms[1..]);
      if ms[0].node == node then 0 else 1 + IndexOf(ms[1..], node)
  }

  /** vset_remove. */
  function Without(ms: seq<Member>, node: u32): seq<Member> {
    if IndexOf(ms, node) == |ms| then ms else RemoveAt(ms, IndexOf(ms, node))
  }

  function Bump(ms: seq<Member>): seq<Member> {
    if |ms| <= VRR_VSET_SIZE || MedianIndex(ms) == |ms| then ms else RemoveAt(ms, MedianIndex(ms))
  }

  /** vset_add. */
  function Add(me: u32, ms: seq<Member>, node: u32): seq<Member> {
    if node in Ids(ms) then ms else Bump([MemberOf(me, node)] + ms)
  }

  /** vset_should_add. */
  predicate ShouldAdd(me: u32, ms: seq<Member>, node: u32) {
    SortIsAscendingPermutation(Lefts(ms));
    SortIsAscendingPermutation(Rights(ms));
    && node !in Ids(ms)
    && (|ms| < VRR_VSET_SIZE
        || exists i | 0 <= i < RADIUS ::
             SortedLefts(ms)[i] > DiffLeft(me, node) || SortedRights(ms)[i] > DiffRight(me, node))
  }

  /** For members other than ME the right-hand order is the left-hand order reversed. */
  lemma RightsMirrorLefts(me: u32, ms: seq<Member>)
    requires WellFormed(me, ms)
    ensures |SortedLefts(ms)| == |SortedRights(ms)| == |ms|
    ensures Ascending(SortedLefts(ms))
    ensures forall i | 0 <= i < |ms| :: SortedRights(ms)[i] == UINT_MAX - SortedLefts(ms)[|ms| - 1 - i]
  {
    forall i | 0 <= i < |ms| ensures Rights(ms)[i] == UINT_MAX - Lefts(ms)[i] {
      DiffsAreComplementary(me, ms[i].node);
    }
    SortOfComplement(Lefts(ms), Rights(ms));
    SortIsAscendingPermutation(Lefts(ms));
  }

  lemma LeftsOfRemoval(ms: seq<Member>, k: nat)
    requires k < |ms|
    ensures multiset(Lefts(RemoveAt(ms, k))) == multiset(Lefts(ms)) - multiset{ms[k].left}
    ensures multiset(Rights(RemoveAt(ms, k))) == multiset(Rights(ms)) - multiset{ms[k].right}
  {
    var l, r := Lefts(ms), Rights(ms);
    assert l == l[..k] + [l[k]] + l[k + 1..];
    assert Lefts(RemoveAt(ms, k)) == l[..k] + l[k + 1..];
    assert r == r[..k] + [r[k]] + r[k + 1..];
    assert Rights(RemoveAt(ms, k)) == r[..k] + r[k + 1..];
  }

  /** Some member carries both medians at once. */
  lemma MedianIsFound(me: u32, ms: seq<Member>)
    requires WellFormed(me, ms) && |ms| == VRR_VSET_SIZE + 1
    ensures MedianIndex(ms) < |ms|
  {
    hide Sort, Ascending;
    RightsMirrorLefts(me, ms);
    SortIsAscendingPermutation(Lefts(ms));
    var l, r := SortedLefts(ms), SortedRights(ms);
    var i := IndexIn(Lefts(ms), l, RADIUS);
    assert r[RADIUS] == UINT_MAX - l[RADIUS];
    DiffsAreComplementary(me, ms[i].node);
    assert ms[i].left == l[RADIUS] && ms[i].right == r[RADIUS];
  }

  lemma IndexIn(s: seq<u32>, t: seq<u32>, k: nat) returns (i: nat)
    requires multiset(s) == multiset(t) && k < |t|
    ensures i < |s| && s[i] == t[k]
  {
    assert t[k] in multiset(s);
    i :| i < |s| && s[i] == t[k];
  }

  lemma RemovalKeepsWellFormed(me: u32, ms: seq<Member>, k: nat)
    requires Built(me, ms) && k < |ms|
    ensures Built(me, RemoveAt(ms, k)) && (WellFormed(me, ms) ==> WellFormed(me, RemoveAt(ms, k)))
  {
    var r := RemoveAt(ms, k);
    forall i | 0 <= i < |r| ensures r[i] == ms[if i < k then i else i + 1] {
    }
  }

  lemma DropOne(t: seq<u32>, k: nat)
    requires k < |t|
    ensures multiset(t[..k] + t[k + 1..]) == multiset(t) - multiset{t[k]}
  {
    assert t == t[..k] + [t[k]] + t[k + 1..];
  }

  lemma DropOneAscends(t: seq<u32>, k: nat)
    requires k < |t| && Ascending(t)
    ensures Ascending(t[..k] + t[k + 1..])
  {
    var u := t[..k] + t[k + 1..];
    assert forall i | 0 <= i < |u| :: u[i] == t[if i < k then i else i + 1];
  }

  lemma SortWithoutOne(s: seq<u32>, rest: seq<u32>, t: seq<u32>, k: nat)
    requires t == Sort(s) && k < |t| && multiset(rest) == multiset(s) - multiset{t[k]}
    ensures Sort(rest) == t[..k] + t[k + 1..]
  {
    SortIsAscendingPermutation(s);
    SortIsAscendingPermutation(rest);
    DropOne(t, k);
    DropOneAscends(t, k);
    AscendingIsUnique(Sort(rest), t[..k] + t[k + 1..]);
  }

  lemma UpperHalfMirrors(s: seq<u32>, t: seq<u32>)
    requires |s| == |t| == VRR_VSET_SIZE + 1
    requires forall i | 0 <= i < |s| :: t[i] == UINT_MAX - s[|s| - 1 - i]
    ensures s[RADIUS + 1..] == Mirror(t[..RADIUS])
  {
    assert t[0] == UINT_MAX - s[4] && t[1] == UINT_MAX - s[3];
  }

  /** The eviction rule never fails: with one member too many, it finds a member matching both
      medians and removes exactly that one. Sorted, the differences that stay are the two smallest
      on that side followed by (the complements of) the two smallest on the other side. */
  lemma BumpIsInfallible(me: u32, ms: seq<Member>)
    requires WellFormed(me, ms) && |ms| == VRR_VSET_SIZE + 1
    ensures MedianIndex(ms) < |ms| && Bump(ms) == RemoveAt(ms, MedianIndex(ms))
    ensures Valid(me, Bump(ms)) && |SortedLefts(ms)| == |SortedRights(ms)| == |ms|
    ensures SortedLefts(Bump(ms)) == SortedLefts(ms)[..RADIUS] + Mirror(SortedRights(ms)[..RADIUS])
    ensures SortedRights(Bump(ms)) == SortedRights(ms)[..RADIUS] + Mirror(SortedLefts(ms)[..RADIUS])
  {
    MedianIsFound(me, ms);
    var k := MedianIndex(ms);
    RemovalKeepsWellFormed(me, ms, k);
    RightsMirrorLefts(me, ms);
    var l, r := SortedLefts(ms), SortedRights(ms);
    LeftsOfRemoval(ms, k);
    SortWithoutOne(Lefts(ms), Lefts(RemoveAt(ms, k)), l, RADIUS);
    SortWithoutOne(Rights(ms), Rights(RemoveAt(ms, k)), r, RADIUS);
    UpperHalfMirrors(l, r);
    UpperHalfMirrors(r, l);
  }

  /** What the two sorted arrays say about a full set: the newcomer is wanted exactly when it
      lies outside the two middle values. */
  lemma WantedWhenOutsideMiddle(me: u32, ms: seq<Member>, node: u32)
    requires Valid(me, ms) && |ms| == VRR_VSET_SIZE && node != me && node !in Ids(ms)
    ensures |SortedLefts(ms)| == VRR_VSET_SIZE
    ensures ShouldAdd(me, ms, node)
            <==> DiffLeft(me, node) < SortedLefts(ms)[RADIUS - 1] || SortedLefts(ms)[RADIUS] < DiffLeft(me, node)
  {
    RightsMirrorLefts(me, ms);
    DiffsAreComplementary(me, node);
    var l, r := SortedLefts(ms), SortedRights(ms);
    assert r[0] == UINT_MAX - l[3] && r[1] == UINT_MAX - l[2];
    assert l[0] <= l[1] && l[2] <= l[3];
  }

  /** Where the median falls once the newcomer is in. */
  lemma MedianAfterInsertion(l: seq<u32>, d: u32)
    requires Ascending(l) && |l| == VRR_VSET_SIZE
    ensures |Insert(d, l)| == VRR_VSET_SIZE + 1
    ensures Insert(d, l)[RADIUS - 1] <= l[RADIUS - 1] && l[RADIUS] <= Insert(d, l)[RADIUS + 1]
    ensures Insert(d, l)[RADIUS] == if d < l[RADIUS - 1] then l[RADIUS - 1] else if l[RADIUS] < d then l[RADIUS] else d
  {
    InsertSplits(d, l);
  }

  lemma HeadInsertionSorts(me: u32, ms: seq<Member>, node: u32)
    ensures SortedLefts([MemberOf(me, node)] + ms) == Insert(DiffLeft(me, node), SortedLefts(ms))
  {
    var all := [MemberOf(me, node)] + ms;
    assert Lefts(all)[1..] == Lefts(ms);
  }

  lemma NewcomerBumpedInMiddle(me: u32, ms: seq<Member>, node: u32)
    requires Valid(me, ms) && |ms| == VRR_VSET_SIZE && node != me && node !in Ids(ms)
    requires WellFormed(me, [MemberOf(me, node)] + ms)
    ensures |SortedLefts(ms)| == VRR_VSET_SIZE
    ensures MedianIndex([MemberOf(me, node)] + ms) == 0
            <==> SortedLefts(ms)[RADIUS - 1] <= DiffLeft(me, node) <= SortedLefts(ms)[RADIUS]
  {
    var all := [MemberOf(me, node)] + ms;
    MedianIsFound(me, all);
    RightsMirrorLefts(me, all);
    RightsMirrorLefts(me, ms);
    HeadInsertionSorts(me, ms, node);
    MedianAfterInsertion(SortedLefts(ms), DiffLeft(me, node));
    DiffsAreComplementary(me, node);
  }

  lemma NewcomerKeepsWellFormed(me: u32, ms: seq<Member>, node: u32)
    requires Built(me, ms) && node !in Ids(ms)
    ensures Built(me, [MemberOf(me, node)] + ms)
    ensures WellFormed(me, ms) && node != me ==> WellFormed(me, [MemberOf(me, node)] + ms)
  {
    forall i | 0 <= i < |ms| ensures ms[i].node != node {
      assert Ids(ms)[i] == ms[i].node;
    }
  }

  /** In a full set the newcomer stays exactly when it is wanted, and otherwise is the one bumped. */
  lemma FullSetDecides(me: u32, ms: seq<Member>, node: u32)
    requires Valid(me, ms) && |ms| == VRR_VSET_SIZE && node != me && node !in Ids(ms)
    ensures Valid(me, Add(me, ms, node))
    ensures ShouldAdd(me, ms, node) ==> node in Ids(Add(me, ms, node))
    ensures !ShouldAdd(me, ms, node) ==> Add(me, ms, node) == ms
  {
    var all := [MemberOf(me, node)] + ms;
    NewcomerKeepsWellFormed(me, ms, node);
    BumpIsInfallible(me, all);
    NewcomerBumpedInMiddle(me, ms, node);
    WantedWhenOutsideMiddle(me, ms, node);
    var k := MedianIndex(all);
    if k == 0 {
      assert RemoveAt(all, 0) == ms;
    } else {
      assert RemoveAt(all, k)[0].node == node;
      assert Ids(RemoveAt(all, k))[0] == node;
    }
  }

  // ---- Nodes that are beaten on both sides ----

  /** Two members are at least as near on the left as the node, and two on the right. */
  predicate Beaten(me: u32, ms: seq<Member>, node: u32) {
    !Nearest(Lefts(ms), DiffLeft(me, node)) && !Nearest(Rights(ms), DiffRight(me, node))
  }

  /** The admission test of any set of four or more, ME among them or not, accepts exactly the
      absent nodes that are not beaten. */
  lemma WantedUnlessBeaten(me: u32, ms: seq<Member>, node: u32)
    requires |ms| >= VRR_VSET_SIZE
    ensures ShouldAdd(me, ms, node) <==> node !in Ids(ms) && !Beaten(me, ms, node)
  {
    var dl, dr := DiffLeft(me, node), DiffRight(me, node);
    SomeAbove(Lefts(ms), dl);
    SomeAbove(Rights(ms), dr);
    hide Sort, Nearest, DiffLeft, DiffRight;
    var l, r := SortedLefts(ms), SortedRights(ms);
    assert (exists i | 0 <= i < RADIUS :: l[i] > dl || r[i] > dr) <==> l[0] > dl || r[0] > dr || l[1] > dl || r[1] > dr;
  }

  lemma EvictedIsThird(ms: seq<Member>)
    requires |ms| > VRR_VSET_SIZE && MedianIndex(ms) < |ms|
    ensures Third(Lefts(ms), ms[MedianIndex(ms)].left) && Third(Rights(ms), ms[MedianIndex(ms)].right)
  {
    var k := MedianIndex(ms);
    ThirdIsSorted(Lefts(ms), ms[k].left);
    ThirdIsSorted(Rights(ms), ms[k].right);
  }

  /** An eviction keeps every beaten node beaten, and the evicted one is. */
  lemma EvictionKeepsBeaten(me: u32, ms: seq<Member>, x: u32)
    requires |ms| > VRR_VSET_SIZE && MedianIndex(ms) < |ms|
    requires Beaten(me, ms, x) || MemberOf(me, x) == ms[MedianIndex(ms)]
    ensures Beaten(me, RemoveAt(ms, MedianIndex(ms)), x)
  {
    var k := MedianIndex(ms);
    EvictedIsThird(ms);
    hide MedianIndex, Third, Nearest, DiffLeft, DiffRight;
    DropThird(Lefts(ms), k, DiffLeft(me, x));
    DropThird(Rights(ms), k, DiffRight(me, x));
    assert Lefts(RemoveAt(ms, k)) == Lefts(ms)[..k] + Lefts(ms)[k + 1..];
    assert Rights(RemoveAt(ms, k)) == Rights(ms)[..k] + Rights(ms)[k + 1..];
  }

  lemma InsertionKeepsBeaten(me: u32, ms: seq<Member>, m: Member, x: u32)
    requires Beaten(me, ms, x)
    ensures Beaten(me, [m] + ms, x)
  {
    assert Lefts([m] + ms) == [m.left] + Lefts(ms) && Rights([m] + ms) == [m.right] + Rights(ms);
    CountBelowConcat([m.left], Lefts(ms), DiffLeft(me, x) + 1);
    CountBelowConcat([m.right], Rights(ms), DiffRight(me, x) + 1);
  }

  // ---- Admission and eviction ----

  lemma HeadIsMedian(me: u32, ms: seq<Member>, node: u32)
    requires |ms| >= VRR_VSET_SIZE
    ensures var all := [MemberOf(me, node)] + ms;
            && MemberOf(me, node).node == node
            && (MedianIndex(all) == 0
               <==> Third(Lefts(all), DiffLeft(me, node)) && Third(Rights(all), DiffRight(me, node)))
  {
    var all := [MemberOf(me, node)] + ms;
    ThirdIsSorted(Lefts(all), DiffLeft(me, node));
    ThirdIsSorted(Rights(all), DiffRight(me, node));
    hide Sort, Third, DiffLeft, DiffRight;
  }

  /** Inserted into any four or more, a node is itself the one evicted exactly when it is third on
      both sides; the first two on each side then beat it. */
  lemma NewcomerEvicted(me: u32, ms: seq<Member>, node: u32)
    requires |ms| >= VRR_VSET_SIZE && node !in Ids(ms)
    ensures var all := [MemberOf(me, node)] + ms;
            && (Add(me, ms, node) == ms <==> MedianIndex(all) == 0)
            && (node in Ids(Add(me, ms, node)) <==> MedianIndex(all) != 0)
            && (MedianIndex(all) == 0
               <==> Third(Lefts(all), DiffLeft(me, node)) && Third(Rights(all), DiffRight(me, node)))
            && (MedianIndex(all) == 0 ==> Beaten(me, ms, node))
  {
    hide MemberOf, Sort, Third, Beaten, MedianIndex, DiffLeft, DiffRight;
    var all := [MemberOf(me, node)] + ms;
    HeadIsMedian(me, ms, node);
    var k := MedianIndex(all);
    assert RemoveAt(all, 0) == ms;
    if k == 0 {
      EvictionKeepsBeaten(me, all, node);
    } else {
      assert Add(me, ms, node)[0].node == node;
      assert Ids(Add(me, ms, node))[0] == node;
    }
  }

  /** Where the test and the rule agree, for any four members or more, ME among them or not: the
      test accepts a node exactly if adding it changes the set, unless the node is absent, beaten
      and yet not third on both sides, when it would be refused but would stay. */
  lemma AgreementIsExact(me: u32, ms: seq<Member>, node: u32)
    requires |ms| >= VRR_VSET_SIZE
    ensures var all := [MemberOf(me, node)] + ms;
            (ShouldAdd(me, ms, node) <==> Add(me, ms, node) != ms)
            <==> (node in Ids(ms) || !Beaten(me, ms, node)
                  || (Third(Lefts(all), DiffLeft(me, node)) && Third(Rights(all), DiffRight(me, node))))
    ensures ShouldAdd(me, ms, node) ==> node in Ids(Add(me, ms, node))
  {
    WantedUnlessBeaten(me, ms, node);
    if node !in Ids(ms) {
      NewcomerEvicted(me, ms, node);
    }
  }

  lemma CountOfFour(a: u32, b: u32, c: u32, d: u32, x: int)
    ensures CountBelow([a, b, c, d], x)
            == (if a < x then 1 else 0) + (if b < x then 1 else 0) + (if c < x then 1 else 0) + (if d < x then 1 else 0)
  {
    CountBelowConcat([a], [b, c, d], x);
    CountBelowConcat([b], [c, d], x);
    CountBelowConcat([c], [d], x);
    assert [a, b, c, d] == [a] + [b, c, d] && [b, c, d] == [b] + [c, d] && [c, d] == [c] + [d];
  }

  /** With ME in a full set the two do disagree. */
  lemma AgreementFailsWithMe()
    ensures var ms := [MemberOf(100, 100), MemberOf(100, 50), MemberOf(100, 40), MemberOf(100, 30)];
            Built(100, ms) && !ShouldAdd(100, ms, 45) && Add(100, ms, 45) != ms
  {
    var ms := [MemberOf(100, 100), MemberOf(100, 50), MemberOf(100, 40), MemberOf(100, 30)];
    BeatenButNotThird();
    assert Built(100, ms) && Ids(ms) == [100, 50, 40, 30];
    hide Built, MemberOf, DiffLeft, DiffRight, Beaten, ShouldAdd, Add, Third;
    AgreementIsExact(100, ms, 45);
    WantedUnlessBeaten(100, ms, 45);
  }

  lemma BeatenButNotThird()
    ensures var ms := [MemberOf(100, 100), MemberOf(100, 50), MemberOf(100, 40), MemberOf(100, 30)];
            Beaten(100, ms, 45) && !Third(Rights([MemberOf(100, 45)] + ms), DiffRight(100, 45))
  {
    var ms := [MemberOf(100, 100), MemberOf(100, 50), MemberOf(100, 40), MemberOf(100, 30)];
    var all := [MemberOf(100, 45)] + ms;
    assert Lefts(ms) == [0, 50, 60, 70] && Rights(ms) == [0, UINT_MAX - 50, UINT_MAX - 60, UINT_MAX - 70];
    CountOfFour(0, 50, 60, 70, 56);
    CountOfFour(0, UINT_MAX - 50, UINT_MAX - 60, UINT_MAX - 70, UINT_MAX - 54);
    CountOfFour(0, UINT_MAX - 50, UINT_MAX - 60, UINT_MAX - 70, UINT_MAX - 55);
    assert Rights(all)[1..] == Rights(ms) && Rights(all)[0] == UINT_MAX - 55;
  }

  /** ME differs from every foreign member on both sides, and beats it. */
  lemma MeIsWanted(me: u32, ms: seq<Member>)
    requires WellFormed(me, ms)
    ensures me !in Ids(ms) && ShouldAdd(me, ms, me)
  {
    if |ms| >= VRR_VSET_SIZE {
      assert forall i | 0 <= i < |ms| :: Lefts(ms)[i] > 0;
      NoneBelow(Lefts(ms), 1);
      WantedUnlessBeaten(me, ms, me);
    }
  }

  /** The evicted id is the newcomer's exactly when the newcomer was not wanted. Somebody is
      evicted, unless the newcomer is ME. */
  lemma EvictedIsUnwanted(me: u32, ms: seq<Member>, node: u32)
    requires Valid(me, ms) && |ms| == VRR_VSET_SIZE && node !in Ids(ms)
    ensures var all := [MemberOf(me, node)] + ms; var k := MedianIndex(all);
            && (k == |all| ==> node == me)
            && (k < |all| ==> all[k].node == node || all[k].node in Ids(ms))
            && (k < |all| && all[k].node == node <==> !ShouldAdd(me, ms, node))
  {
    var all := [MemberOf(me, node)] + ms;
    var k := MedianIndex(all);
    WantedUnlessBeaten(me, ms, node);
    NewcomerEvicted(me, ms, node);
    if node == me {
      MeIsWanted(me, ms);
    } else {
      NewcomerKeepsWellFormed(me, ms, node);
      MedianIsFound(me, all);
      NewcomerBumpedInMiddle(me, ms, node);
      WantedWhenOutsideMiddle(me, ms, node);
    }
    if 0 < k < |all| {
      assert all[k].node == Ids(ms)[k - 1];
    }
  }

  /** Admission agrees with eviction. Offered to a set without ME, any node, ME included, is refused
      exactly when inserting it would change nothing, because it would itself be the one evicted
      (also when it ties with a member, since it is found first); otherwise it is in the set
      afterwards. The set stays small and without ME unless ME is what is offered. */
  lemma AdmissionAgreesWithEviction(me: u32, ms: seq<Member>, node: u32)
    requires Valid(me, ms)
    ensures node != me ==> Valid(me, Add(me, ms, node))
    ensures ShouldAdd(me, ms, node) <==> Add(me, ms, node) != ms
    ensures ShouldAdd(me, ms, node) <==> node !in Ids(ms) && node in Ids(Add(me, ms, node))
  {
    if node !in Ids(ms) {
      if |ms| < VRR_VSET_SIZE {
        NewcomerKeepsWellFormed(me, ms, node);
        assert Ids([MemberOf(me, node)] + ms)[0] == node;
      } else if node == me {
        MeIsWanted(me, ms);
        AgreementIsExact(me, ms, me);
      } else {
        FullSetDecides(me, ms, node);
      }
    }
  }

  /** A member with both of these differences, if the values are complementary and present. */
  lemma MatchExists(me: u32, ms: seq<Member>, l: u32, r: u32)
    requires WellFormed(me, ms)
    ensures FirstMatch(ms, l, r) < |ms| <==> l in Lefts(ms) && r == UINT_MAX - l
  {
    var k := FirstMatch(ms, l, r);
    if k < |ms| {
      DiffsAreComplementary(me, ms[k].node);
      assert Lefts(ms)[k] == l;
    }
    if l in Lefts(ms) && r == UINT_MAX - l {
      var i :| 0 <= i < |ms| && Lefts(ms)[i] == l;
      DiffsAreComplementary(me, ms[i].node);
      assert ms[i].left == l && ms[i].right == r;
    }
  }

  /** A match other than the removed member survives the removal. */
  lemma MatchAfterRemoval(ms: seq<Member>, k: nat, l: u32, r: u32)
    requires k < |ms| && ms[k].left != l
    ensures FirstMatch(ms, l, r) < |ms| <==> FirstMatch(RemoveAt(ms, k), l, r) < |ms| - 1
  {
    var rest := RemoveAt(ms, k);
    var i, j := FirstMatch(ms, l, r), FirstMatch(rest, l, r);
    if i < |ms| {
      assert rest[if i < k then i else i - 1] == ms[i];
    }
    if j < |rest| {
      assert ms[if j < k then j else j + 1] == rest[j];
    }
  }

  /** With ME among five members, the rule finds somebody exactly when the third and the fourth of
      the left differences tie. */
  lemma BumpWithMe(me: u32, ms: seq<Member>)
    requires Built(me, ms) && |ms| == VRR_VSET_SIZE + 1 && me in Ids(ms)
    ensures |SortedLefts(ms)| == |ms|
    ensures MedianIndex(ms) < |ms| <==> SortedLefts(ms)[RADIUS] == SortedLefts(ms)[RADIUS + 1]
  {
    var k := MeApart(me, ms);
    var rest := RemoveAt(ms, k);
    hide Sort, FirstMatch, Built, DiffLeft, DiffRight, RemoveAt;
    MiddlesMatch(me, rest);
    MatchAfterRemoval(ms, k, SortedLefts(rest)[1], SortedRights(rest)[1]);
  }

  /** ME sorts to the front on both sides. */
  lemma MeApart(me: u32, ms: seq<Member>) returns (k: nat)
    requires Built(me, ms) && me in Ids(ms)
    ensures k < |ms| && ms[k].left == ms[k].right == 0 && WellFormed(me, RemoveAt(ms, k))
    ensures SortedLefts(ms) == [0] + SortedLefts(RemoveAt(ms, k))
            && SortedRights(ms) == [0] + SortedRights(RemoveAt(ms, k))
  {
    k := IndexOf(ms, me);
    var rest := RemoveAt(ms, k);
    RemovalKeepsWellFormed(me, ms, k);
    assert forall i | 0 <= i < |rest| :: rest[i] == ms[if i < k then i else i + 1];
    LeftsOfRemoval(ms, k);
    assert ms[k].left == 0 == ms[k].right && Lefts(ms)[k] == 0 == Rights(ms)[k];
    hide Sort, Built, DiffLeft, DiffRight;
    LeastFirst(Lefts(ms), Lefts(rest));
    LeastFirst(Rights(ms), Rights(rest));
  }

  lemma MiddlesMatch(me: u32, ms: seq<Member>)
    requires WellFormed(me, ms) && |ms| == VRR_VSET_SIZE
    ensures var l, r := SortedLefts(ms), SortedRights(ms);
            && |l| == |r| == |ms| && l[1] > 0
            && (FirstMatch(ms, l[1], r[1]) < |ms| <==> l[1] == l[2])
  {
    RightsMirrorLefts(me, ms);
    SortIsAscendingPermutation(Lefts(ms));
    var l, r := SortedLefts(ms), SortedRights(ms);
    var i := IndexIn(Lefts(ms), l, 1);
    assert ms[i].left > 0;
    MatchExists(me, ms, l[1], r[1]);
    assert r[1] == UINT_MAX - l[2];
  }

  // ---- What a whole run of offers leaves in the set ----

  /** The set after offering a sequence of nodes to vset_add, oldest first. */
  function Offered(me: u32, nodes: seq<u32>): seq<Member> {
    if nodes == [] then [] else Add(me, Offered(me, nodes[..|nodes| - 1]), nodes[|nodes| - 1])
  }

  /** The node is a member, or four or more members beat it on both sides. */
  ghost predicate Placed(me: u32, ms: seq<Member>, x: u32) {
    x in Ids(ms) || (|ms| >= VRR_VSET_SIZE && Beaten(me, ms, x))
  }

  lemma RemovalDropsOne(ms: seq<Member>, k: nat, x: u32)
    requires k < |ms| && x in Ids(ms)
    ensures x == ms[k].node || x in Ids(RemoveAt(ms, k))
  {
    var i :| 0 <= i < |ms| && Ids(ms)[i] == x;
    if i != k {
      assert Ids(RemoveAt(ms, k))[if i < k then i else i - 1] == x;
    }
  }

  lemma InsertionPlaces(me: u32, ms: seq<Member>, last: u32, x: u32)
    requires x == last || Placed(me, ms, x)
    ensures Placed(me, [MemberOf(me, last)] + ms, x)
  {
    var all := [MemberOf(me, last)] + ms;
    assert Ids(all) == [last] + Ids(ms);
    if x !in Ids(all) {
      InsertionKeepsBeaten(me, ms, MemberOf(me, last), x);
    }
  }

  lemma EvictionKeepsPlace(me: u32, ms: seq<Member>, x: u32)
    requires Built(me, ms) && |ms| > VRR_VSET_SIZE && MedianIndex(ms) < |ms| && Placed(me, ms, x)
    ensures Placed(me, RemoveAt(ms, MedianIndex(ms)), x)
  {
    hide MedianIndex, Beaten, DiffLeft, DiffRight;
    if x in Ids(ms) {
      RemovalDropsOne(ms, MedianIndex(ms), x);
    }
    if x !in Ids(RemoveAt(ms, MedianIndex(ms))) {
      EvictionKeepsBeaten(me, ms, x);
    }
  }

  lemma AddKeepsBuilt(me: u32, ms: seq<Member>, node: u32)
    requires Built(me, ms)
    ensures Built(me, Add(me, ms, node))
  {
    if node !in Ids(ms) {
      hide MedianIndex, DiffLeft, DiffRight;
      var all := [MemberOf(me, node)] + ms;
      NewcomerKeepsWellFormed(me, ms, node);
      if |all| > VRR_VSET_SIZE && MedianIndex(all) < |all| {
        RemovalKeepsWellFormed(me, all, MedianIndex(all));
      }
    }
  }

  lemma OfferKeepsPlace(me: u32, ms: seq<Member>, last: u32, x: u32)
    requires Built(me, ms) && (x == last || Placed(me, ms, x))
    ensures Placed(me, Add(me, ms, last), x)
  {
    if last !in Ids(ms) {
      hide MedianIndex, Beaten, DiffLeft, DiffRight, Built;
      var all := [MemberOf(me, last)] + ms;
      NewcomerKeepsWellFormed(me, ms, last);
      InsertionPlaces(me, ms, last, x);
      if |all| > VRR_VSET_SIZE && MedianIndex(all) < |all| {
        EvictionKeepsPlace(me, all, x);
      }
    }
  }

  lemma {:induction false} OfferedStaysOrIsBeaten(me: u32, nodes: seq<u32>)
    ensures Built(me, Offered(me, nodes)) && (me !in nodes ==> Valid(me, Offered(me, nodes)))
    ensures forall x | x in nodes :: Placed(me, Offered(me, nodes), x)
  {
    if nodes != [] {
      var before, last := nodes[..|nodes| - 1], nodes[|nodes| - 1];
      assert nodes == before + [last];
      OfferedStaysOrIsBeaten(me, before);
      var ms := Offered(me, before);
      hide Placed, Add, Built, WellFormed, ShouldAdd;
      AddKeepsBuilt(me, ms, last);
      if me !in nodes {
        AdmissionAgreesWithEviction(me, ms, last);
      }
      forall x | x in nodes ensures Placed(me, Offered(me, nodes), x) {
        OfferKeepsPlace(me, ms, last, x);
      }
    }
  }

  /** Over every run of offers, of ME too: any node that was offered and is not a member now is
      beaten on both sides, by two members at least as near on the left and two at least as near on
      the right. Without ME the set never has more than four members. */
  lemma VsetKeepsTheNearest(me: u32, nodes: seq<u32>, x: u32)
    requires x in nodes && x !in Ids(Offered(me, nodes))
    ensures |Offered(me, nodes)| >= VRR_VSET_SIZE && (me !in nodes ==> |Offered(me, nodes)| == VRR_VSET_SIZE)
    ensures CountBelow(Lefts(Offered(me, nodes)), DiffLeft(me, x) + 1) >= RADIUS
    ensures CountBelow(Rights(Offered(me, nodes)), DiffRight(me, x) + 1) >= RADIUS
  {
    OfferedStaysOrIsBeaten(me, nodes);
  }

  // ---- The same for vrr_add, which asks vset_should_add first ----

  /** Whether vrr_add admits this source. */
  predicate Admits(me: u32, ms: seq<Member>, src: u32) {
    src != UINT_MAX && ShouldAdd(me, ms, src)
  }

  /** A wanted node is in the set once it is added, ME and overfull sets included. */
  lemma WantedIsAdded(me: u32, ms: seq<Member>, node: u32)
    ensures ShouldAdd(me, ms, node) ==> node in Ids(Add(me, ms, node))
  {
    if |ms| >= VRR_VSET_SIZE {
      AgreementIsExact(me, ms, node);
    } else if node !in Ids(ms) {
      assert Ids([MemberOf(me, node)] + ms)[0] == node;
    }
  }

  /** The members after vrr_add. */
  function Joined(me: u32, ms: seq<Member>, src: u32): seq<Member> {
    if Admits(me, ms, src) then Add(me, ms, src) else ms
  }

  /** The set after offering a sequence of nodes to vrr_add, oldest first. */
  function Admitted(me: u32, nodes: seq<u32>): seq<Member> {
    if nodes == [] then [] else Joined(me, Admitted(me, nodes[..|nodes| - 1]), nodes[|nodes| - 1])
  }

  /** A refused node is a member already, or beaten. */
  lemma JoinKeepsPlace(me: u32, ms: seq<Member>, last: u32, x: u32)
    requires Built(me, ms) && ((x == last && last != UINT_MAX) || Placed(me, ms, x))
    ensures Placed(me, Joined(me, ms, last), x)
  {
    hide MedianIndex, Beaten, DiffLeft, DiffRight, Built, Add;
    if Admits(me, ms, last) {
      OfferKeepsPlace(me, ms, last, x);
    } else if |ms| >= VRR_VSET_SIZE {
      WantedUnlessBeaten(me, ms, last);
    }
  }

  /** Over every run of vrr_add, with ME and any ids: every source that was offered is a member now
      or beaten on both sides by members of a full set. Runs without ME are those of vset_add. */
  lemma {:induction false} AdmittedStaysOrIsBeaten(me: u32, nodes: seq<u32>)
    ensures Built(me, Admitted(me, nodes)) && (me !in nodes ==> Valid(me, Admitted(me, nodes)))
    ensures forall x | x in nodes && x != UINT_MAX :: Placed(me, Admitted(me, nodes), x)
    ensures me !in nodes && UINT_MAX !in nodes ==> Admitted(me, nodes) == Offered(me, nodes)
  {
    if nodes != [] {
      var before, last := nodes[..|nodes| - 1], nodes[|nodes| - 1];
      assert nodes == before + [last];
      AdmittedStaysOrIsBeaten(me, before);
      var ms := Admitted(me, before);
      hide Placed, Add, Built, WellFormed, ShouldAdd;
      AddKeepsBuilt(me, ms, last);
      if me !in nodes {
        AdmissionAgreesWithEviction(me, ms, last);
      }
      forall x | x in nodes && x != UINT_MAX ensures Placed(me, Admitted(me, nodes), x) {
        JoinKeepsPlace(me, ms, last, x);
      }
    }
  }
}
