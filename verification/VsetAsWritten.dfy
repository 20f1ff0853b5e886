/** The virtual set with its counter as vrr_data.c has it: vset_size is incremented on insertion
    and never decremented, so once a member has left, the two arrays of vset_size words have slots
    that nothing fills. What the admission test and the eviction rule do then depends on what those
    slots happen to hold; here they hold anything. */
module VsetAsWritten {
  import opened Types
  import opened RingArithmetic
  import opened Sorting
  import opened VirtualSet

  // ---- Order statistics with more values ----

  /** More values can only lower the k-th smallest, and keep it exactly when no more than k of all
      the values are below it. */
  lemma MoreValues(s: seq<u32>, more: seq<u32>, k: nat)
    requires k < |s|
    ensures |Sort(s)| == |s| && |Sort(s + more)| == |s| + |more|
    ensures Sort(s + more)[k] <= Sort(s)[k]
    ensures Sort(s + more)[k] == Sort(s)[k] <==> CountBelow(s + more, Sort(s)[k]) <= k
  {
    SortIsAscendingPermutation(s);
    SortIsAscendingPermutation(s + more);
    var x: int := Sort(s)[k];
    hide Sort;
    KthBelow(s, k, x + 1);
    CountBelowConcat(s, more, x + 1);
    KthBelow(s + more, k, x + 1);
    KthBelow(s + more, k, x);
  }

  // ---- No three members share a difference ----

  function CountEqual(s: seq<u32>, v: u32): nat {
    if s == [] then 0 else (if s[0] == v then 1 else 0) + CountEqual(s[1..], v)
  }

  lemma {:induction false} EqualIsBelowNext(s: seq<u32>, v: u32)
    ensures CountBelow(s, v + 1) == CountBelow(s, v) + CountEqual(s, v)
  {
    if s != [] {
      EqualIsBelowNext(s[1..], v);
    }
  }

  lemma {:induction false} FirstEqual(s: seq<u32>, v: u32) returns (i: nat)
    requires CountEqual(s, v) > 0
    ensures i < |s| && s[i] == v && CountEqual(s[i + 1..], v) == CountEqual(s, v) - 1
  {
    if s[0] == v {
      i := 0;
    } else {
      var j := FirstEqual(s[1..], v);
      i := j + 1;
      assert s[1..][j + 1..] == s[i + 1..];
    }
  }

  lemma NoThreeAlike(me: u32, x: u32, y: u32, z: u32)
    requires x != me && y != me && z != me && x != y && x != z && y != z
    ensures !(DiffLeft(me, x) == DiffLeft(me, y) == DiffLeft(me, z))
  {
  }

  /** At most two members are at the same left difference. */
  lemma AtMostTwoAlike(me: u32, ms: seq<Member>, v: u32)
    requires WellFormed(me, ms)
    ensures CountEqual(Lefts(ms), v) <= 2
  {
    var s := Lefts(ms);
    if CountEqual(s, v) > 2 {
      var i := FirstEqual(s, v);
      var j := FirstEqual(s[i + 1..], v);
      assert s[i + 1..][j + 1..] == s[i + j + 2..];
      var k := FirstEqual(s[i + j + 2..], v);
      NoThreeAlike(me, ms[i].node, ms[i + 1 + j].node, ms[i + j + 2 + k].node);
    }
  }

  /** Sorted differences two places apart differ. */
  lemma TwoApartDiffer(me: u32, ms: seq<Member>, i: nat)
    requires WellFormed(me, ms) && i + 2 < |ms|
    ensures |SortedLefts(ms)| == |ms| && SortedLefts(ms)[i] < SortedLefts(ms)[i + 2]
  {
    var s := Lefts(ms);
    SortIsAscendingPermutation(s);
    var v: int := SortedLefts(ms)[i];
    hide Sort;
    if SortedLefts(ms)[i + 2] <= v {
      KthBelow(s, i, v);
      KthBelow(s, i + 2, v + 1);
      EqualIsBelowNext(s, v);
      AtMostTwoAlike(me, ms, v);
      assert false;
    }
  }

  // ---- The eviction rule with unfilled slots ----

  /** The member that vset_bump finds when its arrays also hold these slots, |ms| if none. */
  function FoundAt(ms: seq<Member>, left: seq<u32>, right: seq<u32>): (k: nat)
    requires |ms| + |left| > RADIUS && |ms| + |right| > RADIUS
    ensures k <= |ms|
  {
    SortIsAscendingPermutation(Lefts(ms) + left);
    SortIsAscendingPermutation(Rights(ms) + right);
    FirstMatch(ms, Sort(Lefts(ms) + left)[RADIUS], Sort(Rights(ms) + right)[RADIUS])
  }

  /** The member is third on both sides among members and slots. */
  predicate BothThird(ms: seq<Member>, left: seq<u32>, right: seq<u32>, i: nat)
    requires i < |ms|
  {
    Third(Lefts(ms) + left, ms[i].left) && Third(Rights(ms) + right, ms[i].right)
  }

  /** For any members, few or many, ME among them or not, and any slots: the rule evicts exactly if
      some member is third on both sides among members and slots, and then evicts the first. */
  lemma EvictionByCounting(ms: seq<Member>, left: seq<u32>, right: seq<u32>)
    requires |ms| + |left| > RADIUS && |ms| + |right| > RADIUS
    ensures var k := FoundAt(ms, left, right);
            && (k < |ms| ==> BothThird(ms, left, right, k))
            && (forall i | 0 <= i < k :: !BothThird(ms, left, right, i))
  {
    SortIsAscendingPermutation(Lefts(ms) + left);
    SortIsAscendingPermutation(Rights(ms) + right);
    forall i | 0 <= i < |ms|
      ensures Third(Lefts(ms) + left, ms[i].left) <==> Sort(Lefts(ms) + left)[RADIUS] == ms[i].left
      ensures Third(Rights(ms) + right, ms[i].right) <==> Sort(Rights(ms) + right)[RADIUS] == ms[i].right
    {
      ThirdIsSorted(Lefts(ms) + left, ms[i].left);
      ThirdIsSorted(Rights(ms) + right, ms[i].right);
    }
    hide Sort, Third;
  }

  /** The slots leave both third-smallest differences as the members have them. */
  ghost predicate Undisturbed(ms: seq<Member>, left: seq<u32>, right: seq<u32>)
    requires |ms| > RADIUS
  {
    SortIsAscendingPermutation(Lefts(ms));
    SortIsAscendingPermutation(Rights(ms));
    && CountBelow(Lefts(ms) + left, SortedLefts(ms)[RADIUS]) <= RADIUS
    && CountBelow(Rights(ms) + right, SortedRights(ms)[RADIUS]) <= RADIUS
  }

  /** Exactly when the rule finds a member to evict, for five members or more and any slots: the
      third-smallest and the third-largest member difference are the same, and the slots disturb
      neither. The member is then the one at both medians of the members alone. */
  lemma EvictionAsWritten(me: u32, ms: seq<Member>, left: seq<u32>, right: seq<u32>)
    requires WellFormed(me, ms) && |ms| > VRR_VSET_SIZE
    ensures |SortedLefts(ms)| == |SortedRights(ms)| == |ms|
    ensures FoundAt(ms, left, right) < |ms|
            <==> SortedLefts(ms)[RADIUS] == SortedLefts(ms)[|ms| - 1 - RADIUS] && Undisturbed(ms, left, right)
    ensures FoundAt(ms, left, right) < |ms|
            ==> FoundAt(ms, left, right) == FirstMatch(ms, SortedLefts(ms)[RADIUS], SortedRights(ms)[RADIUS])
  {
    RightsMirrorLefts(me, ms);
    MoreValues(Lefts(ms), left, RADIUS);
    MoreValues(Rights(ms), right, RADIUS);
    var n := |ms|;
    var l, r := SortedLefts(ms), SortedRights(ms);
    var l', r' := Sort(Lefts(ms) + left)[RADIUS], Sort(Rights(ms) + right)[RADIUS];
    assert r[RADIUS] == UINT_MAX - l[n - 1 - RADIUS] && l[RADIUS] <= l[n - 1 - RADIUS];
    MatchExists(me, ms, l', r');
    assert l[RADIUS] in Lefts(ms) by {
      SortIsAscendingPermutation(Lefts(ms));
      var i := IndexIn(Lefts(ms), l, RADIUS);
    }
    hide Sort, FirstMatch, CountBelow, Ascending, Built;
  }

  /** One member too many and one slot in each array, as after the first eviction: the same in
      terms of the five differences and the two slots. */
  lemma OneSlotEviction(me: u32, ms: seq<Member>, left: u32, right: u32)
    requires WellFormed(me, ms) && |ms| == VRR_VSET_SIZE + 1
    ensures |SortedLefts(ms)| == |SortedRights(ms)| == |ms|
    ensures var l, r := SortedLefts(ms), SortedRights(ms);
            FoundAt(ms, [left], [right]) < |ms|
            <==> (l[1] == l[2] || left >= l[2]) && (r[1] == r[2] || right >= r[2])
    ensures FoundAt(ms, [left], [right]) < |ms| ==> FoundAt(ms, [left], [right]) == MedianIndex(ms)
  {
    EvictionAsWritten(me, ms, [left], [right]);
    SortIsAscendingPermutation(Lefts(ms));
    SortIsAscendingPermutation(Rights(ms));
    OneSlotCount(Lefts(ms), left);
    OneSlotCount(Rights(ms), right);
    hide Sort, FirstMatch, CountBelow, Ascending, Built, FoundAt;
  }

  lemma OneSlotCount(s: seq<u32>, g: u32)
    requires |s| == 5 == |Sort(s)| && Ascending(Sort(s))
    ensures CountBelow(s + [g], Sort(s)[2]) <= 2 <==> Sort(s)[1] == Sort(s)[2] || g >= Sort(s)[2]
  {
    var t := Sort(s);
    hide Sort;
    CountBelowConcat(s, [g], t[2]);
    KthBelow(s, 1, t[2]);
    KthBelow(s, 2, t[2]);
    assert t[1] <= t[2];
    assert CountBelow([g], t[2]) == if g < t[2] then 1 else 0;
  }

  /** With slots that hold 0 the rule never finds anybody again. */
  lemma NeverWithZeroSlots(me: u32, ms: seq<Member>, left: seq<u32>, right: seq<u32>)
    requires WellFormed(me, ms) && |ms| > VRR_VSET_SIZE && 0 in left && 0 in right
    ensures FoundAt(ms, left, right) == |ms|
  {
    EvictionAsWritten(me, ms, left, right);
    RightsMirrorLefts(me, ms);
    ZeroCounts(Lefts(ms), left, 1);
    ZeroCounts(Rights(ms), right, 1);
    var l, r, n := SortedLefts(ms), SortedRights(ms), |ms|;
    assert l[1] <= l[2] <= l[n - 3] <= l[n - 2];
    TwoApartDiffer(me, ms, 0);
    TwoApartDiffer(me, ms, 1);
    TwoApartDiffer(me, ms, n - 3);
    assert r[1] == UINT_MAX - l[n - 2] && r[2] == UINT_MAX - l[n - 3];
    assert l[2] > 0 && r[2] > 0 && l[1] < l[3] <= l[n - 2];
  }

  /** A zero slot leaves the third-smallest value alone only if it ties with the second-smallest,
      or is 0 itself. */
  lemma ZeroCounts(s: seq<u32>, more: seq<u32>, k: nat)
    requires k + 1 < |s| && 0 in more && |Sort(s)| == |s|
    ensures CountBelow(s + more, Sort(s)[k + 1]) <= k + 1 ==> Sort(s)[k] == Sort(s)[k + 1] || Sort(s)[k + 1] == 0
  {
    SortIsAscendingPermutation(s);
    var x := Sort(s)[k + 1];
    assert Sort(s)[k] <= x;
    hide Sort;
    if x > 0 && Sort(s)[k] < x {
      CountBelowConcat(s, more, x);
      KthBelow(s, k, x);
      MemberCounts(more, 0, x);
    }
  }

  lemma {:induction false} MemberCounts(s: seq<u32>, v: u32, d: int)
    requires v in s && v < d
    ensures CountBelow(s, d) > 0
  {
    if s[0] != v {
      MemberCounts(s[1..], v, d);
    }
  }

  /** From seven members on the rule never finds anybody, whatever the slots hold. */
  lemma NeverFromSevenOn(me: u32, ms: seq<Member>, left: seq<u32>, right: seq<u32>)
    requires WellFormed(me, ms) && |ms| >= 7
    ensures FoundAt(ms, left, right) == |ms|
  {
    EvictionAsWritten(me, ms, left, right);
    RightsMirrorLefts(me, ms);
    TwoApartDiffer(me, ms, RADIUS);
    hide Sort, FirstMatch, CountBelow, Built, FoundAt, Undisturbed;
    assert SortedLefts(ms)[RADIUS + 2] <= SortedLefts(ms)[|ms| - 1 - RADIUS];
  }

  // ---- The eviction rule with ME among the members ----

  /** Slots bring a single zero to the third place exactly if two of them are zero. */
  lemma ZeroIsThird(s: seq<u32>, more: seq<u32>)
    requires |Sort(s)| == |s| > RADIUS && Sort(s)[0] == 0 < Sort(s)[1]
    ensures |Sort(s + more)| == |s| + |more|
    ensures Sort(s + more)[RADIUS] == 0 <==> CountBelow(more, 1) >= 2
  {
    KthBelow(s, 0, 1);
    KthBelow(s, 1, 1);
    KthBelow(s + more, RADIUS, 1);
    CountBelowConcat(s, more, 1);
  }

  /** A foreign member can be third on both sides only if it is there without the slots, and the
      two middle ones of the other four coincide. */
  lemma ForeignThird(me: u32, rest: seq<Member>, l: u32, r: u32)
    requires WellFormed(me, rest) && |rest| >= VRR_VSET_SIZE
    requires |SortedLefts(rest)| == |SortedRights(rest)| == |rest|
    requires l <= SortedLefts(rest)[1] && r <= SortedRights(rest)[1]
    ensures FirstMatch(rest, l, r) < |rest|
            <==> |rest| == VRR_VSET_SIZE && SortedLefts(rest)[1] == SortedLefts(rest)[2]
                 && l == SortedLefts(rest)[1] && r == SortedRights(rest)[1]
  {
    RightsMirrorLefts(me, rest);
    MatchExists(me, rest, l, r);
    var ls, rs, n := SortedLefts(rest), SortedRights(rest), |rest|;
    assert rs[1] == UINT_MAX - ls[n - 2] && ls[1] <= ls[2] <= ls[n - 2];
    assert ls[1] in Lefts(rest) by {
      SortIsAscendingPermutation(Lefts(rest));
      var i := IndexIn(Lefts(rest), ls, 1);
    }
    if n > VRR_VSET_SIZE {
      TwoApartDiffer(me, rest, 1);
      assert ls[3] <= ls[n - 2];
    }
  }

  lemma ForeignAboveZero(me: u32, ms: seq<Member>)
    requires WellFormed(me, ms) && ms != []
    ensures |SortedLefts(ms)| == |SortedRights(ms)| == |ms| && SortedLefts(ms)[0] > 0 && SortedRights(ms)[0] > 0
  {
    SortIsAscendingPermutation(Lefts(ms));
    SortIsAscendingPermutation(Rights(ms));
    var i := IndexIn(Lefts(ms), SortedLefts(ms), 0);
    var j := IndexIn(Rights(ms), SortedRights(ms), 0);
    assert ms[i].left > 0 && ms[j].right > 0;
  }

  /** Exactly when the rule finds somebody with ME among five members or more, for any slots: two
      slots on each side are 0, or there are five members, the third and fourth left difference tie
      and the slots disturb neither side. With six members or more it is ME who is found. */
  lemma EvictionWithMe(me: u32, ms: seq<Member>, left: seq<u32>, right: seq<u32>)
    requires Built(me, ms) && me in Ids(ms) && |ms| > VRR_VSET_SIZE
    ensures |SortedLefts(ms)| == |ms|
    ensures FoundAt(ms, left, right) < |ms|
            <==> || (CountBelow(left, 1) >= 2 && CountBelow(right, 1) >= 2)
                 || (&& |ms| == VRR_VSET_SIZE + 1 && SortedLefts(ms)[RADIUS] == SortedLefts(ms)[RADIUS + 1]
                     && Undisturbed(ms, left, right))
    ensures |ms| > VRR_VSET_SIZE + 1 && FoundAt(ms, left, right) < |ms| ==> ms[FoundAt(ms, left, right)].node == me
  {
    var k := MeApart(me, ms);
    var rest := RemoveAt(ms, k);
    ForeignAboveZero(me, rest);
    MoreValues(Lefts(ms), left, RADIUS);
    MoreValues(Rights(ms), right, RADIUS);
    ZeroIsThird(Lefts(ms), left);
    ZeroIsThird(Rights(ms), right);
    var l, r := Sort(Lefts(ms) + left)[RADIUS], Sort(Rights(ms) + right)[RADIUS];
    FoundWithMe(me, ms, k, l, r);
  }

  lemma FoundWithMe(me: u32, ms: seq<Member>, k: nat, l: u32, r: u32)
    requires Built(me, ms) && |ms| > VRR_VSET_SIZE && k < |ms| && ms[k].node == me && ms[k].left == ms[k].right == 0
    requires WellFormed(me, RemoveAt(ms, k))
    requires SortedLefts(ms) == [0] + SortedLefts(RemoveAt(ms, k))
    requires SortedRights(ms) == [0] + SortedRights(RemoveAt(ms, k))
    requires |SortedLefts(ms)| == |SortedRights(ms)| == |ms|
    requires l <= SortedLefts(ms)[RADIUS] && r <= SortedRights(ms)[RADIUS]
    ensures FirstMatch(ms, l, r) < |ms|
            <==> || (l == 0 && r == 0)
                 || (&& |ms| == VRR_VSET_SIZE + 1 && SortedLefts(ms)[RADIUS] == SortedLefts(ms)[RADIUS + 1]
                     && l == SortedLefts(ms)[RADIUS] && r == SortedRights(ms)[RADIUS])
    ensures |ms| > VRR_VSET_SIZE + 1 && FirstMatch(ms, l, r) < |ms| ==> ms[FirstMatch(ms, l, r)].node == me
  {
    var rest := RemoveAt(ms, k);
    ForeignAboveZero(me, rest);
    ForeignThird(me, rest, l, r);
    hide Sort;
    if l == 0 {
      OnlyMeAtZero(me, ms, FirstMatch(ms, l, r));
      assert r == 0 ==> FirstMatch(ms, l, r) <= k;
    } else {
      MatchAfterRemoval(ms, k, l, r);
    }
  }

  lemma OnlyMeAtZero(me: u32, ms: seq<Member>, i: nat)
    requires Built(me, ms)
    ensures i < |ms| && ms[i].left == 0 ==> ms[i].node == me && ms[i].right == 0
  {
  }

  // ---- The admission test with unfilled slots ----

  /** vset_should_add with a counter of size and these slots. */
  predicate WantsAsWritten(me: u32, ms: seq<Member>, size: nat, node: u32, left: seq<u32>, right: seq<u32>)
    requires |ms| + |left| == |ms| + |right| == size
  {
    SortIsAscendingPermutation(Lefts(ms) + left);
    SortIsAscendingPermutation(Rights(ms) + right);
    && node !in Ids(ms)
    && (size < VRR_VSET_SIZE
        || exists i | 0 <= i < RADIUS ::
             Sort(Lefts(ms) + left)[i] > DiffLeft(me, node) || Sort(Rights(ms) + right)[i] > DiffRight(me, node))
  }

  /** What the test decides once the counter has reached four, for any list and any slots: an absent
      node is wanted exactly if fewer than two of the members and slots are as near on one side. */
  lemma WantedAsWritten(me: u32, ms: seq<Member>, size: nat, node: u32, left: seq<u32>, right: seq<u32>)
    requires |ms| + |left| == |ms| + |right| == size >= VRR_VSET_SIZE
    ensures WantsAsWritten(me, ms, size, node, left, right)
            <==> node !in Ids(ms)
                 && (Nearest(Lefts(ms) + left, DiffLeft(me, node)) || Nearest(Rights(ms) + right, DiffRight(me, node)))
  {
    SomeAbove(Lefts(ms) + left, DiffLeft(me, node));
    SomeAbove(Rights(ms) + right, DiffRight(me, node));
    hide Sort, Nearest;
  }

  lemma NoSlots(me: u32, ms: seq<Member>, node: u32)
    ensures WantsAsWritten(me, ms, |ms|, node, [], []) <==> ShouldAdd(me, ms, node)
  {
    assert Lefts(ms) + [] == Lefts(ms) && Rights(ms) + [] == Rights(ms);
    hide Sort, DiffLeft, DiffRight;
    assert Sort(Lefts(ms) + []) == SortedLefts(ms) && Sort(Rights(ms) + []) == SortedRights(ms);
  }

  /** Slots never make the test accept a node that the members alone refuse. */
  lemma SlotsOnlyRefuse(me: u32, ms: seq<Member>, size: nat, node: u32, left: seq<u32>, right: seq<u32>)
    requires |ms| + |left| == |ms| + |right| == size
    ensures WantsAsWritten(me, ms, size, node, left, right) ==> ShouldAdd(me, ms, node)
  {
    if |ms| >= VRR_VSET_SIZE {
      hide WantsAsWritten, ShouldAdd, CountBelow;
      WantedAsWritten(me, ms, size, node, left, right);
      WantedAsWritten(me, ms, |ms|, node, [], []);
      NoSlots(me, ms, node);
      assert Lefts(ms) + [] == Lefts(ms) && Rights(ms) + [] == Rights(ms);
      CountBelowConcat(Lefts(ms), left, DiffLeft(me, node) + 1);
      CountBelowConcat(Rights(ms), right, DiffRight(me, node) + 1);
    }
  }

  /** From two slots that hold 0 on, and a counter of four, every node is refused. */
  lemma TwoZeroSlotsRefuseAll(me: u32, ms: seq<Member>, node: u32, n: nat)
    requires n >= 2 && |ms| + n >= VRR_VSET_SIZE
    ensures !WantsAsWritten(me, ms, |ms| + n, node, Zeros(n), Zeros(n))
  {
    WantedAsWritten(me, ms, |ms| + n, node, Zeros(n), Zeros(n));
    CountBelowConcat(Lefts(ms), Zeros(n), DiffLeft(me, node) + 1);
    CountBelowConcat(Rights(ms), Zeros(n), DiffRight(me, node) + 1);
    ZerosCount(n, DiffLeft(me, node) + 1);
    ZerosCount(n, DiffRight(me, node) + 1);
    hide Sort, WantsAsWritten;
  }

  function Zeros(n: nat): (r: seq<u32>)
    ensures |r| == n && forall i | 0 <= i < n :: r[i] == 0
  {
    seq(n, _ => 0)
  }

  lemma {:induction false} ZerosCount(n: nat, d: int)
    requires d > 0
    ensures CountBelow(Zeros(n), d) == n
  {
    if n > 0 {
      assert Zeros(n)[1..] == Zeros(n - 1);
      ZerosCount(n - 1, d);
    }
  }

  // ---- Runs ----

  /** The list and the counter vset_size. */
  datatype Written = Written(list: seq<Member>, size: nat)

  /** What the stack holds where an array of differences is not filled. */
  datatype Memory = Memory(left: nat -> u32, right: nat -> u32)

  function Slots(f: nat -> u32, n: nat): (r: seq<u32>)
    ensures |r| == n && forall i | 0 <= i < n :: r[i] == f(i)
  {
    seq(n, i requires i >= 0 => f(i))
  }

  /** vset_add: nothing decrements the counter when a member is evicted. */
  function AddAsWritten(me: u32, w: Written, node: u32, m: Memory): Written
    requires |w.list| <= w.size
  {
    if node in Ids(w.list) then w
    else
      var all := [MemberOf(me, node)] + w.list;
      if w.size + 1 <= VRR_VSET_SIZE then Written(all, w.size + 1)
      else
        var k := FoundAt(all, Slots(m.left, w.size - |w.list|), Slots(m.right, w.size - |w.list|));
        Written(if k == |all| then all else RemoveAt(all, k), w.size + 1)
  }

  /** An offer to vrr_add, which ignores 0xFFFFFFFF, with what the stack holds at the test and at the
      insertion, or a call of vset_remove. */
  datatype Event = Offer(node: u32, tested: Memory, bumped: Memory) | Leave(node: u32)

  function Step(me: u32, w: Written, e: Event): Written
    requires |w.list| <= w.size
  {
    match e
    case Offer(node, tested, bumped) =>
      var n := w.size - |w.list|;
      if node != UINT_MAX && WantsAsWritten(me, w.list, w.size, node, Slots(tested.left, n), Slots(tested.right, n))
      then AddAsWritten(me, w, node, bumped) else w
    case Leave(node) =>
      Written(Without(w.list, node), w.size)
  }

  /** The set after a run of events, oldest first. */
  function Run(me: u32, es: seq<Event>): (w: Written)
    ensures |w.list| <= w.size
  {
    if es == [] then Written([], 0) else Step(me, Run(me, es[..|es| - 1]), es[|es| - 1])
  }

  ghost predicate Foreign(me: u32, es: seq<Event>) {
    forall i | 0 <= i < |es| && es[i].Offer? :: es[i].node != me
  }

  ghost predicate OnlyOffers(es: seq<Event>) {
    forall i | 0 <= i < |es| :: es[i].Offer?
  }

  lemma StepKeepsWellFormed(me: u32, w: Written, e: Event)
    requires |w.list| <= w.size && Built(me, w.list)
    ensures Built(me, Step(me, w, e).list)
    ensures WellFormed(me, w.list) && (e.Offer? ==> e.node != me) ==> WellFormed(me, Step(me, w, e).list)
  {
    hide Sort, FirstMatch, FoundAt, WantsAsWritten, Built, DiffLeft, DiffRight, Ids;
    match e
    case Offer(node, _, bumped) =>
      if node !in Ids(w.list) {
        var all := [MemberOf(me, node)] + w.list;
        var n := w.size - |w.list|;
        NewcomerKeepsWellFormed(me, w.list, node);
        if |all| + n > VRR_VSET_SIZE {
          var k := FoundAt(all, Slots(bumped.left, n), Slots(bumped.right, n));
          if k < |all| {
            RemovalKeepsWellFormed(me, all, k);
          }
        }
      }
    case Leave(node) =>
      var k := IndexOf(w.list, node);
      if k < |w.list| {
        RemovalKeepsWellFormed(me, w.list, k);
      }
  }

  /** Over every run no id occurs twice. Unless ME is offered, the ids are foreign and from the fifth
      insertion on the counter is too high; without removals it is right before that, and four
      members stay after it. */
  lemma {:induction false} CounterDrifts(me: u32, es: seq<Event>)
    ensures Built(me, Run(me, es).list)
    ensures var w := Run(me, es); Foreign(me, es) ==>
            && WellFormed(me, w.list)
            && (w.size > VRR_VSET_SIZE ==> |w.list| < w.size)
            && (OnlyOffers(es) ==> if w.size <= VRR_VSET_SIZE then |w.list| == w.size else |w.list| >= VRR_VSET_SIZE)
  {
    if es != [] {
      var before, e := es[..|es| - 1], es[|es| - 1];
      CounterDrifts(me, before);
      StepKeepsWellFormed(me, Run(me, before), e);
      if Foreign(me, es) {
        StepDrifts(me, Run(me, before), e);
      }
    }
  }

  lemma StepDrifts(me: u32, w: Written, e: Event)
    requires |w.list| <= w.size && WellFormed(me, w.list) && (e.Offer? ==> e.node != me)
    ensures var w' := Step(me, w, e);
            && w.size <= w'.size <= w.size + 1
            && (|w.list| < w.size ==> |w'.list| < w'.size)
            && (w.size == VRR_VSET_SIZE && w'.size > w.size ==> |w'.list| < w'.size)
            && (e.Offer? && w'.size <= VRR_VSET_SIZE && |w.list| == w.size ==> |w'.list| == w'.size)
            && (e.Offer? && w.size >= VRR_VSET_SIZE && |w.list| >= VRR_VSET_SIZE ==> |w'.list| >= VRR_VSET_SIZE)
  {
    hide Sort, FirstMatch, FoundAt, WantsAsWritten, Built, DiffLeft, DiffRight, Ids;
    if e.Offer? && e.node !in Ids(w.list) && |w.list| == w.size == VRR_VSET_SIZE {
      NewcomerKeepsWellFormed(me, w.list, e.node);
      FullCounterEvicts(me, [MemberOf(me, e.node)] + w.list, Slots(e.bumped.left, 0), Slots(e.bumped.right, 0));
    }
  }

  /** With no unfilled slot the rule is the intended one, and finds a member. */
  lemma FullCounterEvicts(me: u32, ms: seq<Member>, left: seq<u32>, right: seq<u32>)
    requires WellFormed(me, ms) && |ms| == VRR_VSET_SIZE + 1 && left == right == []
    ensures FoundAt(ms, left, right) == MedianIndex(ms) < |ms|
  {
    MedianIsFound(me, ms);
    assert Lefts(ms) + [] == Lefts(ms) && Rights(ms) + [] == Rights(ms);
  }

  /** The slots change nothing about who is to be evicted: nobody if there is room, and otherwise
      exactly the members that are third on both sides among the members alone. */
  ghost predicate SameThirds(ms: seq<Member>, left: seq<u32>, right: seq<u32>) {
    forall i | 0 <= i < |ms| :: BothThird(ms, left, right, i) <==> |ms| > VRR_VSET_SIZE && BothThird(ms, [], [], i)
  }

  /** Whom vset_bump should evict, |ms| for nobody. */
  function Intended(ms: seq<Member>): (k: nat)
    ensures k <= |ms|
  {
    if |ms| <= VRR_VSET_SIZE then |ms| else MedianIndex(ms)
  }

  /** The members that are third do not change exactly if the first of them does not. */
  lemma SameThirdsSameEviction(ms: seq<Member>, left: seq<u32>, right: seq<u32>)
    requires |ms| + |left| > RADIUS && |ms| + |right| > RADIUS
    ensures SameThirds(ms, left, right) <==> FoundAt(ms, left, right) == Intended(ms)
  {
    EvictionByCounting(ms, left, right);
    if |ms| > VRR_VSET_SIZE {
      EvictionByCounting(ms, [], []);
      NoSlotsFound(ms);
      var k := FoundAt(ms, left, right);
      if k == MedianIndex(ms) < |ms| {
        forall i | 0 <= i < |ms| ensures BothThird(ms, left, right, i) <==> BothThird(ms, [], [], i) {
          ThirdIsUnique(ms, left, right, k, i);
          ThirdIsUnique(ms, [], [], k, i);
        }
      }
    }
    hide BothThird, FoundAt, MedianIndex;
  }

  lemma NoSlotsFound(ms: seq<Member>)
    requires |ms| > VRR_VSET_SIZE
    ensures FoundAt(ms, [], []) == MedianIndex(ms)
  {
    assert Lefts(ms) + [] == Lefts(ms) && Rights(ms) + [] == Rights(ms);
  }

  /** Who is third with a member is third exactly if it has the same differences. */
  lemma ThirdIsUnique(ms: seq<Member>, left: seq<u32>, right: seq<u32>, k: nat, i: nat)
    requires |ms| + |left| > RADIUS && |ms| + |right| > RADIUS
    requires k < |ms| && i < |ms| && BothThird(ms, left, right, k)
    ensures BothThird(ms, left, right, i) <==> ms[i].left == ms[k].left && ms[i].right == ms[k].right
  {
    ThirdIsSorted(Lefts(ms) + left, ms[k].left);
    ThirdIsSorted(Rights(ms) + right, ms[k].right);
    ThirdIsSorted(Lefts(ms) + left, ms[i].left);
    ThirdIsSorted(Rights(ms) + right, ms[i].right);
  }

  lemma RemovalsDiffer(me: u32, ms: seq<Member>, k: nat, j: nat)
    requires Built(me, ms) && k < |ms| && j < |ms| && k != j
    ensures RemoveAt(ms, k) != RemoveAt(ms, j)
  {
    if k < j {
      assert RemoveAt(ms, k)[k] == ms[k + 1] && RemoveAt(ms, j)[k] == ms[k];
    } else {
      assert RemoveAt(ms, j)[j] == ms[j + 1] && RemoveAt(ms, k)[j] == ms[j];
    }
  }

  /** Exactly when an offer does what vrr_add should do, for every list without repeated ids, short
      or long, with ME or without, every counter and all slots: the counter is below four, or the
      node is not to be admitted, or the test still accepts it and the slots do not change who is
      third on both sides. A set with room evicts nobody only if nobody is. */
  lemma OfferAsIntended(me: u32, w: Written, e: Event)
    requires e.Offer? && Built(me, w.list) && |w.list| <= w.size
    ensures var n := w.size - |w.list|;
            Step(me, w, e).list == Joined(me, w.list, e.node)
            <==> || w.size < VRR_VSET_SIZE || !Admits(me, w.list, e.node)
                 || (&& WantsAsWritten(me, w.list, w.size, e.node, Slots(e.tested.left, n), Slots(e.tested.right, n))
                     && SameThirds([MemberOf(me, e.node)] + w.list, Slots(e.bumped.left, n), Slots(e.bumped.right, n)))
  {
    hide Sort, FirstMatch, FoundAt, DiffLeft, DiffRight, MedianIndex, SameThirds;
    var n, all := w.size - |w.list|, [MemberOf(me, e.node)] + w.list;
    SlotsOnlyRefuse(me, w.list, w.size, e.node, Slots(e.tested.left, n), Slots(e.tested.right, n));
    if w.size >= VRR_VSET_SIZE {
      hide WantsAsWritten, ShouldAdd;
      WantedIsAdded(me, w.list, e.node);
      if Admits(me, w.list, e.node) {
        assert e.node !in Ids(w.list) by { NotYetMember(me, w.list, e.node); }
        InsertionAsIntended(me, w, e.node, e.bumped);
      }
    }
  }

  lemma NotYetMember(me: u32, ms: seq<Member>, node: u32)
    requires ShouldAdd(me, ms, node)
    ensures node !in Ids(ms)
  {
  }

  lemma InsertionAsIntended(me: u32, w: Written, node: u32, m: Memory)
    requires Built(me, w.list) && VRR_VSET_SIZE <= w.size && |w.list| <= w.size && node !in Ids(w.list)
    ensures var n, all := w.size - |w.list|, [MemberOf(me, node)] + w.list;
            AddAsWritten(me, w, node, m).list == Add(me, w.list, node)
            <==> SameThirds(all, Slots(m.left, n), Slots(m.right, n))
  {
    hide Sort, FirstMatch, FoundAt, DiffLeft, DiffRight, MedianIndex, SameThirds, MemberOf, Ids;
    var n, all := w.size - |w.list|, [MemberOf(me, node)] + w.list;
    NewcomerKeepsWellFormed(me, w.list, node);
    SameThirdsSameEviction(all, Slots(m.left, n), Slots(m.right, n));
    var k, j := FoundAt(all, Slots(m.left, n), Slots(m.right, n)), Intended(all);
    if k != j && k < |all| && j < |all| {
      RemovalsDiffer(me, all, k, j);
    }
  }

  /** For five foreign members that comes to slots that disturb neither median. */
  lemma ForeignSameThirds(me: u32, ms: seq<Member>, left: seq<u32>, right: seq<u32>)
    requires WellFormed(me, ms) && |ms| == VRR_VSET_SIZE + 1
    ensures SameThirds(ms, left, right) <==> Undisturbed(ms, left, right)
  {
    SameThirdsSameEviction(ms, left, right);
    SameMedian(me, ms, left, right);
    hide SameThirds, Undisturbed, FoundAt, MedianIndex;
  }

  lemma SameMedian(me: u32, ms: seq<Member>, left: seq<u32>, right: seq<u32>)
    requires WellFormed(me, ms) && |ms| == VRR_VSET_SIZE + 1
    ensures MedianIndex(ms) < |ms|
    ensures FoundAt(ms, left, right) == if Undisturbed(ms, left, right) then MedianIndex(ms) else |ms|
  {
    EvictionAsWritten(me, ms, left, right);
    MedianIsFound(me, ms);
  }

  /** Once six members are in, the set never shrinks again by eviction, whatever the slots hold. */
  lemma SixMembersOnlyGrow(me: u32, w: Written, node: u32, m: Memory)
    requires WellFormed(me, w.list) && 6 <= |w.list| <= w.size && node != me && node !in Ids(w.list)
    ensures AddAsWritten(me, w, node, m) == Written([MemberOf(me, node)] + w.list, w.size + 1)
  {
    hide Sort, FirstMatch, FoundAt, Built, DiffLeft, DiffRight, Ids;
    var n := w.size - |w.list|;
    NewcomerKeepsWellFormed(me, w.list, node);
    NeverFromSevenOn(me, [MemberOf(me, node)] + w.list, Slots(m.left, n), Slots(m.right, n));
  }

  // ---- Two kinds of memory ----

  ghost predicate Filled(m: Memory, v: u32) {
    forall i: nat :: m.left(i) == v && m.right(i) == v
  }

  /** Wherever the code reads an unfilled slot, it holds v. */
  ghost predicate Holding(es: seq<Event>, v: u32) {
    forall i | 0 <= i < |es| && es[i].Offer? :: Filled(es[i].tested, v) && Filled(es[i].bumped, v)
  }

  function Nodes(es: seq<Event>): (r: seq<u32>)
    ensures |r| == |es| && forall i | 0 <= i < |es| :: r[i] == es[i].node
  {
    seq(|es|, i requires 0 <= i < |es| => es[i].node)
  }

  lemma InsertionIntoZero(me: u32, w: Written, node: u32, m: Memory)
    requires WellFormed(me, w.list) && VRR_VSET_SIZE <= |w.list| < w.size && node != me
    requires node !in Ids(w.list) && Filled(m, 0)
    ensures AddAsWritten(me, w, node, m) == Written([MemberOf(me, node)] + w.list, w.size + 1)
  {
    hide Sort, FirstMatch, FoundAt, Built, DiffLeft, DiffRight, Ids;
    var n := w.size - |w.list|;
    NewcomerKeepsWellFormed(me, w.list, node);
    assert Slots(m.left, n)[0] == 0 && Slots(m.right, n)[0] == 0;
    NeverWithZeroSlots(me, [MemberOf(me, node)] + w.list, Slots(m.left, n), Slots(m.right, n));
  }

  /** Over every run of offers with memory that holds 0: from the sixth insertion on no eviction
      finds anybody, so the set outgrows every bound with its counter. */
  lemma {:induction false} ZeroMemoryNeverEvictsTwice(me: u32, es: seq<Event>)
    requires Foreign(me, es) && OnlyOffers(es) && Holding(es, 0)
    ensures var w := Run(me, es); w.size > VRR_VSET_SIZE ==> |w.list| == w.size - 1
  {
    if es != [] {
      var before, e := es[..|es| - 1], es[|es| - 1];
      ZeroMemoryNeverEvictsTwice(me, before);
      CounterDrifts(me, before);
      CounterDrifts(me, es);
      var w := Run(me, before);
      hide Sort, FirstMatch, FoundAt, Built, DiffLeft, DiffRight, WantsAsWritten;
      if w.size > VRR_VSET_SIZE && e.node !in Ids(w.list) {
        InsertionIntoZero(me, w, e.node, e.bumped);
      }
    }
  }

  /** Each node offered lies nearer on the left than the one before. */
  ghost predicate Approaching(me: u32, es: seq<Event>) {
    forall i, j | 0 <= i < j < |es| :: DiffLeft(me, es[j].node) < DiffLeft(me, es[i].node)
  }

  /** A node nearer on the left than every member is wanted, with at most one slot. */
  lemma NearestIsWanted(me: u32, ms: seq<Member>, node: u32, left: seq<u32>, right: seq<u32>)
    requires WellFormed(me, ms) && |left| == |right| <= 1
    requires forall i | 0 <= i < |ms| :: DiffLeft(me, node) < ms[i].left
    ensures node !in Ids(ms) && WantsAsWritten(me, ms, |ms| + |left|, node, left, right)
  {
    var d := DiffLeft(me, node);
    assert node !in Ids(ms);
    if |ms| + |left| >= VRR_VSET_SIZE {
      NoneBelow(Lefts(ms), d + 1);
      CountBelowConcat(Lefts(ms), left, d + 1);
      assert CountBelow(left, d + 1) <= 1;
      WantedAsWritten(me, ms, |ms| + |left|, node, left, right);
    }
  }

  /** The failing states are reached: offered foreign nodes that come ever nearer on the left, and
      finding 0 in its unfilled slots, the code admits them all and evicts once, at the fifth. */
  lemma {:induction false} SetGrowsWithoutBound(me: u32, es: seq<Event>)
    requires Foreign(me, es) && OnlyOffers(es) && Holding(es, 0) && Approaching(me, es) && UINT_MAX !in Nodes(es)
    ensures var w := Run(me, es);
            && w.size == |es| && (|es| > VRR_VSET_SIZE ==> |w.list| == |es| - 1)
            && forall i | 0 <= i < |w.list| :: DiffLeft(me, es[|es| - 1].node) <= w.list[i].left
  {
    ZeroMemoryNeverEvictsTwice(me, es);
    if es != [] {
      var before, e := es[..|es| - 1], es[|es| - 1];
      SetGrowsWithoutBound(me, before);
      CounterDrifts(me, before);
      ApproachIsAdmitted(me, Run(me, before), e);
    }
  }

  lemma ApproachIsAdmitted(me: u32, w: Written, e: Event)
    requires WellFormed(me, w.list) && |w.list| <= w.size <= |w.list| + 1 && e.Offer? && e.node != UINT_MAX
    requires forall i | 0 <= i < |w.list| :: DiffLeft(me, e.node) < w.list[i].left
    ensures var w' := Step(me, w, e);
            && w'.size == w.size + 1
            && forall i | 0 <= i < |w'.list| :: DiffLeft(me, e.node) <= w'.list[i].left
  {
    var n := w.size - |w.list|;
    NearestIsWanted(me, w.list, e.node, Slots(e.tested.left, n), Slots(e.tested.right, n));
    AddedAreOld(me, w, e.node, e.bumped);
    hide Sort, FirstMatch, FoundAt, DiffLeft, DiffRight, Ids, Built, WantsAsWritten;
    var w' := Step(me, w, e);
    forall i | 0 <= i < |w'.list| ensures DiffLeft(me, e.node) <= w'.list[i].left {
      assert w'.list[i] in w'.list;
    }
  }

  /** Insertion leaves the newcomer and older members only. */
  lemma AddedAreOld(me: u32, w: Written, node: u32, m: Memory)
    requires |w.list| <= w.size
    ensures forall x | x in AddAsWritten(me, w, node, m).list :: x == MemberOf(me, node) || x in w.list
  {
    hide Sort, FirstMatch, FoundAt, DiffLeft, DiffRight, Ids;
  }

  /** Six insertions are enough: the set then has five members, and the rule found nobody. */
  lemma SixInsertionsFail(me: u32) returns (es: seq<Event>)
    ensures |es| == 6 && Foreign(me, es) && OnlyOffers(es) && Holding(es, 0)
    ensures Approaching(me, es) && UINT_MAX !in Nodes(es)
    ensures var w := Run(me, es); w.size == 6 && |w.list| == VRR_VSET_SIZE + 1
  {
    var zero := Memory(_ => 0, _ => 0);
    es := seq(6, i requires 0 <= i < 6 => Offer(if me < 6 then me + 1 + i else me - 6 + i, zero, zero));
    forall i, j | 0 <= i < j < 6 ensures DiffLeft(me, es[j].node) < DiffLeft(me, es[i].node) && es[i].node != me {
    }
    SetGrowsWithoutBound(me, es);
  }

  // ---- A set with room after a removal ----

  /** With a zero slot on the left and ones on the right, four foreign members always lose one. */
  lemma RoomIsLost(me: u32, ms: seq<Member>)
    requires WellFormed(me, ms) && |ms| == VRR_VSET_SIZE
    ensures FoundAt(ms, [0], [UINT_MAX]) < |ms|
  {
    hide Sort, FirstMatch, Built, DiffLeft, DiffRight, CountBelow;
    RightsMirrorLefts(me, ms);
    var l, r := SortedLefts(ms), SortedRights(ms);
    assert multiset(Lefts(ms) + [0]) - multiset{0} == multiset(Lefts(ms));
    LeastFirst(Lefts(ms) + [0], Lefts(ms));
    MoreValues(Rights(ms), [UINT_MAX], RADIUS);
    OnesDoNotDisturb(Rights(ms), [UINT_MAX], r[RADIUS]);
    KthBelow(Rights(ms), RADIUS, r[RADIUS]);
    assert l[1] in Lefts(ms) by {
      SortIsAscendingPermutation(Lefts(ms));
      var i := IndexIn(Lefts(ms), l, 1);
    }
    MatchExists(me, ms, l[1], r[2]);
  }

  lemma RunAppend(me: u32, es: seq<Event>, e: Event)
    ensures Run(me, es + [e]) == Step(me, Run(me, es), e)
  {
    assert (es + [e])[..|es|] == es;
  }

  /** The run: four nodes join, one leaves, and the fifth, though there is room, costs another its
      place. Three members are left, with a counter of five. */
  lemma RemovalThenOfferFails(me: u32) returns (es: seq<Event>)
    ensures |es| == 6 && Foreign(me, es)
    ensures var before := Run(me, es[..5]); var e := es[5];
            && |before.list| == 3 && before.size == VRR_VSET_SIZE && e.Offer? && Admits(me, before.list, e.node)
            && |Joined(me, before.list, e.node)| == 4
            && |Run(me, es).list| == 3 && Run(me, es).size == VRR_VSET_SIZE + 1
  {
    hide Run, Step, Sort, Built, DiffLeft, DiffRight, Joined, Admits;
    var six := SixInsertionsFail(me);
    var four, fifth := six[..4], six[4];
    assert Foreign(me, four) && OnlyOffers(four) && Holding(four, 0) && Approaching(me, four);
    assert fifth.Offer? && fifth.node != me && Nodes(six)[4] == fifth.node;
    SetGrowsWithoutBound(me, four);
    CounterDrifts(me, four);
    var w := Run(me, four);
    var x := w.list[0].node;
    assert Ids(w.list)[0] == x;
    var e := fifth.(bumped := Memory(_ => 0, _ => UINT_MAX));
    es := four + [Leave(x)] + [e];
    assert es[..5] == four + [Leave(x)] && es[5] == e;
    RunAppend(me, four, Leave(x));
    RunAppend(me, four + [Leave(x)], e);
    RoomForOne(me, w, x, e);
  }

  lemma RoomForOne(me: u32, w: Written, x: u32, e: Event)
    requires WellFormed(me, w.list) && |w.list| == w.size == VRR_VSET_SIZE && x in Ids(w.list)
    requires e.Offer? && e.node != me && e.node != UINT_MAX && e.bumped.left(0) == 0 && e.bumped.right(0) == UINT_MAX
    requires forall i | 0 <= i < |w.list| :: DiffLeft(me, e.node) < w.list[i].left
    ensures var before := Step(me, w, Leave(x));
            && |before.list| == 3 && before.size == VRR_VSET_SIZE && Admits(me, before.list, e.node)
            && |Joined(me, before.list, e.node)| == 4
            && |Step(me, before, e).list| == 3 && Step(me, before, e).size == VRR_VSET_SIZE + 1
  {
    hide Sort, FirstMatch, FoundAt, DiffLeft, DiffRight, MemberOf, WantsAsWritten, ShouldAdd;
    var k := IndexOf(w.list, x);
    RemovalKeepsWellFormed(me, w.list, k);
    var before := Step(me, w, Leave(x));
    assert before.list == RemoveAt(w.list, k) && |before.list| == 3;
    assert forall i | 0 <= i < |before.list| :: before.list[i] == w.list[if i < k then i else i + 1];
    hide Without, IndexOf, Built;
    OfferIntoRoom(me, before, e);
  }

  lemma OfferIntoRoom(me: u32, w: Written, e: Event)
    requires WellFormed(me, w.list) && |w.list| == 3 && w.size == VRR_VSET_SIZE
    requires e.Offer? && e.node != me && e.node != UINT_MAX && e.bumped.left(0) == 0 && e.bumped.right(0) == UINT_MAX
    requires forall i | 0 <= i < |w.list| :: DiffLeft(me, e.node) < w.list[i].left
    ensures Admits(me, w.list, e.node) && |Joined(me, w.list, e.node)| == 4
    ensures |Step(me, w, e).list| == 3 && Step(me, w, e).size == VRR_VSET_SIZE + 1
  {
    NearestIsWanted(me, w.list, e.node, Slots(e.tested.left, 1), Slots(e.tested.right, 1));
    assert ShouldAdd(me, w.list, e.node);
    hide Sort, FirstMatch, FoundAt, Built, DiffLeft, DiffRight, MemberOf, WantsAsWritten, ShouldAdd, Ids;
    NewcomerKeepsWellFormed(me, w.list, e.node);
    RoomIsLost(me, [MemberOf(me, e.node)] + w.list);
    assert Slots(e.bumped.left, 1) == [0] && Slots(e.bumped.right, 1) == [UINT_MAX];
  }

  lemma OnesDoNotDisturb(s: seq<u32>, ones: seq<u32>, d: int)
    requires d <= UINT_MAX && forall i | 0 <= i < |ones| :: ones[i] == UINT_MAX
    ensures CountBelow(s + ones, d) == CountBelow(s, d)
  {
    CountBelowConcat(s, ones, d);
    NoneBelow(ones, d);
  }

  lemma OnesWantAsIntended(me: u32, ms: seq<Member>, node: u32, left: seq<u32>, right: seq<u32>)
    requires |left| == |right| && |ms| >= VRR_VSET_SIZE && node != me
    requires forall i | 0 <= i < |left| :: left[i] == right[i] == UINT_MAX
    ensures WantsAsWritten(me, ms, |ms| + |left|, node, left, right) <==> ShouldAdd(me, ms, node)
  {
    assert DiffLeft(me, node) < UINT_MAX && DiffRight(me, node) < UINT_MAX;
    hide Sort, DiffLeft, DiffRight, CountBelow, WantsAsWritten, ShouldAdd;
    OnesDoNotDisturb(Lefts(ms), left, DiffLeft(me, node) + 1);
    OnesDoNotDisturb(Rights(ms), right, DiffRight(me, node) + 1);
    WantedAsWritten(me, ms, |ms| + |left|, node, left, right);
    WantedAsWritten(me, ms, |ms|, node, [], []);
    NoSlots(me, ms, node);
    assert Lefts(ms) + [] == Lefts(ms) && Rights(ms) + [] == Rights(ms);
  }

  lemma OnesLeaveMedians(ms: seq<Member>, left: seq<u32>, right: seq<u32>)
    requires |left| == |right| && |ms| > RADIUS
    requires forall i | 0 <= i < |left| :: left[i] == right[i] == UINT_MAX
    ensures Undisturbed(ms, left, right)
  {
    SortIsAscendingPermutation(Lefts(ms));
    SortIsAscendingPermutation(Rights(ms));
    var l, r := SortedLefts(ms)[RADIUS], SortedRights(ms)[RADIUS];
    hide Sort, CountBelow;
    OnesDoNotDisturb(Lefts(ms), left, l);
    OnesDoNotDisturb(Rights(ms), right, r);
    KthBelow(Lefts(ms), RADIUS, l);
    KthBelow(Rights(ms), RADIUS, r);
  }

  /** Over every run of offers with memory that holds only ones, the list is the intended one. */
  lemma {:induction false} OnesHideTheDrift(me: u32, es: seq<Event>)
    requires Foreign(me, es) && OnlyOffers(es) && Holding(es, UINT_MAX)
    ensures Run(me, es).list == Admitted(me, Nodes(es)) && VirtualSet.Valid(me, Run(me, es).list)
  {
    if es != [] {
      var before, e := es[..|es| - 1], es[|es| - 1];
      OnesHideTheDrift(me, before);
      CounterDrifts(me, before);
      assert Nodes(es)[..|es| - 1] == Nodes(before);
      hide Sort, FirstMatch, FoundAt, DiffLeft, DiffRight, Ids, Built, WantsAsWritten, ShouldAdd;
      OnesStep(me, Run(me, before), e);
    }
  }

  lemma OnesStep(me: u32, w: Written, e: Event)
    requires e.Offer? && e.node != me && VirtualSet.Valid(me, w.list) && Filled(e.tested, UINT_MAX)
    requires Filled(e.bumped, UINT_MAX)
    requires if w.size <= VRR_VSET_SIZE then |w.list| == w.size else |w.list| >= VRR_VSET_SIZE
    ensures Step(me, w, e).list == Joined(me, w.list, e.node) && VirtualSet.Valid(me, Step(me, w, e).list)
  {
    hide Sort, FirstMatch, FoundAt, DiffLeft, DiffRight, Built;
    AdmissionAgreesWithEviction(me, w.list, e.node);
    var n := w.size - |w.list|;
    if |w.list| == VRR_VSET_SIZE {
      hide ShouldAdd, WantsAsWritten;
      OfferAsIntended(me, w, e);
      OnesLeaveMedians([MemberOf(me, e.node)] + w.list, Slots(e.bumped.left, n), Slots(e.bumped.right, n));
      if e.node !in Ids(w.list) {
        NewcomerKeepsWellFormed(me, w.list, e.node);
        ForeignSameThirds(me, [MemberOf(me, e.node)] + w.list, Slots(e.bumped.left, n), Slots(e.bumped.right, n));
      }
      OnesWantAsIntended(me, w.list, e.node, Slots(e.tested.left, n), Slots(e.tested.right, n));
    }
  }
}
