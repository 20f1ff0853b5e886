/** The kernel's sort() on an array of u32, as an ascending permutation. */
module Sorting {
  import opened Types

  ghost predicate Ascending(s: seq<u32>) {
    forall i, j | 0 <= i <= j < |s| :: s[i] <= s[j]
  }

  function Insert(x: u32, s: seq<u32>): seq<u32> {
    if s == [] || x <= s[0] then [x] + s else [s[0]] + Insert(x, s[1..])
  }

  function Sort(s: seq<u32>): seq<u32> {
    if s == [] then [] else Insert(s[0], Sort(s[1..]))
  }

  /** The number of leading elements below x: where Insert puts x. */
  function Rank(x: u32, s: seq<u32>): nat {
    if s == [] || x <= s[0] then 0 else 1 + Rank(x, s[1..])
  }

  /** The elements before position r are below x, the others are not. */
  ghost predicate Splits(x: u32, s: seq<u32>, r: nat) {
    && r <= |s|
    && (forall i | 0 <= i < r :: s[i] < x)
    && (forall i | r <= i < |s| :: x <= s[i])
  }

  lemma {:induction false} RankSplits(x: u32, s: seq<u32>)
    requires Ascending(s)
    ensures Splits(x, s, Rank(x, s))
  {
    if s != [] && x > s[0] {
      RankSplits(x, s[1..]);
      assert s == [s[0]] + s[1..];
    }
  }

  lemma {:induction false} InsertsAtRank(x: u32, s: seq<u32>)
    ensures Rank(x, s) <= |s|
    ensures Insert(x, s) == s[..Rank(x, s)] + [x] + s[Rank(x, s)..]
  {
    if s != [] && x > s[0] {
      InsertsAtRank(x, s[1..]);
      var r := Rank(x, s[1..]);
      assert s[..r + 1] == [s[0]] + s[1..][..r];
      assert s[r + 1..] == s[1..][r..];
    }
  }

  lemma InsertSplits(x: u32, s: seq<u32>)
    requires Ascending(s)
    ensures Splits(x, s, Rank(x, s))
    ensures Insert(x, s) == s[..Rank(x, s)] + [x] + s[Rank(x, s)..]
    ensures Ascending(Insert(x, s))
  {
    RankSplits(x, s);
    InsertsAtRank(x, s);
  }

  lemma {:induction false} InsertAddsOne(x: u32, s: seq<u32>)
    ensures multiset(Insert(x, s)) == multiset{x} + multiset(s)
  {
    if s != [] && x > s[0] {
      InsertAddsOne(x, s[1..]);
      assert s == [s[0]] + s[1..];
    }
  }

  lemma {:induction false} SortIsAscendingPermutation(s: seq<u32>)
    ensures Ascending(Sort(s))
    ensures multiset(Sort(s)) == multiset(s)
    ensures |Sort(s)| == |s|
  {
    if s != [] {
      SortIsAscendingPermutation(s[1..]);
      InsertSplits(s[0], Sort(s[1..]));
      assert multiset(Sort(s)) == multiset(s) by {
        InsertAddsOne(s[0], Sort(s[1..]));
        assert s == [s[0]] + s[1..];
      }
    }
  }

  lemma HeadIsLeast(a: seq<u32>, v: u32)
    requires Ascending(a) && v in a
    ensures a[0] <= v
  {
  }

  lemma DropHead(a: seq<u32>)
    requires a != []
    ensures multiset(a[1..]) == multiset(a) - multiset{a[0]}
    ensures Ascending(a) ==> Ascending(a[1..])
  {
    assert a == [a[0]] + a[1..];
  }

  lemma SameHead(a: seq<u32>, b: seq<u32>)
    requires Ascending(a) && Ascending(b) && multiset(a) == multiset(b) && a != []
    ensures b != [] && a[0] == b[0]
  {
    assert a[0] in multiset(b) && a[0] in b;
    HeadIsLeast(b, a[0]);
    assert b[0] in multiset(a);
    HeadIsLeast(a, b[0]);
  }

  /** There is only one ascending arrangement of a multiset of values. */
  lemma {:induction false} AscendingIsUnique(a: seq<u32>, b: seq<u32>)
    requires Ascending(a) && Ascending(b)
    requires multiset(a) == multiset(b)
    ensures a == b
  {
    if a == [] {
      if b != [] {
        SameHead(b, a);
      }
    } else {
      SameHead(a, b);
      DropHead(a);
      DropHead(b);
      AscendingIsUnique(a[1..], b[1..]);
      assert a == [a[0]] + a[1..] && b == [b[0]] + b[1..];
    }
  }

  /** Complement of every value, in reverse order. */
  function Mirror(s: seq<u32>): (r: seq<u32>)
    ensures |r| == |s|
    ensures forall i | 0 <= i < |s| :: r[i] == UINT_MAX - s[|s| - 1 - i]
  {
    seq(|s|, i requires 0 <= i < |s| => UINT_MAX - s[|s| - 1 - i])
  }

  lemma CountCons(s: seq<u32>, v: u32)
    requires s != []
    ensures multiset(s)[v] == multiset(s[1..])[v] + if s[0] == v then 1 else 0
  {
    assert s == [s[0]] + s[1..];
  }

  lemma {:induction false} MirrorCounts(s: seq<u32>, v: u32)
    ensures multiset(Mirror(s))[v] == multiset(s)[UINT_MAX - v]
  {
    if s != [] {
      MirrorCounts(s[1..], v);
      assert Mirror(s) == Mirror(s[1..]) + [UINT_MAX - s[0]];
      CountCons(s, UINT_MAX - v);
    }
  }

  lemma {:induction false} ComplementCounts(a: seq<u32>, b: seq<u32>, v: u32)
    requires |a| == |b| && forall i | 0 <= i < |a| :: b[i] == UINT_MAX - a[i]
    ensures multiset(b)[v] == multiset(a)[UINT_MAX - v]
  {
    if a != [] {
      ComplementCounts(a[1..], b[1..], v);
      CountCons(a, UINT_MAX - v);
      CountCons(b, v);
    }
  }

  /** Sorting complementary values gives the mirror image: one order is the reverse of the other. */
  lemma SortOfComplement(a: seq<u32>, b: seq<u32>)
    requires |a| == |b| && forall i | 0 <= i < |a| :: b[i] == UINT_MAX - a[i]
    ensures Sort(b) == Mirror(Sort(a))
  {
    SortIsAscendingPermutation(a);
    SortIsAscendingPermutation(b);
    forall v: u32 ensures multiset(Mirror(Sort(a)))[v] == multiset(Sort(b))[v] {
      MirrorCounts(Sort(a), v);
      ComplementCounts(a, b, v);
    }
    AscendingIsUnique(Sort(b), Mirror(Sort(a)));
  }

  // ---- Order statistics by counting ----

  function CountBelow(s: seq<u32>, d: int): nat {
    if s == [] then 0 else (if s[0] < d then 1 else 0) + CountBelow(s[1..], d)
  }

  lemma {:induction false} CountBelowConcat(a: seq<u32>, b: seq<u32>, d: int)
    ensures CountBelow(a + b, d) == CountBelow(a, d) + CountBelow(b, d)
  {
    if a == [] {
      assert a + b == b;
    } else {
      assert (a + b)[1..] == a[1..] + b;
      CountBelowConcat(a[1..], b, d);
    }
  }

  lemma {:induction false} InsertCountsBelow(x: u32, s: seq<u32>, d: int)
    ensures CountBelow(Insert(x, s), d) == CountBelow(s, d) + if x < d then 1 else 0
  {
    if s == [] || x <= s[0] {
      assert ([x] + s)[1..] == s;
    } else {
      InsertCountsBelow(x, s[1..], d);
      assert Insert(x, s)[1..] == Insert(x, s[1..]);
    }
  }

  lemma {:induction false} SortCountsBelow(s: seq<u32>, d: int)
    ensures CountBelow(Sort(s), d) == CountBelow(s, d)
  {
    if s != [] {
      SortCountsBelow(s[1..], d);
      InsertCountsBelow(s[0], Sort(s[1..]), d);
    }
  }

  lemma {:induction false} AscendingBelow(t: seq<u32>, k: nat, d: int)
    requires Ascending(t) && k < |t|
    ensures t[k] < d <==> CountBelow(t, d) > k
  {
    if k > 0 {
      AscendingBelow(t[1..], k - 1, d);
    } else if |t| > 1 {
      AscendingBelow(t[1..], 0, d);
    }
  }

  /** The k-th smallest value is below d exactly when more than k values are. */
  lemma KthBelow(s: seq<u32>, k: nat, d: int)
    requires k < |s|
    ensures |Sort(s)| == |s| && (Sort(s)[k] < d <==> CountBelow(s, d) > k)
  {
    SortIsAscendingPermutation(s);
    AscendingBelow(Sort(s), k, d);
    SortCountsBelow(s, d);
  }

  lemma {:induction false} NoneBelow(s: seq<u32>, d: int)
    requires forall i | 0 <= i < |s| :: s[i] >= d
    ensures CountBelow(s, d) == 0
  {
    if s != [] {
      NoneBelow(s[1..], d);
    }
  }

  lemma ZeroAscends(t: seq<u32>)
    requires Ascending(t)
    ensures Ascending([0] + t)
  {
  }

  /** A zero sorts to the front. */
  lemma LeastFirst(s: seq<u32>, rest: seq<u32>)
    requires 0 in s && multiset(rest) == multiset(s) - multiset{0}
    ensures |rest| == |s| - 1 && Sort(s) == [0] + Sort(rest)
  {
    SortIsAscendingPermutation(s);
    SortIsAscendingPermutation(rest);
    hide Sort;
    assert |multiset(s)| == |s| && |multiset(rest)| == |rest|;
    var zero: seq<u32> := [0];
    ZeroAscends(Sort(rest));
    assert multiset(zero + Sort(rest)) == multiset(s);
    AscendingIsUnique(Sort(s), zero + Sort(rest));
  }

  /** v is the third-smallest of the values, counted with ties. */
  predicate Third(s: seq<u32>, v: u32) {
    CountBelow(s, v) <= 2 < CountBelow(s, v + 1)
  }

  lemma ThirdIsSorted(s: seq<u32>, v: u32)
    requires |s| > 2
    ensures |Sort(s)| == |s| && (Third(s, v) <==> Sort(s)[2] == v)
  {
    KthBelow(s, 2, v);
    KthBelow(s, 2, v + 1);
  }

  /** Fewer than two of the values are at most d. */
  predicate Nearest(s: seq<u32>, d: u32) {
    CountBelow(s, d + 1) < 2
  }

  /** One of the first two sorted values is above d exactly when fewer than two are at most d. */
  lemma SomeAbove(s: seq<u32>, d: u32)
    requires |s| >= 2
    ensures |Sort(s)| == |s| && ((Sort(s)[0] > d || Sort(s)[1] > d) <==> Nearest(s, d))
  {
    SortIsAscendingPermutation(s);
    assert Sort(s)[0] <= Sort(s)[1];
    hide Sort;
    KthBelow(s, 1, d + 1);
  }

  lemma CountWithoutOne(s: seq<u32>, k: nat, d: int)
    requires k < |s|
    ensures CountBelow(s, d) == CountBelow(s[..k] + s[k + 1..], d) + if s[k] < d then 1 else 0
  {
    assert s == s[..k] + ([s[k]] + s[k + 1..]);
    CountBelowConcat(s[..k], [s[k]] + s[k + 1..], d);
    CountBelowConcat(s[..k], s[k + 1..], d);
    assert ([s[k]] + s[k + 1..])[1..] == s[k + 1..];
  }

  /** Taking out the third-smallest value keeps at least two values at most d, if there were two
      or if it is itself at most d. */
  lemma DropThird(s: seq<u32>, k: nat, d: u32)
    requires k < |s| && Third(s, s[k])
    ensures s[k] <= d || !Nearest(s, d) ==> !Nearest(s[..k] + s[k + 1..], d)
  {
    var v: int := s[k];
    CountWithoutOne(s, k, d + 1);
    MoreBelow(s, v + 1, d + 1);
  }

  lemma {:induction false} MoreBelow(s: seq<u32>, c: int, d: int)
    ensures c <= d ==> CountBelow(s, c) <= CountBelow(s, d)
  {
    if s != [] {
      MoreBelow(s[1..], c, d);
    }
  }

  /** The call sort(a, n, sizeof(u32), cmp, NULL) in place. */
  method SortInPlace(a: array<u32>)
    modifies a
    ensures a[..] == Sort(old(a[..]))
  {
    SortIsAscendingPermutation(a[..]);
    var s := Sort(a[..]);
    for i := 0 to a.Length
      invariant a[..i] == s[..i]
    {
      a[i] := s[i];
    }
  }
}
