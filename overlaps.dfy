/**
 * `find_cleaning_overlaps`: the cleaning windows that reach into the range are
 * put in an interval tree; for every interval the intervals overlapping it are
 * collected, and when there are at least two of them the group
 * `(sorted ids, latest begin, earliest end)` is recorded in a set.
 */
module Overlaps {
  import opened Wrappers
  import opened Domain
  import opened Sorting

  /** An entry of the interval tree, `tree[begin:end] = id`. */
  datatype Interval = Interval(begin: Time, end: Time, id: BookingId)

  /** One recorded overlap, the tuple `(tuple(booking_ids), overlap_start, overlap_end)`. */
  datatype OverlapGroup = OverlapGroup(ids: seq<BookingId>, start: Time, end: Time)

  /** The interval tree's `overlaps` test on half-open intervals; for non-empty ones, they share an instant. */
  predicate Overlaps(a: Interval, b: Interval): (r: bool)
    ensures a.begin < a.end && b.begin < b.end ==>
      (r <==> var t := if a.begin <= b.begin then b.begin else a.begin;
              a.begin <= t < a.end && b.begin <= t < b.end)
  {
    a.begin < b.end && b.begin < a.end
  }

  /** An open window end stands for `datetime.max`. */
  function EffectiveEnd(w: Window): (t: Time)
    ensures w.end.None? ==> t == MaxTime
    ensures WindowWellFormed(w) && w.start < MaxTime ==> w.start < t
  {
    if w.end.Some? then w.end.value else MaxTime
  }

  /**
   * The query `window_start <= hi AND window_end >= lo`. The comparison is SQL,
   * so a NULL `window_end` never satisfies it.
   */
  predicate InRange(w: Window, lo: Time, hi: Time): (r: bool)
    ensures w.end.None? ==> !r
    ensures r ==> w.start <= hi && lo <= EffectiveEnd(w)
  {
    w.start <= hi && w.end.Some? && w.end.value >= lo
  }

  function ToInterval(id: BookingId, w: Window): Interval
  {
    Interval(w.start, EffectiveEnd(w), id)
  }

  /** The intervals of the rows with ids in `ids` that pass the range query. */
  function TreeIntervalsOf(table: Table, ids: set<BookingId>, lo: Time, hi: Time): set<Interval>
  {
    set id | id in ids && id in table && InRange(table[id].window, lo, hi) :: ToInterval(id, table[id].window)
  }

  /** The contents of the interval tree built from the table. */
  function TreeIntervals(table: Table, lo: Time, hi: Time): set<Interval>
  {
    TreeIntervalsOf(table, table.Keys, lo, hi)
  }

  predicate DistinctIds(tree: seq<Interval>)
  {
    forall i, j :: 0 <= i < j < |tree| ==> tree[i].id != tree[j].id
  }

  /** The interval tree refuses empty intervals, so every entry begins before it ends. */
  predicate NonEmptyIntervals(tree: seq<Interval>)
  {
    forall i :: 0 <= i < |tree| ==> tree[i].begin < tree[i].end
  }

  /** Populating the tree: one interval per row that passes the range query, the rows taken in any order. */
  method BuildIntervalTree(table: Table, lo: Time, hi: Time) returns (tree: seq<Interval>)
    requires WindowsWellFormed(table)
    ensures forall I :: I in tree <==> I in TreeIntervals(table, lo, hi)
    ensures DistinctIds(tree) && NonEmptyIntervals(tree)
  {
    tree := [];
    var pending: set<BookingId> := table.Keys;
    while pending != {}
      invariant pending <= table.Keys
      invariant forall I :: I in tree <==> I in TreeIntervalsOf(table, table.Keys - pending, lo, hi)
      invariant forall i :: 0 <= i < |tree| ==> tree[i].id in table && tree[i].id !in pending
      invariant DistinctIds(tree) && NonEmptyIntervals(tree)
      decreases |pending|
    {
      EmptyOrMember(pending);
      var id :| id in pending;
      var window := table[id].window;
      if InRange(window, lo, hi) {
        tree := tree + [ToInterval(id, window)];
      }
      pending := pending - {id};
    }
  }

  /** `[i for i in tree if i.overlaps(interval)]`, in tree order. */
  function OverlappingIn(tree: seq<Interval>, I: Interval): (r: seq<Interval>)
    ensures |r| <= |tree|
    ensures forall k :: 0 <= k < |r| ==> Overlaps(r[k], I)
  {
    if tree == [] then []
    else (if Overlaps(tree[0], I) then [tree[0]] else []) + OverlappingIn(tree[1..], I)
  }

  lemma {:induction false} OverlappingMembership(tree: seq<Interval>, I: Interval)
    ensures forall J :: J in OverlappingIn(tree, I) <==> J in tree && Overlaps(J, I)
  {
    if tree != [] {
      OverlappingMembership(tree[1..], I);
      assert forall J :: J in tree <==> J == tree[0] || J in tree[1..];
    }
  }

  lemma {:induction false} OverlappingKeepsDistinctIds(tree: seq<Interval>, I: Interval)
    requires DistinctIds(tree)
    ensures DistinctIds(OverlappingIn(tree, I))
  {
    if tree != [] {
      var tail := tree[1..];
      OverlappingKeepsDistinctIds(tail, I);
      OverlappingMembership(tail, I);
      var rest := OverlappingIn(tail, I);
      forall k | 0 <= k < |rest| ensures rest[k].id != tree[0].id {
        assert rest[k] in tail;
        var m :| 0 <= m < |tail| && tail[m] == rest[k];
        assert tree[m + 1] == rest[k];
      }
      if Overlaps(tree[0], I) {
        var r := OverlappingIn(tree, I);
        assert r == [tree[0]] + rest;
        forall i, j | 0 <= i < j < |r| ensures r[i].id != r[j].id {
          assert r[j] == rest[j - 1];
          if i > 0 {
            assert r[i] == rest[i - 1];
          }
        }
      }
    }
  }

  /** `overlap.data for overlap in overlapping_intervals`. */
  function IdsOfIntervals(s: seq<Interval>): seq<BookingId>
  {
    seq(|s|, k requires 0 <= k < |s| => s[k].id)
  }

  /** `max(overlap.begin for ...)`. */
  function MaxBegin(s: seq<Interval>): (r: Time)
    requires |s| > 0
    ensures forall k :: 0 <= k < |s| ==> s[k].begin <= r
    ensures exists k :: 0 <= k < |s| && s[k].begin == r
  {
    if |s| == 1 then s[0].begin
    else
      var rest := MaxBegin(s[1..]);
      assert forall k :: 0 < k < |s| ==> s[k] == s[1..][k - 1];
      if s[0].begin >= rest then s[0].begin else rest
  }

  /** `min(overlap.end for ...)`. */
  function MinEnd(s: seq<Interval>): (r: Time)
    requires |s| > 0
    ensures forall k :: 0 <= k < |s| ==> r <= s[k].end
    ensures exists k :: 0 <= k < |s| && s[k].end == r
  {
    if |s| == 1 then s[0].end
    else
      var rest := MinEnd(s[1..]);
      assert forall k :: 0 < k < |s| ==> s[k] == s[1..][k - 1];
      if s[0].end <= rest then s[0].end else rest
  }

  /** The tuple recorded for a list of overlapping intervals. */
  function GroupFrom(overlapping: seq<Interval>): (g: OverlapGroup)
    requires |overlapping| > 0
    ensures |g.ids| == |overlapping|
    ensures forall k :: 0 <= k < |overlapping| ==> overlapping[k].begin <= g.start && g.end <= overlapping[k].end
  {
    var ids := SortIds(IdsOfIntervals(overlapping));
    assert |multiset(ids)| == |multiset(IdsOfIntervals(overlapping))|;
    OverlapGroup(ids, MaxBegin(overlapping), MinEnd(overlapping))
  }

  /** The tuple recorded for interval `I` of the tree. */
  function GroupOf(tree: seq<Interval>, I: Interval): (g: OverlapGroup)
    requires |OverlappingIn(tree, I)| > 1
    ensures |g.ids| >= 2
  {
    GroupFrom(OverlappingIn(tree, I))
  }

  /** The groups recorded while looking at the intervals of `seen`. */
  function GroupsAmong(tree: seq<Interval>, seen: seq<Interval>): set<OverlapGroup>
  {
    set I | I in seen && |OverlappingIn(tree, I)| > 1 :: GroupOf(tree, I)
  }

  /** The set `overlaps` after the loop over the whole tree. */
  function Groups(tree: seq<Interval>): set<OverlapGroup>
  {
    GroupsAmong(tree, tree)
  }

  /** Looking at one more interval adds its group, if it has one. */
  lemma GroupsAmongStep(tree: seq<Interval>, k: nat)
    requires k < |tree|
    ensures GroupsAmong(tree, tree[..k + 1])
      == GroupsAmong(tree, tree[..k]) + (if |OverlappingIn(tree, tree[k])| > 1 then {GroupOf(tree, tree[k])} else {})
  {
    assert tree[..k + 1] == tree[..k] + [tree[k]];
    assert forall J :: J in tree[..k + 1] <==> J in tree[..k] || J == tree[k];
  }

  /** The loop over the tree that fills the `overlaps` set. */
  method CollectOverlaps(tree: seq<Interval>) returns (groups: set<OverlapGroup>)
    ensures groups == Groups(tree)
  {
    groups := {};
    for k := 0 to |tree|
      invariant groups == GroupsAmong(tree, tree[..k])
    {
      var interval := tree[k];
      GroupsAmongStep(tree, k);
      var overlapping := OverlappingIn(tree, interval);
      if |overlapping| > 1 {
        groups := groups + {GroupOf(tree, interval)};
      }
    }
    assert tree[..|tree|] == tree;
  }

  /** `list(overlaps)`: the elements of the set, each once, in some order. */
  method ListOf(groups: set<OverlapGroup>) returns (list: seq<OverlapGroup>)
    ensures forall g :: g in list <==> g in groups
    ensures forall i, j :: 0 <= i < j < |list| ==> list[i] != list[j]
  {
    list := [];
    var pending := groups;
    while pending != {}
      invariant pending <= groups
      invariant forall g :: g in list <==> g in groups - pending
      invariant forall i, j :: 0 <= i < j < |list| ==> list[i] != list[j]
      decreases |pending|
    {
      var g :| g in pending;
      assert g !in list;
      forall i, j | 0 <= i < j < |list| + 1 ensures (list + [g])[i] != (list + [g])[j] {
        if j == |list| { assert (list + [g])[i] in list; }
      }
      list := list + [g];
      pending := pending - {g};
    }
  }

  /** Some listing of a set of intervals, each once; it stands for the tree's own iteration order. */
  ghost function Enumerate(s: set<Interval>): (r: seq<Interval>)
    ensures forall I :: I in r <==> I in s
    ensures forall i, j :: 0 <= i < j < |r| ==> r[i] != r[j]
  {
    if s == {} then []
    else
      var x :| x in s;
      [x] + Enumerate(s - {x})
  }

  /** One fixed listing of the tree built from the table; any other listing records the same groups. */
  ghost function CanonicalTree(table: Table, lo: Time, hi: Time): seq<Interval>
  {
    Enumerate(TreeIntervals(table, lo, hi))
  }

  /** The groups `find_cleaning_overlaps` returns for the table and the range, as a set. */
  ghost function DetectedGroups(table: Table, lo: Time, hi: Time): set<OverlapGroup>
  {
    Groups(CanonicalTree(table, lo, hi))
  }

  /** The tree holds at most one interval per booking id. */
  lemma TreeIdsAreKeys(table: Table, lo: Time, hi: Time, tree: seq<Interval>)
    requires forall I :: I in tree <==> I in TreeIntervals(table, lo, hi)
    requires forall i, j :: 0 <= i < j < |tree| ==> tree[i] != tree[j]
    ensures DistinctIds(tree)
    ensures forall i :: 0 <= i < |tree| ==> tree[i].id in table && tree[i] == ToInterval(tree[i].id, table[tree[i].id].window)
  {
    forall i | 0 <= i < |tree|
      ensures tree[i].id in table && tree[i] == ToInterval(tree[i].id, table[tree[i].id].window)
    {
      assert tree[i] in TreeIntervals(table, lo, hi);
    }
  }

  /** Two duplicate-free lists of the same intervals agree on whether they hold more than one. */
  lemma MoreThanOneAgrees(s1: seq<Interval>, s2: seq<Interval>)
    requires DistinctIds(s1) && DistinctIds(s2)
    requires forall J :: J in s1 <==> J in s2
    ensures |s1| > 1 <==> |s2| > 1
  {
    if |s1| > 1 {
      assert s1[0] in s2 && s1[1] in s2 && s1[0] != s1[1];
    }
    if |s2| > 1 {
      assert s2[0] in s1 && s2[1] in s1 && s2[0] != s2[1];
    }
  }

  /** The ids of a list of intervals are the ids of its members. */
  lemma IdsOfIntervalsMembership(s: seq<Interval>)
    ensures forall x :: x in SortIds(IdsOfIntervals(s)) <==> exists J :: J in s && J.id == x
    ensures DistinctIds(s) ==> StrictlySorted(SortIds(IdsOfIntervals(s)))
    ensures |SortIds(IdsOfIntervals(s))| == |s|
  {
    var ids := IdsOfIntervals(s);
    var sorted := SortIds(ids);
    assert |multiset(sorted)| == |multiset(ids)|;
    forall x ensures x in sorted <==> exists J :: J in s && J.id == x {
      assert x in sorted <==> x in multiset(ids);
      if x in ids {
        var k :| 0 <= k < |ids| && ids[k] == x;
        assert s[k] in s;
      }
      if exists J :: J in s && J.id == x {
        var J :| J in s && J.id == x;
        var k :| 0 <= k < |s| && s[k] == J;
        assert ids[k] == x;
      }
    }
  }

  /** The latest begin of a list of intervals depends only on its members. */
  lemma SameElementsSameMaxBegin(s1: seq<Interval>, s2: seq<Interval>)
    requires |s1| > 0 && |s2| > 0
    requires forall J :: J in s1 <==> J in s2
    ensures MaxBegin(s1) == MaxBegin(s2)
  {
    var b1, b2 := MaxBegin(s1), MaxBegin(s2);
    var i1 :| 0 <= i1 < |s1| && s1[i1].begin == b1;
    var i2 :| 0 <= i2 < |s2| && s2[i2].begin == b2;
    assert s1[i1] in s2 && s2[i2] in s1;
  }

  /** The earliest end of a list of intervals depends only on its members. */
  lemma SameElementsSameMinEnd(s1: seq<Interval>, s2: seq<Interval>)
    requires |s1| > 0 && |s2| > 0
    requires forall J :: J in s1 <==> J in s2
    ensures MinEnd(s1) == MinEnd(s2)
  {
    var e1, e2 := MinEnd(s1), MinEnd(s2);
    var j1 :| 0 <= j1 < |s1| && s1[j1].end == e1;
    var j2 :| 0 <= j2 < |s2| && s2[j2].end == e2;
    assert s1[j1] in s2 && s2[j2] in s1;
  }

  /** The recorded tuple depends only on which intervals overlap, not on their order. */
  lemma SameElementsSameGroup(s1: seq<Interval>, s2: seq<Interval>)
    requires |s1| > 0 && |s2| > 0
    requires DistinctIds(s1) && DistinctIds(s2)
    requires forall J :: J in s1 <==> J in s2
    ensures GroupFrom(s1) == GroupFrom(s2)
  {
    IdsOfIntervalsMembership(s1);
    IdsOfIntervalsMembership(s2);
    StrictlySortedUnique(SortIds(IdsOfIntervals(s1)), SortIds(IdsOfIntervals(s2)));
    SameElementsSameMaxBegin(s1, s2);
    SameElementsSameMinEnd(s1, s2);
  }

  /** Iterating the tree in another order records the same set of groups. */
  lemma GroupsSameElements(t1: seq<Interval>, t2: seq<Interval>)
    requires DistinctIds(t1) && DistinctIds(t2)
    requires forall I :: I in t1 <==> I in t2
    ensures Groups(t1) == Groups(t2)
  {
    forall I | I in t1
      ensures |OverlappingIn(t1, I)| > 1 <==> |OverlappingIn(t2, I)| > 1
      ensures |OverlappingIn(t1, I)| > 1 ==> GroupOf(t1, I) == GroupOf(t2, I)
    {
      OverlappingMembership(t1, I);
      OverlappingMembership(t2, I);
      OverlappingKeepsDistinctIds(t1, I);
      OverlappingKeepsDistinctIds(t2, I);
      MoreThanOneAgrees(OverlappingIn(t1, I), OverlappingIn(t2, I));
      if |OverlappingIn(t1, I)| > 1 {
        SameElementsSameGroup(OverlappingIn(t1, I), OverlappingIn(t2, I));
      }
    }
  }

  /** `find_cleaning_overlaps`: the detected groups as a list without repetitions. */
  method FindCleaningOverlaps(table: Table, lo: Time, hi: Time) returns (overlaps: seq<OverlapGroup>)
    requires WindowsWellFormed(table)
    ensures forall g :: g in overlaps <==> g in DetectedGroups(table, lo, hi)
    ensures forall i, j :: 0 <= i < j < |overlaps| ==> overlaps[i] != overlaps[j]
  {
    var tree := BuildIntervalTree(table, lo, hi);
    var groups := CollectOverlaps(tree);
    var canonical := CanonicalTree(table, lo, hi);
    TreeIdsAreKeys(table, lo, hi, canonical);
    GroupsSameElements(tree, canonical);
    overlaps := ListOf(groups);
  }

  /** A list with two different members has more than one element. */
  lemma TwoMembers(s: seq<Interval>, I: Interval, J: Interval)
    requires I in s && J in s && I != J
    ensures |s| > 1
  {
  }

  /** The ids of the group found from `I` are those of the intervals overlapping `I`. */
  lemma GroupIds(tree: seq<Interval>, I: Interval)
    requires |OverlappingIn(tree, I)| > 1
    ensures forall x :: x in GroupOf(tree, I).ids <==> exists J :: J in tree && Overlaps(J, I) && J.id == x
  {
    OverlappingMembership(tree, I);
    IdsOfIntervalsMembership(OverlappingIn(tree, I));
  }

  /** The start of the group found from `I` is the latest begin among the intervals overlapping `I`. */
  lemma GroupStart(tree: seq<Interval>, I: Interval)
    requires |OverlappingIn(tree, I)| > 1
    ensures forall J :: J in tree && Overlaps(J, I) ==> J.begin <= GroupOf(tree, I).start
    ensures exists J :: J in tree && Overlaps(J, I) && J.begin == GroupOf(tree, I).start
  {
    var overlapping := OverlappingIn(tree, I);
    OverlappingMembership(tree, I);
    var b :| 0 <= b < |overlapping| && overlapping[b].begin == GroupOf(tree, I).start;
    assert overlapping[b] in overlapping;
    forall J | J in tree && Overlaps(J, I) ensures J.begin <= GroupOf(tree, I).start {
      var k :| 0 <= k < |overlapping| && overlapping[k] == J;
    }
  }

  /** The end of the group found from `I` is the earliest end among the intervals overlapping `I`. */
  lemma GroupEnd(tree: seq<Interval>, I: Interval)
    requires |OverlappingIn(tree, I)| > 1
    ensures forall J :: J in tree && Overlaps(J, I) ==> GroupOf(tree, I).end <= J.end
    ensures exists J :: J in tree && Overlaps(J, I) && J.end == GroupOf(tree, I).end
  {
    var overlapping := OverlappingIn(tree, I);
    OverlappingMembership(tree, I);
    var e :| 0 <= e < |overlapping| && overlapping[e].end == GroupOf(tree, I).end;
    assert overlapping[e] in overlapping;
    forall J | J in tree && Overlaps(J, I) ensures GroupOf(tree, I).end <= J.end {
      var k :| 0 <= k < |overlapping| && overlapping[k] == J;
    }
  }

  /**
   * The tuple found from interval `I`: its ids are those of the intervals
   * overlapping `I` (which include `I`), its start the latest of their begins
   * and its end the earliest of their ends. Hence the start lies in
   * `[I.begin, I.end)` and the end in `(I.begin, I.end]`.
   */
  lemma GroupBounds(tree: seq<Interval>, I: Interval)
    requires I in tree && NonEmptyIntervals(tree)
    requires |OverlappingIn(tree, I)| > 1
    ensures forall x :: x in GroupOf(tree, I).ids <==> exists J :: J in tree && Overlaps(J, I) && J.id == x
    ensures forall J :: J in tree && Overlaps(J, I) ==> J.begin <= GroupOf(tree, I).start && GroupOf(tree, I).end <= J.end
    ensures exists J :: J in tree && Overlaps(J, I) && J.begin == GroupOf(tree, I).start
    ensures exists J :: J in tree && Overlaps(J, I) && J.end == GroupOf(tree, I).end
    ensures I.begin <= GroupOf(tree, I).start < I.end
    ensures I.begin < GroupOf(tree, I).end <= I.end
  {
    GroupIds(tree, I);
    GroupStart(tree, I);
    GroupEnd(tree, I);
    var i :| 0 <= i < |tree| && tree[i] == I;
    assert Overlaps(I, I);
  }

  /** Every recorded group names at least two bookings, in increasing order. */
  lemma GroupsWellFormed(tree: seq<Interval>)
    requires DistinctIds(tree)
    ensures forall g :: g in Groups(tree) ==> |g.ids| >= 2 && StrictlySorted(g.ids)
  {
    forall g | g in Groups(tree) ensures |g.ids| >= 2 && StrictlySorted(g.ids) {
      var I :| I in tree && |OverlappingIn(tree, I)| > 1 && g == GroupOf(tree, I);
      OverlappingKeepsDistinctIds(tree, I);
      IdsOfIntervalsMembership(OverlappingIn(tree, I));
    }
  }

  /** Two different intervals of the tree that overlap are reported together, in the group of either. */
  lemma OverlapIsDetected(tree: seq<Interval>, I: Interval, J: Interval)
    requires I in tree && J in tree && I != J && Overlaps(I, J)
    requires NonEmptyIntervals(tree)
    ensures |OverlappingIn(tree, I)| > 1 && GroupOf(tree, I) in Groups(tree)
    ensures I.id in GroupOf(tree, I).ids && J.id in GroupOf(tree, I).ids
  {
    OverlappingMembership(tree, I);
    var i :| 0 <= i < |tree| && tree[i] == I;
    TwoMembers(OverlappingIn(tree, I), I, J);
    GroupBounds(tree, I);
  }

  /** A group naming the booking of `K` was found from an interval overlapping `K`, so it starts no earlier than `K` begins. */
  lemma MemberOfGroup(tree: seq<Interval>, g: OverlapGroup, K: Interval)
    requires K in tree && NonEmptyIntervals(tree) && DistinctIds(tree)
    requires g in Groups(tree) && K.id in g.ids
    ensures K.begin <= g.start
    ensures |OverlappingIn(tree, K)| > 1
  {
    var I :| I in tree && |OverlappingIn(tree, I)| > 1 && g == GroupOf(tree, I);
    GroupBounds(tree, I);
    var J :| J in tree && Overlaps(J, I) && J.id == K.id;
    var j :| 0 <= j < |tree| && tree[j] == J;
    var k :| 0 <= k < |tree| && tree[k] == K;
    assert J == K;
    if I != K {
      OverlapIsDetected(tree, K, I);
    } else {
      assert |OverlappingIn(tree, K)| > 1;
    }
  }

  /**
   * For the interval `K` of a booking that some group names: every group naming
   * it starts no earlier than `K` begins, and one of them (the group found from
   * `K` itself) starts before `K` ends.
   */
  lemma GroupStartsOfMember(tree: seq<Interval>, K: Interval)
    requires K in tree && NonEmptyIntervals(tree) && DistinctIds(tree)
    requires exists g :: g in Groups(tree) && K.id in g.ids
    ensures forall g :: g in Groups(tree) && K.id in g.ids ==> K.begin <= g.start
    ensures |OverlappingIn(tree, K)| > 1 && GroupOf(tree, K) in Groups(tree)
    ensures K.id in GroupOf(tree, K).ids && GroupOf(tree, K).start < K.end
  {
    forall g | g in Groups(tree) && K.id in g.ids ensures K.begin <= g.start {
      MemberOfGroup(tree, g, K);
    }
    var g0 :| g0 in Groups(tree) && K.id in g0.ids;
    MemberOfGroup(tree, g0, K);
    GroupBounds(tree, K);
    OverlappingMembership(tree, K);
  }

  /** Three windows in a chain: each overlaps its neighbours, the outer two do not overlap. */
  function Chain(): seq<Interval>
  {
    [Interval(0, 10, 1), Interval(5, 20, 2), Interval(15, 30, 3)]
  }

  lemma ChainOverlapsMiddle()
    ensures OverlappingIn(Chain(), Chain()[1]) == Chain()
  {
    var tree, middle := Chain(), Chain()[1];
    assert OverlappingIn(tree[2..], middle) == [tree[2]] by {
      assert tree[2..][1..] == [];
    }
    assert OverlappingIn(tree[1..], middle) == tree[1..] by {
      assert tree[1..][1..] == tree[2..];
    }
  }

  lemma ChainIds()
    ensures SortIds(IdsOfIntervals(Chain())) == [1, 2, 3]
  {
    var ids := IdsOfIntervals(Chain());
    assert ids == [1, 2, 3];
    SortIdsKeepsStrictlySorted(ids);
  }

  lemma ChainBounds()
    ensures MaxBegin(Chain()) == 15 && MinEnd(Chain()) == 10
  {
    var tree := Chain();
    assert tree[1..][1..] == tree[2..];
  }

  /**
   * The tuple need not satisfy `overlap_start < overlap_end`: in the chain the
   * group found from the middle window starts at 15 and ends at 10.
   */
  lemma ChainedGroupEndsBeforeItStarts()
    ensures |OverlappingIn(Chain(), Chain()[1])| > 1
    ensures GroupOf(Chain(), Chain()[1]) == OverlapGroup([1, 2, 3], 15, 10)
  {
    ChainOverlapsMiddle();
    ChainIds();
    ChainBounds();
  }

  /** The canonical tree holds exactly the intervals of the rows in range, one per booking, none empty. */
  lemma CanonicalTreeFacts(table: Table, lo: Time, hi: Time)
    requires WindowsWellFormed(table)
    ensures DistinctIds(CanonicalTree(table, lo, hi)) && NonEmptyIntervals(CanonicalTree(table, lo, hi))
    ensures forall id ::
      id in table && InRange(table[id].window, lo, hi)
      ==> ToInterval(id, table[id].window) in CanonicalTree(table, lo, hi)
    ensures forall J ::
      J in CanonicalTree(table, lo, hi)
      ==> J.id in table && InRange(table[J.id].window, lo, hi) && J == ToInterval(J.id, table[J.id].window)
  {
    var tree := CanonicalTree(table, lo, hi);
    TreeIdsAreKeys(table, lo, hi, tree);
    forall J | J in tree
      ensures J.id in table && InRange(table[J.id].window, lo, hi) && J == ToInterval(J.id, table[J.id].window)
    {
      assert J in TreeIntervals(table, lo, hi);
    }
  }

  /** Every id a group names is the id of an interval of the tree. */
  lemma MemberHasInterval(tree: seq<Interval>, g: OverlapGroup, x: BookingId)
    requires NonEmptyIntervals(tree)
    requires g in Groups(tree) && x in g.ids
    ensures exists J :: J in tree && J.id == x
  {
    var I :| I in tree && |OverlappingIn(tree, I)| > 1 && g == GroupOf(tree, I);
    GroupBounds(tree, I);
  }

  /** Every returned group names at least two bookings, in increasing order. */
  lemma DetectedGroupsWellFormed(table: Table, lo: Time, hi: Time)
    requires WindowsWellFormed(table)
    ensures forall g :: g in DetectedGroups(table, lo, hi) ==> |g.ids| >= 2 && StrictlySorted(g.ids)
  {
    CanonicalTreeFacts(table, lo, hi);
    GroupsWellFormed(CanonicalTree(table, lo, hi));
  }

  /** Two different bookings whose windows pass the range query and overlap appear together in a returned group. */
  lemma DetectionComplete(table: Table, lo: Time, hi: Time, a: BookingId, b: BookingId)
    requires WindowsWellFormed(table)
    requires a in table && b in table && a != b
    requires InRange(table[a].window, lo, hi) && InRange(table[b].window, lo, hi)
    requires Overlaps(ToInterval(a, table[a].window), ToInterval(b, table[b].window))
    ensures exists g :: g in DetectedGroups(table, lo, hi) && a in g.ids && b in g.ids
  {
    var tree := CanonicalTree(table, lo, hi);
    CanonicalTreeFacts(table, lo, hi);
    var A, B := ToInterval(a, table[a].window), ToInterval(b, table[b].window);
    OverlapIsDetected(tree, A, B);
  }

  /**
   * A booking named by some returned group has its window in range; every
   * group naming it starts no earlier than its window, and one of them starts
   * before its window ends.
   */
  lemma DetectedStartsOfMember(table: Table, lo: Time, hi: Time, id: BookingId)
    requires WindowsWellFormed(table)
    requires exists g :: g in DetectedGroups(table, lo, hi) && id in g.ids
    ensures id in table && InRange(table[id].window, lo, hi)
    ensures forall g :: g in DetectedGroups(table, lo, hi) && id in g.ids ==> table[id].window.start <= g.start
    ensures exists g :: g in DetectedGroups(table, lo, hi) && id in g.ids && g.start < EffectiveEnd(table[id].window)
  {
    var tree := CanonicalTree(table, lo, hi);
    CanonicalTreeFacts(table, lo, hi);
    var g0 :| g0 in Groups(tree) && id in g0.ids;
    MemberHasInterval(tree, g0, id);
    var K :| K in tree && K.id == id;
    GroupStartsOfMember(tree, K);
  }
}
