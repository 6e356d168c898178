/** Python's `sorted` on booking ids, as an insertion sort over sequences. */
module Sorting {
  import opened Domain

  predicate Sorted(s: seq<BookingId>)
  {
    forall i, j :: 0 <= i < j < |s| ==> s[i] <= s[j]
  }

  predicate StrictlySorted(s: seq<BookingId>)
  {
    forall i, j :: 0 <= i < j < |s| ==> s[i] < s[j]
  }

  predicate Distinct(s: seq<BookingId>)
  {
    forall i, j :: 0 <= i < j < |s| ==> s[i] != s[j]
  }

  /** Places `x` before the first element of `s` that is not smaller than it. */
  function Insert(x: BookingId, s: seq<BookingId>): (r: seq<BookingId>)
    ensures multiset(r) == multiset(s) + multiset{x}
  {
    if s == [] then [x]
    else if x <= s[0] then [x] + s
    else
      assert s == [s[0]] + s[1..];
      [s[0]] + Insert(x, s[1..])
  }

  /** A head no larger than every element keeps an ordered tail ordered. */
  lemma ConsSorted(h: BookingId, t: seq<BookingId>)
    requires Sorted(t)
    requires forall k :: 0 <= k < |t| ==> h <= t[k]
    ensures Sorted([h] + t)
  {
    var r := [h] + t;
    forall i, j | 0 <= i < j < |r| ensures r[i] <= r[j] {
      assert r[j] == t[j - 1];
      if i > 0 {
        assert r[i] == t[i - 1];
      }
    }
  }

  /** A head smaller than every element keeps a strictly ordered tail strictly ordered. */
  lemma ConsStrictlySorted(h: BookingId, t: seq<BookingId>)
    requires StrictlySorted(t)
    requires forall k :: 0 <= k < |t| ==> h < t[k]
    ensures StrictlySorted([h] + t)
  {
    var r := [h] + t;
    forall i, j | 0 <= i < j < |r| ensures r[i] < r[j] {
      assert r[j] == t[j - 1];
      if i > 0 {
        assert r[i] == t[i - 1];
      }
    }
  }

  /** Inserting into an ordered sequence keeps it ordered, strictly so for a new element. */
  lemma {:induction false} InsertSorted(x: BookingId, s: seq<BookingId>)
    requires Sorted(s)
    ensures Sorted(Insert(x, s))
    ensures StrictlySorted(s) && x !in s ==> StrictlySorted(Insert(x, s))
  {
    if s == [] {
    } else if x <= s[0] {
      ConsSorted(x, s);
      if StrictlySorted(s) && x !in s {
        assert x < s[0];
        ConsStrictlySorted(x, s);
      }
    } else {
      var tail := s[1..];
      var rest := Insert(x, tail);
      InsertSorted(x, tail);
      assert Insert(x, s) == [s[0]] + rest;
      forall k | 0 <= k < |rest| ensures s[0] <= rest[k] && (StrictlySorted(s) ==> s[0] < rest[k]) {
        assert rest[k] in multiset(tail) + multiset{x};
        if rest[k] != x {
          var m :| 0 <= m < |tail| && tail[m] == rest[k];
          assert s[m + 1] == rest[k];
        }
      }
      ConsSorted(s[0], rest);
      if StrictlySorted(s) && x !in s {
        assert x !in tail && StrictlySorted(tail);
        ConsStrictlySorted(s[0], rest);
      }
    }
  }

  /** `sorted(ids)`: an ordered permutation; strictly increasing when the ids are distinct. */
  function SortIds(s: seq<BookingId>): (r: seq<BookingId>)
    ensures Sorted(r)
    ensures multiset(r) == multiset(s)
    ensures Distinct(s) ==> StrictlySorted(r)
  {
    if s == [] then []
    else
      assert s == [s[0]] + s[1..];
      var rest := SortIds(s[1..]);
      InsertSorted(s[0], rest);
      DistinctSplit(s);
      Insert(s[0], rest)
  }

  /** The head of a duplicate-free sequence is absent from a duplicate-free tail. */
  lemma DistinctSplit(s: seq<BookingId>)
    requires |s| > 0
    ensures Distinct(s) ==> s[0] !in multiset(s[1..]) && Distinct(s[1..])
  {
  }

  /** A strictly increasing sequence is determined by its elements. */
  lemma {:induction false} StrictlySortedUnique(a: seq<BookingId>, b: seq<BookingId>)
    requires StrictlySorted(a) && StrictlySorted(b)
    requires forall x :: x in a <==> x in b
    ensures a == b
  {
    assert |a| == 0 <==> |b| == 0 by {
      if |a| > 0 { assert a[0] in a; }
      if |b| > 0 { assert b[0] in b; }
    }
    if a != [] {
      assert a[0] in b && b[0] in a;
      assert a[0] == b[0] by {
        var i :| 0 <= i < |b| && b[i] == a[0];
        var j :| 0 <= j < |a| && a[j] == b[0];
        assert b[0] <= a[0] && a[0] <= b[0];
      }
      forall x ensures x in a[1..] <==> x in b[1..] {
        if x in a[1..] {
          var i :| 1 <= i < |a| && a[i] == x;
          assert x in b && x != b[0];
        }
        if x in b[1..] {
          var i :| 1 <= i < |b| && b[i] == x;
          assert x in a && x != a[0];
        }
      }
      StrictlySortedUnique(a[1..], b[1..]);
      assert a == [a[0]] + a[1..] && b == [b[0]] + b[1..];
    }
  }

  /** Sorting a sequence that is already strictly increasing returns it unchanged. */
  lemma SortIdsKeepsStrictlySorted(s: seq<BookingId>)
    requires StrictlySorted(s)
    ensures SortIds(s) == s
  {
    var sorted := SortIds(s);
    assert Distinct(s);
    forall x ensures x in sorted <==> x in s {
      assert x in sorted <==> x in multiset(s);
    }
    StrictlySortedUnique(sorted, s);
  }
}
