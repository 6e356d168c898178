/**
 * `assign_cleaning_dates`: every row of the cleaning-schedule table gets a
 * cleaning date. A booking that no overlap group names is cleaned at the end
 * of its window (at its start when the window is open); a booking that some
 * group names is cleaned at the earliest `overlap_start` among those groups.
 */
module Assignment {
  import opened Wrappers
  import opened Domain
  import opened Overlaps

  /** `any(booking_id in booking_ids for booking_ids, _, _ in overlaps)`. */
  predicate InSomeGroup(overlaps: seq<OverlapGroup>, id: BookingId): (r: bool)
    ensures r <==> exists g :: g in overlaps && id in g.ids
  {
    exists k :: 0 <= k < |overlaps| && id in overlaps[k].ids
  }

  /** `[overlap_start for booking_ids, overlap_start, _ in overlaps if booking_id in booking_ids]`. */
  function StartsOfGroupsWith(overlaps: seq<OverlapGroup>, id: BookingId): (r: seq<Time>)
    ensures |r| <= |overlaps|
  {
    if overlaps == [] then []
    else (if id in overlaps[0].ids then [overlaps[0].start] else []) + StartsOfGroupsWith(overlaps[1..], id)
  }

  lemma {:induction false} StartsOfGroupsWithMembership(overlaps: seq<OverlapGroup>, id: BookingId)
    ensures forall t :: t in StartsOfGroupsWith(overlaps, id) <==> exists g :: g in overlaps && id in g.ids && g.start == t
  {
    if overlaps != [] {
      StartsOfGroupsWithMembership(overlaps[1..], id);
      assert forall g :: g in overlaps <==> g == overlaps[0] || g in overlaps[1..];
    }
  }

  /** A booking in some group has at least one group start to choose from. */
  lemma StartsNonEmpty(overlaps: seq<OverlapGroup>, id: BookingId)
    requires InSomeGroup(overlaps, id)
    ensures |StartsOfGroupsWith(overlaps, id)| > 0
  {
    StartsOfGroupsWithMembership(overlaps, id);
    var k :| 0 <= k < |overlaps| && id in overlaps[k].ids;
    assert overlaps[k].start in StartsOfGroupsWith(overlaps, id);
  }

  /** `min(...)` of a non-empty list of instants. */
  function Min(s: seq<Time>): (r: Time)
    requires |s| > 0
    ensures forall k :: 0 <= k < |s| ==> r <= s[k]
    ensures exists k :: 0 <= k < |s| && s[k] == r
  {
    if |s| == 1 then s[0]
    else
      var rest := Min(s[1..]);
      assert forall k :: 0 < k < |s| ==> s[k] == s[1..][k - 1];
      if s[0] <= rest then s[0] else rest
  }

  function GroupSet(overlaps: seq<OverlapGroup>): set<OverlapGroup>
  {
    set g | g in overlaps
  }

  /**
   * The assignment rule, stated on the set of groups: a booking no group names
   * gets its window end (its start for an open window); otherwise it gets the
   * start of a group naming it that no other group naming it undercuts.
   */
  predicate FollowsRule(w: Window, groups: set<OverlapGroup>, id: BookingId, d: Time)
  {
    if forall g :: g in groups ==> id !in g.ids then
      d == (if w.end.Some? then w.end.value else w.start)
    else
      (exists g :: g in groups && id in g.ids && g.start == d)
      && (forall g :: g in groups && id in g.ids ==> d <= g.start)
  }

  /** The first branch of the loop body: a booking no group names follows the rule with its window end (or start). */
  lemma UngroupedFollowsRule(overlaps: seq<OverlapGroup>, id: BookingId, w: Window)
    requires !InSomeGroup(overlaps, id)
    ensures FollowsRule(w, GroupSet(overlaps), id, if w.end.Some? then w.end.value else w.start)
  {
    forall g | g in GroupSet(overlaps) ensures id !in g.ids {
      var k :| 0 <= k < |overlaps| && overlaps[k] == g;
    }
  }

  /** The second branch: the least start among the groups naming the booking follows the rule, whatever the list order. */
  lemma GroupedFollowsRule(overlaps: seq<OverlapGroup>, id: BookingId, w: Window)
    requires InSomeGroup(overlaps, id)
    ensures |StartsOfGroupsWith(overlaps, id)| > 0
    ensures FollowsRule(w, GroupSet(overlaps), id, Min(StartsOfGroupsWith(overlaps, id)))
  {
    StartsNonEmpty(overlaps, id);
    var groups := GroupSet(overlaps);
    var starts := StartsOfGroupsWith(overlaps, id);
    var d := Min(starts);
    StartsOfGroupsWithMembership(overlaps, id);
    var k :| 0 <= k < |starts| && starts[k] == d;
    assert starts[k] in starts;
    var j :| 0 <= j < |overlaps| && id in overlaps[j].ids;
    assert overlaps[j] in groups;
    forall g | g in groups && id in g.ids ensures d <= g.start {
      assert g.start in starts;
      var m :| 0 <= m < |starts| && starts[m] == g.start;
    }
  }

  /** The rule leaves no choice: at most one date follows it. */
  lemma FollowsRuleUnique(w: Window, groups: set<OverlapGroup>, id: BookingId, d1: Time, d2: Time)
    requires FollowsRule(w, groups, id, d1) && FollowsRule(w, groups, id, d2)
    ensures d1 == d2
  {
    if exists g :: g in groups && id in g.ids {
      var g1 :| g1 in groups && id in g1.ids && g1.start == d1;
      var g2 :| g2 in groups && id in g2.ids && g2.start == d2;
      assert d1 <= g2.start && d2 <= g1.start;
    }
  }

  /** `assign_cleaning_dates`: one date per row of the table, the rows taken in any order. */
  method AssignCleaningDates(table: Table, overlaps: seq<OverlapGroup>) returns (dates: map<BookingId, Time>)
    ensures dates.Keys == table.Keys
    ensures forall id :: id in dates ==> FollowsRule(table[id].window, GroupSet(overlaps), id, dates[id])
  {
    var windows := map id | id in table :: table[id].window;
    dates := map[];
    var pending: set<BookingId> := windows.Keys;
    while pending != {}
      invariant pending <= windows.Keys
      invariant dates.Keys == windows.Keys - pending
      invariant forall id :: id in dates ==> FollowsRule(windows[id], GroupSet(overlaps), id, dates[id])
      decreases |pending|
    {
      EmptyOrMember(pending);
      var id :| id in pending;
      var w := windows[id];
      if !InSomeGroup(overlaps, id) {
        UngroupedFollowsRule(overlaps, id, w);
        dates := dates[id := if w.end.Some? then w.end.value else w.start];
      } else {
        GroupedFollowsRule(overlaps, id, w);
        dates := dates[id := Min(StartsOfGroupsWith(overlaps, id))];
      }
      pending := pending - {id};
    }
  }

  /**
   * When the groups are the ones detected on the same table, the date lies in
   * the booking's window: never before its start, never after a bounded end,
   * and strictly before the end when the booking is in a group.
   */
  lemma AssignedDateWithinWindow(table: Table, lo: Time, hi: Time, id: BookingId, d: Time)
    requires WindowsWellFormed(table) && id in table
    requires FollowsRule(table[id].window, DetectedGroups(table, lo, hi), id, d)
    ensures table[id].window.start <= d
    ensures table[id].window.end.Some? ==> d <= table[id].window.end.value
    ensures (exists g :: g in DetectedGroups(table, lo, hi) && id in g.ids)
      ==> table[id].window.end.Some? && d < table[id].window.end.value
  {
    var groups := DetectedGroups(table, lo, hi);
    if exists g :: g in groups && id in g.ids {
      DetectedStartsOfMember(table, lo, hi, id);
      var g0 :| g0 in groups && id in g0.ids && g0.start < EffectiveEnd(table[id].window);
      var g1 :| g1 in groups && id in g1.ids && g1.start == d;
      assert d <= g0.start;
    }
  }
}
