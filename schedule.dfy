/**
 * `update_cleaning_schedule`: derive the range of interest from the new
 * bookings, rebuild the cleaning windows, detect the overlaps, assign the
 * dates, and write back only the dates that changed.
 */
module Schedule {
  import opened Wrappers
  import opened Domain
  import opened CleaningWindows
  import opened Overlaps
  import opened Assignment

  /** `min(booking.check_in_date for booking in new_bookings)`. */
  function EarliestCheckIn(bookings: seq<Booking>): (t: Time)
    requires |bookings| > 0
    ensures forall k :: 0 <= k < |bookings| ==> t <= bookings[k].checkIn
    ensures exists k :: 0 <= k < |bookings| && bookings[k].checkIn == t
  {
    if |bookings| == 1 then bookings[0].checkIn
    else
      var rest := EarliestCheckIn(bookings[1..]);
      assert forall k :: 0 < k < |bookings| ==> bookings[k] == bookings[1..][k - 1];
      if bookings[0].checkIn <= rest then bookings[0].checkIn else rest
  }

  /** `max(booking.check_out_date for booking in new_bookings)`. */
  function LatestCheckOut(bookings: seq<Booking>): (t: Time)
    requires |bookings| > 0
    ensures forall k :: 0 <= k < |bookings| ==> bookings[k].checkOut <= t
    ensures exists k :: 0 <= k < |bookings| && bookings[k].checkOut == t
  {
    if |bookings| == 1 then bookings[0].checkOut
    else
      var rest := LatestCheckOut(bookings[1..]);
      assert forall k :: 0 < k < |bookings| ==> bookings[k] == bookings[1..][k - 1];
      if bookings[0].checkOut >= rest then bookings[0].checkOut else rest
  }

  /** `(date_min, date_max)`: thirty days before the first check-in to thirty days after the last check-out. */
  function SchedulingRange(newBookings: seq<Booking>): (r: (Time, Time))
    requires |newBookings| > 0
    ensures forall k :: 0 <= k < |newBookings| ==>
      r.0 + RangeMargin <= newBookings[k].checkIn && newBookings[k].checkOut <= r.1 - RangeMargin
  {
    (EarliestCheckIn(newBookings) - RangeMargin, LatestCheckOut(newBookings) + RangeMargin)
  }

  /**
   * The range keeps a margin of thirty days around every new booking, and is
   * the narrowest such range; so every new booking that does not end before it
   * begins passes the window query.
   */
  lemma RangeCoversNewBookings(newBookings: seq<Booking>)
    requires |newBookings| > 0
    ensures forall b :: b in newBookings ==> SchedulingRange(newBookings).0 + RangeMargin <= b.checkIn
    ensures forall b :: b in newBookings ==> b.checkOut <= SchedulingRange(newBookings).1 - RangeMargin
    ensures exists b :: b in newBookings && SchedulingRange(newBookings).0 + RangeMargin == b.checkIn
    ensures exists b :: b in newBookings && SchedulingRange(newBookings).1 - RangeMargin == b.checkOut
    ensures forall b ::
      b in newBookings && b.checkIn <= b.checkOut
      ==> b.checkOut >= SchedulingRange(newBookings).0 && b.checkIn <= SchedulingRange(newBookings).1
  {
    var lo, hi := SchedulingRange(newBookings).0, SchedulingRange(newBookings).1;
    forall b | b in newBookings ensures lo + RangeMargin <= b.checkIn && b.checkOut <= hi - RangeMargin {
      var k :| 0 <= k < |newBookings| && newBookings[k] == b;
    }
    var i :| 0 <= i < |newBookings| && newBookings[i].checkIn == EarliestCheckIn(newBookings);
    assert newBookings[i] in newBookings;
    var j :| 0 <= j < |newBookings| && newBookings[j].checkOut == LatestCheckOut(newBookings);
    assert newBookings[j] in newBookings;
  }

  /** The ids among `done` whose stored date differs from the new one (a missing row or a NULL date counts as different). */
  function ChangedAmong(table: Table, dates: map<BookingId, Time>, done: set<BookingId>): set<BookingId>
    requires done <= dates.Keys
  {
    set id | id in done && StoredDate(table, id) != Some(dates[id])
  }

  /** After visiting `done`: the changed ones among them are written and take the new date, all other rows stay. */
  ghost predicate ReconciledOn(table: Table, dates: map<BookingId, Time>, done: set<BookingId>, updated: Table, written: set<BookingId>)
    requires done <= dates.Keys
  {
    && written == ChangedAmong(table, dates, done)
    && updated.Keys == table.Keys
    && (forall id :: id in table && id in written ==> updated[id] == table[id].(cleaningDate := Some(dates[id])))
    && (forall id :: id in table && id !in written ==> updated[id] == table[id])
  }

  /**
   * The outcome of the write-back: `written` holds exactly the ids of `dates`
   * whose stored date differs from the new one; those rows take the new date,
   * all other rows stay.
   */
  ghost predicate Reconciled(table: Table, dates: map<BookingId, Time>, updated: Table, written: set<BookingId>)
  {
    ReconciledOn(table, dates, dates.Keys, updated, written)
  }

  lemma ReconcileStep(table: Table, dates: map<BookingId, Time>, done: set<BookingId>, id: BookingId,
                      updated: Table, written: set<BookingId>, updated': Table, written': set<BookingId>)
    requires done <= dates.Keys && id in dates && id !in done
    requires ReconciledOn(table, dates, done, updated, written)
    requires StoredDate(table, id) != Some(dates[id]) ==> written' == written + {id}
    requires StoredDate(table, id) != Some(dates[id]) && id in updated
      ==> updated' == updated[id := updated[id].(cleaningDate := Some(dates[id]))]
    requires StoredDate(table, id) != Some(dates[id]) && id !in updated ==> updated' == updated
    requires StoredDate(table, id) == Some(dates[id]) ==> written' == written && updated' == updated
    ensures ReconciledOn(table, dates, done + {id}, updated', written')
  {
    assert ChangedAmong(table, dates, done + {id})
      == ChangedAmong(table, dates, done) + (if StoredDate(table, id) != Some(dates[id]) then {id} else {});
    assert id !in written;
  }

  /** Step 4: compare against the stored dates and update the rows that differ. */
  method Reconcile(table: Table, dates: map<BookingId, Time>) returns (updated: Table, written: set<BookingId>)
    ensures Reconciled(table, dates, updated, written)
  {
    // current_cleaning_dates_dict
    var current := map id | id in dates && id in table :: table[id].cleaningDate;
    updated, written := table, {};
    var pending: set<BookingId> := dates.Keys;
    while pending != {}
      invariant pending <= dates.Keys
      invariant ReconciledOn(table, dates, dates.Keys - pending, updated, written)
      decreases |pending|
    {
      EmptyOrMember(pending);
      var id :| id in pending;
      var stored := if id in current then current[id] else None;
      assert stored == StoredDate(table, id);
      var updated', written' := updated, written;
      if stored != Some(dates[id]) {
        // `filter(booking_id=id).update(...)` changes the row if there is one
        if id in updated {
          updated' := updated[id := updated[id].(cleaningDate := Some(dates[id]))];
        }
        written' := written + {id};
      }
      ReconcileStep(table, dates, dates.Keys - pending, id, updated, written, updated', written');
      assert dates.Keys - pending + {id} == dates.Keys - (pending - {id});
      updated, written := updated', written';
      pending := pending - {id};
    }
  }

  /** Once the dates are written, writing the same dates again changes nothing. */
  lemma ReconcileIsIdempotent(table: Table, dates: map<BookingId, Time>, t1: Table, w1: set<BookingId>, t2: Table, w2: set<BookingId>)
    requires dates.Keys <= table.Keys
    requires Reconciled(table, dates, t1, w1) && Reconciled(t1, dates, t2, w2)
    ensures w2 == {} && t2 == t1
  {
    forall id | id in dates ensures StoredDate(t1, id) == Some(dates[id]) {
      if id !in w1 {
        assert StoredDate(table, id) == Some(dates[id]);
      }
    }
    assert w2 == {};
    forall id | id in t1 ensures t2[id] == t1[id] {
      assert id !in w2;
    }
  }

  /** Rows with the same windows give the interval tree the same contents. */
  lemma SameWindowsSameGroups(t1: Table, t2: Table, lo: Time, hi: Time)
    requires t1.Keys == t2.Keys
    requires forall id :: id in t1 ==> t1[id].window == t2[id].window
    ensures TreeIntervals(t1, lo, hi) == TreeIntervals(t2, lo, hi)
    ensures DetectedGroups(t1, lo, hi) == DetectedGroups(t2, lo, hi)
  {
    forall I | I in TreeIntervals(t1, lo, hi) ensures I in TreeIntervals(t2, lo, hi) {
      var id :| id in t1 && InRange(t1[id].window, lo, hi) && I == ToInterval(id, t1[id].window);
    }
    forall I | I in TreeIntervals(t2, lo, hi) ensures I in TreeIntervals(t1, lo, hi) {
      var id :| id in t2 && InRange(t2[id].window, lo, hi) && I == ToInterval(id, t2[id].window);
    }
  }

  /** Every row carries a date, and that date follows the assignment rule for the groups detected on the same rows. */
  ghost predicate DatesFollowRule(table: Table, lo: Time, hi: Time)
  {
    forall id ::
      id in table
      ==> table[id].cleaningDate.Some?
          && FollowsRule(table[id].window, DetectedGroups(table, lo, hi), id, table[id].cleaningDate.value)
  }

  /** Step 1 as seen from the end of the pass: fetched bookings have their windows, other rows keep theirs. */
  ghost predicate WindowsRebuilt(fetched: seq<Booking>, table: Table, updated: Table)
  {
    && updated.Keys == table.Keys + IdsOf(fetched)
    && (forall i :: 0 <= i < |fetched| ==> updated[fetched[i].id].window == WindowOf(fetched, fetched[i]))
    && (forall id :: id in table && id !in IdsOf(fetched) ==> updated[id].window == table[id].window)
  }

  /** The rows written are exactly those whose date now differs from the one stored before the pass. */
  ghost predicate WrittenAreChanged(table: Table, updated: Table, written: set<BookingId>)
  {
    written == (set id | id in updated && StoredDate(table, id) != updated[id].cleaningDate)
  }

  /** The whole state after a pass of `update_cleaning_schedule`. */
  ghost predicate PassOutcome(owned: seq<Booking>, newBookings: seq<Booking>, table: Table, updated: Table, written: set<BookingId>)
    requires |newBookings| > 0
  {
    var lo, hi := SchedulingRange(newBookings).0, SchedulingRange(newBookings).1;
    && WindowsRebuilt(FetchBookings(owned, lo, hi), table, updated)
    && DatesFollowRule(updated, lo, hi)
    && WrittenAreChanged(table, updated, written)
    && WindowsWellFormed(updated)
  }

  /** The window pass followed by a write-back of dates for the same rows leaves the rebuilt windows in place. */
  lemma WindowsSurviveWriteBack(fetched: seq<Booking>, table: Table, windowed: Table,
                                dates: map<BookingId, Time>, updated: Table, written: set<BookingId>)
    requires WindowsWritten(fetched, table, windowed)
    requires dates.Keys == windowed.Keys && Reconciled(windowed, dates, updated, written)
    ensures WindowsRebuilt(fetched, table, updated)
    ensures forall id :: id in updated ==> updated[id].window == windowed[id].window
    ensures forall id :: id in updated ==> updated[id].cleaningDate == Some(dates[id])
    ensures forall id :: id in windowed ==> StoredDate(windowed, id) == StoredDate(table, id)
  {
    assert IdsOf(fetched) == IdsUpTo(fetched, |fetched|);
    forall id | id in windowed ensures StoredDate(windowed, id) == StoredDate(table, id) {
      if id in IdsOf(fetched) {
        var i :| 0 <= i < |fetched| && fetched[i].id == id;
      }
    }
  }

  /** The dates assigned from the groups detected on the rebuilt windows follow the rule on the final table. */
  lemma DatesFromAssignment(windowed: Table, lo: Time, hi: Time, overlaps: seq<OverlapGroup>,
                            dates: map<BookingId, Time>, updated: Table)
    requires forall g :: g in overlaps <==> g in DetectedGroups(windowed, lo, hi)
    requires dates.Keys == windowed.Keys
    requires forall id :: id in dates ==> FollowsRule(windowed[id].window, GroupSet(overlaps), id, dates[id])
    requires updated.Keys == windowed.Keys
    requires forall id :: id in updated ==> updated[id].window == windowed[id].window
    requires forall id :: id in updated ==> updated[id].cleaningDate == Some(dates[id])
    ensures DatesFollowRule(updated, lo, hi)
  {
    assert GroupSet(overlaps) == DetectedGroups(windowed, lo, hi);
    SameWindowsSameGroups(windowed, updated, lo, hi);
  }

  /** `update_cleaning_schedule(user, new_bookings)` on the owner's bookings (in query order) and the table. */
  method UpdateCleaningSchedule(owned: seq<Booking>, newBookings: seq<Booking>, table: Table)
    returns (updated: Table, written: set<BookingId>)
    requires |newBookings| > 0
    requires UniqueIds(owned) && WindowsWellFormed(table)
    ensures PassOutcome(owned, newBookings, table, updated, written)
  {
    var range := SchedulingRange(newBookings);
    var lo, hi := range.0, range.1;
    var fetched := FetchBookings(owned, lo, hi);
    FetchKeepsInvariants(owned, lo, hi);
    var windowed := CalculateCleaningWindows(fetched, table);
    var overlaps := FindCleaningOverlaps(windowed, lo, hi);
    var dates := AssignCleaningDates(windowed, overlaps);
    updated, written := Reconcile(windowed, dates);

    WindowsSurviveWriteBack(fetched, table, windowed, dates, updated, written);
    DatesFromAssignment(windowed, lo, hi, overlaps, dates, updated);
    assert WrittenAreChanged(table, updated, written);
  }

  /** Tables that agree on rows and windows and whose dates both follow the rule are the same table. */
  lemma DatesDeterminedByWindows(ta: Table, tb: Table, lo: Time, hi: Time)
    requires ta.Keys == tb.Keys
    requires forall id :: id in ta ==> ta[id].window == tb[id].window
    requires DatesFollowRule(ta, lo, hi) && DatesFollowRule(tb, lo, hi)
    ensures ta == tb
  {
    SameWindowsSameGroups(ta, tb, lo, hi);
    forall id | id in ta ensures ta[id] == tb[id] {
      FollowsRuleUnique(ta[id].window, DetectedGroups(ta, lo, hi), id, ta[id].cleaningDate.value, tb[id].cleaningDate.value);
    }
  }

  /** Two window rebuilds over the same fetched bookings agree wherever the tables they started from agree. */
  lemma RebuildsAgree(fetched: seq<Booking>, ta: Table, tb: Table, ua: Table, ub: Table)
    requires WindowsRebuilt(fetched, ta, ua) && WindowsRebuilt(fetched, tb, ub)
    requires ta.Keys + IdsOf(fetched) == tb.Keys + IdsOf(fetched)
    requires forall id :: id in ta && id in tb && id !in IdsOf(fetched) ==> ta[id].window == tb[id].window
    ensures ua.Keys == ub.Keys
    ensures forall id :: id in ua ==> ua[id].window == ub[id].window
  {
    forall id | id in ua ensures ua[id].window == ub[id].window {
      if id in IdsOf(fetched) {
        var i :| 0 <= i < |fetched| && fetched[i].id == id;
      }
    }
  }

  /** The pass does not depend on the order in which rows and groups are visited. */
  lemma PassIsDeterministic(owned: seq<Booking>, newBookings: seq<Booking>, table: Table,
                            t1: Table, w1: set<BookingId>, t2: Table, w2: set<BookingId>)
    requires |newBookings| > 0
    requires PassOutcome(owned, newBookings, table, t1, w1) && PassOutcome(owned, newBookings, table, t2, w2)
    ensures t1 == t2 && w1 == w2
  {
    var lo, hi := SchedulingRange(newBookings).0, SchedulingRange(newBookings).1;
    RebuildsAgree(FetchBookings(owned, lo, hi), table, table, t1, t2);
    DatesDeterminedByWindows(t1, t2, lo, hi);
  }

  /** A second pass over the same bookings, run on the result of the first, writes nothing and changes nothing. */
  lemma SecondPassWritesNothing(owned: seq<Booking>, newBookings: seq<Booking>, t0: Table,
                                t1: Table, w1: set<BookingId>, t2: Table, w2: set<BookingId>)
    requires |newBookings| > 0
    requires PassOutcome(owned, newBookings, t0, t1, w1) && PassOutcome(owned, newBookings, t1, t2, w2)
    ensures w2 == {} && t2 == t1
  {
    var lo, hi := SchedulingRange(newBookings).0, SchedulingRange(newBookings).1;
    var fetched := FetchBookings(owned, lo, hi);
    assert WindowsRebuilt(fetched, t0, t1) && WindowsRebuilt(fetched, t1, t2);
    RebuildsAgree(fetched, t1, t1, t1, t2) by {
      assert WindowsRebuilt(fetched, t1, t1);
    }
    DatesDeterminedByWindows(t1, t2, lo, hi);
    assert WrittenAreChanged(t1, t2, w2);
  }
}
