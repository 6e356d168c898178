/**
 * `validate_booking_dates`: the guards a proposed stay [start, end] must pass
 * before it is stored as a booking of an apartment.
 */
module Validation {
  import opened Wrappers
  import opened Domain
  import opened CleaningWindows

  /** The three rejection messages, in the order the guards are tried. */
  datatype BookingError =
    | StartInPast                            // "Start date cannot be in the past"
    | EndBeforeStart                         // "End date cannot be before start date"
    | OverlapsExisting(start: Time, end: Time) // "Booking from {start} to {end} overlaps with an existing booking"

  /** The calendar day of an instant (`.date()`), counted from the epoch. */
  function DayOf(t: Time): (d: int)
    ensures d * MicrosPerDay <= t < (d + 1) * MicrosPerDay
  {
    t / MicrosPerDay
  }

  /** The conditions of the booking query: same apartment, `check_in < end` and `check_out > start`. */
  predicate Conflicts(b: Booking, apartment: ApartmentId, start: Time, end: Time)
  {
    b.apartment == apartment && b.checkIn < end && b.checkOut > start
  }

  /** The bookings the overlap query returns, in their stored order. */
  function ConflictingBookings(existing: seq<Booking>, apartment: ApartmentId, start: Time, end: Time): (r: seq<Booking>)
    ensures forall b :: b in r <==> b in existing && Conflicts(b, apartment, start, end)
  {
    if existing == [] then []
    else
      var rest := ConflictingBookings(existing[1..], apartment, start, end);
      if Conflicts(existing[0], apartment, start, end) then [existing[0]] + rest else rest
  }

  /**
   * `None` when the stay may be booked, otherwise the first failed guard.
   * `today` stands for the wall clock.
   */
  function ValidateBookingDates(existing: seq<Booking>, apartment: ApartmentId, start: Time, end: Time, today: Time)
    : (r: Option<BookingError>)
    ensures r == None <==>
      && DayOf(today) <= DayOf(start)
      && start <= end
      && forall b :: b in existing ==> !Conflicts(b, apartment, start, end)
    ensures r == Some(StartInPast) <==> DayOf(start) < DayOf(today)
    ensures r == Some(EndBeforeStart) <==> DayOf(today) <= DayOf(start) && end < start
    ensures r == Some(OverlapsExisting(start, end)) <==>
      && DayOf(today) <= DayOf(start)
      && start <= end
      && exists b :: b in existing && Conflicts(b, apartment, start, end)
    ensures r.Some? ==> r.value in {StartInPast, EndBeforeStart, OverlapsExisting(start, end)}
  {
    if DayOf(start) < DayOf(today) then Some(StartInPast)
    else if end < start then Some(EndBeforeStart)
    else
      var conflicting := ConflictingBookings(existing, apartment, start, end);
      if |conflicting| > 0 then
        assert conflicting[0] in conflicting;
        Some(OverlapsExisting(start, end))
      else None
  }

  /**
   * A booking that passes validation keeps the apartments' bookings pairwise
   * disjoint: the invariant the window builder relies on.
   */
  lemma AcceptedBookingKeepsApartmentsDisjoint(existing: seq<Booking>, b: Booking, today: Time)
    requires ApartmentsDisjoint(existing)
    requires ValidateBookingDates(existing, b.apartment, b.checkIn, b.checkOut, today) == None
    ensures ApartmentsDisjoint(existing + [b])
  {
    var all := existing + [b];
    forall i, j | 0 <= i < |all| && 0 <= j < |all| && i != j && all[i].apartment == all[j].apartment
      ensures !Occupies(all[i], all[j])
    {
      if i == |existing| {
        assert all[j] in existing && !Conflicts(all[j], b.apartment, b.checkIn, b.checkOut);
      } else if j == |existing| {
        assert all[i] in existing && !Conflicts(all[i], b.apartment, b.checkIn, b.checkOut);
      } else {
        assert all[i] == existing[i] && all[j] == existing[j];
      }
    }
  }

  /**
   * The guards accept a stay of zero length (`end >= start`), and such a stay
   * can make the next booking found by position differ from the one with the
   * earliest check-in: in apartment 7, after a stay ending at 4, the accepted
   * stay [8, 8) comes before [5, 8) in check-out order, so the window ends at 8
   * although a stay checks in at 5.
   */
  lemma ZeroLengthStaySplitsFirstFromEarliest()
    ensures var before, later := Booking(1, 7, 0, 4), Booking(2, 7, 5, 8);
      var empty := Booking(3, 7, 8, 8);
      var fetched := [before, empty, later];
      && ValidateBookingDates([before, later], 7, 8, 8, 0) == None
      && OrderedByCheckOut(fetched) && ApartmentsDisjoint(fetched) && UniqueIds(fetched)
      && IsNextCandidate(later, 7, before.checkOut)
      && WindowOf(fetched, before).end == Some(8)
      && later.checkIn < WindowOf(fetched, before).end.value
  {
    var before, later := Booking(1, 7, 0, 4), Booking(2, 7, 5, 8);
    var empty := Booking(3, 7, 8, 8);
    var fetched := [before, empty, later];
    assert ConflictingBookings([later], 7, 8, 8) == [] by {
      assert [later][1..] == [];
    }
    assert [before, later][1..] == [later];
    assert ConflictingBookings([before, later], 7, 8, 8) == [];
    assert ValidateBookingDates([before, later], 7, 8, 8, 0) == None;
    assert fetched[1..] == [empty, later];
    assert NextCheckIn(fetched, 7, 4) == Some(8);
    assert OrderedByCheckOut(fetched);
    assert ApartmentsDisjoint(fetched);
    assert UniqueIds(fetched);
  }
}
