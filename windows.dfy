/**
 * `calculate_cleaning_windows`: every fetched booking gets the window from its
 * check-out to the check-in of the next booking of the same apartment, and the
 * window is written into the cleaning-schedule table with `update_or_create`.
 */
module CleaningWindows {
  import opened Wrappers
  import opened Domain

  /** The bookings of the owner that the window query returns (`check_out >= lo`, `check_in <= hi`), in query order. */
  function FetchBookings(owned: seq<Booking>, lo: Time, hi: Time): (r: seq<Booking>)
    ensures |r| <= |owned|
    ensures forall k :: 0 <= k < |r| ==> r[k].checkOut >= lo && r[k].checkIn <= hi
  {
    if owned == [] then []
    else
      var rest := FetchBookings(owned[1..], lo, hi);
      if owned[0].checkOut >= lo && owned[0].checkIn <= hi then [owned[0]] + rest else rest
  }

  /** The query returns exactly the owner's bookings that reach into the range. */
  lemma {:induction false} FetchMembership(owned: seq<Booking>, lo: Time, hi: Time)
    ensures forall b :: b in FetchBookings(owned, lo, hi) <==> b in owned && b.checkOut >= lo && b.checkIn <= hi
  {
    if owned != [] {
      FetchMembership(owned[1..], lo, hi);
      assert forall b :: b in owned <==> b == owned[0] || b in owned[1..];
    }
  }

  /** The query keeps the order of the owner's bookings: the fetched ones sit at increasing positions of `owned`. */
  lemma {:induction false} FetchIsSubsequence(owned: seq<Booking>, lo: Time, hi: Time) returns (pos: seq<nat>)
    ensures |pos| == |FetchBookings(owned, lo, hi)|
    ensures forall k :: 0 <= k < |pos| ==> pos[k] < |owned| && FetchBookings(owned, lo, hi)[k] == owned[pos[k]]
    ensures forall a, b :: 0 <= a < b < |pos| ==> pos[a] < pos[b]
  {
    if owned == [] {
      pos := [];
    } else {
      var tail := owned[1..];
      var r, fetchedTail := FetchBookings(owned, lo, hi), FetchBookings(tail, lo, hi);
      var rest := FetchIsSubsequence(tail, lo, hi);
      var shifted := seq(|rest|, k requires 0 <= k < |rest| => rest[k] + 1);
      assert forall k :: 0 <= k < |shifted| ==> shifted[k] < |owned| && fetchedTail[k] == owned[shifted[k]] by {
        forall k | 0 <= k < |shifted| ensures shifted[k] < |owned| && fetchedTail[k] == owned[shifted[k]] {
          assert fetchedTail[k] == tail[rest[k]];
        }
      }
      if owned[0].checkOut >= lo && owned[0].checkIn <= hi {
        assert r == [owned[0]] + fetchedTail;
        pos := [0] + shifted;
        forall k | 0 <= k < |pos| ensures pos[k] < |owned| && r[k] == owned[pos[k]] {
          if k > 0 { assert pos[k] == shifted[k - 1] && r[k] == fetchedTail[k - 1]; }
        }
      } else {
        assert r == fetchedTail;
        pos := shifted;
      }
    }
  }

  /** What holds of every pair of the owner's bookings holds of the fetched ones. */
  lemma FetchKeepsInvariants(owned: seq<Booking>, lo: Time, hi: Time)
    ensures UniqueIds(owned) ==> UniqueIds(FetchBookings(owned, lo, hi))
    ensures OrderedByCheckOut(owned) ==> OrderedByCheckOut(FetchBookings(owned, lo, hi))
    ensures ApartmentsDisjoint(owned) ==> ApartmentsDisjoint(FetchBookings(owned, lo, hi))
    ensures PositiveStays(owned) ==> PositiveStays(FetchBookings(owned, lo, hi))
  {
    var r := FetchBookings(owned, lo, hi);
    var pos := FetchIsSubsequence(owned, lo, hi);
    if ApartmentsDisjoint(owned) {
      forall i, j | 0 <= i < |r| && 0 <= j < |r| && i != j && r[i].apartment == r[j].apartment
        ensures !Occupies(r[i], r[j])
      {
        assert r[i] == owned[pos[i]] && r[j] == owned[pos[j]];
        assert pos[i] != pos[j] by { if i < j { assert pos[i] < pos[j]; } else { assert pos[j] < pos[i]; } }
      }
    }
  }

  /** A booking that qualifies as the next one after check-out `t` in `apartment`. */
  predicate IsNextCandidate(c: Booking, apartment: ApartmentId, t: Time)
  {
    c.apartment == apartment && c.checkIn > t
  }

  /**
   * The check-in of the first qualifying booking in query order (the inner
   * loop and its `break`), or `None` when there is none.
   */
  function NextCheckIn(bookings: seq<Booking>, apartment: ApartmentId, t: Time): (r: Option<Time>)
    ensures r.Some? ==> r.value > t
  {
    if bookings == [] then None
    else if IsNextCandidate(bookings[0], apartment, t) then Some(bookings[0].checkIn)
    else NextCheckIn(bookings[1..], apartment, t)
  }

  /** The cleaning window of booking `b` among the fetched bookings. */
  function WindowOf(fetched: seq<Booking>, b: Booking): (w: Window)
    ensures w.start == b.checkOut && WindowWellFormed(w)
  {
    Window(b.checkOut, NextCheckIn(fetched, b.apartment, b.checkOut))
  }

  /**
   * `NextCheckIn` is open-ended exactly when no booking of the apartment checks
   * in later, and otherwise is the check-in of the first such booking in order.
   */
  lemma {:induction false} NextCheckInIsFirst(bookings: seq<Booking>, apartment: ApartmentId, t: Time)
    ensures NextCheckIn(bookings, apartment, t).None? <==>
      forall c :: c in bookings ==> !IsNextCandidate(c, apartment, t)
    ensures NextCheckIn(bookings, apartment, t).Some? ==>
      exists i :: 0 <= i < |bookings| && NextCheckIn(bookings, apartment, t).value == bookings[i].checkIn
        && IsNextCandidate(bookings[i], apartment, t)
        && forall m :: 0 <= m < i ==> !IsNextCandidate(bookings[m], apartment, t)
  {
    if bookings != [] {
      var tail := bookings[1..];
      NextCheckInIsFirst(tail, apartment, t);
      assert forall c :: c in bookings <==> c == bookings[0] || c in tail;
      if !IsNextCandidate(bookings[0], apartment, t) && NextCheckIn(tail, apartment, t).Some? {
        var i :| 0 <= i < |tail| && NextCheckIn(tail, apartment, t).value == tail[i].checkIn
          && IsNextCandidate(tail[i], apartment, t)
          && forall m :: 0 <= m < i ==> !IsNextCandidate(tail[m], apartment, t);
        assert bookings[i + 1] == tail[i];
        forall m | 0 <= m < i + 1 ensures !IsNextCandidate(bookings[m], apartment, t) {
          if m > 0 { assert bookings[m] == tail[m - 1]; }
        }
      }
    }
  }

  /**
   * The window starts at check-out; it is open-ended exactly when no booking of
   * the apartment checks in later, and otherwise ends at the check-in of the
   * first such booking in query order, strictly after the start.
   */
  lemma WindowShape(fetched: seq<Booking>, b: Booking)
    ensures WindowOf(fetched, b).start == b.checkOut
    ensures WindowOf(fetched, b).end.None? <==> forall c :: c in fetched ==> !IsNextCandidate(c, b.apartment, b.checkOut)
    ensures WindowOf(fetched, b).end.Some? ==>
      exists i :: 0 <= i < |fetched| && WindowOf(fetched, b).end.value == fetched[i].checkIn
        && IsNextCandidate(fetched[i], b.apartment, b.checkOut)
        && forall m :: 0 <= m < i ==> !IsNextCandidate(fetched[m], b.apartment, b.checkOut)
    ensures WindowOf(fetched, b).end.Some? ==> WindowOf(fetched, b).end.value > WindowOf(fetched, b).start
  {
    NextCheckInIsFirst(fetched, b.apartment, b.checkOut);
  }

  /**
   * The next booking is chosen by position, not by smallest check-in; the two
   * agree when the bookings come in check-out order within each apartment, do
   * not overlap, and every stay has positive length.
   */
  lemma NextBookingIsEarliest(fetched: seq<Booking>, b: Booking)
    requires OrderedByCheckOut(fetched) && ApartmentsDisjoint(fetched) && PositiveStays(fetched)
    requires WindowOf(fetched, b).end.Some?
    ensures forall c :: c in fetched && IsNextCandidate(c, b.apartment, b.checkOut) ==>
      WindowOf(fetched, b).end.value <= c.checkIn
  {
    WindowShape(fetched, b);
    var i :| 0 <= i < |fetched| && WindowOf(fetched, b).end.value == fetched[i].checkIn
      && IsNextCandidate(fetched[i], b.apartment, b.checkOut)
      && forall m :: 0 <= m < i ==> !IsNextCandidate(fetched[m], b.apartment, b.checkOut);
    forall c | c in fetched && IsNextCandidate(c, b.apartment, b.checkOut)
      ensures fetched[i].checkIn <= c.checkIn
    {
      var j :| 0 <= j < |fetched| && fetched[j] == c;
      if j != i {
        assert i < j;
        assert fetched[i].checkOut <= c.checkOut;
        assert !Occupies(fetched[i], c);
        assert fetched[i] in fetched;
      }
    }
  }

  /** The ids of the first `k` bookings. */
  function IdsUpTo(bookings: seq<Booking>, k: nat): set<BookingId>
    requires k <= |bookings|
  {
    set i | 0 <= i < k :: bookings[i].id
  }

  /**
   * The table after the window pass has handled the first `k` fetched bookings:
   * one row per handled booking, holding its window and the cleaning date it
   * had before (NULL for a new row); no other row changes.
   */
  ghost predicate WindowsWrittenUpTo(fetched: seq<Booking>, k: nat, before: Table, after: Table)
    requires k <= |fetched|
  {
    && after.Keys == before.Keys + IdsUpTo(fetched, k)
    && (forall i :: 0 <= i < k ==>
          after[fetched[i].id] == ScheduleRow(WindowOf(fetched, fetched[i]), StoredDate(before, fetched[i].id)))
    && (forall id :: id in before && id !in IdsUpTo(fetched, k) ==> after[id] == before[id])
  }

  /** The table after the whole window pass. */
  ghost predicate WindowsWritten(fetched: seq<Booking>, before: Table, after: Table)
  {
    WindowsWrittenUpTo(fetched, |fetched|, before, after)
  }

  /** One `update_or_create` keeps the pass's invariant. */
  lemma WriteWindowStep(fetched: seq<Booking>, k: nat, before: Table, current: Table, next: Table)
    requires UniqueIds(fetched) && k < |fetched|
    requires WindowsWrittenUpTo(fetched, k, before, current)
    requires next == current[fetched[k].id := ScheduleRow(WindowOf(fetched, fetched[k]), StoredDate(current, fetched[k].id))]
    ensures WindowsWrittenUpTo(fetched, k + 1, before, next)
  {
    var id := fetched[k].id;
    var done, done' := IdsUpTo(fetched, k), IdsUpTo(fetched, k + 1);
    assert done' == done + {id};
    assert id !in done by {
      forall i | 0 <= i < k ensures fetched[i].id != id { }
    }
    assert next.Keys == before.Keys + done';
    forall i | 0 <= i < k + 1
      ensures next[fetched[i].id] == ScheduleRow(WindowOf(fetched, fetched[i]), StoredDate(before, fetched[i].id))
    {
      if i < k {
        assert fetched[i].id != id;
      }
    }
    forall other | other in before && other !in done' ensures next[other] == before[other] {
      assert other != id && other !in done;
    }
  }

  /** The inner search of the window pass: the first booking of the same apartment that checks in after `booking` checks out. */
  method FindNextBooking(fetched: seq<Booking>, booking: Booking) returns (next: Option<Booking>)
    ensures next.None? ==> NextCheckIn(fetched, booking.apartment, booking.checkOut) == None
    ensures next.Some? ==> NextCheckIn(fetched, booking.apartment, booking.checkOut) == Some(next.value.checkIn)
    ensures next.Some? ==> next.value in fetched && IsNextCandidate(next.value, booking.apartment, booking.checkOut)
  {
    next := None;
    var j := 0;
    while j < |fetched|
      invariant 0 <= j <= |fetched|
      invariant next.None?
      invariant NextCheckIn(fetched, booking.apartment, booking.checkOut)
        == NextCheckIn(fetched[j..], booking.apartment, booking.checkOut)
    {
      var candidate := fetched[j];
      if candidate.apartment == booking.apartment && candidate.checkIn > booking.checkOut {
        next := Some(candidate);
        break;
      }
      assert fetched[j..][1..] == fetched[j + 1..];
      j := j + 1;
    }
  }

  /**
   * The window pass: for each fetched booking in query order, find the next
   * booking and `update_or_create` its row. Booking ids are primary keys, so
   * the fetched ids are distinct.
   */
  method CalculateCleaningWindows(fetched: seq<Booking>, table: Table) returns (updated: Table)
    requires UniqueIds(fetched)
    ensures WindowsWritten(fetched, table, updated)
    ensures WindowsWellFormed(table) ==> WindowsWellFormed(updated)
  {
    updated := table;
    for k := 0 to |fetched|
      invariant WindowsWrittenUpTo(fetched, k, table, updated)
      invariant WindowsWellFormed(table) ==> WindowsWellFormed(updated)
    {
      var booking := fetched[k];
      var next := FindNextBooking(fetched, booking);
      var windowEnd := if next.Some? then Some(next.value.checkIn) else None;
      var window := Window(booking.checkOut, windowEnd);
      assert window == WindowOf(fetched, booking);

      // update_or_create: keep the stored cleaning date of an existing row
      var date := if booking.id in updated then updated[booking.id].cleaningDate else None;
      WriteWindowStep(fetched, k, table, updated, updated[booking.id := ScheduleRow(window, date)]);
      updated := updated[booking.id := ScheduleRow(window, date)];
    }
  }

  /** Re-running the window pass on its own output changes nothing: rows are overwritten, never added twice. */
  lemma RerunKeepsWindows(fetched: seq<Booking>, t0: Table, t1: Table, t2: Table)
    requires WindowsWritten(fetched, t0, t1) && WindowsWritten(fetched, t1, t2)
    ensures t2 == t1
  {
    forall id | id in t1 ensures t2[id] == t1[id]
    {
      if id in IdsUpTo(fetched, |fetched|) {
        var i :| 0 <= i < |fetched| && fetched[i].id == id;
        assert StoredDate(t1, id) == t1[id].cleaningDate;
      }
    }
  }

  /**
   * A stay that checks in at the very instant the previous one checks out
   * never closes the previous window, because the next stay must check in
   * strictly later. Whatever else is fetched, the window stays open-ended
   * unless some stay of the apartment checks in after that instant.
   */
  lemma {:induction false} BackToBackStayDoesNotCloseWindow(fetched: seq<Booking>, a: Booking, b: Booking)
    requires a.apartment == b.apartment && b.checkIn == a.checkOut
    ensures WindowOf(fetched, a).end != Some(b.checkIn)
    ensures (forall c :: c in fetched && c.apartment == a.apartment ==> c.checkIn <= b.checkIn)
      ==> WindowOf(fetched, a).end == None
  {
    NextCheckInIsFirst(fetched, a.apartment, a.checkOut);
  }
}
