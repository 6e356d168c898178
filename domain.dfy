/**
 * The records the scheduler reads and writes: bookings, cleaning windows and
 * the rows of the cleaning-schedule table, together with the invariants the
 * rest of the model relies on.
 */
module Domain {
  import opened Wrappers

  /** An instant, as microseconds since the Unix epoch (UTC). */
  type Time = int
  type BookingId = int
  type ApartmentId = int

  const MicrosPerDay: int := 86_400_000_000
  /** `datetime.max`, 9999-12-31 23:59:59.999999, as a Time. */
  const MaxTime: Time := 253_402_300_799_999_999
  /** `timedelta(days=30)`. */
  const RangeMargin: int := 30 * MicrosPerDay

  datatype Booking = Booking(id: BookingId, apartment: ApartmentId, checkIn: Time, checkOut: Time)

  /** A cleaning window; `end == None` is the open-ended window (a NULL `window_end`). */
  datatype Window = Window(start: Time, end: Option<Time>)

  /** One row of the cleaning-schedule table. */
  datatype ScheduleRow = ScheduleRow(window: Window, cleaningDate: Option<Time>)

  /** The cleaning-schedule table, keyed by booking id. */
  type Table = map<BookingId, ScheduleRow>

  /** The stored cleaning date of a booking; a missing row reads as NULL. */
  function StoredDate(table: Table, id: BookingId): Option<Time>
  {
    if id in table then table[id].cleaningDate else None
  }

  function IdsOf(bookings: seq<Booking>): set<BookingId>
  {
    set i | 0 <= i < |bookings| :: bookings[i].id
  }

  /** Booking ids are primary keys. */
  predicate UniqueIds(bookings: seq<Booking>)
  {
    forall i, j :: 0 <= i < j < |bookings| ==> bookings[i].id != bookings[j].id
  }

  /** Two bookings occupy the apartment at a common instant (half-open test). */
  predicate Occupies(a: Booking, b: Booking)
  {
    a.checkIn < b.checkOut && b.checkIn < a.checkOut
  }

  /** No two bookings of the same apartment overlap. */
  predicate ApartmentsDisjoint(bookings: seq<Booking>)
  {
    forall i, j ::
      0 <= i < |bookings| && 0 <= j < |bookings| && i != j && bookings[i].apartment == bookings[j].apartment
      ==> !Occupies(bookings[i], bookings[j])
  }

  /** Within an apartment the bookings come in check-out order (the `order_by` of the query). */
  predicate OrderedByCheckOut(bookings: seq<Booking>)
  {
    forall i, j ::
      0 <= i < j < |bookings| && bookings[i].apartment == bookings[j].apartment
      ==> bookings[i].checkOut <= bookings[j].checkOut
  }

  /** Every booking checks in strictly before it checks out. */
  predicate PositiveStays(bookings: seq<Booking>)
  {
    forall b :: b in bookings ==> b.checkIn < b.checkOut
  }

  /** A bounded window ends strictly after it starts (so it is never an empty interval). */
  predicate WindowWellFormed(w: Window)
  {
    w.end.Some? ==> w.start < w.end.value
  }

  predicate WindowsWellFormed(table: Table)
  {
    forall id :: id in table ==> WindowWellFormed(table[id].window)
  }

  /** A set of ids that is not empty has a member to pick (used where rows are visited in no particular order). */
  lemma EmptyOrMember(ids: set<BookingId>)
    ensures ids == {} || exists id :: id in ids
  {
    if forall id :: id !in ids {
      assert ids == {};
    }
  }
}
