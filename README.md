# Cleaning scheduler: a Dafny model of the scheduling pipeline

The cleaning scheduler keeps a cleaning-schedule table with one row per
booking. Each row holds the booking's cleaning window and its cleaning date.
After new bookings arrive, `update_cleaning_schedule` recomputes the table in
four steps:

1. **Windows.** Every booking of the owner that reaches into the range of
   interest gets a window. It runs from the booking's check-out to the
   check-in of the next booking of the same apartment, or it is open-ended.
2. **Overlaps.** The bounded windows in the range go into an interval tree.
   For each window, the windows that overlap it are collected. When there are
   two or more of them (the window itself included), the group
   `(sorted ids, latest begin, earliest end)` is recorded.
3. **Dates.** A booking in no group is cleaned at the end of its window, or at
   its start when the window is open. A booking in some group is cleaned at the
   earliest start among its groups.
4. **Write-back.** Only the dates that differ from the stored ones are
   written.

A separate guard, `validate_booking_dates`, decides whether a proposed stay
may be booked at all.

The model works on values:

- Time is an integer count of microseconds since the Unix epoch.
- The bookings an ORM query returns are a sequence, in query order.
- The cleaning-schedule table is a `map` from booking id to row.
- Each step that loops in the source is a method with its loop. It is proved
  against a specification predicate or function, and the properties of that
  specification are proved as lemmas.
- The database iterates rows in no fixed order. The methods therefore pick
  rows nondeterministically, and the results are proved not to depend on the
  order.

Modules, one per step:

- `Domain`: entities and invariants.
- `Validation`
- `CleaningWindows`
- `Sorting`: Python's `sorted` on ids.
- `Overlaps`
- `Assignment`
- `Schedule`: the driver and the write-back.

### Readings of the source

- **Open windows never reach the tree.** The window query at
  `cleaning_scheduler/cleaning_scheduler/utils.py:103-106` is an SQL
  comparison, and `NULL >= x` is never true. An open-ended window therefore
  never passes the range filter, and the `datetime.max` substitution at line
  116 is never used. `Overlaps.InRange` states this reading.
  `Overlaps.EffectiveEnd` still maps an open end to `datetime.max`, so the
  model shows where that substitution sits.
- **The next booking is the first candidate in query order.** It is not the
  candidate with the smallest check-in. `CleaningWindows.NextBookingIsEarliest`
  proves the two agree under three conditions:
  - the bookings of an apartment come in check-out order;
  - they do not overlap;
  - every stay has positive length.

  `Validation.AcceptedBookingKeepsApartmentsDisjoint` shows that the
  validation guard maintains the second condition. It does not maintain the
  third: the guard `end >= start` accepts a stay of zero length.
  `Validation.ZeroLengthStaySplitsFirstFromEarliest` exhibits such an accepted
  stay, [8, 8), listed before a stay [5, 8) of the same apartment; the earlier
  window then ends at 8 although a stay checks in at 5.
- **A stay that checks in at the instant the previous one checks out does not
  close the previous window.** The test for the next booking is strict
  (`check_in > check_out`), so such a stay is never the next booking
  (`CleaningWindows.BackToBackStayDoesNotCloseWindow`). The previous window ends
  at the check-in of a later stay of the apartment if one is fetched, and is
  open-ended otherwise. Only contact at the same instant has this effect: a
  check-in later on the day of a check-out does close the window.

### Consequences of the code

- **Two stays in contact, a third stay elsewhere.** Apartment X has stays
  A = [Jan 1, Jan 5] and B = [Jan 5, Jan 10]; apartment Y has stay
  C = [Jan 1, Jan 5]. B checks in at Jan 5, which is not later than A's
  check-out, so A's window is open-ended, as are B's and C's. No window
  reaches the tree and no group forms. Each booking is cleaned at its own
  window start: A on Jan 5, B on Jan 10, C on Jan 5.
- **A group may end before it starts.** The code does not guarantee
  `overlap_start < overlap_end`. Take the chain [0,10), [5,20), [15,30). The
  group found from the middle window is `([1,2,3], 15, 10)`
  (`Overlaps.ChainedGroupEndsBeforeItStarts`). The code only guarantees weaker
  bounds, proved by `Overlaps.GroupBounds`: the start lies in
  `[I.begin, I.end)` and the end in `(I.begin, I.end]` of the interval it was
  found from.
- **Assigned dates stay inside the window.** The assignment never compares a
  group's start with the booking's window end. Even so, a booking in a group
  never gets a date outside its own window when the groups come from the same
  table as the windows, as they do in the driver.
  `Assignment.AssignedDateWithinWindow` proves three bounds:
  - the date is never before the window start;
  - it never passes a bounded end;
  - for a booking in a group it is strictly before the end.

## Model

| member | source | states |
|---|---|---|
| `Validation.DayOf` | cleaning_scheduler/cleaning_scheduler/utils.py:10 | `.date()`: the day of an instant is the whole day, counted from the epoch, that contains it |
| `Validation.ConflictingBookings` | cleaning_scheduler/cleaning_scheduler/utils.py:18 | a booking is returned exactly when it is one of the existing bookings, of the same apartment, with `check_in < end` and `check_out > start` |
| `Validation.ValidateBookingDates` | cleaning_scheduler/cleaning_scheduler/utils.py:8-22 | accepts exactly when all three hold: the start day is not before today, `end >= start`, and no existing booking of the apartment conflicts; otherwise returns the first failed guard's error, in source order, each as an if-and-only-if on its condition |
| `Validation.AcceptedBookingKeepsApartmentsDisjoint` | cleaning_scheduler/cleaning_scheduler/utils.py:17-20 | adding an accepted booking to pairwise-disjoint bookings keeps every apartment's bookings pairwise disjoint |
| `Validation.ZeroLengthStaySplitsFirstFromEarliest` | cleaning_scheduler/cleaning_scheduler/utils.py:14-22 | the guards accept a zero-length stay, and with it in check-out order among disjoint stays the first candidate's check-in exceeds another candidate's |
| `CleaningWindows.FetchBookings` | cleaning_scheduler/cleaning_scheduler/utils.py:60-64 | the window query: no more bookings than the owner has, each with `check_out >= lo` and `check_in <= hi` |
| `CleaningWindows.FetchMembership` | cleaning_scheduler/cleaning_scheduler/utils.py:60-64 | the window query returns exactly the owner's bookings with `check_out >= lo` and `check_in <= hi` |
| `CleaningWindows.FetchIsSubsequence` | cleaning_scheduler/cleaning_scheduler/utils.py:60-64 | the fetched bookings keep their relative order from the owner's ordered bookings |
| `CleaningWindows.FetchKeepsInvariants` | cleaning_scheduler/cleaning_scheduler/utils.py:60-64 | distinct ids, check-out order, disjointness and positive stays pass from the owner's bookings to the fetched ones |
| `CleaningWindows.NextCheckIn` | cleaning_scheduler/cleaning_scheduler/utils.py:74-78 | a found next check-in is strictly later than the check-out searched from |
| `CleaningWindows.WindowOf` | cleaning_scheduler/cleaning_scheduler/utils.py:70-85 | the window starts at the booking's check-out and, when bounded, ends strictly after it starts |
| `CleaningWindows.NextCheckInIsFirst` | cleaning_scheduler/cleaning_scheduler/utils.py:75-78 | no next booking exactly when no booking of the apartment checks in later; otherwise the result is the check-in of a candidate preceded by no other candidate |
| `CleaningWindows.WindowShape` | cleaning_scheduler/cleaning_scheduler/utils.py:71-85 | a window starts at check-out; it is open exactly when no booking of the apartment checks in later, and otherwise ends at the check-in of the first such booking in query order, strictly after its start |
| `CleaningWindows.NextBookingIsEarliest` | cleaning_scheduler/cleaning_scheduler/utils.py:75-78 | with check-out order, disjoint stays and positive stays, the first candidate has the earliest check-in of all candidates |
| `CleaningWindows.WriteWindowStep` | cleaning_scheduler/cleaning_scheduler/utils.py:88-94 | one `update_or_create` adds or overwrites exactly the booking's row, keeps its stored date, and leaves every other row alone |
| `CleaningWindows.FindNextBooking` | cleaning_scheduler/cleaning_scheduler/utils.py:74-78 | the inner loop with its `break` finds the first same-apartment booking that checks in later, or none when `NextCheckIn` finds none |
| `CleaningWindows.CalculateCleaningWindows` | cleaning_scheduler/cleaning_scheduler/utils.py:56-96 | afterwards the table has one row per fetched booking holding its window and any previously stored date; rows of other bookings are unchanged; well-formed windows stay well-formed |
| `CleaningWindows.RerunKeepsWindows` | cleaning_scheduler/cleaning_scheduler/utils.py:88-94 | running the window pass again on its own output changes nothing: rows are overwritten, never duplicated |
| `CleaningWindows.BackToBackStayDoesNotCloseWindow` | cleaning_scheduler/cleaning_scheduler/utils.py:74-85 | a stay that checks in at the instant the previous stay checks out never ends the previous window; that window is open-ended when no other stay of the apartment checks in later |
| `Sorting.Insert` | cleaning_scheduler/cleaning_scheduler/utils.py:127 | insertion adds exactly the inserted element to the multiset |
| `Sorting.InsertSorted` | cleaning_scheduler/cleaning_scheduler/utils.py:127 | inserting into an ordered sequence keeps it ordered, strictly so for a new element of a strictly ordered one |
| `Sorting.SortIds` | cleaning_scheduler/cleaning_scheduler/utils.py:127 | `sorted` returns an ordered permutation of its input, strictly increasing when the ids are distinct |
| `Sorting.StrictlySortedUnique` | cleaning_scheduler/cleaning_scheduler/utils.py:127 | two strictly increasing sequences with the same members are equal |
| `Sorting.SortIdsKeepsStrictlySorted` | cleaning_scheduler/cleaning_scheduler/utils.py:127 | sorting a strictly increasing sequence returns it unchanged |
| `Overlaps.Overlaps` | cleaning_scheduler/cleaning_scheduler/utils.py:125 | intervaltree's half-open test: two non-empty intervals overlap exactly when the later of their begins lies in both |
| `Overlaps.EffectiveEnd` | cleaning_scheduler/cleaning_scheduler/utils.py:116 | an open window end becomes `datetime.max`, and a well-formed window starting before it yields a non-empty interval |
| `Overlaps.InRange` | cleaning_scheduler/cleaning_scheduler/utils.py:103-106 | the range query under SQL NULL semantics: an open-ended window never passes, and a passing window starts by `hi` and ends no earlier than `lo` |
| `Overlaps.BuildIntervalTree` | cleaning_scheduler/cleaning_scheduler/utils.py:103-117 | the tree holds exactly the intervals of the rows that pass the range query, one per booking id, none empty |
| `Overlaps.OverlappingIn` | cleaning_scheduler/cleaning_scheduler/utils.py:125 | the comprehension keeps, in tree order, only intervals that overlap the given one, and no more than the tree holds |
| `Overlaps.OverlappingMembership` | cleaning_scheduler/cleaning_scheduler/utils.py:125 | the list comprehension keeps exactly the tree's intervals that overlap the given one |
| `Overlaps.OverlappingKeepsDistinctIds` | cleaning_scheduler/cleaning_scheduler/utils.py:125 | the overlapping intervals carry distinct booking ids |
| `Overlaps.MaxBegin` | cleaning_scheduler/cleaning_scheduler/utils.py:129 | the result is a begin of the list and no begin exceeds it |
| `Overlaps.MinEnd` | cleaning_scheduler/cleaning_scheduler/utils.py:130 | the result is an end of the list and no end is below it |
| `Overlaps.GroupFrom` | cleaning_scheduler/cleaning_scheduler/utils.py:127-131 | the recorded tuple names one id per overlapping interval; its start is no earlier than any begin and its end no later than any end |
| `Overlaps.GroupOf` | cleaning_scheduler/cleaning_scheduler/utils.py:126-131 | the tuple recorded for an interval with more than one overlapping interval names at least two ids |
| `Overlaps.GroupsAmongStep` | cleaning_scheduler/cleaning_scheduler/utils.py:124-131 | visiting one more interval adds its group when more than one interval overlaps it, and nothing otherwise |
| `Overlaps.CollectOverlaps` | cleaning_scheduler/cleaning_scheduler/utils.py:121-131 | after the loop the set holds exactly the groups found from the tree's intervals |
| `Overlaps.ListOf` | cleaning_scheduler/cleaning_scheduler/utils.py:138 | `list(overlaps)` holds exactly the set's groups, none twice |
| `Overlaps.Enumerate` | cleaning_scheduler/cleaning_scheduler/utils.py:124 | some duplicate-free listing of the tree's intervals, standing for the tree's own order |
| `Overlaps.TreeIdsAreKeys` | cleaning_scheduler/cleaning_scheduler/utils.py:112-117 | each interval in the tree comes from the row of its own booking id, and no id appears twice |
| `Overlaps.MoreThanOneAgrees` | cleaning_scheduler/cleaning_scheduler/utils.py:126 | the `len > 1` test gives the same answer for any duplicate-free listing of the same intervals |
| `Overlaps.IdsOfIntervalsMembership` | cleaning_scheduler/cleaning_scheduler/utils.py:127 | the sorted ids are exactly the ids of the intervals, one per interval, strictly increasing when the ids are distinct |
| `Overlaps.SameElementsSameGroup` | cleaning_scheduler/cleaning_scheduler/utils.py:127-131 | the recorded tuple depends only on which intervals overlap, not on their order |
| `Overlaps.GroupsSameElements` | cleaning_scheduler/cleaning_scheduler/utils.py:124-131 | any iteration order of the tree records the same set of groups |
| `Overlaps.FindCleaningOverlaps` | cleaning_scheduler/cleaning_scheduler/utils.py:98-138 | the returned list holds exactly the groups detected from the table's windows in the range, and no tuple twice |
| `Overlaps.GroupIds` | cleaning_scheduler/cleaning_scheduler/utils.py:127 | the ids of the group found from `I` are exactly those of the intervals overlapping `I` |
| `Overlaps.GroupStart` | cleaning_scheduler/cleaning_scheduler/utils.py:129 | the group's start is the latest begin among the intervals overlapping `I` |
| `Overlaps.GroupEnd` | cleaning_scheduler/cleaning_scheduler/utils.py:130 | the group's end is the earliest end among the intervals overlapping `I` |
| `Overlaps.GroupBounds` | cleaning_scheduler/cleaning_scheduler/utils.py:124-130 | the group found from `I` names exactly the bookings of the intervals overlapping `I`; its start is their latest begin and its end their earliest end, both attained; the start lies in `[I.begin, I.end)` and the end in `(I.begin, I.end]` |
| `Overlaps.GroupsWellFormed` | cleaning_scheduler/cleaning_scheduler/utils.py:126-131 | every recorded group names at least two bookings, in strictly increasing order |
| `Overlaps.OverlapIsDetected` | cleaning_scheduler/cleaning_scheduler/utils.py:124-131 | two different overlapping intervals of the tree are both named by a recorded group |
| `Overlaps.MemberOfGroup` | cleaning_scheduler/cleaning_scheduler/utils.py:124-131 | a group naming a booking starts no earlier than that booking's interval begins, and that interval has a group of its own |
| `Overlaps.GroupStartsOfMember` | cleaning_scheduler/cleaning_scheduler/utils.py:124-131 | every group naming a booking starts no earlier than its interval begins, and the group found from its own interval starts before that interval ends |
| `Overlaps.ChainedGroupEndsBeforeItStarts` | cleaning_scheduler/cleaning_scheduler/utils.py:129-130 | for the chain [0,10), [5,20), [15,30) the group found from the middle interval is `([1,2,3], 15, 10)`: its end precedes its start |
| `Overlaps.CanonicalTreeFacts` | cleaning_scheduler/cleaning_scheduler/utils.py:103-117 | the listed tree holds exactly the intervals of the rows in range, one per booking, none empty |
| `Overlaps.MemberHasInterval` | cleaning_scheduler/cleaning_scheduler/utils.py:127 | every id a group names is the id of an interval in the tree |
| `Overlaps.DetectedGroupsWellFormed` | cleaning_scheduler/cleaning_scheduler/utils.py:121-138 | every returned group names at least two bookings, in strictly increasing order |
| `Overlaps.DetectionComplete` | cleaning_scheduler/cleaning_scheduler/utils.py:103-131 | two different bookings whose windows pass the range query and overlap are named together by some returned group |
| `Overlaps.DetectedStartsOfMember` | cleaning_scheduler/cleaning_scheduler/utils.py:124-131 | a booking some returned group names has its window in range; every group naming it starts no earlier than its window, and one starts before its window ends |
| `Assignment.InSomeGroup` | cleaning_scheduler/cleaning_scheduler/utils.py:156 | the `any(...)` test holds exactly when some group of the list names the booking |
| `Assignment.StartsOfGroupsWith` | cleaning_scheduler/cleaning_scheduler/utils.py:161 | the comprehension yields at most one start per group |
| `Assignment.StartsOfGroupsWithMembership` | cleaning_scheduler/cleaning_scheduler/utils.py:161 | the collected starts are exactly the starts of the groups naming the booking |
| `Assignment.StartsNonEmpty` | cleaning_scheduler/cleaning_scheduler/utils.py:156-162 | a booking some group names has a start to take the minimum of, so the `else None` branch is never taken |
| `Assignment.Min` | cleaning_scheduler/cleaning_scheduler/utils.py:162 | the result is an element of the list and no element is below it |
| `Assignment.UngroupedFollowsRule` | cleaning_scheduler/cleaning_scheduler/utils.py:156-157 | a booking in no group follows the rule with its window end, or its start when the end is open |
| `Assignment.GroupedFollowsRule` | cleaning_scheduler/cleaning_scheduler/utils.py:159-163 | the minimum start over the groups naming the booking is such a start and undercuts every other one |
| `Assignment.FollowsRuleUnique` | cleaning_scheduler/cleaning_scheduler/utils.py:153-163 | at most one date follows the rule for a booking |
| `Assignment.AssignCleaningDates` | cleaning_scheduler/cleaning_scheduler/utils.py:140-171 | exactly the table's bookings get a date, and each date follows the rule for the given groups |
| `Assignment.AssignedDateWithinWindow` | cleaning_scheduler/cleaning_scheduler/utils.py:146-163 | with groups detected on the same table, a date is never before its window start and never past a bounded end, and it is strictly before the end when the booking is in a group |
| `Schedule.EarliestCheckIn` | cleaning_scheduler/cleaning_scheduler/utils.py:27 | the result is a check-in of the new bookings and none is earlier |
| `Schedule.LatestCheckOut` | cleaning_scheduler/cleaning_scheduler/utils.py:28 | the result is a check-out of the new bookings and none is later |
| `Schedule.SchedulingRange` | cleaning_scheduler/cleaning_scheduler/utils.py:27-28 | the range leaves thirty days before every new check-in and after every new check-out |
| `Schedule.RangeCoversNewBookings` | cleaning_scheduler/cleaning_scheduler/utils.py:27-28 | the range keeps thirty days on either side of every new booking and is the narrowest such range; every new booking passes the window query |
| `Schedule.ReconcileStep` | cleaning_scheduler/cleaning_scheduler/utils.py:50-53 | one iteration of the write loop updates exactly a changed row and keeps the invariant |
| `Schedule.Reconcile` | cleaning_scheduler/cleaning_scheduler/utils.py:42-53 | written ids are exactly those whose stored date differs (a missing row or NULL date counts as different); they take the new date, every other row stays as it was |
| `Schedule.ReconcileIsIdempotent` | cleaning_scheduler/cleaning_scheduler/utils.py:42-53 | writing the same dates a second time writes nothing and changes nothing |
| `Schedule.SameWindowsSameGroups` | cleaning_scheduler/cleaning_scheduler/utils.py:103-117 | tables with the same rows and windows give the same tree and the same groups, whatever their dates |
| `Schedule.WindowsSurviveWriteBack` | cleaning_scheduler/cleaning_scheduler/utils.py:31-53 | the write-back keeps the windows of the window pass and leaves every row with its assigned date |
| `Schedule.DatesFromAssignment` | cleaning_scheduler/cleaning_scheduler/utils.py:34-37 | dates assigned from the groups detected on the rebuilt windows follow the rule on the final table |
| `Schedule.UpdateCleaningSchedule` | cleaning_scheduler/cleaning_scheduler/utils.py:24-53 | afterwards the fetched bookings have their windows and other rows keep theirs; every row has a date following the rule for the groups of the final table; the written rows are exactly those whose date changed; windows stay well-formed |
| `Schedule.DatesDeterminedByWindows` | cleaning_scheduler/cleaning_scheduler/utils.py:140-163 | two tables with the same rows and windows whose dates both follow the rule are equal |
| `Schedule.RebuildsAgree` | cleaning_scheduler/cleaning_scheduler/utils.py:56-94 | two window passes over the same fetched bookings agree wherever their starting tables agree |
| `Schedule.PassIsDeterministic` | cleaning_scheduler/cleaning_scheduler/utils.py:24-53 | the outcome of a pass does not depend on the order in which rows and groups are visited |
| `Schedule.SecondPassWritesNothing` | cleaning_scheduler/cleaning_scheduler/utils.py:24-53 | a second pass over the same bookings, run on the result of the first, writes nothing and changes nothing |

## Left out

- The ORM and the database. Queries are modelled by their filters over given sequences and maps. Transactions, concurrency between passes, and the generated SQL are not modelled.
- Owner scoping: the owner's bookings are passed in as `owned`, in the query's `(apartment, check_out)` order. The apartment-to-owner relation is not modelled.
- `assign_cleaning_dates` reads the whole table with `CleaningSchedule.objects.all()`, regardless of owner. The model keeps that: every row of the table gets a date, and rows of other owners can be re-dated. Splitting the table by owner is not modelled.
- `window_start` is modelled as never NULL. Only the window pass creates rows, and it always sets the start. The `else start` path of the assignment (line 157) therefore never sees a NULL.
- The `datetime.max` substitution (line 116) is modelled by `Overlaps.EffectiveEnd`, but under the SQL reading of the range query it is never reached.
- The interval tree itself is not modelled. It is replaced by a duplicate-free sequence of `(begin, end, id)` triples and its half-open overlap test. The tree's refusal of empty or inverted intervals is represented by the precondition that windows are well formed. The pass maintains this, as `CalculateCleaningWindows` proves.
- `datetime.now()` becomes the `today` parameter of `Validation.ValidateBookingDates`. Time zones, naive versus aware datetimes and calendar arithmetic are not modelled. A day is `t / 86400000000` microseconds from the epoch, and `timedelta(days=30)` is a fixed offset.
- The message strings of `validate_booking_dates` are modelled as the three constructors of `Validation.BookingError`. The overlap error keeps the start and end it reports.
- The driver, `Schedule.UpdateCleaningSchedule`, requires at least one new booking, because `min()` on an empty sequence raises in the source. The raise is not modelled.
- The model keeps at most one schedule row per booking: the table is a map keyed by booking id. The schema does not enforce this, since `CleaningSchedule.booking` is a plain foreign key. A sequential run keeps it, because rows are created only through `update_or_create` keyed by booking id. Duplicate rows (from concurrent passes or edits outside the pass) are not modelled, nor is the `MultipleObjectsReturned` that `update_or_create` raises on them, nor the arbitrary row the dictionary comprehensions keep, nor a tree holding two intervals with the same id. So "one window per booking" holds by the table's type, and what is proved is that the pass writes exactly one row for each fetched booking and touches no other.
- The window pass, `CleaningWindows.CalculateCleaningWindows`, requires the fetched booking ids to be distinct. They are primary keys.
- Logging (every `logger` call), HTTP views and templates, ICS ingestion, forms, the admin, URL routing and migrations are not part of this model.
