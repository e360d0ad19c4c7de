# Timeline entry scheduling rules

A model of the teacher timeline of a tutoring platform.  A timeline
*entry* is one booking on one teacher's calendar, made from a bookable
lesson (an ordinary lesson, a master class) that supplies the duration, the
number of seats and, for host-bound events, the hosting teacher.  Before an
entry is stored it must pass, in this order:

1. **host**: a lesson with a host may only be put on its host's timeline;
2. **capacity**: no more attending customers than seats;
3. **overlap** (skipped when the entry allows overlap): no other active
   entry of the same teacher meets its half-open interval; the entry's own
   stored row is excluded, so saving it again never conflicts with itself;
4. **working hours** (skipped when the entry allows being outside working
   hours): split at every midnight, each day's part lies inside a single
   working-hours record of that weekday.

A rejected save or customer addition leaves the table unchanged.  The
default listing shows active entries only.

Modules, one file each:

- `wrappers.dfy` (`Wrappers`): `Option` and `Result`.
- `calendar.dfy` (`Calendar`): weekdays, clock times, working-hours
  records, splitting a lesson into per-day segments, and the fit check.
- `entries.dfy` (`Entries`): entries and lessons, capacity, the host rule,
  the half-open overlap test, and `Validate`, the save pipeline as a
  function.
- `timeline_store.dfy` (`TimelineStore`): the class `Timeline`, whose
  `Save`, `AddCustomer` and `AddWorkingHours` update the table in place.
- `entry_test_case.dfy` (`EntryTestCase`) and `slot_available_test.dfy`
  (`SlotAvailableTest`): the behaviour the unit tests fix, each test as a
  method on a fresh `Timeline` (where the test saves or loops) or as a
  lemma (where it only asks a question).

Representation choices:

- Instants are whole minutes since Monday 2015-12-28 00:00 in the
  teacher's local time.  The working-hours check sees only the weekday and
  clock time of each end (`Entries.ToMoment`).
- Clock times run from 00:00 to 23:59.  A day part that runs up to midnight
  ends at 23:59, so a record ending 23:59 holds it.  A lesson ending exactly
  at 00:00 after passing a midnight does not touch the day it ends on.
- A lesson's days are counted forward from the start weekday to the end
  weekday.  An end on the start's weekday at an earlier clock time is read
  as a wrap around the whole week.
- Customers are a set, so adding a customer twice counts once.

The modelled behaviour of `Entry` is the one the unit tests in
timeline/tests_unit.py fix.

## Model

| member | source | states |
|---|---|---|
| `Calendar.Walk` | timeline/tests_unit.py:208-231 | walking forward `days` midnights from a weekday gives `days + 1` day parts; part i is on the i-th weekday after the start; every part but the first starts 00:00, every part but the last ends 23:59; each part is a forward range |
| `Calendar.Segments` | timeline/tests_unit.py:208-231 | one part per calendar day the lesson touches: the first starts at the lesson's start; part i lies on the i-th weekday after the start's; inner boundaries are 23:59 / 00:00; the last ends at the lesson's end on its weekday, or at 23:59 of the day before when the lesson ends exactly at midnight |
| `Calendar.Midnights` | timeline/tests_unit.py:217-231 | the number of midnights passed is at most 7, is 0 exactly for a same-day forward range, and lands on the end's weekday |
| `Calendar.FitsWorkingHours` | timeline/tests_unit.py:194-243 | a fitting lesson has a record of its start's weekday beginning no later than its start, and, unless it ends exactly at midnight, a record of its end's weekday ending no earlier than its end |
| `Calendar.SingleDayFit` | timeline/tests_unit.py:194-206 | a one-day lesson fits iff one record of the teacher on that weekday starts no later and ends no earlier (end equal to the record's end fits) |
| `Calendar.OvernightFit` | timeline/tests_unit.py:208-231 | a lesson passing one midnight fits iff a record of the first weekday covers its start up to 23:59 and a record of the next weekday covers 00:00 up to its end |
| `Calendar.NoHoursNeverFit` | timeline/tests_unit.py:238-243 | without a record of the teacher no lesson fits, whatever its times |
| `Calendar.MoreHoursStillFit` | timeline/tests_unit.py:245-260 | adding working-hours records never turns a fitting lesson into a non-fitting one |
| `Entries.ToMoment` | timeline/tests_unit.py:217-231 | an instant is its week, weekday and clock time recombined; the clock time is the minute of the day |
| `Entries.ToMomentWeekly` | timeline/tests_unit.py:217-231 | shifting an instant by whole weeks keeps its weekday and clock time, so ends in another week fit alike |
| `Entries.TakenSlots` | timeline/tests_unit.py:53-61 | taken slots are the number of distinct attending customers; none attending gives 0 |
| `Entries.AddingCustomerTakesOneSlot` | timeline/tests_unit.py:58-61 | adding a new customer takes exactly one more slot; adding one already attending takes none |
| `Entries.IsFree` | timeline/tests_unit.py:83-88 | an entry is free exactly when any customer not yet attending can be added without exceeding its slots |
| `Entries.FromLesson` | timeline/tests_unit.py:63-71 | with a lesson, end = start + duration and slots = the lesson's slots, nothing else changes; without one the entry is unchanged |
| `Entries.HostConsistent` | timeline/tests_unit.py:95-104 | broken exactly when the lesson is host-bound and its host is not the entry's teacher |
| `Entries.OverlapsIffSharedMinute` | timeline/tests_unit.py:118-132 | two non-empty half-open intervals overlap exactly when some minute lies in both, so touching intervals do not overlap |
| `Entries.EqualIntervalsOverlap` | timeline/tests_unit.py:145-160 | two entries over the same non-empty interval overlap, each way round |
| `Entries.IsOverlapping` | timeline/tests_unit.py:118-160 | an entry is blocked exactly when some row of the default listing, other than its own, of the same teacher overlaps it |
| `Entries.IgnoredRow` | timeline/tests_unit.py:32-192 | a stored row that is the entry's own (re-save), inactive (default scope) or of another teacher never changes the overlap answer |
| `Entries.OtherTeachersNeverOverlap` | timeline/tests_unit.py:134-143 | when no stored row belongs to the teacher, nothing overlaps, whatever the times |
| `Entries.Validate` | timeline/tests_unit.py:95-104 | fails with host mismatch exactly when the lesson's host differs from the teacher, whatever the flags; fails over capacity exactly when the host matches and customers exceed the lesson's slots; an overlap failure means overlap checking was on and a conflict exists; a working-hours failure means the check was on, the entry does not fit, and no overlap failure applied first; success stores the lesson-derived entry, which keeps host and capacity and, unless opted out, neither overlaps nor falls outside working hours |
| `Entries.OverridesPermit` | timeline/tests_unit.py:145-160 | with both opt-outs allowed, a save succeeds whenever the host matches and the seats suffice, even over a conflicting interval |
| `Entries.ResaveIdempotent` | timeline/tests_unit.py:176-192 | saving an entry again at the row it was just stored in succeeds with the same value: it never conflicts with itself |
| `TimelineStore.Timeline.Save` | timeline/tests_unit.py:162-192 | stores exactly what `Validate` accepts, at the given row or at a new row; on rejection returns the failure and changes nothing; the default listing gains the saved row if active and drops it if not, other rows unchanged; keeps every stored row within capacity, host-consistent and lesson-derived |
| `TimelineStore.Timeline.AddCustomer` | timeline/tests_unit.py:83-93 | succeeds exactly when `Validate` accepts the row with the customer added, and otherwise returns that failure and changes nothing; a new customer is rejected as over capacity exactly when the entry was not free, and is accepted when free and both opt-outs are allowed |
| `TimelineStore.Timeline.AddWorkingHours` | timeline/tests_unit.py:258 | appends one record and leaves the entries unchanged |
| `TimelineStore.Timeline.All` | timeline/tests_unit.py:42-44 | lists exactly the active rows, the same rows the overlap check consults |
| `EntryTestCase.AvailableSlotCountCase` | timeline/tests_unit.py:46-51 | a saved entry of a ten-seat master class has ten slots |
| `EntryTestCase.TakenSlotCountCase` | timeline/tests_unit.py:53-61 | taken slots read 0, 1, 2, 3, 4 as customers are added one by one |
| `EntryTestCase.IsFreeCase` | timeline/tests_unit.py:75-93 | a ten-seat entry is free before each of its first ten customers, not free after them, rejects the eleventh as over capacity and still holds ten |
| `EntryTestCase.AssignToDifferentTeacherCase` | timeline/tests_unit.py:95-104 | saving an entry of a lesson hosted by another teacher fails with host mismatch and stores nothing |
| `EntryTestCase.DefaultScopeCase` | timeline/tests_unit.py:32-44 | the default listing holds the active entry and not the inactive one |
| `SlotAvailableTest.OverlapCase` | timeline/tests_unit.py:118-132 | 04:00-04:30 inside the stored entry overlaps; 12:00-12:30, starting at its end, does not |
| `SlotAvailableTest.OverlappingWithDifferentTeacherCase` | timeline/tests_unit.py:134-143 | the same interval for another teacher does not overlap |
| `SlotAvailableTest.TwoEqualEntriesCase` | timeline/tests_unit.py:145-160 | an entry with the same interval as a stored one overlaps it, both with that row alone and with the big entry stored too |
| `SlotAvailableTest.CantSaveDueToOverlapCase` | timeline/tests_unit.py:162-174 | with overlap checking on, saving inside the stored entry fails with overlap and adds no row |
| `SlotAvailableTest.SaveAgainEntryThatDoesNotAllowOverlappingCase` | timeline/tests_unit.py:176-192 | a non-overlapping entry is saved, moved by a minute and saved again at the same row |
| `SlotAvailableTest.WorkingHoursCase` | timeline/tests_unit.py:194-206 | with Monday 12:00-13:00, Monday 04:00-04:30 does not fit and Monday 12:30-13:00 fits |
| `SlotAvailableTest.WorkingHoursMultidateCase` | timeline/tests_unit.py:208-231 | with Monday 23:00-23:59 and Tuesday 00:00-02:00, Monday 22:00 to Tuesday 00:30 and Monday 23:30 to Tuesday 02:30 do not fit, Monday 23:30 to Tuesday 00:30 fits, the Tuesday ends lying in another week |
| `SlotAvailableTest.WorkingHoursNonexistentCase` | timeline/tests_unit.py:238-243 | without working hours the entry does not fit |
| `SlotAvailableTest.CantSaveDueToNotFittingWorkingHoursCase` | timeline/tests_unit.py:245-260 | with working-hours checking on, Monday 13:30-14:00 is rejected as outside working hours, then saved once Monday 13:00-15:00 is declared |

## Left out

- Time zones and ISO-8601 parsing: instants are plain minutes in the teacher's local time.
- The entry's display name and the content-type lookup of its lesson (timeline/tests_unit.py:22-30, :73): framework metadata.
- Lesson variants: one `Lesson` value with duration, seats and an optional host stands for every variant; a one-to-one lesson's unbounded capacity is not modelled (seats are a natural number).
- Web views, permissions and form contents (timeline/tests_unit.py:263-311): user interface, not scheduling.
- acc/tests.py (profile pictures fetched over HTTP at social login) and market/tasks.py (a periodic inactivity mailer reading the clock and querying the database): I/O plumbing outside the scheduling core.
- Concurrent saves and the window between the overlap check and the write: a save is one sequential step.
- `TimelineStore.Timeline.AddCustomer`: in the framework the attendance row is written by `customers.add` before `save()` validates; the model makes adding a customer one all-or-nothing step, which the tests do not contradict.
- `Entries.Validate`: `start < end` is not checked; the save pipeline names four failures (host, capacity, overlap, working hours) and none for an empty or reversed interval.
- `TimelineStore.Timeline.Save`: saving under the id of a row that was never stored is excluded by a precondition; ids only come from earlier saves and rows are never hard-deleted.
- The commented-out case at timeline/tests_unit.py:233-236 (an end at 00:00 written on the start's date) is read, like every same-weekday earlier end, as a wrap around a whole week and does not fit.
- Removing customers and soft-deleting: both are a `Save` of the changed entry; no separate operation is modelled.
