/** The timeline's slot-availability tests: overlap with a long stored
    entry, overlap across teachers, saving with the overlap and
    working-hours checks on, and fitting working hours within one day and
    across midnight.  Instants count minutes from Monday 2015-12-28 00:00,
    so 2016-01-02 is day 5, 2016-01-03 day 6, 2016-01-10 day 13,
    2016-07-26 (a Tuesday) day 211 and 2032-05-03 (a Monday) day 5971. */
module SlotAvailableTest {
  import opened Wrappers
  import opened Calendar
  import opened Entries
  import opened TimelineStore

  function At(day: nat, hour: nat, minute: nat): Instant {
    day * MinutesPerDay + hour * 60 + minute
  }

  /** An entry with explicit times and no lesson, both opt-outs allowed. */
  function Span(teacher: Teacher, start: Instant, end: Instant): Entry {
    Entry(teacher, None, start, end, 1, {}, true, true, true)
  }

  /** The stored entry from 2016-01-02 18:00 to 2016-01-03 12:00. */
  function BigEntry(teacher: Teacher): Entry {
    Span(teacher, At(5, 18, 0), At(6, 12, 0))
  }

  /** The working-hours check of an entry, on the weekday and clock time
      of its ends. */
  predicate FitsEntry(hours: seq<WorkingHours>, e: Entry) {
    FitsWorkingHours(hours, e.teacher, ToMoment(e.start), ToMoment(e.end))
  }

  /** An ordinary lesson of half an hour without a host. */
  const Ordinary: Lesson := Lesson(30, 1, None)

  /** 04:00-04:30 on 2016-01-03 falls inside the big entry; 12:00-12:30
      starts exactly where the big entry ends and does not overlap. */
  lemma OverlapCase(teacher: Teacher)
    ensures IsOverlapping(map[0 := BigEntry(teacher)], None, Span(teacher, At(6, 4, 0), At(6, 4, 30)))
    ensures !IsOverlapping(map[0 := BigEntry(teacher)], None, Span(teacher, At(6, 12, 0), At(6, 12, 30)))
  {
    assert 0 in map[0 := BigEntry(teacher)];
  }

  /** The same times for another teacher do not overlap. */
  lemma OverlappingWithDifferentTeacherCase(teacher: Teacher, other: Teacher)
    requires other != teacher
    ensures !IsOverlapping(map[0 := BigEntry(teacher)], None, Span(other, At(6, 4, 0), At(6, 4, 30)))
  {
  }

  /** A second entry with the same interval as a stored one overlaps it. */
  lemma TwoEqualEntriesCase(teacher: Teacher)
    ensures IsOverlapping(map[1 := Span(teacher, At(6, 4, 0), At(6, 4, 30))],
                          None, Span(teacher, At(6, 4, 0), At(6, 4, 30)))
    ensures IsOverlapping(map[0 := BigEntry(teacher), 1 := Span(teacher, At(6, 4, 0), At(6, 4, 30))],
                          None, Span(teacher, At(6, 4, 0), At(6, 4, 30)))
  {
    var first := Span(teacher, At(6, 4, 0), At(6, 4, 30));
    EqualIntervalsOverlap(first, first);
    assert 1 in map[1 := first];
    assert 1 in map[0 := BigEntry(teacher), 1 := first];
  }

  /** With the overlap check on, an entry inside the big entry is rejected
      and nothing is added. */
  method CantSaveDueToOverlapCase(teacher: Teacher) returns (r: Result<EntryId, Failure>, stored: nat)
    ensures r == Err(Overlap)
    ensures stored == 1
  {
    var timeline := new Timeline();
    var big := timeline.Save(None, BigEntry(teacher));
    var candidate := Entry(teacher, Some(Ordinary), At(6, 4, 0), At(6, 4, 30), 1, {}, true, false, true);
    assert IsOverlapping(timeline.entries, None, FromLesson(candidate)) by {
      assert big.value in timeline.entries;
    }
    r := timeline.Save(None, candidate);
    stored := |timeline.entries|;
  }

  /** An entry that does not allow overlap is saved, moved by a minute and
      saved again: it does not conflict with its own row. */
  method SaveAgainEntryThatDoesNotAllowOverlappingCase(teacher: Teacher) returns (first: Result<EntryId, Failure>, second: Result<EntryId, Failure>)
    ensures first.Ok? && second == first
  {
    var timeline := new Timeline();
    var big := timeline.Save(None, BigEntry(teacher));
    var entry := Entry(teacher, Some(Ordinary), At(13, 4, 0), At(13, 4, 30), 1, {}, true, false, true);
    first := timeline.Save(None, entry);
    var k := first.value;
    assert timeline.entries.Keys == {big.value, k};
    var moved := timeline.entries[k].(start := At(13, 4, 1));
    assert !IsOverlapping(timeline.entries, Some(k), FromLesson(moved));
    second := timeline.Save(Some(k), moved);
  }

  /** With one Monday record 12:00-13:00, Monday 04:00-04:30 does not fit
      and Monday 12:30-13:00 does: an end equal to the record's end fits. */
  lemma WorkingHoursCase(teacher: Teacher)
    ensures !FitsEntry([WorkingHours(teacher, 0, 720, 780)], Span(teacher, At(5971, 4, 0), At(5971, 4, 30)))
    ensures FitsEntry([WorkingHours(teacher, 0, 720, 780)], Span(teacher, At(5971, 12, 30), At(5971, 13, 0)))
  {
    var hours := [WorkingHours(teacher, 0, 720, 780)];
    assert ToMoment(At(5971, 4, 0)) == Moment(0, 240);
    assert ToMoment(At(5971, 4, 30)) == Moment(0, 270);
    assert ToMoment(At(5971, 12, 30)) == Moment(0, 750);
    assert ToMoment(At(5971, 13, 0)) == Moment(0, 780);
    SingleDayFit(hours, teacher, Moment(0, 240), Moment(0, 270));
    SingleDayFit(hours, teacher, Moment(0, 750), Moment(0, 780));
    assert Holds(hours[0], teacher, Segment(0, 750, 780));
  }

  /** Records Monday 23:00-23:59 and Tuesday 00:00-02:00.  The ends fall on
      Tuesday 2016-07-26, in another week than the Monday 2032-05-03
      starts; only weekday and clock time count.  Monday 22:00 to Tuesday
      00:30 does not fit, Monday 23:30 to Tuesday 02:30 does not fit,
      Monday 23:30 to Tuesday 00:30 fits. */
  lemma WorkingHoursMultidateCase(teacher: Teacher)
    ensures !FitsEntry(Overnight(teacher), Span(teacher, At(5971, 22, 0), At(211, 0, 30)))
    ensures !FitsEntry(Overnight(teacher), Span(teacher, At(5971, 23, 30), At(211, 2, 30)))
    ensures FitsEntry(Overnight(teacher), Span(teacher, At(5971, 23, 30), At(211, 0, 30)))
  {
    MultidateStartsTooEarly(teacher);
    MultidateEndsTooLate(teacher);
    MultidateFits(teacher);
  }

  lemma MultidateStartsTooEarly(teacher: Teacher)
    ensures !FitsEntry(Overnight(teacher), Span(teacher, At(5971, 22, 0), At(211, 0, 30)))
  {
    assert ToMoment(At(5971, 22, 0)) == Moment(0, 1320);
    assert ToMoment(At(211, 0, 30)) == Moment(1, 30);
    OvernightFit(Overnight(teacher), teacher, Moment(0, 1320), Moment(1, 30));
  }

  lemma MultidateEndsTooLate(teacher: Teacher)
    ensures !FitsEntry(Overnight(teacher), Span(teacher, At(5971, 23, 30), At(211, 2, 30)))
  {
    assert ToMoment(At(5971, 23, 30)) == Moment(0, 1410);
    assert ToMoment(At(211, 2, 30)) == Moment(1, 150);
    OvernightFit(Overnight(teacher), teacher, Moment(0, 1410), Moment(1, 150));
  }

  lemma MultidateFits(teacher: Teacher)
    ensures FitsEntry(Overnight(teacher), Span(teacher, At(5971, 23, 30), At(211, 0, 30)))
  {
    var hours := Overnight(teacher);
    assert ToMoment(At(5971, 23, 30)) == Moment(0, 1410);
    assert ToMoment(At(211, 0, 30)) == Moment(1, 30);
    OvernightFit(hours, teacher, Moment(0, 1410), Moment(1, 30));
    assert hours[0].start <= 1410 && hours[0].end == LastMinute;
    assert hours[1].start == 0 && 30 <= hours[1].end;
  }

  function Overnight(teacher: Teacher): seq<WorkingHours> {
    [WorkingHours(teacher, 0, 1380, 1439), WorkingHours(teacher, 1, 0, 120)]
  }

  /** With no working hours at all the entry does not fit. */
  lemma WorkingHoursNonexistentCase(teacher: Teacher)
    ensures !FitsEntry([], Span(teacher, At(5971, 22, 0), At(211, 0, 30)))
  {
    NoHoursNeverFit([], teacher, ToMoment(At(5971, 22, 0)), ToMoment(At(211, 0, 30)));
  }

  /** With the working-hours check on, a Monday 13:30-14:00 lesson is
      rejected while the teacher has no hours, and saved once a Monday
      record 13:00-15:00 exists. */
  method CantSaveDueToNotFittingWorkingHoursCase(teacher: Teacher) returns (first: Result<EntryId, Failure>, second: Result<EntryId, Failure>)
    ensures first == Err(OutsideWorkingHours)
    ensures second.Ok?
  {
    var timeline := new Timeline();
    var entry := Entry(teacher, Some(Ordinary), At(5971, 13, 30), At(5971, 14, 0), 1, {}, true, true, false);
    assert ToMoment(At(5971, 13, 30)) == Moment(0, 810);
    assert ToMoment(At(5971, 14, 0)) == Moment(0, 840);
    NoHoursNeverFit([], teacher, Moment(0, 810), Moment(0, 840));
    first := timeline.Save(None, entry);
    timeline.AddWorkingHours(WorkingHours(teacher, 0, 780, 900));
    SingleDayFit(timeline.hours, teacher, Moment(0, 810), Moment(0, 840));
    assert Holds(timeline.hours[0], teacher, Segment(0, 810, 840));
    second := timeline.Save(None, entry);
  }
}
