/** A teacher's weekly working hours and the check that a lesson fits into
    them.  Time of day is counted in minutes after midnight; the latest
    representable clock time is 23:59, so a part of a lesson that runs up
    to midnight is said to end at 23:59. */
module Calendar {

  const MinutesPerDay: int := 1440
  const DaysPerWeek: int := 7
  /** The clock time 23:59, the end of every day that a lesson runs through. */
  const LastMinute: int := 1439

  /** 0 is Monday, 6 is Sunday. */
  type Weekday = d: int | 0 <= d < 7
  /** Minutes after midnight, 00:00 .. 23:59. */
  type TimeOfDay = m: int | 0 <= m < 1440
  type Teacher = nat

  /** A point of the week: a weekday and a clock time on it. */
  datatype Moment = Moment(weekday: Weekday, minute: TimeOfDay)

  /** One working-hours record: the teacher is available on `weekday`
      from `start` to `end`. */
  datatype WorkingHours = WorkingHours(teacher: Teacher, weekday: Weekday, start: TimeOfDay, end: TimeOfDay)

  /** The part of a lesson that falls on one calendar day. */
  datatype Segment = Segment(weekday: Weekday, start: TimeOfDay, end: TimeOfDay)

  function NextWeekday(d: Weekday): (r: Weekday)
    ensures d < 6 ==> r == d + 1
    ensures d == 6 ==> r == 0
  {
    (d + 1) % DaysPerWeek
  }

  /** How many midnights the lesson from `s` to `e` passes, walking forward
      through the week.  Equal weekdays with an earlier end clock time mean
      the lesson wraps around a whole week. */
  function Midnights(s: Moment, e: Moment): (n: nat)
    ensures n <= 7
    ensures n == 0 <==> s.weekday == e.weekday && s.minute <= e.minute
    ensures DayAfter(s.weekday, n) == e.weekday
  {
    var days := (e.weekday - s.weekday) % DaysPerWeek;
    if days == 0 && s.minute <= e.minute then 0
    else if days == 0 then 7
    else days
  }

  /** The index of the last calendar day the half-open lesson [s, e)
      touches: a lesson that ends exactly at 00:00 after passing a midnight
      does not touch the day it ends on. */
  function LastDay(s: Moment, e: Moment): (k: nat)
    ensures k <= Midnights(s, e)
    ensures k == Midnights(s, e) <==> Midnights(s, e) == 0 || e.minute > 0
  {
    var n := Midnights(s, e);
    if n > 0 && e.minute == 0 then n - 1 else n
  }

  /** The weekday `k` days after `d`. */
  function DayAfter(d: Weekday, k: nat): Weekday {
    (d + k) % DaysPerWeek
  }

  /** Stepping to the next weekday and then `k` more days is `k + 1` days. */
  lemma DayAfterNext(d: Weekday)
    ensures forall k: nat :: DayAfter(NextWeekday(d), k) == DayAfter(d, k + 1)
  {
    forall k: nat ensures DayAfter(NextWeekday(d), k) == DayAfter(d, k + 1) {
    }
  }

  /** The weekday after the `k`-th is the `k + 1`-th. */
  lemma NextOfDayAfter(d: Weekday, k: nat)
    ensures NextWeekday(DayAfter(d, k)) == DayAfter(d, k + 1)
  {
  }

  /** The clock walk of one lesson: starting on `d` at `from`, passes
      `days` midnights and stops at `until` on the last day. */
  function Walk(d: Weekday, from: TimeOfDay, days: nat, until: TimeOfDay): (segs: seq<Segment>)
    requires days == 0 ==> from <= until
    ensures |segs| == days + 1
    ensures segs[0].start == from && segs[days].end == until
    ensures forall i :: 0 <= i < |segs| ==> segs[i].weekday == DayAfter(d, i)
    ensures forall i :: 0 < i < |segs| ==> segs[i].start == 0
    ensures forall i :: 0 <= i < |segs| - 1 ==> segs[i].end == LastMinute
    ensures forall i :: 0 <= i < |segs| ==> segs[i].start <= segs[i].end
    decreases days
  {
    if days == 0 then [Segment(d, from, until)]
    else
      var rest := Walk(NextWeekday(d), 0, days - 1, until);
      DayAfterNext(d);
      [Segment(d, from, LastMinute)] + rest
  }

  /** Splits the lesson from `s` to `e` at every midnight it passes, one
      segment per calendar day it touches. */
  function Segments(s: Moment, e: Moment): (segs: seq<Segment>)
    ensures |segs| == LastDay(s, e) + 1
    // the first day starts where the lesson starts
    ensures segs[0].start == s.minute
    // day i of the lesson is the i-th weekday after the start's
    ensures forall i :: 0 <= i < |segs| ==> segs[i].weekday == DayAfter(s.weekday, i)
    // every day after the first starts at 00:00, every day before the last
    // runs to midnight
    ensures forall i :: 0 < i < |segs| ==> segs[i].start == 0
    ensures forall i :: 0 <= i < |segs| - 1 ==> segs[i].end == LastMinute
    // the last day ends where the lesson ends, unless the lesson ends
    // exactly at midnight, when the last day is the one before
    ensures var last := segs[|segs| - 1];
            if e.minute == 0 && Midnights(s, e) > 0
            then last.end == LastMinute && NextWeekday(last.weekday) == e.weekday
            else last.end == e.minute && last.weekday == e.weekday
    // every segment is a forward range of clock times on its day
    ensures forall i :: 0 <= i < |segs| ==> segs[i].start <= segs[i].end
  {
    var n := Midnights(s, e);
    if n > 0 && e.minute == 0 then
      var segs := Walk(s.weekday, s.minute, n - 1, LastMinute);
      NextOfDayAfter(s.weekday, n - 1);
      segs
    else
      Walk(s.weekday, s.minute, n, e.minute)
  }

  /** The record belongs to `teacher` and holds the whole segment. */
  predicate Holds(w: WorkingHours, teacher: Teacher, seg: Segment) {
    w.teacher == teacher && w.weekday == seg.weekday && w.start <= seg.start && seg.end <= w.end
  }

  /** Some single record of `teacher` holds the segment. */
  predicate Covered(hours: seq<WorkingHours>, teacher: Teacher, seg: Segment) {
    exists j :: 0 <= j < |hours| && Holds(hours[j], teacher, seg)
  }

  /** The lesson from `s` to `e` fits the teacher's working hours: every day
      it touches lies inside one record of that weekday. */
  predicate FitsWorkingHours(hours: seq<WorkingHours>, teacher: Teacher, s: Moment, e: Moment)
    // a record of the start's weekday begins no later than the start
    ensures FitsWorkingHours(hours, teacher, s, e) ==>
              exists j :: 0 <= j < |hours| && hours[j].teacher == teacher
                          && hours[j].weekday == s.weekday && hours[j].start <= s.minute
    // unless the lesson ends exactly at midnight, a record of the end's
    // weekday ends no earlier than the end
    ensures FitsWorkingHours(hours, teacher, s, e) && (e.minute > 0 || Midnights(s, e) == 0) ==>
              exists j :: 0 <= j < |hours| && hours[j].teacher == teacher
                          && hours[j].weekday == e.weekday && e.minute <= hours[j].end
  {
    var segs := Segments(s, e);
    assert segs[0].weekday == s.weekday by {
      assert segs[0].weekday == DayAfter(s.weekday, 0);
    }
    forall i :: 0 <= i < |segs| ==> Covered(hours, teacher, segs[i])
  }

  /** Without a record of the teacher nothing fits, and asking does not fail. */
  lemma {:induction false} NoHoursNeverFit(hours: seq<WorkingHours>, teacher: Teacher, s: Moment, e: Moment)
    requires forall j :: 0 <= j < |hours| ==> hours[j].teacher != teacher
    ensures !FitsWorkingHours(hours, teacher, s, e)
  {
    assert !Covered(hours, teacher, Segments(s, e)[0]);
  }

  /** Declaring more working hours never makes a fitting lesson stop fitting. */
  lemma {:induction false} MoreHoursStillFit(hours: seq<WorkingHours>, more: seq<WorkingHours>, teacher: Teacher, s: Moment, e: Moment)
    requires FitsWorkingHours(hours, teacher, s, e)
    ensures FitsWorkingHours(hours + more, teacher, s, e)
  {
    var segs := Segments(s, e);
    forall i | 0 <= i < |segs|
      ensures Covered(hours + more, teacher, segs[i])
    {
      var j :| 0 <= j < |hours| && Holds(hours[j], teacher, segs[i]);
      assert (hours + more)[j] == hours[j];
    }
  }

  /** A lesson within one day fits exactly when a single record of that
      weekday starts no later and ends no earlier; an end equal to the
      record's end is allowed. */
  lemma SingleDayFit(hours: seq<WorkingHours>, teacher: Teacher, s: Moment, e: Moment)
    requires s.weekday == e.weekday && s.minute <= e.minute
    ensures FitsWorkingHours(hours, teacher, s, e) <==>
              exists j :: 0 <= j < |hours| && hours[j].teacher == teacher && hours[j].weekday == s.weekday
                          && hours[j].start <= s.minute && e.minute <= hours[j].end
  {
    assert Segments(s, e) == [Segment(s.weekday, s.minute, e.minute)];
  }

  /** A lesson passing one midnight fits exactly when one record of the
      first weekday runs from no later than its start until 23:59 and one
      record of the next weekday runs from 00:00 until no earlier than its
      end. */
  lemma {:induction false} OvernightFit(hours: seq<WorkingHours>, teacher: Teacher, s: Moment, e: Moment)
    requires e.weekday == NextWeekday(s.weekday) && e.minute > 0
    ensures FitsWorkingHours(hours, teacher, s, e) <==>
              (exists j :: 0 <= j < |hours| && hours[j].teacher == teacher && hours[j].weekday == s.weekday
                           && hours[j].start <= s.minute && hours[j].end == LastMinute)
              && (exists j :: 0 <= j < |hours| && hours[j].teacher == teacher && hours[j].weekday == e.weekday
                              && hours[j].start == 0 && e.minute <= hours[j].end)
  {
    var segs := Segments(s, e);
    assert Midnights(s, e) == 1;
    assert |segs| == 2;
    assert segs[0] == Segment(s.weekday, s.minute, LastMinute);
    assert segs[1] == Segment(e.weekday, 0, e.minute);
  }
}
