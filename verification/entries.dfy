/** A timeline entry: one booking on one teacher's calendar, and the checks
    a booking must pass before it is stored.  Instants are whole minutes
    since a Monday midnight in the teacher's local time. */
module Entries {
  import opened Wrappers
  import opened Calendar

  type Instant = int
  type Customer = nat
  type EntryId = nat

  const MinutesPerWeek: int := 10080

  /** The bookable event an entry is made from: an ordinary lesson, a
      master class and so on.  Only host-bound events carry a host. */
  datatype Lesson = Lesson(duration: nat, slots: nat, host: Option<Teacher>)

  datatype Entry = Entry(
    teacher: Teacher,
    lesson: Option<Lesson>,
    start: Instant,
    end: Instant,
    slots: nat,
    customers: set<Customer>,
    active: bool,
    allowOverlap: bool,
    allowBesidesWorkingHours: bool)

  /** Why a save was rejected. */
  datatype Failure = HostMismatch | OverCapacity | Overlap | OutsideWorkingHours

  /** The weekday and clock time of an instant. */
  function ToMoment(t: Instant): (m: Moment)
    ensures m.minute == t % MinutesPerDay
    ensures t == (t / MinutesPerWeek) * MinutesPerWeek + m.weekday * MinutesPerDay + m.minute
  {
    WeekSplit(t);
    Moment((t / MinutesPerDay) % DaysPerWeek, t % MinutesPerDay)
  }

  /** An instant is whole weeks, whole days of its week and minutes of its day. */
  lemma WeekSplit(t: Instant)
    ensures t == (t / MinutesPerWeek) * MinutesPerWeek
                 + ((t / MinutesPerDay) % DaysPerWeek) * MinutesPerDay + t % MinutesPerDay
  {
    var d, m := t / MinutesPerDay, t % MinutesPerDay;
    var q, w := d / DaysPerWeek, d % DaysPerWeek;
    assert t == d * MinutesPerDay + m;
    assert d == q * DaysPerWeek + w;
    assert t == q * MinutesPerWeek + (w * MinutesPerDay + m);
    assert 0 <= w * MinutesPerDay + m < MinutesPerWeek;
    assert t / MinutesPerWeek == q;
  }

  /** Shifting an instant by whole weeks does not change its weekday or
      clock time, so the working-hours check sees only those. */
  lemma ToMomentWeekly(t: Instant, weeks: int)
    ensures ToMoment(t + weeks * MinutesPerWeek) == ToMoment(t)
  {
    var m := ToMoment(t);
    var m' := ToMoment(t + weeks * MinutesPerWeek);
    var q := t / MinutesPerWeek;
    var q' := (t + weeks * MinutesPerWeek) / MinutesPerWeek;
    assert (q + weeks) * MinutesPerWeek + m.weekday * MinutesPerDay + m.minute
           == q' * MinutesPerWeek + m'.weekday * MinutesPerDay + m'.minute;
    assert q' == q + weeks by {
      assert 0 <= m.weekday * MinutesPerDay + m.minute < MinutesPerWeek;
      assert 0 <= m'.weekday * MinutesPerDay + m'.minute < MinutesPerWeek;
    }
  }

  /** Number of attending customers; a customer counts once however
      often added. */
  function TakenSlots(e: Entry): (n: nat)
    ensures n == |e.customers|
    ensures e.customers == {} ==> n == 0
  {
    |e.customers|
  }

  /** Adding a customer who already attends takes no seat; adding a new
      one takes exactly one. */
  lemma AddingCustomerTakesOneSlot(e: Entry, c: Customer)
    ensures c in e.customers ==> TakenSlots(e.(customers := e.customers + {c})) == TakenSlots(e)
    ensures c !in e.customers ==> TakenSlots(e.(customers := e.customers + {c})) == TakenSlots(e) + 1
  {
    if c in e.customers {
      assert e.customers + {c} == e.customers;
    }
  }

  /** A seat is still available: exactly when any customer not yet
      attending can be added without exceeding the capacity. */
  predicate IsFree(e: Entry)
    ensures forall c :: c !in e.customers ==>
              (IsFree(e) <==> TakenSlots(e.(customers := e.customers + {c})) <= e.slots)
  {
    TakenSlots(e) < e.slots
  }

  /** The lesson's host, if it has one, is the entry's teacher: only a
      host-bound lesson hosted by someone else breaks it. */
  predicate HostConsistent(e: Entry)
    ensures !HostConsistent(e) <==>
              e.lesson.Some? && e.lesson.value.host.Some? && e.lesson.value.host.value != e.teacher
  {
    match e.lesson
    case None => true
    case Some(l) => l.host.None? || l.host.value == e.teacher
  }

  /** Takes the end and the capacity from the lesson, when there is one. */
  function FromLesson(e: Entry): (r: Entry)
    ensures e.lesson.Some? ==> r.end == r.start + e.lesson.value.duration && r.slots == e.lesson.value.slots
    ensures e.lesson.None? ==> r == e
    ensures r.(end := e.end, slots := e.slots) == e
  {
    match e.lesson
    case None => e
    case Some(l) => e.(end := e.start + l.duration, slots := l.slots)
  }

  /** Half-open intervals [a.start, a.end) and [b.start, b.end) intersect. */
  predicate Overlaps(a: Entry, b: Entry) {
    a.start < b.end && b.start < a.end
  }

  /** Minute `t` lies in the entry's half-open interval. */
  predicate Occupies(e: Entry, t: Instant) {
    e.start <= t < e.end
  }

  /** Two entries over the same non-empty interval overlap. */
  lemma EqualIntervalsOverlap(a: Entry, b: Entry)
    requires a.start == b.start && a.end == b.end && a.start < a.end
    ensures Overlaps(a, b) && Overlaps(b, a)
  {
  }

  /** Two non-empty intervals overlap exactly when some minute lies in both. */
  lemma OverlapsIffSharedMinute(a: Entry, b: Entry)
    requires a.start < a.end && b.start < b.end
    ensures Overlaps(a, b) <==> exists t :: Occupies(a, t) && Occupies(b, t)
  {
    if Overlaps(a, b) {
      var t := if a.start < b.start then b.start else a.start;
      assert Occupies(a, t) && Occupies(b, t);
    }
  }

  /** The rows of the default listing: active rows only. */
  function ActiveRows(entries: map<EntryId, Entry>): (active: map<EntryId, Entry>)
    ensures forall k :: k in active <==> k in entries && entries[k].active
    ensures forall k :: k in active ==> active[k] == entries[k]
  {
    map k | k in entries && entries[k].active :: entries[k]
  }

  /** Another stored entry blocks `e`: it is active, of the same teacher,
      is not `e`'s own stored row `pk`, and its interval meets `e`'s.  The
      test sees exactly the rows of the default listing. */
  predicate IsOverlapping(entries: map<EntryId, Entry>, pk: Option<EntryId>, e: Entry)
    ensures var active := ActiveRows(entries);
            IsOverlapping(entries, pk, e) <==>
              exists k :: k in active && pk != Some(k) && active[k].teacher == e.teacher && Overlaps(active[k], e)
  {
    exists k :: k in entries && pk != Some(k) && entries[k].active
                && entries[k].teacher == e.teacher && Overlaps(entries[k], e)
  }

  /** The stored row `k` never matters to the overlap test when it is `e`'s
      own row, is inactive, or belongs to another teacher. */
  lemma IgnoredRow(entries: map<EntryId, Entry>, pk: Option<EntryId>, e: Entry, k: EntryId, x: Entry)
    requires pk == Some(k) || !x.active || x.teacher != e.teacher
    ensures IsOverlapping(entries[k := x], pk, e) <==> IsOverlapping(entries - {k}, pk, e)
  {
  }

  /** Entries of other teachers never conflict, whatever their times. */
  lemma OtherTeachersNeverOverlap(entries: map<EntryId, Entry>, pk: Option<EntryId>, e: Entry)
    requires forall k :: k in entries ==> entries[k].teacher != e.teacher
    ensures !IsOverlapping(entries, pk, e)
  {
  }

  /** A stored entry that passed every check it could not opt out of. */
  predicate Admissible(e: Entry) {
    && HostConsistent(e)
    && TakenSlots(e) <= e.slots
    && FromLesson(e) == e
  }

  /** The checks run when an entry is saved, in order: host, capacity,
      overlap (unless allowed), working hours (unless allowed).  `pk` is the
      entry's own row when it is already stored.  Yields the entry as it
      will be stored, with end and capacity taken from its lesson. */
  function Validate(entries: map<EntryId, Entry>, hours: seq<WorkingHours>, pk: Option<EntryId>, e: Entry): (r: Result<Entry, Failure>)
    ensures r.Ok? ==> r.value == FromLesson(e) && Admissible(r.value)
    ensures r.Ok? ==> r.value.allowOverlap || !IsOverlapping(entries, pk, r.value)
    ensures r.Ok? ==> r.value.allowBesidesWorkingHours || FitsWorkingHours(hours, r.value.teacher, ToMoment(r.value.start), ToMoment(r.value.end))
    ensures r == Err(HostMismatch) <==> !HostConsistent(e)
    ensures r == Err(OverCapacity) <==> HostConsistent(e) && TakenSlots(e) > FromLesson(e).slots
    ensures r == Err(Overlap) ==> !e.allowOverlap && IsOverlapping(entries, pk, FromLesson(e))
    ensures r == Err(OutsideWorkingHours) ==>
              && !e.allowBesidesWorkingHours
              && !FitsWorkingHours(hours, e.teacher, ToMoment(FromLesson(e).start), ToMoment(FromLesson(e).end))
              // the overlap check runs first
              && (e.allowOverlap || !IsOverlapping(entries, pk, FromLesson(e)))
  {
    if !HostConsistent(e) then Err(HostMismatch)
    else
      var p := FromLesson(e);
      if TakenSlots(p) > p.slots then Err(OverCapacity)
      else if !p.allowOverlap && IsOverlapping(entries, pk, p) then Err(Overlap)
      else if !p.allowBesidesWorkingHours && !FitsWorkingHours(hours, p.teacher, ToMoment(p.start), ToMoment(p.end)) then Err(OutsideWorkingHours)
      else Ok(p)
  }

  /** A save that opts out of both the overlap and working-hours checks
      succeeds whenever the host matches and there is room for every
      customer. */
  lemma OverridesPermit(entries: map<EntryId, Entry>, hours: seq<WorkingHours>, pk: Option<EntryId>, e: Entry)
    requires e.allowOverlap && e.allowBesidesWorkingHours
    requires HostConsistent(e) && TakenSlots(e) <= FromLesson(e).slots
    ensures Validate(entries, hours, pk, e).Ok?
  {
  }

  /** Saving the just-stored entry again at its row `k` succeeds and stores
      the same value: it never conflicts with itself. */
  lemma ResaveIdempotent(entries: map<EntryId, Entry>, hours: seq<WorkingHours>, pk: Option<EntryId>, e: Entry, k: EntryId)
    requires Validate(entries, hours, pk, e).Ok?
    requires pk == Some(k) || (pk.None? && k !in entries)
    ensures Validate(entries[k := Validate(entries, hours, pk, e).value], hours, Some(k), Validate(entries, hours, pk, e).value)
            == Validate(entries, hours, pk, e)
  {
  }
}
