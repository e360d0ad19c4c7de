/** The entry behaviour the timeline's unit tests pin down: capacity taken
    from the lesson, counting customers, the free flag, the host check and
    the default listing.  Each method runs the test's steps on a fresh
    timeline; customers are numbered 0, 1, 2, ... as they are created. */
module EntryTestCase {
  import opened Wrappers
  import opened Calendar
  import opened Entries
  import opened TimelineStore

  /** A master class of `slots` seats hosted by `host`. */
  function MasterClass(host: Teacher, slots: nat): (l: Lesson)
    ensures l.host == Some(host) && l.slots == slots
  {
    Lesson(60, slots, Some(host))
  }

  /** An entry as the tests create it: no customers, active, both opt-outs
      at their default of allowed. */
  function NewEntry(teacher: Teacher, lesson: Lesson): (e: Entry)
    ensures e.teacher == teacher && e.lesson == Some(lesson) && e.customers == {}
    ensures e.active && e.allowOverlap && e.allowBesidesWorkingHours
  {
    Entry(teacher, Some(lesson), 0, 0, 0, {}, true, true, true)
  }

  /** A saved entry of a ten-seat master class reports ten slots. */
  method AvailableSlotCountCase(teacher: Teacher) returns (slots: nat)
    ensures slots == 10
  {
    var timeline := new Timeline();
    var r := timeline.Save(None, NewEntry(teacher, MasterClass(teacher, 10)));
    slots := timeline.entries[r.value].slots;
  }

  /** Taken slots count the customers added one by one: 0, 1, 2, 3, 4. */
  method TakenSlotCountCase(teacher: Teacher) returns (taken: seq<nat>)
    ensures |taken| == 5
    ensures forall i :: 0 <= i < 5 ==> taken[i] == i
  {
    var timeline := new Timeline();
    var r := timeline.Save(None, NewEntry(teacher, MasterClass(teacher, 10)));
    var k := r.value;
    taken := [];
    var i := 0;
    while i < 5
      invariant 0 <= i <= 5 && |taken| == i
      invariant forall j :: 0 <= j < i ==> taken[j] == j
      invariant timeline.Valid() && k in timeline.entries
      invariant var e := timeline.entries[k];
                e.slots == 10 && e.allowOverlap && e.allowBesidesWorkingHours
                && |e.customers| == i && forall c :: c in e.customers ==> c < i
    {
      taken := taken + [TakenSlots(timeline.entries[k])];
      var a := timeline.AddCustomer(k, i);
      i := i + 1;
    }
  }

  /** A ten-seat entry is free for each of its first ten customers, full
      after the tenth, and rejects an eleventh, which is not added. */
  method IsFreeCase(teacher: Teacher) returns (free: seq<bool>, freeAtTen: bool, eleventh: Result<EntryId, Failure>, takenAfter: nat)
    ensures |free| == 10 && forall i :: 0 <= i < 10 ==> free[i]
    ensures !freeAtTen
    ensures eleventh == Err(OverCapacity)
    ensures takenAfter == 10
  {
    var timeline := new Timeline();
    var r := timeline.Save(None, NewEntry(teacher, MasterClass(teacher, 10)));
    var k := r.value;
    free := [];
    var i := 0;
    while i < 10
      invariant 0 <= i <= 10 && |free| == i
      invariant forall j :: 0 <= j < i ==> free[j]
      invariant timeline.Valid() && k in timeline.entries
      invariant var e := timeline.entries[k];
                e.slots == 10 && e.allowOverlap && e.allowBesidesWorkingHours
                && |e.customers| == i && forall c :: c in e.customers ==> c < i
    {
      free := free + [IsFree(timeline.entries[k])];
      var a := timeline.AddCustomer(k, i);
      i := i + 1;
    }
    freeAtTen := IsFree(timeline.entries[k]);
    eleventh := timeline.AddCustomer(k, 10);
    takenAfter := TakenSlots(timeline.entries[k]);
  }

  /** An entry of a lesson hosted by another teacher cannot be saved, and
      the timeline stays empty. */
  method AssignToDifferentTeacherCase(host: Teacher, teacher: Teacher) returns (r: Result<EntryId, Failure>, listed: set<EntryId>)
    requires host != teacher
    ensures r == Err(HostMismatch)
    ensures listed == {}
  {
    var timeline := new Timeline();
    r := timeline.Save(None, NewEntry(teacher, MasterClass(host, 10)));
    listed := timeline.All();
  }

  /** The default listing shows the active entry and hides the inactive one. */
  method DefaultScopeCase(teacher: Teacher) returns (listed: set<EntryId>, activeId: EntryId, inactiveId: EntryId)
    ensures activeId in listed && inactiveId !in listed
  {
    var ordinary := Lesson(60, 1, None);
    var timeline := new Timeline();
    var a := timeline.Save(None, NewEntry(teacher, ordinary));
    activeId := a.value;
    var b := timeline.Save(None, NewEntry(teacher, ordinary).(active := false));
    inactiveId := b.value;
    listed := timeline.All();
  }
}
