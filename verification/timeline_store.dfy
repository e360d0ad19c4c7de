/** The table of timeline entries and working hours, updated in place by
    saving entries and adding customers.  A rejected operation leaves the
    table as it was. */
module TimelineStore {
  import opened Wrappers
  import opened Calendar
  import opened Entries

  class Timeline {
    /** Every stored row, active or not; rows are never removed. */
    var entries: map<EntryId, Entry>
    /** The id the next inserted row receives. */
    var nextId: EntryId
    /** Working-hours records of all teachers. */
    var hours: seq<WorkingHours>

    /** Every stored row has an id below `nextId` and passed the checks
        nobody can opt out of: host, capacity, lesson-derived fields. */
    ghost predicate Valid()
      reads this
    {
      forall k :: k in entries ==> k < nextId && Admissible(entries[k])
    }

    constructor ()
      ensures Valid()
      ensures entries == map[] && hours == [] && nextId == 0
    {
      entries := map[];
      nextId := 0;
      hours := [];
    }

    /** Declares one more working-hours record. */
    method AddWorkingHours(w: WorkingHours)
      requires Valid()
      modifies this
      ensures Valid()
      ensures hours == old(hours) + [w]
      ensures entries == old(entries) && nextId == old(nextId)
    {
      hours := hours + [w];
    }

    /** Saves `e`, inserting a new row when `pk` is `None` and replacing
        row `pk` otherwise.  The row is stored exactly when `Validate`
        accepts it; on a rejection nothing changes. */
    method Save(pk: Option<EntryId>, e: Entry) returns (r: Result<EntryId, Failure>)
      requires Valid()
      requires pk.Some? ==> pk.value in entries
      modifies this
      ensures Valid()
      ensures hours == old(hours)
      ensures r.Err? ==> Validate(old(entries), hours, pk, e) == Err(r.error)
                         && entries == old(entries) && nextId == old(nextId)
      ensures r.Ok? ==> Validate(old(entries), hours, pk, e).Ok?
                        && entries == old(entries)[r.value := Validate(old(entries), hours, pk, e).value]
      ensures r.Ok? && pk.Some? ==> r.value == pk.value
      ensures r.Ok? && pk.None? ==> r.value !in old(entries)
      // the default listing gains the saved row when it is active and
      // loses it when it is not; other rows keep their place
      ensures r.Ok? ==> All() == (old(All()) - {r.value}) + (if e.active then {r.value} else {})
      ensures r.Err? ==> All() == old(All())
    {
      var v := Validate(entries, hours, pk, e);
      if v.Err? {
        return Err(v.error);
      }
      var k: EntryId;
      if pk.Some? {
        k := pk.value;
      } else {
        k := nextId;
        nextId := nextId + 1;
      }
      entries := entries[k := v.value];
      r := Ok(k);
    }

    /** Adds customer `c` to row `k` and saves the row again, with every
        check of `Save`; a full entry rejects the customer. */
    method AddCustomer(k: EntryId, c: Customer) returns (r: Result<EntryId, Failure>)
      requires Valid()
      requires k in entries
      modifies this
      ensures Valid()
      ensures hours == old(hours)
      ensures r.Err? ==> entries == old(entries) && nextId == old(nextId)
      // exactly the outcome of saving the row with the customer added
      ensures r.Err? ==> Validate(old(entries), hours, Some(k),
                                  old(entries)[k].(customers := old(entries)[k].customers + {c})) == Err(r.error)
      ensures r.Ok? <==> Validate(old(entries), hours, Some(k),
                                  old(entries)[k].(customers := old(entries)[k].customers + {c})).Ok?
      ensures r.Ok? ==> r.value == k
                        && entries == old(entries)[k := old(entries)[k].(customers := old(entries)[k].customers + {c})]
      ensures c !in old(entries)[k].customers ==> (r == Err(OverCapacity) <==> !IsFree(old(entries)[k]))
      ensures c !in old(entries)[k].customers && old(entries)[k].allowOverlap && old(entries)[k].allowBesidesWorkingHours
              ==> (r.Ok? <==> IsFree(old(entries)[k]))
    {
      var e := entries[k];
      var candidate := e.(customers := e.customers + {c});
      assert FromLesson(candidate) == candidate;
      r := Save(Some(k), candidate);
    }

    /** The default listing: the ids of active rows only, the same rows
        the overlap check looks at. */
    function All(): (ids: set<EntryId>)
      reads this
      ensures ids == ActiveRows(entries).Keys
    {
      set k | k in entries && entries[k].active
    }
  }
}
