/**
  The per-day reconciliation of syncUserEntriesOnDate, as a function of
  the engine state: for one day, one person and one project, create,
  extend, merge, update, split or delete an assignment so that the day's
  allocation matches the hours logged. `last` is the assignment carried
  from the previous day (the by-reference lastDateAssignment).
 */
module Reconciler {

  import opened Wrappers
  import opened Dates
  import opened Entries
  import opened Assignments
  import opened Forecast
  import opened Warnings
  import opened Engine

  /** The new state, the assignment carried to the next day, and the source's return value. */
  datatype DayOutcome = DayOutcome(world: World, last: Option<Assignment>, changed: bool)

  /** The entries logged on the date (`$dateEntries[$date]`), none when the date has no key. */
  function EntriesFor(byDate: map<Day, seq<Entry>>, date: Day): seq<Entry>
  {
    if date in byDate then byDate[date] else []
  }

  /**
    syncUserEntriesOnDate. Weekends are skipped. A day with no entries and
    no assignment resets the carried assignment. An allocation outside
    [0, 24] hours is reported and nothing else happens. Otherwise the day
    is filled, cleared or reconciled with the assignment found on it.
   */
  function SyncDay(w: World, date: Day, entries: seq<Entry>, last: Option<Assignment>,
                   personId: int, projectId: int, lastName: string): DayOutcome
  {
    if IsWeekend(date) then DayOutcome(w, last, false)
    else
      var found := FindOnDate(Lookup(w.index, personId), projectId, date);
      if entries == [] && found.None? then DayOutcome(w, None, false)
      else
        var allocation := Allocation(entries, HalfHour);
        if !ValidAllocation(allocation) then
          DayOutcome(Warn(w, InvalidAllocation(personId, projectId, date, lastName, allocation)), last, false)
        else if found.None? then FillDay(w, date, last, personId, projectId, allocation)
        else if entries == [] then ClearDay(w, found.value, date)
        else ReconcileDay(w, found.value, date, last, personId, projectId, allocation)
  }

  /**
    Entries but no assignment on the day: extend the carried assignment to
    the day when its allocation is the same, else create [date, date].
   */
  function FillDay(w: World, date: Day, last: Option<Assignment>, personId: int, projectId: int, allocation: int): DayOutcome
  {
    if ShouldExtendPrevAssignment(last, allocation) then
      var extended := last.value.(endDate := date);
      DayOutcome(UpdateW(w, extended), Some(extended), true)
    else
      var (w', created) := CreateW(w, personId, projectId, date, date, allocation);
      DayOutcome(w', Some(created), true)
  }

  /** An assignment but no entries on the day: delete a single-day assignment, split any other. */
  function ClearDay(w: World, a: Assignment, date: Day): DayOutcome
  {
    var w' := if IsSingleDayAssignment(a) then DeleteW(w, a.id) else SplitW(w, a, date);
    DayOutcome(w', None, true)
  }

  /**
    Entries and an assignment on the day. With the same allocation the
    assignment is kept, or merged into the carried one when that has the
    allocation too; the source reports no change here even after a merge.
    With another allocation a single-day assignment is merged into the
    carried one or given the new allocation, and a longer one is split and
    the day gets its own single-day assignment.
   */
  function ReconcileDay(w: World, a: Assignment, date: Day, last: Option<Assignment>,
                        personId: int, projectId: int, allocation: int): DayOutcome
  {
    if a.allocation == allocation then
      if ShouldExtendPrevAssignment(last, allocation) && last.value.id != a.id then
        var merged := last.value.(endDate := a.endDate);
        DayOutcome(UpdateW(DeleteW(w, a.id), merged), Some(merged), false)
      else
        DayOutcome(w, Some(a), false)
    else if IsSingleDayAssignment(a) then
      if ShouldExtendPrevAssignment(last, allocation) then
        var merged := last.value.(endDate := a.endDate);
        DayOutcome(UpdateW(DeleteW(w, a.id), merged), Some(merged), true)
      else
        var updated := a.(allocation := allocation);
        DayOutcome(UpdateW(w, updated), Some(updated), true)
    else
      var (w', created) := CreateW(SplitW(w, a, date), personId, projectId, date, date, allocation);
      DayOutcome(w', Some(created), true)
  }

  // ----- what the day loop keeps -----

  /**
    The carried assignment, when there is one, is the person's stored
    record on the project and starts no later than the date.
   */
  ghost predicate Tracks(w: World, last: Option<Assignment>, personId: int, projectId: int, date: Day)
  {
    last.Some? ==>
      && last.value.id in w.store.records
      && w.store.records[last.value.id] == last.value
      && last.value.personId == personId
      && last.value.projectId == projectId
      && last.value.startDate <= date
  }

  /** The record belongs to the person and the project being synced. */
  predicate Owned(x: Assignment, personId: int, projectId: int)
  {
    x.personId == personId && x.projectId == projectId
  }

  /** Every record not of the person and project is the same before and after. */
  ghost predicate SameOutside(before: map<int, Assignment>, after: map<int, Assignment>, personId: int, projectId: int)
  {
    forall id ::
      ((id in before && !Owned(before[id], personId, projectId)) || (id in after && !Owned(after[id], personId, projectId)))
      ==> id in before && id in after && before[id] == after[id]
  }

  lemma SameOutsideTrans(r0: map<int, Assignment>, r1: map<int, Assignment>, r2: map<int, Assignment>, personId: int, projectId: int)
    requires SameOutside(r0, r1, personId, projectId) && SameOutside(r1, r2, personId, projectId)
    ensures SameOutside(r0, r2, personId, projectId)
  {
    forall id | (id in r0 && !Owned(r0[id], personId, projectId)) || (id in r2 && !Owned(r2[id], personId, projectId))
      ensures id in r0 && id in r2 && r0[id] == r2[id]
    {
      if id in r0 && !Owned(r0[id], personId, projectId) {
        assert id in r1 && r1[id] == r0[id];
      } else {
        assert id in r1 && r1[id] == r2[id];
      }
    }
  }

  /**
    A weekday with entries or an assignment, under a valid state that
    tracks the carried assignment, leaves a valid state that tracks the new
    carried assignment, and changes only the person's records on the project.
   */
  lemma {:induction false} SyncDayKeepsValid(w: World, date: Day, entries: seq<Entry>, last: Option<Assignment>,
                                             personId: int, projectId: int, lastName: string)
    requires WorldValid(w) && Tracks(w, last, personId, projectId, date)
    ensures var o := SyncDay(w, date, entries, last, personId, projectId, lastName);
      && WorldValid(o.world)
      && Tracks(o.world, o.last, personId, projectId, date)
      && SameOutside(w.store.records, o.world.store.records, personId, projectId)
      && |w.warnings| <= |o.world.warnings| && o.world.warnings[..|w.warnings|] == w.warnings
  {
    var o := SyncDay(w, date, entries, last, personId, projectId, lastName);
    var found := FindOnDate(Lookup(w.index, personId), projectId, date);
    FoundIsStored(w, personId, projectId, date);
    if IsWeekend(date) || (entries == [] && found.None?) {
    } else {
      var allocation := Allocation(entries, HalfHour);
      if !ValidAllocation(allocation) {
      } else if found.None? {
        FillDayKeepsValid(w, date, last, personId, projectId, allocation);
      } else if entries == [] {
        ClearDayKeepsValid(w, found.value, date, personId, projectId);
      } else {
        ReconcileDayKeepsValid(w, found.value, date, last, personId, projectId, allocation);
      }
    }
  }

  lemma FillDayKeepsValid(w: World, date: Day, last: Option<Assignment>, personId: int, projectId: int, allocation: int)
    requires WorldValid(w) && Tracks(w, last, personId, projectId, date)
    ensures var o := FillDay(w, date, last, personId, projectId, allocation);
      && WorldValid(o.world)
      && Tracks(o.world, o.last, personId, projectId, date)
      && SameOutside(w.store.records, o.world.store.records, personId, projectId)
      && o.world.warnings == w.warnings
  {
    if ShouldExtendPrevAssignment(last, allocation) {
      UpdateWValid(w, last.value.(endDate := date));
    } else {
      CreateWValid(w, personId, projectId, date, date, allocation);
    }
  }

  lemma ClearDayKeepsValid(w: World, a: Assignment, date: Day, personId: int, projectId: int)
    requires WorldValid(w)
    requires a.id in w.store.records && w.store.records[a.id] == a && Owned(a, personId, projectId)
    ensures var o := ClearDay(w, a, date);
      && WorldValid(o.world)
      && o.last.None?
      && SameOutside(w.store.records, o.world.store.records, personId, projectId)
      && o.world.warnings == w.warnings
  {
    if IsSingleDayAssignment(a) {
      DeleteWValid(w, a.id);
    } else {
      SplitWValid(w, a, date);
    }
  }

  lemma ReconcileDayKeepsValid(w: World, a: Assignment, date: Day, last: Option<Assignment>,
                               personId: int, projectId: int, allocation: int)
    requires WorldValid(w) && Tracks(w, last, personId, projectId, date)
    requires a.id in w.store.records && w.store.records[a.id] == a && Owned(a, personId, projectId)
    requires a.startDate <= date
    ensures var o := ReconcileDay(w, a, date, last, personId, projectId, allocation);
      && WorldValid(o.world)
      && Tracks(o.world, o.last, personId, projectId, date)
      && SameOutside(w.store.records, o.world.store.records, personId, projectId)
      && o.world.warnings == w.warnings
  {
    var extend := ShouldExtendPrevAssignment(last, allocation);
    if (a.allocation == allocation && extend && last.value.id != a.id)
       || (a.allocation != allocation && IsSingleDayAssignment(a) && extend) {
      // the carried assignment differs from `a`: equal ids would mean equal records and allocations
      assert last.value.id != a.id;
      MergeKeepsValid(w, a, date, last.value, personId, projectId);
    } else if a.allocation == allocation {
    } else if IsSingleDayAssignment(a) {
      UpdateWValid(w, a.(allocation := allocation));
    } else {
      SplitCreateKeepsValid(w, a, date, personId, projectId, allocation);
    }
  }

  /** Merging the day into the carried assignment: `a` is deleted and the carried one extended to its end. */
  lemma MergeKeepsValid(w: World, a: Assignment, date: Day, l: Assignment, personId: int, projectId: int)
    requires WorldValid(w) && Tracks(w, Some(l), personId, projectId, date)
    requires a.id in w.store.records && w.store.records[a.id] == a && Owned(a, personId, projectId)
    requires l.id != a.id
    ensures var merged := l.(endDate := a.endDate);
      var w' := UpdateW(DeleteW(w, a.id), merged);
      && WorldValid(w')
      && Tracks(w', Some(merged), personId, projectId, date)
      && SameOutside(w.store.records, w'.store.records, personId, projectId)
      && w'.warnings == w.warnings
  {
    DeleteWValid(w, a.id);
    UpdateWValid(DeleteW(w, a.id), l.(endDate := a.endDate));
  }

  /** Splitting `a` around the day and creating the day's own assignment. */
  lemma SplitCreateKeepsValid(w: World, a: Assignment, date: Day, personId: int, projectId: int, allocation: int)
    requires WorldValid(w)
    requires a.id in w.store.records && w.store.records[a.id] == a && Owned(a, personId, projectId)
    ensures var (w', created) := CreateW(SplitW(w, a, date), personId, projectId, date, date, allocation);
      && WorldValid(w')
      && Tracks(w', Some(created), personId, projectId, date)
      && SameOutside(w.store.records, w'.store.records, personId, projectId)
      && w'.warnings == w.warnings
  {
    var split := SplitW(w, a, date);
    SplitWValid(w, a, date);
    CreateWValid(split, personId, projectId, date, date, allocation);
    SameOutsideTrans(w.store.records, split.store.records,
                     CreateW(split, personId, projectId, date, date, allocation).0.store.records,
                     personId, projectId);
  }

  // ----- what a day's outcome looks like -----

  /** A weekend day changes nothing and keeps the carried assignment. */
  lemma SyncDaySkipsWeekend(w: World, date: Day, entries: seq<Entry>, last: Option<Assignment>,
                            personId: int, projectId: int, lastName: string)
    requires IsWeekend(date)
    ensures SyncDay(w, date, entries, last, personId, projectId, lastName) == DayOutcome(w, last, false)
  {
  }

  /** A weekday with no entries and no assignment changes nothing and drops the carried assignment. */
  lemma SyncDayIdleDay(w: World, date: Day, last: Option<Assignment>, personId: int, projectId: int, lastName: string)
    requires !IsWeekend(date)
    requires FindOnDate(Lookup(w.index, personId), projectId, date).None?
    ensures SyncDay(w, date, [], last, personId, projectId, lastName) == DayOutcome(w, None, false)
  {
  }

  /**
    A weekday whose entries round outside [0, 24] hours records one
    warning (once) and changes neither the destination, the index nor the
    carried assignment.
   */
  lemma SyncDayRejectsAllocation(w: World, date: Day, entries: seq<Entry>, last: Option<Assignment>,
                                 personId: int, projectId: int, lastName: string)
    requires !IsWeekend(date) && entries != []
    requires !ValidAllocation(Allocation(entries, HalfHour))
    ensures var o := SyncDay(w, date, entries, last, personId, projectId, lastName);
      && o.world.store == w.store && o.world.index == w.index && o.last == last && !o.changed
      && o.world.warnings
         == AddDistinct(w.warnings, InvalidAllocation(personId, projectId, date, lastName, Allocation(entries, HalfHour)))
  {
  }

  /**
    Entries and no assignment on a weekday: a carried assignment of equal
    allocation keeps its id and now ends on the day; otherwise a record
    [date, date] with a fresh id is created. Either becomes the carried one.
   */
  lemma SyncDayFillsFreeDay(w: World, date: Day, entries: seq<Entry>, last: Option<Assignment>,
                            personId: int, projectId: int, lastName: string)
    requires WorldValid(w)
    requires !IsWeekend(date) && entries != []
    requires FindOnDate(Lookup(w.index, personId), projectId, date).None?
    requires ValidAllocation(Allocation(entries, HalfHour))
    ensures var o, allocation := SyncDay(w, date, entries, last, personId, projectId, lastName), Allocation(entries, HalfHour);
      && o.changed && o.last.Some?
      && (ShouldExtendPrevAssignment(last, allocation) ==>
            && o.last.value == last.value.(endDate := date)
            && o.world.store.records == w.store.records[last.value.id := o.last.value])
      && (!ShouldExtendPrevAssignment(last, allocation) ==>
            && o.last.value.id !in w.store.records
            && o.last.value == Assignment(o.last.value.id, personId, projectId, date, date, allocation)
            && o.world.store.records == w.store.records[o.last.value.id := o.last.value])
  {
    if !ShouldExtendPrevAssignment(last, Allocation(entries, HalfHour)) {
      CreateWValid(w, personId, projectId, date, date, Allocation(entries, HalfHour));
    }
  }

  /**
    A weekday with entries whose allocation is accepted ends with a carried
    assignment that is the person's stored and indexed record on the
    project, covers the day, and has exactly the day's allocation.
   */
  lemma {:induction false} SyncDayCoversEntries(w: World, date: Day, entries: seq<Entry>, last: Option<Assignment>,
                                                personId: int, projectId: int, lastName: string)
    requires WorldValid(w) && Tracks(w, last, personId, projectId, date)
    requires !IsWeekend(date) && entries != []
    requires ValidAllocation(Allocation(entries, HalfHour))
    ensures var o := SyncDay(w, date, entries, last, personId, projectId, lastName);
      && o.last.Some?
      && o.last.value.id in o.world.store.records && o.world.store.records[o.last.value.id] == o.last.value
      && o.last.value in Lookup(o.world.index, personId)
      && CoversDay(o.last.value, projectId, date)
      && o.last.value.allocation == Allocation(entries, HalfHour)
  {
    var o := SyncDay(w, date, entries, last, personId, projectId, lastName);
    var allocation := Allocation(entries, HalfHour);
    var found := FindOnDate(Lookup(w.index, personId), projectId, date);
    FoundIsStored(w, personId, projectId, date);
    SyncDayKeepsValid(w, date, entries, last, personId, projectId, lastName);
    var extend := ShouldExtendPrevAssignment(last, allocation);
    if found.None? {
      if extend {
        UpdateWValid(w, last.value.(endDate := date));
      } else {
        CreateWValid(w, personId, projectId, date, date, allocation);
      }
    } else {
      var a := found.value;
      if (a.allocation == allocation && extend && last.value.id != a.id)
         || (a.allocation != allocation && IsSingleDayAssignment(a) && extend) {
        assert last.value.id != a.id;
        DeleteWValid(w, a.id);
        UpdateWValid(DeleteW(w, a.id), last.value.(endDate := a.endDate));
      } else if a.allocation == allocation {
        assert o.world == w && o.last == Some(a);
        assert a in Lookup(w.index, personId);
      } else if IsSingleDayAssignment(a) {
        UpdateWValid(w, a.(allocation := allocation));
      } else {
        SplitWValid(w, a, date);
        CreateWValid(SplitW(w, a, date), personId, projectId, date, date, allocation);
      }
    }
  }

  /**
    A weekday with no entries but an assignment on it: a single-day
    assignment is deleted and nothing else; a longer one keeps its id with
    the split's bounds. Afterwards no record of the destination that covers
    the day on the project was created or changed by the step, and the found
    assignment no longer covers it; the carried assignment is dropped.
   */
  lemma {:induction false} SyncDayClearsEmptyDay(w: World, date: Day, last: Option<Assignment>,
                                                 personId: int, projectId: int, lastName: string)
    requires WorldValid(w)
    requires !IsWeekend(date)
    requires FindOnDate(Lookup(w.index, personId), projectId, date).Some?
    ensures var o, a := SyncDay(w, date, [], last, personId, projectId, lastName),
                        FindOnDate(Lookup(w.index, personId), projectId, date).value;
      && o.changed && o.last.None?
      && !(a.id in o.world.store.records && CoversDay(o.world.store.records[a.id], projectId, date))
      && (forall id :: id in o.world.store.records && CoversDay(o.world.store.records[id], projectId, date) ==>
            id in w.store.records && o.world.store.records[id] == w.store.records[id])
      && (IsSingleDayAssignment(a) ==> o.world.store.records == w.store.records - {a.id})
      && (!IsSingleDayAssignment(a) ==>
            a.id in o.world.store.records && o.world.store.records[a.id] == SplitPieces(a, date).updated)
  {
    var a := FindOnDate(Lookup(w.index, personId), projectId, date).value;
    FoundIsStored(w, personId, projectId, date);
    EmptyDayAllocatesNothing(HalfHour);
    if IsSingleDayAssignment(a) {
      DeleteWValid(w, a.id);
    } else {
      SplitWValid(w, a, date);
      var plan := SplitPieces(a, date);
      assert !InPlan(plan, date);
    }
  }

  /**
    A day already in sync is left alone: when the assignment found on the
    day has the day's allocation and the carried assignment is not another
    one of that allocation, nothing is written and the found assignment
    becomes the carried one.
   */
  lemma SyncDayInSyncIsNoOp(w: World, date: Day, entries: seq<Entry>, last: Option<Assignment>,
                            personId: int, projectId: int, lastName: string)
    requires !IsWeekend(date) && entries != []
    requires ValidAllocation(Allocation(entries, HalfHour))
    requires var found := FindOnDate(Lookup(w.index, personId), projectId, date);
      && found.Some? && found.value.allocation == Allocation(entries, HalfHour)
      && (last.None? || last.value.id == found.value.id || last.value.allocation != Allocation(entries, HalfHour))
    ensures SyncDay(w, date, entries, last, personId, projectId, lastName)
         == DayOutcome(w, FindOnDate(Lookup(w.index, personId), projectId, date), false)
  {
  }
}
