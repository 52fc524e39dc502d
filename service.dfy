/**
  SyncService as an object: the loaded projects and users, the links
  between the two systems, the local index of assignments, the collected
  messages, and the destination it writes to. Each method changes these
  fields as the corresponding method of the service does, and is proved
  to leave the engine state equal to the pure model of that step.
 */
module Service {

  import opened Wrappers
  import opened Dates
  import opened Entries
  import opened Assignments
  import opened Forecast
  import opened Windows
  import opened Warnings
  import opened Engine
  import opened Reconciler
  import opened Linking
  import opened UserSync

  class SyncService {
    /** The destination the assignments are written to. */
    const forecast: ForecastStore
    var harvestProjects: seq<HarvestProject>
    var forecastProjects: seq<ForecastProject>
    var linkedProjects: map<int, int>
    var harvestUsers: seq<HarvestUser>
    var forecastUsers: seq<ForecastPerson>
    var linkedUsers: map<int, int>
    var assignments: Index
    var notFoundErrors: seq<Warning>

    /** The engine state the object holds. */
    function Snapshot(): World
      reads this`assignments, this`notFoundErrors, forecast
    {
      World(forecast.State(), assignments, notFoundErrors)
    }

    ghost predicate Valid()
      reads this`assignments, this`notFoundErrors, forecast
    {
      WorldValid(Snapshot())
    }

    /** The source-side client is not kept: what it returns is passed to the methods that use it. */
    constructor (forecast: ForecastStore)
      requires forecast.Valid()
      ensures this.forecast == forecast && Valid()
      ensures harvestProjects == [] && forecastProjects == [] && linkedProjects == map[]
      ensures harvestUsers == [] && forecastUsers == [] && linkedUsers == map[]
      ensures assignments == map[] && notFoundErrors == []
    {
      this.forecast := forecast;
      harvestProjects, forecastProjects, linkedProjects := [], [], map[];
      harvestUsers, forecastUsers, linkedUsers := [], [], map[];
      assignments, notFoundErrors := map[], [];
    }

    /** addNotFoundError: record the message unless it is already there. */
    method AddNotFoundError(message: Warning)
      requires Valid()
      modifies this`notFoundErrors
      ensures Valid()
      ensures Snapshot() == Warn(old(Snapshot()), message)
    {
      if message !in notFoundErrors {
        notFoundErrors := notFoundErrors + [message];
      }
    }

    /** updateLocalAssignments: file the assignment under its person, creating the person's list if needed. */
    method UpdateLocalAssignments(a: Assignment)
      modifies this`assignments
      ensures assignments == UpdateLocal(old(assignments), a)
    {
      if a.personId !in assignments {
        assignments := assignments[a.personId := []];
      }
      assignments := assignments[a.personId := Upsert(assignments[a.personId], a)];
    }

    /** createAssignment: post the assignment and index what the destination returns. */
    method CreateAssignment(userId: int, projectId: int, startDate: Day, endDate: Day, allocation: int)
      returns (a: Assignment)
      requires Valid()
      modifies forecast, this`assignments
      ensures Valid()
      ensures CreateW(old(Snapshot()), userId, projectId, startDate, endDate, allocation) == (Snapshot(), a)
    {
      ghost var w0 := Snapshot();
      a := forecast.PostAssignment(userId, projectId, startDate, endDate, allocation);
      UpdateLocalAssignments(a);
      CreateWValid(w0, userId, projectId, startDate, endDate, allocation);
    }

    /**
      updateAssignment: put the assignment and index what the destination
      returns. The destination refuses an id it does not hold, and the sync
      never moves an assignment to another person.
     */
    method UpdateAssignment(a: Assignment) returns (stored: Assignment)
      requires Valid()
      requires a.id in forecast.records && forecast.records[a.id].personId == a.personId
      modifies forecast, this`assignments
      ensures Valid()
      ensures stored == a && Snapshot() == UpdateW(old(Snapshot()), a)
    {
      ghost var w0 := Snapshot();
      stored := forecast.PutAssignment(a);
      UpdateLocalAssignments(stored);
      UpdateWValid(w0, a);
    }

    /**
      deleteAssignment: delete the record, then unset the id from the first
      person's list that holds it; the result says whether one did.
     */
    method DeleteAssignment(id: int) returns (found: bool)
      requires Valid()
      modifies forecast, this`assignments
      ensures Valid()
      ensures Snapshot() == DeleteW(old(Snapshot()), id)
      ensures found <==> exists p :: p in old(assignments) && HasId(old(assignments)[p], id)
    {
      ghost var w0 := Snapshot();
      forecast.DeleteAssignment(id);
      DeleteWValid(w0, id);
      var people := assignments.Keys;
      while people != {}
        invariant people <= assignments.Keys
        invariant assignments == w0.index
        invariant forall p :: p in assignments && p !in people ==> !HasId(assignments[p], id)
        decreases people
      {
        if forall q :: q !in people { assert false; }
        var p :| p in people;
        if HasId(assignments[p], id) {
          RemoveIdAt(w0.store.records, w0.index, id, p);
          assignments := assignments[p := Unset(assignments[p], id)];
          return true;
        }
        people := people - {p};
      }
      RemoveIdAbsent(w0.index, id);
      return false;
    }

    /**
      findAssignmentOnDate: the first of the person's assignments, in index
      order, on the project and covering the date; none when the person has
      no assignments loaded.
     */
    method FindAssignmentOnDate(userId: int, projectId: int, date: Day) returns (r: Option<Assignment>)
      ensures r == FindOnDate(Lookup(assignments, userId), projectId, date)
    {
      if userId !in assignments {
        return None;
      }
      var list := assignments[userId];
      var i := 0;
      while i < |list|
        invariant 0 <= i <= |list|
        invariant FindOnDate(list[i..], projectId, date) == FindOnDate(list, projectId, date)
      {
        var a := list[i];
        assert list[i..][1..] == list[i + 1..];
        if a.projectId != projectId {
          i := i + 1;
          continue;
        }
        if a.startDate <= date && date <= a.endDate {
          return Some(a);
        }
        i := i + 1;
      }
      return None;
    }

    /**
      splitAssignment: take the day out of a multi-day assignment (moving
      its start or end to the next or previous weekday, or cutting it in two
      around the day) and return the updated assignment. A single-day
      assignment cannot be split: the source throws, modelled as None with
      nothing changed.
     */
    method SplitAssignment(a: Assignment, splitOn: Day) returns (updated: Option<Assignment>)
      requires Valid()
      requires a.id in forecast.records && forecast.records[a.id].personId == a.personId
      modifies forecast, this`assignments
      ensures Valid()
      ensures IsSingleDayAssignment(a) ==> updated.None? && Snapshot() == old(Snapshot())
      ensures !IsSingleDayAssignment(a) ==>
                updated == Some(SplitPieces(a, splitOn).updated) && Snapshot() == SplitW(old(Snapshot()), a, splitOn)
    {
      if a.startDate == a.endDate {
        return None;
      }
      ghost var w0 := Snapshot();
      var dayBeforeSplit := ModifyDateString(splitOn, Backward);
      var dayAfterSplit := ModifyDateString(splitOn, Forward);
      var dayAfterStart := ModifyDateString(a.startDate, Forward);
      var dayBeforeEnd := ModifyDateString(a.endDate, Backward);
      var createNew := false;
      var b := a;
      if a.startDate == splitOn {
        b := b.(startDate := dayAfterStart);
      } else if a.endDate == splitOn {
        b := b.(endDate := dayBeforeEnd);
      } else {
        b := b.(endDate := dayBeforeSplit);
        createNew := true;
      }
      var u := UpdateAssignment(b);
      if createNew {
        var _ := CreateAssignment(b.personId, b.projectId, dayAfterSplit, a.endDate, b.allocation);
      }
      SplitWValid(w0, a, splitOn);
      return Some(u);
    }

    /**
      syncUserEntriesOnDate: reconcile one day of one person's project with
      the hours logged that day. `last` in and `last'` out stand for the
      by-reference lastDateAssignment; the result is the source's return
      value. The new state, the carried assignment and the result are those
      of SyncDay, whose properties are proved in the Reconciler module.
     */
    method SyncUserEntriesOnDate(date: Day, dateEntries: map<Day, seq<Entry>>, userId: int, projectId: int,
                                 last: Option<Assignment>, harvestUser: HarvestUser)
      returns (changed: bool, last': Option<Assignment>)
      requires Valid() && Tracks(Snapshot(), last, userId, projectId, date)
      modifies forecast, this`assignments, this`notFoundErrors
      ensures Valid() && Tracks(Snapshot(), last', userId, projectId, date)
      ensures var o := SyncDay(old(Snapshot()), date, EntriesFor(dateEntries, date), last,
                               userId, projectId, harvestUser.lastName);
              Snapshot() == o.world && last' == o.last && changed == o.changed
    {
      ghost var w0 := Snapshot();
      SyncDayKeepsValid(w0, date, EntriesFor(dateEntries, date), last, userId, projectId, harvestUser.lastName);
      last' := last;
      if IsWeekend(date) {
        return false, last';
      }
      var entries: seq<Entry> := [];
      if date in dateEntries {
        entries := dateEntries[date];
      }
      var assignment := FindAssignmentOnDate(userId, projectId, date);
      if entries == [] && assignment.None? {
        return false, None;
      }
      var allocation := CalculateAllocationFromEntries(entries, HalfHour);
      if allocation < 0 || allocation > MaxDaySeconds {
        AddNotFoundError(InvalidAllocation(userId, projectId, date, harvestUser.lastName, allocation));
        return false, last';
      }
      if assignment.None? {
        last' := FillDate(date, userId, projectId, last, allocation);
        return true, last';
      }
      FoundIsStored(w0, userId, projectId, date);
      if entries == [] {
        ClearDate(assignment.value, date);
        return true, None;
      }
      changed, last' := ReconcileDate(assignment.value, date, userId, projectId, last, allocation);
    }

    /** The day has entries but no assignment: extend the carried assignment to it, or create one for it. */
    method FillDate(date: Day, userId: int, projectId: int, last: Option<Assignment>, allocation: int)
      returns (last': Option<Assignment>)
      requires Valid() && Tracks(Snapshot(), last, userId, projectId, date)
      modifies forecast, this`assignments
      ensures Valid()
      ensures var o := FillDay(old(Snapshot()), date, last, userId, projectId, allocation);
              Snapshot() == o.world && last' == o.last
    {
      if ShouldExtendPrevAssignment(last, allocation) {
        var extended := UpdateAssignment(last.value.(endDate := date));
        last' := Some(extended);
      } else {
        var created := CreateAssignment(userId, projectId, date, date, allocation);
        last' := Some(created);
      }
    }

    /** The day has an assignment but no entries: delete a single-day assignment, split any other. */
    method ClearDate(a: Assignment, date: Day)
      requires Valid() && a.id in forecast.records && forecast.records[a.id] == a
      modifies forecast, this`assignments
      ensures Valid()
      ensures Snapshot() == ClearDay(old(Snapshot()), a, date).world
    {
      if IsSingleDayAssignment(a) {
        var _ := DeleteAssignment(a.id);
      } else {
        var _ := SplitAssignment(a, date);
      }
    }

    /**
      The day has entries and an assignment: keep it or merge it into the
      carried one when the allocation matches, otherwise give a single-day
      assignment the new allocation (or merge it), or split a longer one and
      create a single-day assignment for the day.
     */
    method ReconcileDate(a: Assignment, date: Day, userId: int, projectId: int, last: Option<Assignment>, allocation: int)
      returns (changed: bool, last': Option<Assignment>)
      requires Valid() && Tracks(Snapshot(), last, userId, projectId, date)
      requires a.id in forecast.records && forecast.records[a.id] == a && a.personId == userId
      modifies forecast, this`assignments
      ensures Valid()
      ensures var o := ReconcileDay(old(Snapshot()), a, date, last, userId, projectId, allocation);
              Snapshot() == o.world && last' == o.last && changed == o.changed
    {
      if a.allocation == allocation {
        if ShouldExtendPrevAssignment(last, allocation) && last.value.id != a.id {
          var _ := DeleteAssignment(a.id);
          var merged := UpdateAssignment(last.value.(endDate := a.endDate));
          last' := Some(merged);
        } else {
          last' := Some(a);
        }
        return false, last';
      }
      if IsSingleDayAssignment(a) {
        if ShouldExtendPrevAssignment(last, allocation) {
          var _ := DeleteAssignment(a.id);
          var merged := UpdateAssignment(last.value.(endDate := a.endDate));
          last' := Some(merged);
        } else {
          var updated := UpdateAssignment(a.(allocation := allocation));
          last' := Some(updated);
        }
      } else {
        var _ := SplitAssignment(a, date);
        var created := CreateAssignment(userId, projectId, date, date, allocation);
        last' := Some(created);
      }
      return true, last';
    }

    /** `max(array_keys($dateEntries))`: the latest date with entries. */
    method LastEntryDate(dateEntries: map<Day, seq<Entry>>) returns (m: Day)
      requires dateEntries != map[]
      ensures m in dateEntries && forall d :: d in dateEntries ==> d <= m
    {
      var dates := dateEntries.Keys;
      if forall d :: d !in dates { assert false; }
      var first :| first in dates;
      m := first;
      dates := dates - {first};
      while dates != {}
        invariant dates <= dateEntries.Keys && m in dateEntries
        invariant forall d :: d in dateEntries && d !in dates ==> d <= m
        decreases dates
      {
        if forall d :: d !in dates { assert false; }
        var d :| d in dates;
        if d > m {
          m := d;
        }
        dates := dates - {d};
      }
    }

    /**
      The date loop of syncUserEntries for one linked project: every date
      from `from` to the last entry date in turn, with no carried assignment
      at the start.
     */
    method SyncProjectDates(dateEntries: map<Day, seq<Entry>>, from: Day, forecastUserId: int,
                            forecastProjectId: int, user: HarvestUser)
      requires Valid() && dateEntries != map[]
      modifies forecast, this`assignments, this`notFoundErrors
      ensures Valid()
      ensures Snapshot() == SyncDays(old(Snapshot()), from, MaxKey(dateEntries), dateEntries, None,
                                     forecastUserId, forecastProjectId, user.lastName).0
    {
      var lastEntryDate := LastEntryDate(dateEntries);
      assert lastEntryDate == MaxKey(dateEntries);
      ghost var w0 := Snapshot();
      var curDate := from;
      var lastDateAssignment: Option<Assignment> := None;
      while curDate <= lastEntryDate
        invariant Valid() && Tracks(Snapshot(), lastDateAssignment, forecastUserId, forecastProjectId, curDate)
        invariant SyncDays(Snapshot(), curDate, lastEntryDate, dateEntries, lastDateAssignment,
                           forecastUserId, forecastProjectId, user.lastName)
                  == SyncDays(w0, from, lastEntryDate, dateEntries, None, forecastUserId, forecastProjectId, user.lastName)
        decreases lastEntryDate - curDate
      {
        var _, carried := SyncUserEntriesOnDate(curDate, dateEntries, forecastUserId, forecastProjectId,
                                                lastDateAssignment, user);
        lastDateAssignment := carried;
        curDate := curDate + 1;
      }
    }

    /**
      syncUserEntries. An unlinked user is the exception sync catches,
      returned here as its message with nothing changed. A linked user has
      each project of its entries synced: an unlinked project is reported,
      and a linked one has every date from `from` to its last entry date
      reconciled, carrying the assignment from one date to the next.
     */
    method SyncUserEntries(user: HarvestUser, from: Day, userEntries: seq<Entry>) returns (notFound: Option<Warning>)
      requires Valid()
      modifies forecast, this`assignments, this`notFoundErrors
      ensures Valid()
      ensures user.id !in linkedUsers ==>
                notFound == Some(UserNotFound(user.firstName, user.lastName, user.id)) && Snapshot() == old(Snapshot())
      ensures user.id in linkedUsers ==>
                && notFound.None?
                && Snapshot() == SyncGroups(old(Snapshot()), GroupEntriesByProjectAndDate(userEntries), from,
                                            linkedUsers[user.id], user.lastName, linkedProjects, harvestProjects)
    {
      if user.id !in linkedUsers {
        return Some(UserNotFound(user.firstName, user.lastName, user.id));
      }
      var forecastUserId := linkedUsers[user.id];
      var entriesByProject := GroupEntriesByProjectAndDate(userEntries);
      ghost var w0 := Snapshot();
      var i := 0;
      while i < |entriesByProject|
        invariant 0 <= i <= |entriesByProject| && Valid()
        invariant SyncGroups(Snapshot(), entriesByProject[i..], from, forecastUserId, user.lastName, linkedProjects, harvestProjects)
                  == SyncGroups(w0, entriesByProject, from, forecastUserId, user.lastName, linkedProjects, harvestProjects)
      {
        var group := entriesByProject[i];
        assert entriesByProject[i..][1..] == entriesByProject[i + 1..];
        if group.projectId !in linkedProjects {
          AddNotFoundError(ProjectNotFound(ProjectName(harvestProjects, group.projectId), group.projectId));
          i := i + 1;
          continue;
        }
        var forecastProjectId := linkedProjects[group.projectId];
        SyncProjectDates(group.byDate, from, forecastUserId, forecastProjectId, user);
        i := i + 1;
      }
      return None;
    }

    // ----- the whole sync -----

    /**
      loadAssignments: fetch the destination's assignments for the range,
      in 180-day windows when the range is longer than that, and index them
      by person. Every well-formed record meeting the range is indexed.
     */
    method LoadAssignments(from: Day, upTo: Day)
      requires Valid()
      modifies this`assignments
      ensures Valid()
      ensures assignments == GroupAssignmentsByUser(FetchAll(forecast.State(), RangeWindows(from, upTo)))
      ensures forall id :: id in forecast.records && Overlaps(forecast.records[id], from, upTo) ==>
                (forecast.records[id].startDate <= forecast.records[id].endDate ==>
                 forecast.records[id] in Lookup(assignments, forecast.records[id].personId))
    {
      var fetched: seq<Assignment>;
      if DaysBetween(from, upTo) > WindowDays {
        fetched := FetchChunks(from, upTo);
      } else {
        fetched := forecast.GetAssignments(from, upTo);
      }
      FetchRangeWindows(forecast.State(), from, upTo);
      assignments := GroupAssignmentsByUser(fetched);
      LoadedIndexMirrors(forecast.State(), from, upTo);
    }

    /** The cursor loop of loadAssignments: a 180-day window at a time until one reaches the end. */
    method FetchChunks(from: Day, upTo: Day) returns (fetched: seq<Assignment>)
      requires forecast.Valid()
      ensures fetched == FetchAll(forecast.State(), Chunks(from, upTo))
    {
      ghost var st := forecast.State();
      ghost var total := FetchAll(st, Chunks(from, upTo));
      fetched := [];
      var hasMore := true;
      var fromCursor := from;
      while hasMore
        invariant hasMore ==> fetched + FetchAll(st, Chunks(fromCursor, upTo)) == total
        invariant !hasMore ==> fetched == total
        decreases if hasMore then (if upTo > fromCursor then upTo - fromCursor else 0) + 1 else 0
      {
        var newTo := fromCursor + WindowDays;
        var got := forecast.GetAssignments(fromCursor, newTo);
        FetchChunksStep(st, fetched, fromCursor, upTo, total);
        fetched := fetched + got;
        fromCursor := newTo;
        if fromCursor >= upTo {
          hasMore := false;
        }
      }
    }

    /**
      sync: load and link the projects and the users, load the range's
      assignments, then sync every source user's entries in turn, each
      user's "not found" condition becoming a message; the messages are
      returned. The end state is the pure user loop run on the loaded
      state, so only the records of linked people change, the messages
      from before stay first, and every unlinked user is reported.
     */
    method Sync(from: Day, upTo: Day, projects: seq<HarvestProject>, destinationProjects: seq<ForecastProject>,
                users: seq<HarvestUser>, people: seq<ForecastPerson>, userEntries: map<int, seq<Entry>>)
      returns (errors: seq<Warning>)
      requires Valid()
      modifies this, forecast
      ensures Valid()
      ensures harvestProjects == Loaded(old(harvestProjects), projects, HarvestProjectKey, AnyHarvestProject)
      ensures forecastProjects == Loaded(old(forecastProjects), destinationProjects, ForecastProjectKey, ActiveProject)
      ensures linkedProjects == LinkProjectsInto(old(linkedProjects), harvestProjects, forecastProjects)
      ensures harvestUsers == Loaded(old(harvestUsers), users, HarvestUserKey, AnyHarvestUser)
      ensures forecastUsers == Loaded(old(forecastUsers), people, ForecastPersonKey, ActivePerson)
      ensures linkedUsers == LinkUsersInto(old(linkedUsers), harvestUsers, forecastUsers)
      ensures var loaded := World(old(forecast.State()),
                                  GroupAssignmentsByUser(FetchAll(old(forecast.State()), RangeWindows(from, upTo))),
                                  old(notFoundErrors));
              Snapshot() == SyncUsers(loaded, harvestUsers, userEntries, from, linkedUsers, linkedProjects, harvestProjects)
      ensures SameOutsidePeople(old(forecast.records), forecast.records, LinkedPeople(harvestUsers, linkedUsers))
      ensures Extends(old(notFoundErrors), errors)
      ensures forall u :: u in harvestUsers && u.id !in linkedUsers ==> UserNotFound(u.firstName, u.lastName, u.id) in errors
      ensures errors == notFoundErrors
    {
      LoadAndLink(projects, destinationProjects, users, people);
      errors := LoadAndSyncUsers(from, upTo, userEntries);
    }

    /** The part of sync after linking: load the range's assignments, then run the user loop. */
    method LoadAndSyncUsers(from: Day, upTo: Day, userEntries: map<int, seq<Entry>>) returns (errors: seq<Warning>)
      requires Valid()
      modifies forecast, this`assignments, this`notFoundErrors
      ensures Valid()
      ensures var loaded := World(old(forecast.State()),
                                  GroupAssignmentsByUser(FetchAll(old(forecast.State()), RangeWindows(from, upTo))),
                                  old(notFoundErrors));
              Snapshot() == SyncUsers(loaded, harvestUsers, userEntries, from, linkedUsers, linkedProjects, harvestProjects)
      ensures SameOutsidePeople(old(forecast.records), forecast.records, LinkedPeople(harvestUsers, linkedUsers))
      ensures Extends(old(notFoundErrors), errors)
      ensures forall u :: u in harvestUsers && u.id !in linkedUsers ==> UserNotFound(u.firstName, u.lastName, u.id) in errors
      ensures errors == notFoundErrors
    {
      LoadAssignments(from, upTo);
      SyncAllUsers(from, userEntries);
      errors := notFoundErrors;
    }

    /** The loading and linking sync does before touching any assignment. */
    method LoadAndLink(projects: seq<HarvestProject>, destinationProjects: seq<ForecastProject>,
                       users: seq<HarvestUser>, people: seq<ForecastPerson>)
      modifies this`harvestProjects, this`forecastProjects, this`linkedProjects
      modifies this`harvestUsers, this`forecastUsers, this`linkedUsers
      ensures harvestProjects == Loaded(old(harvestProjects), projects, HarvestProjectKey, AnyHarvestProject)
      ensures forecastProjects == Loaded(old(forecastProjects), destinationProjects, ForecastProjectKey, ActiveProject)
      ensures linkedProjects == LinkProjectsInto(old(linkedProjects), harvestProjects, forecastProjects)
      ensures harvestUsers == Loaded(old(harvestUsers), users, HarvestUserKey, AnyHarvestUser)
      ensures forecastUsers == Loaded(old(forecastUsers), people, ForecastPersonKey, ActivePerson)
      ensures linkedUsers == LinkUsersInto(old(linkedUsers), harvestUsers, forecastUsers)
    {
      LoadHarvestProjects(projects);
      LoadForecastProjects(destinationProjects);
      LinkProjects();
      LoadHarvestUsers(users);
      LoadForecastUsers(people);
      LinkUsers();
    }

    /** The user loop of sync: each user's entries synced, a user's "not found" condition recorded as a message. */
    method SyncAllUsers(from: Day, userEntries: map<int, seq<Entry>>)
      requires Valid()
      modifies forecast, this`assignments, this`notFoundErrors
      ensures Valid()
      ensures Snapshot() == SyncUsers(old(Snapshot()), harvestUsers, userEntries, from, linkedUsers, linkedProjects, harvestProjects)
      ensures SameOutsidePeople(old(forecast.records), forecast.records, LinkedPeople(harvestUsers, linkedUsers))
      ensures Extends(old(notFoundErrors), notFoundErrors)
      ensures forall u :: u in harvestUsers && u.id !in linkedUsers ==> UserNotFound(u.firstName, u.lastName, u.id) in notFoundErrors
    {
      ghost var loaded := Snapshot();
      SyncUsersKeepsValid(loaded, harvestUsers, userEntries, from, linkedUsers, linkedProjects, harvestProjects);
      var i := 0;
      while i < |harvestUsers|
        invariant 0 <= i <= |harvestUsers| && Valid()
        invariant SyncUsers(Snapshot(), harvestUsers[i..], userEntries, from, linkedUsers, linkedProjects, harvestProjects)
                  == SyncUsers(loaded, harvestUsers, userEntries, from, linkedUsers, linkedProjects, harvestProjects)
      {
        var user := harvestUsers[i];
        assert harvestUsers[i..][1..] == harvestUsers[i + 1..];
        var notFound := SyncUserEntries(user, from, EntriesOf(userEntries, user.id));
        if notFound.Some? {
          AddNotFoundError(notFound.value);
        }
        i := i + 1;
      }
    }

    // ----- loading and linking -----

    /** loadHarvestProjects: append each fetched project whose id is not loaded yet. */
    method LoadHarvestProjects(projects: seq<HarvestProject>)
      modifies this`harvestProjects
      ensures harvestProjects == Loaded(old(harvestProjects), projects, HarvestProjectKey, AnyHarvestProject)
    {
      var i := 0;
      while i < |projects|
        invariant 0 <= i <= |projects|
        invariant harvestProjects == Loaded(old(harvestProjects), projects[..i], HarvestProjectKey, AnyHarvestProject)
      {
        assert projects[..i + 1][..i] == projects[..i];
        var project := projects[i];
        if !HasKey(harvestProjects, project.id, HarvestProjectKey) {
          harvestProjects := harvestProjects + [project];
        }
        i := i + 1;
      }
      assert projects[..i] == projects;
    }

    /** loadForecastProjects: as loadHarvestProjects, skipping archived projects. */
    method LoadForecastProjects(projects: seq<ForecastProject>)
      modifies this`forecastProjects
      ensures forecastProjects == Loaded(old(forecastProjects), projects, ForecastProjectKey, ActiveProject)
    {
      var i := 0;
      while i < |projects|
        invariant 0 <= i <= |projects|
        invariant forecastProjects == Loaded(old(forecastProjects), projects[..i], ForecastProjectKey, ActiveProject)
      {
        assert projects[..i + 1][..i] == projects[..i];
        var project := projects[i];
        if !project.archived && !HasKey(forecastProjects, project.id, ForecastProjectKey) {
          forecastProjects := forecastProjects + [project];
        }
        i := i + 1;
      }
      assert projects[..i] == projects;
    }

    /** loadHarvestUsers: append each fetched user whose id is not loaded yet. */
    method LoadHarvestUsers(users: seq<HarvestUser>)
      modifies this`harvestUsers
      ensures harvestUsers == Loaded(old(harvestUsers), users, HarvestUserKey, AnyHarvestUser)
    {
      var i := 0;
      while i < |users|
        invariant 0 <= i <= |users|
        invariant harvestUsers == Loaded(old(harvestUsers), users[..i], HarvestUserKey, AnyHarvestUser)
      {
        assert users[..i + 1][..i] == users[..i];
        var user := users[i];
        if !HasKey(harvestUsers, user.id, HarvestUserKey) {
          harvestUsers := harvestUsers + [user];
        }
        i := i + 1;
      }
      assert users[..i] == users;
    }

    /** loadForecastUsers: as loadHarvestUsers, skipping archived people. */
    method LoadForecastUsers(users: seq<ForecastPerson>)
      modifies this`forecastUsers
      ensures forecastUsers == Loaded(old(forecastUsers), users, ForecastPersonKey, ActivePerson)
    {
      var i := 0;
      while i < |users|
        invariant 0 <= i <= |users|
        invariant forecastUsers == Loaded(old(forecastUsers), users[..i], ForecastPersonKey, ActivePerson)
      {
        assert users[..i + 1][..i] == users[..i];
        var user := users[i];
        if !user.archived && !HasKey(forecastUsers, user.id, ForecastPersonKey) {
          forecastUsers := forecastUsers + [user];
        }
        i := i + 1;
      }
      assert users[..i] == users;
    }

    /**
      linkProjects: for each source project, the first destination project
      explicitly linked to it, else the last one with the same name.
     */
    method LinkProjects()
      modifies this`linkedProjects
      ensures linkedProjects == LinkProjectsInto(old(linkedProjects), harvestProjects, forecastProjects)
    {
      var i := 0;
      while i < |harvestProjects|
        invariant 0 <= i <= |harvestProjects|
        invariant linkedProjects == LinkProjectsInto(old(linkedProjects), harvestProjects[..i], forecastProjects)
      {
        LinkProjectsStep(old(linkedProjects), harvestProjects, forecastProjects, i);
        LinkProject(harvestProjects[i]);
        i := i + 1;
      }
      assert harvestProjects[..i] == harvestProjects;
    }

    /** The body of the outer loop of linkProjects: scan the destination projects for one source project. */
    method LinkProject(project: HarvestProject)
      modifies this`linkedProjects
      ensures linkedProjects == RecordLink(old(linkedProjects), project.id, ProjectLink(project, forecastProjects))
    {
      var nameMatch: Option<int> := None;
      var j := 0;
      while j < |forecastProjects|
        invariant 0 <= j <= |forecastProjects|
        invariant ProjectScan(project, forecastProjects[j..], nameMatch) == ProjectLink(project, forecastProjects)
        invariant linkedProjects == old(linkedProjects)
      {
        var forecastProject := forecastProjects[j];
        ProjectScanStep(project, forecastProjects, j, nameMatch);
        if forecastProject.harvestId.Some? && forecastProject.harvestId.value != 0
           && forecastProject.harvestId.value == project.id {
          linkedProjects := linkedProjects[project.id := forecastProject.id];
          nameMatch := None;
          break;
        }
        if forecastProject.name == project.name {
          nameMatch := Some(forecastProject.id);
        }
        j := j + 1;
      }
      if nameMatch.Some? {
        linkedProjects := linkedProjects[project.id := nameMatch.value];
      }
    }

    /**
      linkUsers: for each source user, the first destination person
      explicitly linked to them, else the last one with the same email or
      the same first and last name.
     */
    method LinkUsers()
      modifies this`linkedUsers
      ensures linkedUsers == LinkUsersInto(old(linkedUsers), harvestUsers, forecastUsers)
    {
      var i := 0;
      while i < |harvestUsers|
        invariant 0 <= i <= |harvestUsers|
        invariant linkedUsers == LinkUsersInto(old(linkedUsers), harvestUsers[..i], forecastUsers)
      {
        LinkUsersStep(old(linkedUsers), harvestUsers, forecastUsers, i);
        LinkUser(harvestUsers[i]);
        i := i + 1;
      }
      assert harvestUsers[..i] == harvestUsers;
    }

    /** The body of the outer loop of linkUsers: scan the destination people for one source user. */
    method LinkUser(harvestUser: HarvestUser)
      modifies this`linkedUsers
      ensures linkedUsers == RecordLink(old(linkedUsers), harvestUser.id, PersonLink(harvestUser, forecastUsers))
    {
      var nameMatch: Option<int> := None;
      var j := 0;
      while j < |forecastUsers|
        invariant 0 <= j <= |forecastUsers|
        invariant PersonScan(harvestUser, forecastUsers[j..], nameMatch) == PersonLink(harvestUser, forecastUsers)
        invariant linkedUsers == old(linkedUsers)
      {
        var forecastUser := forecastUsers[j];
        PersonScanStep(harvestUser, forecastUsers, j, nameMatch);
        if forecastUser.harvestUserId.Some? && forecastUser.harvestUserId.value != 0
           && forecastUser.harvestUserId.value == harvestUser.id {
          linkedUsers := linkedUsers[harvestUser.id := forecastUser.id];
          nameMatch := None;
          break;
        }
        if forecastUser.email == harvestUser.email {
          nameMatch := Some(forecastUser.id);
        } else if forecastUser.firstName == harvestUser.firstName && forecastUser.lastName == harvestUser.lastName {
          nameMatch := Some(forecastUser.id);
        }
        j := j + 1;
      }
      if nameMatch.Some? {
        linkedUsers := linkedUsers[harvestUser.id := nameMatch.value];
      }
    }
  }
}
