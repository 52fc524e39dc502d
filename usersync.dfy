/**
  The loops of syncUserEntries and sync around the per-day step: every
  date from the start of the range to a project's last entry date, every
  project a user logged time on, and every source user.
 */
module UserSync {

  import opened Wrappers
  import opened Dates
  import opened Entries
  import opened Assignments
  import opened Forecast
  import opened Warnings
  import opened Engine
  import opened Reconciler
  import opened Linking

  /**
    The date loop of syncUserEntries: SyncDay on each date from `cur` to
    `end` in turn, carrying the assignment from one date to the next.
   */
  function SyncDays(w: World, cur: Day, end: Day, byDate: map<Day, seq<Entry>>, last: Option<Assignment>,
                    personId: int, projectId: int, lastName: string): (World, Option<Assignment>)
    decreases end - cur
  {
    if cur > end then (w, last)
    else
      var o := SyncDay(w, cur, EntriesFor(byDate, cur), last, personId, projectId, lastName);
      SyncDays(o.world, cur + 1, end, byDate, o.last, personId, projectId, lastName)
  }

  /** The messages of the first list start the second. */
  predicate Extends(ws: seq<Warning>, ws': seq<Warning>)
  {
    |ws| <= |ws'| && ws'[..|ws|] == ws
  }

  lemma ExtendsTrans(a: seq<Warning>, b: seq<Warning>, c: seq<Warning>)
    requires Extends(a, b) && Extends(b, c)
    ensures Extends(a, c) && forall x :: x in a ==> x in c
  {
    assert c[..|b|][..|a|] == c[..|a|];
    forall x | x in a ensures x in c {
      var i :| 0 <= i < |a| && a[i] == x;
      assert c[..|a|][i] == c[i];
    }
  }

  /**
    Over the date loop the state stays valid, only the person's records on
    the project change, and messages are only ever added.
   */
  lemma {:induction false} SyncDaysKeepsValid(w: World, cur: Day, end: Day, byDate: map<Day, seq<Entry>>,
                                              last: Option<Assignment>, personId: int, projectId: int, lastName: string)
    requires WorldValid(w) && Tracks(w, last, personId, projectId, cur)
    ensures var r := SyncDays(w, cur, end, byDate, last, personId, projectId, lastName);
      && WorldValid(r.0)
      && SameOutside(w.store.records, r.0.store.records, personId, projectId)
      && Extends(w.warnings, r.0.warnings)
    decreases end - cur
  {
    if cur <= end {
      var o := SyncDay(w, cur, EntriesFor(byDate, cur), last, personId, projectId, lastName);
      SyncDayKeepsValid(w, cur, EntriesFor(byDate, cur), last, personId, projectId, lastName);
      SyncDaysKeepsValid(o.world, cur + 1, end, byDate, o.last, personId, projectId, lastName);
      var r := SyncDays(o.world, cur + 1, end, byDate, o.last, personId, projectId, lastName);
      SameOutsideTrans(w.store.records, o.world.store.records, r.0.store.records, personId, projectId);
      ExtendsTrans(w.warnings, o.world.warnings, r.0.warnings);
    } else {
      assert Extends(w.warnings, w.warnings);
    }
  }

  /**
    No later date of the loop can undo the last one: when the last date is
    a weekday with entries of an accepted allocation, the loop ends with a
    carried assignment that is stored, covers that date on the project and
    has its allocation.
   */
  lemma {:induction false} SyncDaysCoversLastDate(w: World, cur: Day, end: Day, byDate: map<Day, seq<Entry>>,
                                                  last: Option<Assignment>, personId: int, projectId: int, lastName: string)
    requires WorldValid(w) && Tracks(w, last, personId, projectId, cur)
    requires cur <= end && !IsWeekend(end) && EntriesFor(byDate, end) != []
    requires ValidAllocation(Allocation(EntriesFor(byDate, end), HalfHour))
    ensures var r := SyncDays(w, cur, end, byDate, last, personId, projectId, lastName);
      && r.1.Some?
      && r.1.value.id in r.0.store.records && r.0.store.records[r.1.value.id] == r.1.value
      && CoversDay(r.1.value, projectId, end)
      && r.1.value.allocation == Allocation(EntriesFor(byDate, end), HalfHour)
    decreases end - cur
  {
    var o := SyncDay(w, cur, EntriesFor(byDate, cur), last, personId, projectId, lastName);
    if cur == end {
      SyncDayCoversEntries(w, cur, EntriesFor(byDate, cur), last, personId, projectId, lastName);
      assert SyncDays(o.world, cur + 1, end, byDate, o.last, personId, projectId, lastName) == (o.world, o.last);
    } else {
      SyncDayKeepsValid(w, cur, EntriesFor(byDate, cur), last, personId, projectId, lastName);
      SyncDaysCoversLastDate(o.world, cur + 1, end, byDate, o.last, personId, projectId, lastName);
    }
  }

  // ----- a run of equal days becomes one assignment -----

  /** No assignment of the list on the project covers a day of [from, to]. */
  predicate CoversNone(s: seq<Assignment>, projectId: int, from: Day, to: Day)
  {
    forall x, d :: x in s && from <= d <= to ==> !CoversDay(x, projectId, d)
  }

  /** Every weekday of [from, to] has entries, and they come to the allocation `x`. */
  predicate SteadyDays(byDate: map<Day, seq<Entry>>, from: Day, to: Day, x: int)
  {
    forall d :: from <= d <= to && !IsWeekend(d) ==>
      EntriesFor(byDate, d) != [] && Allocation(EntriesFor(byDate, d), HalfHour) == x
  }

  lemma NothingFound(s: seq<Assignment>, projectId: int, from: Day, to: Day, d: Day)
    requires CoversNone(s, projectId, from, to) && from <= d <= to
    ensures FindOnDate(s, projectId, d).None?
  {
  }

  /** Filing an assignment that ends before `from` keeps [from, to] uncovered. */
  lemma CoversNoneUpsert(s: seq<Assignment>, b: Assignment, projectId: int, from: Day, to: Day)
    requires CoversNone(s, projectId, from - 1, to) && b.endDate < from
    ensures CoversNone(Upsert(s, b), projectId, from, to)
  {
    UpsertContents(s, b);
  }

  /**
    What the date loop leaves when it carries `a` into a run from `cur` to
    `end`: `a` with its end moved to the run's last weekday (when the run
    has one), stored and indexed, with no other record or message changed
    and no other assignment added to the person's list.
   */
  ghost predicate ExtendedRun(w: World, cur: Day, end: Day, a: Assignment, personId: int, r: (World, Option<Assignment>))
  {
    var e := PrevWorkday(end + 1);
    && r.1 == Some(a.(endDate := if cur <= e then e else a.endDate))
    && r.0.store.records == w.store.records[a.id := r.1.value]
    && r.0.warnings == w.warnings
    && r.1.value in Lookup(r.0.index, personId)
    && forall y :: y in Lookup(r.0.index, personId) ==> y == r.1.value || (y in Lookup(w.index, personId) && y.id != a.id)
  }

  /**
    The carried assignment has the allocation of a run of weekdays that no
    other assignment covers: each weekday extends it, and the loop ends as
    ExtendedRun says.
   */
  lemma {:induction false} SyncDaysExtendsRun(w: World, cur: Day, end: Day, byDate: map<Day, seq<Entry>>, a: Assignment,
                                              personId: int, projectId: int, lastName: string, x: int)
    requires WorldValid(w) && Tracks(w, Some(a), personId, projectId, cur) && a in Lookup(w.index, personId)
    requires a.allocation == x && ValidAllocation(x)
    requires SteadyDays(byDate, cur, end, x)
    requires CoversNone(Lookup(w.index, personId), projectId, cur, end)
    ensures ExtendedRun(w, cur, end, a, personId, SyncDays(w, cur, end, byDate, Some(a), personId, projectId, lastName))
    decreases end - cur
  {
    if cur > end {
      assert w.store.records[a.id := a] == w.store.records;
      var s := Lookup(w.index, personId);
      forall y | y in s && y != a ensures y.id != a.id {
        assert personId in w.index && y in w.index[personId] && a in w.index[personId];
      }
    } else if IsWeekend(cur) {
      SyncDaysSkipsWeekend(w, cur, end, byDate, Some(a), personId, projectId, lastName);
      SyncDaysExtendsRun(w, cur + 1, end, byDate, a, personId, projectId, lastName, x);
      var r := SyncDays(w, cur + 1, end, byDate, Some(a), personId, projectId, lastName);
      ExtendedRunSkip(w, cur, end, a, personId, r);
    } else {
      var w1, ext := SyncDaysExtendStep(w, cur, end, byDate, a, personId, projectId, lastName, x);
      SyncDaysExtendsRun(w1, cur + 1, end, byDate, ext, personId, projectId, lastName, x);
      var r := SyncDays(w1, cur + 1, end, byDate, Some(ext), personId, projectId, lastName);
      ExtendedRunGrow(w, w1, cur, end, a, personId, r);
    }
  }

  /** A weekend day in front of a run changes nothing of what the run leaves. */
  lemma ExtendedRunSkip(w: World, cur: Day, end: Day, a: Assignment, personId: int, r: (World, Option<Assignment>))
    requires IsWeekend(cur) && ExtendedRun(w, cur + 1, end, a, personId, r)
    ensures ExtendedRun(w, cur, end, a, personId, r)
  {
  }

  /** A weekday in front of a run, to which the carried assignment was extended. */
  lemma ExtendedRunGrow(w: World, w1: World, cur: Day, end: Day, a: Assignment, personId: int, r: (World, Option<Assignment>))
    requires cur <= end && !IsWeekend(cur)
    requires w1.store.records == w.store.records[a.id := a.(endDate := cur)] && w1.warnings == w.warnings
    requires forall y :: y in Lookup(w1.index, personId) ==> y == a.(endDate := cur) || (y in Lookup(w.index, personId) && y.id != a.id)
    requires ExtendedRun(w1, cur + 1, end, a.(endDate := cur), personId, r)
    ensures ExtendedRun(w, cur, end, a, personId, r)
  {
    var e := PrevWorkday(end + 1);
    assert e >= cur;
    assert r.1 == Some(a.(endDate := e));
    assert r.0.store.records == w.store.records[a.id := r.1.value];
  }

  /** A weekend day of the date loop passes the state and the carried assignment on unchanged. */
  lemma SyncDaysSkipsWeekend(w: World, cur: Day, end: Day, byDate: map<Day, seq<Entry>>, last: Option<Assignment>,
                             personId: int, projectId: int, lastName: string)
    requires cur <= end && IsWeekend(cur)
    ensures SyncDays(w, cur, end, byDate, last, personId, projectId, lastName)
         == SyncDays(w, cur + 1, end, byDate, last, personId, projectId, lastName)
  {
    SyncDaySkipsWeekend(w, cur, EntriesFor(byDate, cur), last, personId, projectId, lastName);
  }

  /** One weekday of the run: the carried assignment is extended to it, and the run goes on from the next day. */
  lemma SyncDaysExtendStep(w: World, cur: Day, end: Day, byDate: map<Day, seq<Entry>>, a: Assignment,
                           personId: int, projectId: int, lastName: string, x: int)
    returns (w1: World, ext: Assignment)
    requires WorldValid(w) && Tracks(w, Some(a), personId, projectId, cur) && a in Lookup(w.index, personId)
    requires a.allocation == x && ValidAllocation(x)
    requires SteadyDays(byDate, cur, end, x)
    requires CoversNone(Lookup(w.index, personId), projectId, cur, end)
    requires cur <= end && !IsWeekend(cur)
    ensures ext == a.(endDate := cur)
    ensures SyncDays(w, cur, end, byDate, Some(a), personId, projectId, lastName)
         == SyncDays(w1, cur + 1, end, byDate, Some(ext), personId, projectId, lastName)
    ensures WorldValid(w1) && Tracks(w1, Some(ext), personId, projectId, cur + 1) && ext in Lookup(w1.index, personId)
    ensures CoversNone(Lookup(w1.index, personId), projectId, cur + 1, end)
    ensures w1.store.records == w.store.records[a.id := ext]
    ensures w1.warnings == w.warnings
    ensures forall y :: y in Lookup(w1.index, personId) ==> y == ext || (y in Lookup(w.index, personId) && y.id != a.id)
  {
    NothingFound(Lookup(w.index, personId), projectId, cur, end, cur);
    ext := a.(endDate := cur);
    w1 := UpdateW(w, ext);
    assert SyncDay(w, cur, EntriesFor(byDate, cur), Some(a), personId, projectId, lastName) == DayOutcome(w1, Some(ext), true);
    UpdateWValid(w, ext);
    CoversNoneUpsert(Lookup(w.index, personId), ext, projectId, cur + 1, end);
    UpsertContents(Lookup(w.index, personId), ext);
  }

  /**
    What the date loop leaves for a run from `cur` to `end` with nothing
    carried in: one new record, carried out, from the run's first weekday to
    its last with the allocation `x`; no other record or message changed,
    and in the person's list the new record is the only one added.
   */
  ghost predicate MergedRun(w: World, cur: Day, end: Day, personId: int, projectId: int, x: int, r: (World, Option<Assignment>))
  {
    && r.1.Some?
    && r.1.value == Assignment(r.1.value.id, personId, projectId, NextWorkday(cur - 1), PrevWorkday(end + 1), x)
    && r.1.value.id !in w.store.records
    && r.0.store.records == w.store.records[r.1.value.id := r.1.value]
    && r.0.warnings == w.warnings
    && r.1.value in Lookup(r.0.index, personId)
    && forall y :: y in Lookup(r.0.index, personId) ==> y == r.1.value || y in Lookup(w.index, personId)
  }

  /**
    Consecutive weekdays with the same allocation become one assignment.
    With nothing carried in, and no assignment covering a run of days whose
    weekdays all have entries of one accepted allocation and which holds a
    weekday, the date loop leaves the one record MergedRun describes.
   */
  lemma {:induction false} SyncDaysMergesRun(w: World, cur: Day, end: Day, byDate: map<Day, seq<Entry>>,
                                             personId: int, projectId: int, lastName: string, x: int)
    requires WorldValid(w) && ValidAllocation(x)
    requires SteadyDays(byDate, cur, end, x)
    requires CoversNone(Lookup(w.index, personId), projectId, cur, end)
    requires NextWorkday(cur - 1) <= end
    ensures MergedRun(w, cur, end, personId, projectId, x, SyncDays(w, cur, end, byDate, None, personId, projectId, lastName))
    decreases end - cur
  {
    if IsWeekend(cur) {
      assert NextWorkday(cur) == NextWorkday(cur - 1);
      SyncDaysSkipsWeekend(w, cur, end, byDate, None, personId, projectId, lastName);
      SyncDaysMergesRun(w, cur + 1, end, byDate, personId, projectId, lastName, x);
    } else {
      var w1, a1 := SyncDaysStartStep(w, cur, end, byDate, personId, projectId, lastName, x);
      SyncDaysExtendsRun(w1, cur + 1, end, byDate, a1, personId, projectId, lastName, x);
      var r := SyncDays(w1, cur + 1, end, byDate, Some(a1), personId, projectId, lastName);
      MergedRunStart(w, w1, cur, end, a1, personId, projectId, x, r);
    }
  }

  /** The run's first weekday: nothing is carried in, so a [cur, cur] record is created and carried on. */
  lemma SyncDaysStartStep(w: World, cur: Day, end: Day, byDate: map<Day, seq<Entry>>,
                          personId: int, projectId: int, lastName: string, x: int)
    returns (w1: World, a1: Assignment)
    requires WorldValid(w) && ValidAllocation(x)
    requires SteadyDays(byDate, cur, end, x)
    requires CoversNone(Lookup(w.index, personId), projectId, cur, end)
    requires cur <= end && !IsWeekend(cur)
    ensures a1 == Assignment(a1.id, personId, projectId, cur, cur, x) && a1.id !in w.store.records
    ensures SyncDays(w, cur, end, byDate, None, personId, projectId, lastName)
         == SyncDays(w1, cur + 1, end, byDate, Some(a1), personId, projectId, lastName)
    ensures WorldValid(w1) && Tracks(w1, Some(a1), personId, projectId, cur + 1) && a1 in Lookup(w1.index, personId)
    ensures CoversNone(Lookup(w1.index, personId), projectId, cur + 1, end)
    ensures w1.store.records == w.store.records[a1.id := a1]
    ensures w1.warnings == w.warnings
    ensures forall y :: y in Lookup(w1.index, personId) ==> y == a1 || y in Lookup(w.index, personId)
  {
    NothingFound(Lookup(w.index, personId), projectId, cur, end, cur);
    var o := CreateW(w, personId, projectId, cur, cur, x);
    w1, a1 := o.0, o.1;
    assert SyncDay(w, cur, EntriesFor(byDate, cur), None, personId, projectId, lastName) == DayOutcome(w1, Some(a1), true);
    CreateWValid(w, personId, projectId, cur, cur, x);
    CoversNoneUpsert(Lookup(w.index, personId), a1, projectId, cur + 1, end);
    UpsertContents(Lookup(w.index, personId), a1);
  }

  /** The record created on the run's first weekday, extended over the rest of the run. */
  lemma MergedRunStart(w: World, w1: World, cur: Day, end: Day, a1: Assignment, personId: int, projectId: int, x: int,
                       r: (World, Option<Assignment>))
    requires cur <= end && !IsWeekend(cur)
    requires a1 == Assignment(a1.id, personId, projectId, cur, cur, x) && a1.id !in w.store.records
    requires w1.store.records == w.store.records[a1.id := a1] && w1.warnings == w.warnings
    requires forall y :: y in Lookup(w1.index, personId) ==> y == a1 || y in Lookup(w.index, personId)
    requires ExtendedRun(w1, cur + 1, end, a1, personId, r)
    ensures MergedRun(w, cur, end, personId, projectId, x, r)
  {
    var e := PrevWorkday(end + 1);
    assert NextWorkday(cur - 1) == cur;
    assert e >= cur;
    assert r.1 == Some(a1.(endDate := e));
    assert r.0.store.records == w.store.records[a1.id := r.1.value];
  }

  /**
    A run the destination already holds as one assignment `a`, found on
    each of its weekdays, is left alone by the date loop: every weekday
    only carries `a` on.
   */
  lemma {:induction false} SyncDaysHeldRunIsNoOp(w: World, cur: Day, end: Day, byDate: map<Day, seq<Entry>>,
                                                 last: Option<Assignment>, a: Assignment,
                                                 personId: int, projectId: int, lastName: string)
    requires ValidAllocation(a.allocation) && SteadyDays(byDate, cur, end, a.allocation)
    requires forall d :: cur <= d <= end && !IsWeekend(d) ==>
      FindOnDate(Lookup(w.index, personId), projectId, d) == Some(a)
    requires last.None? || last == Some(a)
    ensures SyncDays(w, cur, end, byDate, last, personId, projectId, lastName).0 == w
    decreases end - cur
  {
    if cur <= end {
      if IsWeekend(cur) {
        SyncDaysHeldRunIsNoOp(w, cur + 1, end, byDate, last, a, personId, projectId, lastName);
      } else {
        assert SyncDay(w, cur, EntriesFor(byDate, cur), last, personId, projectId, lastName) == DayOutcome(w, Some(a), false);
        SyncDaysHeldRunIsNoOp(w, cur + 1, end, byDate, Some(a), a, personId, projectId, lastName);
      }
    }
  }

  /**
    Idempotence over the date loop: once a run of equal days has been
    synced into one assignment, syncing the same days again changes nothing.
   */
  lemma {:induction false} SyncDaysRunIsIdempotent(w: World, cur: Day, end: Day, byDate: map<Day, seq<Entry>>,
                                                   personId: int, projectId: int, lastName: string, x: int)
    requires WorldValid(w) && ValidAllocation(x)
    requires SteadyDays(byDate, cur, end, x)
    requires CoversNone(Lookup(w.index, personId), projectId, cur, end)
    requires NextWorkday(cur - 1) <= end
    ensures var r := SyncDays(w, cur, end, byDate, None, personId, projectId, lastName);
      SyncDays(r.0, cur, end, byDate, None, personId, projectId, lastName).0 == r.0
  {
    SyncDaysMergesRun(w, cur, end, byDate, personId, projectId, lastName, x);
    var r := SyncDays(w, cur, end, byDate, None, personId, projectId, lastName);
    var a := r.1.value;
    var s := Lookup(r.0.index, personId);
    var f, e := NextWorkday(cur - 1), PrevWorkday(end + 1);
    forall d | cur <= d <= end && !IsWeekend(d) ensures FindOnDate(s, projectId, d) == Some(a) {
      assert f <= d <= e;
      assert CoversDay(a, projectId, d);
      var found := FindOnDate(s, projectId, d);
      if found.Some? {
        var i :| 0 <= i < |s| && s[i] == found.value;
        assert s[i] in s;
      }
    }
    SyncDaysHeldRunIsNoOp(r.0, cur, end, byDate, None, a, personId, projectId, lastName);
  }

  /** The latest date of a non-empty date map: `max(array_keys($dateEntries))`. */
  ghost function MaxKey(byDate: map<Day, seq<Entry>>): (r: Day)
    requires byDate != map[]
    ensures r in byDate && forall d :: d in byDate ==> d <= r
  {
    MaxExists(byDate.Keys);
    var r :| r in byDate && forall d :: d in byDate ==> d <= r;
    r
  }

  lemma MaxExists(s: set<Day>)
    requires s != {}
    ensures exists r :: r in s && forall d :: d in s ==> d <= r
    decreases |s|
  {
    if forall y :: y !in s { assert false; }
    var x :| x in s;
    var t := s - {x};
    if t == {} {
      assert s == {x};
    } else {
      MaxExists(t);
      var r :| r in t && forall d :: d in t ==> d <= r;
      var m := if x > r then x else r;
      assert forall d :: d in s ==> d <= m by {
        forall d | d in s ensures d <= m { if d != x { assert d in t; } }
      }
    }
  }

  /** Records of people outside `people` are the same before and after. */
  ghost predicate SameOutsidePeople(before: map<int, Assignment>, after: map<int, Assignment>, people: set<int>)
  {
    forall id ::
      ((id in before && before[id].personId !in people) || (id in after && after[id].personId !in people))
      ==> id in before && id in after && before[id] == after[id]
  }

  lemma SameOutsidePeopleTrans(r0: map<int, Assignment>, r1: map<int, Assignment>, r2: map<int, Assignment>,
                               p0: set<int>, p1: set<int>)
    requires SameOutsidePeople(r0, r1, p0) && SameOutsidePeople(r1, r2, p1)
    ensures SameOutsidePeople(r0, r2, p0 + p1)
  {
    forall id | (id in r0 && r0[id].personId !in p0 + p1) || (id in r2 && r2[id].personId !in p0 + p1)
      ensures id in r0 && id in r2 && r0[id] == r2[id]
    {
      if id in r0 && r0[id].personId !in p0 + p1 {
        assert id in r1 && r1[id] == r0[id];
      } else {
        assert id in r1 && r1[id] == r2[id];
      }
    }
  }

  /**
    The project loop of syncUserEntries: a project without a destination
    link is reported; any other has its dates synced from `from` to its
    last entry date, starting with no carried assignment.
   */
  ghost function SyncGroups(w: World, groups: seq<ProjectEntries>, from: Day, personId: int, lastName: string,
                            linkedProjects: map<int, int>, hps: seq<HarvestProject>): World
    requires forall g :: g in groups ==> g.byDate != map[]
    decreases |groups|
  {
    if groups == [] then w
    else
      var g := groups[0];
      var w' := if g.projectId !in linkedProjects then Warn(w, ProjectNotFound(ProjectName(hps, g.projectId), g.projectId))
                else SyncDays(w, from, MaxKey(g.byDate), g.byDate, None, personId, linkedProjects[g.projectId], lastName).0;
      SyncGroups(w', groups[1..], from, personId, lastName, linkedProjects, hps)
  }

  /**
    Over the project loop the state stays valid, only the person's records
    change, messages are only added, and every unlinked project is reported.
   */
  lemma {:induction false} SyncGroupsKeepsValid(w: World, groups: seq<ProjectEntries>, from: Day, personId: int,
                                                lastName: string, linkedProjects: map<int, int>, hps: seq<HarvestProject>)
    requires WorldValid(w)
    requires forall g :: g in groups ==> g.byDate != map[]
    ensures var r := SyncGroups(w, groups, from, personId, lastName, linkedProjects, hps);
      && WorldValid(r)
      && SameOutsidePeople(w.store.records, r.store.records, {personId})
      && Extends(w.warnings, r.warnings)
      && forall g :: g in groups && g.projectId !in linkedProjects ==>
           ProjectNotFound(ProjectName(hps, g.projectId), g.projectId) in r.warnings
    decreases |groups|
  {
    if groups == [] {
      assert Extends(w.warnings, w.warnings);
    } else {
      var g := groups[0];
      var w' := if g.projectId !in linkedProjects then Warn(w, ProjectNotFound(ProjectName(hps, g.projectId), g.projectId))
                else SyncDays(w, from, MaxKey(g.byDate), g.byDate, None, personId, linkedProjects[g.projectId], lastName).0;
      if g.projectId in linkedProjects {
        SyncDaysKeepsValid(w, from, MaxKey(g.byDate), g.byDate, None, personId, linkedProjects[g.projectId], lastName);
      } else {
        assert w'.store == w.store;
      }
      assert forall h :: h in groups[1..] ==> h in groups;
      SyncGroupsKeepsValid(w', groups[1..], from, personId, lastName, linkedProjects, hps);
      var r := SyncGroups(w', groups[1..], from, personId, lastName, linkedProjects, hps);
      SameOutsidePeopleTrans(w.store.records, w'.store.records, r.store.records, {personId}, {personId});
      ExtendsTrans(w.warnings, w'.warnings, r.warnings);
      ExtendsTrans(w'.warnings, r.warnings, r.warnings);
      forall h | h in groups && h.projectId !in linkedProjects
        ensures ProjectNotFound(ProjectName(hps, h.projectId), h.projectId) in r.warnings
      {
        if h != g { assert h in groups[1..]; }
      }
    }
  }

  /** The entries the source fetched for a user, none when nothing was fetched. */
  function EntriesOf(userEntries: map<int, seq<Entry>>, userId: int): seq<Entry>
  {
    if userId in userEntries then userEntries[userId] else []
  }

  /**
    syncUserEntries, with the exception sync catches turned into the
    message it records: an unlinked user is reported, a linked one has
    each of its projects synced for the linked person.
   */
  ghost function SyncUser(w: World, u: HarvestUser, entries: seq<Entry>, from: Day, linkedUsers: map<int, int>,
                          linkedProjects: map<int, int>, hps: seq<HarvestProject>): World
  {
    if u.id !in linkedUsers then Warn(w, UserNotFound(u.firstName, u.lastName, u.id))
    else SyncGroups(w, GroupEntriesByProjectAndDate(entries), from, linkedUsers[u.id], u.lastName, linkedProjects, hps)
  }

  /** The user loop of sync. */
  ghost function SyncUsers(w: World, users: seq<HarvestUser>, userEntries: map<int, seq<Entry>>, from: Day,
                           linkedUsers: map<int, int>, linkedProjects: map<int, int>, hps: seq<HarvestProject>): World
    decreases |users|
  {
    if users == [] then w
    else
      var w' := SyncUser(w, users[0], EntriesOf(userEntries, users[0].id), from, linkedUsers, linkedProjects, hps);
      SyncUsers(w', users[1..], userEntries, from, linkedUsers, linkedProjects, hps)
  }

  /** The destination people the users are linked to. */
  ghost function LinkedPeople(users: seq<HarvestUser>, linkedUsers: map<int, int>): set<int>
  {
    set u | u in users && u.id in linkedUsers :: linkedUsers[u.id]
  }

  /**
    Syncing one user keeps the state valid, touches only the records of the
    person the user is linked to, and only adds messages; an unlinked user
    is reported and nothing else changes.
   */
  lemma SyncUserKeepsValid(w: World, u: HarvestUser, entries: seq<Entry>, from: Day, linkedUsers: map<int, int>,
                           linkedProjects: map<int, int>, hps: seq<HarvestProject>)
    requires WorldValid(w)
    ensures var r := SyncUser(w, u, entries, from, linkedUsers, linkedProjects, hps);
      && WorldValid(r)
      && SameOutsidePeople(w.store.records, r.store.records, LinkedPeople([u], linkedUsers))
      && Extends(w.warnings, r.warnings)
      && (u.id !in linkedUsers ==>
            r.store == w.store && r.index == w.index && UserNotFound(u.firstName, u.lastName, u.id) in r.warnings)
  {
    if u.id in linkedUsers {
      assert LinkedPeople([u], linkedUsers) == {linkedUsers[u.id]};
      SyncGroupsKeepsValid(w, GroupEntriesByProjectAndDate(entries), from, linkedUsers[u.id], u.lastName,
                           linkedProjects, hps);
    }
  }

  /**
    Over the whole user loop the state stays valid, the records of every
    person no user is linked to are untouched, messages are only added, and
    every unlinked user is reported.
   */
  lemma {:induction false} SyncUsersKeepsValid(w: World, users: seq<HarvestUser>, userEntries: map<int, seq<Entry>>,
                                               from: Day, linkedUsers: map<int, int>, linkedProjects: map<int, int>,
                                               hps: seq<HarvestProject>)
    requires WorldValid(w)
    ensures var r := SyncUsers(w, users, userEntries, from, linkedUsers, linkedProjects, hps);
      && WorldValid(r)
      && SameOutsidePeople(w.store.records, r.store.records, LinkedPeople(users, linkedUsers))
      && Extends(w.warnings, r.warnings)
      && forall u :: u in users && u.id !in linkedUsers ==> UserNotFound(u.firstName, u.lastName, u.id) in r.warnings
    decreases |users|
  {
    if users == [] {
      assert Extends(w.warnings, w.warnings);
    } else {
      var u := users[0];
      var w' := SyncUser(w, u, EntriesOf(userEntries, u.id), from, linkedUsers, linkedProjects, hps);
      SyncUserKeepsValid(w, u, EntriesOf(userEntries, u.id), from, linkedUsers, linkedProjects, hps);
      SyncUsersKeepsValid(w', users[1..], userEntries, from, linkedUsers, linkedProjects, hps);
      var r := SyncUsers(w', users[1..], userEntries, from, linkedUsers, linkedProjects, hps);
      SameOutsidePeopleTrans(w.store.records, w'.store.records, r.store.records,
                             LinkedPeople([u], linkedUsers), LinkedPeople(users[1..], linkedUsers));
      assert users == [u] + users[1..];
      PeopleOfConcat([u], users[1..], linkedUsers);
      ExtendsTrans(w.warnings, w'.warnings, r.warnings);
      ExtendsTrans(w'.warnings, r.warnings, r.warnings);
      forall v | v in users && v.id !in linkedUsers ensures UserNotFound(v.firstName, v.lastName, v.id) in r.warnings {
        if v != u { assert v in users[1..]; }
      }
    }
  }

  lemma PeopleOfConcat(a: seq<HarvestUser>, b: seq<HarvestUser>, linkedUsers: map<int, int>)
    ensures LinkedPeople(a + b, linkedUsers) == LinkedPeople(a, linkedUsers) + LinkedPeople(b, linkedUsers)
  {
    assert forall u :: u in a + b <==> u in a || u in b;
  }
}
